/**
 * What a run produces: the files of the response, and how each model
 * mirrors the declarations of its schema file in declaration order. Also
 * when a run fails: exactly when some message is unsupported (it nests a
 * message, or a field name has no camel-case form), or the template step
 * fails.
 */
module OutputFacts {
  import opened Options
  import opened Naming
  import opened ImportPaths
  import opened Schema
  import opened FieldTypes
  import opened Resolution
  import opened Tables
  import opened ImportFacts
  import opened FileImports

  /**
   * A field model carries the field's name, its camel-case form, its type as
   * spelled against table `t` and its repeatedness.
   */
  predicate FieldMirrors(v: FieldValues, f: FieldDesc, t: Table, file: FileDesc, h: Collaborators)
  {
    && v.name == f.name && CamelName(f.name, false) == Some(v.field)
    && v.typ == h.typeName(t, file, SingularFieldType(f)) && v.isRepeated == IsRepeated(f)
  }

  /**
   * A message model, for a message met when the table was `t`: the
   * message's names, its fields in order (typed once the message's own names
   * are registered), no nested types, its renamed nested enums.
   */
  predicate MessageMirrors(v: MessageValues, m: MessageDesc, t: Table, file: FileDesc, h: Collaborators)
  {
    var fieldTable := RegisterAll(t, file, MessageNames(m, h));
    && v.name == m.name && v.iface == h.interfaceName(m.name) && v.jsonIface == h.jsonInterfaceName(m.name)
    && m.nestedMessages == [] && v.nestedTypes == []
    && |v.fields| == |m.fields|
    && (forall k :: 0 <= k < |m.fields| ==> FieldMirrors(v.fields[k], m.fields[k], fieldTable, file, h))
    && v.nestedEnums == NestedEnums(m.name, m.nestedEnums)
  }

  /** A method model: the method's name, and its input and output types without their package, spelled against `t`. */
  predicate MethodMirrors(v: MethodValues, md: MethodDesc, t: Table, file: FileDesc, h: Collaborators)
  {
    && v.name == md.name
    && v.inputType == h.typeName(t, file, RemovePkg(md.inputType))
    && v.outputType == h.typeName(t, file, RemovePkg(md.outputType))
  }

  /**
   * A service model, for a service met when the table was `t`: the file's
   * package, the service's names, its methods in order (spelled once the
   * service is registered).
   */
  predicate ServiceMirrors(v: ServiceValues, s: ServiceDesc, t: Table, file: FileDesc, h: Collaborators)
  {
    var methodTable := Register(t, file, s.name);
    && v.pkg == file.pkg && v.name == s.name && v.iface == h.interfaceName(s.name)
    && |v.methods| == |s.methods|
    && (forall k :: 0 <= k < |s.methods| ==> MethodMirrors(v.methods[k], s.methods[k], methodTable, file, h))
  }

  /**
   * A file model, for a file met when the table was `t`: the file's enums,
   * messages and services in declaration order, each message and service
   * resolved against the table as it stood when the declaration was met;
   * and its imports are the files those declarations' references resolve to.
   */
  ghost predicate FileMirrors(model: FileModel, file: FileDesc, t: Table, h: Collaborators)
  {
    var enumTable := RegisterAll(t, file, EnumNames(file.enums));
    var messageTable := MessagesTable(enumTable, file, file.messages, h);
    && model.enums == FileEnums(file.enums)
    && |model.messages| == |file.messages|
    && (forall i :: 0 <= i < |file.messages| ==>
          MessageMirrors(model.messages[i], file.messages[i], MessagesTable(enumTable, file, file.messages[..i], h), file, h))
    && |model.services| == |file.services|
    && (forall i :: 0 <= i < |file.services| ==>
          ServiceMirrors(model.services[i], file.services[i], ServicesTable(messageTable, file, file.services[..i]), file, h))
    && ImportsResolved(model.imports, file, t, h)
  }

  /** A message the generator cannot handle: it nests a message, or a field name has no camel-case form. */
  predicate Unsupported(m: MessageDesc)
  {
    m.nestedMessages != [] || exists f :: f in m.fields && CamelName(f.name, false).None?
  }

  /** The bookkeeping of one step of a walk that appends: what came before stays, the new item comes next. */
  lemma AppendStep<T>(items: seq<T>, next: seq<T>, prev: seq<T>)
    requires |next| == |prev| + 1 && next[..|prev|] == prev
    requires |next| <= |items| && items[..|next|] == next
    ensures items[..|prev|] == prev && items[|prev|] == next[|prev|]
  {
    assert items[..|prev|] == items[..|next|][..|prev|];
  }

  /** A field walk fails exactly when some field name has no camel-case form. */
  lemma {:induction false} FieldsPassFails(file: FileDesc, fs: seq<FieldDesc>, acc: Scan<FieldValues>, h: Collaborators)
    ensures FieldsPass(file, fs, acc, h).Err? <==> exists f :: f in fs && CamelName(f.name, false).None?
  {
    if fs != [] {
      assert forall f :: f in fs <==> f == fs[0] || f in fs[1..];
      match FieldStep(file, fs[0], acc, h)
      case Err(_) =>
      case Ok(next) => FieldsPassFails(file, fs[1..], next, h);
    }
  }

  lemma FieldStepOk(file: FileDesc, f: FieldDesc, acc: Scan<FieldValues>, h: Collaborators)
    requires FieldStep(file, f, acc, h).Ok?
    ensures var next := FieldStep(file, f, acc, h).value;
      && next.table == acc.table && next.items == acc.items + [FieldModel(acc.table, file, f, h).value]
      && FieldModel(acc.table, file, f, h).Ok?
  {
  }

  /** `vs` are the models of fields `fs`, one each, in order. */
  predicate FieldsModelled(t: Table, file: FileDesc, fs: seq<FieldDesc>, vs: seq<FieldValues>, h: Collaborators)
    decreases fs
  {
    && |vs| == |fs|
    && (fs != [] ==> FieldModel(t, file, fs[0], h) == Ok(vs[0]) && FieldsModelled(t, file, fs[1..], vs[1..], h))
  }

  lemma {:induction false} FieldsModelledAt(t: Table, file: FileDesc, fs: seq<FieldDesc>, vs: seq<FieldValues>, h: Collaborators, j: nat)
    requires FieldsModelled(t, file, fs, vs, h) && j < |fs|
    ensures FieldModel(t, file, fs[j], h) == Ok(vs[j])
    decreases fs
  {
    if j > 0 {
      FieldsModelledAt(t, file, fs[1..], vs[1..], h, j - 1);
    }
  }

  lemma {:induction false} FieldsPassItems(file: FileDesc, fs: seq<FieldDesc>, acc: Scan<FieldValues>, h: Collaborators)
    ensures var r := FieldsPass(file, fs, acc, h);
      r.Ok? ==>
        && |acc.items| <= |r.value.items|
        && r.value.items[..|acc.items|] == acc.items
        && FieldsModelled(acc.table, file, fs, r.value.items[|acc.items|..], h)
  {
    if fs != [] {
      match FieldStep(file, fs[0], acc, h)
      case Err(_) =>
      case Ok(next) =>
        FieldStepOk(file, fs[0], acc, h);
        FieldsPassItems(file, fs[1..], next, h);
        var r := FieldsPass(file, fs[1..], next, h);
        if r.Ok? {
          var items := r.value.items;
          AppendStep(items, next.items, acc.items);
          assert items[|acc.items|..][0] == items[|acc.items|];
          assert items[|acc.items|..][1..] == items[|next.items|..];
        }
    }
  }

  /**
   * A walk over fields fails exactly when some field name has no
   * camel-case form; otherwise it appends one model per field, in order.
   */
  lemma FieldsPassOutcome(file: FileDesc, fs: seq<FieldDesc>, acc: Scan<FieldValues>, h: Collaborators)
    ensures var r := FieldsPass(file, fs, acc, h);
      && (r.Err? <==> exists f :: f in fs && CamelName(f.name, false).None?)
      && (r.Ok? ==>
            && |r.value.items| == |acc.items| + |fs|
            && r.value.items[..|acc.items|] == acc.items
            && forall j :: 0 <= j < |fs| ==> FieldModel(acc.table, file, fs[j], h) == Ok(r.value.items[|acc.items| + j]))
  {
    FieldsPassFails(file, fs, acc, h);
    FieldsPassItems(file, fs, acc, h);
    var r := FieldsPass(file, fs, acc, h);
    if r.Ok? {
      var vs := r.value.items[|acc.items|..];
      forall j | 0 <= j < |fs|
        ensures FieldModel(acc.table, file, fs[j], h) == Ok(r.value.items[|acc.items| + j])
      {
        FieldsModelledAt(acc.table, file, fs, vs, h, j);
      }
    }
  }

  /** One message fails exactly when it is unsupported. */
  lemma MessageStepFails(file: FileDesc, m: MessageDesc, acc: Scan<MessageValues>, h: Collaborators)
    ensures MessageStep(file, m, acc, h).Err? <==> Unsupported(m)
  {
    var t := RegisterAll(acc.table, file, MessageNames(m, h));
    FieldsPassFails(file, m.fields, Scan(t, acc.imports, []), h);
  }

  /** A supported message appends a model that mirrors it, and leaves its names registered. */
  /** A field model that is built mirrors its field. */
  lemma FieldModelMirrors(t: Table, file: FileDesc, f: FieldDesc, h: Collaborators, v: FieldValues)
    requires FieldModel(t, file, f, h) == Ok(v)
    ensures FieldMirrors(v, f, t, file, h)
  {
  }

  /** A walk over fields from no items: item `k` mirrors field `k`, typed against the walk's table. */
  lemma FieldsPassFresh(file: FileDesc, fs: seq<FieldDesc>, t: Table, imports: Imports, h: Collaborators)
    ensures var r := FieldsPass(file, fs, Scan(t, imports, []), h);
      r.Ok? ==> |r.value.items| == |fs| && forall k :: 0 <= k < |fs| ==> FieldMirrors(r.value.items[k], fs[k], t, file, h)
  {
    FieldsPassItems(file, fs, Scan(t, imports, []), h);
    var r := FieldsPass(file, fs, Scan(t, imports, []), h);
    if r.Ok? {
      var vs := r.value.items;
      assert vs[0..] == vs;
      forall k | 0 <= k < |fs|
        ensures FieldMirrors(vs[k], fs[k], t, file, h)
      {
        FieldsModelledAt(t, file, fs, vs, h, k);
        FieldModelMirrors(t, file, fs[k], h, vs[k]);
      }
    }
  }

  lemma MessageStepItems(file: FileDesc, m: MessageDesc, acc: Scan<MessageValues>, h: Collaborators)
    ensures var r := MessageStep(file, m, acc, h);
      r.Ok? ==> |r.value.items| == |acc.items| + 1 && r.value.items[..|acc.items|] == acc.items
                && MessageMirrors(r.value.items[|acc.items|], m, acc.table, file, h)
                && r.value.table == RegisterAll(acc.table, file, MessageNames(m, h))
  {
    var t := RegisterAll(acc.table, file, MessageNames(m, h));
    FieldsPassFresh(file, m.fields, t, acc.imports, h);
  }

  /** A message fails exactly when it is unsupported; otherwise its model mirrors it. */
  lemma MessageStepOutcome(file: FileDesc, m: MessageDesc, acc: Scan<MessageValues>, h: Collaborators)
    ensures var r := MessageStep(file, m, acc, h);
      && (r.Err? <==> Unsupported(m))
      && (r.Ok? ==> |r.value.items| == |acc.items| + 1 && r.value.items[..|acc.items|] == acc.items
                    && MessageMirrors(r.value.items[|acc.items|], m, acc.table, file, h))
  {
    MessageStepFails(file, m, acc, h);
    MessageStepItems(file, m, acc, h);
  }

  /** A message walk fails exactly when one of the messages is unsupported. */
  lemma {:induction false} MessagesPassFails(file: FileDesc, ms: seq<MessageDesc>, acc: Scan<MessageValues>, h: Collaborators)
    ensures MessagesPass(file, ms, acc, h).Err? <==> exists m :: m in ms && Unsupported(m)
  {
    if ms != [] {
      MessageStepFails(file, ms[0], acc, h);
      assert forall m :: m in ms <==> m == ms[0] || m in ms[1..];
      match MessageStep(file, ms[0], acc, h)
      case Err(_) =>
      case Ok(next) => MessagesPassFails(file, ms[1..], next, h);
    }
  }

  /** `vs` mirror messages `ms`, one each, in order, met from table `t` on. */
  predicate MessagesMirrored(ms: seq<MessageDesc>, vs: seq<MessageValues>, t: Table, file: FileDesc, h: Collaborators)
    decreases ms
  {
    && |vs| == |ms|
    && (ms != [] ==>
          && MessageMirrors(vs[0], ms[0], t, file, h)
          && MessagesMirrored(ms[1..], vs[1..], RegisterAll(t, file, MessageNames(ms[0], h)), file, h))
  }

  lemma {:induction false} MessagesMirroredAt(ms: seq<MessageDesc>, vs: seq<MessageValues>, t: Table, file: FileDesc, h: Collaborators, j: nat)
    requires MessagesMirrored(ms, vs, t, file, h) && j < |ms|
    ensures MessageMirrors(vs[j], ms[j], MessagesTable(t, file, ms[..j], h), file, h)
    decreases ms
  {
    if j > 0 {
      var t' := RegisterAll(t, file, MessageNames(ms[0], h));
      MessagesMirroredAt(ms[1..], vs[1..], t', file, h, j - 1);
      assert ms[..j][0] == ms[0] && ms[..j][1..] == ms[1..][..j - 1];
      assert MessagesTable(t, file, ms[..j], h) == MessagesTable(t', file, ms[1..][..j - 1], h);
    } else {
      assert ms[..0] == [];
    }
  }

  lemma {:induction false} MessagesPassItems(file: FileDesc, ms: seq<MessageDesc>, acc: Scan<MessageValues>, h: Collaborators)
    ensures var r := MessagesPass(file, ms, acc, h);
      r.Ok? ==>
        && |acc.items| <= |r.value.items|
        && r.value.items[..|acc.items|] == acc.items
        && MessagesMirrored(ms, r.value.items[|acc.items|..], acc.table, file, h)
        && r.value.table == MessagesTable(acc.table, file, ms, h)
  {
    if ms != [] {
      MessageStepItems(file, ms[0], acc, h);
      match MessageStep(file, ms[0], acc, h)
      case Err(_) =>
      case Ok(next) =>
        MessagesPassItems(file, ms[1..], next, h);
        var r := MessagesPass(file, ms[1..], next, h);
        if r.Ok? {
          var items := r.value.items;
          AppendStep(items, next.items, acc.items);
          assert items[|acc.items|..][0] == items[|acc.items|];
          assert items[|acc.items|..][1..] == items[|next.items|..];
        }
    }
  }

  /**
   * A walk over messages fails exactly when one of them is unsupported;
   * otherwise it appends one model per message, in order.
   */
  lemma MessagesPassOutcome(file: FileDesc, ms: seq<MessageDesc>, acc: Scan<MessageValues>, h: Collaborators)
    ensures var r := MessagesPass(file, ms, acc, h);
      && (r.Err? <==> exists m :: m in ms && Unsupported(m))
      && (r.Ok? ==>
            && |r.value.items| == |acc.items| + |ms|
            && r.value.items[..|acc.items|] == acc.items
            && r.value.table == MessagesTable(acc.table, file, ms, h)
            && forall j :: 0 <= j < |ms| ==>
                 MessageMirrors(r.value.items[|acc.items| + j], ms[j], MessagesTable(acc.table, file, ms[..j], h), file, h))
  {
    MessagesPassFails(file, ms, acc, h);
    MessagesPassItems(file, ms, acc, h);
    var r := MessagesPass(file, ms, acc, h);
    if r.Ok? {
      var vs := r.value.items[|acc.items|..];
      forall j | 0 <= j < |ms|
        ensures MessageMirrors(r.value.items[|acc.items| + j], ms[j], MessagesTable(acc.table, file, ms[..j], h), file, h)
      {
        MessagesMirroredAt(ms, vs, acc.table, file, h, j);
      }
    }
  }

  /** `vs` mirror methods `mds`, one each, in order, spelled against `t`. */
  predicate MethodsMirrored(mds: seq<MethodDesc>, vs: seq<MethodValues>, t: Table, file: FileDesc, h: Collaborators)
    decreases mds
  {
    && |vs| == |mds|
    && (mds != [] ==> MethodMirrors(vs[0], mds[0], t, file, h) && MethodsMirrored(mds[1..], vs[1..], t, file, h))
  }

  lemma {:induction false} MethodsMirroredAt(mds: seq<MethodDesc>, vs: seq<MethodValues>, t: Table, file: FileDesc, h: Collaborators, j: nat)
    requires MethodsMirrored(mds, vs, t, file, h) && j < |mds|
    ensures MethodMirrors(vs[j], mds[j], t, file, h)
    decreases mds
  {
    if j > 0 {
      MethodsMirroredAt(mds[1..], vs[1..], t, file, h, j - 1);
    }
  }

  lemma {:induction false} MethodsPassItems(file: FileDesc, mds: seq<MethodDesc>, acc: Scan<MethodValues>, h: Collaborators)
    ensures var r := MethodsPass(file, mds, acc, h);
      && |acc.items| <= |r.items|
      && r.items[..|acc.items|] == acc.items
      && MethodsMirrored(mds, r.items[|acc.items|..], acc.table, file, h)
      && r.table == acc.table
  {
    if mds != [] {
      var next := MethodStep(file, mds[0], acc, h);
      MethodStepMirrors(file, mds[0], acc, h);
      MethodsPassItems(file, mds[1..], next, h);
      var items := MethodsPass(file, mds[1..], next, h).items;
      AppendStep(items, next.items, acc.items);
      assert items[|acc.items|..][0] == items[|acc.items|];
      assert items[|acc.items|..][1..] == items[|next.items|..];
    }
  }

  /** One method appends a model that mirrors it, and keeps the table. */
  lemma MethodStepMirrors(file: FileDesc, md: MethodDesc, acc: Scan<MethodValues>, h: Collaborators)
    ensures var r := MethodStep(file, md, acc, h);
      && |r.items| == |acc.items| + 1 && r.items[..|acc.items|] == acc.items
      && MethodMirrors(r.items[|acc.items|], md, acc.table, file, h)
      && r.table == acc.table
  {
  }

  /**
   * A walk over methods appends one model per method, in order: its name,
   * and `typeName` of its input and output types without their package,
   * against the table the walk started from, which it leaves unchanged.
   */
  lemma MethodsPassOutcome(file: FileDesc, mds: seq<MethodDesc>, acc: Scan<MethodValues>, h: Collaborators)
    ensures var r := MethodsPass(file, mds, acc, h);
      && |r.items| == |acc.items| + |mds|
      && r.items[..|acc.items|] == acc.items
      && r.table == acc.table
      && forall j :: 0 <= j < |mds| ==>
           r.items[|acc.items| + j] == MethodValues(mds[j].name, h.typeName(acc.table, file, RemovePkg(mds[j].inputType)),
                                                    h.typeName(acc.table, file, RemovePkg(mds[j].outputType)))
  {
    MethodsPassItems(file, mds, acc, h);
    var r := MethodsPass(file, mds, acc, h);
    forall j | 0 <= j < |mds|
      ensures MethodMirrors(r.items[|acc.items| + j], mds[j], acc.table, file, h)
    {
      MethodsMirroredAt(mds, r.items[|acc.items|..], acc.table, file, h, j);
    }
  }

  /** One service appends a model that mirrors it, and leaves its name registered. */
  lemma ServiceStepOutcome(file: FileDesc, s: ServiceDesc, acc: Scan<ServiceValues>, h: Collaborators)
    ensures var r := ServiceStep(file, s, acc, h);
      |r.items| == |acc.items| + 1 && r.items[..|acc.items|] == acc.items
      && ServiceMirrors(r.items[|acc.items|], s, acc.table, file, h)
      && r.table == Register(acc.table, file, s.name)
  {
    var t := Register(acc.table, file, s.name);
    MethodsPassOutcome(file, s.methods, Scan(t, acc.imports, []), h);
  }

  /** `vs` mirror services `ss` of `file`, one each, in order, met from table `t` on. */
  predicate ServicesMirrored(ss: seq<ServiceDesc>, vs: seq<ServiceValues>, t: Table, file: FileDesc, h: Collaborators)
    decreases ss
  {
    && |vs| == |ss|
    && (ss != [] ==>
          && ServiceMirrors(vs[0], ss[0], t, file, h)
          && ServicesMirrored(ss[1..], vs[1..], Register(t, file, ss[0].name), file, h))
  }

  lemma {:induction false} ServicesMirroredAt(ss: seq<ServiceDesc>, vs: seq<ServiceValues>, t: Table, file: FileDesc, h: Collaborators, j: nat)
    requires ServicesMirrored(ss, vs, t, file, h) && j < |ss|
    ensures ServiceMirrors(vs[j], ss[j], ServicesTable(t, file, ss[..j]), file, h)
    decreases ss
  {
    if j > 0 {
      var t' := Register(t, file, ss[0].name);
      ServicesMirroredAt(ss[1..], vs[1..], t', file, h, j - 1);
      assert ss[..j][0] == ss[0] && ss[..j][1..] == ss[1..][..j - 1];
      assert ServicesTable(t, file, ss[..j]) == ServicesTable(t', file, ss[1..][..j - 1]);
    } else {
      assert ss[..0] == [];
    }
  }

  lemma {:induction false} ServicesPassItems(file: FileDesc, ss: seq<ServiceDesc>, acc: Scan<ServiceValues>, h: Collaborators)
    ensures var r := ServicesPass(file, ss, acc, h);
      && |acc.items| <= |r.items|
      && r.items[..|acc.items|] == acc.items
      && ServicesMirrored(ss, r.items[|acc.items|..], acc.table, file, h)
      && r.table == ServicesTable(acc.table, file, ss)
  {
    if ss != [] {
      var next := ServiceStep(file, ss[0], acc, h);
      ServiceStepOutcome(file, ss[0], acc, h);
      ServicesPassItems(file, ss[1..], next, h);
      var items := ServicesPass(file, ss[1..], next, h).items;
      AppendStep(items, next.items, acc.items);
      assert items[|acc.items|..][0] == items[|acc.items|];
      assert items[|acc.items|..][1..] == items[|next.items|..];
    }
  }

  /** A walk over services appends one model per service, in order. */
  lemma ServicesPassOutcome(file: FileDesc, ss: seq<ServiceDesc>, acc: Scan<ServiceValues>, h: Collaborators)
    ensures var r := ServicesPass(file, ss, acc, h);
      && |r.items| == |acc.items| + |ss|
      && r.items[..|acc.items|] == acc.items
      && r.table == ServicesTable(acc.table, file, ss)
      && forall j :: 0 <= j < |ss| ==>
           ServiceMirrors(r.items[|acc.items| + j], ss[j], ServicesTable(acc.table, file, ss[..j]), file, h)
  {
    ServicesPassItems(file, ss, acc, h);
    var r := ServicesPass(file, ss, acc, h);
    forall j | 0 <= j < |ss|
      ensures ServiceMirrors(r.items[|acc.items| + j], ss[j], ServicesTable(acc.table, file, ss[..j]), file, h)
    {
      ServicesMirroredAt(ss, r.items[|acc.items|..], acc.table, file, h, j);
    }
  }

  /** A message walk started afresh: its models, by position, and the table it leaves. */
  lemma MessagesPassFresh(file: FileDesc, ms: seq<MessageDesc>, t: Table, imports: Imports, h: Collaborators)
    ensures var r := MessagesPass(file, ms, Scan(t, imports, []), h);
      r.Ok? ==>
        && |r.value.items| == |ms| && r.value.table == MessagesTable(t, file, ms, h)
        && forall j :: 0 <= j < |ms| ==> MessageMirrors(r.value.items[j], ms[j], MessagesTable(t, file, ms[..j], h), file, h)
  {
    MessagesPassItems(file, ms, Scan(t, imports, []), h);
    var r := MessagesPass(file, ms, Scan(t, imports, []), h);
    if r.Ok? {
      var vs := r.value.items;
      assert vs[0..] == vs;
      forall j | 0 <= j < |ms|
        ensures MessageMirrors(vs[j], ms[j], MessagesTable(t, file, ms[..j], h), file, h)
      {
        MessagesMirroredAt(ms, vs, t, file, h, j);
      }
    }
  }

  /** A service walk started afresh: its models, by position, and the table it leaves. */
  lemma ServicesPassFresh(file: FileDesc, ss: seq<ServiceDesc>, t: Table, imports: Imports, h: Collaborators)
    ensures var r := ServicesPass(file, ss, Scan(t, imports, []), h);
      && |r.items| == |ss| && r.table == ServicesTable(t, file, ss)
      && forall j :: 0 <= j < |ss| ==> ServiceMirrors(r.items[j], ss[j], ServicesTable(t, file, ss[..j]), file, h)
  {
    ServicesPassItems(file, ss, Scan(t, imports, []), h);
    var vs := ServicesPass(file, ss, Scan(t, imports, []), h).items;
    assert vs[0..] == vs;
    forall j | 0 <= j < |ss|
      ensures ServiceMirrors(vs[j], ss[j], ServicesTable(t, file, ss[..j]), file, h)
    {
      ServicesMirroredAt(ss, vs, t, file, h, j);
    }
  }

  /** On success, a file's model mirrors the file and its text is what the template step rendered from it. */
  lemma FilePassMirrors(t: Table, file: FileDesc, h: Collaborators)
    ensures var r := FilePass(t, file, h);
      r.Ok? ==> FileMirrors(r.value.model, file, t, h) && h.compile(r.value.model) == Rendered(r.value.text)
  {
    var t1 := RegisterAll(t, file, EnumNames(file.enums));
    var mr := MessagesPass(file, file.messages, Scan(t1, map[], []), h);
    MessagesPassFresh(file, file.messages, t1, map[], h);
    FilePassImports(t, file, h);
    if mr.Ok? {
      ServicesPassFresh(file, file.services, mr.value.table, mr.value.imports, h);
    }
  }

  /** A file pass leaves the table holding the file's enums, messages and services. */
  lemma FilePassTable(t: Table, file: FileDesc, h: Collaborators)
    ensures var r := FilePass(t, file, h);
      r.Ok? ==> r.value.table == FileTable(t, file, h)
  {
    var t1 := RegisterAll(t, file, EnumNames(file.enums));
    var mr := MessagesPass(file, file.messages, Scan(t1, map[], []), h);
    MessagesPassFresh(file, file.messages, t1, map[], h);
    if mr.Ok? {
      ServicesPassFresh(file, file.services, mr.value.table, mr.value.imports, h);
    }
  }

  /**
   * One schema file fails on an unsupported message, or else exactly
   * when the template step fails.
   */
  lemma FilePassFailure(t: Table, file: FileDesc, h: Collaborators)
    ensures var r := FilePass(t, file, h);
      && ((exists m :: m in file.messages && Unsupported(m)) ==> r.Err? && !r.fatal.TemplateFailed?)
      && (r.Err? && !(exists m :: m in file.messages && Unsupported(m)) ==> r.fatal.TemplateFailed?)
  {
    var t1 := RegisterAll(t, file, EnumNames(file.enums));
    MessagesPassOutcome(file, file.messages, Scan(t1, map[], []), h);
    UnsupportedFatal(file, file.messages, Scan(t1, map[], []), h);
  }

  /** The fatal condition of a failed message walk is never a template failure. */
  lemma {:induction false} UnsupportedFatal(file: FileDesc, ms: seq<MessageDesc>, acc: Scan<MessageValues>, h: Collaborators)
    ensures var r := MessagesPass(file, ms, acc, h);
      r.Err? ==> r.fatal.NestedMessage? || r.fatal.CamelCasePanic?
  {
    if ms != [] {
      var m := ms[0];
      var t := RegisterAll(acc.table, file, MessageNames(m, h));
      FieldsPanicOnly(file, m.fields, Scan(t, acc.imports, []), h);
      match MessageStep(file, m, acc, h)
      case Err(_) =>
      case Ok(next) => UnsupportedFatal(file, ms[1..], next, h);
    }
  }

  lemma {:induction false} FieldsPanicOnly(file: FileDesc, fs: seq<FieldDesc>, acc: Scan<FieldValues>, h: Collaborators)
    ensures var r := FieldsPass(file, fs, acc, h);
      r.Err? ==> r.fatal.CamelCasePanic?
  {
    if fs != [] {
      match FieldStep(file, fs[0], acc, h)
      case Err(_) =>
      case Ok(next) => FieldsPanicOnly(file, fs[1..], next, h);
    }
  }

  /**
   * A generated file and its model for schema file `file`, met when the
   * table was `t`: named after the file with a `.ts` extension, holding what
   * the template step rendered from a model that mirrors the file.
   */
  ghost predicate Produced(out: OutFile, model: FileModel, file: FileDesc, t: Table, h: Collaborators)
  {
    out.name == TsFileName(file.name) && h.compile(model) == Rendered(out.content) && FileMirrors(model, file, t, h)
  }

  /** A schema file that passes produces its generated file and model, and registers its declarations. */
  lemma FilePassProduced(t: Table, file: FileDesc, h: Collaborators)
    requires FilePass(t, file, h).Ok?
    ensures var out := FilePass(t, file, h).value;
      Produced(OutFile(TsFileName(file.name), out.text), out.model, file, t, h) && out.table == FileTable(t, file, h)
  {
    FilePassMirrors(t, file, h);
    FilePassTable(t, file, h);
  }

  /** A successful walk appends one generated file and one model per schema file, after what was there. */
  lemma {:induction false} GeneratePassShape(t: Table, files: seq<FileDesc>, acc: Response, h: Collaborators)
    ensures var r := GeneratePass(t, files, acc, h);
      r.Ok? ==>
        && |r.value.files| == |acc.files| + |files| && r.value.files[..|acc.files|] == acc.files
        && |r.value.models| == |acc.models| + |files| && r.value.models[..|acc.models|] == acc.models
    decreases files
  {
    if files != [] {
      match FilePass(t, files[0], h)
      case Err(_) =>
      case Ok(out) =>
        var next := Response(acc.files + [OutFile(TsFileName(files[0].name), out.text)], acc.models + [out.model]);
        GeneratePassShape(out.table, files[1..], next, h);
        var r := GeneratePass(out.table, files[1..], next, h);
        if r.Ok? {
          AppendStep(r.value.files, next.files, acc.files);
          AppendStep(r.value.models, next.models, acc.models);
        }
    }
  }

  /**
   * `P` holds of the elements of `xs`, `ys` and `zs` at each position, with a
   * state that starts at `s` and that `next` advances past each element of
   * `zs`; the three have the same length.
   */
  predicate Chained<S, A, B, C>(P: (S, A, B, C) -> bool, next: (S, C) -> S, s: S, xs: seq<A>, ys: seq<B>, zs: seq<C>)
    decreases zs
  {
    && |xs| == |zs| && |ys| == |zs|
    && (zs != [] ==> P(s, xs[0], ys[0], zs[0]) && Chained(P, next, next(s, zs[0]), xs[1..], ys[1..], zs[1..]))
  }

  /** The state `next` reaches from `s` past the elements of `zs`. */
  function Advance<S, C>(next: (S, C) -> S, s: S, zs: seq<C>): (r: S)
    decreases zs
  {
    if zs == [] then s else Advance(next, next(s, zs[0]), zs[1..])
  }

  /** `Chained`, read at one position. */
  lemma {:induction false} ChainedAt<S, A, B, C>(P: (S, A, B, C) -> bool, next: (S, C) -> S, s: S, xs: seq<A>, ys: seq<B>, zs: seq<C>, i: nat)
    requires Chained(P, next, s, xs, ys, zs) && i < |zs|
    ensures P(Advance(next, s, zs[..i]), xs[i], ys[i], zs[i])
    decreases i
  {
    if i > 0 {
      ChainedAt(P, next, next(s, zs[0]), xs[1..], ys[1..], zs[1..], i - 1);
      assert xs[1..][i - 1] == xs[i] && ys[1..][i - 1] == ys[i] && zs[1..][i - 1] == zs[i];
      assert zs[..i][0] == zs[0] && zs[..i][1..] == zs[1..][..i - 1];
    } else {
      assert zs[..0] == [];
    }
  }

  /** `FilesTable` is the table `FileTable` reaches file by file. */
  lemma {:induction false} FilesTableAdvance(t: Table, files: seq<FileDesc>, h: Collaborators)
    ensures Advance((t', file) => FileTable(t', file, h), t, files) == FilesTable(t, files, h)
    decreases files
  {
    if files != [] {
      FilesTableAdvance(FileTable(t, files[0], h), files[1..], h);
    }
  }

  /**
   * Generated files and models for a list of schema files met from table
   * `t` on, position by position: output `k` and model `k` are produced
   * from schema file `k`, against the table left by the files before it.
   */
  ghost predicate AllProduced(t: Table, outs: seq<OutFile>, models: seq<FileModel>, files: seq<FileDesc>, h: Collaborators)
  {
    Chained((t', out, model, file) => Produced(out, model, file, t', h), (t', file) => FileTable(t', file, h), t, outs, models, files)
  }

  /**
   * The step of `GeneratePassOutcome`: what a successful walk over the rest
   * of the files gives after the first file's output, it gives for all of
   * them after what was there.
   */
  lemma GeneratePassStep(files: seq<FileDesc>, acc: Response, t: Table, h: Collaborators, o: OutFile, m: FileModel, res: Response)
    requires files != [] && Produced(o, m, files[0], t, h)
    requires var next := Response(acc.files + [o], acc.models + [m]);
      && |res.files| == |next.files| + |files[1..]| && res.files[..|next.files|] == next.files
      && |res.models| == |next.models| + |files[1..]| && res.models[..|next.models|] == next.models
      && AllProduced(FileTable(t, files[0], h), res.files[|next.files|..], res.models[|next.models|..], files[1..], h)
    ensures && |res.files| == |acc.files| + |files| && res.files[..|acc.files|] == acc.files
            && |res.models| == |acc.models| + |files| && res.models[..|acc.models|] == acc.models
            && AllProduced(t, res.files[|acc.files|..], res.models[|acc.models|..], files, h)
  {
    var next := Response(acc.files + [o], acc.models + [m]);
    AppendStep(res.files, next.files, acc.files);
    AppendStep(res.models, next.models, acc.models);
    var outs, models := res.files[|acc.files|..], res.models[|acc.models|..];
    assert outs[0] == o && models[0] == m;
    assert outs[1..] == res.files[|next.files|..] && models[1..] == res.models[|next.models|..];
  }

  /**
   * A successful walk appends, for each schema file in order, a file named
   * after it with a `.ts` extension, holding the rendering of a model that
   * mirrors it.
   */
  lemma {:induction false} GeneratePassOutcome(t: Table, files: seq<FileDesc>, acc: Response, h: Collaborators)
    ensures var r := GeneratePass(t, files, acc, h);
      r.Ok? ==>
        && |r.value.files| == |acc.files| + |files| && r.value.files[..|acc.files|] == acc.files
        && |r.value.models| == |acc.models| + |files| && r.value.models[..|acc.models|] == acc.models
        && AllProduced(t, r.value.files[|acc.files|..], r.value.models[|acc.models|..], files, h)
    decreases files
  {
    if files != [] {
      match FilePass(t, files[0], h)
      case Err(_) =>
      case Ok(out) =>
        var o := OutFile(TsFileName(files[0].name), out.text);
        var next := Response(acc.files + [o], acc.models + [out.model]);
        GeneratePassOutcome(out.table, files[1..], next, h);
        var r := GeneratePass(out.table, files[1..], next, h);
        if r.Ok? {
          FilePassProduced(t, files[0], h);
          GeneratePassStep(files, acc, t, h, o, out.model, r.value);
        }
    }
  }

  lemma {:induction false} GeneratePassRejects(t: Table, files: seq<FileDesc>, acc: Response, h: Collaborators, i: nat, m: MessageDesc)
    requires i < |files| && m in files[i].messages && Unsupported(m)
    ensures GeneratePass(t, files, acc, h).Err?
    decreases files
  {
    if i == 0 {
      FilePassFailure(t, files[0], h);
    } else {
      match FilePass(t, files[0], h)
      case Err(_) =>
      case Ok(out) =>
        var next := Response(acc.files + [OutFile(TsFileName(files[0].name), out.text)], acc.models + [out.model]);
        assert files[1..][i - 1] == files[i];
        GeneratePassRejects(out.table, files[1..], next, h, i - 1, m);
    }
  }

  /**
   * `generate` answers with the twirp file followed by one generated file
   * per schema file, in order: each named after its schema file with a
   * `.ts` extension, holding the rendering of a model that lists the
   * file's enums, messages and services in declaration order.
   */
  lemma RunOutcome(files: seq<FileDesc>, h: Collaborators)
    ensures var r := Run(files, h);
      r.Ok? ==>
        && |r.value.files| == |files| + 1 && r.value.files[0] == h.twirpFile
        && |r.value.models| == |files|
        && AllProduced(map[], r.value.files[1..], r.value.models, files, h)
  {
    GeneratePassOutcome(map[], files, Response([h.twirpFile], []), h);
    var r := Run(files, h);
    if r.Ok? {
      assert r.value.files[0] == r.value.files[..1][0];
      assert r.value.models[0..] == r.value.models;
    }
  }

  /**
   * Generated file `i + 1` of a successful run, and model `i`, are produced
   * from schema file `i`, against the table holding the declarations of the
   * schema files before it.
   */
  lemma RunOutcomeAt(files: seq<FileDesc>, h: Collaborators, i: nat)
    requires Run(files, h).Ok? && i < |files|
    ensures var r := Run(files, h).value;
      i + 1 < |r.files| && i < |r.models| && Produced(r.files[i + 1], r.models[i], files[i], FilesTable(map[], files[..i], h), h)
  {
    RunOutcome(files, h);
    var r := Run(files, h).value;
    ChainedAt((t', out, model, file) => Produced(out, model, file, t', h), (t', file) => FileTable(t', file, h),
              map[], r.files[1..], r.models, files, i);
    FilesTableAdvance(map[], files[..i], h);
    assert r.files[1..][i] == r.files[i + 1];
  }

  /** A message that nests a message, or has a field without a camel-case name, ends the run. */
  lemma RunRejectsUnsupported(files: seq<FileDesc>, h: Collaborators, i: nat, m: MessageDesc)
    requires i < |files| && m in files[i].messages && Unsupported(m)
    ensures Run(files, h).Err?
  {
    GeneratePassRejects(map[], files, Response([h.twirpFile], []), h, i, m);
  }

  lemma {:induction false} GeneratePassSucceeds(t: Table, files: seq<FileDesc>, acc: Response, h: Collaborators)
    requires forall model :: h.compile(model).Rendered?
    requires forall i, m :: 0 <= i < |files| && m in files[i].messages ==> !Unsupported(m)
    ensures GeneratePass(t, files, acc, h).Ok?
    decreases files
  {
    if files != [] {
      var file := files[0];
      FilePassFailure(t, file, h);
      assert forall m :: m in file.messages ==> !Unsupported(m);
      assert FilePass(t, file, h).Ok? by {
        if FilePass(t, file, h).Err? {
          var t1 := RegisterAll(t, file, EnumNames(file.enums));
          MessagesPassOutcome(file, file.messages, Scan(t1, map[], []), h);
          assert false;
        }
      }
      var out := FilePass(t, file, h).value;
      var next := Response(acc.files + [OutFile(TsFileName(file.name), out.text)], acc.models + [out.model]);
      forall i, m | 0 <= i < |files[1..]| && m in files[1..][i].messages
        ensures !Unsupported(m)
      {
        assert files[1..][i] == files[i + 1];
      }
      GeneratePassSucceeds(out.table, files[1..], next, h);
    }
  }

  /**
   * With a template step that never fails, a run succeeds exactly when
   * no schema file has an unsupported message.
   */
  lemma RunSucceedsIff(files: seq<FileDesc>, h: Collaborators)
    requires forall model :: h.compile(model).Rendered?
    ensures Run(files, h).Ok? <==> forall i, m :: 0 <= i < |files| && m in files[i].messages ==> !Unsupported(m)
  {
    if forall i, m :: 0 <= i < |files| && m in files[i].messages ==> !Unsupported(m) {
      GeneratePassSucceeds(map[], files, Response([h.twirpFile], []), h);
    } else {
      var i, m :| 0 <= i < |files| && m in files[i].messages && Unsupported(m);
      RunRejectsUnsupported(files, h, i, m);
    }
  }
}
