/**
 * The import map of a whole generated file. A file's imports are
 * collected over its message walk and then its service walk, each
 * reference resolved against the table as it stood when the reference was
 * met. The map ends up holding the entry of every other file that some
 * field or method type resolves to, and nothing else.
 */
module FileImports {
  import opened Schema
  import opened Resolution
  import opened ImportFacts
  import opened Tables

  /** Method `md`'s input or output type resolves, in `t`, to `fp`, a file other than `file`. */
  predicate MethodForeign(t: Table, file: FileDesc, md: MethodDesc, fp: FileDesc)
  {
    Foreign(t, file, md.inputType, fp) || Foreign(t, file, md.outputType, fp)
  }

  /**
   * Field `k` of message `j` of `ms` resolves to `fp`, a file other than
   * `file`, against the table that field is resolved with: the table `t`,
   * then the messages before message `j`, then message `j`'s own names.
   */
  predicate FieldForeign(t: Table, file: FileDesc, ms: seq<MessageDesc>, h: Collaborators, j: int, k: int, fp: FileDesc)
  {
    && 0 <= j < |ms| && 0 <= k < |ms[j].fields|
    && Foreign(RegisterAll(MessagesTable(t, file, ms[..j], h), file, MessageNames(ms[j], h)), file, ms[j].fields[k].typeName, fp)
  }

  /**
   * Method `k` of service `j` of `ss` refers to `fp`, a file other than
   * `file`, against the table that method is resolved with: the table `t`,
   * then the services before service `j`, then service `j`'s own name.
   */
  predicate ServiceForeign(t: Table, file: FileDesc, ss: seq<ServiceDesc>, j: int, k: int, fp: FileDesc)
  {
    && 0 <= j < |ss| && 0 <= k < |ss[j].methods|
    && MethodForeign(Register(ServicesTable(t, file, ss[..j]), file, ss[j].name), file, ss[j].methods[k], fp)
  }

  /** Some field of messages `ms`, met from table `t` on, resolves to a file other than `file` named `key`. */
  ghost predicate FieldsReach(t: Table, file: FileDesc, ms: seq<MessageDesc>, h: Collaborators, key: string)
  {
    exists j, k, fp :: FieldForeign(t, file, ms, h, j, k, fp) && fp.name == key
  }

  /** Some method type of services `ss`, met from table `t` on, resolves to a file other than `file` named `key`. */
  ghost predicate MethodsReach(t: Table, file: FileDesc, ss: seq<ServiceDesc>, key: string)
  {
    exists j, k, fp :: ServiceForeign(t, file, ss, j, k, fp) && fp.name == key
  }

  /**
   * The import map of `file`, met when the table was `t`: it holds the
   * entry of every other file that a field type or a method type resolves
   * to, and each of its keys is the name of such a file.
   */
  ghost predicate ImportsResolved(imports: Imports, file: FileDesc, t: Table, h: Collaborators)
  {
    var enumTable := RegisterAll(t, file, EnumNames(file.enums));
    var messageTable := MessagesTable(enumTable, file, file.messages, h);
    && (forall j, k, fp :: FieldForeign(enumTable, file, file.messages, h, j, k, fp) ==> HasImport(imports, file, fp))
    && (forall j, k, fp :: ServiceForeign(messageTable, file, file.services, j, k, fp) ==> HasImport(imports, file, fp))
    && (forall key :: key in imports ==>
          FieldsReach(enumTable, file, file.messages, h, key) || MethodsReach(messageTable, file, file.services, key))
  }

  lemma {:induction false} MethodRefsLength(mds: seq<MethodDesc>)
    ensures |MethodRefs(mds)| == 2 * |mds|
    decreases mds
  {
    if mds != [] {
      MethodRefsLength(mds[1..]);
    }
  }

  /** Method `k`'s input type is reference `2k` of the walk, its output type reference `2k + 1`. */
  lemma {:induction false} MethodRefsAt(mds: seq<MethodDesc>, k: nat)
    requires k < |mds|
    ensures |MethodRefs(mds)| == 2 * |mds|
    ensures MethodRefs(mds)[2 * k] == mds[k].inputType && MethodRefs(mds)[2 * k + 1] == mds[k].outputType
    decreases mds
  {
    MethodRefsLength(mds);
    if k > 0 {
      MethodRefsAt(mds[1..], k - 1);
      assert mds[1..][k - 1] == mds[k];
    }
  }

  /** A walk over methods keeps every import already present. */
  lemma {:induction false} MethodsPassKeeps(file: FileDesc, mds: seq<MethodDesc>, acc: Scan<MethodValues>, h: Collaborators)
    ensures forall fp :: HasImport(acc.imports, file, fp) ==> HasImport(MethodsPass(file, mds, acc, h).imports, file, fp)
  {
    MethodsPassImports(file, mds, acc, h);
    NoteImportsKeep(acc.table, acc.imports, file, MethodRefs(mds));
  }

  /** A walk over methods imports every other file that a method's input or output type resolves to. */
  lemma {:induction false} MethodsPassComplete(file: FileDesc, mds: seq<MethodDesc>, acc: Scan<MethodValues>, h: Collaborators)
    ensures forall k, fp :: 0 <= k < |mds| && MethodForeign(acc.table, file, mds[k], fp) ==>
              HasImport(MethodsPass(file, mds, acc, h).imports, file, fp)
  {
    var refs := MethodRefs(mds);
    MethodsPassImports(file, mds, acc, h);
    NoteImportsComplete(acc.table, acc.imports, file, refs);
    forall k, fp | 0 <= k < |mds| && MethodForeign(acc.table, file, mds[k], fp)
      ensures HasImport(MethodsPass(file, mds, acc, h).imports, file, fp)
    {
      MethodRefsAt(mds, k);
      if Foreign(acc.table, file, mds[k].inputType, fp) {
        assert Foreign(acc.table, file, refs[2 * k], fp);
      } else {
        assert Foreign(acc.table, file, refs[2 * k + 1], fp);
      }
    }
  }

  /** A reference of a walk over methods that resolves to another file is the input or output type of one method. */
  lemma {:induction false} MethodRefForeign(t: Table, file: FileDesc, mds: seq<MethodDesc>, i: nat, fp: FileDesc)
    requires i < |MethodRefs(mds)| && Foreign(t, file, MethodRefs(mds)[i], fp)
    ensures exists k :: 0 <= k < |mds| && MethodForeign(t, file, mds[k], fp)
    decreases mds
  {
    var refs := MethodRefs(mds);
    assert refs == [mds[0].inputType, mds[0].outputType] + MethodRefs(mds[1..]);
    if i < 2 {
      assert MethodForeign(t, file, mds[0], fp);
    } else {
      assert refs[i] == MethodRefs(mds[1..])[i - 2];
      MethodRefForeign(t, file, mds[1..], i - 2, fp);
      var k :| 0 <= k < |mds[1..]| && MethodForeign(t, file, mds[1..][k], fp);
      assert mds[1..][k] == mds[k + 1];
    }
  }

  /** Every import after a walk over methods was there before, or names a file some method type resolves to. */
  lemma {:induction false} MethodsPassOnly(file: FileDesc, mds: seq<MethodDesc>, acc: Scan<MethodValues>, h: Collaborators)
    ensures var r := MethodsPass(file, mds, acc, h);
      forall key :: key in r.imports ==>
        (key in acc.imports && r.imports[key] == acc.imports[key])
        || exists k, fp :: 0 <= k < |mds| && MethodForeign(acc.table, file, mds[k], fp) && fp.name == key
  {
    var refs := MethodRefs(mds);
    var r := MethodsPass(file, mds, acc, h);
    MethodsPassImports(file, mds, acc, h);
    NoteImportsOnly(acc.table, acc.imports, file, refs);
    forall key | key in r.imports && !(key in acc.imports && r.imports[key] == acc.imports[key])
      ensures exists k, fp :: 0 <= k < |mds| && MethodForeign(acc.table, file, mds[k], fp) && fp.name == key
    {
      var i, fp :| 0 <= i < |refs| && Foreign(acc.table, file, refs[i], fp) && fp.name == key;
      MethodRefForeign(acc.table, file, mds, i, fp);
    }
  }

  /** One message step: its names are registered, then its fields' type names are resolved against that table. */
  lemma MessageStepImports(file: FileDesc, m: MessageDesc, acc: Scan<MessageValues>, h: Collaborators)
    ensures var r := MessageStep(file, m, acc, h);
      var t := RegisterAll(acc.table, file, MessageNames(m, h));
      r.Ok? ==> r.value.table == t && r.value.imports == NoteImports(t, acc.imports, file, FieldRefs(m.fields))
  {
    var t := RegisterAll(acc.table, file, MessageNames(m, h));
    FieldsPassImports(file, m.fields, Scan(t, acc.imports, []), h);
  }

  /** `FieldForeign` at the first message: its fields are resolved after its own names. */
  lemma FieldForeignFirst(t: Table, file: FileDesc, ms: seq<MessageDesc>, h: Collaborators, k: int, fp: FileDesc)
    requires ms != []
    ensures FieldForeign(t, file, ms, h, 0, k, fp) <==>
      0 <= k < |ms[0].fields| && Foreign(RegisterAll(t, file, MessageNames(ms[0], h)), file, FieldRefs(ms[0].fields)[k], fp)
  {
    assert ms[..0] == [];
  }

  /** `FieldForeign` past the first message: the same field, read in the walk that starts after it. */
  lemma FieldForeignShift(t: Table, file: FileDesc, ms: seq<MessageDesc>, h: Collaborators, j: int, k: int, fp: FileDesc)
    requires ms != [] && 0 < j
    ensures FieldForeign(t, file, ms, h, j, k, fp) <==>
      FieldForeign(RegisterAll(t, file, MessageNames(ms[0], h)), file, ms[1..], h, j - 1, k, fp)
  {
    if j < |ms| {
      assert ms[..j][0] == ms[0] && ms[..j][1..] == ms[1..][..j - 1];
      assert ms[1..][j - 1] == ms[j];
    }
  }

  /** A message walk that succeeds keeps every import already present. */
  lemma {:induction false} MessagesPassKeeps(file: FileDesc, ms: seq<MessageDesc>, acc: Scan<MessageValues>, h: Collaborators)
    ensures var r := MessagesPass(file, ms, acc, h);
      r.Ok? ==> forall fp :: HasImport(acc.imports, file, fp) ==> HasImport(r.value.imports, file, fp)
  {
    if ms != [] {
      var t := RegisterAll(acc.table, file, MessageNames(ms[0], h));
      MessageStepImports(file, ms[0], acc, h);
      NoteImportsKeep(t, acc.imports, file, FieldRefs(ms[0].fields));
      match MessageStep(file, ms[0], acc, h)
      case Err(_) =>
      case Ok(next) => MessagesPassKeeps(file, ms[1..], next, h);
    }
  }

  /**
   * A message walk that succeeds imports every other file that a field
   * resolves to, each field resolved once its message's names are registered.
   */
  lemma {:induction false} MessagesPassComplete(file: FileDesc, ms: seq<MessageDesc>, acc: Scan<MessageValues>, h: Collaborators)
    ensures var r := MessagesPass(file, ms, acc, h);
      r.Ok? ==> forall j, k, fp :: FieldForeign(acc.table, file, ms, h, j, k, fp) ==> HasImport(r.value.imports, file, fp)
  {
    if ms != [] {
      var t := RegisterAll(acc.table, file, MessageNames(ms[0], h));
      MessageStepImports(file, ms[0], acc, h);
      NoteImportsComplete(t, acc.imports, file, FieldRefs(ms[0].fields));
      match MessageStep(file, ms[0], acc, h)
      case Err(_) =>
      case Ok(next) =>
        MessagesPassComplete(file, ms[1..], next, h);
        MessagesPassKeeps(file, ms[1..], next, h);
        var r := MessagesPass(file, ms[1..], next, h);
        if r.Ok? {
          forall j, k, fp | FieldForeign(acc.table, file, ms, h, j, k, fp)
            ensures HasImport(r.value.imports, file, fp)
          {
            if j == 0 {
              FieldForeignFirst(acc.table, file, ms, h, k, fp);
              assert HasImport(next.imports, file, fp);
            } else {
              FieldForeignShift(acc.table, file, ms, h, j, k, fp);
            }
          }
        }
    }
  }

  /** Where a key added by the first message step, or by the rest of the walk, comes from. */
  lemma MessagesOnlyStep(t0: Table, file: FileDesc, ms: seq<MessageDesc>, h: Collaborators,
                         before: Imports, next: Imports, after: Imports, key: string)
    requires ms != []
    requires next == NoteImports(RegisterAll(t0, file, MessageNames(ms[0], h)), before, file, FieldRefs(ms[0].fields))
    requires key in after && !(key in before && after[key] == before[key])
    requires (key in next && after[key] == next[key])
      || FieldsReach(RegisterAll(t0, file, MessageNames(ms[0], h)), file, ms[1..], h, key)
    ensures FieldsReach(t0, file, ms, h, key)
  {
    var t := RegisterAll(t0, file, MessageNames(ms[0], h));
    var refs := FieldRefs(ms[0].fields);
    if key in next && after[key] == next[key] {
      NoteImportsOnly(t, before, file, refs);
      var i, fp :| 0 <= i < |refs| && Foreign(t, file, refs[i], fp) && fp.name == key;
      FieldForeignFirst(t0, file, ms, h, i, fp);
      assert FieldForeign(t0, file, ms, h, 0, i, fp);
    } else {
      var j, k, fp :| FieldForeign(t, file, ms[1..], h, j, k, fp) && fp.name == key;
      FieldForeignShift(t0, file, ms, h, j + 1, k, fp);
    }
  }

  /** Every import after a message walk that succeeds was there before, or names a file some field resolves to. */
  lemma {:induction false} MessagesPassOnly(file: FileDesc, ms: seq<MessageDesc>, acc: Scan<MessageValues>, h: Collaborators)
    ensures var r := MessagesPass(file, ms, acc, h);
      r.Ok? ==> forall key :: key in r.value.imports ==>
        (key in acc.imports && r.value.imports[key] == acc.imports[key])
        || FieldsReach(acc.table, file, ms, h, key)
  {
    if ms != [] {
      MessageStepImports(file, ms[0], acc, h);
      match MessageStep(file, ms[0], acc, h)
      case Err(_) =>
      case Ok(next) =>
        MessagesPassOnly(file, ms[1..], next, h);
        var r := MessagesPass(file, ms[1..], next, h);
        if r.Ok? {
          forall key | key in r.value.imports && !(key in acc.imports && r.value.imports[key] == acc.imports[key])
            ensures FieldsReach(acc.table, file, ms, h, key)
          {
            MessagesOnlyStep(acc.table, file, ms, h, acc.imports, next.imports, r.value.imports, key);
          }
        }
    }
  }

  /** `ServiceForeign` at the first service: its methods are resolved after its own name. */
  lemma ServiceForeignFirst(t: Table, file: FileDesc, ss: seq<ServiceDesc>, k: int, fp: FileDesc)
    requires ss != []
    ensures ServiceForeign(t, file, ss, 0, k, fp) <==>
      0 <= k < |ss[0].methods| && MethodForeign(Register(t, file, ss[0].name), file, ss[0].methods[k], fp)
  {
    assert ss[..0] == [];
  }

  /** `ServiceForeign` past the first service: the same method, read in the walk that starts after it. */
  lemma ServiceForeignShift(t: Table, file: FileDesc, ss: seq<ServiceDesc>, j: int, k: int, fp: FileDesc)
    requires ss != [] && 0 < j
    ensures ServiceForeign(t, file, ss, j, k, fp) <==> ServiceForeign(Register(t, file, ss[0].name), file, ss[1..], j - 1, k, fp)
  {
    if j < |ss| {
      assert ss[..j][0] == ss[0] && ss[..j][1..] == ss[1..][..j - 1];
      assert ss[1..][j - 1] == ss[j];
    }
  }

  /** A service walk keeps every import already present. */
  lemma {:induction false} ServicesPassKeeps(file: FileDesc, ss: seq<ServiceDesc>, acc: Scan<ServiceValues>, h: Collaborators)
    ensures forall fp :: HasImport(acc.imports, file, fp) ==> HasImport(ServicesPass(file, ss, acc, h).imports, file, fp)
  {
    if ss != [] {
      MethodsPassKeeps(file, ss[0].methods, Scan(Register(acc.table, file, ss[0].name), acc.imports, []), h);
      ServicesPassKeeps(file, ss[1..], ServiceStep(file, ss[0], acc, h), h);
    }
  }

  /**
   * A service walk imports every other file that a method's input or output
   * type resolves to, each method resolved once its service's name is registered.
   */
  lemma {:induction false} ServicesPassComplete(file: FileDesc, ss: seq<ServiceDesc>, acc: Scan<ServiceValues>, h: Collaborators)
    ensures forall j, k, fp :: ServiceForeign(acc.table, file, ss, j, k, fp) ==>
              HasImport(ServicesPass(file, ss, acc, h).imports, file, fp)
  {
    if ss != [] {
      var t := Register(acc.table, file, ss[0].name);
      var next := ServiceStep(file, ss[0], acc, h);
      var r := ServicesPass(file, ss[1..], next, h);
      MethodsPassComplete(file, ss[0].methods, Scan(t, acc.imports, []), h);
      ServicesPassComplete(file, ss[1..], next, h);
      ServicesPassKeeps(file, ss[1..], next, h);
      forall j, k, fp | ServiceForeign(acc.table, file, ss, j, k, fp)
        ensures HasImport(r.imports, file, fp)
      {
        if j == 0 {
          ServiceForeignFirst(acc.table, file, ss, k, fp);
          assert HasImport(next.imports, file, fp);
        } else {
          ServiceForeignShift(acc.table, file, ss, j, k, fp);
        }
      }
    }
  }

  /** Where a key added by the first service step, or by the rest of the walk, comes from. */
  lemma ServicesOnlyStep(t0: Table, file: FileDesc, ss: seq<ServiceDesc>, h: Collaborators,
                         before: Imports, after: Imports, key: string)
    requires ss != []
    requires key in after && !(key in before && after[key] == before[key])
    requires var next := MethodsPass(file, ss[0].methods, Scan(Register(t0, file, ss[0].name), before, []), h).imports;
      (key in next && after[key] == next[key])
      || MethodsReach(Register(t0, file, ss[0].name), file, ss[1..], key)
    ensures MethodsReach(t0, file, ss, key)
  {
    var t := Register(t0, file, ss[0].name);
    var next := MethodsPass(file, ss[0].methods, Scan(t, before, []), h).imports;
    if key in next && after[key] == next[key] {
      MethodsPassOnly(file, ss[0].methods, Scan(t, before, []), h);
      var k, fp :| 0 <= k < |ss[0].methods| && MethodForeign(t, file, ss[0].methods[k], fp) && fp.name == key;
      ServiceForeignFirst(t0, file, ss, k, fp);
      assert ServiceForeign(t0, file, ss, 0, k, fp);
    } else {
      var j, k, fp :| ServiceForeign(t, file, ss[1..], j, k, fp) && fp.name == key;
      ServiceForeignShift(t0, file, ss, j + 1, k, fp);
    }
  }

  /** Every import after a service walk was there before, or names a file some method type resolves to. */
  lemma {:induction false} ServicesPassOnly(file: FileDesc, ss: seq<ServiceDesc>, acc: Scan<ServiceValues>, h: Collaborators)
    ensures var r := ServicesPass(file, ss, acc, h);
      forall key :: key in r.imports ==>
        (key in acc.imports && r.imports[key] == acc.imports[key])
        || MethodsReach(acc.table, file, ss, key)
  {
    if ss != [] {
      var next := ServiceStep(file, ss[0], acc, h);
      var r := ServicesPass(file, ss[1..], next, h);
      ServicesPassOnly(file, ss[1..], next, h);
      forall key | key in r.imports && !(key in acc.imports && r.imports[key] == acc.imports[key])
        ensures MethodsReach(acc.table, file, ss, key)
      {
        ServicesOnlyStep(acc.table, file, ss, h, acc.imports, r.imports, key);
      }
    }
  }

  /**
   * A message's names are registered before its fields are resolved, so a
   * field whose type is the message itself adds no import: every entry the
   * step adds or rewrites comes from a field of another type, one that
   * resolves to another file.
   */
  lemma SelfReferenceImportsNothing(file: FileDesc, m: MessageDesc, acc: Scan<MessageValues>, h: Collaborators)
    ensures var t := RegisterAll(acc.table, file, MessageNames(m, h));
      var r := MessageStep(file, m, acc, h);
      r.Ok? ==> forall key :: key in r.value.imports && !(key in acc.imports && r.value.imports[key] == acc.imports[key]) ==>
        exists j, fp :: (0 <= j < |m.fields| && m.fields[j].typeName != FullTypeName(file, m.name)
                         && Foreign(t, file, m.fields[j].typeName, fp) && fp.name == key)
  {
    var t := RegisterAll(acc.table, file, MessageNames(m, h));
    var refs := FieldRefs(m.fields);
    MessageStepImports(file, m, acc, h);
    RegisterAllDefines(acc.table, file, MessageNames(m, h), 0);
    NoteImportsOnly(t, acc.imports, file, refs);
    var r := MessageStep(file, m, acc, h);
    if r.Ok? {
      forall key | key in r.value.imports && !(key in acc.imports && r.value.imports[key] == acc.imports[key])
        ensures exists j, fp :: (0 <= j < |m.fields| && m.fields[j].typeName != FullTypeName(file, m.name)
                                 && Foreign(t, file, m.fields[j].typeName, fp) && fp.name == key)
      {
        var j, fp :| 0 <= j < |refs| && Foreign(t, file, refs[j], fp) && fp.name == key;
        if refs[j] == FullTypeName(file, m.name) {
          SamePackageIsFileIdentity(file, file, file);
          assert false;
        }
      }
    }
  }

  /**
   * The imports of a file's message walk, from an empty map: every file
   * a field resolves to, and nothing else.
   */
  lemma MessagesImportsFresh(file: FileDesc, ms: seq<MessageDesc>, t: Table, h: Collaborators)
    ensures var r := MessagesPass(file, ms, Scan(t, map[], []), h);
      r.Ok? ==>
        && r.value.table == MessagesTable(t, file, ms, h)
        && (forall j, k, fp :: FieldForeign(t, file, ms, h, j, k, fp) ==> HasImport(r.value.imports, file, fp))
        && (forall key :: key in r.value.imports ==> FieldsReach(t, file, ms, h, key))
  {
    MessagesPassTable(file, ms, Scan(t, map[], []), h);
    MessagesPassComplete(file, ms, Scan(t, map[], []), h);
    MessagesPassOnly(file, ms, Scan(t, map[], []), h);
  }

  /** The imports of a file's service walk, in terms of the imports it starts from. */
  lemma ServicesImportsFrom(file: FileDesc, ss: seq<ServiceDesc>, t: Table, imports: Imports, h: Collaborators)
    ensures var r := ServicesPass(file, ss, Scan(t, imports, []), h);
      && (forall fp :: HasImport(imports, file, fp) ==> HasImport(r.imports, file, fp))
      && (forall j, k, fp :: ServiceForeign(t, file, ss, j, k, fp) ==> HasImport(r.imports, file, fp))
      && (forall key :: key in r.imports ==>
            (key in imports && r.imports[key] == imports[key])
            || MethodsReach(t, file, ss, key))
  {
    ServicesPassKeeps(file, ss, Scan(t, imports, []), h);
    ServicesPassComplete(file, ss, Scan(t, imports, []), h);
    ServicesPassOnly(file, ss, Scan(t, imports, []), h);
  }

  /** The message walk's imports, then the service walk's, make up an import map that `ImportsResolved` describes. */
  lemma ImportsCombine(t: Table, file: FileDesc, h: Collaborators, messageImports: Imports, imports: Imports)
    requires var enumTable := RegisterAll(t, file, EnumNames(file.enums));
      && (forall j, k, fp :: FieldForeign(enumTable, file, file.messages, h, j, k, fp) ==> HasImport(messageImports, file, fp))
      && (forall key :: key in messageImports ==>
            FieldsReach(enumTable, file, file.messages, h, key))
    requires var messageTable := MessagesTable(RegisterAll(t, file, EnumNames(file.enums)), file, file.messages, h);
      && (forall fp :: HasImport(messageImports, file, fp) ==> HasImport(imports, file, fp))
      && (forall j, k, fp :: ServiceForeign(messageTable, file, file.services, j, k, fp) ==> HasImport(imports, file, fp))
      && (forall key :: key in imports ==>
            (key in messageImports && imports[key] == messageImports[key])
            || MethodsReach(messageTable, file, file.services, key))
    ensures ImportsResolved(imports, file, t, h)
  {
  }

  /** A file's import map is the one its service walk leaves, after its message walk. */
  lemma FilePassImportMap(t: Table, file: FileDesc, h: Collaborators)
    ensures var r := FilePass(t, file, h);
      var mr := MessagesPass(file, file.messages, Scan(RegisterAll(t, file, EnumNames(file.enums)), map[], []), h);
      r.Ok? ==> mr.Ok? && r.value.model.imports == ServicesPass(file, file.services, Scan(mr.value.table, mr.value.imports, []), h).imports
  {
  }

  /**
   * The import map of a file that passes: every other file that one of its
   * field or method types resolves to, against the table as it stood when
   * the declaration was met, and nothing else.
   */
  lemma FilePassImports(t: Table, file: FileDesc, h: Collaborators)
    ensures var r := FilePass(t, file, h);
      r.Ok? ==> ImportsResolved(r.value.model.imports, file, t, h)
  {
    var t1 := RegisterAll(t, file, EnumNames(file.enums));
    var mr := MessagesPass(file, file.messages, Scan(t1, map[], []), h);
    FilePassImportMap(t, file, h);
    MessagesImportsFresh(file, file.messages, t1, h);
    if mr.Ok? {
      var ms := mr.value;
      var ss := ServicesPass(file, file.services, Scan(ms.table, ms.imports, []), h);
      ServicesImportsFrom(file, file.services, ms.table, ms.imports, h);
      ImportsCombine(t, file, h, ms.imports, ss.imports);
    }
  }
}
