/**
 * Where the imports of a generated file come from. A file imports only
 * files whose declarations the symbol table already held when the
 * reference was resolved: files processed before it, never itself. And
 * every reference that resolves to another file does produce that file's
 * import entry.
 */
module ImportFacts {
  import opened Options
  import opened ImportPaths
  import opened Schema
  import opened FieldTypes
  import opened Resolution

  /** Every entry of the table was registered by one of the files `seen`. */
  predicate TableFrom(t: Table, seen: seq<FileDesc>)
  {
    forall k :: k in t ==> t[k] in seen
  }

  /**
   * Every import of `file` is keyed by the name of one of the files `seen`,
   * other than `file` itself, and holds that file's identifier and path.
   */
  predicate ImportsFrom(imports: Imports, file: FileDesc, seen: seq<FileDesc>)
  {
    forall k :: k in imports ==>
      exists fp :: fp in seen && fp.name == k && !SamePackage(fp, file)
        && imports[k] == ImportValues(ImportName(fp), ImportPath(file, fp.name))
  }

  lemma {:induction false} RegisterAllFrom(t: Table, file: FileDesc, names: seq<string>, seen: seq<FileDesc>)
    requires TableFrom(t, seen) && file in seen
    ensures TableFrom(RegisterAll(t, file, names), seen)
    decreases names
  {
    if names != [] {
      RegisterAllFrom(Register(t, file, names[0]), file, names[1..], seen);
    }
  }

  /** One resolve-and-import step adds only an entry for the defining file of the reference. */
  lemma NoteImportFrom(t: Table, imports: Imports, file: FileDesc, ref: string, seen: seq<FileDesc>)
    requires TableFrom(t, seen) && ImportsFrom(imports, file, seen)
    ensures ImportsFrom(NoteImport(t, imports, file, ref), file, seen)
  {
    match Lookup(t, ref)
    case None =>
    case Some(fp) =>
      if !SamePackage(fp, file) {
        var r := NoteImport(t, imports, file, ref);
        forall k | k in r
          ensures exists q :: (q in seen && q.name == k && !SamePackage(q, file)
                                 && r[k] == ImportValues(ImportName(q), ImportPath(file, q.name)))
        {
          if k == fp.name {
            assert fp in seen;
          } else {
            assert k in imports && r[k] == imports[k];
          }
        }
      }
  }

  lemma {:induction false} FieldsPassFrom(file: FileDesc, fs: seq<FieldDesc>, acc: Scan<FieldValues>, h: Collaborators, seen: seq<FileDesc>)
    requires TableFrom(acc.table, seen) && ImportsFrom(acc.imports, file, seen)
    ensures var r := FieldsPass(file, fs, acc, h);
      r.Ok? ==> r.value.table == acc.table && ImportsFrom(r.value.imports, file, seen)
  {
    if fs != [] {
      NoteImportFrom(acc.table, acc.imports, file, fs[0].typeName, seen);
      match FieldStep(file, fs[0], acc, h)
      case Err(_) =>
      case Ok(next) => FieldsPassFrom(file, fs[1..], next, h, seen);
    }
  }

  lemma {:induction false} MessagesPassFrom(file: FileDesc, ms: seq<MessageDesc>, acc: Scan<MessageValues>, h: Collaborators, seen: seq<FileDesc>)
    requires TableFrom(acc.table, seen) && ImportsFrom(acc.imports, file, seen) && file in seen
    ensures var r := MessagesPass(file, ms, acc, h);
      r.Ok? ==> TableFrom(r.value.table, seen) && ImportsFrom(r.value.imports, file, seen)
  {
    if ms != [] {
      var m := ms[0];
      var t := RegisterAll(acc.table, file, MessageNames(m, h));
      RegisterAllFrom(acc.table, file, MessageNames(m, h), seen);
      FieldsPassFrom(file, m.fields, Scan(t, acc.imports, []), h, seen);
      match MessageStep(file, m, acc, h)
      case Err(_) =>
      case Ok(next) => MessagesPassFrom(file, ms[1..], next, h, seen);
    }
  }

  lemma {:induction false} MethodsPassFrom(file: FileDesc, mds: seq<MethodDesc>, acc: Scan<MethodValues>, h: Collaborators, seen: seq<FileDesc>)
    requires TableFrom(acc.table, seen) && ImportsFrom(acc.imports, file, seen)
    ensures var r := MethodsPass(file, mds, acc, h);
      r.table == acc.table && ImportsFrom(r.imports, file, seen)
  {
    if mds != [] {
      var md := mds[0];
      NoteImportFrom(acc.table, acc.imports, file, md.inputType, seen);
      NoteImportFrom(acc.table, NoteImport(acc.table, acc.imports, file, md.inputType), file, md.outputType, seen);
      MethodsPassFrom(file, mds[1..], MethodStep(file, md, acc, h), h, seen);
    }
  }

  lemma {:induction false} ServicesPassFrom(file: FileDesc, ss: seq<ServiceDesc>, acc: Scan<ServiceValues>, h: Collaborators, seen: seq<FileDesc>)
    requires TableFrom(acc.table, seen) && ImportsFrom(acc.imports, file, seen) && file in seen
    ensures var r := ServicesPass(file, ss, acc, h);
      TableFrom(r.table, seen) && ImportsFrom(r.imports, file, seen)
  {
    if ss != [] {
      var s := ss[0];
      var t := Register(acc.table, file, s.name);
      MethodsPassFrom(file, s.methods, Scan(t, acc.imports, []), h, seen);
      ServicesPassFrom(file, ss[1..], ServiceStep(file, s, acc, h), h, seen);
    }
  }

  /** A file's imports name files of `seen` other than itself, and its registrations keep the table within `seen`. */
  lemma FilePassFrom(t: Table, file: FileDesc, h: Collaborators, seen: seq<FileDesc>)
    requires TableFrom(t, seen) && file in seen
    ensures var r := FilePass(t, file, h);
      r.Ok? ==> TableFrom(r.value.table, seen) && ImportsFrom(r.value.model.imports, file, seen)
  {
    var t1 := RegisterAll(t, file, EnumNames(file.enums));
    RegisterAllFrom(t, file, EnumNames(file.enums), seen);
    MessagesPassFrom(file, file.messages, Scan(t1, map[], []), h, seen);
    match MessagesPass(file, file.messages, Scan(t1, map[], []), h)
    case Err(_) =>
    case Ok(ms) =>
      ServicesPassFrom(file, file.services, Scan(ms.table, ms.imports, []), h, seen);
  }

  lemma PrefixShift(done: seq<FileDesc>, files: seq<FileDesc>, i: nat)
    requires 0 < i < |files|
    ensures files[1..][i - 1] == files[i]
    ensures done + [files[0]] + files[1..][..i - 1 + 1] == done + files[..i + 1]
  {
    assert files[..i + 1] == [files[0]] + files[1..][..i];
  }

  lemma {:induction false} GeneratePassFrom(t: Table, done: seq<FileDesc>, files: seq<FileDesc>, acc: Response, h: Collaborators)
    requires TableFrom(t, done)
    ensures var r := GeneratePass(t, files, acc, h);
      r.Ok? ==>
        && |r.value.models| == |acc.models| + |files|
        && r.value.models[..|acc.models|] == acc.models
        && forall i :: 0 <= i < |files| ==> ImportsFrom(r.value.models[|acc.models| + i].imports, files[i], done + files[..i + 1])
    decreases files
  {
    if files != [] {
      var file := files[0];
      var seen := done + [file];
      FilePassFrom(t, file, h, seen);
      match FilePass(t, file, h)
      case Err(_) =>
      case Ok(out) =>
        var next := Response(acc.files + [OutFile(TsFileName(file.name), out.text)], acc.models + [out.model]);
        GeneratePassFrom(out.table, seen, files[1..], next, h);
        var r := GeneratePass(t, files, acc, h);
        if r.Ok? {
          var res := r.value;
          assert res == GeneratePass(out.table, files[1..], next, h).value;
          assert res.models[..|next.models|] == next.models;
          assert res.models[..|acc.models|] == next.models[..|acc.models|];
          forall i | 0 <= i < |files|
            ensures ImportsFrom(res.models[|acc.models| + i].imports, files[i], done + files[..i + 1])
          {
            if i == 0 {
              assert res.models[|acc.models|] == next.models[|acc.models|] == out.model;
              assert files[..1] == [file];
            } else {
              PrefixShift(done, files, i);
            }
          }
        }
    }
  }

  /** An import drawn from the files up to the i-th one is drawn from the files before it. */
  lemma ImportFromEarlier(imports: Imports, files: seq<FileDesc>, i: nat, k: string)
    requires i < |files| && ImportsFrom(imports, files[i], files[..i + 1]) && k in imports
    ensures exists j :: (0 <= j < i && files[j].name == k && !SamePackage(files[j], files[i])
                         && imports[k] == ImportValues(ImportName(files[j]), ImportPath(files[i], files[j].name)))
  {
    var fp :| fp in files[..i + 1] && fp.name == k && !SamePackage(fp, files[i])
      && imports[k] == ImportValues(ImportName(fp), ImportPath(files[i], fp.name));
    var j :| 0 <= j <= i && files[j] == fp;
    if j == i {
      SamePackageIsFileIdentity(fp, fp, fp);
      assert false;
    }
  }

  /**
   * Over a whole run, every import of the i-th generated file is keyed by
   * the name of a schema file that came strictly before it, and holds that
   * file's identifier and path.
   */
  lemma RunImportsPrecedingFiles(files: seq<FileDesc>, h: Collaborators)
    ensures var r := Run(files, h);
      r.Ok? ==>
        && |r.value.models| == |files|
        && forall i, k :: 0 <= i < |files| && k in r.value.models[i].imports ==>
             exists j :: (0 <= j < i && files[j].name == k && !SamePackage(files[j], files[i])
                          && r.value.models[i].imports[k] == ImportValues(ImportName(files[j]), ImportPath(files[i], files[j].name)))
  {
    var acc := Response([h.twirpFile], []);
    GeneratePassFrom(map[], [], files, acc, h);
    var r := Run(files, h);
    if r.Ok? {
      var models := r.value.models;
      forall i, k | 0 <= i < |files| && k in models[i].imports
        ensures exists j :: (0 <= j < i && files[j].name == k && !SamePackage(files[j], files[i])
                             && models[i].imports[k] == ImportValues(ImportName(files[j]), ImportPath(files[i], files[j].name)))
      {
        assert ImportsFrom(models[|acc.models| + i].imports, files[i], [] + files[..i + 1]);
        assert |acc.models| + i == i && [] + files[..i + 1] == files[..i + 1];
        ImportFromEarlier(models[i].imports, files, i, k);
      }
    }
  }

  /** The first schema file imports nothing: no other file has been registered yet. */
  lemma FirstFileImportsNothing(files: seq<FileDesc>, h: Collaborators)
    requires files != []
    ensures var r := Run(files, h);
      r.Ok? ==> |r.value.models| == |files| && r.value.models[0].imports == map[]
  {
    RunImportsPrecedingFiles(files, h);
  }

  /** `fp`'s entry is in `imports`, under its name, as `file` would import it. */
  predicate HasImport(imports: Imports, file: FileDesc, fp: FileDesc)
  {
    fp.name in imports && imports[fp.name] == ImportValues(ImportName(fp), ImportPath(file, fp.name))
  }

  /** `ref` resolves, in table `t`, to `fp`, a file other than `file`. */
  predicate Foreign(t: Table, file: FileDesc, ref: string, fp: FileDesc)
  {
    Lookup(t, ref) == Some(fp) && !SamePackage(fp, file)
  }

  /** Resolve-and-import steps for `refs`, left to right, against one table. */
  function NoteImports(t: Table, imports: Imports, file: FileDesc, refs: seq<string>): (r: Imports)
    decreases refs
  {
    if refs == [] then imports else NoteImports(t, NoteImport(t, imports, file, refs[0]), file, refs[1..])
  }

  /** The references of a walk over fields: each field's type name, in order. */
  function FieldRefs(fs: seq<FieldDesc>): (r: seq<string>)
  {
    seq(|fs|, i requires 0 <= i < |fs| => fs[i].typeName)
  }

  /** The references of a walk over methods: input then output type, method by method. */
  function MethodRefs(mds: seq<MethodDesc>): (r: seq<string>)
  {
    if mds == [] then [] else [mds[0].inputType, mds[0].outputType] + MethodRefs(mds[1..])
  }

  /** A step keeps an entry already present: an overwrite under the same name writes the same value. */
  lemma NoteImportKeeps(t: Table, imports: Imports, file: FileDesc, ref: string, fp: FileDesc)
    requires HasImport(imports, file, fp)
    ensures HasImport(NoteImport(t, imports, file, ref), file, fp)
  {
    match Lookup(t, ref)
    case None =>
    case Some(q) =>
      if !SamePackage(q, file) && q.name == fp.name {
        assert ImportName(q) == TsImportName(fp.name) == ImportName(fp);
      }
  }

  /** Resolving `refs` keeps every entry already present. */
  lemma {:induction false} NoteImportsKeep(t: Table, imports: Imports, file: FileDesc, refs: seq<string>)
    ensures forall fp :: HasImport(imports, file, fp) ==> HasImport(NoteImports(t, imports, file, refs), file, fp)
    decreases refs
  {
    if refs != [] {
      var i1 := NoteImport(t, imports, file, refs[0]);
      NoteImportsKeep(t, i1, file, refs[1..]);
      forall fp | HasImport(imports, file, fp)
        ensures HasImport(i1, file, fp)
      {
        NoteImportKeeps(t, imports, file, refs[0], fp);
      }
    }
  }

  /** Resolving `refs` imports every file other than `file` that one of them resolves to. */
  lemma {:induction false} NoteImportsComplete(t: Table, imports: Imports, file: FileDesc, refs: seq<string>)
    ensures forall j, fp :: 0 <= j < |refs| && Foreign(t, file, refs[j], fp) ==> HasImport(NoteImports(t, imports, file, refs), file, fp)
    decreases refs
  {
    if refs != [] {
      var i1 := NoteImport(t, imports, file, refs[0]);
      var r := NoteImports(t, i1, file, refs[1..]);
      NoteImportsComplete(t, i1, file, refs[1..]);
      NoteImportsKeep(t, i1, file, refs[1..]);
      forall j, fp | 0 <= j < |refs| && Foreign(t, file, refs[j], fp)
        ensures HasImport(r, file, fp)
      {
        if j == 0 {
          assert HasImport(i1, file, fp);
        } else {
          assert refs[1..][j - 1] == refs[j];
        }
      }
    }
  }

  /** Every entry after resolving `refs` was there before, or is keyed by a file one of them resolves to. */
  lemma {:induction false} NoteImportsOnly(t: Table, imports: Imports, file: FileDesc, refs: seq<string>)
    ensures var r := NoteImports(t, imports, file, refs);
      forall k :: k in r ==>
        (k in imports && r[k] == imports[k])
        || exists j, fp :: 0 <= j < |refs| && Foreign(t, file, refs[j], fp) && fp.name == k
    decreases refs
  {
    if refs != [] {
      var i1 := NoteImport(t, imports, file, refs[0]);
      var r := NoteImports(t, i1, file, refs[1..]);
      NoteImportsOnly(t, i1, file, refs[1..]);
      forall k | k in r
        ensures (k in imports && r[k] == imports[k])
          || exists j, fp :: 0 <= j < |refs| && Foreign(t, file, refs[j], fp) && fp.name == k
      {
        if k in i1 && r[k] == i1[k] {
          if !(k in imports && i1[k] == imports[k]) {
            var fp := Lookup(t, refs[0]).value;
            assert Foreign(t, file, refs[0], fp) && fp.name == k;
          }
        } else {
          var j, fp :| 0 <= j < |refs[1..]| && Foreign(t, file, refs[1..][j], fp) && fp.name == k;
          assert refs[1..][j] == refs[j + 1];
        }
      }
    }
  }

  /**
   * The imports after resolving `refs` are exactly the imports before,
   * plus the entry of every file that one of `refs` resolves to, other
   * than `file` itself: nothing foreign is missed, and nothing else is added.
   */
  lemma NoteImportsExact(t: Table, imports: Imports, file: FileDesc, refs: seq<string>)
    ensures var r := NoteImports(t, imports, file, refs);
      && (forall fp :: HasImport(imports, file, fp) ==> HasImport(r, file, fp))
      && (forall j, fp :: 0 <= j < |refs| && Foreign(t, file, refs[j], fp) ==> HasImport(r, file, fp))
      && (forall k :: k in r ==>
            (k in imports && r[k] == imports[k])
            || exists j, fp :: 0 <= j < |refs| && Foreign(t, file, refs[j], fp) && fp.name == k)
  {
    NoteImportsKeep(t, imports, file, refs);
    NoteImportsComplete(t, imports, file, refs);
    NoteImportsOnly(t, imports, file, refs);
  }

  lemma {:induction false} NoteImportsAppend(t: Table, imports: Imports, file: FileDesc, a: seq<string>, b: seq<string>)
    ensures NoteImports(t, imports, file, a + b) == NoteImports(t, NoteImports(t, imports, file, a), file, b)
    decreases a
  {
    if a == [] {
      assert a + b == b;
    } else {
      assert (a + b)[0] == a[0] && (a + b)[1..] == a[1..] + b;
      NoteImportsAppend(t, NoteImport(t, imports, file, a[0]), file, a[1..], b);
    }
  }

  /** A walk over fields resolves each field's type name, in order, against a fixed table. */
  lemma {:induction false} FieldsPassImports(file: FileDesc, fs: seq<FieldDesc>, acc: Scan<FieldValues>, h: Collaborators)
    ensures var r := FieldsPass(file, fs, acc, h);
      r.Ok? ==> r.value.table == acc.table && r.value.imports == NoteImports(acc.table, acc.imports, file, FieldRefs(fs))
  {
    if fs != [] {
      assert FieldRefs(fs)[0] == fs[0].typeName && FieldRefs(fs)[1..] == FieldRefs(fs[1..]);
      match FieldStep(file, fs[0], acc, h)
      case Err(_) =>
      case Ok(next) => FieldsPassImports(file, fs[1..], next, h);
    }
  }

  /** A walk over methods resolves each method's input type, then its output type, against a fixed table. */
  lemma {:induction false} MethodsPassImports(file: FileDesc, mds: seq<MethodDesc>, acc: Scan<MethodValues>, h: Collaborators)
    ensures var r := MethodsPass(file, mds, acc, h);
      r.table == acc.table && r.imports == NoteImports(acc.table, acc.imports, file, MethodRefs(mds))
  {
    if mds != [] {
      var md := mds[0];
      NoteImportsAppend(acc.table, acc.imports, file, [md.inputType, md.outputType], MethodRefs(mds[1..]));
      assert [md.inputType, md.outputType][1..] == [md.outputType] && [md.outputType][1..] == [];
      MethodsPassImports(file, mds[1..], MethodStep(file, md, acc, h), h);
    }
  }

  /** References that miss or resolve to the file itself leave the imports exactly as they were. */
  lemma {:induction false} OwnReferencesImportNothing(t: Table, imports: Imports, file: FileDesc, refs: seq<string>)
    requires forall j :: 0 <= j < |refs| ==> refs[j] in t ==> t[refs[j]] == file
    ensures NoteImports(t, imports, file, refs) == imports
    decreases refs
  {
    if refs != [] {
      SamePackageIsFileIdentity(file, file, file);
      assert NoteImport(t, imports, file, refs[0]) == imports;
      OwnReferencesImportNothing(t, imports, file, refs[1..]);
    }
  }

  /**
   * The Timestamp type gets no special treatment when imports are
   * resolved: a field of that type still adds the import of whichever
   * other file registered it, while its TypeScript type is `Date`.
   */
  lemma TimestampFieldImportsItsFile(t: Table, imports: Imports, file: FileDesc, f: FieldDesc, fp: FileDesc)
    requires f.kind == TypeMessage && f.typeName == TIMESTAMP_TYPE
    requires Foreign(t, file, TIMESTAMP_TYPE, fp)
    ensures SingularFieldType(f) == "Date"
    ensures HasImport(NoteImports(t, imports, file, FieldRefs([f])), file, fp)
  {
    SingularFieldTypeTable(f);
    ForeignRefImported(t, imports, file, f.typeName, fp);
    assert FieldRefs([f]) == [f.typeName];
  }

  /** A single reference to another file imports that file. */
  lemma ForeignRefImported(t: Table, imports: Imports, file: FileDesc, ref: string, fp: FileDesc)
    requires Foreign(t, file, ref, fp)
    ensures HasImport(NoteImports(t, imports, file, [ref]), file, fp)
  {
    NoteImportsComplete(t, imports, file, [ref]);
  }

  /** Registering more names for `file` keeps every entry that already resolves to `file`. */
  lemma {:induction false} RegisterAllKeepsOwn(t: Table, file: FileDesc, names: seq<string>, k: string)
    requires Lookup(t, k) == Some(file)
    ensures Lookup(RegisterAll(t, file, names), k) == Some(file)
    decreases names
  {
    if names != [] {
      RegisterAllKeepsOwn(Register(t, file, names[0]), file, names[1..], k);
    }
  }

  /** After registering `names` for `file`, each of them resolves to `file`. */
  lemma {:induction false} RegisterAllDefines(t: Table, file: FileDesc, names: seq<string>, i: nat)
    requires i < |names|
    ensures Lookup(RegisterAll(t, file, names), FullTypeName(file, names[i])) == Some(file)
    decreases names
  {
    var t1 := Register(t, file, names[0]);
    if i == 0 {
      RegisterAllKeepsOwn(t1, file, names[1..], FullTypeName(file, names[0]));
    } else {
      assert names[1..][i - 1] == names[i];
      RegisterAllDefines(t1, file, names[1..], i - 1);
    }
  }
}
