/**
 * A two-file scenario: `a.proto` declares message `Foo`, and `b.proto`
 * declares message `Bar` with a field of type `.pkg.Foo`. Generated in
 * the order a, b, the file for b imports a; in the order b, a, nothing is
 * imported, because `Foo` is not yet registered when b is resolved.
 */
module Scenarios {
  import opened Options
  import opened Naming
  import opened ImportPaths
  import opened Schema
  import opened Resolution
  import opened ImportFacts
  import opened OutputFacts

  /** Registering other names leaves the entry of key `k` as it was. */
  lemma {:induction false} RegisterAllOthers(t: Table, file: FileDesc, names: seq<string>, k: string)
    requires forall i :: 0 <= i < |names| ==> FullTypeName(file, names[i]) != k
    ensures Lookup(RegisterAll(t, file, names), k) == Lookup(t, k)
    decreases names
  {
    if names != [] {
      forall i | 0 <= i < |names[1..]|
        ensures FullTypeName(file, names[1..][i]) != k
      {
        assert names[1..][i] == names[i + 1];
      }
      RegisterAllOthers(Register(t, file, names[0]), file, names[1..], k);
    }
  }

  /** In package `pkg`, only the name `Foo` has the full type name `.pkg.Foo`. */
  lemma FooKey(file: FileDesc, name: string)
    requires file.pkg == "pkg" && name != "Foo"
    ensures FullTypeName(file, name) != ".pkg.Foo"
  {
  }

  lemma ImportOfA(name: string)
    requires name == "a.proto"
    ensures TsImportName(name) == "a" && TsImportPath(name) == "a"
  {
    assert '/' !in name;
    assert Base(name) == name;
    assert name == "a" + ['.'] + "proto";
    ExtAfterDot("a", "proto");
  }

  /** a.proto: package `pkg`, one message `Foo` with no fields and nothing nested. */
  predicate IsA(a: FileDesc)
  {
    && a.pkg == "pkg" && a.name == "a.proto" && a.enums == [] && |a.messages| == 1 && a.services == []
    && a.messages[0].name == "Foo" && a.messages[0].fields == []
    && a.messages[0].nestedMessages == [] && a.messages[0].nestedEnums == []
  }

  /** b.proto: package `pkg`, one message `Bar` whose one field `foo` has type `.pkg.Foo`. */
  predicate IsB(b: FileDesc)
  {
    && b.pkg == "pkg" && b.name == "b.proto" && b.enums == [] && |b.messages| == 1 && b.services == []
    && b.messages[0].name == "Bar" && |b.messages[0].fields| == 1
    && b.messages[0].nestedMessages == [] && b.messages[0].nestedEnums == []
    && b.messages[0].fields[0].name == "foo" && b.messages[0].fields[0].typeName == ".pkg.Foo"
  }

  /** After a.proto, `.pkg.Foo` resolves to a.proto. */
  lemma FirstFile(t: Table, a: FileDesc, h: Collaborators)
    requires IsA(a)
    requires forall model :: h.compile(model).Rendered?
    ensures FilePass(t, a, h).Ok? && Lookup(FilePass(t, a, h).value.table, ".pkg.Foo") == Some(a)
  {
    var foo := a.messages[0];
    assert EnumNames(a.enums) == [];
    var names := MessageNames(foo, h);
    var ta := RegisterAll(t, a, names);
    assert FullTypeName(a, "Foo") == ".pkg.Foo";
    RegisterAllDefines(t, a, names, 0);
    assert FieldsPass(a, foo.fields, Scan(ta, map[], []), h) == Ok(Scan(ta, map[], []));
    var step := MessageStep(a, foo, Scan(t, map[], []), h);
    assert step.Ok? && step.value.table == ta;
    assert a.messages[1..] == [];
    var ms := MessagesPass(a, a.messages, Scan(t, map[], []), h);
    assert ms == MessagesPass(a, [], step.value, h) == step;
    assert ServicesPass(a, a.services, Scan(ta, map[], []), h).table == ta;
  }

  /** The one field of `Bar`, resolved against a table in which `.pkg.Foo` is a.proto's, imports a. */
  lemma BarField(tb: Table, a: FileDesc, b: FileDesc, h: Collaborators)
    requires a.name == "a.proto" && Lookup(tb, ".pkg.Foo") == Some(a)
    requires IsB(b)
    ensures var fs := FieldsPass(b, b.messages[0].fields, Scan(tb, map[], []), h);
      fs.Ok? && fs.value.imports == map["a.proto" := ImportValues("a", "a")]
  {
    var f := b.messages[0].fields[0];
    assert b.messages[0].fields == [f];
    CamelNameWithoutUnderscore(f.name);
    var acc := Scan(tb, map[], []);
    var next := FieldStep(b, f, acc, h);
    assert next.Ok?;
    assert [f][1..] == [];
    assert FieldsPass(b, [f], acc, h) == next;
    assert !SamePackage(a, b);
    ImportOfA(a.name);
  }

  /** b.proto, resolved against a table in which `.pkg.Foo` is a.proto's, imports exactly a. */
  lemma SecondFile(t: Table, a: FileDesc, b: FileDesc, h: Collaborators)
    requires a.name == "a.proto" && Lookup(t, ".pkg.Foo") == Some(a)
    requires IsB(b)
    requires h.interfaceName("Bar") != "Foo" && h.jsonInterfaceName("Bar") != "Foo"
    requires forall model :: h.compile(model).Rendered?
    ensures FilePass(t, b, h).Ok? && FilePass(t, b, h).value.model.imports == map["a.proto" := ImportValues("a", "a")]
  {
    var bar := b.messages[0];
    assert EnumNames(b.enums) == [];
    var names := MessageNames(bar, h);
    forall i | 0 <= i < |names|
      ensures FullTypeName(b, names[i]) != ".pkg.Foo"
    {
      FooKey(b, names[i]);
    }
    var tb := RegisterAll(t, b, names);
    RegisterAllOthers(t, b, names, ".pkg.Foo");
    BarField(tb, a, b, h);
    var imports := map["a.proto" := ImportValues("a", "a")];
    var step := MessageStep(b, bar, Scan(t, map[], []), h);
    assert step.Ok? && step.value.imports == imports;
    assert b.messages[1..] == [];
    var ms := MessagesPass(b, b.messages, Scan(t, map[], []), h);
    assert ms == MessagesPass(b, [], step.value, h) == step;
    assert ServicesPass(b, b.services, Scan(step.value.table, imports, []), h).imports == imports;
  }

  /** Two files that each generate successfully, the second against the table the first left. */
  lemma TwoFileRun(a: FileDesc, b: FileDesc, h: Collaborators)
    requires FilePass(map[], a, h).Ok? && FilePass(FilePass(map[], a, h).value.table, b, h).Ok?
    ensures var r := Run([a, b], h);
      r.Ok? && |r.value.models| == 2 && r.value.models[1] == FilePass(FilePass(map[], a, h).value.table, b, h).value.model
  {
    var files := [a, b];
    var outA := FilePass(map[], a, h).value;
    var outB := FilePass(outA.table, b, h).value;
    var acc := Response([h.twirpFile], []);
    var accA := Response(acc.files + [OutFile(TsFileName(a.name), outA.text)], acc.models + [outA.model]);
    var accB := Response(accA.files + [OutFile(TsFileName(b.name), outB.text)], accA.models + [outB.model]);
    assert files[1..] == [b];
    assert GeneratePass(map[], files, acc, h) == GeneratePass(outA.table, [b], accA, h);
    assert [b][1..] == [];
    assert GeneratePass(outA.table, [b], accA, h) == GeneratePass(outB.table, [], accB, h) == Ok(accB);
  }

  /** Generated in the order a, b, the file for b imports a under its name, with identifier and path "a". */
  lemma DefinitionFirst(a: FileDesc, b: FileDesc, h: Collaborators)
    requires IsA(a) && IsB(b)
    requires h.interfaceName("Bar") != "Foo" && h.jsonInterfaceName("Bar") != "Foo"
    requires forall model :: h.compile(model).Rendered?
    ensures var r := Run([a, b], h);
      r.Ok? && |r.value.models| == 2 && r.value.models[1].imports == map["a.proto" := ImportValues("a", "a")]
  {
    FirstFile(map[], a, h);
    SecondFile(FilePass(map[], a, h).value.table, a, b, h);
    TwoFileRun(a, b, h);
  }

  /** Generated in the order b, a, the file for b imports nothing: `Foo` is not yet registered. */
  lemma ReferenceFirst(a: FileDesc, b: FileDesc, h: Collaborators)
    requires IsA(a) && IsB(b)
    requires forall model :: h.compile(model).Rendered?
    ensures var r := Run([b, a], h);
      r.Ok? && |r.value.models| == 2 && r.value.models[0].imports == map[]
  {
    UnsupportedNone(a, b);
    RunSucceedsIff([b, a], h);
    FirstFileImportsNothing([b, a], h);
  }

  lemma UnsupportedNone(a: FileDesc, b: FileDesc)
    requires IsA(a) && IsB(b)
    ensures forall i, m :: 0 <= i < |[b, a]| && m in [b, a][i].messages ==> !Unsupported(m)
  {
    CamelNameWithoutUnderscore("foo");
    var f := b.messages[0].fields[0];
    assert forall g :: g in b.messages[0].fields ==> g == f;
  }
}
