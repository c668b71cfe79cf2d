/**
 * `generate` as the Go code runs it: a symbol table object updated in place
 * and loops that append to the lists of the file being generated. Every
 * method is proved to compute what the functions of `Resolution` describe.
 */
module Generator {
  import opened Options
  import opened Naming
  import opened ImportPaths
  import opened Schema
  import opened FieldTypes
  import opened Resolution

  /**
   * `dependencyResolver`: the symbol table. Its key format is an
   * assumption of this model (the type is defined outside generator.go).
   */
  class Resolver {
    var entries: Table

    constructor ()
      ensures entries == map[]
    {
      entries := map[];
    }

    /** `Set`: record that `name`, declared in `file`, is defined by `file`. */
    method Set(file: FileDesc, name: string)
      modifies this
      ensures entries == Register(old(entries), file, name)
    {
      entries := entries[FullTypeName(file, name) := file];
    }

    /** `Resolve`: the defining file of a reference, or a miss. */
    method Resolve(ref: string) returns (fp: Option<FileDesc>)
      ensures fp.Some? <==> ref in entries
      ensures fp.Some? ==> fp.value == entries[ref]
    {
      if ref in entries {
        fp := Some(entries[ref]);
      } else {
        fp := None;
      }
    }
  }

  /** Drops the symbol table from the outcome of a walk. */
  function Unscan<T>(r: Result<Scan<T>>): (u: Result<(Imports, seq<T>)>)
  {
    match r
    case Err(e) => Err(e)
    case Ok(s) => Ok((s.imports, s.items))
  }

  /**
   * The resolve-and-import block of `generate`: a reference that resolves
   * to another file adds that file's import entry, keyed by its name.
   */
  method ResolveImport(resolver: Resolver, file: FileDesc, ref: string, imports: Imports) returns (result: Imports)
    ensures result == NoteImport(resolver.entries, imports, file, ref)
  {
    result := imports;
    var fp := resolver.Resolve(ref);
    if fp.Some? {
      if !SamePackage(fp.value, file) {
        result := result[fp.value.name := ImportValues(ImportName(fp.value), ImportPath(file, fp.value.name))];
      }
    }
  }

  /** Copies the values of an enum into the model, in declaration order. */
  method BuildEnum(name: string, values: seq<EnumValueDesc>) returns (v: EnumValues)
    ensures v == EnumModel(name, EnumDesc(name, values))
  {
    var kvs: seq<EnumKeyVal> := [];
    for i := 0 to |values|
      invariant |kvs| == i
      invariant forall k :: 0 <= k < i ==> kvs[k] == EnumKeyVal(values[k].name, values[k].number)
    {
      kvs := kvs + [EnumKeyVal(values[i].name, values[i].number)];
    }
    v := EnumValues(name, kvs);
  }

  /** The top-level enums of a file: each is registered, then copied into the model. */
  method AddEnums(resolver: Resolver, file: FileDesc) returns (enums: seq<EnumValues>)
    modifies resolver
    ensures resolver.entries == RegisterAll(old(resolver.entries), file, EnumNames(file.enums))
    ensures enums == FileEnums(file.enums)
  {
    ghost var names := EnumNames(file.enums);
    enums := [];
    for i := 0 to |file.enums|
      invariant RegisterAll(old(resolver.entries), file, names) == RegisterAll(resolver.entries, file, names[i..])
      invariant |enums| == i
      invariant forall k :: 0 <= k < i ==> enums[k] == EnumModel(file.enums[k].name, file.enums[k])
    {
      var e := file.enums[i];
      assert names[i..][0] == e.name && names[i..][1..] == names[i + 1..];
      resolver.Set(file, e.name);
      var v := BuildEnum(e.name, e.values);
      enums := enums + [v];
    }
  }

  /**
   * The fields of one message, in order: the import of the field's type,
   * then its camel-case name (which may panic) and its TypeScript type.
   */
  method AddFields(resolver: Resolver, file: FileDesc, fields: seq<FieldDesc>, imports: Imports, h: Collaborators)
    returns (r: Result<(Imports, seq<FieldValues>)>)
    ensures r == Unscan(FieldsPass(file, fields, Scan(resolver.entries, imports, []), h))
  {
    var imps := imports;
    var out: seq<FieldValues> := [];
    for i := 0 to |fields|
      invariant FieldsPass(file, fields, Scan(resolver.entries, imports, []), h)
             == FieldsPass(file, fields[i..], Scan(resolver.entries, imps, out), h)
    {
      var f := fields[i];
      assert fields[i..][0] == f && fields[i..][1..] == fields[i + 1..];
      imps := ResolveImport(resolver, file, f.typeName, imps);
      var camel := CamelCase(f.name);
      if camel.None? {
        return Err(CamelCasePanic(f.name));
      }
      out := out + [FieldValues(f.name, camel.value, h.typeName(resolver.entries, file, SingularFieldType(f)), IsRepeated(f))];
    }
    r := Ok((imps, out));
  }

  /** The enums nested in message `msgName`, renamed with the message name as prefix. */
  method AddNestedEnums(msgName: string, es: seq<EnumDesc>) returns (nested: seq<EnumValues>)
    ensures nested == NestedEnums(msgName, es)
  {
    nested := [];
    for k := 0 to |es|
      invariant |nested| == k
      invariant forall j :: 0 <= j < k ==> nested[j] == EnumModel(msgName + "_" + es[j].name, es[j])
    {
      var v := BuildEnum(msgName + "_" + es[k].name, es[k].values);
      nested := nested + [v];
    }
  }

  /** The three names of a message go into the symbol table, in this order. */
  method RegisterMessage(resolver: Resolver, file: FileDesc, m: MessageDesc, h: Collaborators)
    modifies resolver
    ensures resolver.entries == RegisterAll(old(resolver.entries), file, MessageNames(m, h))
  {
    ghost var names := MessageNames(m, h);
    assert names[1..] == [h.interfaceName(m.name), h.jsonInterfaceName(m.name)];
    assert names[1..][1..] == [h.jsonInterfaceName(m.name)] && names[1..][1..][1..] == [];
    resolver.Set(file, m.name);
    assert RegisterAll(old(resolver.entries), file, names) == RegisterAll(resolver.entries, file, names[1..]);
    resolver.Set(file, h.interfaceName(m.name));
    assert RegisterAll(old(resolver.entries), file, names) == RegisterAll(resolver.entries, file, names[1..][1..]);
    resolver.Set(file, h.jsonInterfaceName(m.name));
    assert RegisterAll(old(resolver.entries), file, names) == RegisterAll(resolver.entries, file, names[1..][1..][1..]);
  }

  /**
   * One message: its three names are registered, a nested message aborts
   * the run, its nested enums are copied, then its fields are resolved and
   * the message is appended to `messages`.
   */
  method AddMessage(resolver: Resolver, file: FileDesc, m: MessageDesc, imports: Imports,
                    messages: seq<MessageValues>, h: Collaborators)
    returns (r: Result<(Imports, seq<MessageValues>)>)
    modifies resolver
    ensures var spec := MessageStep(file, m, Scan(old(resolver.entries), imports, messages), h);
      && r == Unscan(spec)
      && (r.Ok? ==> resolver.entries == spec.value.table)
  {
    var name := m.name;
    var tsInterface := h.interfaceName(name);
    var jsonInterface := h.jsonInterfaceName(name);
    RegisterMessage(resolver, file, m, h);

    if m.nestedMessages != [] {
      return Err(NestedMessage(name));
    }

    var nested := AddNestedEnums(name, m.nestedEnums);
    var fr := AddFields(resolver, file, m.fields, imports, h);
    if fr.Err? {
      r := Err(fr.fatal);
    } else {
      var v := MessageValues(name, tsInterface, jsonInterface, fr.value.1, [], nested);
      r := Ok((fr.value.0, messages + [v]));
    }
  }

  /** The methods of one service: imports for input and output types, then their spellings. */
  method AddMethods(resolver: Resolver, file: FileDesc, methods: seq<MethodDesc>, imports: Imports, h: Collaborators)
    returns (imps: Imports, out: seq<MethodValues>)
    ensures MethodsPass(file, methods, Scan(resolver.entries, imports, []), h) == Scan(resolver.entries, imps, out)
  {
    imps := imports;
    out := [];
    for i := 0 to |methods|
      invariant MethodsPass(file, methods, Scan(resolver.entries, imports, []), h)
             == MethodsPass(file, methods[i..], Scan(resolver.entries, imps, out), h)
    {
      var md := methods[i];
      assert methods[i..][0] == md && methods[i..][1..] == methods[i + 1..];
      imps := ResolveImport(resolver, file, md.inputType, imps);
      imps := ResolveImport(resolver, file, md.outputType, imps);
      out := out + [MethodValues(md.name, h.typeName(resolver.entries, file, RemovePkg(md.inputType)),
                                 h.typeName(resolver.entries, file, RemovePkg(md.outputType)))];
    }
  }

  /** One service: its name is registered, then its methods are walked and it is appended. */
  method AddService(resolver: Resolver, file: FileDesc, s: ServiceDesc, imports: Imports,
                    services: seq<ServiceValues>, h: Collaborators)
    returns (imps: Imports, out: seq<ServiceValues>)
    modifies resolver
    ensures ServiceStep(file, s, Scan(old(resolver.entries), imports, services), h) == Scan(resolver.entries, imps, out)
  {
    resolver.Set(file, s.name);
    var methods;
    imps, methods := AddMethods(resolver, file, s.methods, imports, h);
    out := services + [ServiceValues(file.pkg, s.name, h.interfaceName(s.name), methods)];
  }

  /**
   * One schema file: enums, messages and services in that order, then the
   * template step; the model and the rendered text, or the reason the run
   * ends.
   */
  method GenerateFile(resolver: Resolver, file: FileDesc, h: Collaborators) returns (r: Result<(FileModel, string)>)
    modifies resolver
    ensures var spec := FilePass(old(resolver.entries), file, h);
      && r.Err? == spec.Err?
      && (r.Err? ==> r.fatal == spec.fatal)
      && (r.Ok? ==> spec.value == FileOut(resolver.entries, r.value.0, r.value.1))
  {
    var enums := AddEnums(resolver, file);

    var imports: Imports := map[];
    var messages: seq<MessageValues> := [];
    ghost var afterEnums := resolver.entries;
    for j := 0 to |file.messages|
      invariant MessagesPass(file, file.messages, Scan(afterEnums, map[], []), h)
             == MessagesPass(file, file.messages[j..], Scan(resolver.entries, imports, messages), h)
    {
      var m := file.messages[j];
      assert file.messages[j..][0] == m && file.messages[j..][1..] == file.messages[j + 1..];
      var mr := AddMessage(resolver, file, m, imports, messages, h);
      if mr.Err? {
        return Err(mr.fatal);
      }
      imports, messages := mr.value.0, mr.value.1;
    }

    var services: seq<ServiceValues> := [];
    ghost var afterMessages, importsAfterMessages := resolver.entries, imports;
    for k := 0 to |file.services|
      invariant ServicesPass(file, file.services, Scan(afterMessages, importsAfterMessages, []), h)
             == ServicesPass(file, file.services[k..], Scan(resolver.entries, imports, services), h)
    {
      var s := file.services[k];
      assert file.services[k..][0] == s && file.services[k..][1..] == file.services[k + 1..];
      imports, services := AddService(resolver, file, s, imports, services, h);
    }

    var model := FileModel(imports, messages, services, enums);
    match h.compile(model)
    case RenderError(reason) =>
      r := Err(TemplateFailed(reason));
    case Rendered(text) =>
      r := Ok((model, text));
  }

  /**
   * `generate`: one fresh symbol table for the run, the twirp file first,
   * then one generated file per schema file, in the order given; the first
   * fatal condition ends the run with no response.
   */
  method Generate(protoFiles: seq<FileDesc>, h: Collaborators) returns (res: Result<Response>)
    ensures res == Run(protoFiles, h)
  {
    var resolver := new Resolver();
    var files := [h.twirpFile];
    var models: seq<FileModel> := [];
    for i := 0 to |protoFiles|
      invariant Run(protoFiles, h) == GeneratePass(resolver.entries, protoFiles[i..], Response(files, models), h)
    {
      var file := protoFiles[i];
      assert protoFiles[i..][0] == file && protoFiles[i..][1..] == protoFiles[i + 1..];
      var fr := GenerateFile(resolver, file, h);
      if fr.Err? {
        return Err(fr.fatal);
      }
      var fileName := TsFileName(file.name);
      files := files + [OutFile(fileName, fr.value.1)];
      models := models + [fr.value.0];
    }
    res := Ok(Response(files, models));
  }
}
