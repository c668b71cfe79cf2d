/**
 * The resolution pass of `generate` as functions: the symbol table, the
 * per-file import map, and the left-to-right walk over files, enums,
 * messages, fields, services and methods in which every declaration is
 * registered before the references that follow it are resolved.
 *
 * Each walk inside a file is a fold over a `Scan`: the symbol table, the
 * import map of the file being generated, and the items produced so far.
 */
module Resolution {
  import opened Options
  import opened Naming
  import opened ImportPaths
  import opened Schema
  import opened FieldTypes

  /** The symbol table of `dependencyResolver`: qualified type name to defining file. */
  type Table = map<string, FileDesc>

  /** `protoFile.Imports`: defining file name to import identifier and path. */
  type Imports = map<string, ImportValues>

  /** What the template step returns: the rendered text or its error. */
  datatype Rendering = Rendered(text: string) | RenderError(reason: string)

  /**
   * The code generator.go calls but does not define: `typeToInterface`,
   * `typeToJSONInterface`, `dependencyResolver.TypeName`, `protoFile.Compile`
   * and the fixed twirp support file that leads every response.
   */
  datatype Collaborators = Collaborators(
    interfaceName: string -> string,
    jsonInterfaceName: string -> string,
    typeName: (Table, FileDesc, string) -> string,
    compile: FileModel -> Rendering,
    twirpFile: OutFile)

  /** `resolver.Resolve`: the defining file of a reference, or a miss. */
  function Lookup(t: Table, ref: string): (r: Option<FileDesc>)
    ensures r.Some? <==> ref in t
    ensures r.Some? ==> r.value == t[ref]
  {
    if ref in t then Some(t[ref]) else None
  }

  /**
   * `resolver.Set(file, name)`, keyed by the full type name of `name` in
   * `file`'s package. A later registration of the same key wins; every
   * other entry stays as it was.
   */
  function Register(t: Table, file: FileDesc, name: string): (r: Table)
    ensures Lookup(r, FullTypeName(file, name)) == Some(file)
    ensures forall k :: k != FullTypeName(file, name) ==> Lookup(r, k) == Lookup(t, k)
    ensures r.Keys == t.Keys + {FullTypeName(file, name)}
  {
    t[FullTypeName(file, name) := file]
  }

  /** Successive `resolver.Set` calls for `names`, in order. */
  function RegisterAll(t: Table, file: FileDesc, names: seq<string>): (r: Table)
    decreases names
  {
    if names == [] then t else RegisterAll(Register(t, file, names[0]), file, names[1..])
  }

  /**
   * One resolve-and-import step (generator.go:113-122 and its two copies for
   * method types): a reference that resolves to another file records that
   * file's import identifier and path under the file's name.
   */
  function NoteImport(t: Table, imports: Imports, file: FileDesc, ref: string): (r: Imports)
  {
    match Lookup(t, ref)
    case None => imports
    case Some(fp) =>
      if SamePackage(fp, file) then imports
      else imports[fp.name := ImportValues(ImportName(fp), ImportPath(file, fp.name))]
  }

  function EnumKeyVals(vs: seq<EnumValueDesc>): (r: seq<EnumKeyVal>)
  {
    seq(|vs|, i requires 0 <= i < |vs| => EnumKeyVal(vs[i].name, vs[i].number))
  }

  function EnumModel(name: string, e: EnumDesc): (r: EnumValues)
  {
    EnumValues(name, EnumKeyVals(e.values))
  }

  function EnumNames(es: seq<EnumDesc>): (r: seq<string>)
  {
    seq(|es|, i requires 0 <= i < |es| => es[i].name)
  }

  /** The file's top-level enums, as the model lists them. */
  function FileEnums(es: seq<EnumDesc>): (r: seq<EnumValues>)
  {
    seq(|es|, i requires 0 <= i < |es| => EnumModel(es[i].name, es[i]))
  }

  /** Enums nested in message `msgName`, renamed `<msgName>_<enum>`. */
  function NestedEnums(msgName: string, es: seq<EnumDesc>): (r: seq<EnumValues>)
  {
    seq(|es|, i requires 0 <= i < |es| => EnumModel(msgName + "_" + es[i].name, es[i]))
  }

  /** The running state of a walk: symbol table, imports and the items produced. */
  datatype Scan<T> = Scan(table: Table, imports: Imports, items: seq<T>)

  /** The model of one field, or the panic of `camelCase` on its name. */
  function FieldModel(t: Table, file: FileDesc, f: FieldDesc, h: Collaborators): (r: Result<FieldValues>)
  {
    match CamelName(f.name, false)
    case None => Err(CamelCasePanic(f.name))
    case Some(camel) =>
      Ok(FieldValues(f.name, camel, h.typeName(t, file, SingularFieldType(f)), IsRepeated(f)))
  }

  function FieldStep(file: FileDesc, f: FieldDesc, acc: Scan<FieldValues>, h: Collaborators): (r: Result<Scan<FieldValues>>)
  {
    var imports := NoteImport(acc.table, acc.imports, file, f.typeName);
    match FieldModel(acc.table, file, f, h)
    case Err(e) => Err(e)
    case Ok(v) => Ok(Scan(acc.table, imports, acc.items + [v]))
  }

  function FieldsPass(file: FileDesc, fs: seq<FieldDesc>, acc: Scan<FieldValues>, h: Collaborators): (r: Result<Scan<FieldValues>>)
  {
    if fs == [] then Ok(acc)
    else
      match FieldStep(file, fs[0], acc, h)
      case Err(e) => Err(e)
      case Ok(next) => FieldsPass(file, fs[1..], next, h)
  }

  /** The three names a message registers: its own, its interface and its JSON interface. */
  function MessageNames(m: MessageDesc, h: Collaborators): (r: seq<string>)
  {
    [m.name, h.interfaceName(m.name), h.jsonInterfaceName(m.name)]
  }

  /**
   * One message: register its names, abort on a nested message, then resolve
   * its fields against the table that now includes the message itself.
   */
  function MessageStep(file: FileDesc, m: MessageDesc, acc: Scan<MessageValues>, h: Collaborators): (r: Result<Scan<MessageValues>>)
  {
    var t := RegisterAll(acc.table, file, MessageNames(m, h));
    if m.nestedMessages != [] then Err(NestedMessage(m.name))
    else
      match FieldsPass(file, m.fields, Scan(t, acc.imports, []), h)
      case Err(e) => Err(e)
      case Ok(fs) =>
        var v := MessageValues(m.name, h.interfaceName(m.name), h.jsonInterfaceName(m.name),
                               fs.items, [], NestedEnums(m.name, m.nestedEnums));
        Ok(Scan(t, fs.imports, acc.items + [v]))
  }

  function MessagesPass(file: FileDesc, ms: seq<MessageDesc>, acc: Scan<MessageValues>, h: Collaborators): (r: Result<Scan<MessageValues>>)
  {
    if ms == [] then Ok(acc)
    else
      match MessageStep(file, ms[0], acc, h)
      case Err(e) => Err(e)
      case Ok(next) => MessagesPass(file, ms[1..], next, h)
  }

  /** One service method: imports for its input and output types, then their spellings. */
  function MethodStep(file: FileDesc, md: MethodDesc, acc: Scan<MethodValues>, h: Collaborators): (r: Scan<MethodValues>)
  {
    var imports := NoteImport(acc.table, NoteImport(acc.table, acc.imports, file, md.inputType), file, md.outputType);
    var v := MethodValues(md.name, h.typeName(acc.table, file, RemovePkg(md.inputType)),
                          h.typeName(acc.table, file, RemovePkg(md.outputType)));
    Scan(acc.table, imports, acc.items + [v])
  }

  function MethodsPass(file: FileDesc, mds: seq<MethodDesc>, acc: Scan<MethodValues>, h: Collaborators): (r: Scan<MethodValues>)
  {
    if mds == [] then acc else MethodsPass(file, mds[1..], MethodStep(file, mds[0], acc, h), h)
  }

  /** One service: register its name, then walk its methods. */
  function ServiceStep(file: FileDesc, s: ServiceDesc, acc: Scan<ServiceValues>, h: Collaborators): (r: Scan<ServiceValues>)
  {
    var t := Register(acc.table, file, s.name);
    var ms := MethodsPass(file, s.methods, Scan(t, acc.imports, []), h);
    Scan(t, ms.imports, acc.items + [ServiceValues(file.pkg, s.name, h.interfaceName(s.name), ms.items)])
  }

  function ServicesPass(file: FileDesc, ss: seq<ServiceDesc>, acc: Scan<ServiceValues>, h: Collaborators): (r: Scan<ServiceValues>)
  {
    if ss == [] then acc else ServicesPass(file, ss[1..], ServiceStep(file, ss[0], acc, h), h)
  }

  /** The table after a file, its model, and the rendered text. */
  datatype FileOut = FileOut(table: Table, model: FileModel, text: string)

  /**
   * One schema file: enums, then messages, then services, each registered
   * and resolved in declaration order, then the template step.
   */
  function FilePass(t: Table, file: FileDesc, h: Collaborators): (r: Result<FileOut>)
  {
    var t1 := RegisterAll(t, file, EnumNames(file.enums));
    match MessagesPass(file, file.messages, Scan(t1, map[], []), h)
    case Err(e) => Err(e)
    case Ok(ms) =>
      var ss := ServicesPass(file, file.services, Scan(ms.table, ms.imports, []), h);
      var model := FileModel(ss.imports, ms.items, ss.items, FileEnums(file.enums));
      match h.compile(model)
      case RenderError(reason) => Err(TemplateFailed(reason))
      case Rendered(text) => Ok(FileOut(ss.table, model, text))
  }

  /**
   * The plugin's answer: the generated files, and the model each schema
   * file was rendered from (in the order of the schema files).
   */
  datatype Response = Response(files: seq<OutFile>, models: seq<FileModel>)

  function GeneratePass(t: Table, files: seq<FileDesc>, acc: Response, h: Collaborators): (r: Result<Response>)
    decreases files
  {
    if files == [] then Ok(acc)
    else
      match FilePass(t, files[0], h)
      case Err(e) => Err(e)
      case Ok(out) =>
        GeneratePass(out.table, files[1..],
                     Response(acc.files + [OutFile(TsFileName(files[0].name), out.text)], acc.models + [out.model]), h)
  }

  /** `generate`: a fresh symbol table, the twirp file first, then one file per schema file. */
  function Run(files: seq<FileDesc>, h: Collaborators): (r: Result<Response>)
  {
    GeneratePass(map[], files, Response([h.twirpFile], []), h)
  }
}
