/**
 * The parsed schema the generator reads (the parts of protobuf's
 * `FileDescriptorProto` it uses) and the per-file model it hands to the
 * template step, with the small descriptor helpers of generator.go.
 */
module Schema {
  import opened Options
  import opened Strings
  import opened Naming
  import opened ImportPaths

  /** A schema file name: protoc never hands the plugin an unnamed file. */
  type FileName = s: string | s != [] witness "a"

  /** `FieldDescriptorProto.Type`, in protobuf's declaration order. */
  datatype FieldKind =
    | TypeDouble | TypeFloat | TypeInt64 | TypeUint64 | TypeInt32 | TypeFixed64
    | TypeFixed32 | TypeBool | TypeString | TypeGroup | TypeMessage | TypeBytes
    | TypeUint32 | TypeEnum | TypeSfixed32 | TypeSfixed64 | TypeSint32 | TypeSint64

  /** `FieldDescriptorProto.Label`. */
  datatype Label = LabelOptional | LabelRequired | LabelRepeated

  /** A field; `typeName` is the qualified type reference ("" for scalars). */
  datatype FieldDesc = FieldDesc(name: string, fieldLabel: Option<Label>, kind: FieldKind, typeName: string)

  datatype EnumValueDesc = EnumValueDesc(name: string, number: int)

  datatype EnumDesc = EnumDesc(name: string, values: seq<EnumValueDesc>)

  datatype MessageDesc = MessageDesc(
    name: string,
    fields: seq<FieldDesc>,
    nestedMessages: seq<MessageDesc>,
    nestedEnums: seq<EnumDesc>)

  datatype MethodDesc = MethodDesc(name: string, inputType: string, outputType: string)

  datatype ServiceDesc = ServiceDesc(name: string, methods: seq<MethodDesc>)

  datatype FileDesc = FileDesc(
    pkg: string,
    name: FileName,
    enums: seq<EnumDesc>,
    messages: seq<MessageDesc>,
    services: seq<ServiceDesc>)

  /** One entry of the per-file import map: the module identifier and its path. */
  datatype ImportValues = ImportValues(name: string, path: string)

  datatype EnumKeyVal = EnumKeyVal(name: string, value: int)

  datatype EnumValues = EnumValues(name: string, values: seq<EnumKeyVal>)

  /** A field of the model: schema name, camel-case name, TypeScript type, repeated flag. */
  datatype FieldValues = FieldValues(name: string, field: string, typ: string, isRepeated: bool)

  datatype MessageValues = MessageValues(
    name: string,
    iface: string,
    jsonIface: string,
    fields: seq<FieldValues>,
    nestedTypes: seq<MessageValues>,
    nestedEnums: seq<EnumValues>)

  datatype MethodValues = MethodValues(name: string, inputType: string, outputType: string)

  datatype ServiceValues = ServiceValues(pkg: string, name: string, iface: string, methods: seq<MethodValues>)

  /** What the template step receives for one schema file. */
  datatype FileModel = FileModel(
    imports: map<string, ImportValues>,
    messages: seq<MessageValues>,
    services: seq<ServiceValues>,
    enums: seq<EnumValues>)

  /** One generated file of the plugin response. */
  datatype OutFile = OutFile(name: string, content: string)

  /** The ways a run ends the process instead of answering. */
  datatype Fatal =
    | NestedMessage(message: string)   // log.Fatal: nested messages are not supported
    | CamelCasePanic(field: string)    // index out of range in camelCase
    | TemplateFailed(reason: string)   // log.Fatal: could not compile template

  datatype Result<T> = Ok(value: T) | Err(fatal: Fatal)

  /** `samePackage`: two descriptors denote the same file when package and name agree. */
  function SamePackage(a: FileDesc, b: FileDesc): (r: bool)
    ensures r <==> a.pkg == b.pkg && a.name == b.name
  {
    if a.pkg != b.pkg then false
    else if a.name != b.name then false
    else true
  }

  /** `samePackage` is an equivalence, and a shared package alone is not enough. */
  lemma SamePackageIsFileIdentity(a: FileDesc, b: FileDesc, c: FileDesc)
    ensures SamePackage(a, a)
    ensures SamePackage(a, b) == SamePackage(b, a)
    ensures SamePackage(a, b) && SamePackage(b, c) ==> SamePackage(a, c)
    ensures a.pkg == b.pkg && a.name != b.name ==> !SamePackage(a, b)
  {
  }

  /** `fullTypeName`: ".<package>.<name>". */
  function FullTypeName(fd: FileDesc, typeName: string): (r: string)
    ensures |r| == |fd.pkg| + |typeName| + 2 && r[0] == '.'
    ensures r[1..|fd.pkg| + 1] == fd.pkg
    ensures r[|r| - |typeName|..] == typeName && r[|r| - |typeName| - 1] == '.'
  {
    "." + fd.pkg + "." + typeName
  }

  /** Removing the package of a full type name gives back a dot-free name. */
  lemma RemovePkgOfFullTypeName(fd: FileDesc, typeName: string)
    requires '.' !in typeName
    ensures RemovePkg(FullTypeName(fd, typeName)) == typeName
  {
    assert FullTypeName(fd, typeName) == ("." + fd.pkg) + ['.'] + typeName;
    LastPieceAfterSeparator("." + fd.pkg, '.', typeName);
  }

  /** `isRepeated`: the label is present and is LABEL_REPEATED. */
  function IsRepeated(f: FieldDesc): (r: bool)
    ensures r <==> f.fieldLabel == Some(LabelRepeated)
  {
    f.fieldLabel.Some? && f.fieldLabel.value == LabelRepeated
  }

  /** `importName`: the import identifier of a defining file. */
  function ImportName(fp: FileDesc): (r: string)
  {
    TsImportName(fp.name)
  }

  /** A file whose name has no trailing `/` is imported under a `/`-free identifier. */
  lemma ImportNameSlashFree(fp: FileDesc)
    requires fp.name[|fp.name| - 1] != '/'
    ensures '/' !in ImportName(fp)
  {
    ImportNameWithinPath(fp.name);
  }

  /**
   * `importPath`: the import path of file `name` as seen from `fd`; the
   * importing file is not consulted, so the path is always the defining
   * file's own name without its extension.
   */
  function ImportPath(fd: FileDesc, name: FileName): (r: string)
    ensures |r| <= |name| && name[..|r|] == r
  {
    TsImportPath(name)
  }
}
