# protoc-gen-twirp_ts: the generator pass, in Dafny

This project models `generator.go` of protoc-gen-twirp_ts. That plugin for
the Protocol Buffers compiler turns schema files into TypeScript clients for
Twirp services. The model covers two parts.

- **The resolution pass, `generate`.** It walks the schema files in
  request order. It keeps one symbol table for the whole run (the
  `dependencyResolver`). Enums, messages and their two interface names, and
  services are registered in the table as they are met. Field types and
  method input/output types are resolved against the table as it stands at
  that moment, so a forward reference misses. A reference that resolves to
  another file adds an import of that file to the current file's import map.
  Each file yields a model (imports, enums, messages with their fields and
  nested enums, services with their methods), which the template step
  renders. The response is the fixed twirp support file followed by one
  `.ts` file per schema file. A nested message, a field name that
  `camelCase` cannot handle (Go panics), and a template error each end the
  run without a response.
- **The naming functions.** These are `samePackage`, `fullTypeName`,
  `isRepeated`, `removePkg`, `upperCaseFirst`, `camelCase`, `importName`,
  `tsImportName`, `tsImportPath`, `importPath` and `tsFileName`, over Go's
  `strings.Split`, `strings.Join`, `path.Base` and `path.Ext`. Also the type
  mapping `singularFieldType` and `fieldType`.

The files:

- `options.dfy`: Option type.
- `strings.dfy`: `strings.Split` with a one-character separator, and `strings.Join` with "".
- `naming.dfy`: `removePkg`, `upperCaseFirst`, and `camelCase`. `camelCase` is both a loop method and a character-wise reference function.
- `paths.dfy`: `path.Base`, `path.Ext`, `tsImportName`, `tsImportPath` and `tsFileName`.
- `schema.dfy`: descriptors, the records handed to the template, `samePackage`, `fullTypeName`, `isRepeated`, `importName` and `importPath`.
- `fieldtypes.dfy`: `singularFieldType` and `fieldType`.
- `resolution.dfy`: the whole pass as functions. Each walk inside a file (fields, messages, methods, services) is a left-to-right fold over a `Scan`, which carries the symbol table, the imports and the items built so far. The walk over files folds over the table and a `Response`.
- `generator.dfy`: the pass as the Go code runs it. A `Resolver` class holds the table and is updated in place. Loops append to the lists. Every method is proved to compute what `resolution.dfy` describes.
- `tables.dfy`: the symbol table after a file's messages, services, the whole file and a list of files, as a function of the declared names alone.
- `import_facts.dfy`: where imports come from, and which references produce them.
- `file_imports.dfy`: a whole file's import map: every other file that one of its field or method types resolves to, and nothing else.
- `output_facts.dfy`: the response's shape, declaration order, and when a run fails.
- `scenarios.dfy`: one file referring to another, generated in both orders.

## Model

| member | source | states |
|---|---|---|
| Schema.SamePackage | generator.go:13-21 | true exactly when both the package and the file name are equal |
| Schema.SamePackageIsFileIdentity | generator.go:13-21 | `samePackage` is reflexive, symmetric and transitive |
| Schema.FullTypeName | generator.go:23-25 | the result is `.`, then the package, then `.`, then the name: exact length, leading dot, the package at positions 1 to `len(pkg)`, the name as a suffix after a dot |
| Schema.RemovePkgOfFullTypeName | generator.go:23-25 | for a dot-free name, `removePkg(fullTypeName(fd, n)) == n` |
| Schema.IsRepeated | generator.go:200-202 | true exactly when the label is present and is LABEL_REPEATED |
| Strings.Split | generator.go:205 | always at least one piece, so `p[len(p)-1]` is in range |
| Strings.SplitPieces | generator.go:205 | no piece contains the separator; one piece (the input itself) when the separator is absent, at least two when present |
| Strings.LastPiece | generator.go:205-206 | `p[len(p)-1]` of the split; what it is, is stated by `LastPieceIsTail` and `LastPieceAfterSeparator` |
| Strings.Concat | generator.go:224 | `strings.Join(parts, "")`: the pieces one after another; used by `CamelCase` and `JoinCapitalizedOf` |
| Strings.LastPieceIsTail | generator.go:205-206 | the last piece is a separator-free suffix of the input, and is either the whole input or preceded by the separator |
| Strings.SplitAround | generator.go:214 | splitting around a separator splits the two sides independently |
| Strings.LastPieceAfterSeparator | generator.go:205-206 | whatever precedes the last separator, the last piece is what follows it |
| Naming.RemovePkg | generator.go:204-207 | the result has no `.`, is a suffix of the input, and is preceded by `.` when shorter than the input |
| Naming.UpperAscii | generator.go:210 | lower-case ASCII letters map to their capitals (code minus 32); every other character is unchanged |
| Naming.UpperCaseFirst | generator.go:209-211 | same length; the first character is upper-cased and the rest are unchanged |
| Naming.CamelName | generator.go:213-225 | the character-wise reference for `camelCase`: each `_` dropped and the next character upper-cased, `None` for the panic; related to the Go loop by `CamelCase` and `CamelNameBySplit` |
| Naming.JoinCapitalized | generator.go:216-224 | the loop and `strings.Join` over the split pieces: the first kept, each later one upper-cased at its first character, `None` where `p[0:1]` panics |
| Naming.CamelNameBySplit | generator.go:213-225 | the character-wise rule equals splitting at `_`, keeping the first piece, capitalizing each later piece and joining; both fail on the same inputs |
| Naming.JoinCapitalizedOf | generator.go:216-224 | pieces rewritten as the loop rewrites them join to the result |
| Naming.JoinCapitalizedPanics | generator.go:220 | an empty later piece makes the join fail (Go's `p[0:1]` panic) |
| Naming.CamelCase | generator.go:213-225 | the in-place loop over the split pieces returns the character-wise rule's result, including the panic as `None` |
| Naming.CamelNamePanicsIff | generator.go:213-225 | `camelCase` panics exactly when some `_` ends the name or is directly followed by another `_` |
| Naming.CamelNameDropsUnderscores | generator.go:213-225 | the result has no `_`, and is as long as the name without underscores; each character is the original or its capital |
| Naming.CamelNameWithoutUnderscore | generator.go:213-225 | a name without `_` is returned unchanged |
| Naming.CamelNameExample | generator.go:213-225 | `foo_bar_baz` becomes `fooBarBaz` |
| Naming.CamelNameTailExample | generator.go:213-225 | `_bar_baz` becomes `BarBaz` |
| Naming.UnderscoreThenWord | generator.go:220 | `_` followed by a lower-case letter and an underscore-free word gives the word with a capital |
| Naming.CamelNameConcat | generator.go:213-225 | converting a name that continues with `_` is converting the two parts and concatenating |
| Naming.CamelNameConcatPending | generator.go:213-225 | the same, when a capital is pending at the start |
| ImportPaths.TrimTrailingSlashes | generator.go:232 | the result is a prefix of the input and ends in no `/`; an input without a trailing `/` is unchanged |
| ImportPaths.Base | generator.go:232 | non-empty, and no longer than a non-empty path; for a path without a trailing `/` it is a `/`-free suffix, preceded by `/` when shorter |
| ImportPaths.Ext | generator.go:233 | a suffix of the input that is empty or starts with its only `.` and holds no `/` |
| ImportPaths.TsImportName | generator.go:231-234 | a prefix of the base name |
| ImportPaths.TsImportPath | generator.go:236-240 | a prefix of the input name: only the extension is removed |
| ImportPaths.TsFileName | generator.go:247-249 | ends in `.ts`, and what precedes it is a prefix of the input name |
| ImportPaths.ImportNameWithinPath | generator.go:231-240 | for a name without a trailing `/`: import path plus extension is the name; the import name is `/`-free and is the last segment of the import path |
| ImportPaths.ExtAfterDot | generator.go:233 | the extension of `a.e`, for an `e` without `.` or `/`, is `.e` |
| ImportPaths.ImportNamingExample | generator.go:231-249 | `a/b/common.proto` gives import name `common`, import path `a/b/common` and file name `a/b/common.ts` |
| Schema.ImportName | generator.go:227-229 | `tsImportName` of the defining file's name; what that is, is stated by `ImportPaths.TsImportName` and `ImportNameWithinPath` |
| Schema.ImportNameSlashFree | generator.go:227-229 | a file whose name has no trailing `/` is imported under a `/`-free identifier |
| Schema.ImportPath | generator.go:242-245 | a prefix of the defining file's name; the importing file plays no part |
| FieldTypes.SingularFieldType | generator.go:251-279 | never contains `.`; scalar kinds give `number`, `string` or `boolean`; messages give `Date` or `removePkg` of the type name |
| FieldTypes.SingularFieldTypeTable | generator.go:251-279 | the full table: DOUBLE, FIXED32, FIXED64, INT32 and INT64 give `number`; STRING and every other non-message kind (ENUM included) give `string`; BOOL gives `boolean`; Timestamp gives `Date`; other messages give `removePkg` |
| FieldTypes.MessageFieldTypeIsDeclaredName | generator.go:263-275 | a field referring to message `n` of any file, other than Timestamp, is typed `n` |
| FieldTypes.FieldType | generator.go:281-290 | never `Date`, and never `Date[]` for a repeated field; `Date` becomes `string`; a repeated field gets `[]` |
| FieldTypes.FieldTypeRepeatedSuffix | generator.go:281-290 | the repeated spelling is the single spelling with exactly one `[]` appended |
| FieldTypes.UserDateMessageLooksLikeTimestamp | generator.go:263-290 | a user message named `Date` is typed `Date`, which `fieldType` then rewrites to `string` as if it were Timestamp |
| Resolution.Lookup | generator.go:114 | a reference resolves exactly when it is in the table, to the file registered for it |
| Resolution.Register | generator.go:52 | the registered name now resolves to the file; every other key resolves as before; one key is added |
| Resolution.RegisterAll | generator.go:75-77 | successive `resolver.Set` calls in order; stated by `ImportFacts.RegisterAllDefines`, `RegisterAllKeepsOwn` and `RegisterAllFrom` |
| Resolution.NoteImport | generator.go:113-122 | one resolve-and-import block (also lines 148-170): a hit on another file records its import name and path under its file name; stated by `ImportFacts.NoteImportFrom` and `NoteImportKeeps` |
| Resolution.FieldModel | generator.go:124-130 | a field's name, camel-case name, `typeName` of its singular type, and repeated flag, or the camel-case panic |
| Resolution.FieldStep | generator.go:112-131 | one field: its import, then its model appended; stated by `OutputFacts.FieldsPassItems` |
| Resolution.FieldsPass | generator.go:112-131 | the field loop; stated by `OutputFacts.FieldsPassOutcome` and `ImportFacts.FieldsPassImports` |
| Resolution.MessageStep | generator.go:69-134 | one message: its three names registered, the nested-message abort, then its fields; stated by `OutputFacts.MessageStepOutcome` |
| Resolution.MessagesPass | generator.go:69-134 | the message loop; stated by `OutputFacts.MessagesPassOutcome`, `ImportFacts.MessagesPassFrom` and `FileImports.MessagesPassComplete` |
| Resolution.MethodStep | generator.go:147-177 | one method: imports of its input then output type, then its model; stated by `OutputFacts.MethodsPassOutcome` |
| Resolution.MethodsPass | generator.go:147-177 | the method loop; stated by `OutputFacts.MethodsPassOutcome` and `ImportFacts.MethodsPassImports` |
| Resolution.ServiceStep | generator.go:136-180 | one service: its name registered, then its methods; stated by `OutputFacts.ServiceStepOutcome` |
| Resolution.ServicesPass | generator.go:136-180 | the service loop; stated by `OutputFacts.ServicesPassOutcome` and `FileImports.ServicesPassComplete` |
| Resolution.FilePass | generator.go:41-186 | one schema file: enums, messages, services, then the template step; stated by `OutputFacts.FilePassMirrors` and `FilePassFailure` |
| Resolution.GeneratePass | generator.go:40-195 | the loop over schema files, the table carried from one file to the next; stated by `OutputFacts.GeneratePassOutcome` |
| Resolution.Run | generator.go:27-198 | `generate` from an empty table with the twirp file first; stated by `OutputFacts.RunOutcome`, `RunSucceedsIff` and `ImportFacts.RunImportsPrecedingFiles` |
| Generator.Resolver.constructor | generator.go:28 | the symbol table starts empty |
| Generator.Resolver.Set | generator.go:52 | the table is the old table with the file registered under the name's full type name |
| Generator.Resolver.Resolve | generator.go:114 | a hit exactly when the reference is a key, giving its file |
| Generator.ResolveImport | generator.go:113-122 | the import map after one resolve-and-import block is `Resolution.NoteImport` |
| Generator.BuildEnum | generator.go:54-64 | the enum model lists the values in declaration order |
| Generator.AddEnums | generator.go:50-67 | every enum is registered in order, and the enum list mirrors the file's enums |
| Generator.AddFields | generator.go:112-131 | the field loop computes `Resolution.FieldsPass`: same imports and field models, or the same panic |
| Generator.AddNestedEnums | generator.go:95-110 | nested enums are named `<message>_<enum>`, in order |
| Generator.RegisterMessage | generator.go:71-77 | the message name, its interface and its JSON interface are registered, in this order |
| Generator.AddMessage | generator.go:69-134 | one message iteration computes `Resolution.MessageStep`: a nested message aborts after registration; otherwise the message model is appended |
| Generator.AddMethods | generator.go:147-177 | the method loop computes `Resolution.MethodsPass`: imports of input then output types, method models in order |
| Generator.AddService | generator.go:137-179 | one service iteration registers the service name and appends its model |
| Generator.GenerateFile | generator.go:43-186 | one file iteration computes `Resolution.FilePass`, including its failures |
| Generator.Generate | generator.go:27-198 | the whole imperative pass returns exactly `Resolution.Run` |
| ImportFacts.RegisterAllFrom | generator.go:52-77 | registering for a file of `seen` keeps every table entry within `seen` |
| ImportFacts.NoteImportFrom | generator.go:113-122 | a resolve-and-import step adds only the entry of another file of `seen`, keyed by its name |
| ImportFacts.FieldsPassFrom | generator.go:112-131 | the field walk keeps the table and adds only imports of other files of `seen` |
| ImportFacts.MessagesPassFrom | generator.go:69-134 | the message walk keeps the table within `seen` and imports only other files of `seen` |
| ImportFacts.MethodsPassFrom | generator.go:147-177 | the method walk keeps the table and imports only other files of `seen` |
| ImportFacts.ServicesPassFrom | generator.go:136-180 | the service walk keeps the table within `seen` and imports only other files of `seen` |
| ImportFacts.FilePassFrom | generator.go:41-186 | a file pass imports only other files of `seen` |
| ImportFacts.GeneratePassFrom | generator.go:40-195 | the i-th file's imports name files among those processed up to it |
| ImportFacts.RunImportsPrecedingFiles | generator.go:27-198 | every import key of the i-th file is the name of a file j < i that is not `samePackage` with it, with that file's import name and path |
| ImportFacts.FirstFileImportsNothing | generator.go:27-198 | the first schema file has an empty import map |
| ImportFacts.NoteImportKeeps | generator.go:117-120 | an entry already present survives a step: an overwrite under the same name writes the same value |
| ImportFacts.NoteImportsKeep | generator.go:113-122 | resolving a list of references keeps every import entry already present |
| ImportFacts.NoteImportsComplete | generator.go:113-122 | every reference that resolves to another file imports that file |
| ImportFacts.NoteImportsOnly | generator.go:113-122 | every entry afterwards was there before with the same value, or is keyed by the name of a file some reference resolves to |
| ImportFacts.ForeignRefImported | generator.go:113-122 | one reference that resolves to another file imports that file |
| ImportFacts.NoteImportsExact | generator.go:113-122 | after resolving a list of references, every foreign target is imported, every earlier entry survives, and every other key is an earlier entry or a foreign target |
| ImportFacts.NoteImportsAppend | generator.go:147-170 | resolving two lists in turn is resolving their concatenation |
| ImportFacts.FieldsPassImports | generator.go:112-131 | the field walk's imports are those of its fields' type names, in order, against one table |
| ImportFacts.MethodsPassImports | generator.go:147-177 | the method walk's imports are those of each method's input then output type, against one table |
| ImportFacts.OwnReferencesImportNothing | generator.go:114-116 | references that miss or resolve to the file itself leave the imports unchanged |
| ImportFacts.TimestampFieldImportsItsFile | generator.go:113-122 | a Timestamp field is typed `Date`, yet still imports the other file that registered Timestamp |
| ImportFacts.RegisterAllKeepsOwn | generator.go:75-77 | registering more names for a file keeps the entries that already resolve to it |
| ImportFacts.RegisterAllDefines | generator.go:75-77 | every name registered for a file resolves to that file afterwards |
| FileImports.SelfReferenceImportsNothing | generator.go:75-131 | a message is registered before its fields resolve, so a field whose type is the message itself adds no import: every entry the step adds or rewrites comes from a field of another type that resolves to another file |
| FileImports.MethodsPassKeeps | generator.go:147-177 | the method walk keeps every import already present |
| FileImports.MethodsPassComplete | generator.go:148-170 | every method whose input or output type resolves to another file imports that file |
| FileImports.MethodsPassOnly | generator.go:148-170 | every entry after the method walk was there before, or is keyed by a file some method's input or output type resolves to |
| FileImports.MethodRefsAt | generator.go:148-170 | method k's input type is the walk's reference 2k, its output type reference 2k+1 |
| FileImports.MethodRefForeign | generator.go:148-170 | a reference of the method walk that resolves to another file is some method's input or output type |
| FileImports.MessageStepImports | generator.go:69-131 | one message registers its names, then its imports are those of its fields' type names against that table |
| FileImports.MessagesPassKeeps | generator.go:69-134 | a successful message walk keeps every import already present |
| FileImports.MessagesPassComplete | generator.go:69-134 | after a successful message walk, field k of message j is imported whenever it resolves to another file against the table left by messages 0..j-1 plus message j's own names |
| FileImports.MessagesPassOnly | generator.go:69-134 | every entry after a successful message walk was there before, or is keyed by a file some field resolves to, against the table its message met |
| FileImports.ServicesPassKeeps | generator.go:136-180 | the service walk keeps every import already present |
| FileImports.ServicesPassComplete | generator.go:136-180 | method k of service j is imported whenever its input or output type resolves to another file against the table left by services 0..j-1 plus service j's name |
| FileImports.ServicesPassOnly | generator.go:136-180 | every entry after the service walk was there before, or is keyed by a file some method type resolves to, against the table its service met |
| FileImports.MessagesImportsFresh | generator.go:41-134 | a file's message walk, from an empty import map, imports exactly the other files its fields resolve to |
| FileImports.ServicesImportsFrom | generator.go:136-180 | a file's service walk keeps the message walk's imports and adds exactly the other files its methods resolve to |
| FileImports.FilePassImports | generator.go:41-186 | a file's import map holds the entry of every other file that one of its field or method types resolves to, against the table as it stood at that declaration, and every key is the name of such a file |
| Tables.MessagesPassTable | generator.go:69-134 | a successful message walk leaves the table that registering each message's three names in order gives |
| Tables.ServicesPassTable | generator.go:136-180 | the service walk leaves the table that registering each service's name in order gives |
| OutputFacts.FieldsPassFails | generator.go:112-131 | the field walk fails exactly when some field name has no camel-case form |
| OutputFacts.FieldsPassItems | generator.go:112-131 | on success the earlier items are kept and one model per field follows, in order: its name, its camel-case name, `typeName` of its singular type against the walk's table, and whether it is repeated |
| OutputFacts.FieldsPassOutcome | generator.go:112-131 | the field walk fails exactly when some field name has no camel-case form; otherwise it appends, in order, each field's model against the walk's table |
| OutputFacts.MessageStepFails | generator.go:69-134 | a message fails exactly when it is unsupported |
| OutputFacts.MessageStepItems | generator.go:69-134 | on success exactly one model is appended: the message's names, no nested types, its renamed nested enums, and its fields in order, each typed against the table with the message's three names registered; the table keeps those names |
| OutputFacts.MessageStepOutcome | generator.go:69-134 | a message fails exactly when it is unsupported; otherwise its model mirrors it, fields typed against the table with the message registered |
| OutputFacts.MessagesPassFails | generator.go:69-134 | the message walk fails exactly when some message is unsupported |
| OutputFacts.MessagesPassItems | generator.go:69-134 | on success the earlier items are kept and one mirroring model per message follows, in order, each against the table left by the messages before it; the table ends with every message's names |
| OutputFacts.MessagesPassOutcome | generator.go:69-134 | the message walk fails exactly when some message is unsupported; otherwise model j mirrors message j against the table left by messages 0..j-1 |
| OutputFacts.MethodsPassItems | generator.go:147-177 | the table is unchanged, the earlier items are kept, and one model per method follows, in order: its name and `typeName` of `removePkg` of its input and output types |
| OutputFacts.MethodsPassOutcome | generator.go:147-177 | model j is exactly `(name, typeName(table, file, removePkg(input)), typeName(table, file, removePkg(output)))` of method j, lines 172-176; the table is unchanged |
| OutputFacts.ServiceStepOutcome | generator.go:137-179 | one service appends a model with the file's package, the service's name and interface, and its methods' models in order, spelled against the table with the service registered |
| OutputFacts.ServicesPassItems | generator.go:136-180 | the earlier items are kept and one mirroring model per service follows, in order, each against the table left by the services before it |
| OutputFacts.ServicesPassOutcome | generator.go:136-180 | model j mirrors service j against the table left by services 0..j-1; the table ends with every service's name |
| OutputFacts.FilePassMirrors | generator.go:43-186 | a file's model lists its enums, messages and services in declaration order, each message's fields and each method's types spelled against the table as it stood at that declaration; its imports are exactly the other files those types resolve to; its text is the template's rendering of that model |
| OutputFacts.FilePassTable | generator.go:50-180 | a file pass leaves the table holding the file's enums, then its messages' names, then its services, in order |
| OutputFacts.FilePassFailure | generator.go:89-93 | an unsupported message fails the file by a panic or a nested-message abort; any other failure is the template's |
| OutputFacts.UnsupportedFatal | generator.go:89-131 | a failed message walk fails by a nested-message abort or a camel-case panic |
| OutputFacts.FieldsPanicOnly | generator.go:126 | a failed field walk fails by a camel-case panic |
| OutputFacts.FilePassProduced | generator.go:182-193 | a successful file pass yields a file named `tsFileName` of the schema file, holding the rendering of a model that mirrors it, and leaves the file's declarations registered |
| OutputFacts.GeneratePassShape | generator.go:40-195 | on success the earlier files and models are kept and one of each is appended per schema file |
| OutputFacts.GeneratePassOutcome | generator.go:40-195 | on success one file and one model are appended per schema file, in order, each produced from its schema file against the table left by the files before it |
| OutputFacts.GeneratePassRejects | generator.go:89-93 | an unsupported message in any file ends the walk |
| OutputFacts.RunOutcome | generator.go:30-37 | on success there are `1 + len(protoFiles)` files and one model per schema file; the first file is the twirp file; the rest are produced from the schema files, pairwise and in order, each against the table of the files before it |
| OutputFacts.RunOutcomeAt | generator.go:30-37 | on success file i+1 is named `tsFileName(protoFiles[i].name)` and holds the rendering of model i, which mirrors schema file i, imports included, against the table holding the declarations of files 0..i-1 |
| OutputFacts.RunRejectsUnsupported | generator.go:89-93 | a nested message, or a field name without a camel-case form, in any file ends the whole run |
| OutputFacts.GeneratePassSucceeds | generator.go:40-195 | with a template that never fails and no unsupported message, the walk succeeds |
| OutputFacts.RunSucceedsIff | generator.go:27-198 | with a template that never fails, a run succeeds exactly when no file has an unsupported message |
| Scenarios.RegisterAllOthers | generator.go:75-77 | registering other names leaves a key's entry unchanged |
| Scenarios.ImportOfA | generator.go:231-240 | `a.proto` has import name and path `a` |
| Scenarios.FirstFile | generator.go:69-77 | after a.proto, `.pkg.Foo` resolves to a.proto |
| Scenarios.BarField | generator.go:113-122 | b.proto's field of type `.pkg.Foo` imports a.proto as `a` from `a` |
| Scenarios.SecondFile | generator.go:41-186 | b.proto, generated after a.proto, imports exactly a.proto |
| Scenarios.TwoFileRun | generator.go:40-195 | two successful file passes give two models, the second being b's |
| Scenarios.DefinitionFirst | generator.go:27-198 | in the order a, b, b's file imports `{"a.proto": (a, a)}` |
| Scenarios.ReferenceFirst | generator.go:27-198 | in the order b, a, b's file imports nothing: the reference is forward and misses |

## Left out

- The plugin protocol types (`CodeGeneratorRequest`, `CodeGeneratorResponse`) are plain records here. The twirp support file's name and content are one fixed `OutFile` parameter.
- `dependencyResolver` is defined outside generator.go. It is modelled as a map from key to file (`Generator.Resolver`). The key of `Set(file, name)` is taken to be `fullTypeName(file, name)`. `Resolve` is taken to be an exact lookup that fails on a miss. `TypeName` is a parameter.
- `typeToInterface`, `typeToJSONInterface` and `protoFile.Compile` are defined elsewhere. They are parameters: two string functions, and a template step that either renders or fails.
- `log.Fatal` and the panics of `camelCase` end the process. Here they are an error outcome of the run. `log.Printf` is left out.
- Field names are taken to be ASCII, as protobuf identifiers are: line 220 slices `p[0:1]` by byte, which the model reads as the first character. `strings.ToUpper` is modelled on ASCII letters only.
- Schema file names are non-empty. For the empty name, `tsImportPath` slices out of range in Go.
- Line 89 (`for _, m := message.GetMessageType()`) does not compile as written. The model follows its evident intent: any nested message ends the run. The check happens after the message's names are registered.
- The Timestamp type gets no special treatment when imports are resolved (lines 113-122). A field of that type imports whichever other file registered `.google.protobuf.Timestamp`. One might expect the well-known Timestamp type never to be imported; the code has no such case, and the model follows the code (`ImportFacts.TimestampFieldImportsItsFile`).
- FieldTypes.FieldType: does not claim that the result never starts with `Date`. A type named `DateTime` passes through unchanged. The contract states that the result is never `Date`, and never `Date[]` for a repeated field.
- `upperCaseFirst` panics on the empty string. `Naming.UpperCaseFirst` requires a non-empty string. `upperCaseFirst` is not called in generator.go: `camelCase` upper-cases `p[0:1]` inline at line 220. It is the model's `Naming.JoinCapitalized` that calls `Naming.UpperCaseFirst`, and only on a non-empty piece, because an empty one panics first.
