/**
 * The symbol table a file leaves behind, as a function of its declarations
 * alone: enums, then messages (three names each), then services (one name
 * each), file after file. Registration never depends on what a reference
 * resolved to, so the table at any point of a run is fixed by the names
 * declared before it.
 */
module Tables {
  import opened Schema
  import opened Resolution

  /** The table after messages `ms`: each registers its three names. */
  function MessagesTable(t: Table, file: FileDesc, ms: seq<MessageDesc>, h: Collaborators): (r: Table)
    decreases ms
  {
    if ms == [] then t else MessagesTable(RegisterAll(t, file, MessageNames(ms[0], h)), file, ms[1..], h)
  }

  /** The table after services `ss`: each registers its name. */
  function ServicesTable(t: Table, file: FileDesc, ss: seq<ServiceDesc>): (r: Table)
    decreases ss
  {
    if ss == [] then t else ServicesTable(Register(t, file, ss[0].name), file, ss[1..])
  }

  /** The table after schema file `file`: its enums, then its messages, then its services. */
  function FileTable(t: Table, file: FileDesc, h: Collaborators): (r: Table)
  {
    ServicesTable(MessagesTable(RegisterAll(t, file, EnumNames(file.enums)), file, file.messages, h), file, file.services)
  }

  /** The table after schema files `files`, in order. */
  function FilesTable(t: Table, files: seq<FileDesc>, h: Collaborators): (r: Table)
    decreases files
  {
    if files == [] then t else FilesTable(FileTable(t, files[0], h), files[1..], h)
  }

  /** A message walk that succeeds leaves the table `MessagesTable` gives, whatever the fields resolved to. */
  lemma {:induction false} MessagesPassTable(file: FileDesc, ms: seq<MessageDesc>, acc: Scan<MessageValues>, h: Collaborators)
    ensures var r := MessagesPass(file, ms, acc, h);
      r.Ok? ==> r.value.table == MessagesTable(acc.table, file, ms, h)
  {
    if ms != [] {
      match MessageStep(file, ms[0], acc, h)
      case Err(_) =>
      case Ok(next) => MessagesPassTable(file, ms[1..], next, h);
    }
  }

  /** A service walk leaves the table `ServicesTable` gives, whatever the methods resolved to. */
  lemma {:induction false} ServicesPassTable(file: FileDesc, ss: seq<ServiceDesc>, acc: Scan<ServiceValues>, h: Collaborators)
    ensures ServicesPass(file, ss, acc, h).table == ServicesTable(acc.table, file, ss)
  {
    if ss != [] {
      ServicesPassTable(file, ss[1..], ServiceStep(file, ss[0], acc, h), h);
    }
  }
}
