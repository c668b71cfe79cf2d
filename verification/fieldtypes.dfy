/**
 * The TypeScript spelling of a field's type: `singularFieldType` (one value)
 * and `fieldType` (with the repeated suffix and the Date-to-string rule).
 */
module FieldTypes {
  import opened Naming
  import opened Schema

  const TIMESTAMP_TYPE := ".google.protobuf.Timestamp"

  /**
   * `singularFieldType`: numbers, strings and booleans by kind, the Date type
   * for the well-known Timestamp message, the package-free name for other
   * messages, and "string" for every other kind (enums included).
   */
  function SingularFieldType(f: FieldDesc): (r: string)
    ensures '.' !in r
    ensures f.kind != TypeMessage ==> r in {"number", "string", "boolean"}
    ensures f.kind == TypeMessage ==> r == "Date" || r == RemovePkg(f.typeName)
  {
    match f.kind
    case TypeDouble | TypeFixed32 | TypeFixed64 | TypeInt32 | TypeInt64 => "number"
    case TypeString => "string"
    case TypeBool => "boolean"
    case TypeMessage =>
      if f.typeName == TIMESTAMP_TYPE then "Date" else RemovePkg(f.typeName)
    case _ => "string"
  }

  /** The full mapping table, kind by kind. */
  lemma SingularFieldTypeTable(f: FieldDesc)
    ensures f.kind in {TypeDouble, TypeFixed32, TypeFixed64, TypeInt32, TypeInt64} ==>
      SingularFieldType(f) == "number"
    ensures f.kind == TypeString ==> SingularFieldType(f) == "string"
    ensures f.kind == TypeBool ==> SingularFieldType(f) == "boolean"
    ensures f.kind == TypeMessage && f.typeName == TIMESTAMP_TYPE ==> SingularFieldType(f) == "Date"
    ensures f.kind == TypeMessage && f.typeName != TIMESTAMP_TYPE ==>
      SingularFieldType(f) == RemovePkg(f.typeName)
    ensures f.kind in {TypeFloat, TypeUint64, TypeUint32, TypeSfixed32, TypeSfixed64,
                       TypeSint32, TypeSint64, TypeBytes, TypeGroup, TypeEnum} ==>
      SingularFieldType(f) == "string"
  {
  }

  /** A message type declared in package `pkg` maps to its declared name. */
  lemma MessageFieldTypeIsDeclaredName(fd: FileDesc, name: string, f: FieldDesc)
    requires '.' !in name && f.kind == TypeMessage && f.typeName == FullTypeName(fd, name)
    requires FullTypeName(fd, name) != TIMESTAMP_TYPE
    ensures SingularFieldType(f) == name
  {
    RemovePkgOfFullTypeName(fd, name);
  }

  /**
   * `fieldType`: "Date" is first replaced by "string", then a repeated field
   * gets "[]" appended.
   */
  function FieldType(f: FieldValues): (r: string)
    ensures r != "Date"
    ensures f.isRepeated ==> r != "Date[]"
    ensures f.typ == "Date" ==> r == (if f.isRepeated then "string[]" else "string")
    ensures f.typ != "Date" ==> r == (if f.isRepeated then f.typ + "[]" else f.typ)
  {
    var t := if f.typ == "Date" then "string" else f.typ;
    if f.isRepeated then
      var r := t + "[]";
      assert r[|r| - 1] == ']' && "Date"[3] == 'e';
      assert r[..|t|] == t && "Date[]"[..4] == "Date";
      r
    else t
  }

  /**
   * The repeated spelling is the single spelling with exactly one "[]"
   * appended; the Date mapping never survives, single or repeated.
   */
  lemma FieldTypeRepeatedSuffix(f: FieldValues)
    requires f.isRepeated
    ensures var single := FieldType(f.(isRepeated := false));
      && FieldType(f) == single + "[]"
      && single != "Date"
  {
  }

  /**
   * A user message named `Date` in any package is spelled "Date" by
   * `singularFieldType`, which `fieldType` cannot tell apart from the
   * Timestamp mapping. The field model here holds that spelling as its
   * type; the pass stores `typeName` of it (and the camel-case name), so
   * this is the model the pass produces when `typeName` leaves "Date"
   * unchanged.
   */
  lemma UserDateMessageLooksLikeTimestamp(fd: FileDesc, f: FieldDesc)
    requires f.kind == TypeMessage && f.typeName == FullTypeName(fd, "Date")
    ensures SingularFieldType(f) == "Date"
    ensures FieldType(FieldValues(f.name, f.name, SingularFieldType(f), false)) == "string"
  {
    assert FullTypeName(fd, "Date") != TIMESTAMP_TYPE by {
      if fd.pkg != "google.protobuf" {
        assert |FullTypeName(fd, "Date")| != |TIMESTAMP_TYPE| || FullTypeName(fd, "Date") != TIMESTAMP_TYPE;
      }
      var n := FullTypeName(fd, "Date");
      assert n[|n| - 4..] == "Date" && TIMESTAMP_TYPE[|TIMESTAMP_TYPE| - 4..] == "tamp";
    }
    MessageFieldTypeIsDeclaredName(fd, "Date", f);
  }
}
