/** The Contact rows held by the table child component, the per-cell
    addressing keys the `contacts` setter derives from each row, and the
    record-id extraction the row actions use. */
module Contacts {

  /** One Contact row: its record Id and its other properties by name. */
  datatype Row = Row(Id: string, fields: map<string, string>)

  /** The fields of a row that the table edits inline. */
  const EditableFields: set<string> := {"FirstName", "LastName", "Birthdate", "LeadSource", "Email"}

  /** For each editable field, the row property the setter stores its cell key in. */
  const KeyProperty: map<string, string> :=
    map["FirstName" := "inlinefnameId",
        "LastName" := "inlinelnameId",
        "Birthdate" := "inlinebirthdateId",
        "LeadSource" := "inlineleadsourceId",
        "Email" := "inlineemailId"]

  /** The row properties the setter adds. */
  const KeyProperties: set<string> :=
    {"inlinefnameId", "inlinelnameId", "inlinebirthdateId", "inlineleadsourceId", "inlineemailId"}

  /** The key of the cell (and of its editor section) showing `field` of record `id`. */
  function CellKey(field: string, id: string): (r: string)
    ensures |r| == |field| + 1 + |id|
    ensures r[..|field|] == field && r[|field|] == '-' && r[|field| + 1..] == id
  {
    field + "-" + id
  }

  /** The setter's treatment of one copied row: the five key properties are
      added (or overwritten), everything else is kept. */
  function PrepareRow(row: Row): (r: Row)
    ensures r.Id == row.Id
    ensures r.fields.Keys == row.fields.Keys + KeyProperties
    ensures forall k :: k in row.fields && k !in KeyProperties ==> r.fields[k] == row.fields[k]
    ensures forall f :: f in EditableFields ==> KeyProperty[f] in r.fields && r.fields[KeyProperty[f]] == CellKey(f, row.Id)
  {
    Row(row.Id,
        row.fields["inlinefnameId" := CellKey("FirstName", row.Id)]
                  ["inlinelnameId" := CellKey("LastName", row.Id)]
                  ["inlinebirthdateId" := CellKey("Birthdate", row.Id)]
                  ["inlineleadsourceId" := CellKey("LeadSource", row.Id)]
                  ["inlineemailId" := CellKey("Email", row.Id)])
  }

  /** `s.split("-")[0]`: the part of `s` before its first `-`, or all of `s`. */
  function IdPrefix(s: string): (r: string)
    ensures r <= s
    ensures '-' !in r
    ensures |r| < |s| ==> s[|r|] == '-'
  {
    if s == [] || s[0] == '-' then [] else [s[0]] + IdPrefix(s[1..])
  }

  /** Splitting at the first `-` recovers the part before a joining `-`. */
  lemma PrefixOfJoin(a: string, b: string)
    requires '-' !in a
    ensures IdPrefix(a + "-" + b) == a
  {
    var s := a + "-" + b;
    var r := IdPrefix(s);
    assert s[|a|] == '-';
    assert s[..|a|] == a;
  }

  /** No editable field name contains `-`. */
  lemma EditableFieldsHaveNoDash(f: string)
    requires f in EditableFields
    ensures '-' !in f
  {
  }

  /** Cell keys are unique: a key names exactly one (field, record) pair. */
  lemma CellKeyInjective(f1: string, id1: string, f2: string, id2: string)
    requires f1 in EditableFields && f2 in EditableFields
    requires CellKey(f1, id1) == CellKey(f2, id2)
    ensures f1 == f2 && id1 == id2
  {
    EditableFieldsHaveNoDash(f1);
    EditableFieldsHaveNoDash(f2);
    PrefixOfJoin(f1, id1);
    PrefixOfJoin(f2, id2);
    var k := CellKey(f1, id1);
    assert id1 == k[|f1| + 1..];
    assert id2 == k[|f2| + 1..];
  }

  /** Every key a prepared row carries addresses that row: its prefix is the
      field and the rest after the `-` is the row's Id. */
  lemma PreparedKeyAddressesRow(row: Row, f: string)
    requires f in EditableFields
    ensures IdPrefix(PrepareRow(row).fields[KeyProperty[f]]) == f
    ensures PrepareRow(row).fields[KeyProperty[f]][|f| + 1..] == row.Id
  {
    EditableFieldsHaveNoDash(f);
    PrefixOfJoin(f, row.Id);
  }

  /** `rows.filter((con) => con.Id === id)`: its first element is the first
      row with that Id. */
  function FilterById(rows: seq<Row>, id: string): (r: seq<Row>)
    ensures forall x :: x in r <==> x in rows && x.Id == id
    ensures |r| <= |rows|
    ensures forall i :: 0 <= i < |rows| && rows[i].Id == id && (forall j :: 0 <= j < i ==> rows[j].Id != id) ==>
      r != [] && r[0] == rows[i]
  {
    if rows == [] then []
    else
      var r := (if rows[0].Id == id then [rows[0]] else []) + FilterById(rows[1..], id);
      assert forall i :: 0 <= i < |rows| && rows[i].Id == id && (forall j :: 0 <= j < i ==> rows[j].Id != id) ==>
        r != [] && r[0] == rows[i] by {
        forall i | 0 <= i < |rows| && rows[i].Id == id && (forall j :: 0 <= j < i ==> rows[j].Id != id)
          ensures r != [] && r[0] == rows[i]
        {
          if rows[0].Id != id {
            assert rows[1..][i - 1] == rows[i];
            forall j | 0 <= j < i - 1 ensures rows[1..][j].Id != id {
              assert rows[1..][j] == rows[j + 1];
            }
          }
        }
      }
      r
  }

  /** The filter distributes over concatenation: matching rows keep their
      order and multiplicity. */
  lemma {:induction false} FilterByIdAppend(a: seq<Row>, b: seq<Row>, id: string)
    ensures FilterById(a + b, id) == FilterById(a, id) + FilterById(b, id)
    decreases |a|
  {
    if a == [] {
      assert a + b == b;
    } else {
      assert (a + b)[1..] == a[1..] + b;
      FilterByIdAppend(a[1..], b, id);
    }
  }
}
