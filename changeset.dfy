/** The pending change list `changedRecords`: one partial update per record
    Id, merged into on every blur that follows an edit, handed whole to the
    commit call. */
module ChangeSet {
  import opened Wrappers
  import Contacts

  /** A partial update `{Id, <field>: <value>, ...}`: the record's Id and only
      the fields edited so far. */
  datatype Entry = Entry(Id: string, fields: map<string, string>)

  /** One concluded inline edit: record, field and the value typed. */
  datatype FieldEdit = FieldEdit(id: string, field: string, value: string)

  /** The change list keeps at most one entry per record Id. */
  ghost predicate DistinctIds(recs: seq<Entry>)
  {
    forall i, j :: 0 <= i < j < |recs| ==> recs[i].Id != recs[j].Id
  }

  /** The record Ids the change list has entries for. */
  ghost function IdsOf(recs: seq<Entry>): set<string>
  {
    set i | 0 <= i < |recs| :: recs[i].Id
  }

  /** The cell keys of every field the change list holds a value for. */
  ghost function TouchedKeys(recs: seq<Entry>): set<string>
  {
    set e, f | e in recs && f in e.fields :: Contacts.CellKey(f, e.Id)
  }

  /** `recs.filter((rec) => rec.Id === id)[0]`. */
  function FirstWithId(recs: seq<Entry>, id: string): (r: Option<Entry>)
    ensures r.None? <==> id !in IdsOf(recs)
    ensures r.Some? ==> r.value in recs && r.value.Id == id
  {
    if recs == [] then None
    else if recs[0].Id == id then Some(recs[0])
    else
      var r := FirstWithId(recs[1..], id);
      assert IdsOf(recs) == {recs[0].Id} + IdsOf(recs[1..]) by {
        forall x | x in IdsOf(recs) ensures x in {recs[0].Id} + IdsOf(recs[1..]) {
          var i :| 0 <= i < |recs| && recs[i].Id == x;
          if i > 0 { assert recs[1..][i - 1].Id == x; }
        }
      }
      r
  }

  /** The fields the change list holds for record `id` (none if it has no entry). */
  function FieldsOf(recs: seq<Entry>, id: string): map<string, string>
  {
    match FirstWithId(recs, id)
    case Some(e) => e.fields
    case None => map[]
  }

  /** `recs.filter((rec) => rec.Id !== id)`. */
  function WithoutId(recs: seq<Entry>, id: string): (r: seq<Entry>)
    ensures forall e :: e in r <==> e in recs && e.Id != id
    ensures id !in IdsOf(r)
    ensures |r| <= |recs|
  {
    if recs == [] then []
    else (if recs[0].Id != id then [recs[0]] else []) + WithoutId(recs[1..], id)
  }

  /** The blur-time merge of `handleInlineOffFocus`: an existing entry for `id`
      is taken out, updated and pushed back at the end; otherwise a new entry
      `{Id: id, field: value}` is appended.
      The entry for `id` becomes the last element, mapping `field` to `value`
      on top of that entry's earlier fields; the entries for all other records
      come before it with their contents and relative order unchanged. */
  function Merge(recs: seq<Entry>, id: string, field: string, value: string): (r: seq<Entry>)
    ensures |r| > 0 && r[|r| - 1] == Entry(id, FieldsOf(recs, id)[field := value])
    ensures r[..|r| - 1] == WithoutId(recs, id)
  {
    match FirstWithId(recs, id)
    case Some(e) =>
      var r := WithoutId(recs, id) + [Entry(id, e.fields[field := value])];
      assert r[..|r| - 1] == WithoutId(recs, id);
      r
    case None =>
      WithoutIdAbsent(recs, id);
      var r := recs + [Entry(id, map[field := value])];
      assert r[..|r| - 1] == recs;
      r
  }

  /** The change list after a sequence of concluded edits, in order. */
  function MergeAll(recs: seq<Entry>, edits: seq<FieldEdit>): seq<Entry>
    decreases |edits|
  {
    if edits == [] then recs
    else MergeAll(Merge(recs, edits[0].id, edits[0].field, edits[0].value), edits[1..])
  }

  /** The record Ids a sequence of edits touches. */
  ghost function EditedIds(edits: seq<FieldEdit>): set<string>
  {
    set i | 0 <= i < |edits| :: edits[i].id
  }

  /** The fields record `id` ends up with when `edits` are applied to `start`:
      the reference meaning of a change-list entry. */
  function EditedFields(start: map<string, string>, edits: seq<FieldEdit>, id: string): map<string, string>
    decreases |edits|
  {
    if edits == [] then start
    else EditedFields(if edits[0].id == id then start[edits[0].field := edits[0].value] else start,
                      edits[1..], id)
  }

  // ----- lemmas about the filter -----

  /** Dropping the entries for `id` distributes over concatenation: entries
      kept from an earlier part stay before those kept from a later one. */
  lemma {:induction false} WithoutIdAppend(a: seq<Entry>, b: seq<Entry>, id: string)
    ensures WithoutId(a + b, id) == WithoutId(a, id) + WithoutId(b, id)
    decreases |a|
  {
    if a == [] {
      assert a + b == b;
    } else {
      assert (a + b)[1..] == a[1..] + b;
      WithoutIdAppend(a[1..], b, id);
    }
  }

  /** Removing an Id the list does not hold changes nothing. */
  lemma {:induction false} WithoutIdAbsent(recs: seq<Entry>, id: string)
    requires id !in IdsOf(recs)
    ensures WithoutId(recs, id) == recs
    decreases |recs|
  {
    if recs != [] {
      assert recs[0].Id in IdsOf(recs);
      assert IdsOf(recs[1..]) <= IdsOf(recs) by {
        forall x | x in IdsOf(recs[1..]) ensures x in IdsOf(recs) {
          var i :| 0 <= i < |recs[1..]| && recs[1..][i].Id == x;
          assert recs[i + 1].Id == x;
        }
      }
      WithoutIdAbsent(recs[1..], id);
    }
  }

  /** Filtering keeps Ids distinct. */
  lemma {:induction false} WithoutIdDistinct(recs: seq<Entry>, id: string)
    requires DistinctIds(recs)
    ensures DistinctIds(WithoutId(recs, id))
    decreases |recs|
  {
    if recs != [] {
      assert DistinctIds(recs[1..]) by {
        forall i, j | 0 <= i < j < |recs[1..]| ensures recs[1..][i].Id != recs[1..][j].Id {
          assert recs[1..][i] == recs[i + 1] && recs[1..][j] == recs[j + 1];
        }
      }
      WithoutIdDistinct(recs[1..], id);
      var rest := WithoutId(recs[1..], id);
      forall e | e in rest ensures e.Id != recs[0].Id {
        var k :| 0 <= k < |recs[1..]| && recs[1..][k] == e;
        assert recs[k + 1] == e;
      }
    }
  }

  /** Under distinct Ids, the entry found for `id` is the only one with that Id. */
  lemma FirstWithIdUnique(recs: seq<Entry>, id: string, e: Entry)
    requires DistinctIds(recs)
    requires e in recs && e.Id == id
    ensures FirstWithId(recs, id) == Some(e)
  {
    assert id in IdsOf(recs);
    var found := FirstWithId(recs, id).value;
    var i :| 0 <= i < |recs| && recs[i] == e;
    var j :| 0 <= j < |recs| && recs[j] == found;
    assert i == j;
  }

  /** Under distinct Ids, `FieldsOf` reads the entry held for the record. */
  lemma FieldsOfEntry(recs: seq<Entry>, e: Entry)
    requires DistinctIds(recs) && e in recs
    ensures FieldsOf(recs, e.Id) == e.fields
  {
    FirstWithIdUnique(recs, e.Id, e);
  }

  // ----- properties of one merge -----

  /** A merge keeps at most one entry per Id, adds `id` to the Ids held,
      overwrites `field` of record `id` only, and leaves every other record's
      fields as they were. */
  lemma MergeFields(recs: seq<Entry>, id: string, field: string, value: string)
    requires DistinctIds(recs)
    ensures var r := Merge(recs, id, field, value);
      DistinctIds(r) &&
      IdsOf(r) == IdsOf(recs) + {id} &&
      |r| == |recs| + (if id in IdsOf(recs) then 0 else 1) &&
      forall x :: FieldsOf(r, x) == if x == id then FieldsOf(recs, id)[field := value] else FieldsOf(recs, x)
  {
    MergeDistinct(recs, id, field, value);
    MergeIds(recs, id, field, value);
    MergeLength(recs, id, field, value);
    var r := Merge(recs, id, field, value);
    forall x ensures FieldsOf(r, x) == if x == id then FieldsOf(recs, id)[field := value] else FieldsOf(recs, x) {
      MergeFieldsOf(recs, id, field, value, x);
    }
  }

  /** A merge keeps at most one entry per Id. */
  lemma MergeDistinct(recs: seq<Entry>, id: string, field: string, value: string)
    requires DistinctIds(recs)
    ensures DistinctIds(Merge(recs, id, field, value))
  {
    var r := Merge(recs, id, field, value);
    var w := WithoutId(recs, id);
    WithoutIdDistinct(recs, id);
    assert r == w + [r[|r| - 1]];
    forall i, j | 0 <= i < j < |r| ensures r[i].Id != r[j].Id {
      assert r[i] == w[i];
      if j == |r| - 1 {
        assert r[i] in w;
      } else {
        assert r[j] == w[j];
      }
    }
  }

  /** A merge adds `id` to the record Ids held, and no other. */
  lemma MergeIds(recs: seq<Entry>, id: string, field: string, value: string)
    ensures IdsOf(Merge(recs, id, field, value)) == IdsOf(recs) + {id}
  {
    var r := Merge(recs, id, field, value);
    var w := WithoutId(recs, id);
    assert r == w + [r[|r| - 1]];
    IdsOfSnoc(w, r[|r| - 1]);
    IdsOfWithout(recs, id);
  }

  /** Appending an entry adds its Id. */
  lemma IdsOfSnoc(recs: seq<Entry>, e: Entry)
    ensures IdsOf(recs + [e]) == IdsOf(recs) + {e.Id}
  {
    var r := recs + [e];
    forall x | x in IdsOf(r) ensures x in IdsOf(recs) + {e.Id} {
      var i :| 0 <= i < |r| && r[i].Id == x;
      if i < |recs| { assert r[i] == recs[i]; }
    }
    assert r[|recs|] == e;
    forall x | x in IdsOf(recs) ensures x in IdsOf(r) {
      var i :| 0 <= i < |recs| && recs[i].Id == x;
      assert r[i] == recs[i];
    }
  }

  /** Filtering out `id` removes exactly that Id. */
  lemma IdsOfWithout(recs: seq<Entry>, id: string)
    ensures IdsOf(WithoutId(recs, id)) == IdsOf(recs) - {id}
  {
    var w := WithoutId(recs, id);
    forall x | x in IdsOf(w) ensures x in IdsOf(recs) - {id} {
      var i :| 0 <= i < |w| && w[i].Id == x;
      assert w[i] in recs;
      var k :| 0 <= k < |recs| && recs[k] == w[i];
    }
    forall x | x in IdsOf(recs) - {id} ensures x in IdsOf(w) {
      var k :| 0 <= k < |recs| && recs[k].Id == x;
      assert recs[k] in w;
      var i :| 0 <= i < |w| && w[i] == recs[k];
    }
  }

  /** After a merge, record `x` holds `value` for `field` on top of its old
      fields when it is the edited record, and exactly its old fields otherwise. */
  lemma MergeFieldsOf(recs: seq<Entry>, id: string, field: string, value: string, x: string)
    requires DistinctIds(recs)
    ensures FieldsOf(Merge(recs, id, field, value), x) ==
            if x == id then FieldsOf(recs, id)[field := value] else FieldsOf(recs, x)
  {
    var r := Merge(recs, id, field, value);
    var w := WithoutId(recs, id);
    MergeDistinct(recs, id, field, value);
    MergeIds(recs, id, field, value);
    var last := Entry(id, FieldsOf(recs, id)[field := value]);
    assert r == w + [last];
    if x == id {
      assert last in r;
      FieldsOfEntry(r, last);
    } else if x in IdsOf(recs) {
      var e := FirstWithId(recs, x).value;
      assert e in w;
      assert e in r;
      FieldsOfEntry(r, e);
      FieldsOfEntry(recs, e);
    } else {
      assert x !in IdsOf(r);
    }
  }

  /** The length of a merged list: unchanged when the record already had an
      entry, one more otherwise. */
  lemma MergeLength(recs: seq<Entry>, id: string, field: string, value: string)
    requires DistinctIds(recs)
    ensures |Merge(recs, id, field, value)| == |recs| + (if id in IdsOf(recs) then 0 else 1)
  {
    if id in IdsOf(recs) {
      var e := FirstWithId(recs, id).value;
      WithoutIdOne(recs, e);
    }
  }

  /** Under distinct Ids, filtering out a held record drops exactly one entry. */
  lemma {:induction false} WithoutIdOne(recs: seq<Entry>, e: Entry)
    requires DistinctIds(recs) && e in recs
    ensures |WithoutId(recs, e.Id)| == |recs| - 1
    decreases |recs|
  {
    assert DistinctIds(recs[1..]) by {
      forall i, j | 0 <= i < j < |recs[1..]| ensures recs[1..][i].Id != recs[1..][j].Id {
        assert recs[1..][i] == recs[i + 1] && recs[1..][j] == recs[j + 1];
      }
    }
    if recs[0] == e {
      forall i | 0 <= i < |recs[1..]| ensures recs[1..][i].Id != e.Id {
        assert recs[1..][i] == recs[i + 1];
      }
      WithoutIdAbsent(recs[1..], e.Id);
    } else {
      assert e in recs[1..];
      assert recs[0].Id != e.Id by {
        var i :| 0 <= i < |recs| && recs[i] == e;
      }
      WithoutIdOne(recs[1..], e);
    }
  }

  /** The cell keys of one entry's fields. */
  ghost function EntryKeys(e: Entry): set<string>
  {
    set f | f in e.fields :: Contacts.CellKey(f, e.Id)
  }

  /** The keys touched by a list with one more entry. */
  lemma TouchedKeysSnoc(recs: seq<Entry>, e: Entry)
    ensures TouchedKeys(recs + [e]) == TouchedKeys(recs) + EntryKeys(e)
  {
    var r := recs + [e];
    forall k | k in TouchedKeys(r) ensures k in TouchedKeys(recs) + EntryKeys(e) {
      var x, f :| x in r && f in x.fields && k == Contacts.CellKey(f, x.Id);
      if x != e { assert x in recs; }
    }
    forall k | k in TouchedKeys(recs) + EntryKeys(e) ensures k in TouchedKeys(r) {
      if k in TouchedKeys(recs) {
        var x, f :| x in recs && f in x.fields && k == Contacts.CellKey(f, x.Id);
        assert x in r;
      } else {
        var f :| f in e.fields && k == Contacts.CellKey(f, e.Id);
        assert e in r;
      }
    }
  }

  /** Under distinct Ids, the keys touched are those of the other records'
      entries plus those of the entry for `id`, if any. */
  lemma TouchedKeysSplit(recs: seq<Entry>, id: string)
    requires DistinctIds(recs)
    ensures TouchedKeys(recs) == TouchedKeys(WithoutId(recs, id)) + EntryKeys(Entry(id, FieldsOf(recs, id)))
  {
    var w := WithoutId(recs, id);
    var mine := Entry(id, FieldsOf(recs, id));
    forall k | k in TouchedKeys(recs) ensures k in TouchedKeys(w) + EntryKeys(mine) {
      var x, f :| x in recs && f in x.fields && k == Contacts.CellKey(f, x.Id);
      if x.Id == id {
        FirstWithIdUnique(recs, id, x);
        assert f in mine.fields;
      } else {
        assert x in w;
      }
    }
    forall k | k in TouchedKeys(w) + EntryKeys(mine) ensures k in TouchedKeys(recs) {
      if k in TouchedKeys(w) {
        var x, f :| x in w && f in x.fields && k == Contacts.CellKey(f, x.Id);
        assert x in recs;
      } else {
        var f :| f in mine.fields && k == Contacts.CellKey(f, id);
        var x := FirstWithId(recs, id).value;
        assert x in recs && f in x.fields;
      }
    }
  }

  /** The cells a merge marks are those already marked plus the edited one. */
  lemma MergeTouched(recs: seq<Entry>, id: string, field: string, value: string)
    requires DistinctIds(recs)
    ensures TouchedKeys(Merge(recs, id, field, value)) == TouchedKeys(recs) + {Contacts.CellKey(field, id)}
  {
    var r := Merge(recs, id, field, value);
    var w := WithoutId(recs, id);
    var last := Entry(id, FieldsOf(recs, id)[field := value]);
    assert r == w + [last];
    TouchedKeysSnoc(w, last);
    TouchedKeysSplit(recs, id);
    assert EntryKeys(last) == EntryKeys(Entry(id, FieldsOf(recs, id))) + {Contacts.CellKey(field, id)};
  }

  /** Editing the same field of the same record twice leaves one entry with
      the latest value, as if only the second edit had happened. */
  lemma MergeOverwrites(recs: seq<Entry>, id: string, field: string, v1: string, v2: string)
    ensures Merge(Merge(recs, id, field, v1), id, field, v2) == Merge(recs, id, field, v2)
  {
    var r1 := Merge(recs, id, field, v1);
    MergedEntryIsFound(recs, id, field, v1);
    UpdateTwice(FieldsOf(recs, id), field, v1, v2);
    SameInitAndLast(Merge(r1, id, field, v2), Merge(recs, id, field, v2));
  }

  /** Setting a key twice is setting it to the later value. */
  lemma UpdateTwice(m: map<string, string>, k: string, v1: string, v2: string)
    ensures m[k := v1][k := v2] == m[k := v2]
  {
  }

  /** Two non-empty lists with the same last element and the same elements
      before it are equal. */
  lemma SameInitAndLast(a: seq<Entry>, b: seq<Entry>)
    requires |a| > 0 && |b| > 0 && a[..|a| - 1] == b[..|b| - 1] && a[|a| - 1] == b[|b| - 1]
    ensures a == b
  {
    assert a == a[..|a| - 1] + [a[|a| - 1]];
    assert b == b[..|b| - 1] + [b[|b| - 1]];
  }

  /** A second merge for the same record finds the entry the first one pushed,
      and the entries before it are the other records'. */
  lemma MergedEntryIsFound(recs: seq<Entry>, id: string, field: string, value: string)
    ensures var r := Merge(recs, id, field, value);
      FieldsOf(r, id) == FieldsOf(recs, id)[field := value] &&
      WithoutId(r, id) == WithoutId(recs, id)
  {
    var r := Merge(recs, id, field, value);
    var w := WithoutId(recs, id);
    var last := Entry(id, FieldsOf(recs, id)[field := value]);
    assert r == w + [last];
    WithoutIdAppend(w, [last], id);
    WithoutIdAbsent(w, id);
    assert WithoutId([last], id) == [];
    FirstWithIdSnoc(w, last);
  }

  /** The first entry for the Id of an entry appended to a list without that Id is that entry. */
  lemma {:induction false} FirstWithIdSnoc(recs: seq<Entry>, e: Entry)
    requires e.Id !in IdsOf(recs)
    ensures FirstWithId(recs + [e], e.Id) == Some(e)
    decreases |recs|
  {
    if recs == [] {
      assert recs + [e] == [e];
    } else {
      assert (recs + [e])[1..] == recs[1..] + [e];
      assert recs[0].Id in IdsOf(recs);
      assert e.Id !in IdsOf(recs[1..]) by {
        forall i | 0 <= i < |recs[1..]| ensures recs[1..][i].Id != e.Id {
          assert recs[1..][i] == recs[i + 1];
        }
      }
      FirstWithIdSnoc(recs[1..], e);
    }
  }

  // ----- properties of a whole editing sequence -----

  /** After any sequence of concluded edits the change list holds one entry
      per record touched and no other, never more entries than edits, and the
      entry of each record holds exactly the fields edited for it, each with
      the latest value typed. */
  lemma MergeAllFields(recs: seq<Entry>, edits: seq<FieldEdit>)
    requires DistinctIds(recs)
    ensures var r := MergeAll(recs, edits);
      DistinctIds(r) &&
      IdsOf(r) == IdsOf(recs) + EditedIds(edits) &&
      |r| <= |recs| + |edits| &&
      forall x :: FieldsOf(r, x) == EditedFields(FieldsOf(recs, x), edits, x)
  {
    MergeAllShape(recs, edits);
    forall x ensures FieldsOf(MergeAll(recs, edits), x) == EditedFields(FieldsOf(recs, x), edits, x) {
      MergeAllFieldsOf(recs, edits, x);
    }
  }

  /** After any sequence of edits: one entry per record, exactly the records
      held before or edited, and at most one new entry per edit. */
  lemma {:induction false} MergeAllShape(recs: seq<Entry>, edits: seq<FieldEdit>)
    requires DistinctIds(recs)
    ensures var r := MergeAll(recs, edits);
      DistinctIds(r) && IdsOf(r) == IdsOf(recs) + EditedIds(edits) && |r| <= |recs| + |edits|
    decreases |edits|
  {
    if edits != [] {
      var e := edits[0];
      MergeDistinct(recs, e.id, e.field, e.value);
      MergeIds(recs, e.id, e.field, e.value);
      MergeLength(recs, e.id, e.field, e.value);
      MergeAllShape(Merge(recs, e.id, e.field, e.value), edits[1..]);
      EditedIdsCons(edits);
    }
  }

  /** After any sequence of edits, the entry of record `x` holds exactly its
      edited fields, each with the latest value. */
  lemma {:induction false} MergeAllFieldsOf(recs: seq<Entry>, edits: seq<FieldEdit>, x: string)
    requires DistinctIds(recs)
    ensures FieldsOf(MergeAll(recs, edits), x) == EditedFields(FieldsOf(recs, x), edits, x)
    decreases |edits|
  {
    if edits != [] {
      var e := edits[0];
      MergeDistinct(recs, e.id, e.field, e.value);
      MergeFieldsOf(recs, e.id, e.field, e.value, x);
      MergeAllFieldsOf(Merge(recs, e.id, e.field, e.value), edits[1..], x);
    }
  }

  /** The Ids of a non-empty edit sequence: its first edit's and the rest's. */
  lemma EditedIdsCons(edits: seq<FieldEdit>)
    requires edits != []
    ensures EditedIds(edits) == {edits[0].id} + EditedIds(edits[1..])
  {
    forall x | x in EditedIds(edits) ensures x in {edits[0].id} + EditedIds(edits[1..]) {
      var i :| 0 <= i < |edits| && edits[i].id == x;
      if i > 0 { assert edits[1..][i - 1].id == x; }
    }
    forall x | x in EditedIds(edits[1..]) ensures x in EditedIds(edits) {
      var i :| 0 <= i < |edits[1..]| && edits[1..][i].id == x;
      assert edits[i + 1].id == x;
    }
  }

  /** The worked example: LastName of A-1, then Email of A-2, from an empty list. */
  lemma TwoRowExample()
    ensures MergeAll([], [FieldEdit("A-1", "LastName", "Smith"), FieldEdit("A-2", "Email", "x@y.com")])
         == [Entry("A-1", map["LastName" := "Smith"]), Entry("A-2", map["Email" := "x@y.com"])]
  {
  }
}
