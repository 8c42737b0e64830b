/** The Contact table child component: the inline-edit state machine that
    opens one cell editor at a time, merges each concluded edit into the
    pending change list, marks and later clears the edited cells, and saves
    or cancels the whole batch. */
module InlineContactChild {
  import opened Wrappers
  import opened Contacts
  import opened ChangeSet
  import opened Validation

  /** One rendered editable cell, addressed by its `CellKey`: the text it
      shows, its `title` (the value it was rendered with, which cancel puts
      back) and whether its background carries the "changed" colour. */
  datatype Cell = Cell(text: string, title: string, dirty: bool)

  /** The events the component dispatches, in order. */
  datatype Event =
    | ErrorEvent(message: string)
    | Toast(title: string, message: string, variant: string)
    | RefreshEvent
    | DeleteContactEvent(conId: string)
    | EditContactEvent(contact: Option<Row>)

  const UpdatedToast := Toast("Success", "Contacts updated!", "success")
  const FailedToast := Toast("Error", "Something went wrong!", "error")

  /** The two ways `reset` is called: `"cancel"` restores the cell texts, `"save"` does not. */
  datatype ResetMode = CancelMode | SaveMode

  /** The cells after the "changed" background is cleared on every cell in `keys`. */
  function Undirtied(cells: map<string, Cell>, keys: seq<string>): map<string, Cell>
  {
    map k | k in cells :: if k in keys then cells[k].(dirty := false) else cells[k]
  }

  /** The cells after every cell in `keys` shows its `title` again. */
  function Restored(cells: map<string, Cell>, keys: seq<string>): map<string, Cell>
  {
    map k | k in cells :: if k in keys then cells[k].(text := cells[k].title) else cells[k]
  }

  /** The cells after `reset(mode)` over the tracked cells `keys`. */
  function ResetCells(cells: map<string, Cell>, keys: seq<string>, mode: ResetMode): map<string, Cell>
  {
    if mode == CancelMode then Restored(Undirtied(cells, keys), keys) else Undirtied(cells, keys)
  }

  /** The cell of field `f` of entry `e` shows the pending value and is marked changed. */
  ghost predicate ShownAt(cells: map<string, Cell>, e: Entry, f: string)
    requires f in e.fields
  {
    CellKey(f, e.Id) in cells && cells[CellKey(f, e.Id)].text == e.fields[f] && cells[CellKey(f, e.Id)].dirty
  }

  /** Every pending value is what its cell shows, and that cell is marked changed. */
  ghost predicate Shown(recs: seq<Entry>, cells: map<string, Cell>)
  {
    forall e, f :: e in recs && f in e.fields ==> ShownAt(cells, e, f)
  }

  /** Only the editable fields are ever recorded as changed. */
  ghost predicate FieldsEditable(recs: seq<Entry>)
  {
    forall e, f :: e in recs && f in e.fields ==> f in EditableFields
  }

  /** The change list has one entry per record and only editable fields,
      marks exactly the tracked cells, and every pending value is shown in
      its marked cell. */
  ghost predicate Pending(recs: seq<Entry>, tracked: seq<string>, cells: map<string, Cell>)
  {
    DistinctIds(recs) && FieldsEditable(recs) &&
    TouchedKeys(recs) == (set k | k in tracked) &&
    Shown(recs, cells)
  }

  class InlineContactChild {
    /** The prepared rows the table renders (`contactsObj`). */
    var contactsObj: seq<Row>
    /** The editor section last opened (`displayedSection`); None before the first edit. */
    var displayedSection: Option<string>
    /** The session of the last opened editor (`inlineEditFieldName`, `inlineEditContactId`,
        `inlineEditChangedValue`, `sectionDataId`). */
    var fieldName: string
    var contactId: string
    var changedValue: string
    var sectionDataId: string
    /** A change exists overall (`isChanged`) / for the open editor (`isChangedCurrent`). */
    var isChanged: bool
    var isChangedCurrent: bool
    var isEditing: bool
    /** The pending change list and the cells marked changed, in push order. */
    var changedRecords: seq<Entry>
    var changedDataCells: seq<string>
    /** The rendered editable cells, and the editor sections currently shown. */
    var cells: map<string, Cell>
    var visible: set<string>
    /** Every event dispatched so far. */
    var dispatched: seq<Event>

    /** The open-editor bookkeeping: the section shown is the one last opened,
        and it addresses an existing cell of an editable field. */
    ghost predicate SessionOk()
      reads this
    {
      (displayedSection.Some? ==>
        displayedSection.value == sectionDataId &&
        sectionDataId == CellKey(fieldName, contactId) &&
        fieldName in EditableFields && sectionDataId in cells) &&
      visible <= ToSet(displayedSection)
    }

    /** Every tracked cell exists. */
    ghost predicate CellsTracked()
      reads this
    {
      forall k :: k in changedDataCells ==> k in cells
    }

    /** The change list is consistent with the tracked cells. */
    ghost predicate PendingOk()
      reads this
    {
      Pending(changedRecords, changedDataCells, cells)
    }

    ghost predicate Valid()
      reads this
    {
      SessionOk() && CellsTracked() && PendingOk()
    }

    /** A component rendered over the given cells, before any interaction. */
    constructor (rendered: map<string, Cell>)
      ensures Valid()
      ensures cells == rendered && contactsObj == [] && displayedSection == None
      ensures changedRecords == [] && changedDataCells == [] && visible == {} && dispatched == []
      ensures !isChanged && !isChangedCurrent && !isEditing
    {
      contactsObj := [];
      displayedSection := None;
      fieldName, contactId, changedValue, sectionDataId := "", "", "", "";
      isChanged, isChangedCurrent, isEditing := false, false, false;
      changedRecords, changedDataCells := [], [];
      cells := rendered;
      visible := {};
      dispatched := [];
    }

    /** The `contacts` setter: a copy of the rows, each given its five cell
        keys; row count, order and Ids are kept. */
    method SetContacts(value: seq<Row>)
      modifies this`contactsObj
      ensures |contactsObj| == |value|
      ensures forall i :: 0 <= i < |value| ==> contactsObj[i] == PrepareRow(value[i])
      ensures forall i :: 0 <= i < |value| ==> contactsObj[i].Id == value[i].Id
    {
      var temp := value;
      for i := 0 to |temp|
        invariant |temp| == |value|
        invariant forall j :: 0 <= j < i ==> temp[j] == PrepareRow(value[j])
        invariant forall j :: i <= j < |temp| ==> temp[j] == value[j]
      {
        temp := temp[i := PrepareRow(temp[i])];
      }
      contactsObj := temp;
    }

    /** `handleInlineEdit`: records the session, hides the previously shown
        editor and makes the editor of this cell the only one shown. */
    method HandleInlineEdit(field: string, id: string, value: string)
      requires Valid()
      requires field in EditableFields
      requires CellKey(field, id) in cells
      modifies this`fieldName, this`contactId, this`changedValue, this`sectionDataId,
               this`displayedSection, this`visible, this`isEditing
      ensures Valid()
      ensures fieldName == field && contactId == id && changedValue == value
      ensures sectionDataId == CellKey(field, id) && displayedSection == Some(CellKey(field, id))
      ensures visible == old(visible) - ToSet(old(displayedSection)) + {CellKey(field, id)}
      ensures visible == {CellKey(field, id)}
      ensures isEditing
    {
      ghost var recs, tracked, shown := changedRecords, changedDataCells, cells;
      assert Pending(recs, tracked, shown);
      fieldName := field;
      contactId := id;
      changedValue := value;
      sectionDataId := CellKey(field, id);
      if displayedSection.Some? {
        visible := visible - {displayedSection.value};
      }
      displayedSection := Some(sectionDataId);
      visible := visible + {sectionDataId};
      isEditing := true;
      assert changedRecords == recs && changedDataCells == tracked && cells == shown;
    }

    /** `handleInlineEditOnChange`: only the value and the two change flags move. */
    method HandleInlineEditOnChange(value: string)
      requires Valid()
      modifies this`changedValue, this`isChanged, this`isChangedCurrent
      ensures Valid()
      ensures changedValue == value && isChanged && isChangedCurrent
    {
      changedValue := value;
      isChanged := true;
      isChangedCurrent := true;
    }

    /** `handleInlineOffFocus`: hides the editor; when the open editor has an
        unmerged change, merges it into the change list, shows the value in
        its cell, marks the cell and tracks it. */
    method HandleInlineOffFocus()
      requires Valid() && displayedSection.Some?
      modifies this`visible, this`changedRecords, this`changedDataCells, this`cells, this`isChangedCurrent
      ensures Valid()
      ensures visible == {}
      ensures old(isChanged && isChangedCurrent) ==>
        changedRecords == Merge(old(changedRecords), contactId, fieldName, changedValue) &&
        cells == old(cells)[sectionDataId := old(cells)[sectionDataId].(text := changedValue, dirty := true)] &&
        changedDataCells == old(changedDataCells) + [sectionDataId] &&
        !isChangedCurrent
      ensures !old(isChanged && isChangedCurrent) ==>
        changedRecords == old(changedRecords) && cells == old(cells) &&
        changedDataCells == old(changedDataCells) && isChangedCurrent == old(isChangedCurrent)
    {
      visible := visible - {displayedSection.value};
      if isChanged && isChangedCurrent {
        MergePending();
      }
    }

    /** The merging branch of `handleInlineOffFocus`: the open editor's value
        goes into the change list and into its cell, which is marked and
        tracked; the per-editor change flag drops. */
    method MergePending()
      requires Valid() && displayedSection.Some?
      modifies this`changedRecords, this`changedDataCells, this`cells, this`isChangedCurrent
      ensures Valid()
      ensures changedRecords == Merge(old(changedRecords), contactId, fieldName, changedValue)
      ensures cells == old(cells)[sectionDataId := old(cells)[sectionDataId].(text := changedValue, dirty := true)]
      ensures changedDataCells == old(changedDataCells) + [sectionDataId]
      ensures !isChangedCurrent
    {
      var key := sectionDataId;
      var merged := Merge(changedRecords, contactId, fieldName, changedValue);
      var tracked := changedDataCells + [key];
      var shown := cells[key := cells[key].(text := changedValue, dirty := true)];
      MergeKeepsPending(changedRecords, changedDataCells, cells, contactId, fieldName, changedValue);
      assert Pending(merged, tracked, shown);
      assert forall k :: k in tracked ==> k in shown;
      changedRecords, changedDataCells, cells := merged, tracked, shown;
      isChangedCurrent := false;
    }

    /** `changeBackgrounds`: clears the "changed" background of every tracked cell. */
    method ChangeBackgrounds()
      requires CellsTracked()
      modifies this`cells
      ensures CellsTracked() && cells.Keys == old(cells).Keys
      ensures cells == Undirtied(old(cells), changedDataCells)
    {
      ghost var start := cells;
      for i := 0 to |changedDataCells|
        invariant cells == Undirtied(start, changedDataCells[..i])
      {
        UndirtiedStep(start, changedDataCells, i);
        var k := changedDataCells[i];
        cells := cells[k := cells[k].(dirty := false)];
      }
      assert changedDataCells[..|changedDataCells|] == changedDataCells;
    }

    /** The text-restoring loop of `reset("cancel")`: every tracked cell shows its title. */
    method RestoreTexts()
      requires CellsTracked()
      modifies this`cells
      ensures CellsTracked() && cells.Keys == old(cells).Keys
      ensures cells == Restored(old(cells), changedDataCells)
    {
      ghost var start := cells;
      for i := 0 to |changedDataCells|
        invariant cells == Restored(start, changedDataCells[..i])
      {
        RestoredStep(start, changedDataCells, i);
        var k := changedDataCells[i];
        cells := cells[k := cells[k].(text := cells[k].title)];
      }
      assert changedDataCells[..|changedDataCells|] == changedDataCells;
    }

    /** The state `reset(mode)` leaves: tracked cells reset, nothing pending,
        no flag set and no editor shown. */
    twostate predicate ResetFrom(mode: ResetMode)
      reads this
    {
      cells == ResetCells(old(cells), old(changedDataCells), mode) &&
      changedRecords == [] && changedDataCells == [] &&
      !isChanged && !isChangedCurrent && !isEditing && visible == {}
    }

    /** `reset(mode)`. */
    method Reset(mode: ResetMode)
      requires SessionOk() && CellsTracked() && displayedSection.Some?
      modifies this`cells, this`visible, this`isEditing, this`changedRecords, this`changedDataCells,
               this`isChanged, this`isChangedCurrent
      ensures Valid() && ResetFrom(mode)
    {
      ChangeBackgrounds();
      if mode == CancelMode {
        RestoreTexts();
      }
      ClearPending();
    }

    /** The clearing half of `reset`: hides the editor, leaves editing mode,
        empties the change list and the tracked cells, and drops both flags. */
    method ClearPending()
      requires SessionOk() && displayedSection.Some?
      modifies this`visible, this`isEditing, this`changedRecords, this`changedDataCells,
               this`isChanged, this`isChangedCurrent
      ensures Valid()
      ensures changedRecords == [] && changedDataCells == []
      ensures !isChanged && !isChangedCurrent && !isEditing && visible == {}
    {
      visible := visible - {displayedSection.value};
      isEditing := false;
      changedRecords := [];
      changedDataCells := [];
      isChanged := false;
      isChangedCurrent := false;
      NothingPending(cells);
    }

    /** `handleInlineCancel`. */
    method HandleInlineCancel()
      requires Valid() && displayedSection.Some?
      modifies this`cells, this`visible, this`isEditing, this`changedRecords, this`changedDataCells,
               this`isChanged, this`isChangedCurrent
      ensures Valid() && ResetFrom(CancelMode)
    {
      Reset(CancelMode);
    }

    /** `isValid`: the rule over the last edited field, dispatching the error
        event when it fails. */
    method Validate() returns (valid: bool)
      modifies this`dispatched
      ensures valid == IsValid(fieldName, changedValue)
      ensures dispatched == old(dispatched) + (if valid then [] else [ErrorEvent(LastNameBlankMessage)])
    {
      valid := IsValid(fieldName, changedValue);
      if !valid {
        dispatched := dispatched + [ErrorEvent(LastNameBlankMessage)];
      }
    }

    /** `handleInlineSave`, with the outcome of the commit call as a parameter.
        Returns the change list handed to the commit call, or None when the
        validation failed and nothing was sent. */
    method HandleInlineSave(commitSucceeds: bool) returns (payload: Option<seq<Entry>>)
      requires Valid() && displayedSection.Some?
      modifies this`cells, this`visible, this`isEditing, this`changedRecords, this`changedDataCells,
               this`isChanged, this`isChangedCurrent, this`dispatched
      ensures Valid()
      ensures !isEditing && visible == {}
      ensures payload == if IsValid(fieldName, changedValue) then Some(old(changedRecords)) else None
      ensures !IsValid(fieldName, changedValue) ==>
        ResetFrom(CancelMode) && dispatched == old(dispatched) + [ErrorEvent(LastNameBlankMessage)]
      ensures IsValid(fieldName, changedValue) && commitSucceeds ==>
        ResetFrom(SaveMode) && dispatched == old(dispatched) + [UpdatedToast, RefreshEvent]
      ensures IsValid(fieldName, changedValue) && !commitSucceeds ==>
        changedRecords == old(changedRecords) && changedDataCells == old(changedDataCells) &&
        cells == old(cells) && isChanged == old(isChanged) && isChangedCurrent == old(isChangedCurrent) &&
        dispatched == old(dispatched) + [FailedToast]
    {
      visible := visible - {displayedSection.value};
      isEditing := false;
      var valid := Validate();
      if !valid {
        HandleInlineCancel();
        return None;
      }
      payload := Some(changedRecords);
      if commitSucceeds {
        CommitSucceeded();
      } else {
        CommitFailed();
      }
    }

    /** The `then` callback of the commit call: a success toast and a refresh
        request, then `changeBackgrounds` and `reset("save")`. */
    method CommitSucceeded()
      requires Valid() && displayedSection.Some?
      modifies this`cells, this`visible, this`isEditing, this`changedRecords, this`changedDataCells,
               this`isChanged, this`isChangedCurrent, this`dispatched
      ensures Valid() && ResetFrom(SaveMode)
      ensures dispatched == old(dispatched) + [UpdatedToast, RefreshEvent]
    {
      dispatched := dispatched + [UpdatedToast, RefreshEvent];
      ghost var before, keys := cells, changedDataCells;
      ChangeBackgrounds();
      UndirtiedIdempotent(before, keys);
      Reset(SaveMode);
    }

    /** The `catch` callback of the commit call: an error toast, and the
        pending edits stay as they were. */
    method CommitFailed()
      modifies this`dispatched
      ensures dispatched == old(dispatched) + [FailedToast]
    {
      dispatched := dispatched + [FailedToast];
    }

    /** `handleDelete`, with the answer of the confirmation dialog as a
        parameter (None when the dialog failed): on "proceed", asks the parent
        to delete the record the clicked element belongs to. */
    method HandleDelete(elementId: string, answer: Option<string>)
      modifies this`dispatched
      ensures dispatched == old(dispatched) +
        (if answer == Some("proceed") then [DeleteContactEvent(IdPrefix(elementId))] else [])
    {
      var conId := IdPrefix(elementId);
      if answer == Some("proceed") {
        dispatched := dispatched + [DeleteContactEvent(conId)];
      }
    }

    /** `handleEdit`, with the answer of the edit dialog as a parameter: on
        "success", tells the parent which row was edited (None when no row
        has the clicked element's record Id). */
    method HandleEdit(elementId: string, answer: Option<string>)
      modifies this`dispatched
      ensures var matches := FilterById(contactsObj, IdPrefix(elementId));
        dispatched == old(dispatched) +
          (if answer == Some("success") then [EditContactEvent(if matches == [] then None else Some(matches[0]))] else [])
    {
      var conId := IdPrefix(elementId);
      var contact := FilterById(contactsObj, conId);
      if answer == Some("success") {
        dispatched := dispatched + [EditContactEvent(if contact == [] then None else Some(contact[0]))];
      }
    }
  }

  // ----- lemmas about the cell bookkeeping -----

  /** An empty change list with no tracked cell is consistent over any cells. */
  lemma NothingPending(cells: map<string, Cell>)
    ensures Pending([], [], cells)
  {
    assert TouchedKeys([]) == {};
    assert (set k: string | k in []) == {};
  }

  /** One more step of the background-clearing loop. */
  lemma UndirtiedStep(cells: map<string, Cell>, keys: seq<string>, i: nat)
    requires i < |keys| && keys[i] in cells
    ensures var u := Undirtied(cells, keys[..i]);
      keys[i] in u && Undirtied(cells, keys[..i + 1]) == u[keys[i] := u[keys[i]].(dirty := false)]
  {
    assert forall k :: k in keys[..i + 1] <==> k in keys[..i] || k == keys[i] by {
      assert keys[..i + 1] == keys[..i] + [keys[i]];
    }
  }

  /** One more step of the text-restoring loop. */
  lemma RestoredStep(cells: map<string, Cell>, keys: seq<string>, i: nat)
    requires i < |keys| && keys[i] in cells
    ensures var u := Restored(cells, keys[..i]);
      keys[i] in u && Restored(cells, keys[..i + 1]) == u[keys[i] := u[keys[i]].(text := u[keys[i]].title)]
  {
    assert forall k :: k in keys[..i + 1] <==> k in keys[..i] || k == keys[i] by {
      assert keys[..i + 1] == keys[..i] + [keys[i]];
    }
  }

  /** Clearing backgrounds twice is clearing them once. */
  lemma UndirtiedIdempotent(cells: map<string, Cell>, keys: seq<string>)
    ensures Undirtied(Undirtied(cells, keys), keys) == Undirtied(cells, keys)
  {
  }

  /** What clearing backgrounds does to each cell: its text and title are
      kept, and it stays marked exactly when it was marked and is not in `keys`. */
  lemma UndirtiedMeaning(cells: map<string, Cell>, keys: seq<string>, k: string)
    requires k in cells
    ensures var r := Undirtied(cells, keys);
      r.Keys == cells.Keys &&
      r[k].text == cells[k].text && r[k].title == cells[k].title && (r[k].dirty <==> cells[k].dirty && k !in keys)
  {
  }

  /** What restoring texts does to each cell: its title and mark are kept, and
      only a cell in `keys` changes its text, to its title. */
  lemma RestoredMeaning(cells: map<string, Cell>, keys: seq<string>, k: string)
    requires k in cells
    ensures var r := Restored(cells, keys);
      r.Keys == cells.Keys &&
      r[k].title == cells[k].title && r[k].dirty == cells[k].dirty &&
      r[k].text == (if k in keys then cells[k].title else cells[k].text)
  {
  }

  /** What a reset does to each cell: a tracked cell loses its "changed"
      background and, on cancel only, shows its title again; every other cell
      is left as it was. */
  lemma ResetCellsMeaning(cells: map<string, Cell>, keys: seq<string>, mode: ResetMode, k: string)
    requires k in cells
    ensures var r := ResetCells(cells, keys, mode);
      r.Keys == cells.Keys &&
      (k in keys ==>
        r[k] == Cell(if mode == CancelMode then cells[k].title else cells[k].text, cells[k].title, false)) &&
      (k !in keys ==> r[k] == cells[k])
  {
  }

  /** A merging blur keeps the change list consistent with the tracked cells:
      one entry per record, only editable fields, exactly the tracked cells
      marked, and every pending value shown in its marked cell. */
  lemma MergeKeepsPending(recs: seq<Entry>, tracked: seq<string>, cells: map<string, Cell>,
                          id: string, field: string, value: string)
    requires Pending(recs, tracked, cells)
    requires field in EditableFields && CellKey(field, id) in cells
    ensures var key := CellKey(field, id);
      Pending(Merge(recs, id, field, value), tracked + [key],
              cells[key := cells[key].(text := value, dirty := true)])
  {
    var key := CellKey(field, id);
    var r := Merge(recs, id, field, value);
    MergeDistinct(recs, id, field, value);
    MergeTouched(recs, id, field, value);
    MergeKeepsShown(recs, cells, id, field, value);
    assert (set k | k in tracked + [key]) == (set k | k in tracked) + {key};
  }

  /** The entry a merge pushes, and the entries it keeps. */
  lemma MergeMembers(recs: seq<Entry>, id: string, field: string, value: string, e: Entry)
    requires e in Merge(recs, id, field, value)
    ensures e == Entry(id, FieldsOf(recs, id)[field := value]) || (e in recs && e.Id != id)
  {
    var r := Merge(recs, id, field, value);
    assert r == r[..|r| - 1] + [r[|r| - 1]];
  }

  /** The fields already pending for a record are shown and editable. */
  lemma FieldsOfShown(recs: seq<Entry>, cells: map<string, Cell>, id: string, f: string)
    requires FieldsEditable(recs) && Shown(recs, cells)
    requires f in FieldsOf(recs, id)
    ensures f in EditableFields && CellKey(f, id) in cells
    ensures cells[CellKey(f, id)].text == FieldsOf(recs, id)[f] && cells[CellKey(f, id)].dirty
  {
    var e := FirstWithId(recs, id).value;
    assert e in recs && f in e.fields;
    assert ShownAt(cells, e, f);
  }

  /** After a merging blur every pending value is still shown in its marked
      cell, and only editable fields are pending. */
  lemma MergeKeepsShown(recs: seq<Entry>, cells: map<string, Cell>, id: string, field: string, value: string)
    requires FieldsEditable(recs) && Shown(recs, cells)
    requires field in EditableFields && CellKey(field, id) in cells
    ensures var key := CellKey(field, id);
      var cells' := cells[key := cells[key].(text := value, dirty := true)];
      FieldsEditable(Merge(recs, id, field, value)) && Shown(Merge(recs, id, field, value), cells')
  {
    var key := CellKey(field, id);
    var r := Merge(recs, id, field, value);
    var cells' := cells[key := cells[key].(text := value, dirty := true)];
    var last := Entry(id, FieldsOf(recs, id)[field := value]);
    forall e, f | e in r && f in e.fields
      ensures f in EditableFields && ShownAt(cells', e, f)
    {
      MergeMembers(recs, id, field, value, e);
      if e == last {
        if f != field {
          FieldsOfShown(recs, cells, id, f);
          if CellKey(f, id) == key { CellKeyInjective(f, id, field, id); }
        }
      } else {
        if CellKey(f, e.Id) == key { CellKeyInjective(f, e.Id, field, id); }
      }
    }
  }

  // ----- scenarios, proved from the handlers' contracts alone -----

  /** Change, blur, blur: the second blur merges nothing, so the edit is
      merged once and its cell is tracked once. */
  method BlurTwiceMergesOnce(c: InlineContactChild, value: string)
    requires c.Valid() && c.displayedSection.Some?
    modifies c
    ensures c.Valid()
    ensures c.changedRecords == Merge(old(c.changedRecords), c.contactId, c.fieldName, value)
    ensures c.changedDataCells == old(c.changedDataCells) + [c.sectionDataId]
    ensures c.sectionDataId in c.cells && c.cells[c.sectionDataId].text == value
  {
    c.HandleInlineEditOnChange(value);
    c.HandleInlineOffFocus();
    c.HandleInlineOffFocus();
  }

  /** Editing the same cell twice before saving leaves one entry for the
      record, holding the later value. */
  method EditSameCellTwice(c: InlineContactChild, field: string, id: string, shown: string, v1: string, v2: string)
    requires c.Valid() && field in EditableFields && CellKey(field, id) in c.cells
    modifies c
    ensures c.Valid()
    ensures c.changedRecords == Merge(old(c.changedRecords), id, field, v2)
  {
    c.HandleInlineEdit(field, id, shown);
    c.HandleInlineEditOnChange(v1);
    c.HandleInlineOffFocus();
    c.HandleInlineEdit(field, id, shown);
    c.HandleInlineEditOnChange(v2);
    c.HandleInlineOffFocus();
    MergeOverwrites(old(c.changedRecords), id, field, v1, v2);
  }

  /** A failed commit keeps the change list, so saving again sends the same
      payload; a successful retry then clears everything. */
  method RetryAfterFailedCommit(c: InlineContactChild) returns (first: Option<seq<Entry>>, second: Option<seq<Entry>>)
    requires c.Valid() && c.displayedSection.Some?
    requires IsValid(c.fieldName, c.changedValue)
    modifies c
    ensures first == second == Some(old(c.changedRecords))
    ensures c.changedRecords == [] && c.changedDataCells == []
    ensures c.dispatched == old(c.dispatched) + [FailedToast, UpdatedToast, RefreshEvent]
  {
    first := c.HandleInlineSave(false);
    second := c.HandleInlineSave(true);
  }

  /** Only the last edited field is validated: a blanked LastName of one row
      followed by an Email edit of another leaves the blank value pending, and
      the save check passes. */
  lemma OnlyLastEditValidated()
    ensures var recs := MergeAll([], [FieldEdit("A-1", "LastName", " "), FieldEdit("A-2", "Email", "x@y.com")]);
      |recs| == 2 && recs[0] == Entry("A-1", map["LastName" := " "]) &&
      !IsValid("LastName", " ") && IsValid("Email", "x@y.com")
  {
  }
}
