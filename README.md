# Inline-edit Contact table: a Dafny model

This project models the Lightning Web Component `inlineContactChild`, the
child half of an Account page's Contact table. The component shows one row
per Contact, lets the user open an editor on one cell at a time, collects
every concluded edit in a pending change list keyed by the Contact's `Id`,
marks each edited cell with a "changed" background, and then either sends
the whole list to the `inlineUpdate` Apex call (save) or puts every edited
cell back to the text it was rendered with (cancel).

Files, one module each:

- `wrappers.dfy` (`Wrappers`): `Option`, standing for JavaScript's `undefined`.
- `contacts.dfy` (`Contacts`): a Contact row, the `contacts` setter's per-row
  cell keys `"<Field>-<Id>"`, the record-id extraction `id.split("-")[0]`, and
  the filter by `Id` used by the edit action.
- `changeset.dfy` (`ChangeSet`): the pending change list `changedRecords`,
  the blur-time merge and its properties: one entry per record, repeated edits
  overwrite, the merged entry moves to the end, the other entries keep their
  contents and order, and what the list holds after any sequence of edits.
- `validation.dfy` (`Validation`): JavaScript's `String.prototype.trim`
  with ECMAScript's whitespace and line-terminator characters, and the single
  rule `isValid` applies: a LastName may not be blank.
- `child.dfy` (`InlineContactChild`): the component as a class. It holds the
  editor session, the two change flags, the change list, the tracked cells,
  an abstract table of rendered cells, the editor sections shown, and a log of
  dispatched events. Each handler is a method. A class invariant `Valid()`
  holds after every handler:
  - at most one editor is shown, and it is the last one opened;
  - the change list holds at most one entry per `Id`;
  - the cells tracked for reset are exactly the cells of the pending fields;
  - every pending value is the text its cell shows, and that cell is marked changed.
  Three client methods check scenarios using only the handlers' contracts:
  blur twice, edit one cell twice, and retry after a failed commit.

How the page is abstracted:

- The DOM lookups `querySelector([data-inlinesectionid=…])` and
  `querySelector([data-inlineid=…])` become one map `cells` from a cell key to
  `Cell(text, title, dirty)`. `text` is the inner text shown. `title` is the
  rendered value that cancel restores. `dirty` is the `#FFFED1` background.
  The same key addresses a cell's table element and its editor section, as
  the setter's keys are built for. `visible` is the set of editor sections
  whose `display` is `block`.
- `changedDataCells` holds cell keys instead of element references. Both
  loops over it are idempotent per cell, so duplicates behave as in the source.
- `dispatchEvent` appends to the `dispatched` log: error events, toasts,
  `refresh`, `deletecontact` and `editcontact`.
- The `inlineUpdate` call becomes the `commitSucceeds` parameter of
  `HandleInlineSave`. The payload it would receive is the method's result.
  JSON serialisation and the JSON deep copies become Dafny value semantics.
  Because of this, the setter cannot change its input.
- The two modal dialogs of the row actions become an `answer` parameter.
  `None` stands for a dialog that failed.
- Each handler's `modifies` clause names the fields it may change, field by
  field. Every other field keeps its value, and the handler's `ensures` say
  what the listed fields become.

Two behaviours of the source worth knowing:

- Every merging blur pushes the cell onto `changedDataCells`, even when it is
  already tracked (`inlineContactChild.js:152`, `:181`). The model's invariant
  therefore relates the SET of tracked cells to the change list.
- The rule is checked only against the last edited field, at save time.
  `OnlyLastEditValidated` shows that a blank LastName of an earlier edit
  passes when a later edit touched another field.

## Model

| member | source | states |
|---|---|---|
| `InlineContactChild.InlineContactChild.constructor` | force-app/main/default/lwc/inlineContactChild/inlineContactChild.js:14-27 | a fresh component: no editor opened, nothing pending, no flag set, no event dispatched, invariant established |
| `InlineContactChild.InlineContactChild.SetContacts` | force-app/main/default/lwc/inlineContactChild/inlineContactChild.js:35-45 | the stored rows are the input rows in the same number and order, each with its own `Id`, each the prepared copy of the input row |
| `Contacts.CellKey` | force-app/main/default/lwc/inlineContactChild/inlineContactChild.js:38-42 | a cell key is the field name, one `-`, then the record id, and nothing else |
| `Contacts.PrepareRow` | force-app/main/default/lwc/inlineContactChild/inlineContactChild.js:37-43 | a prepared row keeps its `Id` and all properties other than the five key properties; it gains exactly those five, and the key for field F is `F-<Id>` |
| `Contacts.PreparedKeyAddressesRow` | force-app/main/default/lwc/inlineContactChild/inlineContactChild.js:38-42 | every key a prepared row carries splits back at its first `-` into the field name and the row's `Id` |
| `Contacts.CellKeyInjective` | force-app/main/default/lwc/inlineContactChild/inlineContactChild.js:123-126 | two editable cells have the same key only if they are the same field of the same record |
| `Contacts.IdPrefix` | force-app/main/default/lwc/inlineContactChild/inlineContactChild.js:76 | `split("-")[0]`: the result is a prefix of the input, holds no `-`, and is followed by a `-` whenever it is shorter than the input |
| `Contacts.PrefixOfJoin` | force-app/main/default/lwc/inlineContactChild/inlineContactChild.js:95 | the prefix of `a + "-" + b` is `a` when `a` holds no `-`: a record id joined to any suffix is recovered |
| `Contacts.FilterById` | force-app/main/default/lwc/inlineContactChild/inlineContactChild.js:96 | the filtered rows are exactly the rows with the given `Id`, never more than the input, and the first row with that `Id` is the first element, which `[0]` then takes |
| `Contacts.FilterByIdAppend` | force-app/main/default/lwc/inlineContactChild/inlineContactChild.js:96 | the filter distributes over concatenation, so matching rows keep their order in the input |
| `InlineContactChild.InlineContactChild.HandleDelete` | force-app/main/default/lwc/inlineContactChild/inlineContactChild.js:74-92 | a `deletecontact` event carrying the clicked element's record id is dispatched exactly when the dialog answers "proceed"; nothing else changes |
| `InlineContactChild.InlineContactChild.HandleEdit` | force-app/main/default/lwc/inlineContactChild/inlineContactChild.js:94-115 | an `editcontact` event with the first row, in row order, of that record id (none if no row matches) is dispatched exactly when the dialog answers "success"; only the event log changes |
| `InlineContactChild.InlineContactChild.HandleInlineEdit` | force-app/main/default/lwc/inlineContactChild/inlineContactChild.js:117-137 | records field, record id and value; hides the previously shown editor, so that the editor of `field-id` is the only one shown; sets editing; its frame leaves the change list, the tracked cells, the cells, the flags, the rows and the event log unchanged |
| `InlineContactChild.InlineContactChild.HandleInlineEditOnChange` | force-app/main/default/lwc/inlineContactChild/inlineContactChild.js:139-143 | sets the value and both change flags and nothing else (its frame is those three fields) |
| `InlineContactChild.InlineContactChild.HandleInlineOffFocus` | force-app/main/default/lwc/inlineContactChild/inlineContactChild.js:149-185 | hides the editor; when both flags are set, merges the value into the change list, shows it in the cell, marks and tracks the cell, and clears the per-editor flag; otherwise the change list, tracked cells and cells are unchanged; its frame leaves the editor session, the other flag, the rows and the event log unchanged |
| `InlineContactChild.BlurTwiceMergesOnce` | force-app/main/default/lwc/inlineContactChild/inlineContactChild.js:151-183 | change then two blurs: the edit is merged once and its cell tracked once, and the cell shows the value |
| `ChangeSet.FirstWithId` | force-app/main/default/lwc/inlineContactChild/inlineContactChild.js:155-157 | finds an entry for the id exactly when the id has one, and what it finds is an entry of the list with that id |
| `ChangeSet.WithoutId` | force-app/main/default/lwc/inlineContactChild/inlineContactChild.js:160-162 | keeps exactly the entries of other records; the id no longer occurs |
| `ChangeSet.WithoutIdAppend` | force-app/main/default/lwc/inlineContactChild/inlineContactChild.js:160-162 | the filter distributes over concatenation, so kept entries keep their relative order |
| `ChangeSet.WithoutIdAbsent` | force-app/main/default/lwc/inlineContactChild/inlineContactChild.js:160-162 | filtering out an id the list does not hold changes nothing |
| `ChangeSet.WithoutIdDistinct` | force-app/main/default/lwc/inlineContactChild/inlineContactChild.js:160-162 | filtering keeps the ids distinct |
| `ChangeSet.WithoutIdOne` | force-app/main/default/lwc/inlineContactChild/inlineContactChild.js:160-162 | with distinct ids, filtering out a held record removes exactly one entry |
| `ChangeSet.IdsOfWithout` | force-app/main/default/lwc/inlineContactChild/inlineContactChild.js:160-162 | filtering removes exactly the one id from the ids held |
| `ChangeSet.FirstWithIdUnique` | force-app/main/default/lwc/inlineContactChild/inlineContactChild.js:155-157 | with distinct ids, the entry found is the one entry of that record |
| `ChangeSet.FieldsOfEntry` | force-app/main/default/lwc/inlineContactChild/inlineContactChild.js:155-157 | with distinct ids, the fields looked up for a record are those of its entry |
| `ChangeSet.IdsOfSnoc` | force-app/main/default/lwc/inlineContactChild/inlineContactChild.js:164 | pushing an entry adds its id to the ids held |
| `ChangeSet.FirstWithIdSnoc` | force-app/main/default/lwc/inlineContactChild/inlineContactChild.js:155-164 | an entry pushed after entries of other records is the one the next lookup finds |
| `ChangeSet.Merge` | force-app/main/default/lwc/inlineContactChild/inlineContactChild.js:155-171 | the entry for the id becomes the last element, with `field` set to the value on top of that record's earlier fields (no fields for a new record); before it come exactly the other records' entries, in their order |
| `ChangeSet.MergeFields` | force-app/main/default/lwc/inlineContactChild/inlineContactChild.js:152-172 | a merge keeps one entry per id, adds the id to the ids held, grows the list only for a new record, overwrites only `field` of that record and leaves every other record's fields as they were |
| `ChangeSet.MergeDistinct` | force-app/main/default/lwc/inlineContactChild/inlineContactChild.js:159-172 | a merge keeps at most one entry per id |
| `ChangeSet.MergeIds` | force-app/main/default/lwc/inlineContactChild/inlineContactChild.js:159-172 | a merge adds the edited record's id and no other |
| `ChangeSet.MergeFieldsOf` | force-app/main/default/lwc/inlineContactChild/inlineContactChild.js:163-168 | the edited record's fields gain the value for `field`; every other record's fields are unchanged |
| `ChangeSet.MergeLength` | force-app/main/default/lwc/inlineContactChild/inlineContactChild.js:159-171 | the list grows by one for a new record and keeps its length for a known one |
| `ChangeSet.MergedEntryIsFound` | force-app/main/default/lwc/inlineContactChild/inlineContactChild.js:155-164 | a second merge for the same record finds the entry the first one pushed |
| `ChangeSet.MergeOverwrites` | force-app/main/default/lwc/inlineContactChild/inlineContactChild.js:159-164 | editing the same field of the same record twice gives the same list as only the second edit |
| `ChangeSet.TouchedKeysSnoc` | force-app/main/default/lwc/inlineContactChild/inlineContactChild.js:164 | the cells a list marks grow by the cells of a pushed entry |
| `ChangeSet.TouchedKeysSplit` | force-app/main/default/lwc/inlineContactChild/inlineContactChild.js:160-164 | the cells a list marks are those of the other records' entries plus those of the record's own entry |
| `ChangeSet.MergeTouched` | force-app/main/default/lwc/inlineContactChild/inlineContactChild.js:173-181 | the cells the change list marks after a merge are the earlier ones plus the edited cell |
| `ChangeSet.MergeAllFields` | force-app/main/default/lwc/inlineContactChild/inlineContactChild.js:152-172 | after any sequence of edits: one entry per record, exactly the records edited, no more entries than edits, and each record's entry holds exactly its edited fields with the latest values |
| `ChangeSet.MergeAllShape` | force-app/main/default/lwc/inlineContactChild/inlineContactChild.js:152-172 | after any sequence of merges: one entry per record, the ids held are the earlier ones plus the edited records', and the list grows by at most one per edit |
| `ChangeSet.MergeAllFieldsOf` | force-app/main/default/lwc/inlineContactChild/inlineContactChild.js:152-172 | after any sequence of merges, each record's fields are its earlier fields with that record's edits applied in order |
| `ChangeSet.TwoRowExample` | force-app/main/default/lwc/inlineContactChild/inlineContactChild.js:199 | LastName of A-1 then Email of A-2 gives `[{Id: A-1, LastName: Smith}, {Id: A-2, Email: x@y.com}]` |
| `InlineContactChild.EditSameCellTwice` | force-app/main/default/lwc/inlineContactChild/inlineContactChild.js:117-185 | two open-change-blur rounds on one cell leave the list of a single round with the later value |
| `InlineContactChild.InlineContactChild.MergePending` | force-app/main/default/lwc/inlineContactChild/inlineContactChild.js:152-183 | the merging branch of blur: the change list becomes the merge of the edit, the cell shows the value and is marked, the cell is pushed onto the tracked cells, the per-editor flag is cleared, and the invariant still holds |
| `InlineContactChild.MergeKeepsPending` | force-app/main/default/lwc/inlineContactChild/inlineContactChild.js:152-183 | a merging blur keeps the change list consistent with the tracked cells: one entry per record, tracked cells are the pending cells, pending values shown in marked cells |
| `InlineContactChild.MergeMembers` | force-app/main/default/lwc/inlineContactChild/inlineContactChild.js:159-171 | every entry after a merge is the pushed entry or an old entry of another record |
| `InlineContactChild.FieldsOfShown` | force-app/main/default/lwc/inlineContactChild/inlineContactChild.js:173-178 | a field already pending for a record is editable and shown, marked, in its cell |
| `InlineContactChild.MergeKeepsShown` | force-app/main/default/lwc/inlineContactChild/inlineContactChild.js:173-181 | after a merging blur, every pending value is still the text of its marked cell |
| `InlineContactChild.InlineContactChild.ChangeBackgrounds` | force-app/main/default/lwc/inlineContactChild/inlineContactChild.js:225-229 | every tracked cell loses its "changed" background; the other cells and all cell texts are unchanged |
| `InlineContactChild.UndirtiedMeaning` | force-app/main/default/lwc/inlineContactChild/inlineContactChild.js:225-229 | per cell: after clearing backgrounds the cell keeps its text and title, and is marked exactly when it was marked and is not tracked |
| `InlineContactChild.UndirtiedStep` | force-app/main/default/lwc/inlineContactChild/inlineContactChild.js:226-228 | one iteration of the background loop clears one more tracked cell |
| `InlineContactChild.UndirtiedIdempotent` | force-app/main/default/lwc/inlineContactChild/inlineContactChild.js:210-211 | clearing backgrounds before `reset("save")`, which clears them again, is the same as clearing them once |
| `InlineContactChild.InlineContactChild.RestoreTexts` | force-app/main/default/lwc/inlineContactChild/inlineContactChild.js:233-238 | every tracked cell shows its title again; untracked cells are unchanged |
| `InlineContactChild.RestoredMeaning` | force-app/main/default/lwc/inlineContactChild/inlineContactChild.js:233-238 | per cell: after restoring, a tracked cell shows its title, an untracked cell its old text; title and mark are kept |
| `InlineContactChild.RestoredStep` | force-app/main/default/lwc/inlineContactChild/inlineContactChild.js:234-237 | one iteration of the restoring loop restores one more tracked cell |
| `InlineContactChild.InlineContactChild.Reset` | force-app/main/default/lwc/inlineContactChild/inlineContactChild.js:231-245 | both modes: tracked cells un-marked, change list and tracked cells empty, flags false, not editing, no editor shown; cancel also restores the tracked cells' texts, save does not |
| `InlineContactChild.InlineContactChild.ClearPending` | force-app/main/default/lwc/inlineContactChild/inlineContactChild.js:239-244 | the clearing statements of `reset` leave nothing pending, no flag set, no editor shown, and the invariant holding |
| `InlineContactChild.ResetCellsMeaning` | force-app/main/default/lwc/inlineContactChild/inlineContactChild.js:231-238 | per cell: a tracked cell is un-marked and, on cancel only, shows its title; every other cell is left as it was |
| `InlineContactChild.NothingPending` | force-app/main/default/lwc/inlineContactChild/inlineContactChild.js:241-242 | an empty change list with no tracked cell satisfies the consistency invariant |
| `InlineContactChild.InlineContactChild.HandleInlineCancel` | force-app/main/default/lwc/inlineContactChild/inlineContactChild.js:145-147 | cancel is `reset("cancel")`: the state after it is the state `reset` leaves in cancel mode |
| `Validation.TrimStart` | force-app/main/default/lwc/inlineContactChild/inlineContactChild.js:250 | trimming the start leaves a suffix of the input that does not begin with whitespace, and removes only whitespace |
| `Validation.TrimEnd` | force-app/main/default/lwc/inlineContactChild/inlineContactChild.js:250 | trimming the end leaves a prefix of the input that does not end with whitespace, and removes only whitespace |
| `Validation.Trim` | force-app/main/default/lwc/inlineContactChild/inlineContactChild.js:250 | `trim` removes only whitespace and line terminators, from both ends, and keeps a contiguous middle slice of the input; a non-empty result starts and ends with a character `trim` keeps |
| `Validation.BlankTrimsAway` | force-app/main/default/lwc/inlineContactChild/inlineContactChild.js:250 | an all-whitespace string trims to nothing |
| `Validation.TrimEmptyIffBlank` | force-app/main/default/lwc/inlineContactChild/inlineContactChild.js:250 | `s.trim() === ""` holds exactly when every character of `s` is whitespace or a line terminator |
| `Validation.IsValid` | force-app/main/default/lwc/inlineContactChild/inlineContactChild.js:247-260 | the save is refused exactly when the last field is LastName and its value is blank |
| `InlineContactChild.InlineContactChild.Validate` | force-app/main/default/lwc/inlineContactChild/inlineContactChild.js:247-260 | returns the rule's verdict, and dispatches the "Last Name value cannot be blank." error event exactly when it fails |
| `InlineContactChild.InlineContactChild.HandleInlineSave` | force-app/main/default/lwc/inlineContactChild/inlineContactChild.js:187-223 | hides the editor and leaves editing mode. Invalid case: the error event is logged, the commit is not called, and the end state is that of cancel. Valid case: the change list is the payload handed to the commit, and the end state is that of the completion callback the outcome selects |
| `InlineContactChild.InlineContactChild.CommitSucceeded` | force-app/main/default/lwc/inlineContactChild/inlineContactChild.js:200-212 | the success callback: one success toast and one refresh are logged, and the end state is that of `reset("save")` |
| `InlineContactChild.InlineContactChild.CommitFailed` | force-app/main/default/lwc/inlineContactChild/inlineContactChild.js:213-222 | the failure callback: only the error toast is logged, and its frame leaves every other field, hence the change list, tracked cells, cells and flags, unchanged |
| `InlineContactChild.RetryAfterFailedCommit` | force-app/main/default/lwc/inlineContactChild/inlineContactChild.js:199-222 | a failed save followed by a successful one sends the same change list twice and ends with nothing pending |
| `InlineContactChild.OnlyLastEditValidated` | force-app/main/default/lwc/inlineContactChild/inlineContactChild.js:192-197 | a blank LastName edited before an Email edit stays in the change list, and the save check passes |

## Left out

- The parent component `inlineEditContactParent.js` is not part of this model. It wires the Apex query, `refreshApex`, `deleteRecord`, the create dialog and toasts. The child's `refresh`, `deletecontact`, `editcontact` and `error` events end in the `dispatched` log.
- `fetchLeadSourcePicklistValues` and the `getObjectInfo` wire (`inlineContactChild.js:47-61`) are platform reads of reference data, so they are left out.
- `handleNavigation` (`inlineContactChild.js:63-72`) only hands `IdPrefix` of the element id to the navigation service, so it is left out. The id extraction is modelled.
- The `contacts` getter returns `contactsObj`. The model exposes that field directly.
- What the two modal dialogs receive, and the `console.log` calls, are left out; only the dialogs' answers are modelled.
- `focus()`, `style.display` and the `children[0].children[0]` walk are replaced by the `cells` and `visible` abstraction.
- The commit runs asynchronously. The model runs the completion right after the call, so no handler runs in between, which is what disabling editing intends.
- HandleInlineEdit: the model takes the cell's `data-value` as a string. An absent attribute would give JavaScript `undefined`, which `trim` would then dereference; that case is not modelled.
- HandleInlineEdit: requires the field to be one of the five fields the setter builds keys for. A field named `Id` would overwrite the record id in the source's untyped entry; the model keeps `Id` apart from the edited fields.
- HandleInlineEdit: requires the cell `field-id` to exist, because the source sets the display style of the section it finds (`inlineContactChild.js:131-134`), which would throw otherwise. It does not require an editor to have been opened.
- HandleInlineOffFocus, HandleInlineSave, HandleInlineCancel: these require an editor to have been opened, because the source dereferences `displayedSection`, which would throw otherwise.
- The constructor sets `contactsObj` to the empty list, while the source leaves it undefined until the setter runs (`inlineContactChild.js:29`). Before the setter has run, the source's edit action would throw at `inlineContactChild.js:96`, outside its `try`; the model's HandleEdit then dispatches an `editcontact` event with no row.
- Re-rendering is not modelled. `cells` and their titles are fixed when the component is built, and SetContacts does not touch them; after a `refresh` or a new `contacts` value the page would render the rows again with new titles.
- Strings are sequences of Unicode scalar values, not UTF-16 code units. This only matters for characters outside the Basic Multilingual Plane, none of which `trim` removes.
