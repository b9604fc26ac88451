# IDF manager: a verified model

opyplus reads EnergyPlus input files (IDF) into an in-memory graph of
records. Each record has a class, such as `Zone`, `Schedule:Compact` or
`BuildingSurface:Detailed`, and an ordered list of field values. Slot 0 is the
record's name. Some slots are *references*: they name a record of another
class. A record's *pointing links* are the (record, slot) pairs whose
reference slot currently holds its name.

The IDF manager owns the records of one document. It supports these operations:

- adding, removing and copying records;
- setting a slot, where renaming a record rewrites every slot that referred to it;
- replacing a record's whole body while it keeps its name;
- querying records by class and by slot value.

Outside a batch ("under construction"), the manager keeps the graph
consistent:

- every record has a known class and an admissible field count;
- names are unique within a class;
- every reference resolves.

Inside a batch, adding a record or replacing its body still checks the class
and the field count, but name uniqueness and reference resolution wait until the outermost
batch closes. Then the whole document is checked and, if it is broken, rolled
back to the state it had when the batch opened.

This project models that engine in Dafny. It has three layers.

- `IdfSchema` and `SlotNames` describe the dictionary. For each class they give:
  - its slot names, matched without regard to case;
  - the admissible field counts;
  - which slots refer to which class.
- `RecordTable` is the record graph as a value, a sequence of (class, fields)
  rows. It holds:
  - the pointing links, derived by scanning the rows;
  - the consistency invariant `Consistent`;
  - one function per mutation, giving the table after it (`Rename`, `Removed`,
    `Replaced`, `Assigned`, and appending a row);
  - lemmas saying what each mutation preserves and what it changes.
- `IdfManager` is the imperative engine.
  - `Record` is a heap object with a constant class and owner, and a mutable
    field list.
  - `Manager` holds the records, the batch depth and the snapshot.
  - `View()` maps the manager's records to a `RecordTable` table.
  - Every public operation (`AddObject`, `SetValue`, `SetValueToNewObject`,
    `RemoveObject`, `ReplaceValues`, `Copy`, `BeginConstruction`,
    `EndConstruction`, `Load`) preserves the `Valid()` invariant. Its
    postcondition ties the new `View()` to the matching table function.
  - The internal steps `RenameTo`, `AssignSlot`, `DropAt`, `OverwriteSlots`
    and `ClearLinksTo` do not promise `Valid()`. They state their effect only:
    a `View()` equation, or, for the last two, the new field values slot by
    slot.
  - `IdfScenarios` runs the steps of individual uses of the manager and states
    their promised outcomes.

The behaviours in the table are those that `oplus/tests/test_idf_manager.py`,
the suite exercising the engine, asserts; its lines are cited below. Where the
suite asserts nothing (the state after a failed batch, nested batches, loading
as one batch, slots past a record's field count), the model makes its own
choices, listed under "Left out".

## Model

| member | source | states |
|---|---|---|
| SlotNames.SlotIndex | oplus/tests/test_idf_manager.py:44 | the position of the first slot whose name equals the query up to letter case; None exactly when no slot matches |
| SlotNames.SlotIndexIgnoresCase | oplus/tests/test_idf_manager.py:44 | two spellings that agree once lower-cased ("naMe", "NAME", "name") select the same slot |
| IdfManager.SlotPositionIgnoresCase | oplus/tests/test_idf_manager.py:166-170 | naming a slot as "availability schedule name" or "AvaiLABIlity schedule name" designates the same position of a record |
| IdfManager.OfClass | oplus/tests/test_idf_manager.py:36-39 | filter_by_ref yields exactly the records of the class, each once |
| IdfManager.Manager.FilterByRef | oplus/tests/test_idf_manager.py:36-39 | the manager's filter_by_ref holds exactly its records of that class, without repetition |
| IdfManager.Filter | oplus/tests/test_idf_manager.py:44 | a queryset filter keeps exactly the records whose named slot holds the value, each once |
| IdfManager.One | oplus/tests/test_idf_manager.py:44 | `.one` succeeds exactly on a one-record selection and yields that record, otherwise reports ZeroOrMultipleResults |
| IdfManager.Manager.OneFindsNamed | oplus/tests/test_idf_manager.py:41-50 | outside a batch, filtering a class by its name slot (spelled in any case) for a record's name and taking `.one` gives that very record |
| IdfManager.Manager.NoneNamed | oplus/tests/test_idf_manager.py:141 | filtering a class by name finds nothing when no record of the class has that name |
| RecordTable.FindNamed | oplus/tests/test_idf_manager.py:44 | finds a record of the class carrying the name, and returns None exactly when the name is free in the class |
| RecordTable.UniqueNamed | oplus/tests/test_idf_manager.py:41-50 | in a table with unique names, a class and a name determine at most one record |
| RecordTable.LinkTargetUnique | oplus/tests/test_idf_manager.py:70-72 | a reference slot points at no more than one record |
| RecordTable.LinkFindsTarget | oplus/tests/test_idf_manager.py:72 | resolving a linked slot's value finds the record it links to |
| RecordTable.LinksMembers | oplus/tests/test_idf_manager.py:58-79 | the scanned pointing-link list of a record holds exactly the pairs (record, slot) whose reference slot names it |
| RecordTable.LinksOnce | oplus/tests/test_idf_manager.py:69-79 | the scan lists the links in strictly increasing (record, slot) order, so no pointing slot is listed twice |
| RecordTable.PointingLinksByIndex | oplus/tests/test_idf_manager.py:81-83 | each scanned link records the slot of the target it refers through, always the name slot 0; filtering by pointed index 0 therefore keeps every link, and filtering by any other index keeps none |
| IdfManager.Manager.GetPointingLinks | oplus/tests/test_idf_manager.py:58-83 | returns the scanned pointing links, filtered by the pointed index when one is given, as (record, slot) pairs in document order and each pair once; outside a batch each such slot reads back, through get_value, as the target record |
| IdfManager.Manager.ScanLinks | oplus/tests/test_idf_manager.py:69-79 | scanning every record's slots in order collects exactly the scanned pointing links of the record, as (record, slot) pairs |
| IdfManager.Manager.MirroredOnce | oplus/tests/test_idf_manager.py:69-79 | links listed in strictly increasing order over distinct records give pairwise distinct (record, slot) pairs |
| IdfManager.Manager.MirroredRead | oplus/tests/test_idf_manager.py:72 | outside a batch, every collected pointing slot reads back through get_value as the pointed record |
| IdfManager.Manager.GetValue | oplus/tests/test_idf_manager.py:157-199 | get_value (also read at test line 72) reports UnknownSlot exactly when the designator selects no slot, and nothing exactly when the slot is empty. A record is returned only for a reference slot, and it is one of the manager's records, of the slot's target class, whose name is the slot's value. Text is returned for any other value, and for a reference slot only when no record of the target class has that name |
| IdfManager.Manager.LinkReadsTarget | oplus/tests/test_idf_manager.py:72 | outside a batch, get_value on a linked slot yields the record it links to |
| IdfManager.Manager.GetRawValue | oplus/tests/test_idf_manager.py:190 | get_raw_value yields the stored value of the designated slot, and UnknownSlot exactly when the designator selects no slot |
| IdfManager.FirstUnresolved | oplus/tests/test_idf_manager.py:101-116 | finds a field whose reference would dangle, and reports none exactly when every field resolves |
| IdfManager.Manager.AddObject | oplus/tests/test_idf_manager.py:94-116 | add_object succeeds exactly when the record is admissible (outside a batch) or well shaped (inside one). A success appends a fresh record owned by the manager, holding the given class and fields; outside a batch nothing points at it. A name already taken in the class is refused outside a batch with BrokenIdf(DuplicateName), and a failure changes nothing |
| RecordTable.AddKeepsConsistent | oplus/tests/test_idf_manager.py:52-56 | appending an admissible record keeps the table consistent |
| RecordTable.AddedIsUnpointed | oplus/tests/test_idf_manager.py:135-141 | a newly added record has no pointing links |
| RecordTable.DuplicateBreaksUnique | oplus/tests/test_idf_manager.py:118-133 | a record whose name is taken in its class breaks name uniqueness once appended |
| IdfManager.Manager.BeginConstruction | oplus/tests/test_idf_manager.py:122 | opening a batch changes no record; the outermost batch snapshots the records and their table |
| IdfManager.Manager.EndConstruction | oplus/tests/test_idf_manager.py:118-133 | closing the outermost batch keeps a consistent document. It reports BrokenIdf(BatchInconsistent) exactly when the document is inconsistent and the batch was not aborted. An inconsistent or aborted batch is rolled back to the snapshot; closing an inner batch changes nothing |
| IdfManager.Manager.Rollback | oplus/tests/test_idf_manager.py:121-133 | restores exactly the snapshot's records and field values |
| IdfManager.Manager.Load | oplus/tests/test_idf_manager.py:91-92 | loading a parsed document in one batch accepts it exactly when it is consistent, then holds exactly its rows; otherwise the manager stays empty |
| IdfManager.Manager.AddRows | oplus/tests/test_idf_manager.py:91-92 | inside the loading batch, appends every row of the document when all rows are well shaped, and fails with BrokenIdf exactly when one is not |
| IdfScenarios.AddDuplicateInBatch | oplus/tests/test_idf_manager.py:118-133 | adding a duplicate inside a batch is accepted; closing the batch reports BrokenIdf and leaves the document as before |
| IdfManager.Manager.RemoveObject | oplus/tests/test_idf_manager.py:143-157 | with raiseIfPointed, removing a record that something points at reports IsPointed and changes nothing. Otherwise the record leaves the document, every slot that pointed at it is cleared, and the new table is exactly `Removed` of the old one |
| IdfManager.Manager.ClearLinksTo | oplus/tests/test_idf_manager.py:154-157 | each record's fields become its old fields with every slot that pointed at the removed record cleared |
| IdfManager.Manager.DropAt | oplus/tests/test_idf_manager.py:154 | dropping the record's row leaves the others, in order, and the table is `Removed` of the old one |
| RecordTable.RemoveKeepsConsistent | oplus/tests/test_idf_manager.py:149-157 | removing a record and clearing its referrers leaves nothing dangling and names unique |
| RecordTable.RemovedNameGone | oplus/tests/test_idf_manager.py:135-141 | after removal no record of the class carries the removed record's name |
| RecordTable.RemoveUnpointed | oplus/tests/test_idf_manager.py:135-141 | removing a record nothing points at drops its row and changes no other record |
| IdfScenarios.AddThenRemove | oplus/tests/test_idf_manager.py:135-141 | adding an admissible record and removing it restores the document, and the returned filter of its class by its name is then empty |
| IdfScenarios.AddAndRemove | oplus/tests/test_idf_manager.py:138-140 | adding an admissible record and removing it leaves the manager's records and table as they were |
| IdfScenarios.RemovePointed | oplus/tests/test_idf_manager.py:149-157 | returns exactly the record's pointing links before the removal, as (record, slot) pairs; after removing the record without protection each of those slots is empty and get_value on it yields nothing |
| IdfManager.Manager.SetValue | oplus/tests/test_idf_manager.py:175-190 | set_value succeeds exactly when the slot exists and, outside a batch, the value is admissible. The name must be free in the class; a reference must resolve. The new table is `Rename` for the name slot and `Assigned` for any other slot. After a rename every previously pointing slot holds the new name. A failure changes nothing |
| IdfManager.Manager.RenameTo | oplus/tests/test_idf_manager.py:183-190 | renaming rewrites the name slot and exactly the slots that pointed at the record |
| IdfManager.Manager.AssignSlot | oplus/tests/test_idf_manager.py:166 | storing into a non-name slot changes that slot of that record only |
| IdfManager.Manager.OverwriteSlots | oplus/tests/test_idf_manager.py:183-190 | writes the value into exactly the listed slots and leaves every other slot as it was |
| RecordTable.SetFieldKeepsConsistent | oplus/tests/test_idf_manager.py:159-190 | an admissible set_value, renaming or assigning, keeps the table consistent |
| RecordTable.RenameKeepsConsistent | oplus/tests/test_idf_manager.py:175-190 | renaming to a name free in the class, with its referrers rewritten, keeps names unique and references resolved |
| RecordTable.RenameKeepsLinks | oplus/tests/test_idf_manager.py:182-190 | after a rename to a non-empty name, exactly the same slots point at the record as before |
| RecordTable.RenameRewritesLinks | oplus/tests/test_idf_manager.py:189-190 | every slot that pointed at the record holds the new name after the rename |
| RecordTable.RenameRetiresOldName | oplus/tests/test_idf_manager.py:183-186 | after a rename the record's name is the new value and no slot that pointed at it still holds the old name |
| IdfScenarios.RenameRecord | oplus/tests/test_idf_manager.py:175-190 | renaming through the name slot (named in any case) makes get_raw_value of the name the new value, and get_value too when the name slot is not a reference. It returns exactly the record's pointing links before the rename, and each of those slots' raw value is then the new name |
| IdfScenarios.RenameCollected | oplus/tests/test_idf_manager.py:182-190 | given the pointing links collected before the rename, the rename makes each of those slots, and the record's name, read back as the new name |
| IdfManager.Manager.SetValueToNewObject | oplus/tests/test_idf_manager.py:159-173 | setting a reference slot to a record definition adds that record and points the slot at it. It succeeds exactly when the slot is a non-name reference slot to that class, the definition has a name, and the record is admissible. Outside a batch, get_value on the slot then yields the new record |
| RecordTable.PointAtAdded | oplus/tests/test_idf_manager.py:166-173 | after adding a named record, a slot of its class may be set to its name, and that slot then links to it |
| RecordTable.AssignKeepsConsistent | oplus/tests/test_idf_manager.py:166 | assigning a resolvable value to a non-name slot keeps the table consistent |
| IdfManager.Manager.Copy | oplus/tests/test_idf_manager.py:192-201 | copy appends a fresh record of the same class with the same field count. Its name differs from the original's and is unused in the class, fields 1 onwards are equal, and outside a batch nothing points at it. It always succeeds inside a batch, and outside one when the name slot is not a reference |
| IdfManager.CopyName | oplus/tests/test_idf_manager.py:196 | each candidate name for a copy is one character longer than the previous one |
| IdfManager.UnusedCopySuffix | oplus/tests/test_idf_manager.py:196-201 | finds the fewest hyphens, at least one, whose copy name is unused in the class: that name is free and every shorter candidate is taken |
| IdfManager.Manager.CopyFields | oplus/tests/test_idf_manager.py:196-201 | the copy's body has the original's field count, a name that differs from the original's and is unused in the class, and the original's values in slots 1 onwards; outside a batch it is admissible whenever the name slot is not a reference |
| RecordTable.CopyAdmissible | oplus/tests/test_idf_manager.py:196 | a record's values under a name unused in its class form an admissible new record, provided the name slot is not a reference |
| IdfManager.Manager.ReplaceValues | oplus/tests/test_idf_manager.py:203-237 | replace_values succeeds exactly when the body is admissible (outside a batch) or well shaped. The record's fields become the body with the name slot kept, so the record has the body's field count, and at least the name slot. The table is `Replaced` of the old one. The pointing links are unchanged when the class does not refer to itself. A failure changes nothing |
| RecordTable.KeepIdentity | oplus/tests/test_idf_manager.py:220-237 | the kept body has the replacement's field count (at least the name slot), the current name in slot 0 and the replacement's values elsewhere |
| RecordTable.ReplaceKeepsConsistent | oplus/tests/test_idf_manager.py:203-237 | an admissible replacement keeps the table consistent |
| RecordTable.ReplaceKeepsPointing | oplus/tests/test_idf_manager.py:207-224 | replacing a record's body does not change which other records point at it. When the record's class has no reference slot aimed at its own class, its pointing-link list is unchanged |

## Left out

- File loading and the EnergyPlus version loop (oplus/tests/test_idf_manager.py:26-34, 90-92) are left out. `Load` takes an already parsed document, and the schema is a value given to the manager's constructor.
- The IDF text grammar (oplus/tests/test_idf_manager.py:10-16, comments after `!-`) is left out. Records arrive as (class, field values) pairs.
- The dictionary is reduced to slot names, minimum and maximum field counts, and a map from reference slots to their target class.
  - Field types, defaults and extensible groups are not modelled.
  - The type check that would raise a type mismatch on `set_value` is not modelled.
  - A reference slot names exactly one target class.
- Numeric and physical validation of floating-point fields (oplus/tests/test_idf_manager.py:107-115) is not modelled.
  - In the model, what makes the Material of lines 101-133 broken is the only thing that can: its name duplicates a Material already in the document.
- The copy naming scheme is the original name plus as many hyphens as make it unused. Only the promised properties of the name are claimed: it differs from the original's and is unique in its class.
- Slot-name case folding covers ASCII letters only.
- Every class is treated as named: slot 0 must be unique within its class outside a batch (`Unique`, `Taken`, `CanAdd`, `CanRename`). Classes whose first field is not a name and may repeat, such as the `*` key of `Output:Variable`, are not distinguished. So a second such record is refused with BrokenIdf(DuplicateName), and `Load` rejects a document with two of them.
- `IdfSchema.WellFormed` is a premise of the manager's `Valid()`.
  - It says that a class whose name slot is itself a reference (ZoneHVAC:EquipmentConnections, test line 64) is never the target of a reference.
  - So a rename rewrites one level of referrers and never cascades further.
- Inside a batch, a rename still rewrites the referrers at once. Only the uniqueness and resolution checks wait for the close.
- IdfManager.Manager.EndConstruction: the aborted flag stands for leaving the with-block by an exception. That exception is the caller's to propagate, so an aborted close reports no error of its own.
- IdfManager.Manager.SetValueToNewObject refuses the name slot, which would make the new record's name a rename of the record being set.
- IdfManager.Manager.GetRawValue, GetValue, SetValue and SetValueToNewObject report UnknownSlot for a slot past the record's current field count. This is a modelling choice: the suite never touches such a slot. Writing a trailing field that the class defines but the record has not filled is therefore refused rather than extending the record.
- IdfManager.Manager.Rollback: restoring the snapshot when a batch closes broken is a modelling choice. The suite (test lines 118-133) asserts only the error that the close raises, not the document afterwards.
- IdfManager.Manager.BeginConstruction and EndConstruction keep a nesting depth, and only the outermost close checks the document. The suite opens one batch at a time, so nesting is a modelling choice.
- IdfManager.Manager.Load checks the loaded document as one batch. The suite only loads files it expects to be consistent (test lines 90-92).
- IdfManager.Manager.RemoveObject takes `raiseIfPointed` as an explicit argument. Python's default for `raise_if_pointed` has no Dafny counterpart; test line 140 calls `remove_object` without the argument, and IdfScenarios.AddThenRemove passes `true` there.
- A removed record keeps its owner: `owner` is constant, and the model does not capture detaching a removed record from its manager.
- The engine's class-indexed lookup tables and stored link index are not modelled. The pointing links are recomputed by scanning, which is the index's defining property.
- Python's `._` indirection and the unittest scaffolding are not modelled. `len(record)` (test line 237) is the record's field count `|fields|`, as in IdfManager.Manager.ReplaceValues.
- The counts the tests read off the example file (six surfaces, nine links; test lines 61-83) depend on that file's contents and are not modelled.
