/**
 * The manager's documented behaviour as client procedures: each one performs
 * the steps of one use of the manager and states, in its postcondition, the
 * outcome those steps are promised to have.
 */
module IdfScenarios {
  import opened Wrappers
  import opened SlotNames
  import opened IdfSchema
  import opened RecordTable
  import opened IdfManager

  /**
   * Adding an admissible record and removing it again leaves the document as it
   * was, and filtering the class by the record's name then finds nothing.
   */
  method AddThenRemove(m: Manager, cls: string, fields: seq<Value>, nameSlot: string) returns (found: seq<Record>)
    requires m.Valid() && m.depth == 0 && CanAdd(m.schema, m.View(), Rec(cls, fields)) && fields[0] != Empty
    requires SlotIndex(m.schema.classes[cls].slotNames, nameSlot) == Some(0)
    modifies m, m.records
    ensures m.Valid() && m.records == old(m.records) && m.View() == old(m.View())
    ensures found == Filter(m.schema, m.FilterByRef(cls), nameSlot, fields[0])
    ensures found == []
  {
    AddAndRemove(m, cls, fields);
    found := Filter(m.schema, m.FilterByRef(cls), nameSlot, fields[0]);
    m.NoneNamed(cls, nameSlot, fields[0]);
  }

  /** The add and the remove of AddThenRemove: the document ends as it began. */
  method AddAndRemove(m: Manager, cls: string, fields: seq<Value>)
    requires m.Valid() && m.depth == 0 && CanAdd(m.schema, m.View(), Rec(cls, fields))
    modifies m, m.records
    ensures m.Valid() && m.depth == 0 && m.records == old(m.records) && m.View() == old(m.View())
  {
    ghost var before := m.View();
    var added := m.AddObject(cls, fields);
    var r := added.value;
    var removed := m.RemoveObject(r, true);
    assert removed.Ok?;
    RemoveUnpointed(m.schema, before + [Rec(cls, fields)], |before|);
    assert (before + [Rec(cls, fields)])[..|before|] == before;
  }

  /**
   * Inside a batch a record whose name is taken is accepted, and closing the
   * batch reports the document broken and restores it.
   */
  method AddDuplicateInBatch(m: Manager, cls: string, fields: seq<Value>) returns (res: Result<(), Error>)
    requires m.Valid() && m.depth == 0 && CountOk(m.schema, cls, |fields|) && Taken(m.View(), cls, fields[0])
    modifies m, m.records
    ensures m.Valid() && m.depth == 0 && m.records == old(m.records) && m.View() == old(m.View())
    ensures res == Err(BrokenIdf(BatchInconsistent))
  {
    m.BeginConstruction();
    var added := m.AddObject(cls, fields);
    assert added.Ok?;
    DuplicateBreaksUnique(old(m.View()), Rec(cls, fields));
    res := m.EndConstruction(false);
  }

  /**
   * Removing a record without protection clears every slot that pointed at it:
   * each of those slots then reads as nothing.
   */
  method RemovePointed(m: Manager, r: Record) returns (links: seq<(Record, nat)>)
    requires m.Valid() && r in m.records
    modifies m, m.records
    ensures m.Valid()
    ensures var ls := old(Links(m.schema, m.View(), m.Position(r)));
      |links| == |ls| && forall k :: 0 <= k < |ls| ==> ls[k].rec < |old(m.records)| && links[k] == (old(m.records)[ls[k].rec], ls[k].slot)
    ensures forall k :: 0 <= k < |links| ==> links[k].1 < |links[k].0.fields| && links[k].0.fields[links[k].1] == Empty
    ensures forall k :: 0 <= k < |links| ==> m.GetValue(links[k].0, At(links[k].1)) == Ok(Nothing)
  {
    ghost var t := m.Position(r);
    ghost var rs := m.records;
    links := m.GetPointingLinks(r, None);
    ghost var ls := Links(m.schema, m.View(), t);
    assert forall k :: 0 <= k < |links| ==> ls[k] in ls && links[k] == (rs[ls[k].rec], ls[k].slot);
    var removed := m.RemoveObject(r, false);
    forall k | 0 <= k < |links| ensures links[k].1 < |links[k].0.fields| && links[k].0.fields[links[k].1] == Empty {
      assert Holds(rs, ls[k], Empty);
    }
  }

  /**
   * Renaming a record through its name slot: the name reads back as the new
   * value and every slot that pointed at the record now holds the new name.
   */
  method RenameRecord(m: Manager, r: Record, nameSlot: string, x: string) returns (links: seq<(Record, nat)>)
    requires m.Valid() && m.depth == 0 && r in m.records && r.className in m.schema.classes
    requires SlotIndex(m.schema.classes[r.className].slotNames, nameSlot) == Some(0)
    requires CanRename(m.schema, m.View(), m.Position(r), Str(x))
    modifies m.records
    ensures m.Valid() && r.fields[0] == Str(x)
    ensures m.Mirrors(links, old(Links(m.schema, m.View(), m.Position(r))))
    ensures m.GetRawValue(r, Called(nameSlot)) == Ok(Str(x))
    ensures !IsPointer(m.schema, r.className, 0) ==> m.GetValue(r, Called(nameSlot)) == Ok(Text(x))
    ensures forall k :: 0 <= k < |links| ==> m.GetRawValue(links[k].0, At(links[k].1)) == Ok(Str(x))
  {
    links := m.GetPointingLinks(r, None);
    RenameCollected(m, r, nameSlot, x, links);
  }

  /** The rename itself, once the links to r have been collected. */
  method RenameCollected(m: Manager, r: Record, nameSlot: string, x: string, links: seq<(Record, nat)>)
    requires m.Valid() && m.depth == 0 && r in m.records && r.className in m.schema.classes
    requires SlotIndex(m.schema.classes[r.className].slotNames, nameSlot) == Some(0)
    requires CanRename(m.schema, m.View(), m.Position(r), Str(x))
    requires m.Mirrors(links, Links(m.schema, m.View(), m.Position(r)))
    modifies m.records
    ensures m.Valid() && r.fields[0] == Str(x)
    ensures m.GetRawValue(r, Called(nameSlot)) == Ok(Str(x))
    ensures !IsPointer(m.schema, r.className, 0) ==> m.GetValue(r, Called(nameSlot)) == Ok(Text(x))
    ensures forall k :: 0 <= k < |links| ==> m.GetRawValue(links[k].0, At(links[k].1)) == Ok(Str(x))
  {
    ghost var t := m.Position(r);
    ghost var rs := m.records;
    assert |r.fields| >= 1 by { assert CountOk(m.schema, m.View()[t].cls, |m.View()[t].fields|); }
    ghost var ls := Links(m.schema, m.View(), t);
    assert forall k :: 0 <= k < |links| ==> ls[k] in ls && links[k] == (rs[ls[k].rec], ls[k].slot);
    var renamed := m.SetValue(r, Called(nameSlot), Str(x));
    assert m.View()[t].fields == r.fields;
    forall k | 0 <= k < |links| ensures m.GetRawValue(links[k].0, At(links[k].1)) == Ok(Str(x)) {
      assert Holds(m.records, ls[k], Str(x));
    }
  }
}
