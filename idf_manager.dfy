/**
 * The IDF manager: owns the records of one IDF document, keeps the record graph
 * consistent (known classes, admissible field counts, unique names per class,
 * every reference resolvable), propagates renames to referrers, clears
 * references to a removed record, and defers the integrity checks while a
 * batch ("under construction") is open.
 *
 * Records are heap objects whose fields the manager updates in place; the
 * manager is proved to follow the table functions of module RecordTable
 * through View(), the table of (class, fields) rows its records currently hold.
 */
module IdfManager {
  import opened Wrappers
  import opened SlotNames
  import opened IdfSchema
  import opened RecordTable

  /** Why a document or an operation would break the record graph. */
  datatype Broken =
    | UnknownClass
    | BadFieldCount
    | DuplicateName
    | UnresolvedReference(slot: nat)
    | NotAReferenceSlot
    | WrongTargetClass
    | BatchInconsistent

  datatype Error =
    | BrokenIdf(why: Broken)
    | IsPointed
    | ZeroOrMultipleResults
    | UnknownSlot

  /** A slot is designated by its position or by its (case-insensitive) name. */
  datatype SlotRef = At(index: nat) | Called(name: string)

  class Record {
    const className: string
    const owner: Manager
    var fields: seq<Value>

    constructor (m: Manager, cls: string, fs: seq<Value>)
      ensures owner == m && className == cls && fields == fs
    {
      owner := m;
      className := cls;
      fields := fs;
    }
  }

  /** What get_value yields: nothing, a plain value, or the record a reference resolves to. */
  datatype Got = Nothing | Text(text: string) | Points(target: Record)

  predicate Distinct(rs: seq<Record>) {
    forall a, b :: 0 <= a < |rs| && 0 <= b < |rs| && a != b ==> rs[a] != rs[b]
  }

  /** The position of r among rs. */
  function IndexIn(rs: seq<Record>, r: Record): (k: nat)
    requires r in rs
    ensures k < |rs| && rs[k] == r
  {
    if rs[0] == r then 0 else 1 + IndexIn(rs[1..], r)
  }

  /** The position a slot designator selects in a record of class `cls` holding n fields. */
  function SlotPosition(sc: Schema, cls: string, n: nat, slot: SlotRef): (p: Option<nat>)
    ensures p.Some? ==> p.value < n
    ensures slot.At? ==> (p.Some? <==> slot.index < n) && (p.Some? ==> p.value == slot.index)
  {
    match slot
    case At(i) => if i < n then Some(i) else None
    case Called(name) =>
      if cls !in sc.classes then None
      else
        match SlotIndex(sc.classes[cls].slotNames, name)
        case None => None
        case Some(i) => if i < n then Some(i) else None
  }

  /** Naming a slot with different letter case selects the same position. */
  lemma SlotPositionIgnoresCase(sc: Schema, cls: string, n: nat, a: string, b: string)
    requires Lower(a) == Lower(b)
    ensures SlotPosition(sc, cls, n, Called(a)) == SlotPosition(sc, cls, n, Called(b))
  {
    if cls in sc.classes {
      SlotIndexIgnoresCase(sc.classes[cls].slotNames, a, b);
    }
  }

  /** Slot `l.slot` of the record at position `l.rec` of rs currently holds v. */
  ghost predicate Holds(rs: seq<Record>, l: Link, v: Value)
    reads rs
  {
    l.rec < |rs| && l.slot < |rs[l.rec].fields| && rs[l.rec].fields[l.slot] == v
  }

  /** The first field of `fields` whose value would dangle in tbl, if any. */
  method FirstUnresolved(sc: Schema, tbl: Table, cls: string, fields: seq<Value>) returns (bad: Option<nat>)
    ensures bad.None? <==> forall i :: 0 <= i < |fields| ==> Resolvable(sc, tbl, cls, i, fields[i])
    ensures bad.Some? ==> bad.value < |fields| && !Resolvable(sc, tbl, cls, bad.value, fields[bad.value])
  {
    var i := 0;
    while i < |fields|
      invariant 0 <= i <= |fields|
      invariant forall k :: 0 <= k < i ==> Resolvable(sc, tbl, cls, k, fields[k])
    {
      if fields[i] != Empty && IsPointer(sc, cls, i) && FindNamed(tbl, Target(sc, cls, i), fields[i]).None? {
        return Some(i);
      }
      i := i + 1;
    }
    return None;
  }

  /** The (class, fields) rows that rs currently hold. */
  function Rows(rs: seq<Record>): (tbl: Table)
    reads rs
    ensures |tbl| == |rs|
    ensures forall k :: 0 <= k < |rs| ==> tbl[k] == Rec(rs[k].className, rs[k].fields)
  {
    seq(|rs|, k reads rs requires 0 <= k < |rs| => Rec(rs[k].className, rs[k].fields))
  }

  /** The name tried at the k-th attempt to name a copy of a record called `base`. */
  function CopyName(base: string, k: nat): (v: Value)
    ensures v.Str? && NameLength(v) == |base| + k
  {
    Str(base + seq(k, _ => '-'))
  }

  /** The fewest hyphens, at least one, that appended to `base` give a name unused in class `cls`. */
  method UnusedCopySuffix(tbl: Table, cls: string, base: string) returns (k: nat)
    ensures k >= 1 && !Taken(tbl, cls, CopyName(base, k))
    ensures forall j :: 1 <= j < k ==> Taken(tbl, cls, CopyName(base, j))
  {
    k := 1;
    while FindNamed(tbl, cls, CopyName(base, k)).Some?
      invariant k >= 1
      invariant forall j :: 1 <= j < k ==> Taken(tbl, cls, CopyName(base, j))
      decreases MaxNameLength(tbl) + 1 - |base| - k
    {
      var q := FindNamed(tbl, cls, CopyName(base, k)).value;
      assert NameLength(Name(tbl[q])) == |base| + k;
      k := k + 1;
    }
  }

  // ---------------------------------------------------------------------------
  // Querysets: ordered selections of records

  /** filter_by_ref: the records of class `cls`, in document order. */
  function OfClass(rs: seq<Record>, cls: string): (q: seq<Record>)
    ensures forall k :: 0 <= k < |q| ==> q[k] in rs && q[k].className == cls
    ensures forall k :: 0 <= k < |rs| && rs[k].className == cls ==> rs[k] in q
    ensures Distinct(rs) ==> Distinct(q)
  {
    if rs == [] then []
    else
      var rest := OfClass(rs[1..], cls);
      assert forall x :: x in rs[1..] ==> x in rs;
      if rs[0].className == cls then [rs[0]] + rest else rest
  }

  /** The record's slot designated by `slotName` holds v. */
  predicate HasValue(sc: Schema, x: Record, slotName: string, v: Value)
    reads x
  {
    var p := SlotPosition(sc, x.className, |x.fields|, Called(slotName));
    p.Some? && x.fields[p.value] == v
  }

  /** Queryset.filter: the records of q whose slot `slotName` holds v, in order. */
  function Filter(sc: Schema, q: seq<Record>, slotName: string, v: Value): (r: seq<Record>)
    reads q
    ensures forall k :: 0 <= k < |r| ==> r[k] in q && HasValue(sc, r[k], slotName, v)
    ensures forall k :: 0 <= k < |q| && HasValue(sc, q[k], slotName, v) ==> q[k] in r
    ensures Distinct(q) ==> Distinct(r)
  {
    if q == [] then []
    else
      var rest := Filter(sc, q[1..], slotName, v);
      assert forall x :: x in q[1..] ==> x in q;
      if HasValue(sc, q[0], slotName, v) then [q[0]] + rest else rest
  }

  /** A selection of distinct records that holds only r holds it once. */
  lemma SingleRecord(q: seq<Record>, r: Record)
    requires Distinct(q) && r in q && forall j :: 0 <= j < |q| ==> q[j] == r
    ensures q == [r]
  {
    if |q| >= 2 {
      DistinctAt(q, 0, 1);
      assert false;
    }
  }

  lemma DistinctAt(q: seq<Record>, a: int, b: int)
    requires Distinct(q) && 0 <= a < |q| && 0 <= b < |q| && a != b
    ensures q[a] != q[b]
  {
  }

  /** Queryset.one: the single record of q, an error when there are zero or several. */
  function One(q: seq<Record>): (r: Result<Record, Error>)
    ensures r.Ok? <==> |q| == 1
    ensures r.Ok? ==> r.value in q
    ensures r.Err? ==> r.error == ZeroOrMultipleResults
  {
    if |q| == 1 then Ok(q[0]) else Err(ZeroOrMultipleResults)
  }

  class Manager {
    const schema: Schema
    /** The records of the document, in document order. */
    var records: seq<Record>
    /** How many batches are open. */
    var depth: nat
    /** At the outermost open batch: the table and the records as they were when it opened. */
    var saved: Table
    var savedRecords: seq<Record>

    /** The records as a table of (class, fields) rows. */
    function View(): (tbl: Table)
      reads this`records, records
      ensures |tbl| == |records|
      ensures forall k :: 0 <= k < |records| ==> tbl[k] == Rec(records[k].className, records[k].fields)
    {
      Rows(records)
    }

    ghost predicate Valid()
      reads this, records
    {
      WellFormed(schema)
      && Distinct(records)
      && (forall r :: r in records ==> r.owner == this)
      && Shaped(schema, View())
      && (depth == 0 ==> Consistent(schema, View()))
      && (depth > 0 ==>
            Consistent(schema, saved) && |saved| == |savedRecords| && Distinct(savedRecords)
            && (forall k :: 0 <= k < |saved| ==> saved[k].cls == savedRecords[k].className)
            && (forall r :: r in savedRecords ==> r.owner == this))
    }

    /** Position of r in the document. */
    function Position(r: Record): (t: nat)
      reads this
      requires r in records
      ensures t < |records| && records[t] == r
    {
      IndexIn(records, r)
    }

    constructor (sc: Schema)
      requires WellFormed(sc)
      ensures Valid() && schema == sc && records == [] && depth == 0
    {
      schema := sc;
      records := [];
      depth := 0;
      saved := [];
      savedRecords := [];
    }

    // -------------------------------------------------------------------------
    // Queries

    function FilterByRef(cls: string): (q: seq<Record>)
      reads this
      ensures forall k :: 0 <= k < |q| ==> q[k] in records && q[k].className == cls
      ensures forall k :: 0 <= k < |records| && records[k].className == cls ==> records[k] in q
      ensures Distinct(records) ==> Distinct(q)
    {
      OfClass(records, cls)
    }

    /** get_raw_value: the stored value of a slot. */
    function GetRawValue(r: Record, slot: SlotRef): (g: Result<Value, Error>)
      reads r
      ensures SlotPosition(schema, r.className, |r.fields|, slot).None? <==> g == Err(UnknownSlot)
      ensures g.Ok? ==> g.value == r.fields[SlotPosition(schema, r.className, |r.fields|, slot).value]
    {
      match SlotPosition(schema, r.className, |r.fields|, slot)
      case None => Err(UnknownSlot)
      case Some(i) => Ok(r.fields[i])
    }

    /**
     * get_value: the value of a slot, with a reference slot resolved to the
     * record of the target class carrying that name. A reference that names no
     * record (possible only inside a batch) reads back as its text.
     */
    function GetValue(r: Record, slot: SlotRef): (g: Result<Got, Error>)
      reads this, records, r
      ensures var p := SlotPosition(schema, r.className, |r.fields|, slot);
        (g.Err? <==> p.None?) && (g.Err? ==> g.error == UnknownSlot)
      ensures var p := SlotPosition(schema, r.className, |r.fields|, slot);
        g == Ok(Nothing) <==> p.Some? && r.fields[p.value] == Empty
      ensures var p := SlotPosition(schema, r.className, |r.fields|, slot);
        g.Ok? && g.value.Text? ==>
          p.Some? && r.fields[p.value] == Str(g.value.text)
          && (IsPointer(schema, r.className, p.value) ==> !Taken(View(), Target(schema, r.className, p.value), r.fields[p.value]))
      ensures var p := SlotPosition(schema, r.className, |r.fields|, slot);
        g.Ok? && g.value.Points? ==>
          p.Some? && IsPointer(schema, r.className, p.value) && g.value.target in records
          && g.value.target.className == Target(schema, r.className, p.value)
          && |g.value.target.fields| > 0 && g.value.target.fields[0] == r.fields[p.value]
    {
      match SlotPosition(schema, r.className, |r.fields|, slot)
      case None => Err(UnknownSlot)
      case Some(i) =>
        var v := r.fields[i];
        if v.Empty? then Ok(Nothing)
        else if IsPointer(schema, r.className, i) then
          match FindNamed(View(), Target(schema, r.className, i), v)
          case Some(q) => Ok(Points(records[q]))
          case None => Ok(Text(v.text))
        else Ok(Text(v.text))
    }

    /** Outside a batch, a reference slot reads back as the record it links to. */
    lemma LinkReadsTarget(s: nat, i: nat, t: nat)
      requires Valid() && depth == 0 && IsLink(schema, View(), s, i, t)
      ensures GetValue(records[s], At(i)) == Ok(Points(records[t]))
    {
      LinkFindsTarget(schema, View(), s, i, t);
    }

    /** Outside a batch, filtering a class by its name slot finds the one record of that name. */
    lemma OneFindsNamed(r: Record, slotName: string)
      requires Valid() && depth == 0 && r in records && r.fields[0] != Empty
      requires r.className in schema.classes && SlotIndex(schema.classes[r.className].slotNames, slotName) == Some(0)
      ensures One(Filter(schema, FilterByRef(r.className), slotName, r.fields[0])) == Ok(r)
    {
      var q := Filter(schema, FilterByRef(r.className), slotName, r.fields[0]);
      var t := Position(r);
      assert View()[t].fields == r.fields;
      assert r in q;
      forall j | 0 <= j < |q| ensures q[j] == r {
        var k :| 0 <= k < |records| && records[k] == q[j];
        assert Named(View(), k, r.className, r.fields[0]);
        assert Named(View(), t, r.className, r.fields[0]);
        UniqueNamed(View(), k, t, r.className, r.fields[0]);
      }
      SingleRecord(q, r);
    }

    /** Outside a batch, filtering a class by its name slot finds nothing when the name is free. */
    lemma NoneNamed(cls: string, slotName: string, x: Value)
      requires Valid() && cls in schema.classes && SlotIndex(schema.classes[cls].slotNames, slotName) == Some(0)
      requires x != Empty && !Taken(View(), cls, x)
      ensures Filter(schema, FilterByRef(cls), slotName, x) == []
    {
      var q := Filter(schema, FilterByRef(cls), slotName, x);
      if q != [] {
        var k :| 0 <= k < |records| && records[k] == q[0];
        assert Named(View(), k, cls, x);
      }
    }

    // -------------------------------------------------------------------------
    // Adding

    /**
     * add_object: a new record of class `cls`. Outside a batch the record must be
     * admissible (CanAdd); inside one only its shape is checked.
     */
    method AddObject(cls: string, fields: seq<Value>) returns (res: Result<Record, Error>)
      requires Valid()
      modifies this
      ensures Valid() && depth == old(depth) && saved == old(saved) && savedRecords == old(savedRecords)
      ensures res.Ok? <==>
        if depth == 0 then CanAdd(schema, old(View()), Rec(cls, fields)) else CountOk(schema, cls, |fields|)
      ensures res.Ok? ==>
        fresh(res.value) && res.value.owner == this && res.value.className == cls && res.value.fields == fields
        && records == old(records) + [res.value] && View() == old(View()) + [Rec(cls, fields)]
      ensures res.Ok? && depth == 0 ==> Links(schema, View(), |records| - 1) == []
      ensures res.Err? ==> records == old(records) && res.error.BrokenIdf?
      ensures res.Err? && depth == 0 && CountOk(schema, cls, |fields|) && Taken(old(View()), cls, Name(Rec(cls, fields)))
        ==> res == Err(BrokenIdf(DuplicateName))
    {
      if cls !in schema.classes {
        return Err(BrokenIdf(UnknownClass));
      }
      if !CountOk(schema, cls, |fields|) {
        return Err(BrokenIdf(BadFieldCount));
      }
      var tbl := View();
      if depth == 0 {
        if FindNamed(tbl, cls, fields[0]).Some? {
          return Err(BrokenIdf(DuplicateName));
        }
        var bad := FirstUnresolved(schema, tbl, cls, fields);
        if bad.Some? {
          return Err(BrokenIdf(UnresolvedReference(bad.value)));
        }
        assert CanAdd(schema, tbl, Rec(cls, fields));
        AddKeepsConsistent(schema, tbl, Rec(cls, fields));
        AddedIsUnpointed(schema, tbl, Rec(cls, fields));
      }
      var r := new Record(this, cls, fields);
      records := records + [r];
      assert View() == tbl + [Rec(cls, fields)];
      return Ok(r);
    }

    // -------------------------------------------------------------------------
    // Pointing links

    /** links mirrors ls: the k-th pair is the record at ls[k].rec and the slot ls[k].slot. */
    ghost predicate Mirrors(links: seq<(Record, nat)>, ls: seq<Link>)
      reads this
    {
      |links| == |ls|
      && forall k :: 0 <= k < |ls| ==> ls[k].rec < |records| && links[k] == (records[ls[k].rec], ls[k].slot)
    }

    /**
     * get_pointing_links_l: every (record, slot) whose slot refers to r, in document
     * order; with a pointed index, only links to that slot of r (records are only
     * ever referred to through their name slot, 0).
     */
    method GetPointingLinks(r: Record, pointedIndex: Option<nat>) returns (links: seq<(Record, nat)>)
      requires Valid() && r in records
      ensures Mirrors(links, PointingLinks(schema, View(), Position(r), pointedIndex))
      ensures depth == 0 ==> forall k :: 0 <= k < |links| ==> GetValue(links[k].0, At(links[k].1)) == Ok(Points(r))
      ensures forall i, j :: 0 <= i < j < |links| ==> links[i] != links[j]
    {
      var t := IndexIn(records, r);
      PointingLinksByIndex(schema, View(), t, if pointedIndex.Some? then pointedIndex.value else NameSlot);
      if pointedIndex.Some? && pointedIndex.value != NameSlot {
        return [];
      }
      links := ScanLinks(t);
      LinksOnce(schema, View(), t);
      MirroredOnce(links, Links(schema, View(), t));
      if depth == 0 {
        MirroredRead(links, t);
      }
    }

    /** Scans every record's slots in order, collecting those that point at the record at t. */
    method ScanLinks(t: nat) returns (links: seq<(Record, nat)>)
      requires Valid() && t < |records|
      ensures Mirrors(links, Links(schema, View(), t))
    {
      ghost var tbl := View();
      var r := records[t];
      assert |r.fields| >= 1 by { assert CountOk(schema, tbl[t].cls, |tbl[t].fields|); }
      links := [];
      ghost var ls: seq<Link> := [];
      var s := 0;
      while s < |records|
        invariant 0 <= s <= |records|
        invariant ls == LinksUpTo(schema, tbl, t, s)
        invariant Mirrors(links, ls)
      {
        var fs := records[s].fields;
        var i := 0;
        while i < |fs|
          invariant 0 <= i <= |fs|
          invariant ls == LinksUpTo(schema, tbl, t, s) + SlotLinks(schema, tbl, t, s, i)
          invariant Mirrors(links, ls)
        {
          if IsPointer(schema, records[s].className, i) && Target(schema, records[s].className, i) == r.className
            && fs[i] != Empty && fs[i] == r.fields[NameSlot]
          {
            assert IsLink(schema, tbl, s, i, t);
            links := links + [(records[s], i)];
            ls := ls + [Link(s, i, NameSlot)];
          }
          i := i + 1;
        }
        s := s + 1;
      }
    }

    /** Links listed in strictly increasing order, mirrored over distinct records, give distinct pairs. */
    lemma MirroredOnce(links: seq<(Record, nat)>, ls: seq<Link>)
      requires Distinct(records) && Mirrors(links, ls) && Ascending(ls)
      ensures forall i, j :: 0 <= i < j < |links| ==> links[i] != links[j]
    {
      forall i, j | 0 <= i < j < |links| ensures links[i] != links[j] {
        assert Before(ls[i], ls[j]);
        if ls[i].rec != ls[j].rec {
          assert records[ls[i].rec] != records[ls[j].rec];
        }
      }
    }

    /** Outside a batch, every scanned link into t reads back as the record at t. */
    lemma MirroredRead(links: seq<(Record, nat)>, t: nat)
      requires Valid() && depth == 0 && t < |records| && Mirrors(links, Links(schema, View(), t))
      ensures forall k :: 0 <= k < |links| ==> GetValue(links[k].0, At(links[k].1)) == Ok(Points(records[t]))
    {
      var ls := Links(schema, View(), t);
      LinksMembers(schema, View(), t);
      forall k | 0 <= k < |links| ensures GetValue(links[k].0, At(links[k].1)) == Ok(Points(records[t])) {
        assert ls[k] in ls;
        LinkReadsTarget(ls[k].rec, ls[k].slot, t);
      }
    }

    // -------------------------------------------------------------------------
    // Setting a slot

    /** Stores x in every slot that ls designates (links mirrors ls); no other slot changes. */
    method OverwriteSlots(links: seq<(Record, nat)>, ghost ls: seq<Link>, x: Value)
      requires Distinct(records) && Mirrors(links, ls)
      requires forall k :: 0 <= k < |ls| ==> ls[k].slot < |records[ls[k].rec].fields| && ls[k].pointed == NameSlot
      modifies records
      ensures forall q :: 0 <= q < |records| ==> |records[q].fields| == old(|records[q].fields|)
      ensures forall q, j :: 0 <= q < |records| && 0 <= j < |records[q].fields| ==>
        records[q].fields[j] == if Link(q, j, NameSlot) in ls then x else old(records[q].fields[j])
    {
      var k := 0;
      while k < |links|
        invariant 0 <= k <= |links|
        invariant forall q :: 0 <= q < |records| ==> |records[q].fields| == old(|records[q].fields|)
        invariant forall q, j :: 0 <= q < |records| && 0 <= j < |records[q].fields| ==>
          records[q].fields[j] == if Link(q, j, NameSlot) in ls[..k] then x else old(records[q].fields[j])
      {
        var o := links[k].0;
        var i := links[k].1;
        o.fields := o.fields[i := x];
        assert ls[..k + 1] == ls[..k] + [ls[k]];
        k := k + 1;
      }
      assert ls[..k] == ls;
    }

    /**
     * set_value: stores v in the designated slot. Setting the name slot renames the
     * record and rewrites every slot that referred to it by its old name; outside a
     * batch the new name must be free in the class (and resolve, when the name slot
     * is itself a reference), and any other slot must get a resolvable value.
     */
    method SetValue(r: Record, slot: SlotRef, v: Value) returns (res: Result<(), Error>)
      requires Valid() && r in records
      modifies records
      ensures Valid()
      ensures SlotPosition(schema, r.className, |old(r.fields)|, slot).None? ==> res == Err(UnknownSlot)
      ensures var p := SlotPosition(schema, r.className, |old(r.fields)|, slot);
        p.Some? ==> (res.Ok? <==> depth > 0 || CanSetField(schema, old(View()), Position(r), p.value, v))
      ensures var p := SlotPosition(schema, r.className, |old(r.fields)|, slot);
        res.Ok? ==> p.Some? && View() == SetField(schema, old(View()), Position(r), p.value, v)
      ensures res.Err? ==> View() == old(View()) && (res.error.BrokenIdf? || res.error == UnknownSlot)
      ensures res.Ok? && SlotPosition(schema, r.className, |old(r.fields)|, slot) == Some(0) ==>
        forall l :: l in old(Links(schema, View(), Position(r))) ==> Holds(records, l, v)
    {
      var p := SlotPosition(schema, r.className, |r.fields|, slot);
      if p.None? {
        return Err(UnknownSlot);
      }
      var i := p.value;
      var t := IndexIn(records, r);
      var tbl := View();
      assert tbl[t].fields == r.fields;
      if depth == 0 {
        if i == 0 {
          var clash := FindNamed(tbl, r.className, v);
          if clash.Some? && clash.value != t {
            return Err(BrokenIdf(DuplicateName));
          }
          if clash.Some? {
            forall q | 0 <= q < |tbl| && q != t ensures !Named(tbl, q, r.className, v) {
              if Named(tbl, q, r.className, v) {
                UniqueNamed(tbl, q, t, r.className, v);
              }
            }
          }
        }
        if v != Empty && IsPointer(schema, r.className, i) && FindNamed(tbl, Target(schema, r.className, i), v).None? {
          return Err(BrokenIdf(UnresolvedReference(i)));
        }
        assert CanSetField(schema, tbl, t, i, v);
        SetFieldKeepsConsistent(schema, tbl, t, i, v);
      }
      if i == 0 {
        RenameTo(r, v);
        RenameRewritesLinks(schema, tbl, t, v);
      } else {
        AssignSlot(r, i, v);
      }
      SetFieldKeepsShaped(schema, tbl, t, i, v);
      return Ok(());
    }

    /** Renames r to v and rewrites every slot that referred to r by its old name. */
    method RenameTo(r: Record, v: Value)
      requires Valid() && r in records
      modifies records
      ensures View() == Rename(schema, old(View()), Position(r), v)
    {
      var t := IndexIn(records, r);
      ghost var tbl := View();
      assert |r.fields| >= 1 by { assert CountOk(schema, tbl[t].cls, |tbl[t].fields|); }
      var links := ScanLinks(t);
      ghost var ls := Links(schema, tbl, t);
      LinksMembers(schema, tbl, t);
      OverwriteSlots(links, ls, v);
      r.fields := r.fields[0 := v];
      forall q | 0 <= q < |records| ensures View()[q] == Rename(schema, tbl, t, v)[q] {
        var fs, want := records[q].fields, RenamedFields(schema, tbl, t, v, q);
        assert |fs| == |want|;
        forall j | 0 <= j < |fs| ensures fs[j] == want[j] {
          assert Link(q, j, NameSlot) in ls <==> IsLink(schema, tbl, q, j, t);
        }
        assert fs == want;
      }
    }

    /** Stores v in slot i of r and nowhere else. */
    method AssignSlot(r: Record, i: nat, v: Value)
      requires Distinct(records) && r in records && i < |r.fields|
      modifies r
      ensures View() == Assigned(old(View()), Position(r), i, v)
    {
      ghost var tbl := View();
      ghost var t := IndexIn(records, r);
      r.fields := r.fields[i := v];
      forall q | 0 <= q < |records| ensures View()[q] == Assigned(tbl, t, i, v)[q] {
        if q != t {
          assert records[q] != r;
        }
      }
    }

    /**
     * set_value with a record definition: adds the record and points the slot at
     * it. The slot must be a reference slot (not the name slot) to the new
     * record's class, and the new record must have a name.
     */
    method SetValueToNewObject(r: Record, slot: SlotRef, cls: string, fields: seq<Value>) returns (res: Result<Record, Error>)
      requires Valid() && r in records
      modifies this, records
      ensures Valid() && depth == old(depth) && saved == old(saved) && savedRecords == old(savedRecords)
      ensures var p := SlotPosition(schema, r.className, |old(r.fields)|, slot);
        res.Ok? <==>
          p.Some? && p.value != 0 && IsPointer(schema, r.className, p.value) && Target(schema, r.className, p.value) == cls
          && |fields| > 0 && fields[0] != Empty
          && (if depth == 0 then CanAdd(schema, old(View()), Rec(cls, fields)) else CountOk(schema, cls, |fields|))
      ensures var p := SlotPosition(schema, r.className, |old(r.fields)|, slot);
        res.Ok? ==>
          p.Some? && |fields| > 0
          && fresh(res.value) && res.value.owner == this && records == old(records) + [res.value]
          && View() == Assigned(old(View()) + [Rec(cls, fields)], old(Position(r)), p.value, fields[0])
      ensures res.Ok? && depth == 0 ==> GetValue(r, slot) == Ok(Points(res.value))
      ensures res.Err? ==> records == old(records) && View() == old(View())
    {
      var p := SlotPosition(schema, r.className, |r.fields|, slot);
      if p.None? {
        return Err(UnknownSlot);
      }
      var i := p.value;
      if i == 0 || !IsPointer(schema, r.className, i) {
        return Err(BrokenIdf(NotAReferenceSlot));
      }
      if Target(schema, r.className, i) != cls {
        return Err(BrokenIdf(WrongTargetClass));
      }
      if |fields| == 0 || fields[0] == Empty {
        return Err(BrokenIdf(UnresolvedReference(i)));
      }
      var t := IndexIn(records, r);
      ghost var tbl := View();
      assert tbl[t].fields == r.fields;
      var added := AddObject(cls, fields);
      if added.Err? {
        return Err(added.error);
      }
      var rec := added.value;
      assert records[t] == r;
      if depth == 0 {
        PointAtAdded(schema, tbl, Rec(cls, fields), t, i);
      }
      var pointed := SetValue(r, At(i), fields[0]);
      assert pointed.Ok?;
      if depth == 0 {
        assert FindNamed(View(), cls, fields[0]) == Some(|tbl|);
      }
      return Ok(rec);
    }

    // -------------------------------------------------------------------------
    // Removing

    /**
     * remove_object: drops r from the document. When something points at r and
     * raiseIfPointed holds, nothing changes and IsPointed is reported; otherwise
     * every slot that pointed at r is cleared first.
     */
    method RemoveObject(r: Record, raiseIfPointed: bool) returns (res: Result<(), Error>)
      requires Valid() && r in records
      modifies this, records
      ensures Valid() && depth == old(depth) && saved == old(saved) && savedRecords == old(savedRecords)
      ensures res.Err? <==> raiseIfPointed && old(Links(schema, View(), Position(r))) != []
      ensures res.Err? ==> res.error == IsPointed && records == old(records) && View() == old(View())
      ensures res.Ok? ==>
        records == old(records[..Position(r)] + records[Position(r) + 1..])
        && View() == Removed(schema, old(View()), old(Position(r)))
      ensures res.Ok? ==> forall l :: l in old(Links(schema, View(), Position(r))) ==> Holds(old(records), l, Empty)
    {
      var t := IndexIn(records, r);
      ghost var tbl := View();
      var links := GetPointingLinks(r, None);
      if raiseIfPointed && |links| > 0 {
        return Err(IsPointed);
      }
      ClearLinksTo(r, links);
      DropAt(tbl, t);
      RemoveKeepsShaped(schema, tbl, t);
      if depth == 0 {
        RemoveKeepsConsistent(schema, tbl, t);
      }
      return Ok(());
    }

    /** Drops the record at position t, whose referrers have been cleared, from the document. */
    method DropAt(ghost tbl: Table, t: nat)
      requires Distinct(records) && t < |records| == |tbl|
      requires forall q :: 0 <= q < |records| ==>
        records[q].className == tbl[q].cls && records[q].fields == ClearedFields(schema, tbl, t, q)
      modifies this
      ensures records == old(records[..t] + records[t + 1..]) && Distinct(records)
      ensures depth == old(depth) && saved == old(saved) && savedRecords == old(savedRecords)
      ensures View() == Removed(schema, tbl, t)
    {
      ghost var before := records;
      records := records[..t] + records[t + 1..];
      forall a, b | 0 <= a < |records| && 0 <= b < |records| && a != b ensures records[a] != records[b] {
        assert Survivor(t, a) != Survivor(t, b);
      }
      forall k | 0 <= k < |records| ensures View()[k] == Removed(schema, tbl, t)[k] {
        assert records[k] == before[Survivor(t, k)];
      }
    }

    /** Clears every slot that pointed at r (links are r's pointing links). */
    method ClearLinksTo(r: Record, links: seq<(Record, nat)>)
      requires Valid() && r in records && Mirrors(links, Links(schema, View(), Position(r)))
      modifies records
      ensures forall q :: 0 <= q < |records| ==> records[q].fields == ClearedFields(schema, old(View()), Position(r), q)
      ensures forall l :: l in old(Links(schema, View(), Position(r))) ==> Holds(records, l, Empty)
    {
      ghost var tbl := View();
      var t := IndexIn(records, r);
      ghost var ls := Links(schema, tbl, t);
      LinksMembers(schema, tbl, t);
      OverwriteSlots(links, ls, Empty);
    }

    // -------------------------------------------------------------------------
    // Replacing values

    /**
     * replace_values: gives r a new body while it keeps its name; outside a batch
     * the new body must have an admissible length and resolvable references.
     */
    method ReplaceValues(r: Record, body: seq<Value>) returns (res: Result<(), Error>)
      requires Valid() && r in records
      modifies r
      ensures Valid()
      ensures res.Ok? <==>
        if depth == 0 then CanReplace(schema, old(View()), Position(r), body)
        else CountOk(schema, r.className, |KeepIdentity(old(r.fields[0]), body)|)
      ensures res.Ok? ==> r.fields == KeepIdentity(old(r.fields[0]), body) && View() == Replaced(old(View()), Position(r), body)
      ensures res.Ok? && (forall i :: IsPointer(schema, r.className, i) ==> Target(schema, r.className, i) != r.className) ==>
        Links(schema, View(), Position(r)) == old(Links(schema, View(), Position(r)))
      ensures res.Err? ==> r.fields == old(r.fields) && res.error.BrokenIdf?
    {
      var t := IndexIn(records, r);
      var tbl := View();
      assert tbl[t].fields == r.fields;
      assert CountOk(schema, tbl[t].cls, |tbl[t].fields|);
      var kept := KeepIdentity(r.fields[0], body);
      if !CountOk(schema, r.className, |kept|) {
        return Err(BrokenIdf(BadFieldCount));
      }
      if depth == 0 {
        var bad := FirstUnresolved(schema, tbl, r.className, kept);
        if bad.Some? {
          return Err(BrokenIdf(UnresolvedReference(bad.value)));
        }
        ReplaceKeepsConsistent(schema, tbl, t, body);
      }
      r.fields := kept;
      forall q | 0 <= q < |records| ensures View()[q] == Replaced(tbl, t, body)[q] {
        if q != t {
          assert records[q] != r;
        }
      }
      assert View() == Replaced(tbl, t, body);
      ReplaceKeepsPointing(schema, tbl, t, body);
      return Ok(());
    }

    // -------------------------------------------------------------------------
    // Copying

    /**
     * copy: a new record of r's class with r's values, except for a fresh name
     * (r's name followed by as few hyphens as make it unused in the class).
     */
    method Copy(r: Record) returns (res: Result<Record, Error>)
      requires Valid() && r in records
      modifies this
      ensures Valid() && depth == old(depth) && saved == old(saved) && savedRecords == old(savedRecords)
      ensures res.Ok? ==>
        fresh(res.value) && res.value.owner == this && res.value.className == r.className
        && records == old(records) + [res.value] && View() == old(View()) + [Rec(r.className, res.value.fields)]
        && |res.value.fields| == |r.fields| && res.value.fields[0] != r.fields[0]
        && (forall i :: 1 <= i < |r.fields| ==> res.value.fields[i] == r.fields[i])
        && !Taken(old(View()), r.className, res.value.fields[0])
      ensures res.Ok? && depth == 0 ==> Links(schema, View(), |records| - 1) == []
      ensures depth > 0 || !IsPointer(schema, r.className, 0) ==> res.Ok?
      ensures res.Err? ==> records == old(records)
    {
      var fields := CopyFields(r);
      res := AddObject(r.className, fields);
    }

    /**
     * The body of a copy of r: r's values under the first unused copy name. Outside
     * a batch it may be added whenever r's name slot is not a reference.
     */
    method CopyFields(r: Record) returns (fields: seq<Value>)
      requires Valid() && r in records
      ensures |fields| == |r.fields| && fields[0] != r.fields[0]
      ensures forall i :: 1 <= i < |r.fields| ==> fields[i] == r.fields[i]
      ensures !Taken(View(), r.className, fields[0])
      ensures CountOk(schema, r.className, |fields|)
      ensures depth == 0 && !IsPointer(schema, r.className, 0) ==> CanAdd(schema, View(), Rec(r.className, fields))
    {
      var t := IndexIn(records, r);
      var tbl := View();
      assert tbl[t].fields == r.fields;
      assert CountOk(schema, tbl[t].cls, |tbl[t].fields|);
      var base := if r.fields[0].Str? then r.fields[0].text else "";
      var k := UnusedCopySuffix(tbl, r.className, base);
      var name := CopyName(base, k);
      fields := [name] + r.fields[1..];
      assert name != r.fields[0] by {
        if r.fields[0].Str? {
          assert |name.text| != |r.fields[0].text|;
        }
      }
      if depth == 0 && !IsPointer(schema, r.className, 0) {
        CopyAdmissible(schema, tbl, t, name);
      }
    }

    // -------------------------------------------------------------------------
    // Batches ("under construction")

    /** Opens a batch; the outermost one takes a snapshot of the document. */
    method BeginConstruction()
      requires Valid()
      modifies this
      ensures Valid() && depth == old(depth) + 1 && records == old(records) && View() == old(View())
      ensures old(depth) == 0 ==> saved == old(View()) && savedRecords == old(records)
      ensures old(depth) > 0 ==> saved == old(saved) && savedRecords == old(savedRecords)
    {
      if depth == 0 {
        saved := View();
        savedRecords := records;
      }
      depth := depth + 1;
    }

    /**
     * Closes a batch. Closing the outermost one checks the whole document: if it
     * is consistent it is kept; if not, or if the batch was aborted, the document
     * is rolled back to the snapshot, and a failed check reports BatchInconsistent.
     */
    method EndConstruction(aborted: bool) returns (res: Result<(), Error>)
      requires Valid() && depth > 0
      modifies this, records, savedRecords
      ensures Valid() && depth == old(depth) - 1
      ensures res.Err? <==> old(depth) == 1 && !aborted && !Consistent(schema, old(View()))
      ensures res.Err? ==> res.error == BrokenIdf(BatchInconsistent)
      ensures old(depth) > 1 ==>
        records == old(records) && View() == old(View()) && saved == old(saved) && savedRecords == old(savedRecords)
      ensures old(depth) == 1 && !aborted && Consistent(schema, old(View())) ==>
        records == old(records) && View() == old(View())
      ensures old(depth) == 1 && (aborted || !Consistent(schema, old(View()))) ==>
        records == old(savedRecords) && View() == old(saved)
    {
      if depth > 1 {
        depth := depth - 1;
        return Ok(());
      }
      if !aborted && Consistent(schema, View()) {
        depth := 0;
        return Ok(());
      }
      res := if aborted then Ok(()) else Err(BrokenIdf(BatchInconsistent));
      Rollback();
    }

    /** Restores the snapshot taken when the outermost batch opened and closes it. */
    method Rollback()
      requires Valid() && depth == 1
      modifies this, savedRecords
      ensures Valid() && depth == 0 && records == old(savedRecords) && View() == old(saved)
    {
      records := savedRecords;
      var k := 0;
      while k < |records|
        invariant 0 <= k <= |records| && records == savedRecords == old(savedRecords) && saved == old(saved)
        invariant forall q :: 0 <= q < k ==> records[q].fields == saved[q].fields
      {
        records[k].fields := saved[k].fields;
        k := k + 1;
      }
      assert View() == saved;
      depth := 0;
    }

    // -------------------------------------------------------------------------
    // Loading

    /**
     * Loads the records of a parsed document into an empty manager, as one batch:
     * the document is accepted exactly when it is consistent, and otherwise the
     * manager stays empty.
     */
    method Load(doc: Table) returns (res: Result<(), Error>)
      requires Valid() && records == [] && depth == 0
      modifies this
      ensures Valid() && depth == 0
      ensures res.Ok? <==> Consistent(schema, doc)
      ensures res.Ok? ==> View() == doc
      ensures res.Err? ==> records == [] && res.error.BrokenIdf?
    {
      BeginConstruction();
      var added := AddRows(doc);
      if added.Err? {
        var _ := EndConstruction(true);
        return added;
      }
      res := EndConstruction(false);
    }

    /** Appends the rows of doc inside the open batch, stopping at the first row of a malformed shape. */
    method AddRows(doc: Table) returns (res: Result<(), Error>)
      requires Valid() && records == [] && depth == 1 && saved == [] && savedRecords == []
      modifies this
      ensures Valid() && depth == 1 && saved == [] && savedRecords == []
      ensures forall i :: 0 <= i < |records| ==> fresh(records[i])
      ensures res.Ok? <==> Shaped(schema, doc)
      ensures res.Ok? ==> View() == doc
      ensures res.Err? ==> res.error.BrokenIdf?
    {
      var k := 0;
      while k < |doc|
        invariant 0 <= k <= |doc|
        invariant Valid() && depth == 1 && saved == [] && savedRecords == []
        invariant View() == doc[..k]
        invariant forall i :: 0 <= i < |records| ==> fresh(records[i])
      {
        var added := AddObject(doc[k].cls, doc[k].fields);
        if added.Err? {
          assert !CountOk(schema, doc[k].cls, |doc[k].fields|);
          return Err(added.error);
        }
        assert doc[..k + 1] == doc[..k] + [doc[k]];
        k := k + 1;
      }
      assert doc[..k] == doc;
      assert Shaped(schema, View());
      return Ok(());
    }
  }
}
