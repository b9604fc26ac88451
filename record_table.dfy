/**
 * The record graph as a value: a table of (class, fields) rows, the pointing
 * links derived from it by scanning, the integrity invariants the manager keeps
 * outside a batch, and one function per mutation giving the table after it.
 * The imperative manager (module IdfManager) is proved to follow these functions;
 * the lemmas here say what the mutations preserve.
 */
module RecordTable {
  import opened Wrappers
  import opened IdfSchema

  /** One record as a value: its class and its ordered field values. Slot 0 is the name. */
  datatype Rec = Rec(cls: string, fields: seq<Value>)

  type Table = seq<Rec>

  /**
   * A pointing link: slot `slot` of the record at position `rec` refers to some
   * record, through the value held in slot `pointed` of that record.
   */
  datatype Link = Link(rec: nat, slot: nat, pointed: nat)

  /** The slot that holds a record's name, the only value references compare against. */
  const NameSlot: nat := 0

  function Name(r: Rec): Value {
    if |r.fields| > NameSlot then r.fields[NameSlot] else Empty
  }

  /** Row `q` is a record of class `cls` whose (non-empty) name is `x`. */
  predicate Named(tbl: Table, q: int, cls: string, x: Value) {
    0 <= q < |tbl| && tbl[q].cls == cls && x != Empty && Name(tbl[q]) == x
  }

  /** Some record of class `cls` is named `x`. */
  predicate Taken(tbl: Table, cls: string, x: Value) {
    exists q :: 0 <= q < |tbl| && Named(tbl, q, cls, x)
  }

  /**
   * (s, i) points at t: slot i of record s is a pointer slot, it holds a value,
   * and that value is the name of t, a record of the slot's target class.
   */
  predicate IsLink(sc: Schema, tbl: Table, s: int, i: int, t: int) {
    0 <= s < |tbl| && 0 <= i < |tbl[s].fields| && IsPointer(sc, tbl[s].cls, i)
    && Named(tbl, t, Target(sc, tbl[s].cls, i), tbl[s].fields[i])
  }

  /** Slot i of record s is a pointer slot that holds a value. */
  predicate HoldsRef(sc: Schema, tbl: Table, s: int, i: int) {
    0 <= s < |tbl| && 0 <= i < |tbl[s].fields| && IsPointer(sc, tbl[s].cls, i) && tbl[s].fields[i] != Empty
  }

  /** Storing `v` in slot i of a record of class `cls` leaves no dangling reference. */
  predicate Resolvable(sc: Schema, tbl: Table, cls: string, i: int, v: Value) {
    v == Empty || !IsPointer(sc, cls, i) || Taken(tbl, Target(sc, cls, i), v)
  }

  // ---------------------------------------------------------------------------
  // Integrity invariants

  /** Every record's class is known and its field count is admissible. */
  predicate Shaped(sc: Schema, tbl: Table) {
    forall s :: 0 <= s < |tbl| ==> CountOk(sc, tbl[s].cls, |tbl[s].fields|)
  }

  /** No two records of one class share a name. */
  predicate Unique(tbl: Table) {
    forall a, b :: 0 <= a < |tbl| && 0 <= b < |tbl| && a != b && tbl[a].cls == tbl[b].cls && Name(tbl[a]) != Empty
      ==> Name(tbl[a]) != Name(tbl[b])
  }

  /** Every non-empty pointer slot names an existing record of its target class. */
  predicate Resolved(sc: Schema, tbl: Table) {
    forall s, i :: 0 <= s < |tbl| && 0 <= i < |tbl[s].fields| && HoldsRef(sc, tbl, s, i)
      ==> exists t :: 0 <= t < |tbl| && IsLink(sc, tbl, s, i, t)
  }

  predicate Consistent(sc: Schema, tbl: Table) {
    Shaped(sc, tbl) && Unique(tbl) && Resolved(sc, tbl)
  }

  lemma UniqueNamed(tbl: Table, a: int, b: int, cls: string, x: Value)
    requires Unique(tbl) && Named(tbl, a, cls, x) && Named(tbl, b, cls, x)
    ensures a == b
  {
  }

  /** In a consistent table a pointer slot resolves to exactly one record. */
  lemma {:induction false} LinkTargetUnique(sc: Schema, tbl: Table, s: int, i: int, t: int, u: int)
    requires Unique(tbl) && IsLink(sc, tbl, s, i, t) && IsLink(sc, tbl, s, i, u)
    ensures t == u
  {
    UniqueNamed(tbl, t, u, Target(sc, tbl[s].cls, i), tbl[s].fields[i]);
  }

  // ---------------------------------------------------------------------------
  // Lookup by class and name

  /** The first record of class `cls` named `x`, if any. */
  function FindNamed(tbl: Table, cls: string, x: Value): (r: Option<nat>)
    ensures r.Some? ==> Named(tbl, r.value, cls, x)
    ensures r.None? <==> !Taken(tbl, cls, x)
  {
    FindNamedFrom(tbl, cls, x, 0)
  }

  function FindNamedFrom(tbl: Table, cls: string, x: Value, from: nat): (r: Option<nat>)
    requires from <= |tbl|
    requires forall q :: 0 <= q < from ==> !Named(tbl, q, cls, x)
    ensures r.Some? ==> Named(tbl, r.value, cls, x)
    ensures r.None? <==> !Taken(tbl, cls, x)
    decreases |tbl| - from
  {
    if from == |tbl| then None
    else if Named(tbl, from, cls, x) then Some(from)
    else FindNamedFrom(tbl, cls, x, from + 1)
  }

  /** Reading a linked slot finds the record it points at. */
  lemma LinkFindsTarget(sc: Schema, tbl: Table, s: int, i: int, t: int)
    requires Unique(tbl) && IsLink(sc, tbl, s, i, t)
    ensures FindNamed(tbl, Target(sc, tbl[s].cls, i), tbl[s].fields[i]) == Some(t)
  {
    var r := FindNamed(tbl, Target(sc, tbl[s].cls, i), tbl[s].fields[i]);
    UniqueNamed(tbl, r.value, t, Target(sc, tbl[s].cls, i), tbl[s].fields[i]);
  }

  // ---------------------------------------------------------------------------
  // The pointing links of a record, by scanning every record's slots in order

  function SlotLinks(sc: Schema, tbl: Table, t: int, s: nat, m: nat): seq<Link>
    requires s < |tbl| && m <= |tbl[s].fields|
  {
    if m == 0 then []
    else SlotLinks(sc, tbl, t, s, m - 1) + (if IsLink(sc, tbl, s, m - 1, t) then [Link(s, m - 1, NameSlot)] else [])
  }

  function LinksUpTo(sc: Schema, tbl: Table, t: int, n: nat): seq<Link>
    requires n <= |tbl|
  {
    if n == 0 then []
    else LinksUpTo(sc, tbl, t, n - 1) + SlotLinks(sc, tbl, t, n - 1, |tbl[n - 1].fields|)
  }

  /** All links pointing at t, in record order and, within a record, in slot order. */
  function Links(sc: Schema, tbl: Table, t: int): seq<Link> {
    LinksUpTo(sc, tbl, t, |tbl|)
  }

  lemma {:induction false} SlotLinksMembers(sc: Schema, tbl: Table, t: int, s: nat, m: nat)
    requires s < |tbl| && m <= |tbl[s].fields|
    ensures forall l :: l in SlotLinks(sc, tbl, t, s, m) <==>
      l.rec == s && l.slot < m && l.pointed == NameSlot && IsLink(sc, tbl, s, l.slot, t)
  {
    if m > 0 {
      SlotLinksMembers(sc, tbl, t, s, m - 1);
    }
  }

  lemma {:induction false} LinksUpToMembers(sc: Schema, tbl: Table, t: int, n: nat)
    requires n <= |tbl|
    ensures forall l :: l in LinksUpTo(sc, tbl, t, n) <==> l.rec < n && l.pointed == NameSlot && IsLink(sc, tbl, l.rec, l.slot, t)
  {
    if n > 0 {
      LinksUpToMembers(sc, tbl, t, n - 1);
      SlotLinksMembers(sc, tbl, t, n - 1, |tbl[n - 1].fields|);
    }
  }

  /** The scan finds exactly the links: (s, i) is listed iff it points at t, always through t's name. */
  lemma LinksMembers(sc: Schema, tbl: Table, t: int)
    ensures forall l :: l in Links(sc, tbl, t) <==> l.pointed == NameSlot && IsLink(sc, tbl, l.rec, l.slot, t)
  {
    LinksUpToMembers(sc, tbl, t, |tbl|);
  }

  lemma {:induction false} SlotLinksTrim(sc: Schema, tbl: Table, t: int, s: nat, k: nat, m: nat)
    requires s < |tbl| && k <= m <= |tbl[s].fields|
    requires forall i :: k <= i < m ==> !IsLink(sc, tbl, s, i, t)
    ensures SlotLinks(sc, tbl, t, s, m) == SlotLinks(sc, tbl, t, s, k)
  {
    if k < m {
      SlotLinksTrim(sc, tbl, t, s, k, m - 1);
    }
  }

  lemma {:induction false} SlotLinksCongruent(sc: Schema, a: Table, b: Table, t: int, s: nat, m: nat)
    requires s < |a| && s < |b| && m <= |a[s].fields| && m <= |b[s].fields|
    requires forall i :: 0 <= i < m ==> (IsLink(sc, a, s, i, t) <==> IsLink(sc, b, s, i, t))
    ensures SlotLinks(sc, a, t, s, m) == SlotLinks(sc, b, t, s, m)
  {
    if m > 0 {
      SlotLinksCongruent(sc, a, b, t, s, m - 1);
    }
  }

  /** Two tables with the same links into t list them identically. */
  lemma {:induction false} LinksAgree(sc: Schema, a: Table, b: Table, t: int, n: nat)
    requires n <= |a| && n <= |b|
    requires forall s, i :: IsLink(sc, a, s, i, t) <==> IsLink(sc, b, s, i, t)
    ensures LinksUpTo(sc, a, t, n) == LinksUpTo(sc, b, t, n)
  {
    if n > 0 {
      LinksAgree(sc, a, b, t, n - 1);
      var s := n - 1;
      var la, lb := |a[s].fields|, |b[s].fields|;
      if la <= lb {
        SlotLinksTrim(sc, b, t, s, la, lb);
        SlotLinksCongruent(sc, a, b, t, s, la);
      } else {
        SlotLinksTrim(sc, a, t, s, lb, la);
        SlotLinksCongruent(sc, a, b, t, s, lb);
      }
    }
  }

  /** A record nothing points at has an empty link list. */
  lemma {:induction false} NoLinks(sc: Schema, tbl: Table, t: int, n: nat)
    requires n <= |tbl|
    requires forall s, i :: !IsLink(sc, tbl, s, i, t)
    ensures LinksUpTo(sc, tbl, t, n) == []
  {
    if n > 0 {
      NoLinks(sc, tbl, t, n - 1);
      SlotLinksTrim(sc, tbl, t, n - 1, 0, |tbl[n - 1].fields|);
    }
  }

  /** Link `a` comes before link `b` in scanning order: by record, then by slot. */
  predicate Before(a: Link, b: Link) {
    a.rec < b.rec || (a.rec == b.rec && a.slot < b.slot)
  }

  predicate Ascending(ls: seq<Link>) {
    forall i, j :: 0 <= i < j < |ls| ==> Before(ls[i], ls[j])
  }

  lemma {:induction false} SlotLinksAscending(sc: Schema, tbl: Table, t: int, s: nat, m: nat)
    requires s < |tbl| && m <= |tbl[s].fields|
    ensures Ascending(SlotLinks(sc, tbl, t, s, m))
  {
    if m > 0 {
      SlotLinksAscending(sc, tbl, t, s, m - 1);
      SlotLinksMembers(sc, tbl, t, s, m - 1);
      var front := SlotLinks(sc, tbl, t, s, m - 1);
      assert forall i :: 0 <= i < |front| ==> front[i] in front;
    }
  }

  lemma {:induction false} LinksUpToAscending(sc: Schema, tbl: Table, t: int, n: nat)
    requires n <= |tbl|
    ensures Ascending(LinksUpTo(sc, tbl, t, n))
  {
    if n > 0 {
      LinksUpToAscending(sc, tbl, t, n - 1);
      SlotLinksAscending(sc, tbl, t, n - 1, |tbl[n - 1].fields|);
      LinksUpToMembers(sc, tbl, t, n - 1);
      SlotLinksMembers(sc, tbl, t, n - 1, |tbl[n - 1].fields|);
      var front, back := LinksUpTo(sc, tbl, t, n - 1), SlotLinks(sc, tbl, t, n - 1, |tbl[n - 1].fields|);
      assert forall i :: 0 <= i < |front| ==> front[i] in front;
      assert forall j :: 0 <= j < |back| ==> back[j] in back;
    }
  }

  /**
   * The scan lists the links in strictly increasing (record, slot) order, so it
   * lists every pointing slot exactly once.
   */
  lemma LinksOnce(sc: Schema, tbl: Table, t: int)
    ensures Ascending(Links(sc, tbl, t))
    ensures forall i, j :: 0 <= i < j < |Links(sc, tbl, t)| ==> Links(sc, tbl, t)[i] != Links(sc, tbl, t)[j]
  {
    LinksUpToAscending(sc, tbl, t, |tbl|);
  }

  /** The links of `ls` made through slot `k` of their target, in their order in `ls`. */
  function ThroughSlot(ls: seq<Link>, k: nat): seq<Link> {
    if ls == [] then []
    else (if ls[0].pointed == k then [ls[0]] else []) + ThroughSlot(ls[1..], k)
  }

  lemma {:induction false} ThroughSlotAll(ls: seq<Link>, k: nat)
    requires forall l :: l in ls ==> l.pointed == k
    ensures ThroughSlot(ls, k) == ls
  {
    if ls != [] {
      assert ls[0] in ls;
      assert forall l :: l in ls[1..] ==> l in ls;
      ThroughSlotAll(ls[1..], k);
      assert [ls[0]] + ls[1..] == ls;
    }
  }

  lemma {:induction false} ThroughSlotNone(ls: seq<Link>, k: nat)
    requires forall l :: l in ls ==> l.pointed != k
    ensures ThroughSlot(ls, k) == []
  {
    if ls != [] {
      assert ls[0] in ls;
      assert forall l :: l in ls[1..] ==> l in ls;
      ThroughSlotNone(ls[1..], k);
    }
  }

  /** The links pointing at t, restricted to those made through slot `pointedIndex` of t when one is given. */
  function PointingLinks(sc: Schema, tbl: Table, t: int, pointedIndex: Option<nat>): seq<Link> {
    match pointedIndex
    case None => Links(sc, tbl, t)
    case Some(k) => ThroughSlot(Links(sc, tbl, t), k)
  }

  /**
   * Every reference is made through the target's name: asking for the name slot
   * gives all links, asking for any other slot gives none.
   */
  lemma PointingLinksByIndex(sc: Schema, tbl: Table, t: int, k: nat)
    ensures PointingLinks(sc, tbl, t, None) == Links(sc, tbl, t)
    ensures PointingLinks(sc, tbl, t, Some(NameSlot)) == Links(sc, tbl, t)
    ensures k != NameSlot ==> PointingLinks(sc, tbl, t, Some(k)) == []
  {
    LinksMembers(sc, tbl, t);
    ThroughSlotAll(Links(sc, tbl, t), NameSlot);
    if k != NameSlot {
      ThroughSlotNone(Links(sc, tbl, t), k);
    }
  }

  // ---------------------------------------------------------------------------
  // Adding a record

  /** Adding a record whose name is already taken in its class breaks uniqueness. */
  lemma DuplicateBreaksUnique(tbl: Table, rec: Rec)
    requires Taken(tbl, rec.cls, Name(rec))
    ensures !Unique(tbl + [rec])
  {
    var q :| 0 <= q < |tbl| && Named(tbl, q, rec.cls, Name(rec));
    var r := tbl + [rec];
    assert r[q] == tbl[q] && r[|tbl|] == rec;
  }

  /** Outside a batch, a record may be added when it is well shaped, its name is free in its class and its references resolve. */
  predicate CanAdd(sc: Schema, tbl: Table, rec: Rec) {
    CountOk(sc, rec.cls, |rec.fields|)
    && !Taken(tbl, rec.cls, Name(rec))
    && forall i :: 0 <= i < |rec.fields| ==> Resolvable(sc, tbl, rec.cls, i, rec.fields[i])
  }

  lemma AddKeepsConsistent(sc: Schema, tbl: Table, rec: Rec)
    requires Consistent(sc, tbl) && CanAdd(sc, tbl, rec)
    ensures Consistent(sc, tbl + [rec])
  {
    var r := tbl + [rec];
    var n := |tbl|;
    forall a, b | 0 <= a < |r| && 0 <= b < |r| && a != b && r[a].cls == r[b].cls && Name(r[a]) != Empty
      ensures Name(r[a]) != Name(r[b])
    {
      if a == n {
        assert !Named(tbl, b, rec.cls, Name(rec));
      } else if b == n {
        assert !Named(tbl, a, rec.cls, Name(rec));
      }
    }
    forall s, i | HoldsRef(sc, r, s, i) ensures exists t :: 0 <= t < |r| && IsLink(sc, r, s, i, t) {
      if s == n {
        assert Resolvable(sc, tbl, rec.cls, i, rec.fields[i]);
        var q :| 0 <= q < |tbl| && Named(tbl, q, Target(sc, rec.cls, i), rec.fields[i]);
        assert IsLink(sc, r, s, i, q);
      } else {
        assert HoldsRef(sc, tbl, s, i);
        var q :| 0 <= q < |tbl| && IsLink(sc, tbl, s, i, q);
        assert IsLink(sc, r, s, i, q);
      }
    }
  }

  /** A freshly added record is pointed at by nothing: any slot naming it would have had to resolve before it existed. */
  lemma AddedIsUnpointed(sc: Schema, tbl: Table, rec: Rec)
    requires Resolved(sc, tbl) && CanAdd(sc, tbl, rec)
    ensures Links(sc, tbl + [rec], |tbl|) == []
  {
    var r := tbl + [rec];
    var n := |tbl|;
    forall s, i ensures !IsLink(sc, r, s, i, n) {
      if s == n && 0 <= i < |rec.fields| {
        assert Resolvable(sc, tbl, rec.cls, i, rec.fields[i]);
      } else {
        assert HoldsRef(sc, tbl, s, i) ==> exists q :: 0 <= q < |tbl| && IsLink(sc, tbl, s, i, q);
      }
    }
    NoLinks(sc, r, n, |r|);
  }

  // ---------------------------------------------------------------------------
  // Setting a non-name slot

  function Assigned(tbl: Table, s: int, i: int, x: Value): (r: Table)
    requires 0 <= s < |tbl| && 0 <= i < |tbl[s].fields|
  {
    tbl[s := Rec(tbl[s].cls, tbl[s].fields[i := x])]
  }

  lemma AssignKeepsConsistent(sc: Schema, tbl: Table, s: int, i: int, x: Value)
    requires WellFormed(sc) && Consistent(sc, tbl)
    requires 0 <= s < |tbl| && 1 <= i < |tbl[s].fields| && Resolvable(sc, tbl, tbl[s].cls, i, x)
    ensures Consistent(sc, Assigned(tbl, s, i, x))
  {
    var r := Assigned(tbl, s, i, x);
    assert forall q :: 0 <= q < |tbl| ==> Name(r[q]) == Name(tbl[q]) && r[q].cls == tbl[q].cls;
    forall a, b | 0 <= a < |r| && 0 <= b < |r| && a != b && r[a].cls == r[b].cls && Name(r[a]) != Empty
      ensures Name(r[a]) != Name(r[b])
    {
    }
    forall u, j | HoldsRef(sc, r, u, j) ensures exists t :: 0 <= t < |r| && IsLink(sc, r, u, j, t) {
      if u == s && j == i {
        var q :| 0 <= q < |tbl| && Named(tbl, q, Target(sc, tbl[s].cls, i), x);
        assert IsLink(sc, r, u, j, q);
      } else {
        assert HoldsRef(sc, tbl, u, j);
        var q :| 0 <= q < |tbl| && IsLink(sc, tbl, u, j, q);
        assert IsLink(sc, r, u, j, q);
      }
    }
  }

  /**
   * Setting a pointer slot to a newly added object: after adding `rec` and storing
   * its name in slot i of record s, the slot points at the new record and reading
   * it finds that record.
   */
  lemma PointAtAdded(sc: Schema, tbl: Table, rec: Rec, s: int, i: int)
    requires Consistent(sc, tbl) && CanAdd(sc, tbl, rec) && Name(rec) != Empty
    requires 0 <= s < |tbl| && 1 <= i < |tbl[s].fields| && IsPointer(sc, tbl[s].cls, i) && Target(sc, tbl[s].cls, i) == rec.cls
    ensures Resolvable(sc, tbl + [rec], tbl[s].cls, i, Name(rec))
    ensures IsLink(sc, Assigned(tbl + [rec], s, i, Name(rec)), s, i, |tbl|)
    ensures FindNamed(Assigned(tbl + [rec], s, i, Name(rec)), rec.cls, Name(rec)) == Some(|tbl|)
  {
    var t1 := tbl + [rec];
    assert Named(t1, |tbl|, rec.cls, Name(rec));
    AddKeepsConsistent(sc, tbl, rec);
    var t2 := Assigned(t1, s, i, Name(rec));
    assert Named(t2, |tbl|, rec.cls, Name(rec));
    assert Unique(t2) by {
      assert forall q :: 0 <= q < |t1| ==> Name(t2[q]) == Name(t1[q]) && t2[q].cls == t1[q].cls;
    }
    LinkFindsTarget(sc, t2, s, i, |tbl|);
  }

  // ---------------------------------------------------------------------------
  // Renaming: a new value for the name slot, propagated to every referrer

  function RenamedFields(sc: Schema, tbl: Table, t: int, x: Value, s: int): seq<Value>
    requires 0 <= s < |tbl|
  {
    seq(|tbl[s].fields|, i requires 0 <= i < |tbl[s].fields| =>
      if IsLink(sc, tbl, s, i, t) || (s == t && i == 0) then x else tbl[s].fields[i])
  }

  /** The table after renaming record t to x: its name slot and every slot that pointed at it now hold x. */
  function Rename(sc: Schema, tbl: Table, t: int, x: Value): Table
  {
    seq(|tbl|, s requires 0 <= s < |tbl| => Rec(tbl[s].cls, RenamedFields(sc, tbl, t, x, s)))
  }

  /** Outside a batch, x must be free in t's class, and must resolve when the name slot is itself a reference. */
  predicate CanRename(sc: Schema, tbl: Table, t: int, x: Value)
    requires 0 <= t < |tbl|
  {
    (forall q :: 0 <= q < |tbl| && q != t ==> !Named(tbl, q, tbl[t].cls, x))
    && Resolvable(sc, tbl, tbl[t].cls, 0, x)
  }

  /** Which records have a new name after the rename. */
  predicate Renamed(sc: Schema, tbl: Table, t: int, q: int) {
    q == t || IsLink(sc, tbl, q, 0, t)
  }

  lemma RenameNames(sc: Schema, tbl: Table, t: int, x: Value)
    requires Shaped(sc, tbl) && 0 <= t < |tbl|
    ensures |Rename(sc, tbl, t, x)| == |tbl|
    ensures forall q :: 0 <= q < |tbl| ==> Rename(sc, tbl, t, x)[q].cls == tbl[q].cls
    ensures forall q :: 0 <= q < |tbl| ==>
      Name(Rename(sc, tbl, t, x)[q]) == if Renamed(sc, tbl, t, q) then x else Name(tbl[q])
  {
    var r := Rename(sc, tbl, t, x);
    forall q | 0 <= q < |tbl|
      ensures Name(r[q]) == if Renamed(sc, tbl, t, q) then x else Name(tbl[q])
    {
      assert CountOk(sc, tbl[q].cls, |tbl[q].fields|);
      assert r[q].fields[0] == RenamedFields(sc, tbl, t, x, q)[0];
    }
  }

  /** A record whose name slot refers to another record is never itself a pointer target. */
  lemma RenamedReferrerUntargeted(sc: Schema, tbl: Table, t: int, q: int, s: int, i: int)
    requires WellFormed(sc) && IsLink(sc, tbl, q, 0, t) && 0 <= s < |tbl| && IsPointer(sc, tbl[s].cls, i)
    ensures Target(sc, tbl[s].cls, i) != tbl[q].cls
  {
  }

  /** A renamed record and a record whose name was left alone never clash. */
  lemma {:induction false} RenameNoClash(sc: Schema, tbl: Table, t: int, x: Value, a: int, b: int)
    requires WellFormed(sc) && Consistent(sc, tbl) && 0 <= t < |tbl| && CanRename(sc, tbl, t, x)
    requires 0 <= a < |tbl| && 0 <= b < |tbl| && a != b && tbl[a].cls == tbl[b].cls
    requires Renamed(sc, tbl, t, a) && !Renamed(sc, tbl, t, b)
    ensures !Named(tbl, b, tbl[a].cls, x)
  {
    if Named(tbl, b, tbl[a].cls, x) {
      if a != t {
        // a is of a class whose name slot refers to t's class; so is b, which holds x there
        assert IsPointer(sc, tbl[b].cls, 0) && Target(sc, tbl[b].cls, 0) == tbl[t].cls;
        assert CountOk(sc, tbl[b].cls, |tbl[b].fields|);
        assert HoldsRef(sc, tbl, b, 0);
      }
    }
  }

  lemma RenameKeepsUnique(sc: Schema, tbl: Table, t: int, x: Value)
    requires WellFormed(sc) && Consistent(sc, tbl) && 0 <= t < |tbl| && CanRename(sc, tbl, t, x)
    ensures Unique(Rename(sc, tbl, t, x))
  {
    var r := Rename(sc, tbl, t, x);
    RenameNames(sc, tbl, t, x);
    forall a, b | 0 <= a < |r| && 0 <= b < |r| && a != b && r[a].cls == r[b].cls && Name(r[a]) != Empty
      ensures Name(r[a]) != Name(r[b])
    {
      var ca, cb := Renamed(sc, tbl, t, a), Renamed(sc, tbl, t, b);
      if ca && cb {
      } else if ca {
        RenameNoClash(sc, tbl, t, x, a, b);
      } else if cb {
        RenameNoClash(sc, tbl, t, x, b, a);
      }
    }
  }

  lemma {:induction false} RenameResolvesSlot(sc: Schema, tbl: Table, t: int, x: Value, s: int, i: int) returns (q: int)
    requires WellFormed(sc) && Consistent(sc, tbl) && 0 <= t < |tbl| && CanRename(sc, tbl, t, x)
    requires HoldsRef(sc, Rename(sc, tbl, t, x), s, i)
    ensures 0 <= q < |tbl| && IsLink(sc, Rename(sc, tbl, t, x), s, i, q)
  {
    var r := Rename(sc, tbl, t, x);
    RenameNames(sc, tbl, t, x);
    assert r[s].fields[i] == RenamedFields(sc, tbl, t, x, s)[i];
    if IsLink(sc, tbl, s, i, t) {
      q := t;
    } else if s == t && i == 0 {
      q :| 0 <= q < |tbl| && Named(tbl, q, Target(sc, tbl[t].cls, 0), x);
      if q != t && IsLink(sc, tbl, q, 0, t) {
        RenamedReferrerUntargeted(sc, tbl, t, q, t, 0);
      }
    } else {
      assert HoldsRef(sc, tbl, s, i);
      q :| 0 <= q < |tbl| && IsLink(sc, tbl, s, i, q);
      if IsLink(sc, tbl, q, 0, t) {
        RenamedReferrerUntargeted(sc, tbl, t, q, s, i);
      }
    }
  }

  /** Renaming keeps the table consistent; a rename never leaves a reference dangling. */
  lemma RenameKeepsConsistent(sc: Schema, tbl: Table, t: int, x: Value)
    requires WellFormed(sc) && Consistent(sc, tbl) && 0 <= t < |tbl| && CanRename(sc, tbl, t, x)
    ensures Consistent(sc, Rename(sc, tbl, t, x))
  {
    var r := Rename(sc, tbl, t, x);
    RenameNames(sc, tbl, t, x);
    RenameKeepsUnique(sc, tbl, t, x);
    forall s, i | HoldsRef(sc, r, s, i) ensures exists q :: 0 <= q < |r| && IsLink(sc, r, s, i, q) {
      var q := RenameResolvesSlot(sc, tbl, t, x, s, i);
    }
  }

  /** A rename to a non-empty name keeps the set of pointing links of the renamed record. */
  lemma RenameKeepsLinks(sc: Schema, tbl: Table, t: int, x: Value)
    requires WellFormed(sc) && Consistent(sc, tbl) && 0 <= t < |tbl| && CanRename(sc, tbl, t, x) && x != Empty
    ensures forall s, i :: IsLink(sc, Rename(sc, tbl, t, x), s, i, t) <==> IsLink(sc, tbl, s, i, t)
  {
    var r := Rename(sc, tbl, t, x);
    RenameNames(sc, tbl, t, x);
    forall s, i ensures IsLink(sc, r, s, i, t) <==> IsLink(sc, tbl, s, i, t) {
      if IsLink(sc, tbl, s, i, t) {
        assert r[s].fields[i] == RenamedFields(sc, tbl, t, x, s)[i];
      }
      if IsLink(sc, r, s, i, t) {
        assert r[s].fields[i] == RenamedFields(sc, tbl, t, x, s)[i];
        assert HoldsRef(sc, tbl, s, i) ==> exists q :: 0 <= q < |tbl| && IsLink(sc, tbl, s, i, q);
      }
    }
  }

  /**
   * After renaming t from its old name to a different one, no reference slot aimed
   * at t's class still holds the old name: every referrer was rewritten.
   */
  lemma RenameRetiresOldName(sc: Schema, tbl: Table, t: int, x: Value)
    requires WellFormed(sc) && Consistent(sc, tbl) && 0 <= t < |tbl| && x != Name(tbl[t])
    ensures forall s, i ::
      (0 <= s < |tbl| && 0 <= i < |tbl[s].fields| && IsPointer(sc, tbl[s].cls, i)
       && Target(sc, tbl[s].cls, i) == tbl[t].cls && Name(tbl[t]) != Empty)
      ==> Rename(sc, tbl, t, x)[s].fields[i] != Name(tbl[t])
    ensures Name(Rename(sc, tbl, t, x)[t]) == x
  {
    var r := Rename(sc, tbl, t, x);
    RenameNames(sc, tbl, t, x);
    forall s, i | 0 <= s < |tbl| && 0 <= i < |tbl[s].fields| && IsPointer(sc, tbl[s].cls, i)
      && Target(sc, tbl[s].cls, i) == tbl[t].cls && Name(tbl[t]) != Empty
      ensures r[s].fields[i] != Name(tbl[t])
    {
      assert r[s].fields[i] == RenamedFields(sc, tbl, t, x, s)[i];
      if tbl[s].fields[i] == Name(tbl[t]) {
        assert IsLink(sc, tbl, s, i, t);
      }
    }
  }

  /** Every slot that pointed at t holds the new name after the rename. */
  lemma RenameRewritesLinks(sc: Schema, tbl: Table, t: int, x: Value)
    ensures forall l :: l in Links(sc, tbl, t) ==>
      l.rec < |tbl| && l.slot < |tbl[l.rec].fields| && Rename(sc, tbl, t, x)[l.rec].fields[l.slot] == x
  {
    LinksMembers(sc, tbl, t);
  }

  // ---------------------------------------------------------------------------
  // Setting any slot: the name slot renames, any other slot is a plain assignment

  function SetField(sc: Schema, tbl: Table, t: int, i: int, x: Value): Table
    requires 0 <= t < |tbl| && 0 <= i < |tbl[t].fields|
  {
    if i == 0 then Rename(sc, tbl, t, x) else Assigned(tbl, t, i, x)
  }

  /** The checks a set_value must pass outside a batch. */
  predicate CanSetField(sc: Schema, tbl: Table, t: int, i: int, x: Value)
    requires 0 <= t < |tbl|
  {
    if i == 0 then CanRename(sc, tbl, t, x) else Resolvable(sc, tbl, tbl[t].cls, i, x)
  }

  lemma SetFieldKeepsShaped(sc: Schema, tbl: Table, t: int, i: int, x: Value)
    requires Shaped(sc, tbl) && 0 <= t < |tbl| && 0 <= i < |tbl[t].fields|
    ensures Shaped(sc, SetField(sc, tbl, t, i, x))
  {
    var r := SetField(sc, tbl, t, i, x);
    forall q | 0 <= q < |r| ensures CountOk(sc, r[q].cls, |r[q].fields|) {
      assert CountOk(sc, tbl[q].cls, |tbl[q].fields|);
    }
  }

  lemma SetFieldKeepsConsistent(sc: Schema, tbl: Table, t: int, i: int, x: Value)
    requires WellFormed(sc) && Consistent(sc, tbl) && 0 <= t < |tbl| && 0 <= i < |tbl[t].fields|
    requires CanSetField(sc, tbl, t, i, x)
    ensures Consistent(sc, SetField(sc, tbl, t, i, x))
  {
    if i == 0 {
      RenameKeepsConsistent(sc, tbl, t, x);
    } else {
      AssignKeepsConsistent(sc, tbl, t, i, x);
    }
  }

  // ---------------------------------------------------------------------------
  // Removing a record, clearing every slot that pointed at it

  function ClearedFields(sc: Schema, tbl: Table, t: int, s: int): seq<Value>
    requires 0 <= s < |tbl|
  {
    seq(|tbl[s].fields|, i requires 0 <= i < |tbl[s].fields| =>
      if IsLink(sc, tbl, s, i, t) then Empty else tbl[s].fields[i])
  }

  /** Position in the old table of the record at position k after removing position t. */
  function Survivor(t: int, k: int): int {
    if k < t then k else k + 1
  }

  /** The table after removing t: every slot that pointed at t is cleared and t's row is dropped. */
  function Removed(sc: Schema, tbl: Table, t: int): Table
    requires 0 <= t < |tbl|
  {
    seq(|tbl| - 1, k requires 0 <= k < |tbl| - 1 =>
      Rec(tbl[Survivor(t, k)].cls, ClearedFields(sc, tbl, t, Survivor(t, k))))
  }

  lemma RemovedNames(sc: Schema, tbl: Table, t: int)
    requires WellFormed(sc) && Shaped(sc, tbl) && 0 <= t < |tbl|
    ensures forall k :: 0 <= k < |tbl| - 1 ==> Removed(sc, tbl, t)[k].cls == tbl[Survivor(t, k)].cls
    ensures forall k :: 0 <= k < |tbl| - 1 ==>
      Name(Removed(sc, tbl, t)[k]) == if IsLink(sc, tbl, Survivor(t, k), 0, t) then Empty else Name(tbl[Survivor(t, k)])
  {
    var r := Removed(sc, tbl, t);
    forall k | 0 <= k < |tbl| - 1
      ensures Name(r[k]) == if IsLink(sc, tbl, Survivor(t, k), 0, t) then Empty else Name(tbl[Survivor(t, k)])
    {
      var s := Survivor(t, k);
      assert CountOk(sc, tbl[s].cls, |tbl[s].fields|);
      assert r[k].fields[0] == ClearedFields(sc, tbl, t, s)[0];
    }
  }

  /** Removing a record with its referrers cleared keeps the table consistent: nothing is left dangling. */
  lemma RemoveKeepsConsistent(sc: Schema, tbl: Table, t: int)
    requires WellFormed(sc) && Consistent(sc, tbl) && 0 <= t < |tbl|
    ensures Consistent(sc, Removed(sc, tbl, t))
  {
    var r := Removed(sc, tbl, t);
    RemovedNames(sc, tbl, t);
    forall a, b | 0 <= a < |r| && 0 <= b < |r| && a != b && r[a].cls == r[b].cls && Name(r[a]) != Empty
      ensures Name(r[a]) != Name(r[b])
    {
      assert Survivor(t, a) != Survivor(t, b);
    }
    forall k, i | HoldsRef(sc, r, k, i) ensures exists q :: 0 <= q < |r| && IsLink(sc, r, k, i, q) {
      var s := Survivor(t, k);
      assert r[k].fields[i] == ClearedFields(sc, tbl, t, s)[i];
      assert HoldsRef(sc, tbl, s, i);
      var p :| 0 <= p < |tbl| && IsLink(sc, tbl, s, i, p);
      assert p != t;
      if IsLink(sc, tbl, p, 0, t) {
        RenamedReferrerUntargeted(sc, tbl, t, p, s, i);
      }
      var q := if p < t then p else p - 1;
      assert Survivor(t, q) == p;
      assert IsLink(sc, r, k, i, q);
    }
  }

  lemma RemoveKeepsShaped(sc: Schema, tbl: Table, t: int)
    requires Shaped(sc, tbl) && 0 <= t < |tbl|
    ensures Shaped(sc, Removed(sc, tbl, t))
  {
    var r := Removed(sc, tbl, t);
    forall k | 0 <= k < |r| ensures CountOk(sc, r[k].cls, |r[k].fields|) {
      assert CountOk(sc, tbl[Survivor(t, k)].cls, |tbl[Survivor(t, k)].fields|);
    }
  }

  /** After removal no record of the removed record's class carries its name. */
  lemma RemovedNameGone(sc: Schema, tbl: Table, t: int)
    requires WellFormed(sc) && Consistent(sc, tbl) && 0 <= t < |tbl|
    ensures !Taken(Removed(sc, tbl, t), tbl[t].cls, Name(tbl[t]))
  {
    var r := Removed(sc, tbl, t);
    RemovedNames(sc, tbl, t);
    forall k | 0 <= k < |r| ensures !Named(r, k, tbl[t].cls, Name(tbl[t])) {
      var s := Survivor(t, k);
      assert s != t;
    }
  }

  /** Removing a record nothing points at drops its row and changes no other record. */
  lemma RemoveUnpointed(sc: Schema, tbl: Table, t: int)
    requires 0 <= t < |tbl| && Links(sc, tbl, t) == []
    ensures Removed(sc, tbl, t) == tbl[..t] + tbl[t + 1..]
  {
    LinksMembers(sc, tbl, t);
    var r := Removed(sc, tbl, t);
    forall k | 0 <= k < |r| ensures r[k] == (tbl[..t] + tbl[t + 1..])[k] {
      var s := Survivor(t, k);
      forall i | 0 <= i < |tbl[s].fields| ensures !IsLink(sc, tbl, s, i, t) {
        assert Link(s, i, NameSlot) !in Links(sc, tbl, t);
      }
      assert ClearedFields(sc, tbl, t, s) == tbl[s].fields;
    }
  }

  // ---------------------------------------------------------------------------
  // Replacing a record's body, keeping its name

  /** The replacement body with its name slot overwritten by the current name. */
  function KeepIdentity(name: Value, body: seq<Value>): (r: seq<Value>)
    ensures |r| == if |body| == 0 then 1 else |body|
    ensures r[0] == name && forall k :: 1 <= k < |body| ==> r[k] == body[k]
  {
    [name] + (if |body| > 0 then body[1..] else [])
  }

  function Replaced(tbl: Table, t: int, body: seq<Value>): Table
    requires 0 <= t < |tbl|
  {
    tbl[t := Rec(tbl[t].cls, KeepIdentity(Name(tbl[t]), body))]
  }

  /** Outside a batch, the new body must have an admissible length and resolvable references. */
  predicate CanReplace(sc: Schema, tbl: Table, t: int, body: seq<Value>)
    requires 0 <= t < |tbl|
  {
    var kept := KeepIdentity(Name(tbl[t]), body);
    CountOk(sc, tbl[t].cls, |kept|) && forall i :: 0 <= i < |kept| ==> Resolvable(sc, tbl, tbl[t].cls, i, kept[i])
  }

  lemma ReplaceKeepsConsistent(sc: Schema, tbl: Table, t: int, body: seq<Value>)
    requires Consistent(sc, tbl) && 0 <= t < |tbl| && CanReplace(sc, tbl, t, body)
    ensures Consistent(sc, Replaced(tbl, t, body))
  {
    var r := Replaced(tbl, t, body);
    assert forall q :: 0 <= q < |tbl| ==> Name(r[q]) == Name(tbl[q]) && r[q].cls == tbl[q].cls;
    forall s, i | HoldsRef(sc, r, s, i) ensures exists q :: 0 <= q < |r| && IsLink(sc, r, s, i, q) {
      if s == t {
        var q :| 0 <= q < |tbl| && Named(tbl, q, Target(sc, tbl[t].cls, i), r[t].fields[i]);
        assert IsLink(sc, r, s, i, q);
      } else {
        assert HoldsRef(sc, tbl, s, i);
        var q :| 0 <= q < |tbl| && IsLink(sc, tbl, s, i, q);
        assert IsLink(sc, r, s, i, q);
      }
    }
  }

  /**
   * Replacing t's body leaves every link into t from another record as it was,
   * and when t's class has no slot aimed at its own class the list of pointing
   * links is the same list as before.
   */
  lemma ReplaceKeepsPointing(sc: Schema, tbl: Table, t: int, body: seq<Value>)
    requires 0 <= t < |tbl|
    ensures forall s, i :: s != t ==> (IsLink(sc, Replaced(tbl, t, body), s, i, t) <==> IsLink(sc, tbl, s, i, t))
    ensures (forall i :: IsPointer(sc, tbl[t].cls, i) ==> Target(sc, tbl[t].cls, i) != tbl[t].cls)
      ==> Links(sc, Replaced(tbl, t, body), t) == Links(sc, tbl, t)
  {
    var r := Replaced(tbl, t, body);
    assert Name(r[t]) == Name(tbl[t]);
    if forall i :: IsPointer(sc, tbl[t].cls, i) ==> Target(sc, tbl[t].cls, i) != tbl[t].cls {
      forall s, i ensures IsLink(sc, r, s, i, t) <==> IsLink(sc, tbl, s, i, t) {
      }
      LinksAgree(sc, r, tbl, t, |tbl|);
    }
  }

  // ---------------------------------------------------------------------------
  // Generated names for copies

  /**
   * Outside a batch, a copy of record t under a name unused in its class may be
   * added, provided t's name slot is not itself a reference.
   */
  lemma CopyAdmissible(sc: Schema, tbl: Table, t: int, name: Value)
    requires Consistent(sc, tbl) && 0 <= t < |tbl| && |tbl[t].fields| >= 1
    requires !IsPointer(sc, tbl[t].cls, 0) && !Taken(tbl, tbl[t].cls, name)
    ensures CanAdd(sc, tbl, Rec(tbl[t].cls, [name] + tbl[t].fields[1..]))
  {
    var fields := [name] + tbl[t].fields[1..];
    assert CountOk(sc, tbl[t].cls, |tbl[t].fields|);
    forall i | 0 <= i < |fields| ensures Resolvable(sc, tbl, tbl[t].cls, i, fields[i]) {
      if i > 0 && fields[i] != Empty && IsPointer(sc, tbl[t].cls, i) {
        assert fields[i] == tbl[t].fields[i];
        assert HoldsRef(sc, tbl, t, i);
      }
    }
  }

  function NameLength(v: Value): nat {
    if v.Str? then |v.text| else 0
  }

  /** An upper bound on the length of every name in the table. */
  function MaxNameLength(tbl: Table): (n: nat)
    ensures forall q :: 0 <= q < |tbl| ==> NameLength(Name(tbl[q])) <= n
  {
    if tbl == [] then 0
    else
      var m := MaxNameLength(tbl[..|tbl| - 1]);
      assert forall q :: 0 <= q < |tbl| - 1 ==> tbl[..|tbl| - 1][q] == tbl[q];
      if NameLength(Name(tbl[|tbl| - 1])) > m then NameLength(Name(tbl[|tbl| - 1])) else m
  }
}
