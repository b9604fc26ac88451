/**
 * Slot names are matched without regard to letter case: the tests look up
 * "naMe", "NAME" and "AvaiLABIlity schedule name" and expect the slots
 * called "Name" and "Availability Schedule Name". Case folding here is ASCII only.
 */
module SlotNames {
  import opened Wrappers

  function LowerChar(c: char): char {
    if 'A' <= c <= 'Z' then (c as int + 32) as char else c
  }

  function Lower(s: string): (t: string)
    ensures |t| == |s|
    ensures forall k :: 0 <= k < |s| ==> t[k] == LowerChar(s[k])
  {
    seq(|s|, k requires 0 <= k < |s| => LowerChar(s[k]))
  }

  /** Two slot names denote the same slot when they agree once lower-cased. */
  predicate SameName(a: string, b: string) {
    Lower(a) == Lower(b)
  }

  /**
   * The position of the first slot whose name matches `query`, ignoring case,
   * or None when the class has no such slot.
   */
  function SlotIndex(names: seq<string>, query: string): (r: Option<nat>)
    ensures r.Some? ==> r.value < |names| && SameName(names[r.value], query)
    ensures r.Some? ==> forall k :: 0 <= k < r.value ==> !SameName(names[k], query)
    ensures r.None? <==> forall k :: 0 <= k < |names| ==> !SameName(names[k], query)
  {
    SlotIndexFrom(names, query, 0)
  }

  function SlotIndexFrom(names: seq<string>, query: string, from: nat): (r: Option<nat>)
    requires from <= |names|
    requires forall k :: 0 <= k < from ==> !SameName(names[k], query)
    ensures r.Some? ==> from <= r.value < |names| && SameName(names[r.value], query)
    ensures r.Some? ==> forall k :: 0 <= k < r.value ==> !SameName(names[k], query)
    ensures r.None? <==> forall k :: 0 <= k < |names| ==> !SameName(names[k], query)
    decreases |names| - from
  {
    if from == |names| then None
    else if SameName(names[from], query) then Some(from)
    else SlotIndexFrom(names, query, from + 1)
  }

  /** Spelling a slot name with different letter case selects the same slot. */
  lemma SlotIndexIgnoresCase(names: seq<string>, a: string, b: string)
    requires Lower(a) == Lower(b)
    ensures SlotIndex(names, a) == SlotIndex(names, b)
  {
    var ra, rb := SlotIndex(names, a), SlotIndex(names, b);
    if ra.Some? && rb.Some? {
      if ra.value < rb.value {
        assert SameName(names[ra.value], b);
      } else if rb.value < ra.value {
        assert SameName(names[rb.value], a);
      }
    } else if ra.Some? {
      assert SameName(names[ra.value], b);
    } else if rb.Some? {
      assert SameName(names[rb.value], a);
    }
  }
}
