/** The packing of spill slots of four and eight bytes: slot and the final alignment in spill.c. */
module SpillSlots {

  const NONE: int := -1

  /** How many temporaries of the given width have a slot. */
  ghost function Count(slot: seq<int>, wide: seq<bool>, w: bool): nat
    requires |slot| == |wide|
  {
    if slot == [] then 0 else
    Count(slot[..|slot| - 1], wide[..|wide| - 1], w) + if slot[|slot| - 1] != NONE && wide[|wide| - 1] == w then 1 else 0
  }

  lemma {:induction false} CountUpdate(slot: seq<int>, wide: seq<bool>, w: bool, t: nat, s: int)
    requires |slot| == |wide| && t < |slot| && slot[t] == NONE && s != NONE
    ensures Count(slot[t := s], wide, w) == Count(slot, wide, w) + if wide[t] == w then 1 else 0
  {
    var n := |slot| - 1;
    if t < n {
      CountUpdate(slot[..n], wide[..n], w, t, s);
      assert slot[t := s][..n] == slot[..n][t := s];
    } else {
      assert slot[t := s][..n] == slot[..n];
    }
  }

  lemma {:induction false} CountNone(slot: seq<int>, wide: seq<bool>, w: bool)
    requires |slot| == |wide| && forall t :: 0 <= t < |slot| ==> slot[t] == NONE
    ensures Count(slot, wide, w) == 0
  {
    if slot != [] { CountNone(slot[..|slot| - 1], wide[..|wide| - 1], w); }
  }

  /** Temporary t occupies the unit x, counted in four bytes from the end of the locals. */
  ghost predicate Occupies(slot: seq<int>, wide: seq<bool>, locs: int, t: nat, x: int)
    requires |slot| == |wide| && t < |slot|
  {
    slot[t] != NONE && (slot[t] - locs == x || (wide[t] && slot[t] - locs + 1 == x))
  }

  /** A slot lies between the locals and slot8; a wide one is aligned. */
  ghost predicate Placed(slot: seq<int>, wide: seq<bool>, locs: int, slot8: int, t: nat)
    requires |slot| == |wide| && t < |slot|
  {
    slot[t] != NONE ==>
      && 0 <= slot[t] - locs && slot[t] - locs + (if wide[t] then 2 else 1) <= slot8
      && (wide[t] ==> (slot[t] - locs) % 2 == 0)
  }

  /** No unit belongs to two temporaries. */
  ghost predicate Apart(slot: seq<int>, wide: seq<bool>, locs: int)
    requires |slot| == |wide|
  {
    forall t: nat, u: nat, x: int :: t < u < |slot| ==>
      !(Occupies(slot, wide, locs, t, x) && Occupies(slot, wide, locs, u, x))
  }

  /** A unit below slot8 is free only if it is the hole that slot4 points to. */
  ghost predicate Packed(slot: seq<int>, wide: seq<bool>, locs: int, slot4: int, slot8: int)
    requires |slot| == |wide|
  {
    forall x :: 0 <= x < slot8 ==> (x == slot4 <==> !Used(slot, wide, locs, x))
  }

  ghost predicate Used(slot: seq<int>, wide: seq<bool>, locs: int, x: int)
    requires |slot| == |wide|
  {
    exists t: nat :: t < |slot| && Occupies(slot, wide, locs, t, x)
  }

  /** The number of units in use: two for a wide slot, and the narrow ones in pairs. */
  ghost function Extent(slot: seq<int>, wide: seq<bool>): nat
    requires |slot| == |wide|
  {
    2 * Count(slot, wide, true) + 2 * ((Count(slot, wide, false) + 1) / 2)
  }

  ghost predicate Invariant(slot: seq<int>, wide: seq<bool>, locs: int, slot4: int, slot8: int) {
    && |slot| == |wide| && locs >= 0 && 0 <= slot4 <= slot8 && slot8 % 2 == 0
    && (slot4 == slot8 <==> Count(slot, wide, false) % 2 == 0) && (slot4 < slot8 ==> slot4 % 2 == 1)
    && slot8 == Extent(slot, wide)
    && (forall t: nat :: t < |slot| ==> slot[t] >= NONE && Placed(slot, wide, locs, slot8, t))
    && Apart(slot, wide, locs) && Packed(slot, wide, locs, slot4, slot8)
  }

  /** t gets the units from s on, which were free. */
  lemma GiveSlot(slot: seq<int>, wide: seq<bool>, locs: int, slot4: int, slot8: int, t: nat, s: int, slot4': int,
                 slot8': int)
    requires Invariant(slot, wide, locs, slot4, slot8) && t < |slot| && slot[t] == NONE
    requires if wide[t] then s == slot8 && slot8' == slot8 + 2 && slot4' == (if slot4 == slot8 then slot4 + 2 else slot4)
             else s == slot4 && if slot4 == slot8 then slot8' == slot8 + 2 && slot4' == slot4 + 1 else slot8' == slot8 && slot4' == slot8
    ensures Invariant(slot[t := s + locs], wide, locs, slot4', slot8')
  {
    var slot' := slot[t := s + locs];
    GiveExtent(slot, wide, locs, t, s);
    forall u: nat | u < |slot'| ensures slot'[u] >= NONE && Placed(slot', wide, locs, slot8', u) {
      assert Placed(slot, wide, locs, slot8, u);
    }
    GiveApart(slot, wide, locs, slot4, slot8, t, s);
    NothingBeyond(slot, wide, locs, slot8);
    GivePacked(slot, wide, locs, slot4, slot8, t, s, slot4', slot8');
  }

  /** The hole moves, is filled, or a new one is left. */
  lemma GivePacked(slot: seq<int>, wide: seq<bool>, locs: int, slot4: int, slot8: int, t: nat, s: int, slot4': int,
                   slot8': int)
    requires |slot| == |wide| && 0 <= slot4 <= slot8 && locs >= 0 && Packed(slot, wide, locs, slot4, slot8)
    requires t < |slot| && slot[t] == NONE
    requires forall x :: x >= slot8 ==> !Used(slot, wide, locs, x)
    requires if wide[t] then s == slot8 && slot8' == slot8 + 2 && slot4' == (if slot4 == slot8 then slot4 + 2 else slot4)
             else s == slot4 && if slot4 == slot8 then slot8' == slot8 + 2 && slot4' == slot4 + 1 else slot8' == slot8 && slot4' == slot8
    ensures Packed(slot[t := s + locs], wide, locs, slot4', slot8')
  {
    var slot' := slot[t := s + locs];
    forall x | 0 <= x < slot8' ensures x == slot4' <==> !Used(slot', wide, locs, x) {
      UsedAfter(slot, wide, locs, t, s, x);
    }
  }

  lemma NothingBeyond(slot: seq<int>, wide: seq<bool>, locs: int, slot8: int)
    requires |slot| == |wide| && forall t: nat :: t < |slot| ==> Placed(slot, wide, locs, slot8, t)
    ensures forall x :: x >= slot8 ==> !Used(slot, wide, locs, x)
  {
    forall x, t: nat | x >= slot8 && t < |slot| ensures !Occupies(slot, wide, locs, t, x) {
      assert Placed(slot, wide, locs, slot8, t);
    }
  }

  lemma GiveExtent(slot: seq<int>, wide: seq<bool>, locs: int, t: nat, s: int)
    requires |slot| == |wide| && t < |slot| && slot[t] == NONE && s >= 0 && locs >= 0
    ensures var slot', n := slot[t := s + locs], Count(slot, wide, false);
      && Count(slot', wide, false) == (if wide[t] then n else n + 1)
      && Extent(slot', wide) == Extent(slot, wide) + if wide[t] || n % 2 == 0 then 2 else 0
  {
    CountUpdate(slot, wide, true, t, s + locs);
    CountUpdate(slot, wide, false, t, s + locs);
  }

  /** The units given away were free. */
  lemma GiveApart(slot: seq<int>, wide: seq<bool>, locs: int, slot4: int, slot8: int, t: nat, s: int)
    requires Invariant(slot, wide, locs, slot4, slot8) && t < |slot| && slot[t] == NONE
    requires if wide[t] then s == slot8 else s == slot4
    ensures Apart(slot[t := s + locs], wide, locs)
  {
    var slot' := slot[t := s + locs];
    forall u: nat, v: nat, x: int | u < v < |slot'|
      ensures !(Occupies(slot', wide, locs, u, x) && Occupies(slot', wide, locs, v, x))
    {
      assert !(Occupies(slot, wide, locs, u, x) && Occupies(slot, wide, locs, v, x));
      assert Placed(slot, wide, locs, slot8, u) && Placed(slot, wide, locs, slot8, v);
      assert Occupies(slot, wide, locs, u, x) ==> 0 <= x < slot8 && Used(slot, wide, locs, x);
      assert Occupies(slot, wide, locs, v, x) ==> 0 <= x < slot8 && Used(slot, wide, locs, x);
    }
  }

  lemma UsedAfter(slot: seq<int>, wide: seq<bool>, locs: int, t: nat, s: int, x: int)
    requires |slot| == |wide| && t < |slot| && slot[t] == NONE && s + locs != NONE
    ensures Used(slot[t := s + locs], wide, locs, x) <==> Used(slot, wide, locs, x) || x == s || (wide[t] && x == s + 1)
  {
    var slot' := slot[t := s + locs];
    assert Occupies(slot', wide, locs, t, x) <==> x == s || (wide[t] && x == s + 1);
    if Used(slot, wide, locs, x) {
      var u: nat :| u < |slot| && Occupies(slot, wide, locs, u, x);
      assert Occupies(slot', wide, locs, u, x);
    }
    if Used(slot', wide, locs, x) {
      var u: nat :| u < |slot| && Occupies(slot', wide, locs, u, x);
      assert u != t ==> Occupies(slot, wide, locs, u, x);
    }
  }

  /** The statics slot4 and slot8, and the slot field of the temporaries; wide tells the class of each. */
  class Spiller {
    const wide: seq<bool>
    const locs: int
    var slot: seq<int>
    var slot4: int
    var slot8: int

    ghost predicate Valid()
      reads this
    {
      Invariant(slot, wide, locs, slot4, slot8)
    }

    constructor (wide: seq<bool>, locs: nat)
      ensures Valid() && this.wide == wide && this.locs == locs
      ensures |slot| == |wide| && forall t :: 0 <= t < |slot| ==> slot[t] == NONE
    {
      this.wide, this.locs := wide, locs;
      slot := seq(|wide|, t => NONE);
      slot4, slot8 := 0, 0;
      new;
      CountNone(slot, wide, true);
      CountNone(slot, wide, false);
    }

    /** slot: the slot of t, found on the first request and kept from then on. */
    method Slot(t: nat) returns (s: int)
      requires Valid() && t < |slot|
      modifies this
      ensures Valid() && |slot| == old(|slot|) && s == slot[t] != NONE
      ensures forall u :: 0 <= u < |slot| && (u != t || old(slot[t]) != NONE) ==> slot[u] == old(slot[u])
    {
      s := slot[t];
      if s == NONE {
        ghost var before, four, eight := slot, slot4, slot8;
        if wide[t] {
          s := slot8;
          if slot4 == slot8 {
            slot4 := slot4 + 2;
          }
          slot8 := slot8 + 2;
        } else {
          s := slot4;
          if slot4 == slot8 {
            slot8 := slot8 + 2;
            slot4 := slot4 + 1;
          } else {
            slot4 := slot8;
          }
        }
        GiveSlot(before, wide, locs, four, eight, t, s, slot4, slot8);
        s := s + locs;
        slot := slot[t := s];
      }
    }

    /** The end of spill: the spill area is rounded up to 16 bytes, by less than that, and added to the locals. */
    method Finish() returns (fnslot: int)
      requires Valid()
      modifies this`slot8
      ensures slot8 % 4 == 0 && old(slot8) <= slot8 < old(slot8) + 4 && fnslot == locs + slot8
      ensures forall t: nat :: t < |slot| ==> Placed(slot, wide, locs, slot8, t)
    {
      assert forall t: nat :: t < |slot| ==> Placed(slot, wide, locs, slot8, t);
      slot8 := slot8 + slot8 % 4;
      fnslot := locs + slot8;
    }
  }
}
