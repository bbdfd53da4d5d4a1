/** Fusion of stack slots with disjoint live ranges: radd, rovlap and the greedy pass of coalesce in mem.c. */
module SlotFusion {

  const NONE: int := -1

  /** The instructions a, ..., b - 1; b == 0 stands for no instruction at all. */
  datatype Range = Range(a: int, b: int)

  predicate ValidRange(r: Range) {
    r.b == 0 || 0 <= r.a < r.b
  }

  predicate Rin(r: Range, n: int) {
    r.a <= n < r.b
  }

  predicate Rovlap(r: Range, s: Range) {
    r.b != 0 && s.b != 0 && r.a < s.b && s.a < r.b
  }

  /** The instructions of a range. */
  ghost predicate Holds(r: Range, n: int) {
    r.b != 0 && Rin(r, n)
  }

  /** rovlap: two ranges have an instruction in common. */
  lemma RovlapExact(r: Range, s: Range)
    requires ValidRange(r) && ValidRange(s)
    ensures Rovlap(r, s) <==> exists n :: Holds(r, n) && Holds(s, n)
  {
    if Rovlap(r, s) {
      var n := if r.a < s.a then s.a else r.a;
      assert Holds(r, n) && Holds(s, n);
    }
  }

  /** radd. */
  function Radd(r: Range, n: int): Range {
    if r.b == 0 then Range(n, n + 1)
    else if n < r.a then r.(a := n)
    else if n >= r.b then r.(b := n + 1)
    else r
  }

  /** s lies inside r. */
  ghost predicate Inside(s: Range, r: Range) {
    s.b != 0 ==> r.b != 0 && r.a <= s.a && s.b <= r.b
  }

  /** radd gives the smallest range that contains r and n. */
  lemma RaddIsHull(r: Range, n: int, s: Range)
    requires ValidRange(r) && n >= 0 && ValidRange(s)
    ensures ValidRange(Radd(r, n)) && Inside(r, Radd(r, n)) && Holds(Radd(r, n), n)
    ensures Inside(r, s) && Holds(s, n) ==> Inside(Radd(r, n), s)
  {}

  /** Adding both ends of s, as coalesce does, adds all of it. */
  lemma RaddBothEnds(r: Range, s: Range)
    requires ValidRange(r) && ValidRange(s) && s.b != 0
    ensures ValidRange(Radd(Radd(r, s.a), s.b - 1)) && Inside(r, Radd(Radd(r, s.a), s.b - 1))
    ensures Inside(s, Radd(Radd(r, s.a), s.b - 1))
  {}

  lemma OutsideHull(m: Range, r: Range, s: Range)
    requires ValidRange(m) && ValidRange(r) && ValidRange(s) && Inside(m, r) && !Rovlap(r, s)
    ensures !Rovlap(m, s)
  {}

  // ----- the greedy pass -----

  /** The slots, in order of decreasing size. */
  datatype Slots = Slots(sz: seq<nat>, r: seq<Range>) {
    ghost predicate Valid() {
      && |sz| == |r| && (forall i :: 0 <= i < |r| ==> ValidRange(r[i]))
      && forall i, j :: 0 <= i <= j < |sz| ==> sz[i] >= sz[j]
    }
  }

  /** Two slots that share a representative do not overlap. */
  ghost predicate Apart(sl: Slots, rep: seq<int>)
    requires |rep| == |sl.r|
  {
    forall i, j :: 0 <= i < j < |rep| && rep[i] == rep[j] != NONE ==> !Rovlap(sl.r[i], sl.r[j])
  }

  /** The representative of a slot comes first in its group. */
  ghost predicate Grouped(rep: seq<int>, n: int) {
    forall i :: 0 <= i < |rep| && rep[i] != NONE ==> 0 <= rep[i] <= i && rep[i] < n && rep[rep[i]] == rep[i]
  }

  /** Slot i could not join the group of q: it overlaps a slot before it that did, or is never live. */
  ghost predicate Refused(sl: Slots, rep: seq<int>, q: int, i: int)
    requires |rep| == |sl.r| && 0 <= i < |rep|
  {
    sl.r[i].b == 0 || exists m :: 0 <= m < i && rep[m] == q && Rovlap(sl.r[m], sl.r[i])
  }

  /** A slot is in the first group that could take it. */
  ghost predicate FirstFit(sl: Slots, rep: seq<int>, n: int)
    requires |rep| == |sl.r|
  {
    forall q, i :: 0 <= q < n && q < i < |rep| && rep[q] == q && (rep[i] == NONE || rep[i] > q) ==>
      Refused(sl, rep, q, i)
  }

  ghost predicate Fusing(sl: Slots, rep: seq<int>, n: int) {
    && sl.Valid() && |rep| == |sl.r| && Apart(sl, rep) && Grouped(rep, n) && FirstFit(sl, rep, n)
    && forall i :: 0 <= i < n && i < |rep| ==> rep[i] != NONE
  }

  /** The scan for the group of n has reached slot s, and r contains the ranges of the group. */
  ghost predicate Scanning(sl: Slots, rep: seq<int>, n: int, s: int, r: Range) {
    && sl.Valid() && |rep| == |sl.r| && 0 <= n < s <= |rep| && rep[n] == n && Apart(sl, rep) && Grouped(rep, n + 1)
    && FirstFit(sl, rep, n) && (forall i :: 0 <= i < n ==> rep[i] != NONE)
    && ValidRange(r) && (forall m :: 0 <= m < |rep| && rep[m] == n ==> n <= m < s && Inside(sl.r[m], r))
    && forall i :: n < i < s && rep[i] == NONE ==> Refused(sl, rep, n, i)
  }

  lemma RefusedStays(sl: Slots, rep: seq<int>, q: int, i: int, s: int, n: int)
    requires |rep| == |sl.r| && 0 <= i < |rep| && 0 <= s < |rep| && rep[s] == NONE && q != NONE
    requires Refused(sl, rep, q, i)
    ensures Refused(sl, rep[s := n], q, i)
  {
    if sl.r[i].b != 0 {
      var m :| 0 <= m < i && rep[m] == q && Rovlap(sl.r[m], sl.r[i]);
      assert rep[s := n][m] == q;
    }
  }

  /** Slot s joins the group of n. */
  lemma Join(sl: Slots, rep: seq<int>, n: int, s: int, r: Range)
    requires Scanning(sl, rep, n, s, r) && s < |rep| && rep[s] == NONE && sl.r[s].b != 0
    requires forall m :: 0 <= m < s && rep[m] == n ==> !Rovlap(sl.r[m], sl.r[s])
    ensures Scanning(sl, rep[s := n], n, s + 1, Radd(Radd(r, sl.r[s].a), sl.r[s].b - 1))
  {
    var rep' := rep[s := n];
    RaddBothEnds(r, sl.r[s]);
    forall q, i | 0 <= q < n && q < i < |rep'| && rep'[q] == q && (rep'[i] == NONE || rep'[i] > q)
      ensures Refused(sl, rep', q, i)
    {
      assert rep[q] == q && (rep[i] == NONE || rep[i] > q);
      RefusedStays(sl, rep, q, i, s, n);
    }
    forall i | n < i < s + 1 && rep'[i] == NONE ensures Refused(sl, rep', n, i) {
      RefusedStays(sl, rep, n, i, s, n);
    }
  }

  /** Slot s is passed over. */
  lemma Pass(sl: Slots, rep: seq<int>, n: int, s: int, r: Range)
    requires Scanning(sl, rep, n, s, r) && s < |rep| && (rep[s] != NONE || Refused(sl, rep, n, s)) && rep[s] != n
    ensures Scanning(sl, rep, n, s + 1, r)
  {}

  /** A new group is opened for n. */
  lemma Open(sl: Slots, rep: seq<int>, n: int)
    requires Fusing(sl, rep, n) && 0 <= n < |rep| && rep[n] == NONE
    ensures Scanning(sl, rep[n := n], n, n + 1, sl.r[n])
  {
    var rep' := rep[n := n];
    forall q, i | 0 <= q < n && q < i < |rep'| && rep'[q] == q && (rep'[i] == NONE || rep'[i] > q)
      ensures Refused(sl, rep', q, i)
    {
      assert rep[q] == q && (rep[i] == NONE || rep[i] > q);
      RefusedStays(sl, rep, q, i, n, n);
    }
  }

  lemma CloseGroup(sl: Slots, rep: seq<int>, n: int, r: Range)
    requires Scanning(sl, rep, n, |rep|, r)
    ensures Fusing(sl, rep, n + 1)
  {
    forall q, i | 0 <= q < n + 1 && q < i < |rep| && rep[q] == q && (rep[i] == NONE || rep[i] > q)
      ensures Refused(sl, rep, q, i)
    {
      if q == n { assert rep[i] == NONE; }
    }
  }

  /** The slow test: does slot s overlap a member of the group of n? */
  method Conflicts(sl: Slots, rep: array<int>, n: nat, s: nat) returns (c: bool)
    requires sl.Valid() && rep.Length == |sl.r| && n < s < rep.Length && forall m :: 0 <= m < n ==> rep[m] != n
    ensures c <==> exists m :: 0 <= m < s && rep[m] == n && Rovlap(sl.r[m], sl.r[s])
  {
    for m := n to s
      invariant forall k :: 0 <= k < m ==> !(rep[k] == n && Rovlap(sl.r[k], sl.r[s]))
    {
      if rep[m] == n && Rovlap(sl.r[m], sl.r[s]) {
        return true;
      }
    }
    return false;
  }

  /** One round of the inner loop. */
  method TryFuse(sl: Slots, rep: array<int>, n: nat, s: nat, r: Range) returns (r': Range)
    requires rep.Length == |sl.r| && Scanning(sl, rep[..], n, s, r) && s < rep.Length
    modifies rep
    ensures Scanning(sl, rep[..], n, s + 1, r')
  {
    r' := r;
    ghost var before := rep[..];
    assert forall m :: 0 <= m < n ==> before[m] != n;
    if rep[s] != NONE || sl.r[s].b == 0 {
      Pass(sl, before, n, s, r);
      return;
    }
    var c := false;
    if Rovlap(r, sl.r[s]) {
      c := Conflicts(sl, rep, n, s);
    } else {
      forall m | 0 <= m < s && before[m] == n ensures !Rovlap(sl.r[m], sl.r[s]) {
        OutsideHull(sl.r[m], r, sl.r[s]);
      }
    }
    if c {
      Pass(sl, before, n, s, r);
    } else {
      Join(sl, before, n, s, r);
      r' := Radd(r, sl.r[s].a);
      r' := Radd(r', sl.r[s].b - 1);
      rep[s] := n;
      assert rep[..] == before[s := n];
    }
  }

  /**
   * The fusing loop of coalesce. Every slot gets a representative at least as large as itself, the slots that share
   * one have pairwise disjoint live ranges, and no slot could have joined an earlier group.
   */
  method Fuse(sl: Slots) returns (rep: array<int>)
    requires sl.Valid()
    ensures fresh(rep) && rep.Length == |sl.r|
    ensures forall i :: 0 <= i < rep.Length ==> 0 <= rep[i] <= i && rep[rep[i]] == rep[i] && sl.sz[rep[i]] >= sl.sz[i]
    ensures Apart(sl, rep[..])
    ensures FirstFit(sl, rep[..], rep.Length)
  {
    rep := new int[|sl.r|](_ => NONE);
    for n := 0 to rep.Length
      invariant Fusing(sl, rep[..], n)
    {
      if rep[n] == NONE {
        ghost var before := rep[..];
        Open(sl, before, n);
        rep[n] := n;
        assert rep[..] == before[n := n];
        var r := sl.r[n];
        for s := n + 1 to rep.Length
          invariant Scanning(sl, rep[..], n, s, r)
        {
          r := TryFuse(sl, rep, n, s, r);
        }
        CloseGroup(sl, rep[..], n, r);
      } else {
        NoNewGroup(sl, rep[..], n);
      }
    }
  }

  lemma NoNewGroup(sl: Slots, rep: seq<int>, n: int)
    requires Fusing(sl, rep, n) && 0 <= n < |rep| && rep[n] != NONE
    ensures Fusing(sl, rep, n + 1)
  {}

  /** At every instruction at most one of the slots that share memory is live. */
  lemma AtMostOneLive(sl: Slots, rep: seq<int>, i: nat, j: nat, n: int)
    requires sl.Valid() && |rep| == |sl.r| && Apart(sl, rep) && i < j < |rep| && rep[i] == rep[j] != NONE
    ensures !(Holds(sl.r[i], n) && Holds(sl.r[j], n))
  {
    RovlapExact(sl.r[i], sl.r[j]);
  }
}
