/** Loop depths: loopmark, loopiter and fillloop of cfg.c. Blocks are named by their reverse-postorder number. */
module LoopDepth {
  import opened Cfg

  /** p leads from x to its end without leaving the blocks from hd on. */
  ghost predicate Inside(p: seq<nat>, hd: nat) {
    forall i :: 0 <= i < |p| ==> p[i] >= hd
  }

  /** x lies on a way back to hd that does not pass a smaller number: it belongs to the loop of hd. */
  ghost predicate InLoop(g: Graph, hd: nat, x: nat) {
    exists p :: IsPath(g, x, p, hd) && |p| > 1 && Inside(p, hd)
  }

  ghost predicate PredsOk(g: Graph, pred: seq<seq<nat>>) {
    g.Valid() && |pred| == |g.s1| && forall b: nat :: b < |pred| ==> IsPreds(g, b, pred[b])
  }

  ghost function Headers(g: Graph, n: nat, x: nat): set<nat> {
    set hd: nat | hd < n && InLoop(g, hd, x)
  }

  function Pow10(k: nat): nat {
    if k == 0 then 1 else 10 * Pow10(k - 1)
  }

  ghost function Marked(visit: seq<int>, hd: nat): set<int> {
    set x | 0 <= x < |visit| && visit[x] == hd
  }

  ghost function Unmarked(visit: seq<int>, hd: nat): set<int> {
    set x | 0 <= x < |visit| && visit[x] != hd
  }

  ghost predicate PredsMarked(pred: seq<seq<nat>>, hd: nat, v: seq<int>, x: nat)
    requires x < |pred|
  {
    forall p: nat :: p in pred[x] ==> p < hd || (p < |v| && v[p] == hd)
  }

  /** The blocks marked since v are in the loop, and their predecessors are marked too. */
  ghost predicate Marks(g: Graph, pred: seq<seq<nat>>, hd: nat, v: seq<int>, v': seq<int>)
    requires |v| == |v'| == |pred|
  {
    && (forall x: nat :: x < |v| && v[x] == hd ==> v'[x] == hd)
    && (forall x: nat :: x < |v| && v'[x] != v[x] ==> v'[x] == hd && InLoop(g, hd, x))
    && forall x: nat :: x < |v| && v'[x] != v[x] ==> PredsMarked(pred, hd, v', x)
  }

  lemma PredInLoop(g: Graph, hd: nat, b: nat, p: nat)
    requires g.Valid() && InLoop(g, hd, b) && g.Edge(p, b) && p >= hd
    ensures InLoop(g, hd, p)
  {
    var q :| IsPath(g, b, q, hd) && |q| > 1 && Inside(q, hd);
    assert IsPath(g, p, [p] + q, hd) by {
      forall i | 1 <= i < |[p] + q| ensures g.Edge(([p] + q)[i - 1], ([p] + q)[i]) {
        if i > 1 { assert g.Edge(q[i - 2], q[i - 1]); }
      }
    }
  }

  /** The depths are multiplied where a mark is new. */
  ghost predicate Multiplied(v: seq<int>, v': seq<int>, l: seq<nat>, l': seq<nat>)
    requires |v| == |v'| == |l| == |l'|
  {
    forall x :: 0 <= x < |v| ==> l'[x] == if v'[x] == v[x] then l[x] else 10 * l[x]
  }

  /** loopmark, with multloop as the function applied to each block of the loop. */
  method LoopMark(g: Graph, pred: seq<seq<nat>>, hd: nat, b: nat, visit: array<int>, loop: array<nat>)
    requires PredsOk(g, pred) && visit.Length == loop.Length == |pred| && b < |pred| && hd < |pred|
    requires b >= hd ==> InLoop(g, hd, b)
    modifies visit, loop
    ensures Marks(g, pred, hd, old(visit[..]), visit[..])
    ensures Multiplied(old(visit[..]), visit[..], old(loop[..]), loop[..])
    ensures b >= hd ==> visit[b] == hd
    decreases Unmarked(visit[..], hd)
  {
    ghost var v0, l0 := visit[..], loop[..];
    if b < hd || visit[b] == hd {
      return;
    }
    visit[b] := hd;
    loop[b] := 10 * loop[b];
    ghost var v1 := visit[..];
    assert b in Unmarked(v0, hd) && b !in Unmarked(v1, hd) && Unmarked(v1, hd) <= Unmarked(v0, hd);
    for p := 0 to |pred[b]|
      invariant forall x: nat :: x < |v0| && v1[x] == hd ==> visit[x] == hd
      invariant Progress(g, pred, hd, b, p, v0, visit[..]) && Multiplied(v0, visit[..], l0, loop[..])
    {
      ghost var v2, l2 := visit[..], loop[..];
      assert pred[b][p] in pred[b];
      if pred[b][p] >= hd { PredInLoop(g, hd, b, pred[b][p]); }
      assert Unmarked(v2, hd) <= Unmarked(v1, hd);
      LoopMark(g, pred, hd, pred[b][p], visit, loop);
      ProgressStep(g, pred, hd, b, p, v0, v2, visit[..]);
      MultipliedTrans(g, pred, hd, v0, v2, visit[..], l0, l2, loop[..]);
    }
  }

  /** As Marks, but of the predecessors of b only the first k have been looked at. */
  ghost predicate Progress(g: Graph, pred: seq<seq<nat>>, hd: nat, b: nat, k: nat, v: seq<int>, v': seq<int>)
    requires |v| == |v'| == |pred| && b < |pred| && k <= |pred[b]|
  {
    && v[b] != hd && v'[b] == hd && InLoop(g, hd, b)
    && (forall x: nat :: x < |v| && v[x] == hd ==> v'[x] == hd)
    && (forall x: nat :: x < |v| && v'[x] != v[x] ==> v'[x] == hd && InLoop(g, hd, x))
    && (forall x: nat :: x < |v| && x != b && v'[x] != v[x] ==> PredsMarked(pred, hd, v', x))
    && forall i :: 0 <= i < k ==> pred[b][i] < hd || (pred[b][i] < |v| && v'[pred[b][i]] == hd)
  }

  lemma ProgressStep(g: Graph, pred: seq<seq<nat>>, hd: nat, b: nat, k: nat, v: seq<int>, v1: seq<int>, v2: seq<int>)
    requires |v| == |v1| == |v2| == |pred| && b < |pred| && k < |pred[b]| && pred[b][k] < |pred|
    requires Progress(g, pred, hd, b, k, v, v1) && Marks(g, pred, hd, v1, v2)
    requires (pred[b][k] >= hd ==> v2[pred[b][k]] == hd)
    ensures Progress(g, pred, hd, b, k + 1, v, v2)
  {
    forall x: nat | x < |v| && x != b && v2[x] != v[x] ensures PredsMarked(pred, hd, v2, x) {
      assert v1[x] != v[x] ==> PredsMarked(pred, hd, v1, x);
    }
  }

  lemma MultipliedTrans(g: Graph, pred: seq<seq<nat>>, hd: nat, v: seq<int>, v1: seq<int>, v2: seq<int>,
                        l: seq<nat>, l1: seq<nat>, l2: seq<nat>)
    requires |v| == |v1| == |v2| == |l| == |l1| == |l2| == |pred|
    requires Marks(g, pred, hd, v1, v2) && Multiplied(v, v1, l, l1) && Multiplied(v1, v2, l1, l2)
    requires forall x :: 0 <= x < |v| && v1[x] != v[x] ==> v1[x] == hd
    ensures Multiplied(v, v2, l, l2)
  {}

  /** The marks made for header n are the blocks of its loop. */
  ghost predicate Closed(pred: seq<seq<nat>>, n: nat, v: seq<int>)
    requires |v| == |pred| && n < |pred|
  {
    && PredsMarked(pred, n, v, n)
    && forall x: nat :: x < |v| && v[x] == n ==> PredsMarked(pred, n, v, x)
  }

  lemma {:induction false} LoopIsMarked(g: Graph, pred: seq<seq<nat>>, n: nat, v: seq<int>, x: nat, p: seq<nat>)
    requires PredsOk(g, pred) && |v| == |pred| && n < |pred| && Closed(pred, n, v)
    requires IsPath(g, x, p, n) && |p| > 1 && Inside(p, n)
    ensures x < |v| && v[x] == n
    decreases |p|
  {
    assert g.Edge(p[0], p[1]);
    if |p| > 2 {
      PathSuffix(g, x, p, n, 1);
      LoopIsMarked(g, pred, n, v, p[1], p[1..]);
    }
    assert IsPreds(g, p[1], pred[p[1]]);
  }

  /** The loop of loopiter for one block n: only the blocks of its loop get its mark. */
  method LoopOf(g: Graph, pred: seq<seq<nat>>, n: nat, visit: array<int>, loop: array<nat>)
    requires PredsOk(g, pred) && visit.Length == loop.Length == |pred| && n < |pred|
    requires forall x :: 0 <= x < |pred| ==> visit[x] < n
    modifies visit, loop
    ensures forall x: nat :: x < |pred| ==> visit[x] == if InLoop(g, n, x) then n else old(visit[x])
    ensures forall x: nat :: x < |pred| ==> loop[x] == if InLoop(g, n, x) then 10 * old(loop[x]) else old(loop[x])
  {
    ghost var v0, l0 := visit[..], loop[..];
    for k := 0 to |pred[n]|
      invariant Marks(g, pred, n, v0, visit[..]) && Multiplied(v0, visit[..], l0, loop[..])
      invariant forall i :: 0 <= i < k && pred[n][i] >= n ==> pred[n][i] < |pred| && visit[pred[n][i]] == n
    {
      ghost var v1, l1 := visit[..], loop[..];
      var p := pred[n][k];
      assert p in pred[n] && g.Edge(p, n);
      if p >= n {
        assert IsPath(g, p, [p, n], n) && Inside([p, n], n);
        LoopMark(g, pred, n, p, visit, loop);
        MultipliedTrans(g, pred, n, v0, v1, visit[..], l0, l1, loop[..]);
      }
    }
    ghost var v := visit[..];
    forall x: nat | x < |pred| && InLoop(g, n, x) ensures v[x] == n {
      var p :| IsPath(g, x, p, n) && |p| > 1 && Inside(p, n);
      LoopIsMarked(g, pred, n, v, x, p);
    }
  }

  /** fillloop: a block in k loops gets the depth 10 to the k. */
  method FillLoop(g: Graph, pred: seq<seq<nat>>, loop: array<nat>)
    requires PredsOk(g, pred) && loop.Length == |pred|
    modifies loop
    ensures forall x: nat :: x < |pred| ==> loop[x] == Pow10(|Headers(g, |pred|, x)|)
  {
    var visit := new int[|pred|](x => -1);
    forall x | 0 <= x < loop.Length {
      loop[x] := 1;
    }
    for n := 0 to |pred|
      invariant forall x: nat :: x < |pred| ==> visit[x] < n && loop[x] == Pow10(|Headers(g, n, x)|)
    {
      ghost var l := loop[..];
      LoopOf(g, pred, n, visit, loop);
      forall x: nat | x < |pred| ensures loop[x] == Pow10(|Headers(g, n + 1, x)|) {
        MoreHeaders(g, n, x);
        assert loop[x] == if InLoop(g, n, x) then 10 * l[x] else l[x];
      }
    }
  }

  lemma MoreHeaders(g: Graph, n: nat, x: nat)
    ensures |Headers(g, n + 1, x)| == |Headers(g, n, x)| + if InLoop(g, n, x) then 1 else 0
  {
    assert Headers(g, n + 1, x) == Headers(g, n, x) + if InLoop(g, n, x) then {n} else {};
  }

  /** Nothing jumps to the start block, so it is in no loop and its depth is least. */
  lemma StartIsShallow(g: Graph, x: nat)
    requires g.Valid() && NoEntryToStart(g)
    ensures Pow10(|Headers(g, |g.s1|, 0)|) == 1 <= Pow10(|Headers(g, |g.s1|, x)|)
  {
    forall hd: nat, p | IsPath(g, 0, p, hd) && |p| > 1 ensures !Inside(p, hd) {
      assert g.Edge(p[|p| - 2], p[|p| - 1]);
      assert hd != 0 && p[0] < hd;
    }
    assert Headers(g, |g.s1|, 0) == {};
    Pow10Positive(|Headers(g, |g.s1|, x)|);
  }

  lemma {:induction false} Pow10Positive(k: nat)
    ensures Pow10(k) >= 1
  {
    if k > 0 { Pow10Positive(k - 1); }
  }
}
