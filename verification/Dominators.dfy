/** The iterative dominator computation of cfg.c: inter, filldom, sdom and dom. Blocks are named by rpo number. */
module Dominators {
  import opened Cfg

  // ----- dominance by paths -----

  ghost predicate Dominates(g: Graph, d: nat, b: nat) {
    forall p :: IsPath(g, 0, p, b) ==> d in p
  }

  lemma DominatesTrans(g: Graph, a: nat, b: nat, c: nat)
    requires Dominates(g, a, b) && Dominates(g, b, c)
    ensures Dominates(g, a, c)
  {
    forall p | IsPath(g, 0, p, c) ensures a in p {
      var k := FirstVisit(p, b);
      PathPrefix(g, 0, p, c, k);
      assert a in p[..k + 1];
    }
  }

  lemma DominatesPred(g: Graph, d: nat, b: nat, p: nat)
    requires g.Valid() && Dominates(g, d, b) && g.Edge(p, b) && d != b
    ensures Dominates(g, d, p)
  {
    forall q | IsPath(g, 0, q, p) ensures d in q {
      PathStep(g, 0, q, p, b);
    }
  }

  // ----- trees given by parent links to smaller numbers -----

  ghost predicate Set(t: seq<int>, b: int) {
    b == 0 || (0 < b < |t| && t[b] != NONE)
  }

  ghost predicate Tree(t: seq<int>) {
    && |t| > 0 && t[0] == NONE
    && forall b :: 0 < b < |t| ==> t[b] == NONE || (0 <= t[b] < b && Set(t, t[b]))
  }

  /** A block and its ancestors. */
  ghost function Chain(t: seq<int>, b: int): (c: set<int>)
    requires Tree(t) && 0 <= b < |t|
    ensures b in c && forall x :: x in c ==> 0 <= x <= b
    ensures Set(t, b) ==> forall x :: x in c ==> Set(t, x)
    decreases b
  {
    {b} + if t[b] == NONE then {} else Chain(t, t[b])
  }

  lemma {:induction false} ChainContainsRoot(t: seq<int>, b: int)
    requires Tree(t) && 0 <= b < |t| && Set(t, b)
    ensures 0 in Chain(t, b)
    decreases b
  {
    if b != 0 { ChainContainsRoot(t, t[b]); }
  }

  lemma {:induction false} ChainOf(t: seq<int>, b: int, a: int)
    requires Tree(t) && 0 <= b < |t| && a in Chain(t, b)
    ensures Chain(t, a) <= Chain(t, b)
    ensures forall x :: x in Chain(t, b) && x <= a ==> x in Chain(t, a)
    decreases b
  {
    if a != b { ChainOf(t, t[b], a); }
  }

  /** How the chains change when block n is linked to d. */
  lemma {:induction false} ChainUpdate(t: seq<int>, n: int, d: int, x: int)
    requires Tree(t) && 0 < n < |t| && 0 <= d < n && Set(t, d) && 0 <= x < |t|
    requires Set(t, n) || forall b :: 0 <= b < |t| ==> t[b] != n
    requires Set(t, n) ==> d in Chain(t, n)
    ensures Tree(t[n := d])
    ensures x != n || Set(t, n) ==> forall y ::
      y in Chain(t[n := d], x) <==> y in Chain(t, x) && (n in Chain(t, x) && y < n ==> y in Chain(t, d))
    ensures Chain(t[n := d], d) == Chain(t, d)
    ensures Chain(t[n := d], n) == {n} + Chain(t, d)
    decreases x
  {
    var u := t[n := d];
    assert Tree(u);
    ChainBelow(t, u, n, d);
    if Set(t, n) { ChainOf(t, n, d); }
    if x < n {
      ChainBelow(t, u, n, x);
    } else if x > n && t[x] != NONE {
      ChainUpdate(t, n, d, t[x]);
    }
  }

  lemma {:induction false} ChainBelow(t: seq<int>, u: seq<int>, n: int, x: int)
    requires Tree(t) && Tree(u) && |t| == |u| && 0 <= x < n <= |t|
    requires t[..n] == u[..n]
    ensures Chain(u, x) == Chain(t, x)
    decreases x
  {
    assert t[x] == t[..n][x] && u[x] == u[..n][x];
    if t[x] != NONE { ChainBelow(t, u, n, t[x]); }
  }

  // ----- the meet over the predecessors processed so far -----

  /** y is in the chain of each predecessor of z that has an idom already. */
  ghost predicate Common(g: Graph, t: seq<int>, z: int, y: int)
    requires g.Valid() && Tree(t) && |t| == |g.s1|
  {
    forall p :: g.Edge(p, z) && Set(t, p) ==> y in Chain(t, p)
  }

  ghost predicate IsMeet(g: Graph, t: seq<int>, z: int, d: int)
    requires g.Valid() && Tree(t) && |t| == |g.s1|
  {
    && 0 <= d < z && Set(t, d)
    && forall y :: y in Chain(t, d) <==> Common(g, t, z, y)
  }

  /** A spanning tree of the graph: each block hangs below one predecessor with a smaller number. */
  ghost predicate Spanning(g: Graph, par: seq<int>) {
    && g.Valid() && Tree(par) && |par| == |g.s1|
    && forall n :: 0 < n < |par| ==> par[n] >= 0 && g.Edge(par[n], n)
  }

  lemma SpanningExists(g: Graph) returns (par: seq<int>)
    requires Ordered(g)
    ensures Spanning(g, par)
  {
    par := [NONE];
    while |par| < |g.s1|
      invariant 0 < |par| <= |g.s1| && par[0] == NONE
      invariant forall n :: 0 < n < |par| ==> 0 <= par[n] < n && g.Edge(par[n], n)
    {
      assert HasEarlierPred(g, |par|);
      var p :| p < |par| && g.Edge(p, |par|);
      par := par + [p];
    }
  }

  /** The path of the spanning tree from an ancestor n down to x only meets numbers from n on. */
  lemma {:induction false} TreePath(g: Graph, par: seq<int>, n: nat, x: nat) returns (p: seq<nat>)
    requires Spanning(g, par) && x < |par| && n in Chain(par, x)
    ensures IsPath(g, n, p, x) && forall y :: y in p ==> n <= y
    decreases x
  {
    if n == x {
      p := [x];
    } else {
      p := TreePath(g, par, n, par[x]);
      PathStep(g, n, p, par[x], x);
      p := p + [x];
    }
  }

  /** No dominator of a block is missing from its chain. */
  ghost predicate Covers(g: Graph, t: seq<int>)
    requires Tree(t)
  {
    forall x: nat, d: nat :: x < |t| && Set(t, x) && Dominates(g, d, x) ==> d in Chain(t, x)
  }

  ghost predicate InTree(par: seq<int>, t: seq<int>)
    requires Tree(par) && |par| == |t|
  {
    forall x :: 0 < x < |t| && Set(t, x) ==> t[x] in Chain(par, x)
  }

  /** Each link is at or below the meet of the predecessors. */
  ghost predicate BelowMeets(g: Graph, t: seq<int>)
    requires g.Valid() && Tree(t) && |t| == |g.s1|
  {
    forall z, y :: 0 < z < |t| && Set(t, z) && Common(g, t, z, y) ==> y in Chain(t, t[z])
  }

  /** The blocks already visited in this pass. */
  ghost predicate Visited(par: seq<int>, t: seq<int>, n: int)
    requires Tree(par) && Tree(t) && |par| == |t| && n <= |t| && forall z :: 0 < z < |t| ==> par[z] >= 0
  {
    forall z :: 0 < z < n ==> t[z] in Chain(t, par[z])
  }

  /** The blocks this pass has not reached: what they know is left over from the previous pass. */
  ghost predicate Stale(par: seq<int>, t: seq<int>, n: int)
    requires Tree(par) && Tree(t) && |par| == |t| && forall z :: 0 < z < |t| ==> par[z] >= 0
  {
    forall z, w :: 0 < n <= z < |t| && t[z] != NONE && n <= w && w in Chain(t, t[z]) ==> w in Chain(t, par[z])
  }

  /** In the first pass exactly the visited blocks have an idom, later all of them do. */
  ghost predicate Started(t: seq<int>, n: int) {
    && (forall b :: 0 <= b < n <= |t| ==> Set(t, b))
    && ((forall b :: n <= b < |t| ==> Set(t, b)) || (forall b :: n <= b < |t| ==> !Set(t, b)))
  }

  /** The invariant of filldom before block n of a pass is visited. */
  ghost predicate Inv(g: Graph, par: seq<int>, t: seq<int>, n: int) {
    && Spanning(g, par) && Tree(t) && |t| == |g.s1| && 1 <= n <= |t|
    && Started(t, n) && Covers(g, t) && InTree(par, t) && BelowMeets(g, t)
    && Visited(par, t, n) && Stale(par, t, n)
  }

  lemma {:induction false} ChainInTree(par: seq<int>, t: seq<int>, x: int, y: int)
    requires Tree(par) && Tree(t) && |t| == |par| && 0 <= x < |t| && y in Chain(t, x)
    requires forall b :: 0 < b < |t| && Set(t, b) ==> t[b] in Chain(par, b)
    ensures y in Chain(par, x)
    decreases x
  {
    if y != x {
      ChainInTree(par, t, t[x], y);
      ChainOf(par, x, t[x]);
    }
  }

  /** A dominator of x that lies above n, for n a tree ancestor of x, dominates n. */
  lemma Between(g: Graph, par: seq<int>, d: nat, n: nat, x: nat)
    requires Spanning(g, par) && x < |par| && n in Chain(par, x) && d < n && Dominates(g, d, x)
    ensures Dominates(g, d, n)
  {
    var q := TreePath(g, par, n, x);
    forall p | IsPath(g, 0, p, n) ensures d in p {
      PathConcat(g, 0, p, n, q, x);
      var r := p + q[1..];
      assert d in r;
      assert d in q[1..] ==> d in q;
    }
  }

  /** Block n can be linked to d without breaking a chain. */
  ghost predicate Linkable(t: seq<int>, n: int, d: int) {
    && Tree(t) && 0 < n < |t| && 0 <= d < n && Set(t, d)
    && (Set(t, n) || forall b :: 0 <= b < |t| ==> t[b] != n)
    && (Set(t, n) ==> d in Chain(t, n))
  }

  lemma VisitCovers(g: Graph, par: seq<int>, t: seq<int>, n: nat, d: int)
    requires Spanning(g, par) && Tree(t) && |t| == |g.s1| && Covers(g, t) && InTree(par, t)
    requires Linkable(t, n, d) && IsMeet(g, t, n, d) && Tree(t[n := d])
    ensures Covers(g, t[n := d])
  {
    var u := t[n := d];
    forall x: nat, e: nat | x < |u| && Set(u, x) && Dominates(g, e, x) ensures e in Chain(u, x) {
      VisitCoversAt(g, par, t, n, d, x, e);
    }
  }

  lemma VisitCoversAt(g: Graph, par: seq<int>, t: seq<int>, n: nat, d: int, x: nat, e: nat)
    requires Spanning(g, par) && Tree(t) && |t| == |g.s1| && Covers(g, t) && InTree(par, t)
    requires Linkable(t, n, d) && IsMeet(g, t, n, d) && Tree(t[n := d])
    requires x < |t| && Set(t[n := d], x) && Dominates(g, e, x)
    ensures e in Chain(t[n := d], x)
  {
    ChainUpdate(t, n, d, x);
    if x == n || (n in Chain(t, x) && e < n) {
      if x != n {
        assert e in Chain(t, x);
        ChainInTree(par, t, x, n);
        Between(g, par, e, n, x);
      }
      if e != n { DominatorInMeet(g, t, n, d, e); }
    } else {
      assert e in Chain(t, x);
    }
  }

  lemma DominatorInMeet(g: Graph, t: seq<int>, n: nat, d: int, e: nat)
    requires g.Valid() && Tree(t) && |t| == |g.s1| && Covers(g, t) && IsMeet(g, t, n, d)
    requires Dominates(g, e, n) && e != n
    ensures e in Chain(t, d)
  {
    forall p | g.Edge(p, n) && Set(t, p) ensures e in Chain(t, p) {
      DominatesPred(g, e, n, p);
    }
    assert Common(g, t, n, e);
  }

  lemma VisitBelowMeets(g: Graph, par: seq<int>, t: seq<int>, n: nat, d: int)
    requires Spanning(g, par) && Tree(t) && |t| == |g.s1| && BelowMeets(g, t) && Stale(par, t, n)
    requires Linkable(t, n, d) && IsMeet(g, t, n, d) && Tree(t[n := d])
    requires (forall b :: n <= b < |t| ==> Set(t, b)) || (forall b :: n <= b < |t| ==> !Set(t, b))
    ensures BelowMeets(g, t[n := d])
  {
    var u := t[n := d];
    forall z, y | 0 < z < |u| && Set(u, z) && Common(g, u, z, y) ensures y in Chain(u, u[z]) {
      VisitBelowMeetsAt(g, par, t, n, d, z, y);
    }
  }

  lemma VisitBelowMeetsAt(g: Graph, par: seq<int>, t: seq<int>, n: nat, d: int, z: int, y: int)
    requires Spanning(g, par) && Tree(t) && |t| == |g.s1| && BelowMeets(g, t) && Stale(par, t, n)
    requires Linkable(t, n, d) && IsMeet(g, t, n, d) && Tree(t[n := d])
    requires (forall b :: n <= b < |t| ==> Set(t, b)) || (forall b :: n <= b < |t| ==> !Set(t, b))
    requires 0 < z < |t| && Set(t[n := d], z) && Common(g, t[n := d], z, y)
    ensures y in Chain(t[n := d], t[n := d][z])
  {
    var u := t[n := d];
    CommonShrinks(g, t, n, d, z, y);
    ChainUpdate(t, n, d, d);
    if z != n {
      assert y in Chain(t, t[z]);
      ChainUpdate(t, n, d, t[z]);
      if n in Chain(t, t[z]) && y < n {
        assert n in Chain(t, par[z]);
        assert g.Edge(par[z], z);
        ChainUpdate(t, n, d, par[z]);
        assert y in Chain(u, par[z]);
      }
    }
  }

  lemma CommonShrinks(g: Graph, t: seq<int>, n: nat, d: int, z: int, y: int)
    requires g.Valid() && Tree(t) && |t| == |g.s1| && Linkable(t, n, d) && Tree(t[n := d])
    requires Common(g, t[n := d], z, y)
    ensures Common(g, t, z, y)
  {
    forall p | g.Edge(p, z) && Set(t, p) ensures y in Chain(t, p) {
      ChainUpdate(t, n, d, p);
      assert y in Chain(t[n := d], p);
    }
  }

  lemma NoLinkToUnset(t: seq<int>, n: nat)
    requires Tree(t) && n < |t| && Started(t, n) && !Set(t, n)
    ensures forall b :: 0 <= b < |t| ==> t[b] != n
  {
    forall b | 0 <= b < |t| ensures t[b] != n {
      if b > n { assert !Set(t, b); }
    }
  }

  /** The meet of the predecessors of n is where n can be linked, at or above its present link. */
  lemma MeetIsLinkable(g: Graph, par: seq<int>, t: seq<int>, n: nat, d: int)
    requires Spanning(g, par) && Tree(t) && |t| == |g.s1| && 1 <= n < |t|
    requires Started(t, n) && BelowMeets(g, t) && IsMeet(g, t, n, d)
    ensures Linkable(t, n, d) && Tree(t[n := d]) && d in Chain(t, par[n])
    ensures Set(t, n) ==> d <= t[n]
  {
    assert Common(g, t, n, d);
    assert g.Edge(par[n], n);
    if Set(t, n) {
      assert d in Chain(t, t[n]);
    } else {
      NoLinkToUnset(t, n);
    }
    assert Linkable(t, n, d);
    ChainUpdate(t, n, d, 0);
  }

  lemma VisitInTree(g: Graph, par: seq<int>, t: seq<int>, n: nat, d: int)
    requires Spanning(g, par) && Tree(t) && |t| == |g.s1| && InTree(par, t)
    requires Linkable(t, n, d) && Tree(t[n := d]) && d in Chain(t, par[n])
    ensures InTree(par, t[n := d])
  {
    ChainInTree(par, t, par[n], d);
  }

  lemma VisitVisited(g: Graph, par: seq<int>, t: seq<int>, n: nat, d: int)
    requires Spanning(g, par) && Tree(t) && |t| == |g.s1| && n < |t| && Visited(par, t, n)
    requires Linkable(t, n, d) && Tree(t[n := d]) && d in Chain(t, par[n])
    ensures Visited(par, t[n := d], n + 1)
  {
    forall z | 0 < z < n + 1 ensures t[n := d][z] in Chain(t[n := d], par[z]) {
      ChainBelow(t, t[n := d], n, par[z]);
    }
  }

  lemma VisitStale(g: Graph, par: seq<int>, t: seq<int>, n: nat, d: int)
    requires Spanning(g, par) && Tree(t) && |t| == |g.s1| && Stale(par, t, n)
    requires Linkable(t, n, d) && Tree(t[n := d])
    requires (forall b :: n <= b < |t| ==> Set(t, b)) || (forall b :: n <= b < |t| ==> !Set(t, b))
    ensures Stale(par, t[n := d], n + 1)
  {
    var u := t[n := d];
    forall z, w | n + 1 <= z < |u| && u[z] != NONE && n + 1 <= w && w in Chain(u, u[z]) ensures w in Chain(u, par[z]) {
      ChainUpdate(t, n, d, u[z]);
      ChainUpdate(t, n, d, par[z]);
    }
  }

  lemma VisitStarted(t: seq<int>, n: nat, d: int)
    requires Tree(t) && 0 < n < |t| && Started(t, n) && 0 <= d < n
    ensures Started(t[n := d], n + 1)
  {
    var u := t[n := d];
    forall b | 0 <= b < n + 1 ensures Set(u, b) {
      assert b < n ==> Set(t, b);
    }
    if Set(t, n) {
      forall b | n + 1 <= b < |t| ensures Set(u, b) {
        assert Set(t, b);
      }
    } else {
      forall b | n + 1 <= b < |t| ensures !Set(u, b) {
        assert !Set(t, b);
      }
    }
  }

  /** One visit of a block by filldom keeps the invariant and can only move the block up. */
  lemma Visit(g: Graph, par: seq<int>, t: seq<int>, n: nat, d: int)
    requires Inv(g, par, t, n) && n < |t| && IsMeet(g, t, n, d)
    ensures Inv(g, par, t[n := d], n + 1)
    ensures Set(t, n) ==> d <= t[n]
  {
    var u := t[n := d];
    MeetIsLinkable(g, par, t, n, d);
    VisitStarted(t, n, d);
    VisitCovers(g, par, t, n, d);
    VisitBelowMeets(g, par, t, n, d);
    VisitInTree(g, par, t, n, d);
    VisitVisited(g, par, t, n, d);
    VisitStale(g, par, t, n, d);
  }

  /** At the end of a pass every block has been visited, so the next pass starts from fresh facts. */
  lemma NextPass(g: Graph, par: seq<int>, t: seq<int>)
    requires Inv(g, par, t, |t|)
    ensures Inv(g, par, t, 1)
  {
    forall z, w | 0 < z < |t| && w in Chain(t, t[z]) ensures w in Chain(t, par[z]) {
      ChainOf(t, par[z], t[z]);
    }
  }

  lemma FirstPass(g: Graph, par: seq<int>, t: seq<int>)
    requires Spanning(g, par) && |t| == |g.s1| && forall b :: 0 <= b < |t| ==> t[b] == NONE
    ensures Inv(g, par, t, 1)
  {
    assert IsPath(g, 0, [0], 0);
  }

  // ----- the fixpoint is dominance -----

  /** The result of filldom: the chain of each block is the set of its dominators. */
  ghost predicate IsDomTree(g: Graph, t: seq<int>) {
    && g.Valid() && Tree(t) && |t| == |g.s1|
    && (forall b :: 0 <= b < |t| ==> Set(t, b))
    && (forall b: nat, d: nat :: b < |t| ==> (d in Chain(t, b) <==> Dominates(g, d, b)))
  }

  lemma {:induction false} FixpointSound(g: Graph, t: seq<int>, d: nat, p: seq<nat>, b: nat)
    requires g.Valid() && Tree(t) && |t| == |g.s1| && b < |t|
    requires forall z :: 0 < z < |t| ==> Set(t, z) && IsMeet(g, t, z, t[z])
    requires IsPath(g, 0, p, b) && d in Chain(t, b)
    ensures d in p
    decreases |p|
  {
    if d != b {
      var a := p[|p| - 2];
      assert g.Edge(a, b);
      assert d in Chain(t, t[b]);
      assert Common(g, t, b, d);
      PathPrefix(g, 0, p, b, |p| - 2);
      FixpointSound(g, t, d, p[..|p| - 1], a);
    }
  }

  lemma FixpointIsDomTree(g: Graph, par: seq<int>, t: seq<int>)
    requires Inv(g, par, t, |t|) && forall z :: 0 < z < |t| ==> IsMeet(g, t, z, t[z])
    ensures IsDomTree(g, t)
  {
    forall b: nat, d: nat | b < |t| ensures d in Chain(t, b) <==> Dominates(g, d, b) {
      if d in Chain(t, b) {
        forall p | IsPath(g, 0, p, b) ensures d in p {
          FixpointSound(g, t, d, p, b);
        }
      }
    }
  }

  // ----- termination: links only move up -----

  /** The sum of the links, an unset link counting as the number of blocks. */
  ghost function Weight(t: seq<int>, cap: nat): (w: nat)
    requires forall b :: 0 <= b < |t| ==> NONE <= t[b]
  {
    if t == [] then 0 else Weight(t[..|t| - 1], cap) + if t[|t| - 1] == NONE then cap else t[|t| - 1]
  }

  lemma {:induction false} WeightUpdate(t: seq<int>, cap: nat, n: nat, d: nat)
    requires n < |t| && forall b :: 0 <= b < |t| ==> NONE <= t[b]
    ensures Weight(t[n := d], cap) == Weight(t, cap) + d - if t[n] == NONE then cap else t[n]
  {
    if n == |t| - 1 {
      assert t[n := d][..|t| - 1] == t[..|t| - 1];
    } else {
      assert t[n := d][..|t| - 1] == t[..|t| - 1][n := d];
      WeightUpdate(t[..|t| - 1], cap, n, d);
    }
  }

  // ----- cfg.c -----

  /** inter: the nearest common ancestor; b1 may be null. */
  method Inter(idom: array<int>, b1: int, b2: int) returns (d: int)
    requires Tree(idom[..]) && 0 <= b2 < idom.Length && Set(idom[..], b2)
    requires b1 == NONE || (0 <= b1 < idom.Length && Set(idom[..], b1))
    ensures 0 <= d < idom.Length && Set(idom[..], d)
    ensures Chain(idom[..], d) == if b1 == NONE then Chain(idom[..], b2) else Chain(idom[..], b1) * Chain(idom[..], b2)
  {
    if b1 == NONE {
      return b2;
    }
    ghost var t := idom[..];
    var x, y := b1, b2;
    while x != y
      invariant 0 <= x < idom.Length && 0 <= y < idom.Length && Set(t, x) && Set(t, y)
      invariant Chain(t, x) * Chain(t, y) == Chain(t, b1) * Chain(t, b2)
      decreases x + y
    {
      ghost var total := x + y;
      if x < y {
        x, y := y, x;
      }
      while x > y
        invariant 0 <= x < idom.Length && 0 <= y < idom.Length && Set(t, x) && Set(t, y)
        invariant Chain(t, x) * Chain(t, y) == Chain(t, b1) * Chain(t, b2)
        invariant x + y <= total && (x > y || x + y < total)
        decreases x
      {
        x := idom[x];
      }
    }
    return x;
  }

  ghost predicate CommonIn(t: seq<int>, ps: seq<nat>, y: int)
    requires Tree(t)
  {
    forall p :: p in ps && Set(t, p) ==> y in Chain(t, p)
  }

  /** d is what folding inter over the predecessors ps gives. */
  ghost predicate Folded(t: seq<int>, ps: seq<nat>, d: int)
    requires Tree(t)
  {
    if d == NONE then forall p :: p in ps ==> !Set(t, p)
    else
      && 0 <= d < |t| && Set(t, d) && (exists p :: p in ps && Set(t, p))
      && forall y :: y in Chain(t, d) <==> CommonIn(t, ps, y)
  }

  lemma FoldedStep(t: seq<int>, ps: seq<nat>, d: int, p: nat, d': int)
    requires Tree(t) && p < |t| && Folded(t, ps, d)
    requires if !Set(t, p) then d' == d else
               0 <= d' < |t| && Set(t, d') &&
               Chain(t, d') == if d == NONE then Chain(t, p) else Chain(t, d) * Chain(t, p)
    ensures Folded(t, ps + [p], d')
  {
    if d' != NONE {
      forall y ensures y in Chain(t, d') <==> CommonIn(t, ps + [p], y) {
        assert p in ps + [p];
        assert CommonIn(t, ps + [p], y) ==> CommonIn(t, ps, y);
      }
      assert Set(t, p) ==> p in ps + [p];
      assert forall q :: q in ps ==> q in ps + [p];
    }
  }

  lemma PredsCommon(g: Graph, t: seq<int>, n: nat, ps: seq<nat>, y: int)
    requires g.Valid() && Tree(t) && |t| == |g.s1| && IsPreds(g, n, ps)
    ensures Common(g, t, n, y) <==> CommonIn(t, ps, y)
  {
    if CommonIn(t, ps, y) {
      forall p: int | g.Edge(p, n) && Set(t, p) ensures y in Chain(t, p) {
        var q: nat := p;
        assert q in ps;
      }
    }
  }

  lemma FoldedAll(g: Graph, par: seq<int>, t: seq<int>, n: nat, ps: seq<nat>, d: int)
    requires Spanning(g, par) && Tree(t) && |t| == |g.s1| && 1 <= n < |t|
    requires IsPreds(g, n, ps) && forall b :: 0 <= b < n ==> Set(t, b)
    requires Folded(t, ps, d)
    ensures IsMeet(g, t, n, d)
  {
    var p: nat := par[n];
    assert g.Edge(p, n);
    assert p in ps && Set(t, p);
    forall y ensures Common(g, t, n, y) <==> CommonIn(t, ps, y) {
      PredsCommon(g, t, n, ps, y);
    }
    assert CommonIn(t, ps, d);
  }

  /** The predecessor loop of filldom for block n. */
  method Meet(g: Graph, idom: array<int>, n: nat, ps: seq<nat>, ghost par: seq<int>) returns (d: int)
    requires Spanning(g, par) && Tree(idom[..]) && idom.Length == |g.s1| && 1 <= n < idom.Length
    requires IsPreds(g, n, ps) && forall b :: 0 <= b < n ==> Set(idom[..], b)
    ensures IsMeet(g, idom[..], n, d)
  {
    d := NONE;
    ghost var t := idom[..];
    assert forall p :: p in ps ==> p < |t|;
    for i := 0 to |ps|
      invariant Folded(t, ps[..i], d)
    {
      assert ps[i] in ps;
      ghost var d0 := d;
      if idom[ps[i]] != NONE || ps[i] == 0 {
        d := Inter(idom, d, ps[i]);
      }
      FoldedStep(t, ps[..i], d0, ps[i], d);
      assert ps[..i] + [ps[i]] == ps[..i + 1];
    }
    assert ps[..|ps|] == ps;
    FoldedAll(g, par, t, n, ps, d);
  }

  /** filldom, first loop nest: repeat the visits until no link changes. */
  method FillDom(g: Graph, pred: array<seq<nat>>, idom: array<int>)
    requires Ordered(g) && pred.Length == idom.Length == |g.s1|
    requires forall b :: 0 <= b < pred.Length ==> IsPreds(g, b, pred[b])
    modifies idom
    ensures IsDomTree(g, idom[..])
  {
    ghost var par := SpanningExists(g);
    forall b | 0 <= b < idom.Length {
      idom[b] := NONE;
    }
    FirstPass(g, par, idom[..]);
    var ch := true;
    while ch
      invariant Inv(g, par, idom[..], 1)
      invariant !ch ==> IsDomTree(g, idom[..])
      decreases Weight(idom[..], |g.s1|), ch
    {
      ghost var t0 := idom[..];
      ch := FillPass(g, pred, idom, par);
      NextPass(g, par, idom[..]);
      if !ch {
        FixpointIsDomTree(g, par, t0);
      }
    }
  }

  /** One pass of filldom over the blocks; ch says whether some block has moved up. */
  method FillPass(g: Graph, pred: array<seq<nat>>, idom: array<int>, ghost par: seq<int>) returns (ch: bool)
    requires Ordered(g) && pred.Length == idom.Length == |g.s1|
    requires forall b :: 0 <= b < pred.Length ==> IsPreds(g, b, pred[b])
    requires Inv(g, par, idom[..], 1)
    modifies idom
    ensures Inv(g, par, idom[..], idom.Length)
    ensures ch ==> Weight(idom[..], |g.s1|) < Weight(old(idom[..]), |g.s1|)
    ensures !ch ==> idom[..] == old(idom[..]) && forall z :: 0 < z < idom.Length ==> IsMeet(g, idom[..], z, idom[z])
  {
    ch := false;
    ghost var t0 := idom[..];
    for n := 1 to idom.Length
      invariant Inv(g, par, idom[..], n)
      invariant ch ==> Weight(idom[..], |g.s1|) < Weight(t0, |g.s1|)
      invariant !ch ==> idom[..] == t0 && forall z :: 0 < z < n ==> IsMeet(g, t0, z, t0[z])
    {
      ghost var t := idom[..];
      var d := Meet(g, idom, n, pred[n], par);
      Visit(g, par, t, n, d);
      if d != idom[n] {
        ch := true;
        WeightUpdate(t, |g.s1|, n, d);
        idom[n] := d;
      }
      assert idom[..] == t[n := d];
    }
  }

  /** sdom: strict dominance, decided by walking up from b2. */
  method Sdom(ghost g: Graph, idom: seq<int>, b1: nat, b2: nat) returns (r: bool)
    requires IsDomTree(g, idom) && b1 < |idom| && b2 < |idom|
    ensures r <==> b1 != b2 && Dominates(g, b1, b2)
  {
    if b1 == b2 {
      return false;
    }
    var b := b2;
    while b > b1
      invariant 0 <= b < |idom|
      invariant b1 in Chain(idom, b) <==> b1 in Chain(idom, b2)
    {
      b := idom[b];
    }
    return b1 == b;
  }

  method Dom(ghost g: Graph, idom: seq<int>, b1: nat, b2: nat) returns (r: bool)
    requires IsDomTree(g, idom) && b1 < |idom| && b2 < |idom|
    ensures r <==> Dominates(g, b1, b2)
  {
    if b1 == b2 {
      return true;
    }
    r := Sdom(g, idom, b1, b2);
  }

  // ----- the dominator tree as linked lists of children -----

  /** The children listed from b on by the dlink fields; each link goes to a smaller block. */
  ghost function Siblings(dlink: seq<int>, b: int): (bs: seq<int>)
    requires forall x :: 0 <= x < |dlink| ==> NONE <= dlink[x] < x
    requires b < |dlink|
    ensures forall x :: x in bs ==> 0 <= x <= b
    decreases b
  {
    if b < 0 then [] else [b] + Siblings(dlink, dlink[b])
  }

  ghost predicate IsKids(t: seq<int>, n: nat, dom: seq<int>, dlink: seq<int>)
  {
    && |dom| == |dlink| == |t| && n <= |t|
    && (forall x :: 0 <= x < |t| ==> NONE <= dlink[x] < x)
    && (forall d :: 0 <= d < |t| ==> NONE <= dom[d] < n)
    && (forall d, b :: 0 <= d < |t| ==> (b in Siblings(dlink, dom[d]) <==> 0 <= b < n && t[b] == d))
  }

  lemma {:induction false} SiblingsFrame(dlink: seq<int>, b: int, n: nat, v: int)
    requires forall x :: 0 <= x < |dlink| ==> NONE <= dlink[x] < x
    requires b < n < |dlink| && NONE <= v < n
    ensures Siblings(dlink[n := v], b) == Siblings(dlink, b)
    decreases b
  {
    if b >= 0 { SiblingsFrame(dlink, dlink[b], n, v); }
  }

  lemma KidsStep(t: seq<int>, b: nat, dom: seq<int>, dlink: seq<int>)
    requires Tree(t) && IsKids(t, b, dom, dlink) && b < |t|
    ensures t[b] == NONE ==> IsKids(t, b + 1, dom, dlink)
    ensures t[b] != NONE ==> IsKids(t, b + 1, dom[t[b] := b], dlink[b := dom[t[b]]])
  {
    if t[b] != NONE {
      var dom1, dlink1 := dom[t[b] := b], dlink[b := dom[t[b]]];
      forall e, c | 0 <= e < |t| ensures c in Siblings(dlink1, dom1[e]) <==> 0 <= c < b + 1 && t[c] == e {
        KidAdded(t, b, dom, dlink, e, c);
      }
    }
  }

  lemma KidAdded(t: seq<int>, b: nat, dom: seq<int>, dlink: seq<int>, e: nat, c: int)
    requires Tree(t) && IsKids(t, b, dom, dlink) && b < |t| && t[b] != NONE && e < |t|
    ensures c in Siblings(dlink[b := dom[t[b]]], dom[t[b] := b][e]) <==> 0 <= c < b + 1 && t[c] == e
  {
    SiblingsFrame(dlink, dom[e], b, dom[t[b]]);
    assert c in Siblings(dlink, dom[e]) <==> 0 <= c < b && t[c] == e;
  }

  /** filldom, second loop: thread every block into the list of its immediate dominator. */
  method FillKids(idom: array<int>, dom: array<int>, dlink: array<int>)
    requires Tree(idom[..]) && dom.Length == dlink.Length == idom.Length
    requires idom != dom && dom != dlink && idom != dlink
    modifies dom, dlink
    ensures IsKids(idom[..], idom.Length, dom[..], dlink[..])
  {
    forall b | 0 <= b < idom.Length {
      dom[b] := NONE;
    }
    forall b | 0 <= b < idom.Length {
      dlink[b] := NONE;
    }
    for b := 0 to idom.Length
      invariant IsKids(idom[..], b, dom[..], dlink[..])
    {
      var d := idom[b];
      ghost var dom0, dlink0 := dom[..], dlink[..];
      KidsStep(idom[..], b, dom0, dlink0);
      if d != NONE {
        dlink[b] := dom[d];
        dom[d] := b;
        assert dom[..] == dom0[d := b] && dlink[..] == dlink0[b := dom0[d]];
      }
    }
  }
}
