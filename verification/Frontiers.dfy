/** Dominance frontiers: addfron and fillfron of cfg.c. */
module Frontiers {
  import opened Cfg
  import opened Dominators

  /** s is where the dominance of a ends: a dominates a predecessor of s but not s strictly. */
  ghost predicate InFrontier(g: Graph, a: nat, s: nat)
    requires g.Valid()
  {
    !StrictlyDominates(g, a, s) && exists p: nat :: g.Edge(p, s) && Dominates(g, a, p)
  }

  ghost predicate StrictlyDominates(g: Graph, a: nat, s: nat) {
    a != s && Dominates(g, a, s)
  }

  ghost predicate NoDuplicates(s: seq<nat>) {
    forall i, j :: 0 <= i < j < |s| ==> s[i] != s[j]
  }

  /** The effect on all the frontier lists of visiting the pair (a, s). */
  ghost predicate Added(f0: seq<seq<nat>>, f: seq<seq<nat>>, a: nat, s: nat) {
    && |f| == |f0| && a < |f|
    && (forall c :: 0 <= c < |f| && c != a ==> f[c] == f0[c])
    && (forall x :: x in f[a] <==> x in f0[a] || x == s)
    && (NoDuplicates(f0[a]) ==> NoDuplicates(f[a]))
  }

  method AddFron(fron: array<seq<nat>>, a: nat, b: nat)
    requires a < fron.Length
    modifies fron
    ensures Added(old(fron[..]), fron[..], a, b)
  {
    for n := 0 to |fron[a]|
      invariant b !in fron[a][..n]
      invariant fron[..] == old(fron[..])
    {
      if fron[a][n] == b {
        return;
      }
    }
    fron[a] := fron[a] + [b];
  }

  /** The lists f after the walk from b for its successor s has passed the ancestors of b above a. */
  ghost predicate Walked(t: seq<int>, f0: seq<seq<nat>>, f: seq<seq<nat>>, b: nat, s: nat, a: int)
    requires Tree(t) && b < |t| && s < |t|
  {
    && |f| == |f0| == |t| && a in Chain(t, b)
    && (forall c :: 0 <= c < |f| && NoDuplicates(f0[c]) ==> NoDuplicates(f[c]))
    && (forall c, x :: 0 <= c < |f| ==>
          (x in f[c] <==> x in f0[c] || (x == s && a < c && c in Chain(t, b) && Ends(t, c, s))))
  }

  /** InFrontier for one edge, in terms of the dominator tree. */
  ghost predicate Ends(t: seq<int>, c: int, s: nat)
    requires Tree(t) && s < |t|
  {
    c == s || c !in Chain(t, s)
  }

  /** The effect of a complete walk. */
  ghost predicate EdgeDone(t: seq<int>, f0: seq<seq<nat>>, f: seq<seq<nat>>, b: nat, s: nat)
    requires Tree(t) && b < |t| && s < |t|
  {
    && |f| == |f0| == |t|
    && (forall c :: 0 <= c < |f| && NoDuplicates(f0[c]) ==> NoDuplicates(f[c]))
    && (forall c, x :: 0 <= c < |f| ==>
          (x in f[c] <==> x in f0[c] || (x == s && c in Chain(t, b) && Ends(t, c, s))))
  }

  lemma WalkStep(t: seq<int>, f0: seq<seq<nat>>, f: seq<seq<nat>>, f1: seq<seq<nat>>, b: nat, s: nat, a: nat)
    requires Tree(t) && b < |t| && s < |t| && Set(t, b) && Set(t, s)
    requires Walked(t, f0, f, b, s, a) && Added(f, f1, a, s) && Ends(t, a, s) && s != 0
    ensures t[a] >= 0 && Walked(t, f0, f1, b, s, t[a])
  {
    ChainContainsRoot(t, s);
    ChainOf(t, b, a);
    assert t[a] in Chain(t, a);
    forall c, x | 0 <= c < |f|
      ensures x in f1[c] <==> x in f0[c] || (x == s && t[a] < c && c in Chain(t, b) && Ends(t, c, s))
    {
      assert c in Chain(t, b) && c <= a ==> c in Chain(t, a);
    }
  }

  /** The walk can stop at the first strict dominator of s: all its ancestors dominate s strictly too. */
  lemma WalkEnd(t: seq<int>, f0: seq<seq<nat>>, f: seq<seq<nat>>, b: nat, s: nat, a: nat)
    requires Tree(t) && b < |t| && s < |t|
    requires Walked(t, f0, f, b, s, a) && !Ends(t, a, s)
    ensures EdgeDone(t, f0, f, b, s)
  {
    forall c | c in Chain(t, b) && c <= a ensures !Ends(t, c, s) {
      ChainOf(t, b, a);
      ChainOf(t, s, a);
    }
  }

  /** The walk of fillfron from block b for its successor s. */
  method WalkEdge(g: Graph, idom: array<int>, fron: array<seq<nat>>, b: nat, s: nat)
    requires IsDomTree(g, idom[..]) && b < |g.s1| && 0 < s < |g.s1|
    requires fron.Length == idom.Length
    modifies fron
    ensures EdgeDone(idom[..], old(fron[..]), fron[..], b, s)
  {
    ghost var t, f0 := idom[..], fron[..];
    var a: nat := b;
    var r := Sdom(g, idom[..], a, s);
    while !r
      invariant Walked(t, f0, fron[..], b, s, a) && (r <==> !Ends(t, a, s))
      decreases a
    {
      ghost var f := fron[..];
      AddFron(fron, a, s);
      WalkStep(t, f0, f, fron[..], b, s, a);
      a := idom[a];
      r := Sdom(g, idom[..], a, s);
    }
    WalkEnd(t, f0, fron[..], b, s, a);
  }

  /** The edges out of blocks below n have been accounted for. */
  ghost predicate Filled(g: Graph, t: seq<int>, f: seq<seq<nat>>, n: nat)
    requires IsDomTree(g, t)
  {
    && |f| == |t| && (forall c :: 0 <= c < |f| ==> NoDuplicates(f[c]))
    && (forall c, x: nat :: 0 <= c < |f| ==> (x in f[c] <==> x < |t| && Ends(t, c, x) && HasEdgeFrom(g, t, n, c, x)))
  }

  ghost predicate HasEdgeFrom(g: Graph, t: seq<int>, n: nat, c: int, x: nat)
    requires IsDomTree(g, t)
  {
    exists p: nat :: p < n && g.Edge(p, x) && c in Chain(t, p)
  }

  /** The effect of visiting both successors of b. */
  ghost predicate BlockDone(g: Graph, t: seq<int>, f0: seq<seq<nat>>, f: seq<seq<nat>>, b: nat)
    requires IsDomTree(g, t) && b < |t|
  {
    && |f| == |f0| == |t|
    && (forall c :: 0 <= c < |f| && NoDuplicates(f0[c]) ==> NoDuplicates(f[c]))
    && (forall c, x: nat :: 0 <= c < |f| ==>
          (x in f[c] <==> x in f0[c] || (g.Edge(b, x) && c in Chain(t, b) && Ends(t, c, x))))
  }

  lemma FilledStep(g: Graph, t: seq<int>, f: seq<seq<nat>>, f1: seq<seq<nat>>, b: nat)
    requires IsDomTree(g, t) && Filled(g, t, f, b) && b < |t| && BlockDone(g, t, f, f1, b)
    ensures Filled(g, t, f1, b + 1)
  {
    forall c, x: nat | 0 <= c < |f1|
      ensures x in f1[c] <==> x < |t| && Ends(t, c, x) && HasEdgeFrom(g, t, b + 1, c, x)
    {
      assert x in f1[c] <==> x in f[c] || (g.Edge(b, x) && c in Chain(t, b) && Ends(t, c, x));
      if x < |t| {
        assert x in f[c] <==> Ends(t, c, x) && HasEdgeFrom(g, t, b, c, x);
        assert HasEdgeFrom(g, t, b + 1, c, x) <==> HasEdgeFrom(g, t, b, c, x) || (g.Edge(b, x) && c in Chain(t, b));
      }
    }
  }

  /** The body of fillfron: both successors of b. */
  method FillBlock(g: Graph, idom: array<int>, fron: array<seq<nat>>, b: nat)
    requires IsDomTree(g, idom[..]) && NoEntryToStart(g) && b < |g.s1| && fron.Length == idom.Length
    modifies fron
    ensures BlockDone(g, idom[..], old(fron[..]), fron[..], b)
  {
    assert g.s1[b] >= 0 ==> g.Edge(b, g.s1[b]);
    assert g.s2[b] >= 0 ==> g.Edge(b, g.s2[b]);
    if g.s1[b] >= 0 {
      WalkEdge(g, idom, fron, b, g.s1[b]);
    }
    if g.s2[b] >= 0 {
      WalkEdge(g, idom, fron, b, g.s2[b]);
    }
  }

  /** fillfron: every frontier, each block listed once. */
  method FillFron(g: Graph, idom: array<int>) returns (fron: array<seq<nat>>)
    requires IsDomTree(g, idom[..]) && NoEntryToStart(g)
    ensures fresh(fron) && fron.Length == |g.s1|
    ensures forall a: nat :: a < fron.Length ==> NoDuplicates(fron[a])
    ensures forall a: nat, s: nat :: a < fron.Length ==> (s in fron[a] <==> s < |g.s1| && InFrontier(g, a, s))
  {
    fron := new seq<nat>[idom.Length](_ => []);
    ghost var t := idom[..];
    for b: nat := 0 to idom.Length
      invariant Filled(g, t, fron[..], b)
    {
      ghost var f := fron[..];
      FillBlock(g, idom, fron, b);
      FilledStep(g, t, f, fron[..], b);
    }
    forall a: nat, s: nat | a < fron.Length ensures s in fron[a] <==> s < |g.s1| && InFrontier(g, a, s) {
      FrontierByTree(g, t, a, s);
    }
  }

  lemma FrontierByTree(g: Graph, t: seq<int>, a: nat, s: nat)
    requires IsDomTree(g, t) && a < |t|
    ensures InFrontier(g, a, s) <==> s < |t| && Ends(t, a, s) && HasEdgeFrom(g, t, |t|, a, s)
  {
    if s < |t| {
      assert StrictlyDominates(g, a, s) <==> !Ends(t, a, s);
    }
  }
}
