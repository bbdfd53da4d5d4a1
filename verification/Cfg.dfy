/**
 * Control-flow graphs, their paths, and the two numbering passes of cfg.c: fillrpo and fillpreds.
 * A field of struct Blk is an array or a sequence indexed by block; NONE stands for a null Blk pointer.
 */
module Cfg {

  const NONE: int := -1

  /** The successor fields s1 and s2 of every block; block 0 is the start block. */
  datatype Graph = Graph(s1: seq<int>, s2: seq<int>) {
    ghost predicate Valid() {
      && |s1| == |s2| && |s1| > 0
      && forall b :: 0 <= b < |s1| ==> NONE <= s1[b] < |s1| && NONE <= s2[b] < |s1|
    }

    ghost predicate Edge(a: int, b: int)
      requires Valid()
    {
      0 <= a < |s1| && 0 <= b && (s1[a] == b || s2[a] == b)
    }
  }

  /** The shape fillrpo establishes: every block but the start has a predecessor with a smaller number. */
  ghost predicate Ordered(g: Graph) {
    g.Valid() && forall n :: 1 <= n < |g.s1| ==> HasEarlierPred(g, n)
  }

  ghost predicate HasEarlierPred(g: Graph, n: int)
    requires g.Valid()
  {
    exists p :: p < n && g.Edge(p, n)
  }

  /** The parser refuses jumps to the start block. */
  ghost predicate NoEntryToStart(g: Graph)
    requires g.Valid()
  {
    forall a :: !g.Edge(a, 0)
  }

  // ----- paths -----

  ghost predicate IsPath(g: Graph, a: nat, p: seq<nat>, b: nat) {
    && g.Valid() && |p| > 0 && p[0] == a && p[|p| - 1] == b && a < |g.s1|
    && forall i :: 1 <= i < |p| ==> g.Edge(p[i - 1], p[i])
  }

  ghost predicate ReachableFrom(g: Graph, a: nat, b: nat) {
    exists p :: IsPath(g, a, p, b)
  }

  lemma PathStep(g: Graph, a: nat, p: seq<nat>, b: nat, c: nat)
    requires IsPath(g, a, p, b) && g.Edge(b, c)
    ensures IsPath(g, a, p + [c], c)
  {}

  lemma PathConcat(g: Graph, a: nat, p: seq<nat>, b: nat, q: seq<nat>, c: nat)
    requires IsPath(g, a, p, b) && IsPath(g, b, q, c)
    ensures IsPath(g, a, p + q[1..], c)
  {
    var r := p + q[1..];
    forall i | 1 <= i < |r| ensures g.Edge(r[i - 1], r[i]) {
      if i >= |p| {
        assert g.Edge(q[i - |p|], q[i - |p| + 1]);
      }
    }
  }

  lemma PathPrefix(g: Graph, a: nat, p: seq<nat>, b: nat, k: nat)
    requires IsPath(g, a, p, b) && k < |p|
    ensures IsPath(g, a, p[..k + 1], p[k])
  {}

  lemma PathSuffix(g: Graph, a: nat, p: seq<nat>, b: nat, k: nat)
    requires IsPath(g, a, p, b) && k < |p|
    ensures IsPath(g, p[k], p[k..], b)
  {
    assert k > 0 ==> g.Edge(p[k - 1], p[k]);
  }

  /** The first visit to d. */
  lemma {:induction false} FirstVisit(p: seq<nat>, d: nat) returns (k: nat)
    requires d in p
    ensures k < |p| && p[k] == d && d !in p[..k]
  {
    if p[0] == d {
      k := 0;
    } else {
      k := FirstVisit(p[1..], d);
      k := k + 1;
      assert p[..k] == [p[0]] + p[1..][..k - 1];
    }
  }

  // ----- fillrpo -----

  /** The blocks numbered so far, in postorder: the k-th one has number k. */
  ghost predicate Postorder(g: Graph, id: seq<int>, po: seq<nat>) {
    && g.Valid() && |id| == |g.s1|
    && forall k :: 0 <= k < |po| ==> po[k] < |id| && id[po[k]] == k
  }

  /** What one call of porec adds to the postorder. */
  ghost predicate Explored(g: Graph, b: int, id0: seq<int>, id: seq<int>, new': seq<nat>)
    requires g.Valid() && |id| == |id0| == |g.s1|
  {
    && (forall x :: 0 <= x < |id| && id0[x] != -1 ==> id[x] == id0[x])
    && (forall x :: 0 <= x < |id| && id0[x] == -1 ==> (id[x] != -1 <==> x in new'))
    && (forall x :: x in new' ==> x < |id| && id0[x] == -1 && b >= 0 && ReachableFrom(g, b, x))
    && (forall x, y :: x in new' && g.Edge(x, y) ==> id[y] != -1)
    && b < |id| && (b >= 0 ==> id[b] != -1)
    && (if b < 0 || id0[b] != -1 then new' == [] else new' != [] && new'[|new'| - 1] == b)
    && (forall k :: 0 <= k < |new'| - 1 ==> Follows(g, new', k))
  }
  
  ghost predicate Follows(g: Graph, ps: seq<nat>, k: int)
    requires g.Valid()
  {
    exists k' :: k < k' < |ps| && k >= 0 && g.Edge(ps[k'], ps[k])
  }

  lemma FollowsBoth(g: Graph, b: nat, n1: seq<nat>, n2: seq<nat>, k: nat)
    requires g.Valid() && k < |n1| + |n2|
    requires |n1| > 0 ==> g.Edge(b, n1[|n1| - 1])
    requires |n2| > 0 ==> g.Edge(b, n2[|n2| - 1])
    requires k < |n1| - 1 ==> Follows(g, n1, k)
    requires |n1| <= k < |n1| + |n2| - 1 ==> Follows(g, n2, k - |n1|)
    ensures Follows(g, n1 + n2 + [b], k)
  {
    var ps := n1 + n2 + [b];
    if k < |n1| - 1 {
      var k' :| k < k' < |n1| && g.Edge(n1[k'], n1[k]);
      assert g.Edge(ps[k'], ps[k]);
    } else if |n1| <= k < |n1| + |n2| - 1 {
      var k' :| k - |n1| < k' < |n2| && g.Edge(n2[k'], n2[k - |n1|]);
      assert g.Edge(ps[k' + |n1|], ps[k]);
    } else {
      assert g.Edge(ps[|ps| - 1], ps[k]);
    }
  }

  lemma ExploredBoth(g: Graph, b: nat, s1: int, s2: int, id0: seq<int>, id1: seq<int>, id2: seq<int>, id3: seq<int>,
                     id4: seq<int>, n1: seq<nat>, n2: seq<nat>)
    requires g.Valid() && |id0| == |id1| == |id2| == |id3| == |id4| == |g.s1| && b < |id0|
    requires id0[b] == -1 && id1 == id0[b := 0] && id4[b] != -1 && id4 == id3[b := id4[b]]
    requires {s1, s2} == {g.s1[b], g.s2[b]}
    requires Explored(g, s1, id1, id2, n1) && Explored(g, s2, id2, id3, n2)
    ensures Explored(g, b, id0, id4, n1 + n2 + [b])
  {
    var ps := n1 + n2 + [b];
    forall x | x in ps ensures ReachableFrom(g, b, x) {
      if x == b {
        assert IsPath(g, b, [b], b);
      } else {
        var s := if x in n1 then s1 else s2;
        var p :| IsPath(g, s, p, x);
        assert IsPath(g, b, [b, s], s);
        PathConcat(g, b, [b, s], s, p, x);
      }
    }
    forall k | 0 <= k < |ps| - 1 ensures Follows(g, ps, k) {
      FollowsBoth(g, b, n1, n2, k);
    }
  }

  /** An edge from a block to one that is not numbered before it closes a cycle. */
  ghost predicate Retreats(g: Graph, ps: seq<nat>)
    requires g.Valid()
  {
    forall k, y: nat :: 0 <= k < |ps| && g.Edge(ps[k], y) ==> y in ps[..k] || ReachableFrom(g, y, ps[k])
  }

  /** The blocks that the walk has entered and not left yet lead to b. */
  ghost predicate OpenReach(g: Graph, id: seq<int>, po: seq<nat>, b: int) {
    b >= 0 ==> forall y: nat :: y < |id| && id[y] != -1 && y !in po ==> ReachableFrom(g, y, b)
  }

  lemma OpenEnter(g: Graph, id: seq<int>, po: seq<nat>, b: nat)
    requires g.Valid() && b < |id| == |g.s1| && OpenReach(g, id, po, b)
    ensures OpenReach(g, id[b := 0], po, b)
  {
    assert IsPath(g, b, [b], b);
  }

  lemma OpenEdge(g: Graph, id: seq<int>, po: seq<nat>, b: nat, s: int)
    requires g.Valid() && |id| == |g.s1| && OpenReach(g, id, po, b) && (s < 0 || g.Edge(b, s))
    ensures OpenReach(g, id, po, s)
  {
    if s >= 0 {
      forall y: nat | y < |id| && id[y] != -1 && y !in po ensures ReachableFrom(g, y, s) {
        var p :| IsPath(g, y, p, b);
        PathStep(g, y, p, b, s);
      }
    }
  }

  lemma OpenKept(g: Graph, id: seq<int>, id': seq<int>, po: seq<nat>, new': seq<nat>, s: int, b: nat)
    requires g.Valid() && |id| == |id'| == |g.s1| && Explored(g, s, id, id', new') && OpenReach(g, id, po, b)
    ensures OpenReach(g, id', po + new', b)
    ensures forall x :: 0 <= x < |id| && id'[x] == -1 ==> id[x] == -1
  {
    forall y: nat | y < |id| && id'[y] != -1 && y !in po + new' ensures ReachableFrom(g, y, b) {
      assert id[y] != -1;
    }
  }

  lemma RetreatsLast(g: Graph, id: seq<int>, ps: seq<nat>, b: nat)
    requires g.Valid() && |id| == |g.s1| && Retreats(g, ps) && OpenReach(g, id, ps, b)
    requires forall y: nat :: g.Edge(b, y) ==> id[y] != -1
    ensures Retreats(g, ps + [b])
  {
    var qs := ps + [b];
    forall k, y: nat | 0 <= k < |qs| && g.Edge(qs[k], y) ensures y in qs[..k] || ReachableFrom(g, y, qs[k]) {
      assert qs[..k] == ps[..k];
    }
  }

  /** porec: a depth-first walk from b; npo blocks have been numbered before it. */
  method PoRec(g: Graph, loop: seq<int>, id: array<int>, b: int, npo: nat, ghost po: seq<nat>)
    returns (npo': nat, ghost new': seq<nat>)
    requires |loop| == id.Length && b < id.Length && npo == |po|
    requires Postorder(g, id[..], po) && Retreats(g, po) && OpenReach(g, id[..], po, b)
    modifies id
    ensures npo' == |po + new'|
    ensures Postorder(g, id[..], po + new') && Retreats(g, po + new')
    ensures Explored(g, b, old(id[..]), id[..], new')
    decreases set x | 0 <= x < id.Length && id[x] == -1
  {
    hide Explored, Retreats, OpenReach;
    if b < 0 || id[b] != -1 {
      Unexplored(g, b, id[..], po);
      return npo, [];
    }
    ghost var id0 := id[..];
    ghost var white0 := set x | 0 <= x < id.Length && id[x] == -1;
    id[b] := 0; // marker
    assert white0 - {b} == set x | 0 <= x < id.Length && id[x] == -1;
    ghost var id1 := id[..];
    var s1, s2 := g.s1[b], g.s2[b];
    if s1 >= 0 && s2 >= 0 && loop[s1] > loop[s2] {
      s1, s2 := s2, s1;
    }
    ghost var n1, n2;
    Entered(g, id0, po, b, s1);
    npo', n1 := PoRec(g, loop, id, s1, npo, po);
    ghost var id2 := id[..];
    OpenKept(g, id1, id2, po, n1, s1, b);
    OpenEdge(g, id2, po + n1, b, s2);
    npo', n2 := PoRec(g, loop, id, s2, npo', po + n1);
    ghost var id3 := id[..];
    OpenKept(g, id2, id3, po + n1, n2, s2, b);
    Left(g, b, s1, s2, id1, id2, id3, po, n1, n2);
    id[b] := npo';
    npo' := npo' + 1;
    new' := n1 + n2 + [b];
    ExploredBoth(g, b, s1, s2, id0, id1, id2, id3, id[..], n1, n2);
    assert po + new' == po + n1 + n2 + [b] && id[..] == id3[b := |po + n1 + n2|];
  }

  lemma Unexplored(g: Graph, b: int, id: seq<int>, po: seq<nat>)
    requires g.Valid() && b < |id| == |g.s1| && (b < 0 || id[b] != -1)
    ensures Explored(g, b, id, id, []) && po + [] == po
  {}

  /** The walk enters b. */
  lemma Entered(g: Graph, id0: seq<int>, po: seq<nat>, b: nat, s: int)
    requires Postorder(g, id0, po) && b < |id0| && id0[b] == -1 && OpenReach(g, id0, po, b)
    requires s < 0 || g.Edge(b, s)
    ensures Postorder(g, id0[b := 0], po) && OpenReach(g, id0[b := 0], po, b) && OpenReach(g, id0[b := 0], po, s)
  {
    OpenEnter(g, id0, po, b);
    OpenEdge(g, id0[b := 0], po, b, s);
  }

  /** The walk leaves b, which gets the next number. */
  lemma Left(g: Graph, b: nat, s1: int, s2: int, id1: seq<int>, id2: seq<int>, id3: seq<int>, po: seq<nat>,
             n1: seq<nat>, n2: seq<nat>)
    requires Postorder(g, id1, po) && Postorder(g, id3, po + n1 + n2) && |id1| == |id2| && b < |id1|
    requires id1[b] == 0 && b !in po && {s1, s2} == {g.s1[b], g.s2[b]}
    requires Explored(g, s1, id1, id2, n1) && Explored(g, s2, id2, id3, n2)
    requires Retreats(g, po + n1 + n2) && OpenReach(g, id3, po + n1 + n2, b)
    ensures Postorder(g, id3[b := |po + n1 + n2|], po + n1 + n2 + [b]) && Retreats(g, po + n1 + n2 + [b])
  {
    var ps := po + n1 + n2;
    assert b !in ps;
    Appended(g, id3, ps, b);
    forall y: nat | g.Edge(b, y) ensures id3[y] != -1 {
      assert y == s1 || y == s2 by { assert y in {g.s1[b], g.s2[b]}; }
    }
    RetreatsLast(g, id3, ps, b);
  }

  lemma Appended(g: Graph, id: seq<int>, po: seq<nat>, b: nat)
    requires Postorder(g, id, po) && b < |id| && b !in po
    ensures Postorder(g, id[b := |po|], po + [b])
  {}

  lemma {:induction false} ReachesOnlySeen(g: Graph, id: seq<int>, p: seq<nat>, b: nat)
    requires g.Valid() && |id| == |g.s1| && IsPath(g, 0, p, b) && id[0] != -1 && b < |id|
    requires forall x, y :: 0 <= x < |id| && id[x] != -1 && g.Edge(x, y) ==> id[y] != -1
    ensures id[b] != -1
    decreases |p|
  {
    if |p| > 1 {
      assert g.Edge(p[|p| - 2], p[|p| - 1]);
      PathPrefix(g, 0, p, b, |p| - 2);
      ReachesOnlySeen(g, id, p[..|p| - 1], p[|p| - 2]);
    }
  }

  /** id and rpo are inverse numberings of the blocks that the start block reaches. */
  ghost predicate Numbering(g: Graph, id: seq<int>, rpo: seq<nat>) {
    && g.Valid() && |id| == |g.s1| && 0 < |rpo| && rpo[0] == 0
    && (forall k :: 0 <= k < |rpo| ==> rpo[k] < |id| && id[rpo[k]] == k)
    && (forall b :: 0 <= b < |id| ==> id[b] == -1 || (0 <= id[b] < |rpo| && rpo[id[b]] == b))
    && (forall b :: 0 <= b < |id| ==> (id[b] != -1 <==> ReachableFrom(g, 0, b)))
  }

  function NewName(id: seq<int>, b: int): int
    requires b < |id|
  {
    if b < 0 then NONE else id[b]
  }

  /** The graph that the later passes see, once blocks are known by their numbers. */
  ghost function Renumber(g: Graph, id: seq<int>, rpo: seq<nat>): Graph
    requires g.Valid() && |id| == |g.s1| && forall k :: 0 <= k < |rpo| ==> rpo[k] < |id|
  {
    Graph(seq(|rpo|, k requires 0 <= k < |rpo| => NewName(id, g.s1[rpo[k]])),
          seq(|rpo|, k requires 0 <= k < |rpo| => NewName(id, g.s2[rpo[k]])))
  }

  ghost predicate Renumbered(old': int, new': int, b: nat, rpo: seq<nat>) {
    if old' == -1 then new' == -1 else new' == |rpo| - old' - 1 && 0 <= new' < |rpo| && rpo[new'] == b
  }

  /** Reverse postorder: an edge to a block whose number is not larger closes a cycle. */
  ghost predicate BackEdgesLoop(g: Graph)
    requires g.Valid()
  {
    forall a: nat, b: nat :: g.Edge(a, b) && b <= a ==> ReachableFrom(g, b, a)
  }

  /** A path among numbered blocks is a path among their numbers. */
  lemma RenumberedPath(g: Graph, id: seq<int>, rpo: seq<nat>, p: seq<nat>, a: nat, b: nat)
    requires Numbering(g, id, rpo) && Renumber(g, id, rpo).Valid() && IsPath(g, a, p, b) && ReachableFrom(g, 0, a)
    ensures b < |id| && id[a] >= 0 && id[b] >= 0 && ReachableFrom(Renumber(g, id, rpo), id[a], id[b])
    decreases |p|
  {
    var h := Renumber(g, id, rpo);
    if |p| == 1 {
      assert IsPath(h, id[a], [id[a]], id[a]);
    } else {
      var c := p[|p| - 2];
      assert g.Edge(c, b);
      PathPrefix(g, a, p, b, |p| - 2);
      RenumberedPath(g, id, rpo, p[..|p| - 1], a, c);
      var q :| IsPath(g, 0, q, a);
      PathConcat(g, 0, q, a, p, b);
      assert h.Edge(id[c], id[b]);
      var r :| IsPath(h, id[a], r, id[c]);
      PathStep(h, id[a], r, id[c], id[b]);
    }
  }

  lemma BackEdgesClose(g: Graph, id0: seq<int>, po: seq<nat>, id: seq<int>, rpo: seq<nat>)
    requires Postorder(g, id0, po) && |id| == |id0| && |rpo| == |po| && Retreats(g, po)
    requires forall b :: 0 <= b < |id| ==> Renumbered(id0[b], id[b], b, rpo)
    requires Numbering(g, id, rpo) && Renumber(g, id, rpo).Valid()
    ensures BackEdgesLoop(Renumber(g, id, rpo))
  {
    var h := Renumber(g, id, rpo);
    forall a: nat, b: nat | h.Edge(a, b) && b <= a ensures ReachableFrom(h, b, a) {
      var x, y := rpo[a], rpo[b];
      var k := |po| - a - 1;
      assert po[k] == x by { assert Renumbered(id0[po[k]], id[po[k]], po[k], rpo); }
      assert g.Edge(x, y);
      var p :| IsPath(g, y, p, x);
      RenumberedPath(g, id, rpo, p, y, x);
    }
  }

  lemma ReversedNumbering(g: Graph, id0: seq<int>, po: seq<nat>, id: seq<int>, rpo: seq<nat>)
    requires Postorder(g, id0, po) && |id| == |id0| && |rpo| == |po|
    requires Explored(g, 0, seq(|id0|, _ => -1), id0, po)
    requires forall b :: 0 <= b < |id| ==> Renumbered(id0[b], id[b], b, rpo)
    ensures Numbering(g, id, rpo)
    ensures forall k :: 0 <= k < |rpo| ==> rpo[k] == po[|po| - k - 1]
  {
    hide Follows;
    forall k | 0 <= k < |rpo| ensures rpo[k] == po[|po| - k - 1] {
      assert Renumbered(id0[po[|po| - k - 1]], id[po[|po| - k - 1]], po[|po| - k - 1], rpo);
    }
    forall b | 0 <= b < |id| ensures id[b] != -1 <==> ReachableFrom(g, 0, b) {
      if b in po {
        assert ReachableFrom(g, 0, b);
      } else if ReachableFrom(g, 0, b) {
        var p :| IsPath(g, 0, p, b);
        ReachesOnlySeen(g, id0, p, b);
      }
    }
  }

  lemma ReversedPostorder(g: Graph, id0: seq<int>, po: seq<nat>, id: seq<int>, rpo: seq<nat>)
    requires Postorder(g, id0, po) && |id| == |id0| && |rpo| == |po|
    requires Explored(g, 0, seq(|id0|, _ => -1), id0, po)
    requires forall b :: 0 <= b < |id| ==> Renumbered(id0[b], id[b], b, rpo)
    ensures Numbering(g, id, rpo) && Ordered(Renumber(g, id, rpo))
  {
    ReversedNumbering(g, id0, po, id, rpo);
    hide IsPath, ReachableFrom;
    var h := Renumber(g, id, rpo);
    forall k | 0 <= k < |rpo| ensures NONE <= h.s1[k] < |rpo| && NONE <= h.s2[k] < |rpo| {
      var x := rpo[k];
      assert x in po;
      assert g.s1[x] >= 0 ==> g.Edge(x, g.s1[x]);
      assert g.s2[x] >= 0 ==> g.Edge(x, g.s2[x]);
    }
    forall n | 1 <= n < |rpo| ensures HasEarlierPred(h, n) {
      var k := |po| - n - 1;
      assert Follows(g, po, k);
      var k' :| k < k' < |po| && g.Edge(po[k'], po[k]);
      assert h.Edge(|po| - k' - 1, n);
    }
  }

  /** The second half of fillrpo: id becomes the rank in reverse postorder. */
  method Reverse(id: array<int>, nblk: nat, ghost po: seq<nat>) returns (rpo: array<nat>)
    requires nblk == |po|
    requires forall b :: 0 <= b < id.Length && id[b] != -1 ==> 0 <= id[b] < |po| && po[id[b]] == b
    modifies id
    ensures fresh(rpo) && rpo.Length == nblk
    ensures forall b :: 0 <= b < id.Length ==> Renumbered(old(id[b]), id[b], b, rpo[..])
  {
    rpo := new nat[nblk];
    for b := 0 to id.Length
      invariant forall x :: b <= x < id.Length ==> id[x] == old(id[x])
      invariant forall x :: 0 <= x < b ==> Renumbered(old(id[x]), id[x], x, rpo[..])
    {
      if id[b] != -1 {
        id[b] := nblk - id[b] - 1;
        rpo[id[b]] := b;
      }
    }
  }

  /** fillrpo: the dead blocks are those left with id -1. */
  method FillRpo(g: Graph, loop: seq<int>, id: array<int>) returns (rpo: array<nat>)
    requires g.Valid() && id.Length == |loop| == |g.s1|
    modifies id
    ensures fresh(rpo)
    ensures Numbering(g, id[..], rpo[..])
    ensures Ordered(Renumber(g, id[..], rpo[..])) && BackEdgesLoop(Renumber(g, id[..], rpo[..]))
  {
    forall b | 0 <= b < id.Length {
      id[b] := -1;
    }
    assert id[..] == seq(id.Length, _ => -1);
    var nblk: nat;
    ghost var po;
    nblk, po := PoRec(g, loop, id, 0, 0, []);
    ghost var id0 := id[..];
    assert [] + po == po;
    forall b | 0 <= b < id.Length && id[b] != -1 ensures 0 <= id[b] < |po| && po[id[b]] == b {
      assert b in po;
    }
    rpo := Reverse(id, nblk, po);
    ReversedPostorder(g, id0, po, id[..], rpo[..]);
    BackEdgesClose(g, id0, po, id[..], rpo[..]);
  }

  /** fillpreds: the predecessors of each block, each listed once even when both successors agree. */
  method FillPreds(g: Graph) returns (pred: array<seq<nat>>)
    requires g.Valid()
    ensures fresh(pred) && pred.Length == |g.s1|
    ensures forall b :: 0 <= b < pred.Length ==> IsPreds(g, b, pred[b])
  {
    pred := new seq<nat>[|g.s1|](_ => []);
    for b := 0 to |g.s1|
      invariant forall x :: 0 <= x < pred.Length ==> IsPredsBelow(g, b, x, pred[x])
    {
      ghost var before := pred[..];
      if g.s1[b] >= 0 {
        pred[g.s1[b]] := pred[g.s1[b]] + [b];
      }
      if g.s2[b] >= 0 && g.s2[b] != g.s1[b] {
        pred[g.s2[b]] := pred[g.s2[b]] + [b];
      }
      forall x | 0 <= x < pred.Length ensures IsPredsBelow(g, b + 1, x, pred[x]) {
        assert IsPredsBelow(g, b, x, before[x]);
        assert pred[x] == if g.Edge(b, x) then before[x] + [b] else before[x];
      }
    }
  }

  ghost predicate IsPredsBelow(g: Graph, n: int, b: int, ps: seq<nat>)
    requires g.Valid()
  {
    && (forall a: nat :: a in ps <==> a < n && g.Edge(a, b))
    && (forall i, j :: 0 <= i < j < |ps| ==> ps[i] != ps[j])
  }

  ghost predicate IsPreds(g: Graph, b: int, ps: seq<nat>)
    requires g.Valid()
  {
    IsPredsBelow(g, |g.s1|, b, ps)
  }
}
