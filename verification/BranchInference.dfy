/**
 * Values known from a dominating branch: reachrec and reachesnotvia of cfg.c, cmpeqz, branchdom, domzero and
 * zeroval of gvn.c, and the jump that dedupjmp collapses with their help.
 */
module BranchInference {
  import opened Cfg
  import opened Dominators
  import opened Ir
  import Words

  // ----- reachesnotvia -----

  /** p leads from b to its first arrival at `to`, through blocks outside the set closed. */
  ghost predicate Avoids(g: Graph, b: nat, p: seq<nat>, to: nat, closed: set<int>) {
    IsPath(g, b, p, to) && forall i :: 0 <= i < |p| - 1 ==> p[i] !in closed
  }

  ghost predicate ReachesAvoiding(g: Graph, b: int, to: nat, closed: set<int>) {
    b >= 0 && exists p :: Avoids(g, b, p, to, closed)
  }

  ghost function Marked(visit: seq<bool>): set<int> {
    set x | 0 <= x < |visit| && visit[x]
  }

  ghost function Unmarked(visit: seq<bool>): set<int> {
    set x | 0 <= x < |visit| && !visit[x]
  }

  /** The search from b failed: what it marked beyond before is closed under successors and misses `to`. */
  ghost predicate Searched(g: Graph, b: int, to: nat, before: set<int>, after: set<int>)
    requires g.Valid()
  {
    && before <= after && b != to && (b >= 0 ==> b in after)
    && forall x, y :: x in after - before && g.Edge(x, y) ==> y != to && y in after
  }

  lemma {:induction false} SearchedHasNoPath(g: Graph, b: int, to: nat, before: set<int>, after: set<int>, c: nat,
                                             p: seq<nat>)
    requires g.Valid() && Searched(g, b, to, before, after) && c in after && c != to
    ensures !Avoids(g, c, p, to, before)
    decreases |p|
  {
    if Avoids(g, c, p, to, before) {
      assert g.Edge(p[0], p[1]);
      PathSuffix(g, c, p, to, 1);
      SearchedHasNoPath(g, b, to, before, after, p[1], p[1..]);
    }
  }

  lemma ExtendsAvoiding(g: Graph, b: nat, s: int, to: nat, closed: set<int>, closed': set<int>)
    requires g.Valid() && g.Edge(b, s) && b !in closed && closed <= closed' && ReachesAvoiding(g, s, to, closed')
    ensures ReachesAvoiding(g, b, to, closed)
  {
    var p :| Avoids(g, s, p, to, closed');
    assert IsPath(g, b, [b, s], s);
    PathConcat(g, b, [b, s], s, p, to);
    assert Avoids(g, b, [b, s] + p[1..], to, closed);
  }

  /** reachrec: the target is recognised before its visit mark is looked at. */
  method ReachRec(g: Graph, visit: array<bool>, b: int, to: nat) returns (r: bool)
    requires g.Valid() && visit.Length == |g.s1| && NONE <= b < |g.s1| && to < |g.s1|
    modifies visit
    ensures r ==> ReachesAvoiding(g, b, to, Marked(old(visit[..])))
    ensures !r ==> Searched(g, b, to, Marked(old(visit[..])), Marked(visit[..]))
    ensures Marked(old(visit[..])) <= Marked(visit[..])
    decreases Unmarked(visit[..])
  {
    ghost var v0 := visit[..];
    if b == to {
      assert Avoids(g, b, [b], to, Marked(v0));
      return true;
    }
    if b == NONE || visit[b] {
      return false;
    }
    visit[b] := true;
    ghost var v1 := visit[..];
    assert v1 == v0[b := true];
    assert b in Unmarked(v0) && b !in Unmarked(v1);
    r := ReachRec(g, visit, g.s1[b], to);
    if r {
      ExtendsAvoiding(g, b, g.s1[b], to, Marked(v0), Marked(v1));
      return;
    }
    ghost var v2 := visit[..];
    assert Unmarked(v2) <= Unmarked(v1) by { MarksGrow(v1, v2); }
    r := ReachRec(g, visit, g.s2[b], to);
    if r {
      ExtendsAvoiding(g, b, g.s2[b], to, Marked(v0), Marked(v2));
    }
  }

  lemma MarksGrow(v: seq<bool>, w: seq<bool>)
    requires |v| == |w| && Marked(v) <= Marked(w)
    ensures Unmarked(w) <= Unmarked(v)
  {
    forall x | x in Unmarked(w) ensures x in Unmarked(v) {
      assert x !in Marked(w);
    }
  }

  ghost predicate Clear(visit: seq<bool>) {
    forall x :: 0 <= x < |visit| ==> !visit[x]
  }

  /** reachesnotvia: is there a path from b to `to` that does not pass through excl on its way? */
  method ReachesNotVia(g: Graph, visit: array<bool>, b: nat, to: nat, excl: nat) returns (r: bool)
    requires g.Valid() && visit.Length == |g.s1| && b < |g.s1| && to < |g.s1| && excl < |g.s1| && Clear(visit[..])
    modifies visit
    ensures Clear(visit[..])
    ensures r <==> ReachesAvoiding(g, b, to, {excl})
  {
    visit[excl] := true;
    ghost var v0 := visit[..];
    assert Marked(v0) == {excl};
    r := ReachRec(g, visit, b, to);
    if !r {
      forall p ensures !Avoids(g, b, p, to, {excl}) {
        SearchedHasNoPath(g, b, to, Marked(v0), Marked(visit[..]), b, p);
      }
    }
    for x := 0 to visit.Length
      invariant Clear(visit[..x])
    {
      visit[x] := false;
    }
  }

  // ----- which side of a branch was taken -----

  /** k is the last visit to d on p. */
  ghost predicate LastVisit(p: seq<nat>, d: nat, k: nat) {
    k < |p| && p[k] == d && d !in p[k + 1..]
  }

  lemma {:induction false} HasLastVisit(p: seq<nat>, d: nat) returns (k: nat)
    requires d in p
    ensures LastVisit(p, d, k)
  {
    if p[|p| - 1] == d {
      k := |p| - 1;
    } else {
      k := HasLastVisit(p[..|p| - 1], d);
      assert p[k + 1..] == p[..|p| - 1][k + 1..] + [p[|p| - 1]];
    }
  }

  /** Every way to b leaves its last visit to bif by the block side. */
  ghost predicate LeavesBy(g: Graph, bif: nat, b: nat, side: int) {
    b != bif && forall p, k: nat :: IsPath(g, 0, p, b) && LastVisit(p, bif, k) ==> k + 1 < |p| && p[k + 1] == side
  }

  /** The answer of branchdom. Dominance is that of g0, the graph before some of its jumps were collapsed. */
  ghost predicate Accepts(g0: Graph, g: Graph, bif: nat, br1: nat, br2: nat, b: nat) {
    b != bif && Dominates(g0, br1, b) && !ReachesAvoiding(g, br2, b, {bif})
  }

  /** What follows the last visit to bif does not pass through it. */
  lemma TailAvoids(g: Graph, bif: nat, b: nat, p: seq<nat>, k: nat)
    requires IsPath(g, 0, p, b) && LastVisit(p, bif, k) && k + 1 < |p|
    ensures g.Edge(bif, p[k + 1]) && ReachesAvoiding(g, p[k + 1], b, {bif})
  {
    PathSuffix(g, 0, p, b, k + 1);
    var q := p[k + 1..];
    assert forall i :: 0 <= i < |q| ==> q[i] in q;
    assert Avoids(g, p[k + 1], q, b, {bif});
  }

  lemma AcceptedSide(g: Graph, bif: nat, br1: nat, br2: nat, b: nat)
    requires g.Valid() && bif < |g.s1| && {g.s1[bif], g.s2[bif]} == {br1, br2}
    requires b != bif && !ReachesAvoiding(g, br2, b, {bif})
    ensures LeavesBy(g, bif, b, br1)
  {
    forall p, k: nat | IsPath(g, 0, p, b) && LastVisit(p, bif, k) ensures k + 1 < |p| && p[k + 1] == br1 {
      assert k + 1 < |p| && g.Edge(p[k], p[k + 1]);
      TailAvoids(g, bif, b, p, k);
    }
  }

  lemma NotAcceptedSide(g: Graph, bif: nat, br1: nat, br2: nat, b: nat, p: seq<nat>)
    requires g.Valid() && bif < |g.s1| && g.Edge(bif, br2) && IsPath(g, 0, p, bif)
    requires b != bif && ReachesAvoiding(g, br2, b, {bif}) && br1 != br2
    ensures !LeavesBy(g, bif, b, br1)
  {
    var q :| Avoids(g, br2, q, b, {bif});
    PathStep(g, 0, p, bif, br2);
    PathConcat(g, 0, p + [br2], br2, q, b);
    var r := p + [br2] + q[1..];
    assert r[|p|..] == q;
    assert LastVisit(r, bif, |p| - 1) by {
      assert forall i :: 0 <= i < |q| ==> q[i] != bif;
    }
    assert r[|p|] == br2;
  }

  /**
   * branchdom decides exactly which side was taken: when bif can be reached and dominates b, a side is accepted
   * if and only if every path to b leaves its last visit to bif by that side.
   */
  lemma BranchDomExact(g: Graph, bif: nat, br1: nat, br2: nat, b: nat)
    requires g.Valid() && bif < |g.s1| && {g.s1[bif], g.s2[bif]} == {br1, br2} && br1 != br2
    requires ReachableFrom(g, 0, bif) && Dominates(g, bif, b) && b != bif
    ensures Accepts(g, g, bif, br1, br2, b) <==> LeavesBy(g, bif, b, br1)
  {
    var p :| IsPath(g, 0, p, bif);
    assert g.Edge(bif, br2);
    if ReachesAvoiding(g, br2, b, {bif}) {
      NotAcceptedSide(g, bif, br1, br2, b, p);
    } else {
      AcceptedSide(g, bif, br1, br2, b);
      forall q | IsPath(g, 0, q, b) ensures br1 in q {
        var k := HasLastVisit(q, bif);
        assert q[k + 1] == br1;
      }
    }
  }

  /** Collapsing jumps only removes paths. */
  ghost predicate Subgraph(g: Graph, g0: Graph) {
    g.Valid() && g0.Valid() && |g.s1| == |g0.s1| && forall a, b :: g.Edge(a, b) ==> g0.Edge(a, b)
  }

  lemma DominatesInSubgraph(g: Graph, g0: Graph, d: nat, b: nat)
    requires Subgraph(g, g0) && Dominates(g0, d, b)
    ensures Dominates(g, d, b)
  {
    forall p | IsPath(g, 0, p, b) ensures d in p {
      assert IsPath(g0, 0, p, b);
    }
  }

  /** Cutting out the stretch from i to j, where p is at the same block, leaves a path. */
  lemma CutLoop(g: Graph, b: nat, p: seq<nat>, i: nat, j: nat, d: nat)
    requires IsPath(g, 0, p, b) && i < j < |p| && p[i] == p[j]
    requires (forall l :: 0 <= l <= i ==> p[l] != d) && forall l :: j < l < |p| ==> p[l] != d
    ensures !Dominates(g, d, b)
  {
    PathPrefix(g, 0, p, b, i);
    PathSuffix(g, 0, p, b, j);
    PathConcat(g, 0, p[..i + 1], p[i], p[j..], b);
    assert d !in p[..i + 1] + p[j..][1..];
  }

  /** A block that dominates d is not visited again between the last visit to d and a block d dominates. */
  lemma NotSince(g: Graph, e: nat, d: nat, b: nat, p: seq<nat>, k: nat)
    requires IsPath(g, 0, p, b) && Dominates(g, e, d) && Dominates(g, d, b) && LastVisit(p, d, k)
    ensures e !in p[k + 1..]
  {
    NotAfter(p, d, k);
    var f := FirstVisit(p, d);
    PathPrefix(g, 0, p, b, f);
    assert e in p[..f + 1];
    var i :| 0 <= i < f + 1 && p[i] == e;
    if e in p[k + 1..] {
      var j :| 0 <= j < |p[k + 1..]| && p[k + 1..][j] == e;
      assert forall l :: 0 <= l < f ==> p[l] == p[..f][l];
      CutLoop(g, b, p, i, k + 1 + j, d);
    }
  }

  // ----- values -----

  /** Kw looks at the low 32 bits of a temporary, Kl at all 64; Ks and Kd are the floating-point classes. */
  datatype Cls = Kw | Kl | Ks | Kd

  datatype Jump = Jnz(arg: Ref) | OtherJump

  /** The operations with the flag cmpeqwl, and all others. */
  datatype Op = Ceqw | Ceql | Cnew | Cnel | OtherOp

  /** The instruction that defines a temporary. */
  datatype Def = Def(op: Op, arg0: Ref, arg1: Ref) {
    predicate Equality() {
      !op.OtherOp?
    }

    /** The outcome of the comparison when the operands are equal. */
    predicate EqVal() {
      op.Ceqw? || op.Ceql?
    }

    function ArgCls(): Cls {
      if op.Ceqw? || op.Cnew? then Kw else Kl
    }

    predicate AgainstZero() {
      Equality() && arg1 == Con(0)
    }
  }

  /** home[t] is the block that computes temporary t. */
  datatype Func = Func(g: Graph, jmp: seq<Jump>, home: seq<nat>, def: seq<Def>) {
    /** The temporaries are in SSA form: each is computed above its uses. */
    ghost predicate Valid() {
      && g.Valid() && |jmp| == |g.s1| && |def| == |home|
      && (forall t :: 0 <= t < |home| ==> home[t] < |g.s1|)
      && (forall b: nat :: b < |jmp| && jmp[b].Jnz? ==> JnzValid(b))
      && (forall t: nat :: t < |def| && def[t].Equality() ==> CmpValid(t))
    }

    ghost predicate JnzValid(b: nat)
      requires b < |jmp| == |g.s1| == |g.s2|
    {
      jmp[b].Jnz? && g.s1[b] >= 0 && g.s2[b] >= 0 && UseValid(jmp[b].arg, b)
    }

    ghost predicate CmpValid(t: nat)
      requires t < |def| == |home|
    {
      def[t].Equality() && UseValid(def[t].arg0, home[t]) && UseValid(def[t].arg1, home[t])
    }

    ghost predicate UseValid(r: Ref, b: nat) {
      r.Tmp? ==> r.t < |home| && Dominates(g, home[r.t], b)
    }
  }

  type Store = nat -> nat

  /** UNDEF reads as a value that is not known but does not change. */
  ghost function Value(s: Store, r: Ref, undef: nat): nat {
    match r
    case Tmp(t) => s(t)
    case Con(v) => v % 0x1_0000_0000_0000_0000
    case Undef => undef
    case R => 0
  }

  ghost function Low(cls: Cls, x: nat): nat {
    if cls == Kw then x % 0x1_0000_0000 else x % 0x1_0000_0000_0000_0000
  }

  ghost predicate IsZero(s: Store, r: Ref, undef: nat, cls: Cls) {
    Low(cls, Value(s, r, undef)) == 0
  }

  /** v[i] holds the temporaries at the end of the i-th block of the path p. */
  ghost predicate StepOk(f: Func, p: seq<nat>, v: seq<Store>, undef: nat, i: nat)
    requires f.Valid() && i < |p| == |v| && p[i] < |f.jmp|
  {
    && (i > 0 ==> forall t: nat :: t < |f.home| && f.home[t] != p[i] ==> v[i](t) == v[i - 1](t))
    && (forall t: nat :: t < |f.def| && f.def[t].Equality() && f.home[t] == p[i] ==> CmpHolds(f, v[i], undef, t))
    && (i + 1 < |p| && f.jmp[p[i]].Jnz? ==> p[i + 1] == Target(f, v[i], undef, p[i]))
  }

  /** t is the outcome of its comparison: of the low 32 bits for ceqw and cnew, of 64 bits for ceql and cnel. */
  ghost predicate CmpHolds(f: Func, s: Store, undef: nat, t: nat)
    requires t < |f.def| && f.def[t].Equality()
  {
    var x, y := Value(s, f.def[t].arg0, undef), Value(s, f.def[t].arg1, undef);
    match f.def[t].op
    case Ceqw => s(t) == if x % 0x1_0000_0000 == y % 0x1_0000_0000 then 1 else 0
    case Cnew => s(t) == if x % 0x1_0000_0000 == y % 0x1_0000_0000 then 0 else 1
    case Ceql => s(t) == if x % 0x1_0000_0000_0000_0000 == y % 0x1_0000_0000_0000_0000 then 1 else 0
    case Cnel => s(t) == if x % 0x1_0000_0000_0000_0000 == y % 0x1_0000_0000_0000_0000 then 0 else 1
    case OtherOp => true
  }

  ghost function Target(f: Func, s: Store, undef: nat, b: nat): int
    requires f.Valid() && b < |f.jmp| && f.jmp[b].Jnz?
  {
    if IsZero(s, f.jmp[b].arg, undef, Kw) then f.g.s2[b] else f.g.s1[b]
  }

  /** An execution from the start block to the end of block b. */
  ghost predicate Runs(f: Func, p: seq<nat>, v: seq<Store>, undef: nat, b: nat) {
    && f.Valid() && IsPath(f.g, 0, p, b) && |v| == |p|
    && forall i: nat :: i < |p| ==> p[i] < |f.jmp| && StepOk(f, p, v, undef, i)
  }

  lemma {:induction false} Kept(f: Func, p: seq<nat>, v: seq<Store>, undef: nat, b: nat, t: nat, k: nat, j: nat)
    requires Runs(f, p, v, undef, b) && t < |f.home| && k <= j < |p|
    requires forall i :: k < i <= j ==> p[i] != f.home[t]
    ensures v[j](t) == v[k](t)
    decreases j
  {
    if k < j {
      Kept(f, p, v, undef, b, t, k, j - 1);
      assert StepOk(f, p, v, undef, j);
    }
  }

  lemma NotAfter(p: seq<nat>, d: nat, k: nat)
    requires k < |p| && d !in p[k + 1..]
    ensures forall i :: k < i < |p| ==> p[i] != d
  {
    forall i | k < i < |p| ensures p[i] != d {
      assert p[i] == p[k + 1..][i - k - 1];
    }
  }

  /** The operand of a use in d still has the value it had at the last visit to d. */
  lemma OperandKept(f: Func, p: seq<nat>, v: seq<Store>, undef: nat, b: nat, r: Ref, d: nat, k: nat)
    requires Runs(f, p, v, undef, b) && f.UseValid(r, d) && Dominates(f.g, d, b) && LastVisit(p, d, k)
    ensures Value(v[|p| - 1], r, undef) == Value(v[k], r, undef)
  {
    if r.Tmp? {
      NotSince(f.g, f.home[r.t], d, b, p, k);
      NotAfter(p, f.home[r.t], k);
      Kept(f, p, v, undef, b, r.t, k, |p| - 1);
    }
  }

  /** A comparison made above the end of b is still right there. */
  lemma CmpStillHolds(f: Func, p: seq<nat>, v: seq<Store>, undef: nat, b: nat, t: nat)
    requires Runs(f, p, v, undef, b) && t < |f.def| && f.def[t].Equality() && Dominates(f.g, f.home[t], b)
    ensures CmpHolds(f, v[|p| - 1], undef, t)
  {
    var d := f.home[t];
    assert f.CmpValid(t);
    var k := HasLastVisit(p, d);
    assert StepOk(f, p, v, undef, k);
    OperandKept(f, p, v, undef, b, f.def[t].arg0, d, k);
    OperandKept(f, p, v, undef, b, f.def[t].arg1, d, k);
    NotAfter(p, d, k);
    Kept(f, p, v, undef, b, t, k, |p| - 1);
  }

  /** At the end of b, r is zero if z and non-zero otherwise. */
  ghost predicate Infers(f: Func, b: nat, r: Ref, cls: Cls, z: bool) {
    forall p, v, undef :: Runs(f, p, v, undef, b) ==> IsZero(v[|p| - 1], r, undef, cls) == z
  }

  ghost function Side(f: Func, d: nat, z: bool): int
    requires f.Valid() && d < |f.jmp|
  {
    if z then f.g.s2[d] else f.g.s1[d]
  }

  /** What the branch at the end of d tested, for a run that last left d by one side. */
  lemma TestedValue(f: Func, p: seq<nat>, v: seq<Store>, undef: nat, b: nat, d: nat, z: bool) returns (k: nat)
    requires Runs(f, p, v, undef, b) && d < |f.jmp| && f.jmp[d].Jnz? && f.g.s1[d] != f.g.s2[d]
    requires Dominates(f.g, d, b) && LeavesBy(f.g, d, b, Side(f, d, z))
    ensures LastVisit(p, d, k) && IsZero(v[k], f.jmp[d].arg, undef, Kw) == z
  {
    k := HasLastVisit(p, d);
    assert StepOk(f, p, v, undef, k);
  }

  lemma DirectZero(f: Func, b: nat, d: nat, z: bool)
    requires f.Valid() && d < |f.jmp| && f.jmp[d].Jnz? && f.g.s1[d] != f.g.s2[d]
    requires Dominates(f.g, d, b) && LeavesBy(f.g, d, b, Side(f, d, z))
    ensures Infers(f, b, f.jmp[d].arg, Kw, z)
  {
    assert f.JnzValid(d);
    forall p, v, undef | Runs(f, p, v, undef, b)
      ensures IsZero(v[|p| - 1], f.jmp[d].arg, undef, Kw) == z
    {
      var k := TestedValue(f, p, v, undef, b, d, z);
      OperandKept(f, p, v, undef, b, f.jmp[d].arg, d, k);
    }
  }

  lemma ComparedZero(f: Func, b: nat, d: nat, z: bool)
    requires f.Valid() && d < |f.jmp| && f.jmp[d].Jnz? && f.g.s1[d] != f.g.s2[d]
    requires f.jmp[d].arg.Tmp? && f.jmp[d].arg.t < |f.def| && f.def[f.jmp[d].arg.t].AgainstZero()
    requires Dominates(f.g, d, b) && LeavesBy(f.g, d, b, Side(f, d, z))
    ensures var def := f.def[f.jmp[d].arg.t]; Infers(f, b, def.arg0, def.ArgCls(), z != def.EqVal())
  {
    var t := f.jmp[d].arg.t;
    var def := f.def[t];
    assert f.JnzValid(d) && f.CmpValid(t);
    DirectZero(f, b, d, z);
    forall p, v, undef | Runs(f, p, v, undef, b)
      ensures IsZero(v[|p| - 1], def.arg0, undef, def.ArgCls()) == (z != def.EqVal())
    {
      DominatesTrans(f.g, f.home[t], d, b);
      CmpStillHolds(f, p, v, undef, b, t);
      CmpOutcome(f, v[|p| - 1], undef, t);
    }
  }

  // ----- branchdom, domzero, cmpeqz, zeroval -----

  /** A function under numbering: idom was computed before some jumps were collapsed. */
  ghost predicate Analysed(f: Func, g0: Graph, idom: seq<int>) {
    f.Valid() && IsDomTree(g0, idom) && Subgraph(f.g, g0)
  }

  method BranchDom(f: Func, ghost g0: Graph, idom: seq<int>, visit: array<bool>, bif: nat, br1: nat, br2: nat, b: nat)
    returns (r: bool)
    requires Analysed(f, g0, idom) && visit.Length == |idom| && Clear(visit[..])
    requires bif < |idom| && br1 < |idom| && br2 < |idom| && b < |idom|
    modifies visit
    ensures Clear(visit[..])
    ensures r <==> Accepts(g0, f.g, bif, br1, br2, b)
  {
    r := false;
    if b != bif {
      var dom := Dom(g0, idom, br1, b);
      if dom {
        r := ReachesNotVia(f.g, visit, br2, b, bif);
        r := !r;
      }
    }
  }

  /** The side of the branch at d that domzero finds: the first one that branchdom accepts. */
  ghost predicate Decides(f: Func, g0: Graph, d: nat, b: nat)
    requires f.Valid() && d < |f.jmp| && f.jmp[d].Jnz?
  {
    assert f.JnzValid(d);
    Accepts(g0, f.g, d, f.g.s1[d], f.g.s2[d], b) || Accepts(g0, f.g, d, f.g.s2[d], f.g.s1[d], b)
  }

  lemma AcceptedIsTaken(f: Func, g0: Graph, d: nat, b: nat, z: bool)
    requires f.Valid() && d < |f.jmp| && f.jmp[d].Jnz? && Subgraph(f.g, g0) && Dominates(g0, d, b)
    requires f.JnzValid(d) && Accepts(g0, f.g, d, Side(f, d, z), Side(f, d, !z), b)
    ensures Dominates(f.g, d, b) && LeavesBy(f.g, d, b, Side(f, d, z))
    ensures (exists p :: IsPath(f.g, 0, p, b)) ==> f.g.s1[d] != f.g.s2[d]
  {
    DominatesInSubgraph(f.g, g0, d, b);
    AcceptedSide(f.g, d, Side(f, d, z), Side(f, d, !z), b);
    if f.g.s1[d] == f.g.s2[d] && exists p :: IsPath(f.g, 0, p, b) {
      var p :| IsPath(f.g, 0, p, b);
      var k := HasLastVisit(p, d);
      TailAvoids(f.g, d, b, p, k);
    }
  }

  /** What an accepted side says about the tested temporary, and about the operand it was compared with zero. */
  lemma AcceptedInfers(f: Func, g0: Graph, d: nat, b: nat, z: bool)
    requires f.Valid() && d < |f.jmp| && f.jmp[d].Jnz? && Subgraph(f.g, g0) && Dominates(g0, d, b)
    requires f.JnzValid(d) && Accepts(g0, f.g, d, Side(f, d, z), Side(f, d, !z), b)
    ensures Infers(f, b, f.jmp[d].arg, Kw, z)
    ensures var r := f.jmp[d].arg;
      r.Tmp? && r.t < |f.def| && f.def[r.t].AgainstZero() ==>
        Infers(f, b, f.def[r.t].arg0, f.def[r.t].ArgCls(), z != f.def[r.t].EqVal())
  {
    AcceptedIsTaken(f, g0, d, b, z);
    if exists p :: IsPath(f.g, 0, p, b) {
      DirectZero(f, b, d, z);
      var r := f.jmp[d].arg;
      if r.Tmp? && r.t < |f.def| && f.def[r.t].AgainstZero() {
        ComparedZero(f, b, d, z);
      }
    }
  }

  method DomZero(f: Func, ghost g0: Graph, idom: seq<int>, visit: array<bool>, d: nat, b: nat)
    returns (found: bool, z: bool)
    requires Analysed(f, g0, idom) && visit.Length == |idom| && Clear(visit[..])
    requires d < |idom| && b < |idom| && f.jmp[d].Jnz? && f.JnzValid(d)
    modifies visit
    ensures Clear(visit[..])
    ensures found <==> Decides(f, g0, d, b)
    ensures found ==> Accepts(g0, f.g, d, Side(f, d, z), Side(f, d, !z), b)
  {
    z := false;
    found := BranchDom(f, g0, idom, visit, d, f.g.s1[d], f.g.s2[d], b);
    if !found {
      z := true;
      found := BranchDom(f, g0, idom, visit, d, f.g.s2[d], f.g.s1[d], b);
    }
  }

  /** What the outcome of a comparison with zero says about the operand. */
  lemma CmpOutcome(f: Func, s: Store, undef: nat, t: nat)
    requires t < |f.def| && f.def[t].AgainstZero() && CmpHolds(f, s, undef, t)
    ensures IsZero(s, Tmp(t), undef, Kw) == (IsZero(s, f.def[t].arg0, undef, f.def[t].ArgCls()) != f.def[t].EqVal())
  {
    assert Value(s, Con(0), undef) == 0 && Low(f.def[t].ArgCls(), 0) == 0;
  }

  /** When the comparison that defines r is right, r is zero exactly when "arg is zero" differs from eqval. */
  ghost predicate Compares(f: Func, r: Ref, arg: Ref, cls: Cls, eqval: bool) {
    r.Tmp? && r.t < |f.def| && f.def[r.t].Equality() && forall s, undef :: CmpHolds(f, s, undef, r.t) ==>
      IsZero(s, r, undef, Kw) == (IsZero(s, arg, undef, cls) != eqval)
  }

  /** cmpeqz: r is the outcome of comparing arg with zero. */
  method CmpEqz(f: Func, r: Ref) returns (ok: bool, arg: Ref, cls: Cls, eqval: bool)
    requires f.Valid()
    ensures ok <==> r.Tmp? && r.t < |f.def| && f.def[r.t].AgainstZero()
    ensures ok ==> arg == f.def[r.t].arg0 && cls == f.def[r.t].ArgCls() && eqval == f.def[r.t].EqVal()
    ensures ok ==> Compares(f, r, arg, cls, eqval) && f.UseValid(arg, f.home[r.t])
  {
    ok, arg, cls, eqval := false, R, Kw, false;
    if r.Tmp? && r.t < |f.def| {
      var d := f.def[r.t];
      if d.Equality() && d.arg1 == Con(0) {
        assert f.CmpValid(r.t);
        ok, arg, cls, eqval := true, d.arg0, d.ArgCls(), d.EqVal();
        forall s, undef | CmpHolds(f, s, undef, r.t)
          ensures IsZero(s, r, undef, Kw) == (IsZero(s, arg, undef, cls) != eqval)
        {
          CmpOutcome(f, s, undef, r.t);
        }
      }
    }
  }

  /** The branch at d tests r, either directly or by comparing it with zero. */
  ghost predicate Tests(f: Func, d: nat, r: Ref, cls: Cls)
    requires d < |f.jmp|
  {
    f.jmp[d].Jnz? &&
    var a := f.jmp[d].arg;
    || (r == a && cls == Kw)
    || (a.Tmp? && a.t < |f.def| && f.def[a.t].AgainstZero() && f.def[a.t].arg0 == r && f.def[a.t].ArgCls() == cls)
  }

  /** Block d answers the question about r asked at b. */
  ghost predicate Answers(f: Func, g0: Graph, d: nat, b: nat, r: Ref, cls: Cls)
    requires f.Valid() && d < |f.jmp|
  {
    Tests(f, d, r, cls) && Decides(f, g0, d, b)
  }

  /** One round of zeroval. */
  method ZeroAt(f: Func, ghost g0: Graph, idom: seq<int>, visit: array<bool>, d: nat, b: nat, r: Ref, cls: Cls)
    returns (found: bool, z: bool)
    requires Analysed(f, g0, idom) && visit.Length == |idom| && Clear(visit[..])
    requires d < |idom| && b < |idom| && Dominates(g0, d, b)
    modifies visit
    ensures Clear(visit[..])
    ensures found <==> Answers(f, g0, d, b, r, cls)
    ensures found ==> Infers(f, b, r, cls, z)
  {
    found, z := false, false;
    if !f.jmp[d].Jnz? {
      return;
    }
    assert f.JnzValid(d);
    if r == f.jmp[d].arg && cls == Kw {
      found, z := DomZero(f, g0, idom, visit, d, b);
      if found {
        AcceptedInfers(f, g0, d, b, z);
        return;
      }
    }
    var ok, arg, cls1, eqval := CmpEqz(f, f.jmp[d].arg);
    if ok && r == arg && cls == cls1 {
      found, z := DomZero(f, g0, idom, visit, d, b);
      if found {
        AcceptedInfers(f, g0, d, b, z);
        z := z != eqval;
      }
    }
  }

  /** zeroval: search the dominators of b, nearest first, for a branch that settles whether r is zero. */
  method ZeroVal(f: Func, ghost g0: Graph, idom: seq<int>, visit: array<bool>, b: nat, r: Ref, cls: Cls)
    returns (found: bool, z: bool)
    requires Analysed(f, g0, idom) && visit.Length == |idom| && Clear(visit[..]) && b < |idom|
    modifies visit
    ensures Clear(visit[..])
    ensures found ==> Infers(f, b, r, cls, z)
    ensures found <==> exists d: nat :: d < |idom| && d != b && Dominates(g0, d, b) && Answers(f, g0, d, b, r, cls)
  {
    found, z := false, false;
    var d := idom[b];
    while d != NONE
      invariant NONE <= d < b && Clear(visit[..])
      invariant d != NONE ==> d in Chain(idom, b)
      invariant forall e: nat :: e in Chain(idom, b) && e != b && (d == NONE || e > d) ==> !Answers(f, g0, e, b, r, cls)
      decreases d
    {
      found, z := ZeroAt(f, g0, idom, visit, d, b, r, cls);
      if found {
        return;
      }
      ChainOf(idom, b, d);
      d := idom[d];
    }
  }

  // ----- propjnz0 -----

  /** A block with a single predecessor is entered through it. */
  lemma OnlyEntry(g: Graph, pred: seq<nat>, bif: nat, s0: nat, b: nat)
    requires g.Valid() && NoEntryToStart(g) && IsPreds(g, s0, pred) && |pred| == 1 && g.Edge(bif, s0)
    requires Dominates(g, s0, b)
    ensures Dominates(g, bif, b)
  {
    assert bif in pred && s0 != 0;
    forall p | IsPath(g, 0, p, b) ensures bif in p {
      var k := FirstVisit(p, s0);
      assert g.Edge(p[k - 1], p[k]);
      assert p[k - 1] in pred;
    }
  }

  /** The side of the branch at bif on which r, tested directly or through a comparison with zero, is zero. */
  ghost predicate ZeroSide(f: Func, bif: nat, r: Ref, cls: Cls, z: bool)
    requires bif < |f.jmp|
  {
    f.jmp[bif].Jnz? &&
    var a := f.jmp[bif].arg;
    || (r == a && cls == Kw && z)
    || (a.Tmp? && a.t < |f.def| && f.def[a.t].AgainstZero() && f.def[a.t].arg0 == r && f.def[a.t].ArgCls() == cls
        && f.def[a.t].EqVal() != z)
  }

  /** A use of a temporary: by an instruction, with the classes of its operands, by a phi of some class, or by a jnz. */
  datatype Use = UIns(arg0: Ref, cls0: Cls, arg1: Ref, cls1: Cls) | UPhi(cls: Cls) | UJmp {
    /** The use reads r with this class. */
    predicate Reads(r: Ref, k: Cls) {
      match this
      case UIns(a0, k0, a1, k1) => (a0 == r && k0 == k) || (a1 == r && k1 == k)
      case UPhi(k') => k' == k
      case UJmp => k == Kw
    }

    /** The operands that are r are read as integers, as the typing of the language has it. */
    predicate Integer(r: Ref) {
      forall k | k in [Ks, Kd] :: !Reads(r, k)
    }
  }

  predicate Wide(k: Cls) {
    k.Kl? || k.Kd?
  }

  /** k is the widest class with which the use reads r, or cls if it does not read r. */
  ghost predicate Widest(u: Use, r: Ref, cls: Cls, k: Cls) {
    && (forall k' :: u.Reads(r, k') ==> Wide(k') ==> Wide(k))
    && (u.Reads(r, k) || (k == cls && forall k' :: !u.Reads(r, k')))
  }

  /** An integer use has one widest class only. */
  lemma WidestIsUnique(u: Use, r: Ref, cls: Cls, k: Cls, k': Cls)
    requires u.Integer(r) && Widest(u, r, cls, k) && Widest(u, r, cls, k')
    ensures k == k'
  {
    assert Ks in [Ks, Kd] && Kd in [Ks, Kd];
  }

  /** usecls. */
  method UseCls(u: Use, r: Ref, cls: Cls) returns (k: Cls)
    requires u.Integer(r)
    ensures Widest(u, r, cls, k)
  {
    match u
    case UIns(a0, k0, a1, k1) =>
      var seen := a0 == r;
      k := if seen then k0 else cls;
      if a1 == r && (!seen || !Wide(k)) {
        k := k1;
        seen := true;
      }
    case UPhi(k') => k := k';
    case UJmp => k := Kw;
  }

  /** Where the use in block b reads r: a phi reads its argument at the end of the predecessor. */
  ghost function ReadAt(u: Use, p: seq<nat>, v: seq<Store>): Store
    requires |v| == |p| > 1
  {
    if u.UPhi? then v[|p| - 2] else v[|p| - 1]
  }

  /** In every execution the use in block b reads zero. */
  ghost predicate ReadsZero(f: Func, b: nat, u: Use, r: Ref) {
    forall p, v, undef, k :: Runs(f, p, v, undef, b) && |p| > 1 && u.Reads(r, k) ==>
      IsZero(ReadAt(u, p, v), r, undef, k)
  }

  /** On the way into b from its predecessor, what the branch at bif tested does not change. */
  lemma SameOnEntry(f: Func, p: seq<nat>, v: seq<Store>, undef: nat, bif: nat, b: nat, r: Ref)
    requires Runs(f, p, v, undef, b) && Dominates(f.g, bif, b) && bif != b && |p| > 1
    requires r.Tmp? ==> r.t < |f.home| && Dominates(f.g, f.home[r.t], bif)
    ensures Value(v[|p| - 2], r, undef) == Value(v[|p| - 1], r, undef)
  {
    if r.Tmp? {
      var k := HasLastVisit(p, bif);
      NotSince(f.g, f.home[r.t], bif, b, p, k);
      assert p[k + 1..][|p| - k - 2] == b;
      assert StepOk(f, p, v, undef, |p| - 1);
    }
  }

  lemma ZeroIsRead(f: Func, bif: nat, b: nat, u: Use, r: Ref, cls: Cls)
    requires f.Valid() && Infers(f, b, r, cls, true) && Dominates(f.g, bif, b) && bif != b && !cls.Ks? && !cls.Kd?
    requires r.Tmp? ==> r.t < |f.home| && Dominates(f.g, f.home[r.t], bif)
    requires forall k :: u.Reads(r, k) ==> (k.Kw? || k.Kl?) && (k.Kl? ==> cls.Kl?)
    ensures ReadsZero(f, b, u, r)
  {
    forall p, v, undef, k | Runs(f, p, v, undef, b) && |p| > 1 && u.Reads(r, k)
      ensures IsZero(ReadAt(u, p, v), r, undef, k)
    {
      SameOnEntry(f, p, v, undef, bif, b, r);
      LowZero(Value(v[|p| - 1], r, undef));
    }
  }

  lemma LowZero(x: nat)
    ensures Low(Kl, x) == 0 ==> Low(Kw, x) == 0
  {
    Words.NestedMod(x, 0x1_0000_0000, 0x1_0000_0000);
  }

  /** The operand that the branch at bif compares with zero is computed above it. */
  lemma TestedAbove(f: Func, bif: nat, r: Ref, cls: Cls, z: bool)
    requires f.Valid() && bif < |f.jmp| && ZeroSide(f, bif, r, cls, z) && r.Tmp?
    ensures r.t < |f.home| && Dominates(f.g, f.home[r.t], bif)
  {
    assert f.JnzValid(bif);
    var a := f.jmp[bif].arg;
    if r != a || cls != Kw || !z {
      assert f.CmpValid(a.t);
      DominatesTrans(f.g, f.home[r.t], f.home[a.t], bif);
    }
  }

  /**
   * propjnz0, for one use u in block b: the use reads zero instead of r. It is replaced exactly when the zero side is
   * entered through the branch only, the use looks at no more bits of r than were tested, and branchdom accepts.
   */
  method PropJnz0(f: Func, ghost g0: Graph, pred: seq<seq<nat>>, idom: seq<int>, visit: array<bool>,
                  bif: nat, z: bool, r: Ref, cls: Cls, u: Use, b: nat)
    returns (replace: bool)
    requires Analysed(f, g0, idom) && visit.Length == |idom| == |pred| && Clear(visit[..]) && NoEntryToStart(g0)
    requires forall x: nat :: x < |pred| ==> IsPreds(g0, x, pred[x])
    requires bif < |idom| && b < |idom| && ZeroSide(f, bif, r, cls, z) && f.JnzValid(bif) && u.Integer(r)
    modifies visit
    ensures Clear(visit[..])
    ensures replace ==> Infers(f, b, r, cls, true) && ReadsZero(f, b, u, r)
    ensures replace <==> |pred[Side(f, bif, z)]| == 1 && r.Tmp? && Widest(u, r, cls, cls) &&
                         Accepts(g0, f.g, bif, Side(f, bif, z), Side(f, bif, !z), b)
  {
    var s0, snon0 := if z then f.g.s2[bif] else f.g.s1[bif], if z then f.g.s1[bif] else f.g.s2[bif];
    replace := false;
    if |pred[s0]| != 1 || !r.Tmp? {
      return;
    }
    var k := UseCls(u, r, cls);
    if Widest(u, r, cls, cls) { WidestIsUnique(u, r, cls, k, cls); }
    if k == cls {
      replace := BranchDom(f, g0, idom, visit, bif, s0, snon0, b);
      if replace {
        assert f.g.Edge(bif, s0);
        OnlyEntry(g0, pred[s0], bif, s0, b);
        AcceptedInfers(f, g0, bif, b, z);
        TestedAbove(f, bif, r, cls, z);
        DominatesInSubgraph(f.g, g0, bif, b);
        ZeroIsRead(f, bif, b, u, r, cls);
      }
    }
  }

  // ----- dedupjmp -----

  /** Every execution that reaches the end of b goes on to s. */
  ghost predicate AlwaysTo(f: Func, b: nat, s: int)
    requires f.Valid() && b < |f.jmp| && f.jmp[b].Jnz?
  {
    forall p, v, undef :: Runs(f, p, v, undef, b) ==> Target(f, v[|p| - 1], undef, b) == s
  }

  /** The branch at b is replaced by a jump to s. */
  function Collapse(f: Func, b: nat, s: int): Func
    requires b < |f.jmp| == |f.g.s1| == |f.g.s2|
  {
    f.(g := Graph(f.g.s1[b := s], f.g.s2[b := NONE]), jmp := f.jmp[b := OtherJump])
  }

  lemma CollapseValid(f: Func, b: nat, s: int)
    requires f.Valid() && b < |f.jmp| && f.jmp[b].Jnz? && s >= 0 && (s == f.g.s1[b] || s == f.g.s2[b])
    ensures var f' := Collapse(f, b, s); Subgraph(f'.g, f.g) && f'.Valid()
  {
    var f' := Collapse(f, b, s);
    forall x, y | f'.g.Edge(x, y) ensures f.g.Edge(x, y) {
    }
    forall x: nat | x < |f'.jmp| && f'.jmp[x].Jnz? ensures f'.JnzValid(x) {
      assert f.JnzValid(x);
      if f.jmp[x].arg.Tmp? { DominatesInSubgraph(f'.g, f.g, f.home[f.jmp[x].arg.t], x); }
    }
    forall t: nat | t < |f'.def| && f'.def[t].Equality() ensures f'.CmpValid(t) {
      assert f.CmpValid(t);
      if f.def[t].arg0.Tmp? { DominatesInSubgraph(f'.g, f.g, f.home[f.def[t].arg0.t], f.home[t]); }
      if f.def[t].arg1.Tmp? { DominatesInSubgraph(f'.g, f.g, f.home[f.def[t].arg1.t], f.home[t]); }
    }
  }

  /** The steps before i of p are the same executions before and after the collapse. */
  lemma {:induction false} CollapseKeepsSteps(f: Func, b: nat, s: int, p: seq<nat>, v: seq<Store>, undef: nat)
    requires f.Valid() && b < |f.jmp| && f.jmp[b].Jnz? && s >= 0 && (s == f.g.s1[b] || s == f.g.s2[b])
    requires AlwaysTo(f, b, s) && |p| > 0 && Collapse(f, b, s).Valid()
    ensures Runs(f, p, v, undef, p[|p| - 1]) <==> Runs(Collapse(f, b, s), p, v, undef, p[|p| - 1])
    decreases |p|
  {
    var f' := Collapse(f, b, s);
    var n := |p| - 1;
    if |v| == |p| {
      hide LastOk, AlwaysTo, StepOk, BlockOk;
      if n == 0 {
        CollapseKeepsFirst(f, b, s, p, v, undef);
      } else {
        CollapseKeepsSteps(f, b, s, p[..n], v[..n], undef);
        RunsStep(f, p, v, undef);
        RunsStep(f', p, v, undef);
        if Runs(f, p[..n], v[..n], undef, p[n - 1]) { CollapseKeepsLast(f, b, s, p, v, undef); }
      }
    }
  }

  lemma CollapseKeepsFirst(f: Func, b: nat, s: int, p: seq<nat>, v: seq<Store>, undef: nat)
    requires f.Valid() && b < |f.jmp| && Collapse(f, b, s).Valid() && |p| == |v| == 1
    ensures Runs(f, p, v, undef, p[0]) <==> Runs(Collapse(f, b, s), p, v, undef, p[0])
  {
    RunsOne(f, p, v, undef);
    RunsOne(Collapse(f, b, s), p, v, undef);
    hide Runs, StepOk;
  }

  /** A temporary changes in its home block only, and comparisons are right in theirs. */
  ghost predicate BlockOk(f: Func, b: nat, s0: Store, s: Store, undef: nat) {
    && |f.def| == |f.home|
    && (forall t: nat :: t < |f.home| && f.home[t] != b ==> s(t) == s0(t))
    && (forall t: nat :: t < |f.def| && f.def[t].Equality() && f.home[t] == b ==> CmpHolds(f, s, undef, t))
  }

  lemma RunsOne(f: Func, p: seq<nat>, v: seq<Store>, undef: nat)
    requires f.Valid() && |p| == |v| == 1
    ensures Runs(f, p, v, undef, p[0]) <==> p[0] == 0 && BlockOk(f, 0, v[0], v[0], undef)
  {
    if Runs(f, p, v, undef, p[0]) {
      assert StepOk(f, p, v, undef, 0);
    }
  }

  /** The last step of a run. */
  ghost predicate LastOk(f: Func, p: seq<nat>, v: seq<Store>, undef: nat)
    requires f.Valid() && |p| == |v| > 1
  {
    var n := |p| - 1;
    && p[n - 1] < |f.jmp| && f.g.Edge(p[n - 1], p[n])
    && (f.jmp[p[n - 1]].Jnz? ==> p[n] == Target(f, v[n - 1], undef, p[n - 1]))
    && BlockOk(f, p[n], v[n - 1], v[n], undef)
  }

  lemma RunsSplit(f: Func, p: seq<nat>, v: seq<Store>, undef: nat)
    requires f.Valid() && |p| == |v| > 1 && Runs(f, p, v, undef, p[|p| - 1])
    ensures Runs(f, p[..|p| - 1], v[..|p| - 1], undef, p[|p| - 2]) && LastOk(f, p, v, undef)
  {
    var n := |p| - 1;
    PathPrefix(f.g, 0, p, p[n], n - 1);
    assert StepOk(f, p, v, undef, n) && StepOk(f, p, v, undef, n - 1);
    forall i: nat | i < n ensures p[i] < |f.jmp| && StepOk(f, p[..n], v[..n], undef, i) {
      assert StepOk(f, p, v, undef, i);
    }
  }

  lemma RunsJoin(f: Func, p: seq<nat>, v: seq<Store>, undef: nat)
    requires f.Valid() && |p| == |v| > 1
    requires Runs(f, p[..|p| - 1], v[..|p| - 1], undef, p[|p| - 2]) && LastOk(f, p, v, undef)
    ensures Runs(f, p, v, undef, p[|p| - 1])
  {
    var n := |p| - 1;
    PathStep(f.g, 0, p[..n], p[n - 1], p[n]);
    assert p == p[..n] + [p[n]];
    forall i: nat | i < |p| ensures p[i] < |f.jmp| && StepOk(f, p, v, undef, i) {
      if i < n { assert StepOk(f, p[..n], v[..n], undef, i); }
    }
  }

  lemma RunsStep(f: Func, p: seq<nat>, v: seq<Store>, undef: nat)
    requires f.Valid() && |p| == |v| > 1
    ensures Runs(f, p, v, undef, p[|p| - 1]) <==>
      Runs(f, p[..|p| - 1], v[..|p| - 1], undef, p[|p| - 2]) && LastOk(f, p, v, undef)
  {
    if Runs(f, p, v, undef, p[|p| - 1]) { RunsSplit(f, p, v, undef); }
    if Runs(f, p[..|p| - 1], v[..|p| - 1], undef, p[|p| - 2]) && LastOk(f, p, v, undef) { RunsJoin(f, p, v, undef); }
  }

  /** The collapse keeps the last step of a run that takes the only side there is. */
  lemma CollapseKeepsLast(f: Func, b: nat, s: int, p: seq<nat>, v: seq<Store>, undef: nat)
    requires f.Valid() && b < |f.jmp| && f.jmp[b].Jnz? && s >= 0 && (s == f.g.s1[b] || s == f.g.s2[b])
    requires AlwaysTo(f, b, s) && Collapse(f, b, s).Valid() && |p| == |v| > 1
    requires Runs(f, p[..|p| - 1], v[..|p| - 1], undef, p[|p| - 2])
    ensures LastOk(f, p, v, undef) <==> LastOk(Collapse(f, b, s), p, v, undef)
  {
    var n := |p| - 1;
    assert p[n - 1] == b ==> Target(f, v[..n][n - 1], undef, b) == s;
  }

  /** The constants jnz and dedupjmp disagree on: not zero, but zero in the 32 bits that jnz looks at. */
  predicate CutConstant(r: Ref) {
    r.Con? && r.v != 0 && r.v % 0x1_0000_0000 == 0
  }

  /** Collapsing a jump that always goes to s changes no execution. */
  ghost predicate SameRuns(f: Func, f': Func) {
    forall p, v, undef, b :: Runs(f, p, v, undef, b) <==> Runs(f', p, v, undef, b)
  }

  lemma CollapseKeepsRuns(f: Func, b: nat, s: int)
    requires f.Valid() && b < |f.jmp| && f.jmp[b].Jnz? && s >= 0 && (s == f.g.s1[b] || s == f.g.s2[b])
    requires AlwaysTo(f, b, s)
    ensures SameRuns(f, Collapse(f, b, s))
  {
    CollapseValid(f, b, s);
    var f' := Collapse(f, b, s);
    forall p, v, undef, e ensures Runs(f, p, v, undef, e) <==> Runs(f', p, v, undef, e) {
      if |p| > 0 { CollapseKeepsSteps(f, b, s, p, v, undef); }
    }
  }

  lemma KnownSide(f: Func, b: nat, z: bool)
    requires f.Valid() && b < |f.jmp| && f.jmp[b].Jnz?
    requires f.g.s1[b] == f.g.s2[b] || Infers(f, b, f.jmp[b].arg, Kw, z)
    ensures SameRuns(f, Collapse(f, b, Side(f, b, z)))
  {
    assert f.JnzValid(b);
    assert AlwaysTo(f, b, Side(f, b, z));
    CollapseKeepsRuns(f, b, Side(f, b, z));
  }

  lemma ConstantIsZero(f: Func, b: nat, r: Ref)
    requires r.Con? && !CutConstant(r)
    ensures Infers(f, b, r, Kw, r.v == 0)
  {
    Words.NestedMod(r.v, 0x1_0000_0000, 0x1_0000_0000);
  }

  /** isconbits: the value of an integer constant. */
  method IsConBits(r: Ref, v0: int) returns (ok: bool, v: int)
    ensures ok <==> r.Con?
    ensures v == if r.Con? then r.v else v0
  {
    ok, v := r.Con?, if r.Con? then r.v else v0;
  }

  /** dedupjmp knows the outcome of the branch at b: one target, a constant, or a dominating branch that settles it. */
  ghost predicate Known(f: Func, g0: Graph, b: nat)
    requires f.Valid() && b < |f.jmp| && f.jmp[b].Jnz?
  {
    || f.g.s1[b] == f.g.s2[b] || f.jmp[b].arg.Con?
    || exists d: nat :: d < |f.jmp| && d != b && Dominates(g0, d, b) && Answers(f, g0, d, b, f.jmp[b].arg, Kw)
  }

  /** dedupjmp, last part: a branch becomes a plain jump exactly when its outcome is known. */
  method DedupJmp(f: Func, ghost g0: Graph, idom: seq<int>, visit: array<bool>, b: nat) returns (f': Func)
    requires Analysed(f, g0, idom) && visit.Length == |idom| && Clear(visit[..]) && b < |idom|
    modifies visit
    ensures Clear(visit[..]) && Analysed(f', g0, idom)
    ensures !f.jmp[b].Jnz? || !CutConstant(f.jmp[b].arg) || f.g.s1[b] == f.g.s2[b] ==> SameRuns(f, f')
    ensures f.jmp[b].Jnz? && CutConstant(f.jmp[b].arg) ==> f' == Collapse(f, b, f.g.s1[b])
    ensures if f.jmp[b].Jnz? && Known(f, g0, b) then exists z :: f' == Collapse(f, b, Side(f, b, z)) else f' == f
  {
    f' := f;
    if !f.jmp[b].Jnz? {
      return;
    }
    assert f.JnzValid(b);
    var v, z := 1, false;
    var known := f.g.s1[b] == f.g.s2[b];
    if !known {
      known, v := IsConBits(f.jmp[b].arg, v);
      if !known {
        known, z := ZeroVal(f, g0, idom, visit, b, f.jmp[b].arg, Kw);
      }
    }
    if known {
      z := v == 0 || z;
      var s := if z then f.g.s2[b] else f.g.s1[b];
      f' := Collapse(f, b, s);
      CollapseValid(f, b, s);
      assert f' == Collapse(f, b, Side(f, b, z));
      if !CutConstant(f.jmp[b].arg) || f.g.s1[b] == f.g.s2[b] {
        if f.jmp[b].arg.Con? && !CutConstant(f.jmp[b].arg) { ConstantIsZero(f, b, f.jmp[b].arg); }
        KnownSide(f, b, z);
      }
    }
  }

  /** On those constants every execution that passes b is lost: jnz takes s2 and the collapsed jump goes to s1. */
  lemma CutConstantGoesWrong(f: Func, p: seq<nat>, v: seq<Store>, undef: nat, b: nat)
    requires f.Valid() && b < |f.jmp| && f.jmp[b].Jnz? && CutConstant(f.jmp[b].arg) && f.g.s1[b] != f.g.s2[b]
    requires |p| == |v| > 1 && p[|p| - 2] == b && Runs(f, p, v, undef, p[|p| - 1])
    ensures p[|p| - 1] == f.g.s2[b] && !Runs(Collapse(f, b, f.g.s1[b]), p, v, undef, p[|p| - 1])
  {
    assert f.JnzValid(b);
    assert StepOk(f, p, v, undef, |p| - 2);
    var f' := Collapse(f, b, f.g.s1[b]);
    assert !f'.g.Edge(p[|p| - 2], p[|p| - 1]);
  }

  /**
   * Where an execution passes a branch on a constant, the collapse keeps all executions exactly when the
   * constant is not cut.
   */
  lemma CutConstantExact(f: Func, p: seq<nat>, v: seq<Store>, undef: nat, b: nat)
    requires f.Valid() && b < |f.jmp| && f.jmp[b].Jnz? && f.jmp[b].arg.Con? && f.g.s1[b] != f.g.s2[b]
    requires |p| == |v| > 1 && p[|p| - 2] == b && Runs(f, p, v, undef, p[|p| - 1])
    ensures SameRuns(f, Collapse(f, b, Side(f, b, f.jmp[b].arg.v == 0))) <==> !CutConstant(f.jmp[b].arg)
  {
    if CutConstant(f.jmp[b].arg) {
      CutConstantGoesWrong(f, p, v, undef, b);
    } else {
      ConstantIsZero(f, b, f.jmp[b].arg);
      KnownSide(f, b, f.jmp[b].arg.v == 0);
    }
  }

  /** The smallest such function: a start block that branches on 2^32. */
  lemma CutConstantExample() returns (f: Func)
    ensures f.Valid() && f.jmp[0] == Jnz(Con(0x1_0000_0000)) && !SameRuns(f, Collapse(f, 0, f.g.s1[0]))
  {
    f := Func(Graph([1, NONE, NONE], [2, NONE, NONE]), [Jnz(Con(0x1_0000_0000)), OtherJump, OtherJump], [], []);
    assert f.JnzValid(0);
    var v: seq<Store> := [t => 0, t => 0];
    var p: seq<nat> := [0, 2];
    assert IsPath(f.g, 0, p, 2);
    assert StepOk(f, p, v, 0, 0) && StepOk(f, p, v, 0, 1);
    assert Runs(f, p, v, 0, 2);
    CutConstantGoesWrong(f, p, v, 0, 0);
  }
}
