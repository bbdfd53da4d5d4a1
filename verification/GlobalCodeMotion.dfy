/** Global code motion of gcm.c: the choice of a block for every instruction, with lca and filldepth of cfg.c. */
module GlobalCodeMotion {
  import opened Cfg
  import opened Dominators
  import opened Ir
  import LoopDepth

  // ----- depth and least common ancestors in the dominator tree -----

  /** A tree of immediate dominators in which every block is linked. */
  ghost predicate Linked(t: seq<int>) {
    Tree(t) && forall b :: 0 <= b < |t| ==> Set(t, b)
  }

  ghost function Depth(t: seq<int>, b: int): nat
    requires Linked(t) && 0 <= b < |t|
    decreases b
  {
    if b == 0 then 0 else
    assert Set(t, b);
    1 + Depth(t, t[b])
  }

  /** a dominates b, as the tree records it. */
  ghost predicate Above(t: seq<int>, a: int, b: int)
    requires Linked(t)
  {
    0 <= a < |t| && 0 <= b < |t| && a in Chain(t, b)
  }

  lemma AboveTrans(t: seq<int>, a: int, b: int, c: int)
    requires Linked(t) && Above(t, a, b) && Above(t, b, c)
    ensures Above(t, a, c)
  {
    ChainOf(t, c, b);
  }

  lemma RootAbove(t: seq<int>, b: int)
    requires Linked(t) && 0 <= b < |t|
    ensures Above(t, 0, b)
  {
    assert Set(t, b);
    ChainContainsRoot(t, b);
  }

  lemma {:induction false} DepthAbove(t: seq<int>, a: int, b: int)
    requires Linked(t) && Above(t, a, b)
    ensures Depth(t, a) <= Depth(t, b) && (a != b ==> Depth(t, a) < Depth(t, b))
    decreases b
  {
    if a != b {
      assert Set(t, b);
      DepthAbove(t, a, t[b]);
    }
  }

  /** Of two blocks above a third, the deeper one is below the other. */
  lemma DeeperIsBelow(t: seq<int>, a: int, b: int, c: int)
    requires Linked(t) && Above(t, a, c) && Above(t, b, c) && Depth(t, a) <= Depth(t, b)
    ensures Above(t, a, b)
  {
    ChainOf(t, c, a);
    ChainOf(t, c, b);
    if b < a { DepthAbove(t, b, a); }
  }

  ghost predicate DepthKnown(t: seq<int>, depth: seq<int>, b: nat)
    requires Linked(t) && b < |t| == |depth|
  {
    depth[b] == -1 || depth[b] == Depth(t, b)
  }

  ghost predicate IsDepth(t: seq<int>, depth: seq<int>)
    requires Linked(t)
  {
    |depth| == |t| && forall b: nat :: b < |t| ==> depth[b] == Depth(t, b)
  }

  ghost predicate DepthsKnown(t: seq<int>, depth: seq<int>)
    requires Linked(t)
  {
    |depth| == |t| && forall b: nat :: b < |t| ==> DepthKnown(t, depth, b)
  }

  /** filldepth; order is the order of the links between blocks. */
  method FillDepth(idom: seq<int>, order: seq<nat>, depth: array<int>)
    requires Linked(idom) && depth.Length == |idom|
    requires forall i :: 0 <= i < |order| ==> order[i] < |idom|
    requires forall b: nat :: b < |idom| ==> b in order
    modifies depth
    ensures IsDepth(idom, depth[..])
  {
    forall b | 0 <= b < depth.Length {
      depth[b] := -1;
    }
    depth[0] := 0;
    for i := 0 to |order|
      invariant DepthsKnown(idom, depth[..]) && depth[0] == 0
      invariant forall b: nat :: b < |idom| && b in order[..i] ==> depth[b] != -1
    {
      var b := order[i];
      if depth[b] == -1 {
        FillChain(idom, b, depth);
      }
      assert order[..i + 1] == order[..i] + [b];
    }
    assert order[..] == order[..|order|];
    forall b: nat | b < |idom| ensures depth[b] == Depth(idom, b) {
      assert DepthKnown(idom, depth[..], b);
    }
  }

  lemma KnowMore(t: seq<int>, depth: seq<int>, b: nat)
    requires Linked(t) && DepthsKnown(t, depth) && b < |t|
    ensures DepthsKnown(t, depth[b := Depth(t, b)])
  {
    var depth' := depth[b := Depth(t, b)];
    forall x: nat | x < |t| ensures DepthKnown(t, depth', x) {
      assert DepthKnown(t, depth, x);
    }
  }

  /** The body of the loop: the depth of b, and of the blocks above it that had none. */
  method FillChain(idom: seq<int>, b: nat, depth: array<int>)
    requires Linked(idom) && depth.Length == |idom| && b < |idom| && depth[b] == -1 && depth[0] == 0
    requires DepthsKnown(idom, depth[..])
    modifies depth
    ensures DepthsKnown(idom, depth[..])
    ensures depth[b] != -1 && forall x :: 0 <= x < |idom| && old(depth[x]) != -1 ==> depth[x] == old(depth[x])
  {
    assert Set(idom, b);
    var n := 1;
    var d := idom[b];
    while depth[d] == -1
      invariant 0 <= d < |idom| && n > 0 && Depth(idom, b) == n + Depth(idom, d)
      decreases d
    {
      assert Set(idom, d);
      n := n + 1;
      d := idom[d];
    }
    assert DepthKnown(idom, depth[..], d);
    n := n + depth[d];
    ghost var before := depth[..];
    depth[b] := n;
    KnowMore(idom, before, b);
    assert depth[..] == before[b := n];
    d := idom[b];
    while depth[d] == -1
      invariant 0 <= d < |idom| && n == Depth(idom, d) + 1
      invariant DepthsKnown(idom, depth[..]) && depth[b] != -1 && depth[0] == 0
      invariant forall x :: 0 <= x < |idom| && old(depth[x]) != -1 ==> depth[x] == old(depth[x])
      decreases d
    {
      assert Set(idom, d);
      before := depth[..];
      n := n - 1;
      depth[d] := n;
      KnowMore(idom, before, d);
      assert depth[..] == before[d := n];
      d := idom[d];
    }
  }

  /** The nearest block above both. */
  ghost predicate IsLca(t: seq<int>, b1: int, b2: int, d: int)
    requires Linked(t)
  {
    Above(t, d, b1) && Above(t, d, b2) && forall x :: Above(t, x, b1) && Above(t, x, b2) ==> Above(t, x, d)
  }

  /** Climbing from b1 keeps every block above it that is not deeper than b2. */
  method Lca(idom: seq<int>, depth: seq<int>, b1: nat, b2: nat) returns (d: nat)
    requires Linked(idom) && IsDepth(idom, depth) && b1 < |idom| && b2 < |idom|
    ensures d < |idom| && IsLca(idom, b1, b2, d)
  {
    var x := Climb(idom, depth, b1, b2);
    var y := Climb(idom, depth, b2, x);
    while x != y
      invariant 0 <= x < |idom| && 0 <= y < |idom| && Depth(idom, x) == Depth(idom, y)
      invariant Above(idom, x, b1) && Above(idom, y, b2)
      invariant forall z :: Above(idom, z, b1) && Above(idom, z, b2) ==> Above(idom, z, x) && Above(idom, z, y)
      decreases x
    {
      assert Set(idom, x) && Set(idom, y);
      assert x != 0 && y != 0;
      ClimbBoth(idom, b1, b2, x, y);
      x, y := idom[x], idom[y];
    }
    d := x;
  }

  lemma ClimbBoth(t: seq<int>, b1: int, b2: int, x: int, y: int)
    requires Linked(t) && 0 < x < |t| && 0 < y < |t| && Depth(t, x) == Depth(t, y) && x != y
    requires Above(t, x, b1) && Above(t, y, b2)
    requires forall z :: Above(t, z, b1) && Above(t, z, b2) ==> Above(t, z, x) && Above(t, z, y)
    ensures 0 <= t[x] < x && 0 <= t[y] < y && Above(t, t[x], b1) && Above(t, t[y], b2)
    ensures forall z :: Above(t, z, b1) && Above(t, z, b2) ==> Above(t, z, t[x]) && Above(t, z, t[y])
  {
    assert Set(t, x) && Set(t, y);
    AboveTrans(t, t[x], x, b1);
    AboveTrans(t, t[y], y, b2);
    forall z | Above(t, z, b1) && Above(t, z, b2) ensures Above(t, z, t[x]) && Above(t, z, t[y]) {
      if z == x { DepthAbove(t, z, y); }
      if z == y { DepthAbove(t, z, x); }
    }
  }

  method Climb(idom: seq<int>, depth: seq<int>, b: nat, other: nat) returns (d: nat)
    requires Linked(idom) && IsDepth(idom, depth) && b < |idom| && other < |idom|
    ensures d < |idom| && Above(idom, d, b) && Depth(idom, d) <= Depth(idom, other)
    ensures d == b || Depth(idom, d) == Depth(idom, other)
    ensures forall z :: Above(idom, z, b) && Above(idom, z, other) ==> Above(idom, z, d)
  {
    d := b;
    while depth[d] > depth[other]
      invariant d < |idom| && Above(idom, d, b) && (d == b || Depth(idom, d) >= Depth(idom, other))
      invariant forall z :: Above(idom, z, b) && Above(idom, z, other) ==> Above(idom, z, d)
      decreases d
    {
      assert Set(idom, d);
      ghost var e := d;
      d := idom[d];
      AboveTrans(idom, d, e, b);
      forall z | Above(idom, z, b) && Above(idom, z, other) ensures Above(idom, z, d) {
        DepthAbove(idom, z, other);
      }
    }
  }

  // ----- functions before and after the motion -----

  /** canElim marks the pinned instructions that may go when their result is unused: loads, allocations, divisions. */
  datatype Ins = Ins(blk: nat, to: Ref, arg0: Ref, arg1: Ref, pinned: bool, canElim: bool)

  /** arg[k] is the operand from the predecessor pred[k]. */
  datatype Phi = Phi(blk: nat, to: nat, pred: seq<nat>, arg: seq<Ref>)

  datatype Use = UPhi(p: nat) | UIns(i: nat) | UJmp(b: nat)

  /** def[t] is the instruction defining t, or NONE for a phi; bid[t] is its block and use[t] its uses. */
  datatype Func = Func(ins: seq<Ins>, phi: seq<Phi>, jmp: seq<Ref>, def: seq<int>, bid: seq<nat>, use: seq<seq<Use>>) {
    ghost predicate Valid() {
      && |def| == |bid| == |use| && |jmp| > 0
      && (forall t: nat :: t < |def| ==> TmpOk(t) && HasPhi(t))
      && (forall i: nat :: i < |ins| ==> InsOk(i))
      && (forall p: nat :: p < |phi| ==> PhiOk(p))
      && (forall b: nat :: b < |jmp| ==> RefOk(jmp[b], UJmp(b)))
      && (forall t: nat, k: nat :: t < |def| && k < |use[t]| ==> UseOk(t, use[t][k]))
    }

    ghost predicate TmpOk(t: nat)
      requires t < |def| == |bid|
    {
      && bid[t] < |jmp| && NONE <= def[t] < |ins|
      && (def[t] != NONE ==> ins[def[t]].to == Tmp(t) && ins[def[t]].blk == bid[t])
    }

    /** A temporary that is used and has no instruction is the result of a phi. */
    ghost predicate HasPhi(t: nat)
      requires t < |def| == |use|
    {
      def[t] == NONE && use[t] != [] ==> exists p: nat :: p < |phi| && phi[p].to == t
    }

    /** A temporary lists each of its uses. */
    ghost predicate RefOk(r: Ref, u: Use) {
      r.Tmp? ==> r.t < |def| && r.t < |use| && u in use[r.t]
    }

    ghost predicate InsOk(i: nat)
      requires i < |ins|
    {
      var x := ins[i];
      && x.blk < |jmp| && RefOk(x.arg0, UIns(i)) && RefOk(x.arg1, UIns(i))
      && (x.to.Tmp? ==> x.to.t < |def| && def[x.to.t] == i)
      && (!x.pinned || x.canElim ==> x.to.Tmp?)
    }

    ghost predicate PhiOk(p: nat)
      requires p < |phi|
    {
      var x := phi[p];
      && x.blk < |jmp| && x.to < |def| == |bid| && def[x.to] == NONE && bid[x.to] == x.blk && |x.pred| == |x.arg|
      && forall k: nat :: k < |x.arg| ==> x.pred[k] < |jmp| && RefOk(x.arg[k], UPhi(p))
    }

    ghost predicate UseOk(t: nat, u: Use) {
      match u
      case UPhi(p) => p < |phi| && Tmp(t) in phi[p].arg
      case UIns(i) => i < |ins| && (ins[i].arg0 == Tmp(t) || ins[i].arg1 == Tmp(t))
      case UJmp(b) => b < |jmp| && jmp[b] == Tmp(t)
    }

    /** Phis and pinned instructions do not move. */
    predicate Fixed(t: nat)
      requires t < |def|
    {
      !(0 <= def[t] < |ins|) || ins[def[t]].pinned
    }
  }

  // ----- the condition on the input -----

  /** rank grows from the operands of an instruction to its result: there is no cycle without a phi. */
  ghost predicate Ranked(f: Func, rank: seq<nat>)
    requires f.Valid()
  {
    |rank| == |f.def| && forall t: nat :: t < |f.def| && 0 <= f.def[t] < |f.ins| ==> RankedAt(f, rank, t)
  }

  ghost predicate RankedAt(f: Func, rank: seq<nat>, t: nat)
    requires t < |f.def| == |rank| && 0 <= f.def[t] < |f.ins|
  {
    Lower(rank, f.ins[f.def[t]].arg0, t) && Lower(rank, f.ins[f.def[t]].arg1, t)
  }

  ghost predicate Lower(rank: seq<nat>, r: Ref, t: nat)
    requires t < |rank|
  {
    r.Tmp? ==> r.t < |rank| && rank[r.t] < rank[t]
  }

  ghost predicate RefAbove(t: seq<int>, place: seq<int>, r: Ref, b: int)
    requires Linked(t)
  {
    r.Tmp? ==> r.t < |place| && Above(t, place[r.t], b)
  }

  /** The block where instruction i stands when each temporary t is computed in place[t]. */
  ghost function Stands(f: Func, place: seq<int>, i: nat): int
    requires i < |f.ins| && |place| == |f.def| && f.InsOk(i)
  {
    if f.ins[i].pinned then f.ins[i].blk else place[f.ins[i].to.t]
  }

  /** Where the fixed things are, every block is legal for its operands: one way to place all instructions exists. */
  ghost predicate Homes(f: Func, t: seq<int>, home: seq<nat>)
    requires f.Valid() && Linked(t)
  {
    && |home| == |f.def| && |t| == |f.jmp|
    && (forall x: nat :: x < |f.def| && f.Fixed(x) ==> home[x] == f.bid[x])
    && (forall i: nat :: i < |f.ins| ==> InsLegal(f, t, home, i))
    && (forall p: nat, k: nat :: p < |f.phi| && k < |f.phi[p].arg| ==> ArgLegal(f, t, home, p, k))
    && (forall b: nat :: b < |f.jmp| ==> RefAbove(t, home, f.jmp[b], b))
  }

  ghost predicate InsLegal(f: Func, t: seq<int>, place: seq<int>, i: nat)
    requires f.Valid() && Linked(t) && i < |f.ins| && |place| == |f.def|
  {
    assert f.InsOk(i);
    var b := Stands(f, place, i);
    0 <= b < |t| && RefAbove(t, place, f.ins[i].arg0, b) && RefAbove(t, place, f.ins[i].arg1, b)
  }

  /** A phi uses its operands at the end of the predecessors. */
  ghost predicate ArgLegal(f: Func, t: seq<int>, place: seq<int>, p: nat, k: nat)
    requires f.Valid() && Linked(t) && p < |f.phi| && k < |f.phi[p].arg|
  {
    assert f.PhiOk(p);
    RefAbove(t, place, f.phi[p].arg[k], f.phi[p].pred[k])
  }

  // ----- the early block -----

  ghost function Deeper(t: seq<int>, a: int, b: int): int
    requires Linked(t) && 0 <= a < |t| && 0 <= b < |t|
  {
    if Depth(t, a) < Depth(t, b) then b else a
  }

  ghost predicate Context(f: Func, t: seq<int>, rank: seq<nat>) {
    f.Valid() && Linked(t) && |t| == |f.jmp| && Ranked(f, rank)
  }

  /** The highest block where t can be computed: its own if it is fixed, else the deepest of its operands'. */
  ghost function Early(f: Func, t: seq<int>, rank: seq<nat>, x: nat): (b: nat)
    requires Context(f, t, rank) && x < |f.def|
    ensures b < |t|
    decreases rank[x], 1
  {
    assert f.TmpOk(x);
    if f.Fixed(x) then f.bid[x] else
    assert RankedAt(f, rank, x) && f.InsOk(f.def[x]);
    Deeper(t, EarlyRef(f, t, rank, f.ins[f.def[x]].arg0, rank[x]), EarlyRef(f, t, rank, f.ins[f.def[x]].arg1, rank[x]))
  }

  ghost function EarlyRef(f: Func, t: seq<int>, rank: seq<nat>, r: Ref, bound: nat): (b: nat)
    requires Context(f, t, rank) && (r.Tmp? ==> r.t < |f.def| && rank[r.t] < bound)
    ensures b < |t|
    decreases bound, 0
  {
    if r.Tmp? then Early(f, t, rank, r.t) else 0
  }

  /** Every legal placement has t at or below its early block. */
  lemma {:induction false} EarlyAboveHome(f: Func, t: seq<int>, rank: seq<nat>, home: seq<nat>, x: nat)
    requires Context(f, t, rank) && Homes(f, t, home) && x < |f.def|
    ensures Above(t, Early(f, t, rank, x), home[x])
    decreases rank[x], 1
  {
    assert f.TmpOk(x);
    if !f.Fixed(x) {
      var i := f.def[x];
      assert RankedAt(f, rank, x) && f.InsOk(i) && InsLegal(f, t, home, i);
      EarlyRefAbove(f, t, rank, home, f.ins[i].arg0, rank[x], home[x]);
      EarlyRefAbove(f, t, rank, home, f.ins[i].arg1, rank[x], home[x]);
    }
  }

  lemma {:induction false} EarlyRefAbove(f: Func, t: seq<int>, rank: seq<nat>, home: seq<nat>, r: Ref, bound: nat,
                                         b: int)
    requires Context(f, t, rank) && Homes(f, t, home) && (r.Tmp? ==> r.t < |f.def| && rank[r.t] < bound)
    requires 0 <= b < |t| && RefAbove(t, home, r, b)
    ensures Above(t, EarlyRef(f, t, rank, r, bound), b)
    decreases bound, 0
  {
    if r.Tmp? {
      EarlyAboveHome(f, t, rank, home, r.t);
      AboveTrans(t, Early(f, t, rank, r.t), home[r.t], b);
    } else {
      RootAbove(t, b);
    }
  }

  /** The early block of an instruction that may move lies below those of its operands: the assertion of earlyins. */
  lemma EarlyBelowOperands(f: Func, t: seq<int>, rank: seq<nat>, home: seq<nat>, x: nat)
    requires Context(f, t, rank) && Homes(f, t, home) && x < |f.def| && 0 <= f.def[x] < |f.ins| && !f.Fixed(x)
    requires RankedAt(f, rank, x) && f.InsOk(f.def[x])
    ensures var i := f.ins[f.def[x]];
      var e0, e1 := EarlyRef(f, t, rank, i.arg0, rank[x]), EarlyRef(f, t, rank, i.arg1, rank[x]);
      && Above(t, e0, Early(f, t, rank, x)) && Above(t, e1, Early(f, t, rank, x))
      && (Depth(t, e0) < Depth(t, e1) ==> Above(t, e0, e1))
  {
    var i := f.def[x];
    assert f.TmpOk(x) && InsLegal(f, t, home, i);
    EarlyRefAbove(f, t, rank, home, f.ins[i].arg0, rank[x], home[x]);
    EarlyRefAbove(f, t, rank, home, f.ins[i].arg1, rank[x], home[x]);
    var e0, e1 := EarlyRef(f, t, rank, f.ins[i].arg0, rank[x]), EarlyRef(f, t, rank, f.ins[i].arg1, rank[x]);
    if Depth(t, e0) < Depth(t, e1) {
      DeeperIsBelow(t, e0, e1, home[x]);
    } else {
      DeeperIsBelow(t, e1, e0, home[x]);
    }
  }

  /**
   * x can move and is computed from constants alone: nothing that stays leads to it, and the late pass does not
   * reach it.
   */
  ghost predicate Grounded(f: Func, rank: seq<nat>, x: nat)
    requires f.Valid() && Ranked(f, rank) && x < |f.def|
    decreases rank[x], 1
  {
    && !f.Fixed(x) && RankedAt(f, rank, x) && f.InsOk(f.def[x])
    && GroundedRef(f, rank, f.ins[f.def[x]].arg0, rank[x]) && GroundedRef(f, rank, f.ins[f.def[x]].arg1, rank[x])
  }

  ghost predicate GroundedRef(f: Func, rank: seq<nat>, r: Ref, bound: nat)
    requires f.Valid() && Ranked(f, rank) && (r.Tmp? ==> r.t < |f.def| && rank[r.t] < bound)
    decreases bound, 0
  {
    r.Tmp? ==> Grounded(f, rank, r.t)
  }

  /** What is computed from a value that is not grounded is not grounded. */
  lemma UserNotGrounded(f: Func, rank: seq<nat>, t: nat, i: nat)
    requires f.Valid() && Ranked(f, rank) && t < |f.def| && !Grounded(f, rank, t)
    requires f.UseOk(t, UIns(i)) && f.InsOk(i) && f.ins[i].to.Tmp?
    ensures !Grounded(f, rank, f.ins[i].to.t)
  {
    assert RankedAt(f, rank, f.ins[i].to.t);
  }

  /** Values computed from constants alone are computed in the start block. */
  lemma {:induction false} GroundedEarly(f: Func, t: seq<int>, rank: seq<nat>, x: nat)
    requires Context(f, t, rank) && x < |f.def| && Grounded(f, rank, x)
    ensures Early(f, t, rank, x) == 0
    decreases rank[x]
  {
    var i := f.ins[f.def[x]];
    assert f.TmpOk(x) && RankedAt(f, rank, x);
    if i.arg0.Tmp? { GroundedEarly(f, t, rank, i.arg0.t); }
    if i.arg1.Tmp? { GroundedEarly(f, t, rank, i.arg1.t); }
  }

  // ----- what the early pass leaves in gcmbid -----

  ghost predicate Marked(gcm: seq<int>, r: Ref) {
    r.Tmp? ==> r.t < |gcm| && gcm[r.t] != NONE
  }

  ghost predicate OperandsMarked(f: Func, gcm: seq<int>, i: nat)
    requires i < |f.ins|
  {
    Marked(gcm, f.ins[i].arg0) && Marked(gcm, f.ins[i].arg1)
  }

  /** gcmbid of x is not set yet, or it is the early block and the operands of x are set too. */
  ghost predicate EarlyAt(f: Func, t: seq<int>, rank: seq<nat>, gcm: seq<int>, x: nat)
    requires Context(f, t, rank) && x < |f.def| == |gcm|
  {
    gcm[x] != NONE ==> gcm[x] == Early(f, t, rank, x) && (0 <= f.def[x] < |f.ins| ==> OperandsMarked(f, gcm, f.def[x]))
  }

  /** The temporaries in open are being visited. */
  ghost predicate EarlyInv(f: Func, t: seq<int>, rank: seq<nat>, gcm: seq<int>, open: set<nat>)
    requires Context(f, t, rank)
  {
    |gcm| == |f.def| && forall x: nat :: x < |f.def| && x !in open ==> EarlyAt(f, t, rank, gcm, x)
  }

  ghost predicate Extends(gcm: seq<int>, gcm': seq<int>) {
    |gcm'| == |gcm| && forall x: nat :: x < |gcm| && gcm[x] != NONE ==> gcm'[x] == gcm[x]
  }

  /** Starting to visit x. */
  lemma OpenOne(f: Func, t: seq<int>, rank: seq<nat>, gcm: seq<int>, open: set<nat>, x: nat)
    requires Context(f, t, rank) && EarlyInv(f, t, rank, gcm, open) && x < |f.def| && gcm[x] == NONE
    ensures EarlyInv(f, t, rank, gcm[x := 0], open + {x}) && Extends(gcm, gcm[x := 0])
  {
    var gcm' := gcm[x := 0];
    forall y: nat | y < |f.def| && y !in open + {x} ensures EarlyAt(f, t, rank, gcm', y) {
      assert EarlyAt(f, t, rank, gcm, y);
    }
  }

  /** Done with x. */
  lemma CloseOne(f: Func, t: seq<int>, rank: seq<nat>, gcm: seq<int>, open: set<nat>, x: nat)
    requires Context(f, t, rank) && x < |f.def| && EarlyInv(f, t, rank, gcm, open + {x})
    requires 0 <= f.def[x] < |f.ins| ==> OperandsMarked(f, gcm, f.def[x])
    ensures EarlyInv(f, t, rank, gcm[x := Early(f, t, rank, x)], open)
  {
    var gcm' := gcm[x := Early(f, t, rank, x)];
    forall y: nat | y < |f.def| && y !in open ensures EarlyAt(f, t, rank, gcm', y) {
      if y != x { assert EarlyAt(f, t, rank, gcm, y); }
    }
  }

  /** The operands of an instruction have their early blocks on one path of the dominator tree. */
  lemma OperandsOnPath(f: Func, t: seq<int>, rank: seq<nat>, home: seq<nat>, i: nat, bound: nat)
    requires Context(f, t, rank) && Homes(f, t, home) && i < |f.ins| && f.InsOk(i)
    requires f.ins[i].arg0.Tmp? ==> f.ins[i].arg0.t < |rank| && rank[f.ins[i].arg0.t] < bound
    requires f.ins[i].arg1.Tmp? ==> f.ins[i].arg1.t < |rank| && rank[f.ins[i].arg1.t] < bound
    ensures var e0, e1 := EarlyRef(f, t, rank, f.ins[i].arg0, bound), EarlyRef(f, t, rank, f.ins[i].arg1, bound);
      Depth(t, e0) < Depth(t, e1) ==> Above(t, e0, e1)
  {
    assert InsLegal(f, t, home, i);
    var b := Stands(f, home, i);
    EarlyRefAbove(f, t, rank, home, f.ins[i].arg0, bound, b);
    EarlyRefAbove(f, t, rank, home, f.ins[i].arg1, bound, b);
    var e0, e1 := EarlyRef(f, t, rank, f.ins[i].arg0, bound), EarlyRef(f, t, rank, f.ins[i].arg1, bound);
    if Depth(t, e0) < Depth(t, e1) { DeeperIsBelow(t, e0, e1, b); }
  }

  /** Every temporary that a phi, a pinned instruction or a jump uses is set. */
  ghost predicate AllMarked(f: Func, gcm: seq<int>, b: nat)
    requires f.Valid()
  {
    && (forall p: nat :: p < |f.phi| && f.phi[p].blk < b ==> PhiMarked(f, gcm, p))
    && (forall i: nat :: i < |f.ins| && f.ins[i].pinned && f.ins[i].blk < b ==> OperandsMarked(f, gcm, i))
    && (forall c: nat :: c < b && c < |f.jmp| ==> Marked(gcm, f.jmp[c]))
  }

  ghost predicate PhiMarked(f: Func, gcm: seq<int>, p: nat)
    requires p < |f.phi|
  {
    forall k: nat :: k < |f.phi[p].arg| ==> Marked(gcm, f.phi[p].arg[k])
  }

  lemma MarksStay(f: Func, gcm: seq<int>, gcm': seq<int>, b: nat)
    requires f.Valid() && AllMarked(f, gcm, b) && Extends(gcm, gcm')
    ensures AllMarked(f, gcm', b)
  {
    forall p: nat | p < |f.phi| && f.phi[p].blk < b ensures PhiMarked(f, gcm', p) {
      assert PhiMarked(f, gcm, p);
    }
    forall i: nat | i < |f.ins| && f.ins[i].pinned && f.ins[i].blk < b ensures OperandsMarked(f, gcm', i) {
      assert OperandsMarked(f, gcm, i);
    }
  }

  // ----- what the late pass leaves in gcmbid -----

  /** The function, its dominator tree and the result of the early pass. */
  datatype Setting = Setting(f: Func, t: seq<int>, rank: seq<nat>, home: seq<nat>, loop: seq<nat>, early: seq<int>) {
    ghost predicate Ok() {
      && Context(f, t, rank) && Homes(f, t, home) && |loop| == |t|
      && EarlyInv(f, t, rank, early, {}) && AllMarked(f, early, |f.jmp|)
    }
  }

  /** The instruction stays: gcmmove drops the others. */
  ghost predicate Kept(f: Func, place: seq<int>, i: nat)
    requires f.Valid() && i < |f.ins| && |place| == |f.def|
  {
    assert f.InsOk(i);
    if f.ins[i].pinned then f.ins[i].canElim ==> place[f.ins[i].to.t] != NONE else place[f.ins[i].to.t] != NONE
  }

  /** The use u of x lies below block z; an operand of a phi is used at the end of the predecessor. */
  ghost predicate UseBelow(s: Setting, place: seq<int>, x: nat, u: Use, z: int)
    requires s.Ok() && |place| == |s.f.def| && s.f.UseOk(x, u)
  {
    match u
    case UPhi(p) => forall k: nat :: k < |s.f.phi[p].arg| && s.f.phi[p].arg[k] == Tmp(x) ==> ArgBelow(s, p, k, z)
    case UIns(i) => Kept(s.f, place, i) ==> Above(s.t, z, Stands(s.f, place, i))
    case UJmp(b) => Above(s.t, z, b)
  }

  ghost predicate ArgBelow(s: Setting, p: nat, k: nat, z: int)
    requires s.Ok() && p < |s.f.phi| && k < |s.f.phi[p].arg|
  {
    assert s.f.PhiOk(p);
    Above(s.t, z, s.f.phi[p].pred[k])
  }

  /** The user is still there after the motion. */
  ghost predicate Live(s: Setting, place: seq<int>, u: Use)
    requires s.Ok() && |place| == |s.f.def|
  {
    match u
    case UPhi(p) => p < |s.f.phi| && s.f.phi[p].to < |s.early| && s.early[s.f.phi[p].to] != NONE
    case UIns(i) => i < |s.f.ins| && Kept(s.f, place, i)
    case UJmp(_) => true
  }

  /** The results of the users of x are in done. */
  ghost predicate UserDone(s: Setting, u: Use, done: set<nat>) {
    u.UIns? && u.i < |s.f.ins| && s.f.ins[u.i].to.Tmp? ==> s.f.ins[u.i].to.t in done
  }

  /** b is a block with the least loop depth between e and l, the lowest such block. */
  ghost predicate Best(s: Setting, e: int, l: int, b: int)
    requires s.Ok()
  {
    && Above(s.t, e, b) && Above(s.t, b, l)
    && forall y :: Above(s.t, e, y) && Above(s.t, y, l) ==> LoopOk(s, b, y)
  }

  ghost predicate LoopOk(s: Setting, b: int, y: int)
    requires s.Ok() && 0 <= b < |s.t| && 0 <= y < |s.t|
  {
    s.loop[b] <= s.loop[y] && (s.loop[b] == s.loop[y] ==> Above(s.t, y, b))
  }

  /** l is the nearest block above the uses counted. */
  ghost predicate Latest(s: Setting, place: seq<int>, x: nat, l: int, n: nat)
    requires s.Ok() && |place| == |s.f.def| && x < |s.f.def| && n <= |s.f.use[x]|
  {
    if l == NONE then forall k: nat :: k < n ==> !Live(s, place, s.f.use[x][k])
    else
      && 0 <= l < |s.t|
      && (forall k: nat :: k < n && Live(s, place, s.f.use[x][k]) ==> BelowAt(s, place, x, k, l))
      && (forall z :: (forall k: nat :: k < n ==> BelowAt(s, place, x, k, z)) ==> Above(s.t, z, l))
  }

  ghost predicate BelowAt(s: Setting, place: seq<int>, x: nat, k: nat, z: int)
    requires s.Ok() && |place| == |s.f.def| && x < |s.f.def| && k < |s.f.use[x]|
  {
    assert s.f.UseOk(x, s.f.use[x][k]);
    UseBelow(s, place, x, s.f.use[x][k], z)
  }

  /** The final block of x. */
  ghost predicate Settled(s: Setting, place: seq<int>, late: seq<int>, done: set<nat>, x: nat)
    requires s.Ok() && |place| == |late| == |s.f.def| && x < |s.f.def|
  {
    if s.early[x] == NONE then place[x] == NONE else
    && (forall k: nat :: k < |s.f.use[x]| ==> UserDone(s, s.f.use[x][k], done))
    && Latest(s, place, x, late[x], |s.f.use[x]|)
    && if s.f.Fixed(x) then place[x] == s.f.bid[x]
       else if late[x] == NONE then place[x] == NONE
       else Best(s, s.early[x], late[x], place[x])
  }

  ghost predicate AllSettled(s: Setting, place: seq<int>, late: seq<int>, done: set<nat>)
    requires s.Ok()
  {
    |place| == |late| == |s.f.def| && forall x :: x in done ==> x < |s.f.def| && Settled(s, place, late, done, x)
  }

  ghost predicate SameOn(a: seq<int>, b: seq<int>, done: set<nat>) {
    |a| == |b| && forall x :: x in done && x < |a| ==> a[x] == b[x]
  }

  lemma UseFrame(s: Setting, place: seq<int>, place': seq<int>, done: set<nat>, x: nat, k: nat)
    requires s.Ok() && |place| == |place'| == |s.f.def| && x < |s.f.def| && k < |s.f.use[x]|
    requires SameOn(place, place', done) && UserDone(s, s.f.use[x][k], done)
    ensures Live(s, place', s.f.use[x][k]) == Live(s, place, s.f.use[x][k])
    ensures forall z :: BelowAt(s, place', x, k, z) == BelowAt(s, place, x, k, z)
  {
    var u := s.f.use[x][k];
    assert s.f.UseOk(x, u);
    if u.UIns? { assert s.f.InsOk(u.i); }
  }

  lemma LatestFrame(s: Setting, place: seq<int>, place': seq<int>, done: set<nat>, x: nat, l: int, n: nat)
    requires s.Ok() && |place| == |place'| == |s.f.def| && x < |s.f.def| && n <= |s.f.use[x]|
    requires SameOn(place, place', done) && forall k: nat :: k < n ==> UserDone(s, s.f.use[x][k], done)
    requires Latest(s, place, x, l, n)
    ensures Latest(s, place', x, l, n)
  {
    forall k: nat | k < n
      ensures Live(s, place', s.f.use[x][k]) == Live(s, place, s.f.use[x][k])
      ensures forall z :: BelowAt(s, place', x, k, z) == BelowAt(s, place, x, k, z)
    {
      UseFrame(s, place, place', done, x, k);
    }
  }

  lemma SettledFrame(s: Setting, place: seq<int>, late: seq<int>, place': seq<int>, late': seq<int>, done: set<nat>,
                     done': set<nat>, x: nat)
    requires s.Ok() && |place| == |late| == |place'| == |late'| == |s.f.def| && x < |s.f.def| && x in done
    requires done <= done'
    requires SameOn(place, place', done) && SameOn(late, late', done) && Settled(s, place, late, done, x)
    ensures Settled(s, place', late', done', x)
  {
    if s.early[x] != NONE {
      LatestFrame(s, place, place', done, x, late[x], |s.f.use[x]|);
    }
  }

  /** What one use contributes to the late block. */
  ghost predicate Contributes(s: Setting, place: seq<int>, x: nat, k: nat, l: int)
    requires s.Ok() && |place| == |s.f.def| && x < |s.f.def| && k < |s.f.use[x]|
  {
    if l == NONE then !Live(s, place, s.f.use[x][k])
    else 0 <= l < |s.t| && BelowAt(s, place, x, k, l) && forall z :: BelowAt(s, place, x, k, z) ==> Above(s.t, z, l)
  }

  lemma BelowMore(s: Setting, place: seq<int>, x: nat, k: nat, l: int, z: int)
    requires s.Ok() && |place| == |s.f.def| && x < |s.f.def| && k < |s.f.use[x]|
    requires Above(s.t, z, l) && BelowAt(s, place, x, k, l)
    ensures BelowAt(s, place, x, k, z)
  {
    var u := s.f.use[x][k];
    assert s.f.UseOk(x, u);
    match u {
      case UPhi(p) =>
        forall j: nat | j < |s.f.phi[p].arg| && s.f.phi[p].arg[j] == Tmp(x) ensures ArgBelow(s, p, j, z) {
          assert ArgBelow(s, p, j, l) && s.f.PhiOk(p);
          AboveTrans(s.t, z, l, s.f.phi[p].pred[j]);
        }
      case UIns(i) => if Kept(s.f, place, i) { AboveTrans(s.t, z, l, Stands(s.f, place, i)); }
      case UJmp(b) => AboveTrans(s.t, z, l, b);
    }
  }

  /** lcabid on one more use. */
  lemma LatestStep(s: Setting, place: seq<int>, x: nat, k: nat, l: int, u: int, d: int)
    requires s.Ok() && |place| == |s.f.def| && x < |s.f.def| && k < |s.f.use[x]|
    requires Latest(s, place, x, l, k) && Contributes(s, place, x, k, u)
    requires if l == NONE then d == u else if u == NONE then d == l else IsLca(s.t, l, u, d)
    ensures Latest(s, place, x, d, k + 1)
  {
    if l != NONE && u != NONE {
      forall j: nat | j < k + 1 && Live(s, place, s.f.use[x][j]) ensures BelowAt(s, place, x, j, d) {
        BelowMore(s, place, x, j, if j < k then l else u, d);
      }
    }
  }

  /** x is not placed above its early block. */
  ghost predicate PlacedLow(s: Setting, place: seq<int>, x: nat)
    requires s.Ok() && x < |s.f.def| == |place|
  {
    place[x] != NONE ==> s.early[x] != NONE && Above(s.t, s.early[x], place[x])
  }

  ghost predicate UserLow(s: Setting, place: seq<int>, u: Use)
    requires s.Ok() && |s.f.def| == |place|
  {
    u.UIns? && u.i < |s.f.ins| && s.f.ins[u.i].to.Tmp? && s.f.ins[u.i].to.t < |place| ==>
      PlacedLow(s, place, s.f.ins[u.i].to.t)
  }

  lemma SettledLow(s: Setting, place: seq<int>, late: seq<int>, done: set<nat>, x: nat)
    requires s.Ok() && |place| == |late| == |s.f.def| && x < |s.f.def| && Settled(s, place, late, done, x)
    ensures PlacedLow(s, place, x)
  {
    assert EarlyAt(s.f, s.t, s.rank, s.early, x);
  }

  /** The early block lies above every use: the assertion of bestbid. */
  lemma EarlyAboveUse(s: Setting, place: seq<int>, x: nat, k: nat)
    requires s.Ok() && |place| == |s.f.def| && x < |s.f.def| && k < |s.f.use[x]|
    requires s.early[x] != NONE && UserLow(s, place, s.f.use[x][k])
    ensures BelowAt(s, place, x, k, s.early[x])
  {
    var u, e := s.f.use[x][k], s.early[x];
    assert EarlyAt(s.f, s.t, s.rank, s.early, x) && s.f.UseOk(x, u);
    EarlyAboveHome(s.f, s.t, s.rank, s.home, x);
    match u {
      case UPhi(p) =>
        forall j: nat | j < |s.f.phi[p].arg| && s.f.phi[p].arg[j] == Tmp(x) ensures ArgBelow(s, p, j, e) {
          assert s.f.PhiOk(p) && ArgLegal(s.f, s.t, s.home, p, j);
          AboveTrans(s.t, e, s.home[x], s.f.phi[p].pred[j]);
        }
      case UIns(i) =>
        if Kept(s.f, place, i) {
          assert s.f.InsOk(i) && InsLegal(s.f, s.t, s.home, i);
          if s.f.ins[i].pinned {
            AboveTrans(s.t, e, s.home[x], s.f.ins[i].blk);
          } else {
            EarlyAbovePlace(s, place, x, i);
          }
        }
      case UJmp(b) => AboveTrans(s.t, e, s.home[x], b);
    }
  }

  lemma EarlyAbovePlace(s: Setting, place: seq<int>, x: nat, i: nat)
    requires s.Ok() && |place| == |s.f.def| && x < |s.f.def| && s.early[x] != NONE
    requires i < |s.f.ins| && s.f.InsOk(i) && !s.f.ins[i].pinned && Kept(s.f, place, i)
    requires PlacedLow(s, place, s.f.ins[i].to.t) && (s.f.ins[i].arg0 == Tmp(x) || s.f.ins[i].arg1 == Tmp(x))
    ensures Above(s.t, s.early[x], Stands(s.f, place, i))
  {
    var y := s.f.ins[i].to.t;
    assert EarlyAt(s.f, s.t, s.rank, s.early, x) && EarlyAt(s.f, s.t, s.rank, s.early, y) && RankedAt(s.f, s.rank, y);
    EarlyBelowOperands(s.f, s.t, s.rank, s.home, y);
    AboveTrans(s.t, s.early[x], s.early[y], place[y]);
  }

  /** The state of the late pass: the temporaries in done have their final block, those in open are being visited. */
  ghost predicate LateInv(s: Setting, gcm: seq<int>, late: seq<int>, visit: seq<bool>, unused: seq<bool>,
                          done: set<nat>, open: set<nat>)
    requires s.Ok()
  {
    && AllSettled(s, gcm, late, done) && |visit| == |s.f.def| && |unused| == |s.f.phi|
    && (forall x: nat :: x < |s.f.def| ==> VisitOk(s, gcm, visit, done, open, x))
    && (forall p: nat :: p < |unused| && unused[p] ==> !Live(s, gcm, UPhi(p)))
  }

  ghost predicate VisitOk(s: Setting, gcm: seq<int>, visit: seq<bool>, done: set<nat>, open: set<nat>, x: nat)
    requires s.Ok() && x < |s.f.def| == |gcm| == |visit|
  {
    && (visit[x] <==> x in done || x in open) && (x in done ==> x !in open)
    && (if visit[x] then !Grounded(s.f, s.rank, x) else gcm[x] == s.early[x])
    && (x in open ==> gcm[x] == s.f.bid[x] && s.early[x] != NONE)
  }

  /** Starting to visit x. */
  lemma LateOpen(s: Setting, gcm: seq<int>, late: seq<int>, visit: seq<bool>, unused: seq<bool>, done: set<nat>,
                 open: set<nat>, x: nat)
    requires s.Ok() && LateInv(s, gcm, late, visit, unused, done, open) && x < |s.f.def| && !visit[x]
    requires s.early[x] != NONE
    requires !Grounded(s.f, s.rank, x)
    ensures LateInv(s, gcm[x := s.f.bid[x]], late, visit[x := true], unused, done, open + {x})
  {
    assert VisitOk(s, gcm, visit, done, open, x);
    var gcm', visit' := gcm[x := s.f.bid[x]], visit[x := true];
    forall y | y in done ensures Settled(s, gcm', late, done, y) {
      SettledFrame(s, gcm, late, gcm', late, done, done, y);
    }
    forall y: nat | y < |s.f.def| ensures VisitOk(s, gcm', visit', done, open + {x}, y) {
      assert VisitOk(s, gcm, visit, done, open, y);
    }
    forall p: nat | p < |unused| && unused[p] ensures !Live(s, gcm', UPhi(p)) {
      assert !Live(s, gcm, UPhi(p));
    }
  }

  /** A temporary that the early pass did not reach is unused. */
  lemma LateDead(s: Setting, gcm: seq<int>, late: seq<int>, visit: seq<bool>, unused: seq<bool>, done: set<nat>,
                 open: set<nat>, x: nat)
    requires s.Ok() && LateInv(s, gcm, late, visit, unused, done, open) && x < |s.f.def| && !visit[x] && gcm[x] == NONE
    requires !Grounded(s.f, s.rank, x)
    ensures s.early[x] == NONE && LateInv(s, gcm, late, visit[x := true], unused, done + {x}, open)
  {
    assert VisitOk(s, gcm, visit, done, open, x);
    var visit' := visit[x := true];
    forall y | y in done + {x} ensures Settled(s, gcm, late, done + {x}, y) {
      if y != x { SettledFrame(s, gcm, late, gcm, late, done, done + {x}, y); }
    }
    forall y: nat | y < |s.f.def| ensures VisitOk(s, gcm, visit', done + {x}, open, y) {
      assert VisitOk(s, gcm, visit, done, open, y);
    }
  }

  /** All the uses of x have been looked at. */
  ghost predicate UsesSeen(s: Setting, gcm: seq<int>, done: set<nat>, x: nat, l: int, n: nat)
    requires s.Ok() && |gcm| == |s.f.def| && x < |s.f.def| && n <= |s.f.use[x]|
  {
    Latest(s, gcm, x, l, n) && forall k: nat :: k < n ==> UserDone(s, s.f.use[x][k], done)
  }

  lemma UsesSeenFrame(s: Setting, gcm: seq<int>, gcm': seq<int>, done: set<nat>, done': set<nat>, x: nat, l: int,
                      n: nat)
    requires s.Ok() && |gcm| == |gcm'| == |s.f.def| && x < |s.f.def| && n <= |s.f.use[x]| && done <= done'
    requires UsesSeen(s, gcm, done, x, l, n) && SameOn(gcm, gcm', done)
    ensures UsesSeen(s, gcm', done', x, l, n)
  {
    LatestFrame(s, gcm, gcm', done, x, l, n);
  }

  lemma UsesSeenStep(s: Setting, gcm: seq<int>, gcm': seq<int>, done: set<nat>, done': set<nat>, x: nat, l: int, k: nat,
                     u: int, d: int)
    requires s.Ok() && |gcm| == |gcm'| == |s.f.def| && x < |s.f.def| && k < |s.f.use[x]| && done <= done'
    requires UsesSeen(s, gcm, done, x, l, k) && SameOn(gcm, gcm', done)
    requires Contributes(s, gcm', x, k, u) && UserDone(s, s.f.use[x][k], done')
    requires if l == NONE then d == u else if u == NONE then d == l else IsLca(s.t, l, u, d)
    ensures UsesSeen(s, gcm', done', x, d, k + 1)
  {
    UsesSeenFrame(s, gcm, gcm', done, done', x, l, k);
    LatestStep(s, gcm', x, k, l, u, d);
  }

  /** The temporaries being visited come before t, and top bounds all ranks. */
  ghost predicate RanksBelow(rank: seq<nat>, open: set<nat>, t: nat, top: nat) {
    && t < |rank| && (forall x: nat :: x < |rank| ==> rank[x] < top)
    && forall x :: x in open ==> x < |rank| && rank[x] < rank[t]
  }

  lemma EarlyAboveLatest(s: Setting, gcm: seq<int>, late: seq<int>, done: set<nat>, x: nat, l: int)
    requires s.Ok() && AllSettled(s, gcm, late, done) && x < |s.f.def| && s.early[x] != NONE && l != NONE
    requires UsesSeen(s, gcm, done, x, l, |s.f.use[x]|)
    ensures 0 <= l < |s.t| && Above(s.t, s.early[x], l)
  {
    forall k: nat | k < |s.f.use[x]| ensures BelowAt(s, gcm, x, k, s.early[x]) {
      var u := s.f.use[x][k];
      if u.UIns? && u.i < |s.f.ins| && s.f.ins[u.i].to.Tmp? { SettledLow(s, gcm, late, done, s.f.ins[u.i].to.t); }
      EarlyAboveUse(s, gcm, x, k);
    }
  }

  /** x has its final block b. */
  lemma LateClose(s: Setting, gcm: seq<int>, late: seq<int>, visit: seq<bool>, unused: seq<bool>, done: set<nat>,
                  open: set<nat>, x: nat, l: int, b: int)
    requires s.Ok() && LateInv(s, gcm, late, visit, unused, done, open + {x}) && x < |s.f.def| && x !in open
    requires x !in done
    requires s.early[x] != NONE && UsesSeen(s, gcm, done, x, l, |s.f.use[x]|)
    requires if s.f.Fixed(x) then b == s.f.bid[x] else if l == NONE then b == NONE else Best(s, s.early[x], l, b)
    ensures LateInv(s, gcm[x := b], late[x := l], visit, unused, done + {x}, open)
  {
    var gcm', late', done' := gcm[x := b], late[x := l], done + {x};
    UsesSeenFrame(s, gcm, gcm', done, done', x, l, |s.f.use[x]|);
    forall y | y in done' ensures y < |s.f.def| && Settled(s, gcm', late', done', y) {
      if y != x { SettledFrame(s, gcm, late, gcm', late', done, done', y); }
    }
    forall y: nat | y < |s.f.def| ensures VisitOk(s, gcm', visit, done', open, y) {
      assert VisitOk(s, gcm, visit, done, open + {x}, y);
    }
    forall p: nat | p < |unused| && unused[p] ensures !Live(s, gcm', UPhi(p)) {
      assert !Live(s, gcm, UPhi(p));
    }
  }

  // ----- the result is legal -----

  ghost predicate AtEnd(s: Setting, place: seq<int>, late: seq<int>, done: set<nat>)
    requires s.Ok()
  {
    AllSettled(s, place, late, done) && forall x: nat :: x < |s.f.def| && x !in done ==> place[x] == s.early[x]
  }

  lemma AllLow(s: Setting, place: seq<int>, late: seq<int>, done: set<nat>, x: nat)
    requires s.Ok() && AtEnd(s, place, late, done) && x < |s.f.def|
    ensures PlacedLow(s, place, x)
  {
    assert EarlyAt(s.f, s.t, s.rank, s.early, x);
    if x in done { SettledLow(s, place, late, done, x); }
  }

  /** A use that stays had its operand marked by the early pass. */
  lemma LiveIsMarked(s: Setting, place: seq<int>, late: seq<int>, done: set<nat>, x: nat, u: Use)
    requires s.Ok() && AtEnd(s, place, late, done) && x < |s.f.def| && s.f.UseOk(x, u) && Live(s, place, u)
    ensures s.early[x] != NONE
  {
    match u {
      case UPhi(p) =>
        assert s.f.PhiOk(p) && PhiMarked(s.f, s.early, p);
        var k :| 0 <= k < |s.f.phi[p].arg| && s.f.phi[p].arg[k] == Tmp(x);
        assert Marked(s.early, s.f.phi[p].arg[k]);
      case UIns(i) =>
        assert s.f.InsOk(i);
        if !s.f.ins[i].pinned {
          AllLow(s, place, late, done, s.f.ins[i].to.t);
          assert EarlyAt(s.f, s.t, s.rank, s.early, s.f.ins[i].to.t);
        }
        assert OperandsMarked(s.f, s.early, i);
      case UJmp(b) => assert Marked(s.early, s.f.jmp[b]);
    }
  }

  /** The block of an operand dominates every use that stays. */
  lemma PlacedAboveUse(s: Setting, place: seq<int>, late: seq<int>, done: set<nat>, x: nat, k: nat)
    requires s.Ok() && AtEnd(s, place, late, done) && x < |s.f.def| && k < |s.f.use[x]| && Live(s, place, s.f.use[x][k])
    ensures place[x] != NONE && BelowAt(s, place, x, k, place[x])
  {
    var u := s.f.use[x][k];
    assert s.f.UseOk(x, u);
    LiveIsMarked(s, place, late, done, x, u);
    if u.UIns? && s.f.ins[u.i].to.Tmp? && s.f.ins[u.i].to.t < |place| { AllLow(s, place, late, done, s.f.ins[u.i].to.t); }
    EarlyAboveUse(s, place, x, k);
    assert EarlyAt(s.f, s.t, s.rank, s.early, x);
    if x in done && !s.f.Fixed(x) {
      BelowMore(s, place, x, k, late[x], place[x]);
    }
  }

  lemma RefPlaced(s: Setting, place: seq<int>, late: seq<int>, done: set<nat>, r: Ref, u: Use)
    requires s.Ok() && AtEnd(s, place, late, done) && s.f.RefOk(r, u) && Live(s, place, u)
    ensures r.Tmp? ==>
      r.t < |place| && place[r.t] != NONE && s.f.UseOk(r.t, u) && UseBelow(s, place, r.t, u, place[r.t])
  {
    if r.Tmp? {
      var k :| 0 <= k < |s.f.use[r.t]| && s.f.use[r.t][k] == u;
      assert s.f.UseOk(r.t, s.f.use[r.t][k]);
      PlacedAboveUse(s, place, late, done, r.t, k);
      assert BelowAt(s, place, r.t, k, place[r.t]);
    }
  }

  /**
   * Global code motion is legal: what is pinned stays, and the block of each operand dominates the block of every
   * instruction, phi (at the predecessor) and jump that remains.
   */
  ghost predicate Legal(f: Func, t: seq<int>, place: seq<int>)
    requires f.Valid() && Linked(t) && |place| == |f.def|
  {
    && (forall x: nat :: x < |f.def| && f.Fixed(x) ==> place[x] == f.bid[x] || place[x] == NONE)
    && (forall i: nat :: i < |f.ins| && Kept(f, place, i) ==> InsLegal(f, t, place, i))
    && (forall p: nat, k: nat :: p < |f.phi| && k < |f.phi[p].arg| && PhiKept(f, place, p) ==>
        ArgLegal(f, t, place, p, k))
    && (forall b: nat :: b < |f.jmp| ==> RefAbove(t, place, f.jmp[b], b))
  }

  /** lateblk removes the other phis. */
  ghost predicate PhiKept(f: Func, place: seq<int>, p: nat)
    requires f.Valid() && |place| == |f.def| && p < |f.phi|
  {
    assert f.PhiOk(p);
    place[f.phi[p].to] != NONE
  }

  lemma EndIsLegal(s: Setting, place: seq<int>, late: seq<int>, done: set<nat>)
    requires s.Ok() && AtEnd(s, place, late, done)
    ensures Legal(s.f, s.t, place)
  {
    var f := s.f;
    forall x: nat | x < |f.def| && f.Fixed(x) ensures place[x] == f.bid[x] || place[x] == NONE {
      assert EarlyAt(f, s.t, s.rank, s.early, x);
    }
    forall i: nat | i < |f.ins| && Kept(f, place, i) ensures InsLegal(f, s.t, place, i) {
      assert f.InsOk(i);
      RefPlaced(s, place, late, done, f.ins[i].arg0, UIns(i));
      RefPlaced(s, place, late, done, f.ins[i].arg1, UIns(i));
      if !f.ins[i].pinned { AllLow(s, place, late, done, f.ins[i].to.t); }
    }
    forall p: nat, k: nat | p < |f.phi| && k < |f.phi[p].arg| && PhiKept(f, place, p)
      ensures ArgLegal(f, s.t, place, p, k)
    {
      assert f.PhiOk(p);
      AllLow(s, place, late, done, f.phi[p].to);
      RefPlaced(s, place, late, done, f.phi[p].arg[k], UPhi(p));
      if f.phi[p].arg[k].Tmp? { assert ArgBelow(s, p, k, place[f.phi[p].arg[k].t]); }
    }
    forall b: nat | b < |f.jmp| ensures RefAbove(s.t, place, f.jmp[b], b) {
      RefPlaced(s, place, late, done, f.jmp[b], UJmp(b));
    }
  }

  // ----- every instruction that can move stands at least loop depth -----

  ghost predicate PhiReached(f: Func, p: nat, done: set<nat>)
    requires p < |f.phi|
  {
    f.phi[p].to in done
  }

  ghost predicate PinnedReached(f: Func, i: nat, done: set<nat>)
    requires i < |f.ins|
  {
    f.ins[i].pinned && f.ins[i].to.Tmp? ==> f.ins[i].to.t in done
  }

  /** The phis and the pinned instructions of the first b blocks have been reached. */
  ghost predicate AllReached(f: Func, b: nat, done: set<nat>) {
    && (forall p: nat :: p < |f.phi| && f.phi[p].blk < b ==> PhiReached(f, p, done))
    && (forall i: nat :: i < |f.ins| && f.ins[i].blk < b ==> PinnedReached(f, i, done))
  }

  /** A temporary that is used and does not move has been reached. */
  lemma FixedReached(f: Func, done: set<nat>, t: nat)
    requires f.Valid() && AllReached(f, |f.jmp|, done) && t < |f.def| && f.Fixed(t) && f.use[t] != []
    ensures t in done
  {
    assert f.TmpOk(t) && f.HasPhi(t);
    if f.def[t] == NONE {
      var p: nat :| p < |f.phi| && f.phi[p].to == t;
      assert f.PhiOk(p) && PhiReached(f, p, done);
    } else {
      assert PinnedReached(f, f.def[t], done);
    }
  }

  /** The late pass reaches every instruction that is needed and not computed from constants alone. */
  lemma {:induction false} Reached(s: Setting, place: seq<int>, late: seq<int>, done: set<nat>, x: nat)
    requires s.Ok() && AllSettled(s, place, late, done) && AllReached(s.f, |s.f.jmp|, done)
    requires x < |s.f.def| && !s.f.Fixed(x) && s.early[x] != NONE && !Grounded(s.f, s.rank, x)
    ensures x in done
    decreases s.rank[x]
  {
    var f, i := s.f, s.f.def[x];
    assert f.TmpOk(x) && f.InsOk(i) && RankedAt(f, s.rank, x) && EarlyAt(f, s.t, s.rank, s.early, x);
    var r := if GroundedRef(f, s.rank, f.ins[i].arg0, s.rank[x]) then f.ins[i].arg1 else f.ins[i].arg0;
    var t := r.t;
    assert f.RefOk(r, UIns(i));
    var k :| 0 <= k < |f.use[t]| && f.use[t][k] == UIns(i);
    if f.Fixed(t) {
      FixedReached(f, done, t);
    } else {
      Reached(s, place, late, done, t);
    }
    assert Settled(s, place, late, done, t) && UserDone(s, f.use[t][k], done);
  }

  lemma {:induction false} LcaExists(t: seq<int>, b1: int, b2: int) returns (d: int)
    requires Linked(t) && 0 <= b1 < |t| && 0 <= b2 < |t|
    ensures IsLca(t, b1, b2, d)
    decreases b1
  {
    if b1 in Chain(t, b2) {
      d := b1;
    } else {
      RootAbove(t, b2);
      assert Set(t, b1);
      d := LcaExists(t, t[b1], b2);
    }
  }

  lemma {:induction false} PhiLcaExists(s: Setting, p: nat, x: nat, n: nat) returns (l: int)
    requires s.Ok() && p < |s.f.phi| && n <= |s.f.phi[p].arg| && s.f.PhiOk(p)
    ensures NONE <= l < |s.t| && PhiLca(s, p, x, l, n)
  {
    hide Homes, EarlyInv, AllMarked, Ranked;
    if n == 0 {
      l := NONE;
    } else {
      l := PhiLcaExists(s, p, x, n - 1);
      if s.f.phi[p].arg[n - 1] == Tmp(x) {
        var d := s.f.phi[p].pred[n - 1];
        if l != NONE { d := LcaExists(s.t, l, d); }
        PhiLcaStep(s, p, x, l, n - 1, d);
        l := d;
      }
    }
  }

  ghost predicate Placed(s: Setting, place: seq<int>) {
    |place| == |s.f.def| && forall x :: 0 <= x < |place| ==> NONE <= place[x] < |s.t|
  }

  lemma ContributesExists(s: Setting, place: seq<int>, x: nat, k: nat) returns (u: int)
    requires s.Ok() && Placed(s, place) && x < |s.f.def| && k < |s.f.use[x]|
    ensures NONE <= u < |s.t| && Contributes(s, place, x, k, u)
  {
    var v := s.f.use[x][k];
    assert s.f.UseOk(x, v);
    if !Live(s, place, v) {
      u := NONE;
    } else {
      match v {
        case UPhi(p) =>
          assert s.f.PhiOk(p);
          u := PhiLcaExists(s, p, x, |s.f.phi[p].arg|);
        case UIns(i) =>
          assert s.f.InsOk(i);
          u := Stands(s.f, place, i);
        case UJmp(b) => u := b;
      }
    }
  }

  /** There is a nearest block above the uses. */
  lemma {:induction false} LatestExists(s: Setting, place: seq<int>, x: nat, n: nat) returns (l: int)
    requires s.Ok() && Placed(s, place) && x < |s.f.def| && n <= |s.f.use[x]|
    ensures NONE <= l < |s.t| && Latest(s, place, x, l, n)
  {
    if n == 0 {
      l := NONE;
    } else {
      l := LatestExists(s, place, x, n - 1);
      var u := ContributesExists(s, place, x, n - 1);
      var d := if l == NONE then u else l;
      if l != NONE && u != NONE { d := LcaExists(s.t, l, u); }
      LatestStep(s, place, x, n - 1, l, u, d);
      l := d;
    }
  }

  /** The block of x, which can move; l is the nearest block above the uses that stay, or none. */
  ghost predicate Final(s: Setting, place: seq<int>, l: int, x: nat)
    requires s.Ok() && x < |s.f.def| == |place|
  {
    if s.early[x] == NONE then place[x] == NONE else
    && Latest(s, place, x, l, |s.f.use[x]|)
    && if Grounded(s.f, s.rank, x) then place[x] == 0
       else if l == NONE then place[x] == NONE
       else Best(s, s.early[x], l, place[x])
  }

  ghost predicate Finished(s: Setting, place: seq<int>, late: seq<int>, done: set<nat>)
    requires s.Ok()
  {
    AtEnd(s, place, late, done) && AllReached(s.f, |s.f.jmp|, done) && forall x :: x in done ==>
      !Grounded(s.f, s.rank, x)
  }

  lemma FinalAt(s: Setting, place: seq<int>, late: seq<int>, done: set<nat>, x: nat) returns (l: int)
    requires s.Ok() && Finished(s, place, late, done) && Placed(s, place) && x < |s.f.def| && !s.f.Fixed(x)
    ensures Final(s, place, l, x)
  {
    l := late[x];
    assert EarlyAt(s.f, s.t, s.rank, s.early, x);
    if s.early[x] != NONE {
      if Grounded(s.f, s.rank, x) {
        l := LatestExists(s, place, x, |s.f.use[x]|);
        GroundedEarly(s.f, s.t, s.rank, x);
      } else {
        Reached(s, place, late, done, x);
        assert Settled(s, place, late, done, x);
      }
    }
  }

  lemma {:induction false} FinalUpTo(s: Setting, place: seq<int>, late: seq<int>, done: set<nat>, n: nat)
    returns (ls: seq<int>)
    requires s.Ok() && Finished(s, place, late, done) && Placed(s, place) && n <= |s.f.def|
    ensures |ls| == n && forall x: nat :: x < n && !s.f.Fixed(x) ==> Final(s, place, ls[x], x)
  {
    hide Finished, Placed, Final;
    if n == 0 {
      ls := [];
    } else {
      ls := FinalUpTo(s, place, late, done, n - 1);
      var l := NONE;
      if !s.f.Fixed(n - 1) { l := FinalAt(s, place, late, done, n - 1); }
      ls := ls + [l];
    }
  }

  lemma FixedStay(s: Setting, place: seq<int>, late: seq<int>, done: set<nat>)
    requires s.Ok() && AtEnd(s, place, late, done)
    ensures forall x: nat :: x < |s.f.def| && s.f.Fixed(x) ==> place[x] == s.early[x]
  {
    forall x: nat | x < |s.f.def| && s.f.Fixed(x) ensures place[x] == s.early[x] {
      assert EarlyAt(s.f, s.t, s.rank, s.early, x);
      if x in done { assert Settled(s, place, late, done, x); }
    }
  }

  lemma AllPlaced(s: Setting, place: seq<int>, late: seq<int>, done: set<nat>)
    requires s.Ok() && AtEnd(s, place, late, done)
    ensures Placed(s, place)
  {
    forall x: nat | x < |place| ensures NONE <= place[x] < |s.t| {
      AllLow(s, place, late, done, x);
      assert EarlyAt(s.f, s.t, s.rank, s.early, x);
    }
  }

  /** On the way up from l to the early block, no block has a smaller loop depth than that of x. */
  ghost predicate LeastDepth(s: Setting, place: seq<int>, l: int, x: nat)
    requires s.Ok() && x < |s.f.def| == |place|
  {
    place[x] != NONE && l != NONE ==>
      && Above(s.t, s.early[x], place[x]) && Above(s.t, place[x], l)
      && forall y :: Above(s.t, s.early[x], y) && Above(s.t, y, l) ==> s.loop[place[x]] <= s.loop[y]
  }

  /** Nothing jumps to the start block, so its loop depth is least. */
  lemma FinalIsLeast(s: Setting, place: seq<int>, l: int, x: nat)
    requires s.Ok() && x < |s.f.def| == |place| && Final(s, place, l, x) && !s.f.Fixed(x)
    requires forall b :: 0 <= b < |s.loop| ==> s.loop[0] <= s.loop[b]
    ensures LeastDepth(s, place, l, x)
  {
    if place[x] != NONE && l != NONE {
      assert EarlyAt(s.f, s.t, s.rank, s.early, x);
      if Grounded(s.f, s.rank, x) {
        GroundedEarly(s.f, s.t, s.rank, x);
        RootAbove(s.t, l);
        RootAbove(s.t, 0);
      } else {
        forall y | Above(s.t, s.early[x], y) && Above(s.t, y, l) ensures s.loop[place[x]] <= s.loop[y] {
          assert LoopOk(s, place[x], y);
        }
      }
    }
  }

  /** One step up the dominator tree in bestbid. */
  lemma BestStep(s: Setting, e: int, l: int, cur: int, best: int)
    requires s.Ok() && Above(s.t, e, cur) && Above(s.t, cur, l) && e != cur && Above(s.t, cur, best)
    requires Above(s.t, best, l)
    requires forall y :: Above(s.t, cur, y) && Above(s.t, y, l) ==> LoopOk(s, best, y)
    ensures var up := s.t[cur]; var best' := if s.loop[up] < s.loop[best] then up else best;
      && 0 <= up < cur && Above(s.t, e, up) && Above(s.t, up, l) && Above(s.t, up, best') && Above(s.t, best', l)
      && forall y :: Above(s.t, up, y) && Above(s.t, y, l) ==> LoopOk(s, best', y)
  {
    assert Set(s.t, cur) && cur != 0;
    var up := s.t[cur];
    var best' := if s.loop[up] < s.loop[best] then up else best;
    AboveTrans(s.t, up, cur, l);
    AboveTrans(s.t, up, cur, best);
    forall y | Above(s.t, up, y) && Above(s.t, y, l) ensures LoopOk(s, best', y) {
      ChainOf(s.t, l, y);
      ChainOf(s.t, l, cur);
      if cur <= y { assert Above(s.t, cur, y); }
    }
  }

  /** The predecessors from which a phi takes x, and the nearest block above them. */
  ghost predicate PhiLca(s: Setting, p: nat, x: nat, l: int, n: nat)
    requires s.Ok() && p < |s.f.phi| && n <= |s.f.phi[p].arg|
  {
    if l == NONE then forall k: nat :: k < n ==> s.f.phi[p].arg[k] != Tmp(x)
    else
      && 0 <= l < |s.t|
      && (forall k: nat :: k < n && s.f.phi[p].arg[k] == Tmp(x) ==> ArgBelow(s, p, k, l))
      && (forall z :: (forall k: nat :: k < n && s.f.phi[p].arg[k] == Tmp(x) ==> ArgBelow(s, p, k, z)) ==>
          Above(s.t, z, l))
  }

  lemma PhiLcaStep(s: Setting, p: nat, x: nat, l: int, n: nat, d: int)
    requires s.Ok() && p < |s.f.phi| && n < |s.f.phi[p].arg| && s.f.PhiOk(p) && PhiLca(s, p, x, l, n)
    requires s.f.phi[p].arg[n] == Tmp(x)
    requires if l == NONE then d == s.f.phi[p].pred[n] else IsLca(s.t, l, s.f.phi[p].pred[n], d)
    ensures PhiLca(s, p, x, d, n + 1)
  {
    forall k: nat | k < n + 1 && s.f.phi[p].arg[k] == Tmp(x) ensures ArgBelow(s, p, k, d) {
      if k < n && l != NONE {
        assert ArgBelow(s, p, k, l);
        AboveTrans(s.t, d, l, s.f.phi[p].pred[k]);
      }
    }
    forall z | forall k: nat :: k < n + 1 && s.f.phi[p].arg[k] == Tmp(x) ==> ArgBelow(s, p, k, z)
      ensures Above(s.t, z, d)
    {
      assert ArgBelow(s, p, n, z);
    }
  }

  /** The fields gcmbid and visit of the temporaries; unused[p] tells that phi p has lost its operands. */
  class Motion {
    const f: Func
    const idom: seq<int>
    const depth: seq<int>
    const loop: seq<nat>
    ghost const rank: seq<nat>
    ghost const home: seq<nat>
    var gcmbid: seq<int>
    var visit: seq<bool>
    var unused: seq<bool>
    ghost var early: seq<int>
    ghost var late: seq<int>
    ghost var done: set<nat>

    ghost predicate Fit() {
      && Context(f, idom, rank) && Homes(f, idom, home) && IsDepth(idom, depth) && |loop| == |idom|
      && forall b :: 0 <= b < |loop| ==> loop[0] <= loop[b]
    }

    constructor (f: Func, idom: seq<int>, depth: seq<int>, loop: seq<nat>, ghost rank: seq<nat>, ghost home: seq<nat>)
      requires Context(f, idom, rank) && Homes(f, idom, home) && IsDepth(idom, depth) && |loop| == |idom|
      requires forall b :: 0 <= b < |loop| ==> loop[0] <= loop[b]
      ensures Fit() && EarlyInv(f, idom, rank, gcmbid, {}) && (forall x :: 0 <= x < |gcmbid| ==> gcmbid[x] == NONE)
      ensures this.f == f && this.idom == idom && this.depth == depth && this.loop == loop && this.rank == rank
      ensures this.home == home
      ensures |visit| == |f.def| && (forall x :: 0 <= x < |visit| ==> !visit[x])
      ensures |unused| == |f.phi| && (forall p :: 0 <= p < |unused| ==> !unused[p])
      ensures done == {} && |late| == |f.def|
    {
      this.f, this.idom, this.depth, this.loop, this.rank, this.home := f, idom, depth, loop, rank, home;
      gcmbid := seq(|f.def|, x => NONE);
      visit := seq(|f.def|, x => false);
      unused := seq(|f.phi|, p => false);
      early := [];
      late := seq(|f.def|, x => NONE);
      done := {};
    }

    ghost function S(): Setting
      reads this`early
    {
      Setting(f, idom, rank, home, loop, early)
    }

    ghost predicate Fit2(open: set<nat>)
      reads this
    {
      Fit() && S().Ok() && LateInv(S(), gcmbid, late, visit, unused, done, open)
    }

    // ----- early -----

    method SchedEarly(r: Ref, ghost open: set<nat>, ghost bound: nat) returns (b: nat)
      requires Fit() && EarlyInv(f, idom, rank, gcmbid, open) && (r.Tmp? ==> r.t < |f.def| && rank[r.t] < bound)
      requires forall x :: x in open ==> x < |rank| && rank[x] >= bound
      modifies this`gcmbid
      ensures EarlyInv(f, idom, rank, gcmbid, open) && Extends(old(gcmbid), gcmbid) && Marked(gcmbid, r)
      ensures b == EarlyRef(f, idom, rank, r, bound)
      decreases bound, 0
    {
      if !r.Tmp? {
        return 0;
      }
      var t := r.t;
      assert f.TmpOk(t) && t !in open;
      if gcmbid[t] != NONE {
        assert EarlyAt(f, idom, rank, gcmbid, t);
        return gcmbid[t];
      }
      if f.def[t] != NONE {
        OpenOne(f, idom, rank, gcmbid, open, t);
        gcmbid := gcmbid[t := 0]; // being visited
        b := EarlyIns(f.def[t], t, open);
        CloseOne(f, idom, rank, gcmbid, open, t);
        gcmbid := gcmbid[t := b];
      } else {
        OpenOne(f, idom, rank, gcmbid, open, t);
        CloseOne(f, idom, rank, gcmbid[t := 0], open, t);
        b := f.bid[t];
        assert gcmbid[t := 0][t := b] == gcmbid[t := b];
        gcmbid := gcmbid[t := b];
      }
    }

    /** earlyins, for the instruction that defines t. */
    method EarlyIns(i: nat, ghost t: nat, ghost open: set<nat>) returns (b: nat)
      requires Fit() && t < |f.def| && f.def[t] == i < |f.ins| && EarlyInv(f, idom, rank, gcmbid, open + {t})
      requires forall x :: x in open ==> x < |rank| && rank[x] > rank[t]
      modifies this`gcmbid
      ensures EarlyInv(f, idom, rank, gcmbid, open + {t}) && Extends(old(gcmbid), gcmbid)
      ensures OperandsMarked(f, gcmbid, i)
      ensures b == Early(f, idom, rank, t)
      decreases rank[t], 1
    {
      assert f.TmpOk(t) && RankedAt(f, rank, t) && f.InsOk(i);
      OperandsOnPath(f, idom, rank, home, i, rank[t]);
      var b0 := SchedEarly(f.ins[i].arg0, open + {t}, rank[t]);
      var b1 := SchedEarly(f.ins[i].arg1, open + {t}, rank[t]);
      if depth[b0] < depth[b1] {
        assert Above(idom, b0, b1);
        b0 := b1;
      }
      b := if f.ins[i].pinned then f.ins[i].blk else b0;
    }

    method MarkPhi(p: nat)
      requires Fit() && EarlyInv(f, idom, rank, gcmbid, {}) && p < |f.phi|
      modifies this`gcmbid
      ensures EarlyInv(f, idom, rank, gcmbid, {}) && Extends(old(gcmbid), gcmbid) && PhiMarked(f, gcmbid, p)
    {
      assert f.PhiOk(p);
      for n := 0 to |f.phi[p].arg|
        invariant EarlyInv(f, idom, rank, gcmbid, {}) && Extends(old(gcmbid), gcmbid)
        invariant forall k: nat :: k < n ==> Marked(gcmbid, f.phi[p].arg[k])
      {
        Mark(f.phi[p].arg[n]);
      }
    }

    /** schedearly from a use that does not move. */
    method Mark(r: Ref)
      requires Fit() && EarlyInv(f, idom, rank, gcmbid, {}) && (r.Tmp? ==> r.t < |f.def|)
      modifies this`gcmbid
      ensures EarlyInv(f, idom, rank, gcmbid, {}) && Extends(old(gcmbid), gcmbid) && Marked(gcmbid, r)
    {
      var b := SchedEarly(r, {}, if r.Tmp? then rank[r.t] + 1 else 0);
    }

    /** earlyblk: the operands of the phis, of the pinned instructions and of the jump of block b. */
    method EarlyBlk(b: nat)
      requires Fit() && EarlyInv(f, idom, rank, gcmbid, {}) && b < |f.jmp| && AllMarked(f, gcmbid, b)
      modifies this`gcmbid
      ensures EarlyInv(f, idom, rank, gcmbid, {}) && AllMarked(f, gcmbid, b + 1)
    {
      EarlyPhis(b);
      EarlyPinned(b);
      ghost var before := gcmbid;
      assert f.RefOk(f.jmp[b], UJmp(b));
      Mark(f.jmp[b]);
      MarksStay(f, before, gcmbid, b);
    }

    method EarlyPhis(b: nat)
      requires Fit() && EarlyInv(f, idom, rank, gcmbid, {}) && b < |f.jmp| && AllMarked(f, gcmbid, b)
      modifies this`gcmbid
      ensures EarlyInv(f, idom, rank, gcmbid, {}) && AllMarked(f, gcmbid, b)
      ensures forall q: nat :: q < |f.phi| && f.phi[q].blk == b ==> PhiMarked(f, gcmbid, q)
    {
      for p := 0 to |f.phi|
        invariant EarlyInv(f, idom, rank, gcmbid, {}) && AllMarked(f, gcmbid, b)
        invariant forall q: nat :: q < p && f.phi[q].blk == b ==> PhiMarked(f, gcmbid, q)
      {
        if f.phi[p].blk == b {
          ghost var before := gcmbid;
          MarkPhi(p);
          MarksStay(f, before, gcmbid, b);
        }
      }
    }

    method EarlyPinned(b: nat)
      requires Fit() && EarlyInv(f, idom, rank, gcmbid, {}) && b < |f.jmp| && AllMarked(f, gcmbid, b)
      modifies this`gcmbid
      ensures EarlyInv(f, idom, rank, gcmbid, {}) && AllMarked(f, gcmbid, b) && Extends(old(gcmbid), gcmbid)
      ensures forall i: nat :: i < |f.ins| && f.ins[i].pinned && f.ins[i].blk == b ==> OperandsMarked(f, gcmbid, i)
    {
      for i := 0 to |f.ins|
        invariant EarlyInv(f, idom, rank, gcmbid, {}) && Extends(old(gcmbid), gcmbid)
        invariant forall j: nat :: j < i && f.ins[j].pinned && f.ins[j].blk == b ==> OperandsMarked(f, gcmbid, j)
      {
        if f.ins[i].blk == b && f.ins[i].pinned {
          assert f.InsOk(i);
          Mark(f.ins[i].arg0);
          Mark(f.ins[i].arg1);
        }
      }
      MarksStay(f, old(gcmbid), gcmbid, b);
    }

    // ----- late -----

    method LcaBid(b1: int, b2: int) returns (d: int)
      requires Fit() && NONE <= b1 < |idom| && NONE <= b2 < |idom|
      ensures NONE <= d < |idom|
      ensures if b1 == NONE then d == b2 else if b2 == NONE then d == b1 else IsLca(idom, b1, b2, d)
    {
      if b1 == NONE {
        return b2;
      }
      if b2 == NONE {
        return b1;
      }
      d := Lca(idom, depth, b1, b2);
    }

    method BestBid(earlybid: int, latebid: int) returns (b: int)
      requires Fit() && S().Ok() && (latebid != NONE ==> Above(idom, earlybid, latebid))
      ensures if latebid == NONE then b == NONE else Best(S(), earlybid, latebid, b)
    {
      if latebid == NONE {
        return NONE;
      }
      b := latebid;
      var cur := latebid;
      while cur != earlybid
        invariant Above(idom, earlybid, cur) && Above(idom, cur, latebid) && Above(idom, cur, b)
        invariant Above(idom, b, latebid)
        invariant forall y :: Above(idom, cur, y) && Above(idom, y, latebid) ==> LoopOk(S(), b, y)
        decreases cur
      {
        BestStep(S(), earlybid, latebid, cur, b);
        cur := idom[cur];
        if loop[cur] < loop[b] {
          b := cur;
        }
      }
    }

    /** schedlate: the final block of r, which settles the users of r first. */
    method SchedLate(r: Ref, ghost open: set<nat>, ghost top: nat) returns (b: int)
      requires Fit2(open) && (r.Tmp? ==> r.t < |f.def| && RanksBelow(rank, open, r.t, top) && !Grounded(f, rank, r.t))
      modifies this`gcmbid, this`visit, this`late, this`done
      ensures Fit2(open) && old(done) <= done && SameOn(old(gcmbid), gcmbid, old(done) + open)
      ensures if r.Tmp? then r.t in done && b == gcmbid[r.t] else b == NONE
      decreases if r.Tmp? then top - rank[r.t] else 0, 4
    {
      if !r.Tmp? {
        return NONE;
      }
      var t := r.t;
      assert VisitOk(S(), gcmbid, visit, done, open, t);
      if visit[t] {
        return gcmbid[t];
      }
      if gcmbid[t] == NONE {
        LateDead(S(), gcmbid, late, visit, unused, done, open, t);
        visit := visit[t := true];
        done := done + {t};
        return NONE;
      }
      b := SchedUsed(t, open, top);
    }

    /** The rest of schedlate, for a temporary that the early pass reached. */
    method SchedUsed(t: nat, ghost open: set<nat>, ghost top: nat) returns (b: int)
      requires Fit2(open) && t < |f.def| && !visit[t] && gcmbid[t] == early[t] != NONE && RanksBelow(rank, open, t, top)
      requires !Grounded(f, rank, t)
      modifies this`gcmbid, this`visit, this`late, this`done
      ensures Fit2(open) && old(done) <= done && SameOn(old(gcmbid), gcmbid, old(done) + open)
      ensures t in done && b == gcmbid[t]
      decreases top - rank[t], 3
    {
      hide Homes, AllMarked, EarlyInv, Settled, Latest, Best, Grounded;
      assert VisitOk(S(), gcmbid, visit, done, open, t);
      var earlybid := gcmbid[t];
      LateOpen(S(), gcmbid, late, visit, unused, done, open, t);
      visit := visit[t := true];
      gcmbid := gcmbid[t := f.bid[t]];
      var latebid := UsesLate(t, open, top);
      assert VisitOk(S(), gcmbid, visit, done, open + {t}, t);
      EarlyAbove(t, latebid);
      b := gcmbid[t];
      if !f.Fixed(t) {
        b := BestBid(earlybid, latebid);
      }
      LateClose(S(), gcmbid, late, visit, unused, done, open, t, latebid, b);
      gcmbid := gcmbid[t := b];
      late := late[t := latebid];
      done := done + {t};
    }

    lemma EarlyAbove(t: nat, l: int)
      requires Fit() && S().Ok() && t < |f.def| && AllSettled(S(), gcmbid, late, done) && early[t] != NONE
      requires UsesSeen(S(), gcmbid, done, t, l, |f.use[t]|)
      ensures l != NONE ==> Above(idom, early[t], l)
    {
      if l != NONE { EarlyAboveLatest(S(), gcmbid, late, done, t, l); }
    }

    /** The loop over the uses. */
    method UsesLate(t: nat, ghost open: set<nat>, ghost top: nat) returns (latebid: int)
      requires t < |f.def| && t !in open && Fit2(open + {t}) && early[t] != NONE
      requires RanksBelow(rank, open, t, top) && !Grounded(f, rank, t)
      modifies this`gcmbid, this`visit, this`late, this`done
      ensures Fit2(open + {t}) && old(done) <= done && SameOn(old(gcmbid), gcmbid, old(done) + open + {t})
      ensures UsesSeen(S(), gcmbid, done, t, latebid, |f.use[t]|)
      decreases top - rank[t], 2
    {
      latebid := NONE;
      for k := 0 to |f.use[t]|
        invariant Fit2(open + {t}) && old(done) <= done && SameOn(old(gcmbid), gcmbid, old(done) + open + {t})
        invariant NONE <= latebid < |idom| && UsesSeen(S(), gcmbid, done, t, latebid, k)
      {
        ghost var g, d := gcmbid, done;
        var uselatebid := UseLate(t, k, open, top);
        var l := LcaBid(latebid, uselatebid);
        UsesSeenStep(S(), g, gcmbid, d, done, t, latebid, k, uselatebid, l);
        latebid := l;
      }
    }

    method UseLate(t: nat, k: nat, ghost open: set<nat>, ghost top: nat) returns (l: int)
      requires t < |f.def| && t !in open && Fit2(open + {t}) && k < |f.use[t]|
      requires RanksBelow(rank, open, t, top) && !Grounded(f, rank, t)
      modifies this`gcmbid, this`visit, this`late, this`done
      ensures Fit2(open + {t}) && old(done) <= done && SameOn(old(gcmbid), gcmbid, old(done) + open + {t})
      ensures NONE <= l < |idom| && Contributes(S(), gcmbid, t, k, l) && UserDone(S(), f.use[t][k], done)
      decreases top - rank[t], 1
    {
      assert f.UseOk(t, f.use[t][k]);
      match f.use[t][k] {
        case UPhi(p) => l := LatePhi(p, t, k);
        case UIns(i) => l := LateIns(i, t, k, open, top);
        case UJmp(b) => l := b;
      }
    }

    method LatePhi(p: nat, t: nat, ghost k: nat) returns (l: int)
      requires Fit() && S().Ok() && |gcmbid| == |f.def| && t < |f.def| && p < |f.phi| == |unused| && f.UseOk(t, UPhi(p))
      requires k < |f.use[t]| && f.use[t][k] == UPhi(p)
      requires unused[p] ==> !Live(S(), gcmbid, UPhi(p))
      ensures NONE <= l < |idom| && Contributes(S(), gcmbid, t, k, l)
    {
      if unused[p] {
        return NONE;
      }
      assert f.PhiOk(p);
      l := NONE;
      for n := 0 to |f.phi[p].arg|
        invariant NONE <= l < |idom| && PhiLca(S(), p, t, l, n)
      {
        if f.phi[p].arg[n] == Tmp(t) {
          var d := LcaBid(l, f.phi[p].pred[n]);
          PhiLcaStep(S(), p, t, l, n, d);
          l := d;
        }
      }
      assert l != NONE;
    }

    method LateIns(i: nat, t: nat, ghost k: nat, ghost open: set<nat>, ghost top: nat) returns (l: int)
      requires t < |f.def| && t !in open && Fit2(open + {t}) && f.UseOk(t, UIns(i)) && k < |f.use[t]|
      requires f.use[t][k] == UIns(i)
      requires RanksBelow(rank, open, t, top) && !Grounded(f, rank, t)
      modifies this`gcmbid, this`visit, this`late, this`done
      ensures Fit2(open + {t}) && old(done) <= done && SameOn(old(gcmbid), gcmbid, old(done) + open + {t})
      ensures NONE <= l < |idom| && Contributes(S(), gcmbid, t, k, l) && UserDone(S(), UIns(i), done)
      decreases top - rank[t], 0
    {
      assert f.InsOk(i);
      if f.ins[i].to.Tmp? {
        assert RankedAt(f, rank, f.ins[i].to.t);
        UserNotGrounded(f, rank, t, i);
      }
      l := SchedLate(f.ins[i].to, open + {t}, top);
      if f.ins[i].pinned {
        if l == NONE && f.ins[i].canElim {
          return NONE;
        }
        return f.ins[i].blk;
      }
      Placed(i);
    }

    /** An instruction that stays has its final block. */
    lemma Placed(i: nat)
      requires Fit() && S().Ok() && AllSettled(S(), gcmbid, late, done) && i < |f.ins| && f.InsOk(i)
      requires !f.ins[i].pinned && f.ins[i].to.t in done
      ensures NONE <= gcmbid[f.ins[i].to.t] < |idom|
    {
      var y := f.ins[i].to.t;
      assert Settled(S(), gcmbid, late, done, y) && EarlyAt(f, idom, rank, early, y);
    }

    method LateBlkPhi(p: nat, ghost top: nat)
      requires Fit2({}) && p < |f.phi| && forall x: nat :: x < |rank| ==> rank[x] < top
      modifies this`gcmbid, this`visit, this`late, this`done, this`unused
      ensures Fit2({}) && old(done) <= done && PhiReached(f, p, done)
    {
      assert f.PhiOk(p);
      var t := f.phi[p].to;
      var b := SchedLate(Tmp(t), {}, top);
      if b == NONE {
        assert Settled(S(), gcmbid, late, done, t) && f.TmpOk(t);
        unused := unused[p := true];
      }
    }

    method LatePhis(b: nat, ghost top: nat)
      requires Fit2({}) && forall x: nat :: x < |rank| ==> rank[x] < top
      modifies this`gcmbid, this`visit, this`late, this`done, this`unused
      ensures Fit2({}) && old(done) <= done
      ensures forall p: nat :: p < |f.phi| && f.phi[p].blk == b ==> PhiReached(f, p, done)
    {
      for p := 0 to |f.phi|
        invariant Fit2({}) && old(done) <= done
        invariant forall q: nat :: q < p && f.phi[q].blk == b ==> PhiReached(f, q, done)
      {
        if f.phi[p].blk == b {
          LateBlkPhi(p, top);
        }
      }
    }

    method LatePinned(b: nat, ghost top: nat)
      requires Fit2({}) && forall x: nat :: x < |rank| ==> rank[x] < top
      modifies this`gcmbid, this`visit, this`late, this`done
      ensures Fit2({}) && old(done) <= done
      ensures forall i: nat :: i < |f.ins| && f.ins[i].blk == b ==> PinnedReached(f, i, done)
    {
      for i := 0 to |f.ins|
        invariant Fit2({}) && old(done) <= done
        invariant forall j: nat :: j < i && f.ins[j].blk == b ==> PinnedReached(f, j, done)
      {
        if f.ins[i].blk == b && f.ins[i].pinned {
          assert f.InsOk(i);
          var r := SchedLate(f.ins[i].to, {}, top);
        }
      }
    }

    /** lateblk: the phis and the pinned instructions of block b. */
    method LateBlk(b: nat, ghost top: nat)
      requires Fit2({}) && AllReached(f, b, done) && forall x: nat :: x < |rank| ==> rank[x] < top
      modifies this`gcmbid, this`visit, this`late, this`done, this`unused
      ensures Fit2({}) && AllReached(f, b + 1, done)
    {
      LatePhis(b, top);
      LatePinned(b, top);
    }

    /**
     * gcm, up to the choice of the blocks. The placement is legal. Every instruction that may move and is not computed
     * from constants alone stands in the lowest block of least loop depth between its early block and the nearest block
     * above the uses that stay; those computed from constants stand in the start block, where the depth is least too.
     */
    method Gcm()
      requires Fit() && EarlyInv(f, idom, rank, gcmbid, {}) && done == {} && |late| == |f.def|
      requires |visit| == |f.def| && (forall x :: 0 <= x < |visit| ==> !visit[x])
      requires |unused| == |f.phi| && (forall p :: 0 <= p < |unused| ==> !unused[p])
      modifies this
      ensures Fit() && S().Ok() && Moved(S(), gcmbid, late)
    {
      EarlyPass();
      LatePass();
      EndOfLate();
      EndIsLegal(S(), gcmbid, late, done);
      FixedStay(S(), gcmbid, late, done);
      AllPlaced(S(), gcmbid, late, done);
      late := FinalUpTo(S(), gcmbid, late, done, |f.def|);
      forall x: nat | x < |f.def| && !f.Fixed(x) ensures LeastDepth(S(), gcmbid, late[x], x) {
        FinalIsLeast(S(), gcmbid, late[x], x);
      }
    }

    lemma EndOfLate()
      requires Fit2({}) && AllReached(f, |f.jmp|, done)
      ensures Finished(S(), gcmbid, late, done)
    {
      forall x: nat | x < |f.def| ensures if x in done then !Grounded(f, rank, x) else gcmbid[x] == early[x] {
        assert VisitOk(S(), gcmbid, visit, done, {}, x);
      }
    }

    method EarlyPass()
      requires Fit() && EarlyInv(f, idom, rank, gcmbid, {}) && done == {} && |late| == |f.def|
      requires |visit| == |f.def| && (forall x :: 0 <= x < |visit| ==> !visit[x])
      requires |unused| == |f.phi| && (forall p :: 0 <= p < |unused| ==> !unused[p])
      modifies this`gcmbid, this`early
      ensures Fit2({})
    {
      for b := 0 to |f.jmp|
        invariant EarlyInv(f, idom, rank, gcmbid, {}) && AllMarked(f, gcmbid, b)
      {
        EarlyBlk(b);
      }
      early := gcmbid;
      assert forall x: nat :: x < |f.def| ==> VisitOk(S(), gcmbid, visit, done, {}, x);
    }

    method LatePass()
      requires Fit2({}) && done == {}
      modifies this`gcmbid, this`visit, this`late, this`done, this`unused
      ensures Fit2({}) && AllReached(f, |f.jmp|, done)
    {
      ghost var top := Top(rank);
      for b := 0 to |f.jmp|
        invariant Fit2({}) && AllReached(f, b, done)
      {
        LateBlk(b, top);
      }
    }
  }

  /**
   * What gcm makes of a placement s.early before the late pass: late[x] is the nearest block above the uses of
   * x that stay.
   */
  ghost predicate Moved(s: Setting, place: seq<int>, late: seq<int>)
    requires s.Ok()
  {
    && |place| == |late| == |s.f.def| && Legal(s.f, s.t, place)
    && (forall x: nat :: x < |s.f.def| && s.f.Fixed(x) ==> place[x] == s.early[x])
    && forall x: nat :: x < |s.f.def| && !s.f.Fixed(x) ==>
        Final(s, place, late[x], x) && LeastDepth(s, place, late[x], x)
  }

  /** gcm with the passes it starts with, filldepth and fillloop, for a function with the graph g. */
  method GcmOf(f: Func, g: Graph, pred: seq<seq<nat>>, idom: seq<int>, ghost rank: seq<nat>, ghost home: seq<nat>)
    returns (place: seq<int>, ghost s: Setting, ghost late: seq<int>)
    requires IsDomTree(g, idom) && NoEntryToStart(g) && LoopDepth.PredsOk(g, pred) && |idom| == |pred|
    requires Context(f, idom, rank) && Homes(f, idom, home)
    ensures s.f == f && s.t == idom && s.Ok() && |s.loop| == |pred| && Moved(s, place, late)
    ensures forall b: nat :: b < |pred| ==> s.loop[b] == LoopDepth.Pow10(|LoopDepth.Headers(g, |pred|, b)|)
  {
    var order := seq(|idom|, i requires 0 <= i < |idom| => i as nat);
    forall b: nat | b < |idom| ensures b in order {
      assert order[b] == b;
    }
    var depth := new int[|idom|];
    FillDepth(idom, order, depth);
    var loop := new nat[|pred|];
    LoopDepth.FillLoop(g, pred, loop);
    forall b: nat | b < |pred| ensures loop[0] <= loop[b] {
      LoopDepth.StartIsShallow(g, b);
    }
    var m := new Motion(f, idom, depth[..], loop[..], rank, home);
    m.Gcm();
    place, s, late := m.gcmbid, m.S(), m.late;
  }

  lemma {:induction false} Top(rank: seq<nat>) returns (top: nat)
    ensures forall x: nat :: x < |rank| ==> rank[x] < top
  {
    if rank == [] {
      top := 0;
    } else {
      top := Top(rank[1..]);
      assert forall x: nat :: 0 < x < |rank| ==> rank[x] == rank[1..][x - 1];
      top := top + rank[0] + 1;
    }
  }

  /** The tree order is dominance by paths. */
  lemma AboveIsDominance(g: Graph, t: seq<int>, a: nat, b: nat)
    requires IsDomTree(g, t) && a < |t| && b < |t|
    ensures Linked(t) && (Above(t, a, b) <==> Dominates(g, a, b))
  {
    assert a in Chain(t, b) <==> Dominates(g, a, b);
  }
}
