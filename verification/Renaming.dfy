/** renblk of ssa.c: renaming over the dominator tree with lazily popped name stacks. */
module Renaming {
  import opened Cfg
  import opened Ir
  import opened Dominators
  import opened Frontiers
  import opened Liveness
  import LocalRenaming
  import PhiPlacement
  import opened Ssa

  // ----- name stacks -----

  /** A name of a variable and the block that pushed it. */
  datatype Name = Name(r: nat, b: nat)

  /** The name a stack gives at b: the topmost one whose block dominates b. */
  ghost function Peek(t: seq<int>, s: seq<Name>, b: nat): Ref
    requires Tree(t) && b < |t|
  {
    if s == [] then Undef else if s[0].b in Chain(t, b) then Tmp(s[0].r) else Peek(t, s[1..], b)
  }

  /** getstk: names whose block does not dominate b are dropped; no dominator of b can need them. */
  method GetStk(g: Graph, idom: seq<int>, s0: seq<Name>, b: nat) returns (r: Ref, s: seq<Name>)
    requires IsDomTree(g, idom) && b < |idom| && forall n :: n in s0 ==> n.b < |idom|
    ensures r == Peek(idom, s0, b)
    ensures forall a: nat :: a in Chain(idom, b) ==> Peek(idom, s, a) == Peek(idom, s0, a)
    ensures forall n :: n in s ==> n in s0
  {
    s := s0;
    while s != []
      invariant Peek(idom, s, b) == Peek(idom, s0, b)
      invariant forall a: nat :: a in Chain(idom, b) ==> Peek(idom, s, a) == Peek(idom, s0, a)
      invariant forall n :: n in s ==> n in s0
      decreases |s|
    {
      var d := Dom(g, idom, s[0].b, b);
      if d {
        return Tmp(s[0].r), s;
      }
      forall a: nat | a in Chain(idom, b) ensures Peek(idom, s[1..], a) == Peek(idom, s, a) {
        ChainOf(idom, b, a);
      }
      s := s[1..];
    }
    r := Undef;
  }

  /** At a child c of b, a stack without names from below c gives what it gives at b. */
  lemma {:induction false} PeekChild(t: seq<int>, s: seq<Name>, b: nat, c: nat)
    requires Tree(t) && c < |t| && t[c] == b && c > 0
    requires forall n :: n in s ==> n.b < |t| && c !in Chain(t, n.b)
    ensures Peek(t, s, c) == Peek(t, s, b)
  {
    if s != [] && s[0].b !in Chain(t, c) {
      PeekChild(t, s[1..], b, c);
    }
  }

  /** Names pushed in b are invisible at the strict dominators of b. */
  lemma PeekAbove(t: seq<int>, s: seq<Name>, r: nat, b: nat, a: nat)
    requires Tree(t) && b < |t| && a in Chain(t, b) && a != b
    ensures Peek(t, [Name(r, b)] + s, a) == Peek(t, s, a)
  {
    assert ([Name(r, b)] + s)[1..] == s;
  }

  // ----- one block -----

  /** The name of t in front of instruction i, when e gives the names at the head of the block. */
  ghost function StackName(mid: seq<Ins>, code: seq<Ins>, e: map<nat, Ref>, t: nat, i: nat): Ref
    requires i <= |mid| == |code| && t in e
  {
    if LastDef(mid, t, i) >= 0 then code[LastDef(mid, t, i)].to else e[t]
  }

  ghost function StackSubst(mid: seq<Ins>, code: seq<Ins>, e: map<nat, Ref>, i: nat, r: Ref): Ref
    requires i <= |mid| == |code|
  {
    if r.Tmp? && r.t in e then StackName(mid, code, e, r.t, i) else r
  }

  ghost predicate StackDef(x: Ref, y: Ref, e: map<nat, Ref>, ntmp: nat, owner: map<nat, nat>) {
    if x.Tmp? && x.t in e then y.Tmp? && y.t >= ntmp && y.t in owner && owner[y.t] == x.t else y == x
  }

  /** Instruction i of the code has been renamed through the stacks. */
  ghost predicate StackIns(mid: seq<Ins>, code: seq<Ins>, e: map<nat, Ref>, i: nat, ntmp: nat, owner: map<nat, nat>)
    requires i < |mid| == |code|
  {
    var x, y := mid[i], code[i];
    && y.op == x.op && y.arg0 == StackSubst(mid, code, e, i, x.arg0) && y.arg1 == StackSubst(mid, code, e, i, x.arg1)
    && StackDef(x.to, y.to, e, ntmp, owner)
  }

  ghost predicate Extends(owner: map<nat, nat>, owner': map<nat, nat>) {
    forall n :: n in owner ==> n in owner' && owner'[n] == owner[n]
  }

  /** What phiins left for a block: the local names of `local` are not renamed again. */
  ghost predicate AfterPhiIns(c: Conversion, mid: seq<Ins>, j: Ref, b: nat, local: map<nat, nat>)
    requires c.Shapes() && b < |c.f.ins|
  {
    LocalRenaming.LocalBlock(c.f.ins[b], c.f.jmp[b], mid, j, PhiPlacement.DoneVars(c.skip, c.out[b], c.ntmp), c.ntmp, local)
  }

  /** The renamed variables: those with a definition live at the end of some block. */
  ghost predicate StackedVars(c: Conversion)
    requires c.Shapes()
  {
    && (forall t :: t in c.vis ==> t < c.ntmp && t !in c.skip)
    && (forall t: nat, b: nat :: t < c.ntmp && t !in c.skip && b < |c.f.ins| && c.ExitDef(t, b) >= 0 ==> t in c.vis)
    && (forall t: nat, b: nat :: b < |c.f.ins| && c.HasPhi(t, b) ==> t in c.vis)
  }

  lemma SameStackedVars(c: Conversion, c1: Conversion)
    requires c.SameInput(c1) && StackedVars(c)
    ensures StackedVars(c1)
  {
    forall t: nat, b: nat | t < c1.ntmp && t !in c1.skip && b < |c1.f.ins| && c1.ExitDef(t, b) >= 0
      ensures t in c1.vis
    {
      assert c.ExitDef(t, b) >= 0;
    }
    forall t: nat, b: nat | b < |c1.f.ins| && c1.HasPhi(t, b) ensures t in c1.vis {
      assert c.HasPhi(t, b);
    }
  }

  lemma {:induction false} Unstacked(c: Conversion, t: nat, b: nat)
    requires c.Shapes() && StackedVars(c) && b < |c.f.ins| && t < c.ntmp && t !in c.skip && t !in c.vis
    ensures c.Entry(t, b) == c.Top(t, b) == Tmp(t)
    decreases b
  {
    if b > 0 { Unstacked(c, t, c.idom[b]); }
  }

  /** Local renaming followed by stack renaming puts the current name at every use. */
  lemma LiftRef(c: Conversion, mid: seq<Ins>, j: Ref, b: nat, i: nat, local: map<nat, nat>, e: map<nat, Ref>, r: Ref)
    requires c.Shapes() && StackedVars(c) && b < |c.f.ins| && i <= |c.f.ins[b]| && ValidRef(r, c.ntmp)
    requires AfterPhiIns(c, mid, j, b, local) && e.Keys == c.vis
    requires forall t :: t in c.vis ==> e[t] == c.Entry(t, b)
    requires forall k :: 0 <= k < |mid| ==> StackIns(mid, c.h.ins[b], e, k, c.ntmp, c.owner)
    ensures
      StackSubst(mid, c.h.ins[b], e, i,
        LocalRenaming.Subst(c.f.ins[b], mid, PhiPlacement.DoneVars(c.skip, c.out[b], c.ntmp), i, r)) == c.Subst(r, b, i)
  {
    if r.Tmp? {
      var t, code0, done := r.t, c.f.ins[b], PhiPlacement.DoneVars(c.skip, c.out[b], c.ntmp);
      var d := LastDef(code0, t, i);
      if t in done {
        if d >= 0 {
          assert LocalRenaming.LocalIns(code0, mid, done, d, c.ntmp, local) && StackIns(mid, c.h.ins[b], e, d, c.ntmp, c.owner);
        } else {
          NoDefsLeft(c, mid, j, b, local, t, i);
          if t !in c.vis { Unstacked(c, t, b); }
        }
      } else {
        LocalRenaming.SameDefs(code0, mid, t, i, done, c.ntmp, local);
        if t !in c.skip && t !in c.vis {
          Unstacked(c, t, b);
          if d >= 0 { ExitOf(code0, t, i); }
        }
      }
    }
  }

  lemma {:induction false} ExitOf(code: seq<Ins>, t: nat, i: nat)
    requires i <= |code| && LastDef(code, t, i) >= 0
    ensures LastDef(code, t, |code|) >= 0
    decreases |code| - i
  {
    if i < |code| { ExitOf(code, t, i + 1); }
  }

  lemma {:induction false} NoDefsLeft(c: Conversion, mid: seq<Ins>, j: Ref, b: nat, local: map<nat, nat>, t: nat,
                                      i: nat)
    requires c.Shapes() && b < |c.f.ins| && i <= |c.f.ins[b]| && AfterPhiIns(c, mid, j, b, local)
    requires t in PhiPlacement.DoneVars(c.skip, c.out[b], c.ntmp)
    ensures LastDef(mid, t, i) == -1
  {
    if i > 0 {
      assert LocalRenaming.LocalIns(c.f.ins[b], mid, PhiPlacement.DoneVars(c.skip, c.out[b], c.ntmp), i - 1, c.ntmp, local);
      NoDefsLeft(c, mid, j, b, local, t, i - 1);
    }
  }

  /** A block renamed through the stacks satisfies the specification of SSA construction. */
  lemma LiftBlock(c: Conversion, mid: seq<Ins>, j: Ref, b: nat, local: map<nat, nat>, e: map<nat, Ref>)
    requires c.Shapes() && StackedVars(c) && b < |c.f.ins| && AfterPhiIns(c, mid, j, b, local) && e.Keys == c.vis
    requires forall t :: t in c.vis ==> e[t] == c.Entry(t, b)
    requires forall k :: 0 <= k < |mid| ==> StackIns(mid, c.h.ins[b], e, k, c.ntmp, c.owner)
    requires c.h.jmp[b] == StackSubst(mid, c.h.ins[b], e, |mid|, j) && Extends(local, c.owner)
    ensures forall i :: 0 <= i < |mid| ==> c.RenamedIns(b, i)
    ensures c.h.jmp[b] == c.Subst(c.f.jmp[b], b, |c.f.ins[b]|)
    ensures forall t :: t in c.vis ==> StackName(mid, c.h.ins[b], e, t, |mid|) == c.Top(t, b)
  {
    var code0, done := c.f.ins[b], PhiPlacement.DoneVars(c.skip, c.out[b], c.ntmp);
    forall i | 0 <= i < |mid| ensures c.RenamedIns(b, i) {
      assert LocalRenaming.LocalIns(code0, mid, done, i, c.ntmp, local) && StackIns(mid, c.h.ins[b], e, i, c.ntmp, c.owner);
      assert ValidIns(code0[i], c.ntmp);
      LiftRef(c, mid, j, b, i, local, e, code0[i].arg0);
      LiftRef(c, mid, j, b, i, local, e, code0[i].arg1);
      LiftDef(c, mid, j, b, i, local, e);
    }
    LiftRef(c, mid, j, b, |mid|, local, e, c.f.jmp[b]);
    forall t | t in c.vis ensures StackName(mid, c.h.ins[b], e, t, |mid|) == c.Top(t, b) {
      if t in done {
        NoDefsLeft(c, mid, j, b, local, t, |mid|);
      } else {
        LocalRenaming.SameDefs(code0, mid, t, |mid|, done, c.ntmp, local);
      }
    }
  }

  lemma LiftDef(c: Conversion, mid: seq<Ins>, j: Ref, b: nat, i: nat, local: map<nat, nat>, e: map<nat, Ref>)
    requires c.Shapes() && StackedVars(c) && b < |c.f.ins| && AfterPhiIns(c, mid, j, b, local) && e.Keys == c.vis
    requires i < |mid| && StackIns(mid, c.h.ins[b], e, i, c.ntmp, c.owner) && Extends(local, c.owner)
    ensures c.RenamedDef(c.f.ins[b][i].to, c.h.ins[b][i].to)
  {
    var code0, done := c.f.ins[b], PhiPlacement.DoneVars(c.skip, c.out[b], c.ntmp);
    assert LocalRenaming.LocalIns(code0, mid, done, i, c.ntmp, local) && ValidIns(code0[i], c.ntmp);
    if code0[i].to.Tmp? {
      var t := code0[i].to.t;
      if t !in done && t !in c.skip {
        assert LastDef(code0, t, i + 1) == i;
        ExitOf(code0, t, i + 1);
        assert c.ExitDef(t, b) >= 0;
      }
    }
  }

  /** Along the way, only names of b are pushed, and what the strict dominators of b see does not change. */
  ghost predicate Pushed(idom: seq<int>, stk0: map<nat, seq<Name>>, stk: map<nat, seq<Name>>, vis: set<nat>, b: nat)
    requires Tree(idom) && b < |idom|
  {
    && vis <= stk0.Keys && vis <= stk.Keys
    && (forall t, a: nat :: t in vis && a in Chain(idom, b) && a != b ==>
        Peek(idom, stk[t], a) == Peek(idom, stk0[t], a))
    && (forall t, n :: t in vis && n in stk[t] ==> n in stk0[t] || n.b == b)
  }

  ghost predicate GoodStacks(stk: map<nat, seq<Name>>, vis: set<nat>, nblk: nat) {
    vis <= stk.Keys && forall t, n :: t in vis && n in stk[t] ==> n.b < nblk
  }

  lemma PushOne(idom: seq<int>, stk: map<nat, seq<Name>>, vis: set<nat>, t: nat, r: nat, b: nat)
    requires Tree(idom) && b < |idom| && GoodStacks(stk, vis, |idom|) && t in vis
    ensures GoodStacks(stk[t := [Name(r, b)] + stk[t]], vis, |idom|)
    ensures Pushed(idom, stk, stk[t := [Name(r, b)] + stk[t]], vis, b)
  {
    forall a: nat | a in Chain(idom, b) && a != b {
      PeekAbove(idom, stk[t], r, b, a);
    }
  }

  lemma PushedTrans(idom: seq<int>, s0: map<nat, seq<Name>>, s1: map<nat, seq<Name>>, s2: map<nat, seq<Name>>,
                    vis: set<nat>, b: nat)
    requires Tree(idom) && b < |idom| && Pushed(idom, s0, s1, vis, b) && Pushed(idom, s1, s2, vis, b)
    ensures Pushed(idom, s0, s2, vis, b)
  {}

  /** visit leads from a variable that is renamed, or from one of its names, to the variable. */
  ghost predicate GoodVisit(visit: map<nat, nat>, vis: set<nat>, ntmp0: nat, ntmp: nat, owner: map<nat, nat>,
                            local: map<nat, nat>) {
    && (forall t :: t in vis ==> t in visit && visit[t] == t)
    && (forall n :: n in visit && n !in vis ==>
          ntmp0 <= n < ntmp && n !in local && n in owner && owner[n] == visit[n] && visit[n] in vis)
  }

  /** The operands that phiins left: old temporaries or local names. */
  ghost predicate MidRef(r: Ref, ntmp0: nat, local: map<nat, nat>) {
    r.Tmp? ==> r.t < ntmp0 || r.t in local
  }

  /** The first i instructions of mid have become those of code, and the stacks give the current names. */
  ghost predicate CodeRenamed(idom: seq<int>, mid: seq<Ins>, code: seq<Ins>, e: map<nat, Ref>, stk: map<nat, seq<Name>>,
                              owner: map<nat, nat>, b: nat, i: nat, ntmp: nat) {
    && Tree(idom) && b < |idom| && i <= |mid| == |code| && e.Keys <= stk.Keys
    && (forall k :: 0 <= k < i ==> StackIns(mid, code, e, k, ntmp, owner))
    && code[i..] == mid[i..]
    && (forall t :: t in e ==> Peek(idom, stk[t], b) == StackName(mid, code, e, t, i))
  }

  lemma CodeStep(idom: seq<int>, mid: seq<Ins>, code: seq<Ins>, e: map<nat, Ref>, s0: map<nat, seq<Name>>,
                 s1: map<nat, seq<Name>>,
                 o0: map<nat, nat>, o1: map<nat, nat>, b: nat, i: nat, ntmp: nat, y: Ins)
    requires CodeRenamed(idom, mid, code, e, s0, o0, b, i, ntmp) && i < |mid| && e.Keys <= s1.Keys && Extends(o0, o1)
    requires var x := mid[i];
      && y.op == x.op && y.arg0 == StackSubst(mid, code, e, i, x.arg0) && y.arg1 == StackSubst(mid, code, e, i, x.arg1)
      && StackDef(x.to, y.to, e, ntmp, o1)
    requires forall t :: t in e ==> Peek(idom, s1[t], b) == if mid[i].to == Tmp(t) then y.to else Peek(idom, s0[t], b)
    ensures CodeRenamed(idom, mid, code[i := y], e, s1, o1, b, i + 1, ntmp)
  {
    var code1 := code[i := y];
    forall k | 0 <= k < i + 1 ensures StackIns(mid, code1, e, k, ntmp, o1) {
      if k < i {
        assert StackIns(mid, code, e, k, ntmp, o0);
      }
    }
    forall t | t in e ensures Peek(idom, s1[t], b) == StackName(mid, code1, e, t, i + 1) {
      assert Peek(idom, s0[t], b) == StackName(mid, code, e, t, i);
    }
  }

  /** Every new name has one definition: an instruction or, at a negative index, a phi. */
  ghost predicate Sites(ins: seq<seq<Ins>>, phi: seq<seq<Phi>>, ntmp0: nat, ntmp: nat, site: map<nat, (int, int)>) {
    && PhiPlacement.OneSite(ins, ntmp0, ntmp, site)
    && forall b, k :: 0 <= b < |phi| && 0 <= k < |phi[b]| ==>
        PhiPlacement.AtSite(phi[b][k].to, b, -1 - k, ntmp0, ntmp, site)
  }

  /** Giving instruction i of b a definition that is new, or the one it had. */
  lemma SitesStep(ins: seq<seq<Ins>>, phi: seq<seq<Phi>>, ntmp0: nat, ntmp: nat, site: map<nat, (int, int)>, b: nat,
                  i: nat, y: Ins)
    requires Sites(ins, phi, ntmp0, ntmp, site) && b < |ins| && i < |ins[b]|
    ensures y.to == ins[b][i].to ==> Sites(ins[b := ins[b][i := y]], phi, ntmp0, ntmp, site)
    ensures y.to == Tmp(ntmp) ==> Sites(ins[b := ins[b][i := y]], phi, ntmp0, ntmp + 1, site[ntmp := (b, i)])
  {
    var ins1: seq<seq<Ins>> := ins[b := ins[b][i := y]];
    forall c, k | 0 <= c < |ins1| && 0 <= k < |ins1[c]| && ins1[c][k].to.Tmp? && (c, k) != (b, i)
      ensures PhiPlacement.AtSite(ins1[c][k].to.t, c, k, ntmp0, ntmp, site)
    {
      assert ins1[c][k] == ins[c][k];
    }
  }

  /** The child of b on the way down to x. */
  ghost function ChildAbove(t: seq<int>, b: int, x: int): (c: int)
    requires Tree(t) && 0 <= b < x < |t| && b in Chain(t, x)
    ensures b < c <= x && t[c] == b && c in Chain(t, x)
    decreases x
  {
    if t[x] == b then x else ChildAbove(t, b, t[x])
  }

  lemma {:induction false} ChildIsUnique(t: seq<int>, b: int, x: int, c: int)
    requires Tree(t) && 0 <= b < x < |t| && b in Chain(t, x) && c in Chain(t, x) && t[c] == b
    ensures ChildAbove(t, b, x) == c
    decreases x
  {
    if c != x {
      ChainOf(t, t[x], c);
      assert t[x] != b;
      ChildIsUnique(t, b, t[x], c);
    }
  }

  // ----- the stacks during the walk of a subtree -----

  /** What the walk of the subtree of b leaves on the stacks, as seen from above b. */
  ghost predicate SubtreeWalked(idom: seq<int>, vis: set<nat>, s0: map<nat, seq<Name>>, s1: map<nat, seq<Name>>, b: nat)
    requires Tree(idom) && b < |idom|
  {
    && vis <= s0.Keys && vis <= s1.Keys
    && (forall t, a: nat :: t in vis && a in Chain(idom, b) && a != b ==> Peek(idom, s1[t], a) == Peek(idom, s0[t], a))
    && (forall t, n :: t in vis && n in s1[t] ==> n in s0[t] || (n.b < |idom| && b in Chain(idom, n.b)))
  }

  /** No name was pushed in the subtree of b. */
  ghost predicate Untouched(idom: seq<int>, vis: set<nat>, s: map<nat, seq<Name>>, b: nat)
    requires Tree(idom) && b < |idom|
  {
    vis <= s.Keys && forall t, n :: t in vis && n in s[t] ==> n.b < |idom| && b !in Chain(idom, n.b)
  }

  /** After the child k of b has been walked, from s1 to s2. */
  lemma WalkedChild(idom: seq<int>, vis: set<nat>, b: nat, k: nat, s0: map<nat, seq<Name>>, s1: map<nat, seq<Name>>,
                    s2: map<nat, seq<Name>>)
    requires Tree(idom) && b < k < |idom| && idom[k] == b && SubtreeWalked(idom, vis, s0, s1, b)
    requires SubtreeWalked(idom, vis, s1, s2, k)
    ensures SubtreeWalked(idom, vis, s0, s2, b)
    ensures forall t :: t in vis ==> Peek(idom, s2[t], b) == Peek(idom, s1[t], b)
  {
    assert Chain(idom, k) == {k} + Chain(idom, b);
    forall t, n | t in vis && n in s2[t] && n !in s0[t] ensures n.b < |idom| && b in Chain(idom, n.b) {
      if n !in s1[t] { ChainOf(idom, n.b, k); }
    }
  }

  /** Its siblings are still untouched. */
  lemma UntouchedSibling(idom: seq<int>, vis: set<nat>, b: nat, k: nat, j: nat, s1: map<nat, seq<Name>>,
                         s2: map<nat, seq<Name>>)
    requires Tree(idom) && b < k < |idom| && b < j < |idom| && idom[k] == idom[j] == b && j != k
    requires SubtreeWalked(idom, vis, s1, s2, k) && Untouched(idom, vis, s1, j)
    ensures Untouched(idom, vis, s2, j)
  {
    forall t, n | t in vis && n in s2[t] ensures n.b < |idom| && j !in Chain(idom, n.b) {
      if n !in s1[t] && j in Chain(idom, n.b) {
        ChainOf(idom, n.b, k);
        ChildIsUnique(idom, b, n.b, k);
        ChildIsUnique(idom, b, n.b, j);
      }
    }
  }

  // ----- the phis of one block -----

  /** The first k phis have new names, pushed on the stacks. */
  ghost predicate PhisRenamed(idom: seq<int>, ps0: seq<Phi>, ps: seq<Phi>, pv: seq<nat>, s0: map<nat, seq<Name>>,
                              stk: map<nat, seq<Name>>,
                              visit: map<nat, nat>, vis: set<nat>, b: nat, k: nat, ntmp0: nat) {
    && Tree(idom) && b < |idom| && |ps| == |ps0| == |pv| && k <= |pv| && vis <= s0.Keys && vis <= stk.Keys
    && (forall l :: 0 <= l < |pv| ==>
        ps[l].args == ps0[l].args && ps[l].to in visit && visit[ps[l].to] == pv[l] && pv[l] in vis)
    && (forall l :: 0 <= l < k ==> ps[l].to >= ntmp0)
    && (forall l :: k <= l < |pv| ==> ps[l].to == pv[l])
    && (forall t :: t in vis ==>
          Peek(idom, stk[t], b) == if t in pv && IndexOf(pv, t) < k then Tmp(ps[IndexOf(pv, t)].to) else Peek(idom, s0[t], b))
  }

  lemma PhiStep(idom: seq<int>, ps0: seq<Phi>, ps: seq<Phi>, pv: seq<nat>, s0: map<nat, seq<Name>>,
                s1: map<nat, seq<Name>>, s2: map<nat, seq<Name>>,
                visit: map<nat, nat>, vis: set<nat>, b: nat, k: nat, ntmp0: nat, n: nat)
    requires PhisRenamed(idom, ps0, ps, pv, s0, s1, visit, vis, b, k, ntmp0) && k < |pv| && n >= ntmp0 && n !in visit
    requires forall l, l' :: 0 <= l < l' < |pv| ==> pv[l] != pv[l']
    requires s2 == s1[pv[k] := [Name(n, b)] + s1[pv[k]]]
    ensures PhisRenamed(idom, ps0, ps[k := ps[k].(to := n)], pv, s0, s2, visit[n := pv[k]], vis, b, k + 1, ntmp0)
  {
    var ps1 := ps[k := ps[k].(to := n)];
    forall t | t in vis ensures Peek(idom, s2[t], b) ==
      if t in pv && IndexOf(pv, t) < k + 1 then Tmp(ps1[IndexOf(pv, t)].to) else Peek(idom, s0[t], b)
    {
      if t == pv[k] {
        assert IndexOf(pv, t) == k;
      }
    }
  }

  lemma SitesPhi(ins: seq<seq<Ins>>, phi: seq<seq<Phi>>, ntmp0: nat, ntmp: nat, site: map<nat, (int, int)>, b: nat,
                 k: nat, p: Phi)
    requires Sites(ins, phi, ntmp0, ntmp, site) && b < |phi| && k < |phi[b]| && p.to == ntmp
    ensures Sites(ins, phi[b := phi[b][k := p]], ntmp0, ntmp + 1, site[ntmp := (b, -1 - k)])
  {
    var phi1: seq<seq<Phi>> := phi[b := phi[b][k := p]];
    forall c, l | 0 <= c < |phi1| && 0 <= l < |phi1[c]| && (c, l) != (b, k)
      ensures PhiPlacement.AtSite(phi1[c][l].to, c, -1 - l, ntmp0, ntmp, site)
    {
      assert phi1[c][l] == phi[c][l];
    }
  }

  // ----- progress over the dominator tree -----

  ghost predicate DoneBlock(c: Conversion, x: nat)
    requires c.Shapes() && x < |c.f.ins|
  {
    && (forall i :: 0 <= i < |c.f.ins[x]| ==> c.RenamedIns(x, i))
    && c.h.jmp[x] == c.Subst(c.f.jmp[x], x, |c.f.ins[x]|)
    && (forall k :: 0 <= k < |c.pv[x]| ==> c.h.phi[x][k].to >= c.ntmp && c.Owned(c.h.phi[x][k].to, c.pv[x][k]))
  }

  ghost predicate FreshBlock(c0: Conversion, c: Conversion, x: nat)
    requires c0.SameInput(c) && x < |c.f.ins|
  {
    && c.h.ins[x] == c0.h.ins[x] && c.h.jmp[x] == c0.h.jmp[x]
    && (forall k :: 0 <= k < |c.pv[x]| ==> c.h.phi[x][k].to == c.pv[x][k])
  }

  /** The phi has an argument for exactly the processed predecessors, each the name at that block's end. */
  ghost predicate PhiArgs(c: Conversion, done: set<nat>, x: nat, k: nat)
    requires c.Shapes() && x < |c.f.ins| && k < |c.pv[x]|
  {
    forall p: nat :: (p in c.h.phi[x][k].args <==> p in done && c.f.g.Edge(p, x)) &&
      (p in c.h.phi[x][k].args ==> c.h.phi[x][k].args[p] == c.Top(c.pv[x][k], p))
  }

  /** The blocks of `done`, an upper part of the tree, have been renamed; the others are as phiins left them. */
  ghost predicate Progress(c0: Conversion, c: Conversion, done: set<nat>) {
    && c0.SameInput(c)
    && (forall x: nat :: x in done ==> x < |c.f.ins| && DoneBlock(c, x) && (x > 0 ==> c.idom[x] in done))
    && (forall x: nat :: x < |c.f.ins| && x !in done ==> FreshBlock(c0, c, x))
    && (forall x: nat, k :: x < |c.f.ins| && 0 <= k < |c.pv[x]| ==> PhiArgs(c, done, x, k))
  }

  lemma {:induction false} ChainDone(c: Conversion, done: set<nat>, x: nat, a: nat)
    requires c.Shapes() && x in done && x < |c.f.ins| && a in Chain(c.idom, x)
    requires forall y: nat :: y in done && 0 < y < |c.f.ins| ==> c.idom[y] in done
    ensures a in done
    decreases x
  {
    if a != x { ChainDone(c, done, c.idom[x], a); }
  }

  /** Renamed blocks stay right while definitions outside the processed part of the tree change. */
  lemma DoneStays(c: Conversion, c1: Conversion, done: set<nat>, x: nat)
    requires c.SameInput(c1) && x in done && x < |c.f.ins| && Extends(c.owner, c1.owner)
    requires forall y: nat :: y in done && 0 < y < |c.f.ins| ==> c.idom[y] in done
    requires forall y: nat :: y in done && y < |c.f.ins| ==> c.SameDefs(c1, y)
    ensures forall t :: c1.Top(t, x) == c.Top(t, x)
    ensures DoneBlock(c, x) && c1.h.ins[x] == c.h.ins[x] && c1.h.jmp[x] == c.h.jmp[x] ==> DoneBlock(c1, x)
  {
    forall a: nat | a in Chain(c.idom, x) ensures c.SameDefs(c1, a) {
      ChainDone(c, done, x, a);
    }
    forall t {
      c.SameNames(c1, t, x);
    }
    if DoneBlock(c, x) && c1.h.ins[x] == c.h.ins[x] && c1.h.jmp[x] == c.h.jmp[x] {
      forall i | 0 <= i < |c.f.ins[x]| ensures c1.RenamedIns(x, i) {
        assert c.RenamedIns(x, i);
      }
    }
  }

  /**
   * The only differences between c and c1: block b has been renamed and has given its successors' phis their
   * arguments.
   */
  ghost predicate OneBlock(c: Conversion, c1: Conversion, b: nat)
    requires c.SameInput(c1) && b < |c.f.ins|
  {
    && Extends(c.owner, c1.owner)
    && (forall x :: 0 <= x < |c.f.ins| && x != b ==> c1.h.ins[x] == c.h.ins[x] && c1.h.jmp[x] == c.h.jmp[x])
    && (forall x: nat, k :: x < |c.f.ins| && x != b && 0 <= k < |c.pv[x]| ==> c1.h.phi[x][k].to == c.h.phi[x][k].to)
    && (forall x: nat, k :: x < |c.f.ins| && 0 <= k < |c.pv[x]| ==>
          c1.h.phi[x][k].args ==
            if c.f.g.Edge(b, x) then c.h.phi[x][k].args[b := c1.Top(c.pv[x][k], b)] else c.h.phi[x][k].args)
  }

  lemma ProgressStep(c0: Conversion, c: Conversion, c1: Conversion, done: set<nat>, b: nat)
    requires Progress(c0, c, done) && c.SameInput(c1) && b < |c.f.ins| && b !in done && (b > 0 ==> c.idom[b] in done)
    requires OneBlock(c, c1, b) && DoneBlock(c1, b)
    ensures Progress(c0, c1, done + {b})
  {
    forall y: nat | y in done && y < |c.f.ins| ensures c.SameDefs(c1, y) {}
    forall x: nat | x in done ensures DoneBlock(c1, x) && forall t :: c1.Top(t, x) == c.Top(t, x) {
      DoneStays(c, c1, done, x);
    }
    forall x: nat, k | x < |c.f.ins| && 0 <= k < |c.pv[x]| ensures PhiArgs(c1, done + {b}, x, k) {
      assert PhiArgs(c, done, x, k);
    }
    forall x: nat | x < |c.f.ins| && x !in done + {b} ensures FreshBlock(c0, c1, x) {
      assert FreshBlock(c0, c, x);
    }
  }

  class Renamer {
    const g: Graph
    const idom: seq<int>
    const dom: seq<int>
    const dlink: seq<int>
    ghost const c0: Conversion
    ghost const local: map<nat, nat>
    var phi: seq<seq<Phi>>
    var ins: seq<seq<Ins>>
    var jmp: seq<Ref>
    var ntmp: nat
    var visit: map<nat, nat>
    var stk: map<nat, seq<Name>>
    ghost var owner: map<nat, nat>
    ghost var site: map<nat, (int, int)>

    constructor (ghost c: Conversion, dom: seq<int>, dlink: seq<int>, phi: seq<seq<Phi>>, ins: seq<seq<Ins>>,
                 jmp: seq<Ref>, ntmp: nat,
                 g: Graph, idom: seq<int>, vis: set<nat>, ghost site: map<nat, (int, int)>)
      ensures this.g == g && this.idom == idom && this.dom == dom && this.dlink == dlink && c0 == c && local == c.owner
      ensures this.phi == phi && this.ins == ins && this.jmp == jmp && this.ntmp == ntmp && owner == c.owner
      ensures this.site == site
      ensures visit == (map t | t in vis :: t) && stk == map t | t in vis :: []
    {
      this.g, this.idom, this.dom, this.dlink := g, idom, dom, dlink;
      this.phi, this.ins, this.jmp, this.ntmp := phi, ins, jmp, ntmp;
      visit, stk := map t | t in vis :: t, map t | t in vis :: [];
      c0, local, owner, this.site := c, c.owner, c.owner, site;
    }

    /** What does not change: the tree, and the result of phiins held in c0. */
    ghost predicate Base() {
      && c0.Shapes() && StackedVars(c0) && c0.f.g == g && c0.idom == idom && IsDomTree(g, idom)
      && IsKids(idom, |idom|, dom, dlink)
      && (forall b: nat :: b < |idom| ==> AfterPhiIns(c0, c0.h.ins[b], c0.h.jmp[b], b, local))
      && (forall n :: n in local ==> n >= c0.ntmp)
      && (forall b, k :: 0 <= b < |idom| && 0 <= k < |c0.pv[b]| ==> c0.pv[b][k] in c0.vis)
      && (forall b, k, l :: 0 <= b < |idom| && 0 <= k < l < |c0.pv[b]| ==> c0.pv[b][k] != c0.pv[b][l])
    }

    ghost predicate Names()
      reads this
    {
      && ntmp >= c0.ntmp && Extends(local, owner) && PhiPlacement.OldNames(owner, c0.ntmp, ntmp)
      && GoodStacks(stk, c0.vis, |idom|) && GoodVisit(visit, c0.vis, c0.ntmp, ntmp, owner, local)
    }

    /** rendef: a definition of a renamed variable gets a new name, pushed on the variable's stack. */
    method RenDef(r: Ref, b: nat, ghost at: (int, int)) returns (r': Ref)
      requires Base() && Names() && b < |idom| && MidRef(r, c0.ntmp, local)
      modifies this`ntmp, this`visit, this`stk, this`owner, this`site
      ensures Names() && Extends(old(visit), visit) && Extends(old(owner), owner)
      ensures Pushed(idom, old(stk), stk, c0.vis, b)
      ensures if r.Tmp? && r.t in c0.vis
        then r' == Tmp(old(ntmp)) && ntmp == old(ntmp) + 1 && owner == old(owner)[old(ntmp) := r.t] &&
             site == old(site)[old(ntmp) := at] && visit == old(visit)[old(ntmp) := r.t] &&
             stk == old(stk)[r.t := [Name(old(ntmp), b)] + old(stk)[r.t]]
        else r' == r && ntmp == old(ntmp) && owner == old(owner) && site == old(site) && visit == old(visit) && stk == old(stk)
    {
      r' := r;
      if r.Tmp? && r.t in visit {
        var t := r.t;
        assert t in c0.vis;
        r' := Tmp(ntmp);
        visit := visit[ntmp := t];
        PushOne(idom, stk, c0.vis, t, ntmp, b);
        stk := stk[t := [Name(ntmp, b)] + stk[t]];
        owner, site := owner[ntmp := t], site[ntmp := at];
        ntmp := ntmp + 1;
      }
    }

    /** The replacement of a use by the name on top of its variable's stack. */
    method RenUse(r: Ref, b: nat) returns (r': Ref)
      requires Base() && Names() && b < |idom| && MidRef(r, c0.ntmp, local)
      modifies this`stk
      ensures Names() && Pushed(idom, old(stk), stk, c0.vis, b)
      ensures forall t :: t in c0.vis ==> Peek(idom, stk[t], b) == Peek(idom, old(stk)[t], b)
      ensures r' == if r.Tmp? && r.t in c0.vis then Peek(idom, old(stk)[r.t], b) else r
    {
      r' := r;
      if r.Tmp? && r.t in visit {
        var s;
        assert r.t in c0.vis;
        r', s := GetStk(g, idom, stk[r.t], b);
        stk := stk[r.t := s];
      }
    }

    /** The instruction loop of renblk, up to instruction i; e gives the names at the head of b. */
    ghost predicate CodeUpTo(b: nat, e: map<nat, Ref>, i: nat)
      requires Base()
      reads this
    {
      && b < |idom| && |ins| == |idom| && CodeRenamed(idom, c0.h.ins[b], ins[b], e, stk, owner, b, i, c0.ntmp) && e.Keys == c0.vis
    }

    /** The operands of block b after phiins. */
    lemma MidRefs(b: nat, i: nat)
      requires Base() && b < |idom| && i <= |c0.h.ins[b]|
      ensures i < |c0.h.ins[b]| ==> var x := c0.h.ins[b][i];
        MidRef(x.arg0, c0.ntmp, local) && MidRef(x.arg1, c0.ntmp, local) && MidRef(x.to, c0.ntmp, local)
      ensures MidRef(c0.h.jmp[b], c0.ntmp, local)
    {
      var code0, mid, done := c0.f.ins[b], c0.h.ins[b], PhiPlacement.DoneVars(c0.skip, c0.out[b], c0.ntmp);
      MidSubst(b, |mid|, c0.f.jmp[b]);
      if i < |mid| {
        assert LocalRenaming.LocalIns(code0, mid, done, i, c0.ntmp, local) && ValidIns(code0[i], c0.ntmp);
        MidSubst(b, i, code0[i].arg0);
        MidSubst(b, i, code0[i].arg1);
      }
    }

    lemma MidSubst(b: nat, i: nat, r: Ref)
      requires Base() && b < |idom| && i <= |c0.h.ins[b]| && ValidRef(r, c0.ntmp)
      ensures MidRef(LocalRenaming.Subst(c0.f.ins[b], c0.h.ins[b], PhiPlacement.DoneVars(c0.skip, c0.out[b], c0.ntmp), i, r), c0.ntmp, local)
    {
      var code0, mid, done := c0.f.ins[b], c0.h.ins[b], PhiPlacement.DoneVars(c0.skip, c0.out[b], c0.ntmp);
      if r.Tmp? && r.t in done && LastDef(code0, r.t, i) >= 0 {
        assert LocalRenaming.LocalIns(code0, mid, done, LastDef(code0, r.t, i), c0.ntmp, local);
      }
    }

    /** The body of the instruction loop of renblk. */
    method RenIns(b: nat, ghost e: map<nat, Ref>, i: nat)
      requires Base() && Names() && Sites(ins, phi, c0.ntmp, ntmp, site) && CodeUpTo(b, e, i) && i < |ins[b]|
      modifies this`ntmp, this`visit, this`stk, this`owner, this`site, this`ins
      ensures Names() && Sites(ins, phi, c0.ntmp, ntmp, site) && Extends(old(visit), visit)
      ensures Extends(old(owner), owner) && Pushed(idom, old(stk), stk, c0.vis, b)
      ensures |ins| == |old(ins)| && ins == old(ins)[b := ins[b]] && CodeUpTo(b, e, i + 1)
    {
      MidRefs(b, i);
      ghost var mid, code, s0, o0, n0, site0 := c0.h.ins[b], ins[b], stk, owner, ntmp, site;
      var x := ins[b][i];
      assert x == ins[b][i..][0] == mid[i];
      var y := RenOperands(x, b, (b, i));
      CodeStep(idom, mid, code, e, s0, stk, o0, owner, b, i, c0.ntmp, y);
      SitesStep(ins, phi, c0.ntmp, n0, site0, b, i, y);
      ins := ins[b := ins[b][i := y]];
    }

    /** The three operands of one instruction: uses before the definition. */
    method RenOperands(x: Ins, b: nat, ghost at: (int, int)) returns (y: Ins)
      requires Base() && Names() && b < |idom|
      requires MidRef(x.arg0, c0.ntmp, local) && MidRef(x.arg1, c0.ntmp, local) && MidRef(x.to, c0.ntmp, local)
      modifies this`ntmp, this`visit, this`stk, this`owner, this`site
      ensures Names() && Extends(old(visit), visit) && Extends(old(owner), owner)
      ensures Pushed(idom, old(stk), stk, c0.vis, b)
      ensures y.op == x.op
      ensures y.arg0 == if x.arg0.Tmp? && x.arg0.t in c0.vis then Peek(idom, old(stk)[x.arg0.t], b) else x.arg0
      ensures y.arg1 == if x.arg1.Tmp? && x.arg1.t in c0.vis then Peek(idom, old(stk)[x.arg1.t], b) else x.arg1
      ensures if x.to.Tmp? && x.to.t in c0.vis
        then y.to == Tmp(old(ntmp)) && ntmp == old(ntmp) + 1 && owner == old(owner)[old(ntmp) := x.to.t] && site == old(site)[old(ntmp) := at]
        else y.to == x.to && ntmp == old(ntmp) && owner == old(owner) && site == old(site)
      ensures forall t :: t in c0.vis ==>
        Peek(idom, stk[t], b) == if x.to == Tmp(t) then y.to else Peek(idom, old(stk)[t], b)
    {
      ghost var s0 := stk;
      var a0, a1 := RenUses(x, b);
      ghost var s1 := stk;
      var to := RenDef(x.to, b, at);
      PushedTrans(idom, s0, s1, stk, c0.vis, b);
      y := Ins(x.op, to, a0, a1);
    }

    method RenUses(x: Ins, b: nat) returns (a0: Ref, a1: Ref)
      requires Base() && Names() && b < |idom| && MidRef(x.arg0, c0.ntmp, local) && MidRef(x.arg1, c0.ntmp, local)
      modifies this`stk
      ensures Names() && Pushed(idom, old(stk), stk, c0.vis, b)
      ensures a0 == if x.arg0.Tmp? && x.arg0.t in c0.vis then Peek(idom, old(stk)[x.arg0.t], b) else x.arg0
      ensures a1 == if x.arg1.Tmp? && x.arg1.t in c0.vis then Peek(idom, old(stk)[x.arg1.t], b) else x.arg1
      ensures forall t :: t in c0.vis ==> Peek(idom, stk[t], b) == Peek(idom, old(stk)[t], b)
    {
      ghost var s0 := stk;
      a0 := RenUse(x.arg0, b);
      ghost var s1 := stk;
      a1 := RenUse(x.arg1, b);
      PushedTrans(idom, s0, s1, stk, c0.vis, b);
    }

    /** The conversion as far as it has got. */
    ghost function Conv(): Conversion
      reads this
    {
      c0.(h := Fn(c0.f.g, phi, ins, jmp), owner := owner)
    }

    /** Each phi still leads to its variable. */
    ghost predicate PhiVars()
      reads this
    {
      && |phi| == |c0.pv| == |idom|
      && (forall b :: 0 <= b < |phi| ==> |phi[b]| == |c0.pv[b]|)
      && (forall b, k :: 0 <= b < |phi| && 0 <= k < |phi[b]| ==>
          phi[b][k].to in visit && visit[phi[b][k].to] == c0.pv[b][k])
    }

    /** The phi loop of renblk. */
    method RenPhis(b: nat)
      requires Base() && Names() && PhiVars() && Sites(ins, phi, c0.ntmp, ntmp, site) && b < |idom|
      requires forall k :: 0 <= k < |phi[b]| ==> phi[b][k].to == c0.pv[b][k]
      modifies this`phi, this`ntmp, this`visit, this`stk, this`owner, this`site
      ensures Names() && PhiVars() && Sites(ins, phi, c0.ntmp, ntmp, site) && phi == old(phi)[b := phi[b]]
      ensures Extends(old(owner), owner) && Pushed(idom, old(stk), stk, c0.vis, b)
      ensures PhisRenamed(idom, old(phi)[b], phi[b], c0.pv[b], old(stk), stk, visit, c0.vis, b, |phi[b]|, c0.ntmp)
    {
      hide StackedVars, AfterPhiIns, IsKids, GoodVisit, Sites;
      ghost var ps0, s0, phi0 := phi[b], stk, phi;
      for k := 0 to |phi[b]|
        invariant Names() && |phi| == |phi0| && phi == phi0[b := phi[b]] && |phi[b]| == |ps0|
        invariant Sites(ins, phi, c0.ntmp, ntmp, site)
        invariant Extends(old(visit), visit) && Extends(old(owner), owner) && Pushed(idom, s0, stk, c0.vis, b)
        invariant PhisRenamed(idom, ps0, phi[b], c0.pv[b], s0, stk, visit, c0.vis, b, k, c0.ntmp)
      {
        RenPhi(b, k, ps0, s0);
      }
    }

    method RenPhi(b: nat, k: nat, ghost ps0: seq<Phi>, ghost s0: map<nat, seq<Name>>)
      requires Base() && Names() && Sites(ins, phi, c0.ntmp, ntmp, site) && b < |idom| == |phi| && k < |phi[b]|
      requires Pushed(idom, s0, stk, c0.vis, b)
      requires PhisRenamed(idom, ps0, phi[b], c0.pv[b], s0, stk, visit, c0.vis, b, k, c0.ntmp)
      modifies this`phi, this`ntmp, this`visit, this`stk, this`owner, this`site
      ensures Names() && Sites(ins, phi, c0.ntmp, ntmp, site) && |phi| == |old(phi)| && phi == old(phi)[b := phi[b]]
      ensures Extends(old(visit), visit) && Extends(old(owner), owner) && Pushed(idom, s0, stk, c0.vis, b)
      ensures PhisRenamed(idom, ps0, phi[b], c0.pv[b], s0, stk, visit, c0.vis, b, k + 1, c0.ntmp)
    {
      ghost var s1, n := stk, ntmp;
      SitesPhi(ins, phi, c0.ntmp, ntmp, site, b, k, phi[b][k].(to := ntmp));
      PhiStep(idom, ps0, phi[b], c0.pv[b], s0, stk, stk[c0.pv[b][k] := [Name(n, b)] + stk[c0.pv[b][k]]], visit, c0.vis, b, k, c0.ntmp, n);
      var to := RenDef(Tmp(phi[b][k].to), b, (b, -1 - k));
      PushedTrans(idom, s0, s1, stk, c0.vis, b);
      phi := phi[b := phi[b][k := phi[b][k].(to := to.t)]];
    }

    /** The instruction loop of renblk; e gives the names after the phis. */
    method RenCode(b: nat, ghost e: map<nat, Ref>)
      requires Base() && Names() && Sites(ins, phi, c0.ntmp, ntmp, site) && CodeUpTo(b, e, 0)
      modifies this`ntmp, this`visit, this`stk, this`owner, this`site, this`ins
      ensures Names() && Sites(ins, phi, c0.ntmp, ntmp, site) && Extends(old(visit), visit)
      ensures Extends(old(owner), owner)
      ensures Pushed(idom, old(stk), stk, c0.vis, b)
      ensures |ins| == |old(ins)| && ins == old(ins)[b := ins[b]] && CodeUpTo(b, e, |c0.h.ins[b]|)
    {
      ghost var s0, ins0 := stk, ins;
      for i := 0 to |ins[b]|
        invariant Names() && Sites(ins, phi, c0.ntmp, ntmp, site) && CodeUpTo(b, e, i)
        invariant Extends(old(visit), visit) && Extends(old(owner), owner) && Pushed(idom, s0, stk, c0.vis, b)
        invariant |ins| == |ins0| && ins == ins0[b := ins[b]]
      {
        ghost var s1 := stk;
        RenIns(b, e, i);
        PushedTrans(idom, s0, s1, stk, c0.vis, b);
      }
    }

    /** The jump argument. */
    method RenJmp(b: nat, ghost e: map<nat, Ref>)
      requires Base() && Names() && b < |idom| == |jmp| && CodeUpTo(b, e, |c0.h.ins[b]|) && jmp[b] == c0.h.jmp[b]
      modifies this`stk, this`jmp
      ensures Names() && Pushed(idom, old(stk), stk, c0.vis, b) && CodeUpTo(b, e, |c0.h.ins[b]|)
      ensures |jmp| == |old(jmp)| && jmp == old(jmp)[b := jmp[b]]
      ensures jmp[b] == StackSubst(c0.h.ins[b], ins[b], e, |c0.h.ins[b]|, c0.h.jmp[b])
    {
      MidRefs(b, |ins[b]|);
      var j := RenUse(jmp[b], b);
      jmp := jmp[b := j];
    }

    /** The phis of one successor s of b receive their argument for b. */
    method RenSucc(b: nat, s: nat)
      requires Base() && Names() && PhiVars() && b < |idom| && s < |idom|
      modifies this`phi, this`stk
      ensures Names() && PhiVars() && Pushed(idom, old(stk), stk, c0.vis, b)
      ensures forall t :: t in c0.vis ==> Peek(idom, stk[t], b) == Peek(idom, old(stk)[t], b)
      ensures |phi| == |old(phi)| && phi == old(phi)[s := phi[s]]
      ensures ArgsUpTo(old(phi)[s], phi[s], old(stk), b, s, |phi[s]|)
    {
      ghost var phi0, s0 := phi, stk;
      for k := 0 to |phi[s]|
        invariant Names() && PhiVars() && Pushed(idom, s0, stk, c0.vis, b)
        invariant forall t :: t in c0.vis ==> Peek(idom, stk[t], b) == Peek(idom, s0[t], b)
        invariant |phi| == |phi0| && phi == phi0[s := phi[s]] && ArgsUpTo(phi0[s], phi[s], s0, b, s, k)
      {
        ghost var s1 := stk;
        RenSuccPhi(b, s, k, phi0[s], s0);
        PushedTrans(idom, s0, s1, stk, c0.vis, b);
      }
    }

    method RenSuccPhi(b: nat, s: nat, k: nat, ghost ps0: seq<Phi>, ghost s0: map<nat, seq<Name>>)
      requires Base() && Names() && PhiVars() && b < |idom| && s < |idom| && k < |phi[s]| && c0.vis <= s0.Keys
      requires ArgsUpTo(ps0, phi[s], s0, b, s, k)
      requires forall t :: t in c0.vis ==> Peek(idom, stk[t], b) == Peek(idom, s0[t], b)
      modifies this`phi, this`stk
      ensures Names() && PhiVars() && Pushed(idom, old(stk), stk, c0.vis, b)
      ensures forall t :: t in c0.vis ==> Peek(idom, stk[t], b) == Peek(idom, s0[t], b)
      ensures |phi| == |old(phi)| && phi == old(phi)[s := phi[s]] && ArgsUpTo(ps0, phi[s], s0, b, s, k + 1)
    {
      var p := phi[s][k];
      ghost var ps := phi[s];
      var r := RenUse(Tmp(visit[p.to]), b);
      ArgsStep(ps0, ps, s0, b, s, k, p.(args := p.args[b := r]));
      phi := phi[s := phi[s][k := p.(args := p.args[b := r])]];
    }

    lemma ArgsStep(ps0: seq<Phi>, ps: seq<Phi>, s0: map<nat, seq<Name>>, b: nat, s: nat, k: nat, p: Phi)
      requires Base() && b < |idom| && s < |idom| && k < |ps| && ArgsUpTo(ps0, ps, s0, b, s, k)
      requires p == ps[k].(args := ps[k].args[b := Peek(idom, s0[c0.pv[s][k]], b)])
      ensures ArgsUpTo(ps0, ps[k := p], s0, b, s, k + 1)
    {
      assert ps[k] == ps[k..][0] == ps0[k];
    }

    /** The first k phis have their argument for b. */
    ghost predicate ArgsUpTo(ps0: seq<Phi>, ps: seq<Phi>, s0: map<nat, seq<Name>>, b: nat, s: nat, k: nat)
      requires Base() && b < |idom| && s < |idom|
    {
      && |ps| == |ps0| == |c0.pv[s]| && k <= |ps|
      && (forall l :: 0 <= l < |ps| ==> c0.pv[s][l] in s0 && ps[l].to == ps0[l].to)
      && (forall l :: 0 <= l < k ==> ps[l].args == ps0[l].args[b := Peek(idom, s0[c0.pv[s][l]], b)])
      && ps[k..] == ps0[k..]
    }

    /** The successor loop of renblk; the second successor counts only if it differs from the first. */
    method RenSuccs(b: nat)
      requires Base() && Names() && PhiVars() && b < |idom|
      modifies this`phi, this`stk
      ensures Names() && PhiVars() && Pushed(idom, old(stk), stk, c0.vis, b)
      ensures forall t :: t in c0.vis ==> Peek(idom, stk[t], b) == Peek(idom, old(stk)[t], b)
      ensures |phi| == |old(phi)|
      ensures forall x: nat :: x < |phi| ==>
        if g.Edge(b, x) then ArgsUpTo(old(phi)[x], phi[x], old(stk), b, x, |phi[x]|) else phi[x] == old(phi)[x]
    {
      ghost var s0 := stk;
      if g.s1[b] >= 0 {
        RenSucc(b, g.s1[b]);
      }
      ghost var s1 := stk;
      if g.s2[b] >= 0 && g.s2[b] != g.s1[b] {
        RenSucc(b, g.s2[b]);
        PushedTrans(idom, s0, s1, stk, c0.vis, b);
      }
    }

    /** The name that b inherits from its immediate dominator. */
    ghost function Inherited(c: Conversion, t: nat, b: nat): Ref
      requires c.Shapes() && b < |c.f.ins|
    {
      if b == 0 then Undef else c.Top(t, c.idom[b])
    }

    /** Everything that holds between two blocks of the walk. */
    ghost predicate State(done: set<nat>)
      reads this
    {
      && Names() && PhiVars() && Sites(ins, phi, c0.ntmp, ntmp, site)
      && Progress(c0, Conv(), done)
    }

    /** The definitions in the blocks already done stay as they are. */
    ghost predicate KeepsDefs(c: Conversion, c1: Conversion, done: set<nat>) {
      c.SameInput(c1) && Extends(c.owner, c1.owner) && forall x: nat :: x in done && x < |c.f.ins| ==> c.SameDefs(c1, x)
    }

    /** What the phi, instruction and jump loops of renblk make of block b; e gives the names after the phis. */
    ghost predicate Renames(ps0: seq<Phi>, ps: seq<Phi>, code: seq<Ins>, j: Ref, s0: map<nat, seq<Name>>,
                            s2: map<nat, seq<Name>>,
                            visit: map<nat, nat>, owner: map<nat, nat>, b: nat, e: map<nat, Ref>)
      requires Base() && b < |idom|
    {
      var mid := c0.h.ins[b];
      && c0.vis <= s0.Keys && c0.vis <= s2.Keys && e.Keys == c0.vis && |ps| == |ps0| == |c0.pv[b]| && |code| == |mid|
      && (forall l :: 0 <= l < |ps| ==>
          ps[l].args == ps0[l].args && ps[l].to >= c0.ntmp && ps[l].to in visit && visit[ps[l].to] == c0.pv[b][l])
      && (forall t :: t in c0.vis ==>
            e[t] == if t in c0.pv[b] then Tmp(ps[IndexOf(c0.pv[b], t)].to) else Peek(idom, s0[t], b))
      && (forall k :: 0 <= k < |mid| ==> StackIns(mid, code, e, k, c0.ntmp, owner))
      && j == StackSubst(mid, code, e, |mid|, c0.h.jmp[b])
      && (forall t :: t in c0.vis ==> Peek(idom, s2[t], b) == StackName(mid, code, e, t, |mid|))
    }

    /** The phis, instructions and jump of b. */
    method RenBody(b: nat) returns (ghost e: map<nat, Ref>)
      requires Base() && Names() && PhiVars() && Sites(ins, phi, c0.ntmp, ntmp, site) && b < |idom|
      requires |ins| == |jmp| == |idom| && ins[b] == c0.h.ins[b] && jmp[b] == c0.h.jmp[b]
      requires forall k :: 0 <= k < |phi[b]| ==> phi[b][k].to == c0.pv[b][k]
      modifies this
      ensures Names() && PhiVars() && Sites(ins, phi, c0.ntmp, ntmp, site) && Extends(old(owner), owner)
      ensures |ins| == |jmp| == |phi| == |idom| && ins == old(ins)[b := ins[b]] && jmp == old(jmp)[b := jmp[b]]
      ensures phi == old(phi)[b := phi[b]]
      ensures Pushed(idom, old(stk), stk, c0.vis, b)
      ensures Renames(old(phi)[b], phi[b], ins[b], jmp[b], old(stk), stk, visit, owner, b, e)
    {
      ghost var s0, ps0 := stk, phi[b];
      RenPhis(b);
      ghost var s1 := stk;
      e := map t | t in c0.vis :: Peek(idom, stk[t], b);
      ghost var v1, ps1 := visit, phi[b];
      RenRest(b, e);
      PushedTrans(idom, s0, s1, stk, c0.vis, b);
      RenamesIntro(ps0, ps1, ins[b], jmp[b], s0, s1, stk, v1, visit, owner, b, e);
    }

    lemma RenamesIntro(ps0: seq<Phi>, ps: seq<Phi>, code: seq<Ins>, j: Ref, s0: map<nat, seq<Name>>,
                       s1: map<nat, seq<Name>>,
                       s2: map<nat, seq<Name>>, v1: map<nat, nat>, visit: map<nat, nat>, owner: map<nat, nat>, b: nat, e: map<nat, Ref>)
      requires Base() && b < |idom| && Extends(v1, visit) && c0.vis <= s2.Keys && e.Keys == c0.vis
      requires PhisRenamed(idom, ps0, ps, c0.pv[b], s0, s1, v1, c0.vis, b, |c0.pv[b]|, c0.ntmp)
      requires forall t :: t in c0.vis ==> e[t] == Peek(idom, s1[t], b)
      requires CodeRenamed(idom, c0.h.ins[b], code, e, s2, owner, b, |c0.h.ins[b]|, c0.ntmp)
      requires j == StackSubst(c0.h.ins[b], code, e, |c0.h.ins[b]|, c0.h.jmp[b])
      ensures Renames(ps0, ps, code, j, s0, s2, visit, owner, b, e)
    {}

    method RenRest(b: nat, ghost e: map<nat, Ref>)
      requires Base() && Names() && PhiVars() && Sites(ins, phi, c0.ntmp, ntmp, site) && b < |idom|
      requires |ins| == |jmp| == |idom| && ins[b] == c0.h.ins[b] && jmp[b] == c0.h.jmp[b]
      requires e.Keys == c0.vis && forall t :: t in c0.vis ==> e[t] == Peek(idom, stk[t], b)
      modifies this`ntmp, this`visit, this`stk, this`owner, this`site, this`ins, this`jmp
      ensures Names() && PhiVars() && Sites(ins, phi, c0.ntmp, ntmp, site) && Extends(old(visit), visit)
      ensures Extends(old(owner), owner)
      ensures |ins| == |jmp| == |idom| && ins == old(ins)[b := ins[b]] && jmp == old(jmp)[b := jmp[b]]
      ensures Pushed(idom, old(stk), stk, c0.vis, b)
      ensures CodeUpTo(b, e, |c0.h.ins[b]|)
      ensures jmp[b] == StackSubst(c0.h.ins[b], ins[b], e, |c0.h.ins[b]|, c0.h.jmp[b])
    {
      ghost var s0 := stk;
      RenCode(b, e);
      ghost var s1 := stk;
      RenJmp(b, e);
      PushedTrans(idom, s0, s1, stk, c0.vis, b);
    }

    /** After the body of b has been renamed, b is done and the stacks give the names at its end. */
    lemma BodyDone(c: Conversion, c1: Conversion, done: set<nat>, b: nat, e: map<nat, Ref>,
                   s0: map<nat, seq<Name>>, s2: map<nat, seq<Name>>, v: map<nat, nat>)
      requires Base() && Progress(c0, c, done) && c.SameInput(c1) && b < |idom| && b !in done
      requires (b > 0 ==> idom[b] in done)
      requires Extends(c.owner, c1.owner) && Extends(local, c1.owner)
      requires forall x :: 0 <= x < |idom| && x != b ==> c1.h.ins[x] == c.h.ins[x] && c1.h.phi[x] == c.h.phi[x]
      requires Renames(c.h.phi[b], c1.h.phi[b], c1.h.ins[b], c1.h.jmp[b], s0, s2, v, c1.owner, b, e)
      requires forall t :: t in c0.vis ==> Peek(idom, s0[t], b) == Inherited(c, t, b)
      requires forall n :: n in v && n !in c0.vis ==> n in c1.owner && c1.owner[n] == v[n]
      ensures DoneBlock(c1, b)
      ensures forall t :: t in c0.vis ==> Peek(idom, s2[t], b) == c1.Top(t, b)
    {
      hide IsKids, PhiArgs, FreshBlock, StackIns, StackName, StackSubst;
      HeadNames(c, c1, done, b, c1.h.phi[b], e, s0);
      SameStackedVars(c0, c1);
      assert AfterPhiIns(c0, c0.h.ins[b], c0.h.jmp[b], b, local);
      LiftBlock(c1, c0.h.ins[b], c0.h.jmp[b], b, local, e);
    }

    /** The names after the phis of b are those that the specification gives at the head of b. */
    lemma HeadNames(c: Conversion, c1: Conversion, done: set<nat>, b: nat, ps: seq<Phi>, e: map<nat, Ref>,
                    s0: map<nat, seq<Name>>)
      requires Base() && Progress(c0, c, done) && c.SameInput(c1) && b < |idom| && b !in done
      requires (b > 0 ==> idom[b] in done)
      requires Extends(c.owner, c1.owner) && c1.h.phi[b] == ps && c0.vis <= s0.Keys && e.Keys == c0.vis
      requires forall x :: 0 <= x < |idom| && x != b ==> c1.h.ins[x] == c.h.ins[x] && c1.h.phi[x] == c.h.phi[x]
      requires forall t :: t in c0.vis ==> Peek(idom, s0[t], b) == Inherited(c, t, b)
      requires forall t :: t in c0.vis ==>
        e[t] == if t in c0.pv[b] then Tmp(ps[IndexOf(c0.pv[b], t)].to) else Peek(idom, s0[t], b)
      ensures forall t :: t in c0.vis ==> e[t] == c1.Entry(t, b)
    {
      hide StackedVars, AfterPhiIns, IsKids, PhiArgs, FreshBlock;
      if b > 0 {
        DoneStays(c, c1, done, idom[b]);
      }
      forall t | t in c0.vis ensures e[t] == c1.Entry(t, b) {}
    }

    /** Only phi arguments change, which no name depends on. */
    lemma SameTops(c: Conversion, c1: Conversion)
      requires c.SameInput(c1) && forall x: nat :: x < |c.f.ins| ==> c.SameDefs(c1, x)
      ensures forall t, x: nat :: x < |c.f.ins| ==> c1.Top(t, x) == c.Top(t, x)
    {
      forall t, x: nat | x < |c.f.ins| {
        c.SameNames(c1, t, x);
      }
    }

    /** The first part of renblk: after it, b is done but for the arguments of its successors' phis. */
    method RenDefs(b: nat, ghost done: set<nat>)
      requires Base() && State(done) && b < |idom| && b !in done && (b > 0 ==> idom[b] in done)
      requires forall t :: t in c0.vis ==> Peek(idom, stk[t], b) == Inherited(Conv(), t, b)
      modifies this
      ensures Names() && PhiVars() && Sites(ins, phi, c0.ntmp, ntmp, site) && Pushed(idom, old(stk), stk, c0.vis, b)
      ensures BodyOnly(old(Conv()), Conv(), b) && DoneBlock(Conv(), b)
      ensures forall t :: t in c0.vis ==> Peek(idom, stk[t], b) == Conv().Top(t, b)
    {
      ghost var c, s0 := Conv(), stk;
      assert FreshBlock(c0, c, b);
      ghost var e := RenBody(b);
      assert c.SameInput(Conv());
      BodyDone(c, Conv(), done, b, e, s0, stk, visit);
    }

    /** Apart from names, c1 differs from c in the body of b and the names of its phis. */
    ghost predicate BodyOnly(c: Conversion, c1: Conversion, b: nat)
      requires b < |idom|
    {
      && c.Shapes() && c.SameInput(c1) && Extends(c.owner, c1.owner) && |c.f.ins| == |idom|
      && (forall x :: 0 <= x < |idom| && x != b ==>
          c1.h.ins[x] == c.h.ins[x] && c1.h.jmp[x] == c.h.jmp[x] && c1.h.phi[x] == c.h.phi[x])
      && (forall k :: 0 <= k < |c.pv[b]| ==> c1.h.phi[b][k].args == c.h.phi[b][k].args)
    }

    /** renblk without the recursion: the phis, instructions and jump of b, and its successors' phis. */
    method RenBlock(b: nat, ghost done: set<nat>)
      requires Base() && State(done) && b < |idom| && b !in done && (b > 0 ==> idom[b] in done)
      requires forall t :: t in c0.vis ==> Peek(idom, stk[t], b) == Inherited(Conv(), t, b)
      modifies this
      ensures State(done + {b}) && KeepsDefs(old(Conv()), Conv(), done) && Pushed(idom, old(stk), stk, c0.vis, b)
      ensures forall t :: t in c0.vis ==> Peek(idom, stk[t], b) == Conv().Top(t, b)
    {
      hide StackedVars, AfterPhiIns, GoodStacks, GoodVisit, DoneBlock, PhiArgs, Sites;
      ghost var c, s0 := Conv(), stk;
      RenDefs(b, done);
      ghost var c1, s1 := Conv(), stk;
      RenSuccs(b);
      SitesKept(c1.h.phi, b, s1);
      PushedTrans(idom, s0, s1, stk, c0.vis, b);
      BlockDone(c, c1, Conv(), done, b, s1);
    }

    /** Arguments given to phis do not move a definition. */
    lemma SitesKept(phi0: seq<seq<Phi>>, b: nat, s0: map<nat, seq<Name>>)
      requires Base() && b < |idom| == |phi| == |phi0| && Sites(ins, phi0, c0.ntmp, ntmp, site)
      requires forall x: nat :: x < |phi| ==>
        if g.Edge(b, x) then ArgsUpTo(phi0[x], phi[x], s0, b, x, |phi[x]|) else phi[x] == phi0[x]
      ensures Sites(ins, phi, c0.ntmp, ntmp, site)
    {
      forall x, k | 0 <= x < |phi| && 0 <= k < |phi[x]|
        ensures PhiPlacement.AtSite(phi[x][k].to, x, -1 - k, c0.ntmp, ntmp, site)
      {
        assert phi[x][k].to == phi0[x][k].to;
      }
    }

    lemma BlockDone(c: Conversion, c1: Conversion, c2: Conversion, done: set<nat>, b: nat, s1: map<nat, seq<Name>>)
      requires Base() && Progress(c0, c, done) && b < |idom| && b !in done && (b > 0 ==> idom[b] in done)
      requires BodyOnly(c, c1, b) && DoneBlock(c1, b)
      requires forall t :: t in c0.vis ==> t in s1 && Peek(idom, s1[t], b) == c1.Top(t, b)
      requires c2 == c1.(h := c1.h.(phi := c2.h.phi)) && |c2.h.phi| == |c1.h.phi|
      requires forall x: nat :: x < |idom| ==>
        if g.Edge(b, x) then ArgsUpTo(c1.h.phi[x], c2.h.phi[x], s1, b, x, |c2.h.phi[x]|) else c2.h.phi[x] == c1.h.phi[x]
      ensures Progress(c0, c2, done + {b}) && KeepsDefs(c, c2, done)
      ensures forall t :: c2.Top(t, b) == c1.Top(t, b)
    {
      hide StackedVars, AfterPhiIns, DoneBlock, PhiArgs, FreshBlock;
      ArgsGiven(c1, c2, b, s1);
      DoneMoves(c1, c2, b);
      ProgressStep(c0, c, c2, done, b);
    }

    lemma ArgsGiven(c1: Conversion, c2: Conversion, b: nat, s1: map<nat, seq<Name>>)
      requires Base() && c1.SameInput(c2) && c0.SameInput(c1) && b < |idom| && c2.h.ins == c1.h.ins
      requires forall t :: t in c0.vis ==> t in s1 && Peek(idom, s1[t], b) == c1.Top(t, b)
      requires forall x: nat :: x < |idom| ==>
        if g.Edge(b, x) then ArgsUpTo(c1.h.phi[x], c2.h.phi[x], s1, b, x, |c2.h.phi[x]|) else c2.h.phi[x] == c1.h.phi[x]
      ensures forall x: nat :: x < |idom| ==> c1.SameDefs(c2, x)
      ensures forall t :: c2.Top(t, b) == c1.Top(t, b)
      ensures forall x: nat, k :: x < |idom| && 0 <= k < |c1.pv[x]| ==>
        c2.h.phi[x][k].args == if g.Edge(b, x) then c1.h.phi[x][k].args[b := c2.Top(c1.pv[x][k], b)] else c1.h.phi[x][k].args
    {
      forall x: nat | x < |idom| ensures c1.SameDefs(c2, x) {
        assert g.Edge(b, x) ==> ArgsUpTo(c1.h.phi[x], c2.h.phi[x], s1, b, x, |c2.h.phi[x]|);
      }
      SameTops(c1, c2);
      forall x: nat, k | x < |idom| && 0 <= k < |c1.pv[x]| ensures c2.h.phi[x][k].args ==
        if g.Edge(b, x) then c1.h.phi[x][k].args[b := c2.Top(c1.pv[x][k], b)] else c1.h.phi[x][k].args
      {
        assert g.Edge(b, x) ==> ArgsUpTo(c1.h.phi[x], c2.h.phi[x], s1, b, x, |c2.h.phi[x]|);
      }
    }

    /** Arguments given to phis do not disturb a renamed block. */
    lemma DoneMoves(c1: Conversion, c2: Conversion, b: nat)
      requires c1.SameInput(c2) && b < |c1.f.ins| && DoneBlock(c1, b) && c2.owner == c1.owner
      requires c2.h.ins == c1.h.ins && c2.h.jmp == c1.h.jmp && forall x: nat :: x < |c1.f.ins| ==> c1.SameDefs(c2, x)
      ensures DoneBlock(c2, b)
    {
      forall t {
        c1.SameNames(c2, t, b);
      }
      forall i | 0 <= i < |c1.f.ins[b]| ensures c2.RenamedIns(b, i) {
        assert c1.RenamedIns(b, i);
      }
      assert c1.SameDefs(c2, b);
    }

    /** `done` and the subtrees of the children of b that are no longer in the list have been walked. */
    ghost predicate Swept(done0: set<nat>, done: set<nat>, b: nat, kids: seq<int>)
      requires Base() && b < |idom|
    {
      forall x: nat :: x in done <==>
        (x in done0 || x == b || (x < |idom| && b in Chain(idom, x) && x != b && ChildAbove(idom, b, x) !in kids))
    }

    /** The loop of renblk over the children of b: kids are those still to be walked. */
    ghost predicate KidsInv(done0: set<nat>, done: set<nat>, b: nat, kids: seq<int>, s0: map<nat, seq<Name>>,
                            s1: map<nat, seq<Name>>,
                            c: Conversion, c1: Conversion)
      requires Base() && b < |idom|
    {
      && Swept(done0, done, b, kids) && SubtreeWalked(idom, c0.vis, s0, s1, b) && KeepsDefs(c, c1, done0)
      && (forall x: nat :: x in done0 ==> x < |idom| && b !in Chain(idom, x))
      && (forall k: nat :: k in kids ==> k < |idom| && idom[k] == b && Untouched(idom, c0.vis, s1, k))
      && c0.SameInput(c1) && (forall t :: t in c0.vis ==> Peek(idom, s1[t], b) == c1.Top(t, b))
    }

    lemma KidsStart(done0: set<nat>, b: nat, s0: map<nat, seq<Name>>, s1: map<nat, seq<Name>>, c: Conversion,
                    c1: Conversion)
      requires Base() && b < |idom| && Untouched(idom, c0.vis, s0, b) && Pushed(idom, s0, s1, c0.vis, b)
      requires KeepsDefs(c, c1, done0)
      requires forall x: nat :: x in done0 ==> x < |idom| && b !in Chain(idom, x)
      requires c0.SameInput(c1) && forall t :: t in c0.vis ==> Peek(idom, s1[t], b) == c1.Top(t, b)
      ensures KidsInv(done0, done0 + {b}, b, Siblings(dlink, dom[b]), s0, s1, c, c1)
    {
      forall k: nat | k in Siblings(dlink, dom[b])
        ensures k < |idom| && idom[k] == b && Untouched(idom, c0.vis, s1, k)
      {
        forall t, n | t in c0.vis && n in s1[t] ensures n.b < |idom| && k !in Chain(idom, n.b) {
          if n in s0[t] && k in Chain(idom, n.b) { ChainOf(idom, n.b, k); }
        }
      }
      forall x: nat | x < |idom| && b in Chain(idom, x) && x != b
        ensures ChildAbove(idom, b, x) in Siblings(dlink, dom[b]) {}
    }

    /** The next child k is untouched and inherits the names at the end of b. */
    lemma KidReady(done0: set<nat>, done: set<nat>, b: nat, k: nat, kids: seq<int>, s0: map<nat, seq<Name>>,
                   s1: map<nat, seq<Name>>,
                   c: Conversion, c1: Conversion)
      requires Base() && b < |idom| && KidsInv(done0, done, b, kids, s0, s1, c, c1) && k in kids
      ensures b < k < |idom| && idom[k] == b && b in done && Untouched(idom, c0.vis, s1, k)
      ensures forall x: nat :: x in done ==> x < |idom| && k !in Chain(idom, x)
      ensures forall t :: t in c0.vis ==> Peek(idom, s1[t], k) == Inherited(c1, t, k)
    {
      forall x: nat | x in done ensures x < |idom| && k !in Chain(idom, x) {
        if x in done0 && k in Chain(idom, x) {
          ChainOf(idom, x, k);
        } else if x < |idom| && x != b && k in Chain(idom, x) {
          ChainOf(idom, x, k);
          ChildIsUnique(idom, b, x, k);
        }
      }
      forall t | t in c0.vis {
        PeekChild(idom, s1[t], b, k);
      }
    }

    lemma KidDone(done0: set<nat>, done: set<nat>, done1: set<nat>, b: nat, k: nat, kids: seq<int>,
                  s0: map<nat, seq<Name>>, s1: map<nat, seq<Name>>, s2: map<nat, seq<Name>>, c: Conversion, c1: Conversion, c2: Conversion)
      requires Base() && b < |idom| && KidsInv(done0, done, b, [k] + kids, s0, s1, c, c1) && k !in kids
      requires forall y: nat :: y in done && 0 < y < |idom| ==> idom[y] in done
      requires k < |idom| && SubtreeWalked(idom, c0.vis, s1, s2, k) && KeepsDefs(c1, c2, done)
      requires forall x: nat :: x in done1 <==> x in done || (x < |idom| && k in Chain(idom, x))
      ensures KidsInv(done0, done1, b, kids, s0, s2, c, c2)
    {
      hide StackedVars, AfterPhiIns, IsKids;
      assert k in [k] + kids && forall j :: j in kids ==> j in [k] + kids;
      SweptChild(done0, done, done1, b, k, kids);
      WalkedChild(idom, c0.vis, b, k, s0, s1, s2);
      forall j: nat | j in kids ensures Untouched(idom, c0.vis, s2, j) {
        UntouchedSibling(idom, c0.vis, b, k, j, s1, s2);
      }
      forall t | t in c0.vis ensures Peek(idom, s2[t], b) == c2.Top(t, b) {
        forall a: nat | a in Chain(idom, b) ensures c1.SameDefs(c2, a) {
          ChainDone(c1, done, b, a);
        }
        c1.SameNames(c2, t, b);
      }
    }

    /** The subtree of child k joins the blocks already walked. */
    lemma SweptChild(done0: set<nat>, done: set<nat>, done1: set<nat>, b: nat, k: nat, kids: seq<int>)
      requires Base() && b < |idom| && Swept(done0, done, b, [k] + kids) && k !in kids && b < k < |idom| && idom[k] == b
      requires forall x: nat :: x in done1 <==> x in done || (x < |idom| && k in Chain(idom, x))
      ensures Swept(done0, done1, b, kids)
    {
      hide StackedVars, AfterPhiIns, IsKids;
      forall x: nat | x < |idom| && b in Chain(idom, x) && x != b
        ensures k in Chain(idom, x) <==> ChildAbove(idom, b, x) == k
      {
        if k in Chain(idom, x) { ChildIsUnique(idom, b, x, k); }
      }
      forall x: nat | x < |idom| && k in Chain(idom, x) ensures b in Chain(idom, x) && x != b {
        ChainOf(idom, x, k);
      }
    }

    /** renblk: the walk of the subtree of b in the dominator tree. */
    method RenBlk(b: nat, ghost done0: set<nat>) returns (ghost done: set<nat>)
      requires Base() && State(done0) && b < |idom| && (b > 0 ==> idom[b] in done0)
      requires forall x: nat :: x in done0 ==> x < |idom| && b !in Chain(idom, x)
      requires Untouched(idom, c0.vis, stk, b)
      requires forall t :: t in c0.vis ==> Peek(idom, stk[t], b) == Inherited(Conv(), t, b)
      modifies this
      ensures State(done) && SubtreeWalked(idom, c0.vis, old(stk), stk, b) && KeepsDefs(old(Conv()), Conv(), done0)
      ensures forall x: nat :: x in done <==> x in done0 || (x < |idom| && b in Chain(idom, x))
      decreases |idom| - b
    {
      hide StackedVars, AfterPhiIns, GoodStacks, GoodVisit, DoneBlock, PhiArgs, FreshBlock;
      hide KeepsDefs, SubtreeWalked, Untouched, PhiVars, Pushed, Names, Sites;
      ghost var s0, c := stk, Conv();
      RenBlock(b, done0);
      KidsStart(done0, b, s0, stk, c, Conv());
      done := done0 + {b};
      var k := dom[b];
      while k >= 0
        invariant NONE <= k < |idom| && State(done)
        invariant KidsInv(done0, done, b, Siblings(dlink, k), s0, stk, c, Conv())
        decreases k
      {
        ghost var s1, c1, kids := stk, Conv(), Siblings(dlink, dlink[k]);
        assert Siblings(dlink, k) == [k] + kids;
        KidReady(done0, done, b, k, Siblings(dlink, k), s0, s1, c, c1);
        ghost var done1 := RenBlk(k, done);
        KidDone(done0, done, done1, b, k, kids, s0, s1, stk, c, c1, Conv());
        done := done1;
        k := dlink[k];
      }
    }
  }
}
