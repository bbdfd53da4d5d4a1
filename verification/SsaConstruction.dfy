/** ssa of ssa.c: dominators, frontiers, liveness, phi placement and renaming put together. */
module SsaConstruction {
  import opened Cfg
  import opened Ir
  import opened Dominators
  import opened Frontiers
  import Liveness
  import opened Ssa
  import opened PhiPlacement
  import opened Renaming
  import opened Exemption

  /** The variables left alone are those that phiins exempts. */
  ghost predicate SkipsExempt(f: Fn, ntmp: nat, skip: set<nat>)
    requires |f.ins| == |f.jmp|
  {
    forall t: nat :: t in skip <==> t < ntmp && Exempt(f, t)
  }

  function PhiVariables(phi: seq<seq<Phi>>): seq<seq<nat>> {
    seq(|phi|, b requires 0 <= b < |phi| => seq(|phi[b]|, k requires 0 <= k < |phi[b]| => phi[b][k].to))
  }

  /** What phiins leaves in c.h, and what it needed. */
  ghost predicate PhisInserted(c: Conversion, fron: seq<seq<nat>>) {
    && c.f.Valid(c.ntmp) && c.h.g == c.f.g && |c.idom| == |c.f.ins| && IsDomTree(c.f.g, c.idom)
    && NoEntryToStart(c.f.g) && Liveness.Solution(c.f, c.ntmp, c.in', c.out)
    && (forall b :: 0 <= b < |c.f.phi| ==> c.f.phi[b] == [])
    && c.pv == PhiVariables(c.h.phi)
    && LocalUpTo(c.f, c.ntmp, c.skip, c.out, c.ntmp, 0, c.h.ins, c.h.jmp, c.owner)
    && PlacedUpTo(c.f, fron, c.in', c.out, c.skip, c.h.phi, c.vis, c.ntmp)
    && (forall a: nat, s: nat :: a < |fron| ==> (s in fron[a] <==> s < |c.f.g.s1| && InFrontier(c.f.g, a, s)))
  }

  lemma InsertedShapes(c: Conversion, fron: seq<seq<nat>>)
    requires PhisInserted(c, fron)
    ensures c.Shapes()
    ensures forall t: nat, b: nat :: b < |c.f.ins| ==> (c.HasPhi(t, b) <==> t in Liveness.PhiDefs(c.h.phi[b]))
    ensures forall b, k :: 0 <= b < |c.f.ins| && 0 <= k < |c.pv[b]| ==> c.pv[b][k] == c.h.phi[b][k].to
  {
    forall t: nat, b: nat | b < |c.f.ins| ensures t in c.pv[b] <==> t in Liveness.PhiDefs(c.h.phi[b]) {
      if t in Liveness.PhiDefs(c.h.phi[b]) {
        var k :| 0 <= k < |c.h.phi[b]| && c.h.phi[b][k].to == t;
        assert c.pv[b][k] == t;
      }
    }
  }

  lemma InsertedVars(c: Conversion, fron: seq<seq<nat>>, t: nat, b: nat)
    requires PhisInserted(c, fron) && c.Shapes() && b < |c.f.ins|
    requires forall b, k :: 0 <= b < |c.f.ins| && 0 <= k < |c.pv[b]| ==> c.pv[b][k] == c.h.phi[b][k].to
    ensures c.HasPhi(t, b) ==> t < c.ntmp && t in c.vis && t !in c.skip && t in c.in'[b]
    ensures c.ExitDef(t, b) >= 0 ==> t < c.ntmp && b in Seeds(c.f, c.out, t) && (t !in c.skip ==> t in c.vis)
  {
    assert FreshPhis(c.h.phi[b], c.skip, c.in'[b], c.vis, c.ntmp);
    if c.ExitDef(t, b) >= 0 {
      assert ValidIns(c.f.ins[b][c.ExitDef(t, b)], c.ntmp);
    }
  }

  lemma InsertedPlaced(c: Conversion, fron: seq<seq<nat>>)
    requires PhisInserted(c, fron)
    ensures c.Shapes() && StackedVars(c) && c.Placed() && c.pv[0] == []
  {
    InsertedShapes(c, fron);
    forall t: nat, b: nat | b < |c.f.ins| {
      InsertedVars(c, fron, t, b);
    }
    forall t: nat, a: nat, b: nat | a < |c.f.ins| && b < |c.f.ins| && t !in c.skip &&
      (c.HasPhi(t, a) || c.ExitDef(t, a) >= 0) && InFrontier(c.f.g, a, b) && t in c.in'[b]
      ensures c.HasPhi(t, b)
    {
      assert LeastClosed(fron, Seeds(c.f, c.out, t), LiveBlocks(c.in', t), PhiBlocks(c.h.phi, t));
      assert a in Seeds(c.f, c.out, t) + PhiBlocks(c.h.phi, t) && b in fron[a] && b in LiveBlocks(c.in', t);
    }
    if c.pv[0] != [] {
      assert c.HasPhi(c.pv[0][0], 0);
      NoPhiAtStart(c, fron, c.pv[0][0]);
    }
  }

  /** The start block is in no frontier. */
  lemma NoPhiAtStart(c: Conversion, fron: seq<seq<nat>>, t: nat)
    requires PhisInserted(c, fron) && t < c.ntmp && t !in c.skip
    ensures 0 !in PhiBlocks(c.h.phi, t)
  {
    var seeds, live, p := Seeds(c.f, c.out, t), LiveBlocks(c.in', t), PhiBlocks(c.h.phi, t);
    assert LeastClosed(fron, seeds, live, p);
    forall x, a | x in seeds + (p - {0}) && x < |fron| && a in fron[x] && a in live ensures a in p - {0} {
      assert x in seeds + p && a in p;
      assert InFrontier(c.f.g, x, a);
    }
    assert Closed(fron, seeds, live, p - {0});
  }

  /** A renamer that has just been set up on the result of phiins. */
  ghost predicate SetUp(r: Renamer, fron: seq<seq<nat>>)
    reads r
  {
    && PhisInserted(r.c0, fron) && r.g == r.c0.f.g && r.idom == r.c0.idom && IsKids(r.idom, |r.idom|, r.dom, r.dlink)
    && r.phi == r.c0.h.phi && r.ins == r.c0.h.ins && r.jmp == r.c0.h.jmp && r.ntmp >= r.c0.ntmp
    && r.local == r.owner == r.c0.owner && OldNames(r.owner, r.c0.ntmp, r.ntmp)
    && OneSite(r.ins, r.c0.ntmp, r.ntmp, r.site)
    && r.visit == (map t | t in r.c0.vis :: t) && r.stk == map t | t in r.c0.vis :: []
  }

  lemma RenamerBase(r: Renamer, fron: seq<seq<nat>>)
    requires SetUp(r, fron)
    ensures r.Base()
  {
    var c := r.c0;
    InsertedPlaced(c, fron);
    InsertedShapes(c, fron);
    forall b | 0 <= b < |c.h.phi| ensures FreshPhis(c.h.phi[b], c.skip, c.in'[b], c.vis, c.ntmp) {}
  }

  lemma RenamerStarts(r: Renamer, fron: seq<seq<nat>>)
    requires SetUp(r, fron)
    ensures r.Base() && r.State({}) && Untouched(r.idom, r.c0.vis, r.stk, 0)
    ensures forall t :: t in r.c0.vis ==> Peek(r.idom, r.stk[t], 0) == r.Inherited(r.Conv(), t, 0)
  {
    RenamerBase(r, fron);
    var c := r.c0;
    InsertedPlaced(c, fron);
    InsertedShapes(c, fron);
    forall b | 0 <= b < |c.h.phi| ensures FreshPhis(c.h.phi[b], c.skip, c.in'[b], c.vis, c.ntmp) {}
    assert r.Conv() == c;
  }

  /** Once every block is done the conversion is what SSA construction must achieve. */
  lemma AllRenamed(c0: Conversion, c: Conversion, fron: seq<seq<nat>>, done: set<nat>)
    requires PhisInserted(c0, fron) && Progress(c0, c, done) && forall x: nat :: x < |c.f.ins| ==> x in done
    ensures c.Correct()
  {
    InsertedPlaced(c0, fron);
    InsertedShapes(c0, fron);
    forall b: nat, i: nat | b < |c.f.ins| && i < |c.f.ins[b]| ensures c.RenamedIns(b, i) {
      assert b in done && DoneBlock(c, b);
    }
    forall b: nat | b < |c.f.ins| ensures c.h.jmp[b] == c.Subst(c.f.jmp[b], b, |c.f.ins[b]|) {
      assert b in done && DoneBlock(c, b);
    }
    forall b: nat, k: nat | b < |c.pv| && k < |c.pv[b]| ensures c.RenamedPhi(b, k) {
      assert FreshPhis(c0.h.phi[b], c.skip, c.in'[b], c.vis, c.ntmp) && b in done && DoneBlock(c, b) && PhiArgs(c, done, b, k);
    }
    forall t: nat, a: nat | a < |c.f.ins|
      ensures c.HasPhi(t, a) == c0.HasPhi(t, a) && c.ExitDef(t, a) == c0.ExitDef(t, a) {}
  }

  lemma OneDefinition(c: Conversion, ntmp: nat, site: map<nat, (int, int)>)
    requires c.Shapes() && Sites(c.h.ins, c.h.phi, c.ntmp, ntmp, site)
    requires forall b, k :: 0 <= b < |c.f.ins| && 0 <= k < |c.h.phi[b]| ==> c.h.phi[b][k].to >= c.ntmp
    ensures c.SingleDefs()
  {
    forall b, i | 0 <= b < |c.f.ins| && 0 <= i < |c.f.ins[b]| && c.h.ins[b][i].to.Tmp?
      ensures AtSite(c.h.ins[b][i].to.t, b, i, c.ntmp, ntmp, site) {}
  }

  lemma SubstValid(c: Conversion, r: Ref, b: nat, i: nat, ntmp: nat)
    requires c.Correct() && b < |c.f.ins| && i <= |c.f.ins[b]| && ValidRef(r, c.ntmp)
    requires OldNames(c.owner, c.ntmp, ntmp) && c.ntmp <= ntmp
    ensures ValidRef(c.Subst(r, b, i), ntmp)
  {
    if r.Tmp? { c.CurOwned(r.t, b, i); }
  }

  lemma ResultValid(c: Conversion, done: set<nat>, ntmp: nat)
    requires c.Correct() && OldNames(c.owner, c.ntmp, ntmp) && c.ntmp <= ntmp
    requires forall b, k :: 0 <= b < |c.f.ins| && 0 <= k < |c.pv[b]| ==> c.pv[b][k] < c.ntmp && PhiArgs(c, done, b, k)
    ensures c.h.Valid(ntmp)
  {
    forall b: nat, i: nat | b < |c.f.ins| && i < |c.f.ins[b]| ensures ValidIns(c.h.ins[b][i], ntmp) {
      assert c.RenamedIns(b, i) && ValidIns(c.f.ins[b][i], c.ntmp);
      SubstValid(c, c.f.ins[b][i].arg0, b, i, ntmp);
      SubstValid(c, c.f.ins[b][i].arg1, b, i, ntmp);
    }
    forall b: nat | b < |c.f.ins| ensures ValidRef(c.h.jmp[b], ntmp) {
      assert ValidRef(c.f.jmp[b], c.ntmp);
      SubstValid(c, c.f.jmp[b], b, |c.f.ins[b]|, ntmp);
    }
    forall b: nat, k: nat | b < |c.f.ins| && k < |c.h.phi[b]| ensures ValidPhi(c.h.phi[b][k], ntmp) {
      assert c.RenamedPhi(b, k) && PhiArgs(c, done, b, k);
      forall p | p in c.h.phi[b][k].args ensures ValidRef(c.h.phi[b][k].args[p], ntmp) {
        assert c.f.g.Edge(p, b);
        c.EntryOwned(c.pv[b][k], p);
      }
    }
  }

  lemma RenamerEnds(r: Renamer, fron: seq<seq<nat>>, done: set<nat>)
    requires PhisInserted(r.c0, fron) && r.Base() && r.State(done)
    requires forall x: nat :: x < |r.idom| ==> x in done
    ensures r.Conv().Correct() && r.Conv().SingleDefs() && StackedVars(r.Conv()) && r.Conv().h.Valid(r.ntmp)
  {
    var c := r.Conv();
    SameStackedVars(r.c0, c);
    AllRenamed(r.c0, c, fron, done);
    forall b: nat, k: nat | b < |c.f.ins| && k < |c.pv[b]|
      ensures c.pv[b][k] < c.ntmp && c.h.phi[b][k].to >= c.ntmp && PhiArgs(c, done, b, k)
    {
      assert c.RenamedPhi(b, k);
      InsertedShapes(r.c0, fron);
      InsertedVars(r.c0, fron, c.pv[b][k], b);
    }
    OneDefinition(c, r.ntmp, r.site);
    ResultValid(c, done, r.ntmp);
  }

  /** The analyses that ssa runs before placing phis. */
  method Analyse(f: Fn, ntmp: nat, flt: set<nat>)
    returns (idom: seq<int>, dom: seq<int>, dlink: seq<int>, fron: seq<seq<nat>>, in': seq<set<nat>>, out: seq<set<nat>>)
    requires f.Valid(ntmp) && Ordered(f.g) && NoEntryToStart(f.g)
    ensures IsDomTree(f.g, idom) && IsKids(idom, |idom|, dom, dlink) && |fron| == |f.ins|
    ensures forall a: nat, s: nat :: a < |fron| ==> (s in fron[a] <==> s < |f.g.s1| && InFrontier(f.g, a, s))
    ensures Liveness.Solution(f, ntmp, in', out)
  {
    var n := |f.ins|;
    var idom', dom', dlink' := new int[n], new int[n], new int[n];
    var pred := FillPreds(f.g);
    FillDom(f.g, pred, idom');
    FillKids(idom', dom', dlink');
    var fron' := FillFron(f.g, idom');
    var ins, outs, nlive := new set<nat>[n], new set<nat>[n], new Liveness.Count[n];
    Liveness.FillLive(f, ntmp, flt, ins, outs, nlive);
    idom, dom, dlink, fron, in', out := idom'[..], dom'[..], dlink'[..], fron'[..], ins[..], outs[..];
  }

  /**
   * ssa: the SSA form of a phi-free function whose blocks are in reverse postorder. By SsaPreservesMeaning
   * it runs in lock step with f; by SsaCheckExact every use is dominated by its only definition unless f reads
   * a variable that it has not assigned.
   */
  method Construct(f: Fn, ntmp: nat, flt: set<nat>) returns (h: Fn, nh: nat, ghost c: Conversion)
    requires f.Valid(ntmp) && Ordered(f.g) && NoEntryToStart(f.g)
    requires forall b :: 0 <= b < |f.phi| ==> f.phi[b] == []
    ensures c.f == f && c.ntmp == ntmp && c.h == h && SkipsExempt(f, ntmp, c.skip)
    ensures c.Correct() && c.SingleDefs() && StackedVars(c) && h.Valid(nh)
  {
    var skip := Exempted(f, ntmp);
    var idom, dom, dlink, fron, in', out := Analyse(f, ntmp, flt);
    var b := new Builder(f, ntmp);
    var vis := b.PhiIns(f, ntmp, skip, fron, in', out);
    ghost var c0 := Conversion(f, ntmp, PhiVariables(b.phi), Fn(f.g, b.phi, b.ins, b.jmp), b.owner, idom, in', out, skip, vis);
    var r := new Renamer(c0, dom, dlink, b.phi, b.ins, b.jmp, b.ntmp, f.g, idom, vis, b.site);
    RenamerStarts(r, fron);
    ghost var done := r.RenBlk(0, {});
    forall x: nat | x < |idom| ensures x in done {
      ChainContainsRoot(idom, x);
    }
    RenamerEnds(r, fron, done);
    h, nh, c := Fn(f.g, r.phi, r.ins, r.jmp), r.ntmp, r.Conv();
  }

  /**
   * The exempted variables are left with the one definition they had, so every temporary of the result is assigned
   * by at most one instruction.
   */
  lemma EachDefinedOnce(c: Conversion, t: nat, b: nat, i: nat, b': nat, i': nat)
    requires c.Correct() && c.SingleDefs() && SkipsExempt(c.f, c.ntmp, c.skip)
    requires DefinedAt(c.h, t, b, i) && DefinedAt(c.h, t, b', i')
    ensures b == b' && i == i'
  {
    assert c.RenamedIns(b, i) && c.RenamedIns(b', i');
    assert c.f.Valid(c.ntmp);
    assert ValidIns(c.f.ins[b][i], c.ntmp) && ValidIns(c.f.ins[b'][i'], c.ntmp);
    if t < c.ntmp {
      assert DefinedAt(c.f, t, b, i) && DefinedAt(c.f, t, b', i');
      var d: nat, j: nat :| DefinedOnlyAt(c.f, t, d, j);
    }
  }
}
