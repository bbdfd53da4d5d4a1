/** phiins of ssa.c: local renaming of block-local definitions and the worklist that places phis. */
module PhiPlacement {
  import opened Cfg
  import opened Ir
  import opened Frontiers
  import opened Liveness
  import opened LocalRenaming
  import opened Ssa

  // ----- the worklist -----

  ghost predicate Closed(fron: seq<seq<nat>>, seeds: set<nat>, live: set<nat>, q: set<nat>) {
    forall x, a :: x in seeds + q && x < |fron| && a in fron[x] && a in live ==> a in q
  }

  /** The least closed set, which is where phis belong. */
  ghost predicate LeastClosed(fron: seq<seq<nat>>, seeds: set<nat>, live: set<nat>, p: set<nat>) {
    Closed(fron, seeds, live, p) && forall q :: Closed(fron, seeds, live, q) ==> p <= q
  }

  /**
   * The worklist u, the blocks already taken from it, and the block b whose frontier is being walked,
   * up to position k. A phi has been placed in every block that was seen and has the variable live.
   */
  ghost predicate Work(fron: seq<seq<nat>>, seeds: set<nat>, live: set<nat>,
                       seen: set<nat>, u: set<nat>, done: set<nat>, b: nat, k: nat) {
    && u !! done && (b < |fron| ==> b !in u && b !in done)
    && done + u + (if b < |fron| then {b} else {}) == seeds + seen * live
    && (forall x, a :: x in done && x < |fron| && a in fron[x] ==> a in seen)
    && (b < |fron| ==> k <= |fron[b]| && forall j :: 0 <= j < k ==> fron[b][j] in seen)
    && (forall q :: Closed(fron, seeds, live, q) ==> seen * live <= q)
  }

  lemma WorkStep(fron: seq<seq<nat>>, seeds: set<nat>, live: set<nat>,
                 seen: set<nat>, u: set<nat>, done: set<nat>, b: nat, k: nat)
    requires Work(fron, seeds, live, seen, u, done, b, k) && b < |fron| && k < |fron[b]|
    ensures
      var a := fron[b][k];
      Work(fron, seeds, live, seen + {a}, if a !in seen && a in live && a !in seeds then u + {a} else u, done, b, k + 1)
  {
    var a := fron[b][k];
    assert b in seeds + seen * live;
    forall q | Closed(fron, seeds, live, q) ensures (seen + {a}) * live <= q {
      assert seen * live <= q;
      if a in live { assert b in seeds + q; }
    }
    if a !in seen && a in live && a !in seeds {
      assert a !in done && a != b;
    }
  }

  lemma WorkTake(fron: seq<seq<nat>>, seeds: set<nat>, live: set<nat>, seen: set<nat>, u: set<nat>, done: set<nat>,
                 b: nat)
    requires Work(fron, seeds, live, seen, u, done, |fron|, 0) && b in u && b < |fron|
    ensures Work(fron, seeds, live, seen, u - {b}, done, b, 0)
  {}

  lemma WorkTaken(fron: seq<seq<nat>>, seeds: set<nat>, live: set<nat>, seen: set<nat>, u: set<nat>, done: set<nat>,
                  b: nat)
    requires b < |fron| && Work(fron, seeds, live, seen, u, done, b, |fron[b]|)
    ensures Work(fron, seeds, live, seen, u, done + {b}, |fron|, 0)
  {}

  lemma WorkDone(fron: seq<seq<nat>>, seeds: set<nat>, live: set<nat>, seen: set<nat>, done: set<nat>)
    requires Work(fron, seeds, live, seen, {}, done, |fron|, 0)
    ensures LeastClosed(fron, seeds, live, seen * live)
  {}

  ghost function Blocks(n: nat): (bs: set<nat>)
    ensures |bs| == n && forall b: nat :: b in bs <==> b < n
  {
    if n == 0 then {} else Blocks(n - 1) + {n - 1}
  }

  lemma RoomFor(u: set<nat>, n: nat, a: nat)
    requires u <= Blocks(n) && a < n && a !in u
    ensures |u| < n
  {
    Larger(u + {a}, Blocks(n));
  }

  lemma {:induction false} AtMost(l: seq<nat>, u: set<nat>)
    requires forall x :: x in u ==> x in l
    ensures |u| <= |l|
  {
    if l == [] {
      assert u == {};
    } else {
      AtMost(l[1..], u - {l[0]});
    }
  }

  /** l holds the blocks of u, each once. */
  ghost predicate Lists(l: seq<nat>, u: set<nat>, n: nat) {
    |u| == |l| && u <= Blocks(n) && forall x :: x in u <==> x in l
  }

  /** The array blist of phiins, filled from its end, with the bit set u of the blocks it holds. */
  class Worklist {
    const blist: array<nat>
    var bp: nat
    var u: set<nat>

    ghost predicate Valid()
      reads this, blist
    {
      bp <= blist.Length && Lists(blist[bp..], u, blist.Length)
    }

    predicate Empty()
      requires Valid()
      reads this, blist
      ensures Empty() <==> u == {}
    {
      bp == blist.Length
    }

    constructor (nblk: nat)
      ensures Valid() && fresh(blist) && blist.Length == nblk && u == {}
    {
      blist := new nat[nblk];
      bp, u := nblk, {};
    }

    /** There is always room: the list never holds a block twice. */
    method Push(a: nat)
      requires Valid() && a < blist.Length && a !in u
      modifies this, blist
      ensures Valid() && u == old(u) + {a}
    {
      RoomFor(u, blist.Length, a);
      ghost var l := blist[bp..];
      bp := bp - 1;
      blist[bp] := a;
      assert blist[bp..] == [a] + l;
      u := u + {a};
    }

    method Pop() returns (b: nat)
      requires Valid() && !Empty()
      modifies this
      ensures Valid() && b in old(u) && u == old(u) - {b}
    {
      b := blist[bp];
      ghost var l := blist[bp..];
      assert l == [b] + blist[bp + 1..];
      if b in blist[bp + 1..] {
        AtMost(blist[bp + 1..], u);
        assert false;
      }
      bp := bp + 1;
      u := u - {b};
    }
  }

  /** The state of SSA construction that phiins and renblk update. */
  class Builder {
    var phi: seq<seq<Phi>>
    var ins: seq<seq<Ins>>
    var jmp: seq<Ref>
    var ntmp: nat
    ghost var owner: map<nat, nat>
    ghost var site: map<nat, (int, int)>

    constructor (f: Fn, n: nat)
      ensures phi == f.phi && ins == f.ins && jmp == f.jmp && ntmp == n && owner == map[] && site == map[]
    {
      phi, ins, jmp, ntmp, owner, site := f.phi, f.ins, f.jmp, n, map[], map[];
    }

    /** The first half of phiins for t in block b, when t is not live at the end of b. */
    method RenameBlock(f: Fn, ntmp0: nat, b: nat, t: nat, ghost done: set<nat>)
      requires f.Valid(ntmp0) && |ins| == |jmp| == |f.ins| && b < |f.ins|
      requires t !in done && t < ntmp0 <= ntmp && OneSite(ins, ntmp0, ntmp, site) && OldNames(owner, ntmp0, ntmp)
      requires LocalBlock(f.ins[b], f.jmp[b], ins[b], jmp[b], done, ntmp0, owner)
      modifies this`ins, this`jmp, this`ntmp, this`owner, this`site
      ensures |ins| == |jmp| == |f.ins| && ins == old(ins)[b := ins[b]] && jmp == old(jmp)[b := jmp[b]]
      ensures ntmp >= old(ntmp) && OneSite(ins, ntmp0, ntmp, site) && OldNames(owner, ntmp0, ntmp)
      ensures forall n :: n in old(owner) ==> n in owner && owner[n] == old(owner)[n]
      ensures LocalBlock(f.ins[b], f.jmp[b], ins[b], jmp[b], done + {t}, ntmp0, owner)
    {
      ghost var ins0, owner0 := ins, owner;
      var code, j, n1 := RenameTemp(ins[b], jmp[b], t, ntmp);
      owner := map n: nat | n < n1 && (n in owner0 || n >= ntmp) :: if n in owner0 then owner0[n] else t;
      LocalStep(f.ins[b], f.jmp[b], ins[b], jmp[b], code, j, t, done, ntmp0, owner0, owner, ntmp, n1);
      OneSiteStep(ins, b, code, j, jmp[b], t, ntmp0, ntmp, n1, site);
      site := AddSites(site, code, b, ntmp, n1);
      ins, jmp, ntmp := ins[b := code], jmp[b := j], n1;
    }

    /** The search for a definition of t in block b, when t is live at the end of b. */
    method HasDef(code: seq<Ins>, t: nat) returns (r: bool)
      ensures r <==> LastDef(code, t, |code|) >= 0
    {
      r := false;
      for i := 0 to |code|
        invariant r <==> LastDef(code, t, i) >= 0
      {
        if code[i].to == Tmp(t) {
          r := true;
        }
      }
    }

    /** The first half of phiins for t in block b; seed tells whether a definition of t is live at its end. */
    method ScanBlock(f: Fn, ntmp0: nat, t: nat, skip: set<nat>, live: set<nat>, b: nat) returns (seed: bool)
      requires f.Valid(ntmp0) && |ins| == |jmp| == |f.ins| && b < |f.ins|
      requires t < ntmp0 <= ntmp && t !in skip && OldNames(owner, ntmp0, ntmp) && OneSite(ins, ntmp0, ntmp, site)
      requires LocalBlock(f.ins[b], f.jmp[b], ins[b], jmp[b], DoneVars(skip, live, t), ntmp0, owner)
      modifies this`ins, this`jmp, this`ntmp, this`owner, this`site
      ensures |ins| == |jmp| == |f.ins| && ins == old(ins)[b := ins[b]] && jmp == old(jmp)[b := jmp[b]]
      ensures ntmp >= old(ntmp) && OneSite(ins, ntmp0, ntmp, site) && OldNames(owner, ntmp0, ntmp)
      ensures forall n :: n in old(owner) ==> n in owner && owner[n] == old(owner)[n]
      ensures LocalBlock(f.ins[b], f.jmp[b], ins[b], jmp[b], DoneVars(skip, live, t + 1), ntmp0, owner)
      ensures seed <==> t in live && LastDef(f.ins[b], t, |f.ins[b]|) >= 0
    {
      ghost var done := DoneVars(skip, live, t);
      SameDefs(f.ins[b], ins[b], t, |ins[b]|, done, ntmp0, owner);
      if t in live {
        assert DoneVars(skip, live, t + 1) == done;
        seed := HasDef(ins[b], t);
      } else {
        assert DoneVars(skip, live, t + 1) == done + {t};
        RenameBlock(f, ntmp0, b, t, done);
        seed := false;
      }
    }

    method ScanNext(f: Fn, ntmp0: nat, t: nat, skip: set<nat>, out: seq<set<nat>>, b: nat, w: Worklist)
      requires f.Valid(ntmp0) && b < |f.ins| == |out| == w.blist.Length && w.Valid() && w.u == SeedsBelow(f, out, t, b)
      requires t < ntmp0 <= ntmp && t !in skip && OldNames(owner, ntmp0, ntmp) && OneSite(ins, ntmp0, ntmp, site)
      requires LocalUpTo(f, ntmp0, skip, out, t, b, ins, jmp, owner)
      modifies this`ins, this`jmp, this`ntmp, this`owner, this`site, w, w.blist
      ensures ntmp >= old(ntmp) && OneSite(ins, ntmp0, ntmp, site) && OldNames(owner, ntmp0, ntmp)
      ensures LocalUpTo(f, ntmp0, skip, out, t, b + 1, ins, jmp, owner)
      ensures w.Valid() && w.u == SeedsBelow(f, out, t, b + 1)
    {
      ghost var ins0, jmp0, owner0 := ins, jmp, owner;
      var seed := ScanBlock(f, ntmp0, t, skip, out[b], b);
      SeedsStep(f, out, t, b);
      LocalUpToStep(f, ntmp0, skip, out, t, b, ins0, jmp0, owner0, ins, jmp, owner);
      if seed {
        w.Push(b);
      }
    }

    /** The first half of phiins for t: w receives the blocks with a definition of t that is live at their end. */
    method Scan(f: Fn, ntmp0: nat, t: nat, skip: set<nat>, out: seq<set<nat>>, w: Worklist)
      requires f.Valid(ntmp0) && |f.ins| == |out| == w.blist.Length && w.Valid() && w.u == {}
      requires t < ntmp0 <= ntmp && t !in skip && OldNames(owner, ntmp0, ntmp) && OneSite(ins, ntmp0, ntmp, site)
      requires LocalUpTo(f, ntmp0, skip, out, t, 0, ins, jmp, owner)
      modifies this`ins, this`jmp, this`ntmp, this`owner, this`site, w, w.blist
      ensures w.Valid() && w.u == Seeds(f, out, t) && ntmp >= old(ntmp) && OldNames(owner, ntmp0, ntmp)
      ensures OneSite(ins, ntmp0, ntmp, site) && LocalUpTo(f, ntmp0, skip, out, t + 1, 0, ins, jmp, owner)
    {
      for b: nat := 0 to |f.ins|
        invariant ntmp >= old(ntmp) && OldNames(owner, ntmp0, ntmp)
        invariant w.Valid() && w.u == SeedsBelow(f, out, t, b)
        invariant OneSite(ins, ntmp0, ntmp, site) && LocalUpTo(f, ntmp0, skip, out, t, b, ins, jmp, owner)
      {
        ScanNext(f, ntmp0, t, skip, out, b, w);
      }
    }

    /** One member a of the frontier being walked. */
    method Reach(t: nat, live: set<nat>, w: Worklist, a: nat, defs: set<nat>, visit: seq<nat>, ghost seen: set<nat>)
      returns (visit': seq<nat>)
      requires w.Valid() && |phi| == |visit| == w.blist.Length && a < |phi| && Visits(visit, seen)
      modifies this`phi, w, w.blist
      ensures w.Valid() && |visit'| == |visit| && Visits(visit', seen + {a})
      ensures w.u == if a !in seen && t in live && a !in defs then old(w.u) + {a} else old(w.u)
      ensures phi == if a !in seen && t in live then old(phi)[a := [Phi(t, map[])] + old(phi)[a]] else old(phi)
    {
      if visit[a] == 0 && t in live {
        phi := phi[a := [Phi(t, map[])] + phi[a]];
        if a !in defs && a !in w.u {
          w.Push(a);
        }
      }
      visit' := visit[a := visit[a] + 1];
    }

    /** The walk of the frontier of b. */
    method WalkFrontier(t: nat, fron: seq<seq<nat>>, live: seq<set<nat>>, w: Worklist, b: nat, defs: set<nat>,
                        visit0: seq<nat>,
                        ghost seen0: set<nat>, ghost done: set<nat>, ghost phi0: seq<seq<Phi>>)
      returns (visit: seq<nat>, ghost seen: set<nat>)
      requires |phi| == |fron| == |live| == |visit0| == w.blist.Length && w.Valid() && b < |fron|
      requires forall x :: x in fron[b] ==> x < |fron|
      requires Visits(visit0, seen0) && Work(fron, defs, LiveBlocks(live, t), seen0, w.u, done, b, 0)
      requires WithPhis(phi0, phi, t, seen0 * LiveBlocks(live, t))
      modifies this`phi, w, w.blist
      ensures w.Valid() && Visits(visit, seen) && |visit| == |visit0| && |phi| == |phi0|
      ensures Work(fron, defs, LiveBlocks(live, t), seen, w.u, done, b, |fron[b]|)
      ensures WithPhis(phi0, phi, t, seen * LiveBlocks(live, t))
      ensures seen0 <= seen && (seen == seen0 ==> w.u == old(w.u))
    {
      visit, seen := visit0, seen0;
      ghost var lv := LiveBlocks(live, t);
      for n := 0 to |fron[b]|
        invariant w.Valid() && Visits(visit, seen) && |visit| == |visit0|
        invariant Work(fron, defs, lv, seen, w.u, done, b, n)
        invariant WithPhis(phi0, phi, t, seen * lv)
        invariant seen0 <= seen && (seen == seen0 ==> w.u == old(w.u))
      {
        var a := fron[b][n];
        assert a in fron[b];
        WorkStep(fron, defs, lv, seen, w.u, done, b, n);
        ghost var phi1 := phi;
        visit := Reach(t, live[a], w, a, defs, visit, seen);
        PhisGrow(phi0, phi1, phi, t, seen, live, a);
        seen := seen + {a};
      }
    }

    /** The worklist loop's body: take a block and walk its frontier. */
    method PlaceNext(t: nat, fron: seq<seq<nat>>, live: seq<set<nat>>, w: Worklist, defs: set<nat>, visit0: seq<nat>,
                     ghost seen0: set<nat>, ghost done0: set<nat>, ghost phi0: seq<seq<Phi>>)
      returns (visit: seq<nat>, ghost seen: set<nat>, ghost done: set<nat>)
      requires |phi| == |fron| == |live| == |visit0| == w.blist.Length && w.Valid() && !w.Empty()
      requires forall b, x :: 0 <= b < |fron| && x in fron[b] ==> x < |fron|
      requires Visits(visit0, seen0) && Work(fron, defs, LiveBlocks(live, t), seen0, w.u, done0, |fron|, 0)
      requires WithPhis(phi0, phi, t, seen0 * LiveBlocks(live, t))
      modifies this`phi, w, w.blist
      ensures w.Valid() && Visits(visit, seen) && |visit| == |visit0| && |phi| == |phi0|
      ensures Work(fron, defs, LiveBlocks(live, t), seen, w.u, done, |fron|, 0)
      ensures WithPhis(phi0, phi, t, seen * LiveBlocks(live, t))
      ensures |phi0| - |seen| >= 0 && (|seen| > |seen0| || (|seen| == |seen0| && |w.u| < old(|w.u|)))
    {
      ghost var u1, lv := w.u, LiveBlocks(live, t);
      var b := w.Pop();
      WorkTake(fron, defs, lv, seen0, u1, done0, b);
      visit, seen := WalkFrontier(t, fron, live, w, b, defs, visit0, seen0, done0, phi0);
      WorkTaken(fron, defs, lv, seen, w.u, done0, b);
      done := done0 + {b};
      SeenGrows(seen0, seen, |phi0|);
    }

    /** The second half of phiins for t, started with the blocks whose definition of t is live-out. */
    method Place(t: nat, fron: seq<seq<nat>>, live: seq<set<nat>>, w: Worklist) returns (ghost placed: set<nat>)
      requires |phi| == |fron| == |live| == w.blist.Length && w.Valid()
      requires forall b, x :: 0 <= b < |fron| && x in fron[b] ==> x < |fron|
      modifies this`phi, w, w.blist
      ensures LeastClosed(fron, old(w.u), LiveBlocks(live, t), placed)
      ensures WithPhis(old(phi), phi, t, placed) && w.Valid() && w.u == {}
    {
      ghost var lv, phi0 := LiveBlocks(live, t), phi;
      var defs := w.u;
      var visit := seq(|phi|, _ => 0);
      ghost var seen, done := {}, {};
      while !w.Empty()
        invariant w.Valid() && Visits(visit, seen) && |visit| == |phi0|
        invariant Work(fron, defs, lv, seen, w.u, done, |fron|, 0)
        invariant WithPhis(phi0, phi, t, seen * lv)
        decreases |phi0| - |seen|, |w.u|
      {
        visit, seen, done := PlaceNext(t, fron, live, w, defs, visit, seen, done, phi0);
      }
      WorkDone(fron, defs, lv, seen, done);
      placed := seen * lv;
    }

    /** The body of phiins for one temporary. */
    method PhiInsTemp(f: Fn, ntmp0: nat, skip: set<nat>, fron: seq<seq<nat>>, in': seq<set<nat>>, out: seq<set<nat>>,
                      t: nat, vis0: set<nat>, w: Worklist)
      returns (vis: set<nat>)
      requires f.Valid(ntmp0) && t < ntmp0 && t !in skip && w.Valid() && w.u == {} && w.blist.Length == |f.ins|
      requires forall b, x :: 0 <= b < |fron| && x in fron[b] ==> x < |fron|
      requires ntmp >= ntmp0 && OldNames(owner, ntmp0, ntmp) && OneSite(ins, ntmp0, ntmp, site)
      requires LocalUpTo(f, ntmp0, skip, out, t, 0, ins, jmp, owner)
      requires PlacedUpTo(f, fron, in', out, skip, phi, vis0, t)
      modifies this, w, w.blist
      ensures w.Valid() && w.u == {} && ntmp >= ntmp0 && OldNames(owner, ntmp0, ntmp) && OneSite(ins, ntmp0, ntmp, site)
      ensures LocalUpTo(f, ntmp0, skip, out, t + 1, 0, ins, jmp, owner)
      ensures PlacedUpTo(f, fron, in', out, skip, phi, vis, t + 1)
    {
      vis := vis0;
      ghost var phi0 := phi;
      Scan(f, ntmp0, t, skip, out, w);
      if !w.Empty() {
        vis := vis + {t};
      }
      ghost var placed := Place(t, fron, in', w);
      PlacedStep(f, fron, in', out, skip, phi0, phi, vis0, vis, t, placed);
    }

    /** phiins: skip holds the temporaries with one local definition, the result those to be renamed through stacks. */
    method PhiIns(f: Fn, ntmp0: nat, skip: set<nat>, fron: seq<seq<nat>>, in': seq<set<nat>>, out: seq<set<nat>>)
      returns (vis: set<nat>)
      requires f.Valid(ntmp0) && |fron| == |in'| == |out| == |f.ins|
      requires (forall b :: 0 <= b < |f.phi| ==> f.phi[b] == [])
      requires phi == f.phi && ins == f.ins && jmp == f.jmp && ntmp == ntmp0 && owner == map[] && site == map[]
      requires forall b, x :: 0 <= b < |fron| && x in fron[b] ==> x < |fron|
      modifies this
      ensures ntmp >= ntmp0 && OldNames(owner, ntmp0, ntmp) && OneSite(ins, ntmp0, ntmp, site)
      ensures LocalUpTo(f, ntmp0, skip, out, ntmp0, 0, ins, jmp, owner)
      ensures PlacedUpTo(f, fron, in', out, skip, phi, vis, ntmp0)
    {
      vis := {};
      var w := new Worklist(|f.ins|);
      LocalStart(f, ntmp0, skip, out);
      for t := 0 to ntmp0
        invariant w.Valid() && w.u == {} && w.blist.Length == |f.ins| && fresh(w) && fresh(w.blist)
        invariant ntmp >= ntmp0 && OldNames(owner, ntmp0, ntmp) && OneSite(ins, ntmp0, ntmp, site)
        invariant LocalUpTo(f, ntmp0, skip, out, t, 0, ins, jmp, owner)
        invariant PlacedUpTo(f, fron, in', out, skip, phi, vis, t)
      {
        if t in skip {
          LocalSkip(f, ntmp0, skip, out, t, ins, jmp, owner);
          PlacedSkip(f, fron, in', out, skip, phi, vis, t);
          continue;
        }
        vis := PhiInsTemp(f, ntmp0, skip, fron, in', out, t, vis, w);
      }
    }
  }

  lemma PlacedSkip(f: Fn, fron: seq<seq<nat>>, in': seq<set<nat>>, out: seq<set<nat>>, skip: set<nat>,
                   phi: seq<seq<Phi>>, vis: set<nat>, t: nat)
    requires PlacedUpTo(f, fron, in', out, skip, phi, vis, t) && t in skip
    ensures PlacedUpTo(f, fron, in', out, skip, phi, vis, t + 1)
  {
    forall b | 0 <= b < |phi| ensures FreshPhis(phi[b], skip, in'[b], vis, t + 1) {
      assert FreshPhis(phi[b], skip, in'[b], vis, t);
    }
  }

  lemma LocalStart(f: Fn, ntmp0: nat, skip: set<nat>, out: seq<set<nat>>)
    requires f.Valid(ntmp0) && |out| == |f.ins|
    ensures LocalUpTo(f, ntmp0, skip, out, 0, 0, f.ins, f.jmp, map[])
    ensures OneSite(f.ins, ntmp0, ntmp0, map[])
  {
    forall b, i | 0 <= b < |f.ins| && 0 <= i < |f.ins[b]| ensures f.ins[b][i].to.Tmp? ==> f.ins[b][i].to.t < ntmp0 {
      assert ValidIns(f.ins[b][i], ntmp0);
    }
  }

  lemma PhisGrow(phi0: seq<seq<Phi>>, phi1: seq<seq<Phi>>, phi2: seq<seq<Phi>>, t: nat, seen: set<nat>,
                 live: seq<set<nat>>, a: nat)
    requires WithPhis(phi0, phi1, t, seen * LiveBlocks(live, t)) && a < |phi1| == |live|
    requires phi2 == if a !in seen && t in live[a] then phi1[a := [Phi(t, map[])] + phi1[a]] else phi1
    ensures WithPhis(phi0, phi2, t, (seen + {a}) * LiveBlocks(live, t))
  {}

  lemma SeenGrows(seen0: set<nat>, seen: set<nat>, n: nat)
    requires seen0 <= seen <= Blocks(n)
    ensures |seen0| <= |seen| <= n && (seen0 != seen ==> |seen0| < |seen|)
  {
    Larger(seen0, seen);
    Larger(seen, Blocks(n));
  }

  /** The blocks with a phi for t. */
  ghost function PhiBlocks(phi: seq<seq<Phi>>, t: nat): (bs: set<nat>)
    ensures forall b: nat :: b in bs <==> b < |phi| && t in PhiDefs(phi[b])
  {
    set b: nat | b < |phi| && t in PhiDefs(phi[b])
  }

  /**
   * The phis placed in a block: no arguments yet, one per variable, only for variables below lim that are live
   * there.
   */
  ghost predicate FreshPhis(ps: seq<Phi>, skip: set<nat>, live: set<nat>, vis: set<nat>, lim: nat) {
    && (forall k :: 0 <= k < |ps| ==>
        ps[k] == Phi(ps[k].to, map[]) && ps[k].to < lim && ps[k].to !in skip && ps[k].to in live && ps[k].to in vis)
    && (forall k, l :: 0 <= k < l < |ps| ==> ps[k].to != ps[l].to)
  }

  /** The variables below lim that have got a name stack: those with a definition live at the end of a block. */
  ghost predicate Stacked(f: Fn, out: seq<set<nat>>, skip: set<nat>, vis: set<nat>, lim: nat)
    requires |out| == |f.ins|
  {
    forall t: nat :: t in vis <==> t < lim && t !in skip && Seeds(f, out, t) != {}
  }

  /** What phiins has done for the temporaries below lim. */
  ghost predicate PlacedUpTo(f: Fn, fron: seq<seq<nat>>, in': seq<set<nat>>, out: seq<set<nat>>, skip: set<nat>,
                             phi: seq<seq<Phi>>, vis: set<nat>, lim: nat) {
    && |fron| == |in'| == |out| == |phi| == |f.ins|
    && (forall b :: 0 <= b < |phi| ==> FreshPhis(phi[b], skip, in'[b], vis, lim))
    && (forall t: nat :: t < lim && t !in skip ==>
          LeastClosed(fron, Seeds(f, out, t), LiveBlocks(in', t), PhiBlocks(phi, t)))
    && Stacked(f, out, skip, vis, lim)
  }

  lemma PlacedStep(f: Fn, fron: seq<seq<nat>>, in': seq<set<nat>>, out: seq<set<nat>>, skip: set<nat>,
                   phi: seq<seq<Phi>>, phi': seq<seq<Phi>>, vis: set<nat>, vis': set<nat>, t: nat, placed: set<nat>)
    requires PlacedUpTo(f, fron, in', out, skip, phi, vis, t) && t !in skip
    requires LeastClosed(fron, Seeds(f, out, t), LiveBlocks(in', t), placed) && WithPhis(phi, phi', t, placed)
    requires vis' == if Seeds(f, out, t) != {} then vis + {t} else vis
    ensures PlacedUpTo(f, fron, in', out, skip, phi', vis', t + 1)
  {
    PlacedBound(fron, Seeds(f, out, t), LiveBlocks(in', t), placed);
    forall b | 0 <= b < |phi'| ensures FreshPhis(phi'[b], skip, in'[b], vis', t + 1) {
      FreshCons(phi[b], skip, in'[b], vis, vis', t, b in placed);
      assert phi'[b] == (if b in placed then [Phi(t, map[])] else []) + phi[b];
    }
    forall u: nat | u < t + 1 && u !in skip
      ensures LeastClosed(fron, Seeds(f, out, u), LiveBlocks(in', u), PhiBlocks(phi', u))
    {
      PhiBlocksStep(phi, phi', t, placed, u);
      if u == t {
        NoneYet(f, fron, in', out, skip, phi, vis, t);
        assert PhiBlocks(phi', t) == placed;
      }
    }
  }

  /** The least closed set only has live blocks, and is empty without seeds. */
  lemma PlacedBound(fron: seq<seq<nat>>, seeds: set<nat>, live: set<nat>, placed: set<nat>)
    requires LeastClosed(fron, seeds, live, placed)
    ensures placed <= live && (seeds == {} ==> placed == {})
  {
    assert Closed(fron, seeds, live, placed * live);
    if seeds == {} {
      assert Closed(fron, seeds, live, {});
    }
  }

  lemma FreshCons(ps: seq<Phi>, skip: set<nat>, live: set<nat>, vis: set<nat>, vis': set<nat>, t: nat, add: bool)
    requires FreshPhis(ps, skip, live, vis, t) && vis <= vis'
    requires add ==> t !in skip && t in live && t in vis'
    ensures FreshPhis((if add then [Phi(t, map[])] else []) + ps, skip, live, vis', t + 1)
  {
    var qs := (if add then [Phi(t, map[])] else []) + ps;
    if !add { assert qs == ps; }
  }

  lemma NoneYet(f: Fn, fron: seq<seq<nat>>, in': seq<set<nat>>, out: seq<set<nat>>, skip: set<nat>,
                phi: seq<seq<Phi>>, vis: set<nat>, t: nat)
    requires PlacedUpTo(f, fron, in', out, skip, phi, vis, t)
    ensures PhiBlocks(phi, t) == {}
  {
    forall b: nat | b < |phi| ensures t !in PhiDefs(phi[b]) {
      assert FreshPhis(phi[b], skip, in'[b], vis, t);
    }
  }

  lemma PhiBlocksStep(phi: seq<seq<Phi>>, phi': seq<seq<Phi>>, t: nat, placed: set<nat>, u: nat)
    requires WithPhis(phi, phi', t, placed) && forall b :: b in placed ==> b < |phi|
    ensures PhiBlocks(phi', u) == PhiBlocks(phi, u) + if u == t then placed else {}
  {
    forall b: nat | b < |phi| ensures b in PhiBlocks(phi', u) <==> b in PhiBlocks(phi, u) || (u == t && b in placed) {
      assert phi'[b] == (if b in placed then [Phi(t, map[])] else []) + phi[b];
      if b in placed {
        PhiDefsCons(Phi(t, map[]), phi[b]);
      } else {
        assert phi'[b] == phi[b];
      }
    }
  }

  lemma PhiDefsCons(p: Phi, ps: seq<Phi>)
    ensures PhiDefs([p] + ps) == {p.to} + PhiDefs(ps)
  {
    var qs := [p] + ps;
    assert qs[0] == p;
    forall i | 0 <= i < |ps| ensures ps[i].to in PhiDefs(qs) {
      assert qs[i + 1] == ps[i];
    }
  }

  /** The visit counters are positive for the blocks seen. */
  ghost predicate Visits(visit: seq<nat>, seen: set<nat>) {
    seen <= Blocks(|visit|) && forall a: nat :: a < |visit| ==> (visit[a] > 0 <==> a in seen)
  }

  /** The names given so far lie between the first new temporary and the next one. */
  ghost predicate OldNames(owner: map<nat, nat>, ntmp0: nat, ntmp: nat) {
    forall n :: n in owner ==> ntmp0 <= n < ntmp
  }

  /** Every new name defined by an instruction is below ntmp and defined only at its site. */
  ghost predicate OneSite(ins: seq<seq<Ins>>, ntmp0: nat, ntmp: nat, site: map<nat, (int, int)>) {
    forall b, i :: 0 <= b < |ins| && 0 <= i < |ins[b]| && ins[b][i].to.Tmp? ==>
      AtSite(ins[b][i].to.t, b, i, ntmp0, ntmp, site)
  }

  ghost predicate AtSite(n: nat, b: int, i: int, ntmp0: nat, ntmp: nat, site: map<nat, (int, int)>) {
    n < ntmp && (n >= ntmp0 ==> n in site && site[n] == (b, i))
  }

  ghost predicate DefinesName(code: seq<Ins>, n: nat, i: int) {
    0 <= i < |code| && code[i].to == Tmp(n)
  }

  ghost predicate HasName(code: seq<Ins>, n: nat) {
    exists i :: DefinesName(code, n, i)
  }

  ghost function AddSites(site: map<nat, (int, int)>, code: seq<Ins>, b: int, n0: nat, n1: nat): map<nat, (int, int)> {
    site + map n: nat | n0 <= n < n1 && HasName(code, n) :: (var i :| DefinesName(code, n, i); (b, i))
  }

  lemma OneSiteStep(ins: seq<seq<Ins>>, b: nat, code: seq<Ins>, j: Ref, j0: Ref, t: nat, ntmp0: nat, n0: nat, n1: nat,
                    site: map<nat, (int, int)>)
    requires OneSite(ins, ntmp0, n0, site) && b < |ins| && TempPass(ins[b], code, j0, j, t, n0, n1) && t < ntmp0 <= n0
    ensures OneSite(ins[b := code], ntmp0, n1, AddSites(site, code, b, n0, n1))
  {
    var ins1: seq<seq<Ins>> := ins[b := code];
    var site1 := AddSites(site, code, b, n0, n1);
    forall c, i | 0 <= c < |ins1| && 0 <= i < |ins1[c]| && ins1[c][i].to.Tmp?
      ensures AtSite(ins1[c][i].to.t, c, i, ntmp0, n1, site1)
    {
      if c == b {
        assert TempRenamed(ins[b], code, t, i, n0, n1);
      }
      if c == b && ins[b][i].to == Tmp(t) {
        var n := code[i].to.t;
        assert DefinesName(code, n, i);
        forall k | DefinesName(code, n, k) ensures k == i {
          assert TempRenamed(ins[b], code, t, k, n0, n1);
        }
      } else {
        assert AtSite(ins[c][i].to.t, c, i, ntmp0, n0, site);
      }
    }
  }

  lemma LocalMono(code0: seq<Ins>, j0: Ref, code: seq<Ins>, j: Ref, done: set<nat>, ntmp: nat, owner: map<nat, nat>,
                  owner': map<nat, nat>)
    requires LocalBlock(code0, j0, code, j, done, ntmp, owner)
    requires forall n :: n in owner ==> n in owner' && owner'[n] == owner[n]
    ensures LocalBlock(code0, j0, code, j, done, ntmp, owner')
  {
    forall i | 0 <= i < |code0| ensures LocalIns(code0, code, done, i, ntmp, owner') {
      assert LocalIns(code0, code, done, i, ntmp, owner);
    }
  }

  /** The temporaries below lim that phiins renames locally in a block with the given live-out set. */
  ghost function DoneVars(skip: set<nat>, out: set<nat>, lim: nat): set<nat> {
    set u: nat | u < lim && u !in skip && u !in out
  }

  /** The blocks below b have been scanned for the temporaries up to t, the others for those below t. */
  ghost predicate LocalUpTo(f: Fn, ntmp0: nat, skip: set<nat>, out: seq<set<nat>>, t: nat, b: nat,
                            ins: seq<seq<Ins>>, jmp: seq<Ref>, owner: map<nat, nat>) {
    && |ins| == |jmp| == |f.ins| == |f.jmp| == |out|
    && forall x :: 0 <= x < |ins| ==>
      LocalBlock(f.ins[x], f.jmp[x], ins[x], jmp[x], DoneVars(skip, out[x], if x < b then t + 1 else t), ntmp0, owner)
  }

  lemma LocalSkip(f: Fn, ntmp0: nat, skip: set<nat>, out: seq<set<nat>>, t: nat,
                  ins: seq<seq<Ins>>, jmp: seq<Ref>, owner: map<nat, nat>)
    requires LocalUpTo(f, ntmp0, skip, out, t, 0, ins, jmp, owner) && t in skip
    ensures LocalUpTo(f, ntmp0, skip, out, t + 1, 0, ins, jmp, owner)
  {
    forall x | 0 <= x < |out| ensures DoneVars(skip, out[x], t + 1) == DoneVars(skip, out[x], t) {}
  }

  lemma LocalUpToStep(f: Fn, ntmp0: nat, skip: set<nat>, out: seq<set<nat>>, t: nat, b: nat,
                      ins0: seq<seq<Ins>>, jmp0: seq<Ref>, owner0: map<nat, nat>,
                      ins: seq<seq<Ins>>, jmp: seq<Ref>, owner: map<nat, nat>)
    requires LocalUpTo(f, ntmp0, skip, out, t, b, ins0, jmp0, owner0) && b < |ins0| == |ins| == |jmp|
    requires ins == ins0[b := ins[b]] && jmp == jmp0[b := jmp[b]]
    requires forall n :: n in owner0 ==> n in owner && owner[n] == owner0[n]
    requires LocalBlock(f.ins[b], f.jmp[b], ins[b], jmp[b], DoneVars(skip, out[b], t + 1), ntmp0, owner)
    ensures LocalUpTo(f, ntmp0, skip, out, t, b + 1, ins, jmp, owner)
  {
    forall x | 0 <= x < |ins|
      ensures LocalBlock(f.ins[x], f.jmp[x], ins[x], jmp[x], DoneVars(skip, out[x], if x < b + 1 then t + 1 else t), ntmp0, owner)
    {
      if x != b {
        LocalMono(f.ins[x], f.jmp[x], ins[x], jmp[x], DoneVars(skip, out[x], if x < b then t + 1 else t), ntmp0, owner0, owner);
      }
    }
  }

  /** The blocks with a definition of t that is live at their end. */
  ghost function Seeds(f: Fn, out: seq<set<nat>>, t: nat): set<nat>
    requires |out| == |f.ins|
  {
    SeedsBelow(f, out, t, |f.ins|)
  }

  ghost function SeedsBelow(f: Fn, out: seq<set<nat>>, t: nat, n: nat): set<nat>
    requires |out| == |f.ins|
  {
    set b: nat | b < n && b < |f.ins| && t in out[b] && LastDef(f.ins[b], t, |f.ins[b]|) >= 0
  }

  lemma SeedsStep(f: Fn, out: seq<set<nat>>, t: nat, n: nat)
    requires |out| == |f.ins| && n < |f.ins|
    ensures n !in SeedsBelow(f, out, t, n)
    ensures SeedsBelow(f, out, t, n + 1) ==
      SeedsBelow(f, out, t, n) + if t in out[n] && LastDef(f.ins[n], t, |f.ins[n]|) >= 0 then {n} else {}
  {}

  ghost function LiveBlocks(live: seq<set<nat>>, t: nat): set<nat> {
    set b: nat | b < |live| && t in live[b]
  }

  /** Every block of p has received a phi for t in front of its others. */
  ghost predicate WithPhis(phi0: seq<seq<Phi>>, phi: seq<seq<Phi>>, t: nat, p: set<nat>) {
    |phi| == |phi0| && forall b :: 0 <= b < |phi| ==> phi[b] == (if b in p then [Phi(t, map[])] else []) + phi0[b]
  }
}
