/**
 * What SSA construction must achieve: the relation between a function and its SSA form, and the proof
 * that the two run in lock step. The passes of ssa.c are in PhiPlacement and Renaming.
 */
module Ssa {
  import opened Cfg
  import opened Ir
  import opened Dominators
  import opened Frontiers
  import opened Liveness

  /** The index of the last definition of t among the first i instructions, or -1. */
  function LastDef(code: seq<Ins>, t: nat, i: nat): (d: int)
    requires i <= |code|
    ensures -1 <= d < i && (d >= 0 ==> code[d].to == Tmp(t))
    ensures forall j :: d < j < i ==> code[j].to != Tmp(t)
  {
    if i == 0 then -1 else if code[i - 1].to == Tmp(t) then i - 1 else LastDef(code, t, i - 1)
  }

  function IndexOf(s: seq<nat>, t: nat): (k: nat)
    requires t in s
    ensures k < |s| && s[k] == t
  {
    if s[0] == t then 0 else 1 + IndexOf(s[1..], t)
  }

  /**
   * A conversion: f is the phi-free function, pv[b] lists the variables that got a phi in block b,
   * h is the SSA form, idom the dominator tree and in', out the liveness sets of f. Temporaries from
   * ntmp on are new; owner gives the variable a new one stands for. The variables of skip are left
   * alone because they have a single, local definition; those of vis are renamed through name stacks.
   */
  datatype Conversion = Conversion(
    f: Fn, ntmp: nat, pv: seq<seq<nat>>, h: Fn, owner: map<nat, nat>,
    idom: seq<int>, in': seq<set<nat>>, out: seq<set<nat>>, skip: set<nat>, vis: set<nat>)
  {
    ghost predicate Shapes() {
      && f.Valid(ntmp) && h.g == f.g && |h.ins| == |h.phi| == |h.jmp| == |pv| == |f.ins|
      && (forall b :: 0 <= b < |f.ins| ==> f.phi[b] == [] && |h.ins[b]| == |f.ins[b]| && |h.phi[b]| == |pv[b]|)
      && Tree(idom) && |idom| == |f.ins| && (forall b :: 0 <= b < |idom| ==> Set(idom, b) && (b > 0 ==> idom[b] >= 0))
      && Sized(f, ntmp, in', out)
    }

    /** The definition of t in b that is live at the end of b, or -1. */
    ghost function ExitDef(t: nat, b: nat): int
      requires Shapes() && b < |f.ins|
    {
      if t in out[b] then LastDef(f.ins[b], t, |f.ins[b]|) else -1
    }

    ghost predicate HasPhi(t: nat, b: nat)
      requires Shapes() && b < |f.ins|
    {
      t in pv[b]
    }

    ghost function PhiName(t: nat, b: nat): Ref
      requires Shapes() && b < |f.ins| && HasPhi(t, b)
    {
      Tmp(h.phi[b][IndexOf(pv[b], t)].to)
    }

    /** The name of t in front of the body of b, as found on the name stack. */
    ghost function Entry(t: nat, b: nat): Ref
      requires Shapes() && b < |f.ins|
      decreases b, 0
    {
      if HasPhi(t, b) then PhiName(t, b)
      else if b == 0 then (if t in vis then Undef else Tmp(t))
      else Top(t, idom[b])
    }

    /** The name of t at the end of b. */
    ghost function Top(t: nat, b: nat): Ref
      requires Shapes() && b < |f.ins|
      decreases b, 1
    {
      if ExitDef(t, b) >= 0 then h.ins[b][ExitDef(t, b)].to else Entry(t, b)
    }

    /** The name of t in front of instruction i of b. */
    ghost function Cur(t: nat, b: nat, i: nat): Ref
      requires Shapes() && b < |f.ins| && i <= |f.ins[b]|
    {
      if t in skip then Tmp(t)
      else if LastDef(f.ins[b], t, i) >= 0 then h.ins[b][LastDef(f.ins[b], t, i)].to
      else Entry(t, b)
    }

    ghost function Subst(r: Ref, b: nat, i: nat): Ref
      requires Shapes() && b < |f.ins| && i <= |f.ins[b]|
    {
      if r.Tmp? then Cur(r.t, b, i) else r
    }

    /** n stands for the variable t. */
    ghost predicate Owned(n: nat, t: nat) {
      if n < ntmp then n == t else n in owner && owner[n] == t
    }

    /** Every use has been replaced by its current name, every definition by a name of its variable. */
    ghost predicate Renamed() {
      && Shapes()
      && (forall b, i :: 0 <= b < |f.ins| && 0 <= i < |f.ins[b]| ==> RenamedIns(b, i))
      && (forall b :: 0 <= b < |f.ins| ==> h.jmp[b] == Subst(f.jmp[b], b, |f.ins[b]|))
      && (forall b, k :: 0 <= b < |pv| && 0 <= k < |pv[b]| ==> RenamedPhi(b, k))
    }

    ghost predicate RenamedIns(b: nat, i: nat)
      requires Shapes() && b < |f.ins| && i < |f.ins[b]|
    {
      var x, y := f.ins[b][i], h.ins[b][i];
      && y.op == x.op && y.arg0 == Subst(x.arg0, b, i) && y.arg1 == Subst(x.arg1, b, i)
      && RenamedDef(x.to, y.to)
    }

    ghost predicate RenamedDef(x: Ref, y: Ref) {
      if x.Tmp? then y.Tmp? && Owned(y.t, x.t) && (y.t < ntmp <==> x.t in skip) else y == x
    }

    ghost predicate RenamedPhi(b: nat, k: nat)
      requires Shapes() && b < |f.ins| && k < |pv[b]|
    {
      var t, p := pv[b][k], h.phi[b][k];
      && t !in skip && t in vis && t in in'[b] && p.to >= ntmp && Owned(p.to, t)
      && (forall k' :: 0 <= k' < |pv[b]| && pv[b][k'] == t ==> k' == k)
      && forall a: nat :: f.g.Edge(a, b) ==> a in p.args && p.args[a] == Top(t, a)
    }

    /** The placement of phis: closed under dominance frontiers, for variables live there. */
    ghost predicate Placed()
      requires Shapes()
    {
      forall t, a: nat, b: nat ::
        (a < |f.ins| && b < |f.ins| && t !in skip && (HasPhi(t, a) || ExitDef(t, a) >= 0) &&
         InFrontier(f.g, a, b) && t in in'[b])
        ==> HasPhi(t, b)
    }

    ghost predicate Correct() {
      && Renamed() && Placed()
      && IsDomTree(f.g, idom) && NoEntryToStart(f.g) && Solution(f, ntmp, in', out)
      && pv[0] == []
    }

    // ----- names depend only on the definitions in the dominating blocks -----

    /** The two conversions differ only in the SSA form built so far. */
    ghost predicate SameInput(c: Conversion) {
      Shapes() && c.Shapes() && c == this.(h := c.h, owner := c.owner)
    }

    ghost predicate SameDefs(c: Conversion, b: nat)
      requires SameInput(c) && b < |f.ins|
    {
      && (forall i :: 0 <= i < |f.ins[b]| ==> c.h.ins[b][i].to == h.ins[b][i].to)
      && (forall k :: 0 <= k < |pv[b]| ==> c.h.phi[b][k].to == h.phi[b][k].to)
    }

    lemma {:induction false} SameNames(c: Conversion, t: nat, b: nat)
      requires SameInput(c) && b < |f.ins| && forall x: nat :: x in Chain(idom, b) ==> SameDefs(c, x)
      ensures c.Entry(t, b) == Entry(t, b) && c.Top(t, b) == Top(t, b)
      decreases b
    {
      assert SameDefs(c, b);
      if b > 0 {
        forall x: nat | x in Chain(idom, idom[b]) ensures SameDefs(c, x) {
          assert x in Chain(idom, b);
        }
        SameNames(c, t, idom[b]);
      }
    }

    // ----- names and their variables -----

    lemma {:induction false} EntryOwned(t: nat, b: nat)
      requires Renamed() && b < |f.ins| && t < ntmp
      ensures Entry(t, b).Undef? || (Entry(t, b).Tmp? && Owned(Entry(t, b).t, t))
      ensures Top(t, b).Undef? || (Top(t, b).Tmp? && Owned(Top(t, b).t, t))
      decreases b
    {
      if ExitDef(t, b) >= 0 {
        assert RenamedIns(b, ExitDef(t, b));
      }
      if HasPhi(t, b) {
        assert RenamedPhi(b, IndexOf(pv[b], t));
      } else if b != 0 {
        EntryOwned(t, idom[b]);
      }
    }

    lemma CurOwned(t: nat, b: nat, i: nat)
      requires Renamed() && b < |f.ins| && i <= |f.ins[b]| && t < ntmp
      ensures Cur(t, b, i).Undef? || (Cur(t, b, i).Tmp? && Owned(Cur(t, b, i).t, t))
    {
      EntryOwned(t, b);
      if LastDef(f.ins[b], t, i) >= 0 {
        assert RenamedIns(b, LastDef(f.ins[b], t, i));
      }
    }

    /**
     * Along an edge into a block where a live t has no phi, the name of t at the end of the predecessor
     * is the one at the end of the block's immediate dominator: nothing in between defines t.
     */
    lemma NameAcrossEdge(t: nat, p: nat, b: nat)
      requires Correct() && f.g.Edge(p, b) && t !in skip && t in in'[b] && !HasPhi(t, b)
      ensures 0 < b < |idom| && idom[b] >= 0 && Top(t, p) == Top(t, idom[b])
    {
      assert Dominates(f.g, idom[b], b) by { assert idom[b] in Chain(idom, b); }
      DominatesPred(f.g, idom[b], b, p);
      NameUpTo(t, p, p, b);
    }

    lemma {:induction false} NameUpTo(t: nat, a: nat, p: nat, b: nat)
      requires Correct() && f.g.Edge(p, b) && t !in skip && t in in'[b] && !HasPhi(t, b) && b > 0
      requires a in Chain(idom, p) && idom[b] in Chain(idom, a)
      ensures Top(t, a) == Top(t, idom[b])
      decreases a
    {
      if a != idom[b] {
        assert a > idom[b];
        assert InFrontier(f.g, a, b) by {
          assert a in Chain(idom, p) && Dominates(f.g, a, p);
          assert a != b ==> a !in Chain(idom, b);
        }
        ChainOf(idom, p, a);
        NameUpTo(t, idom[a], p, b);
      }
    }

    // ----- the result is in SSA form -----

    /** Block d defines the new temporary n by a phi or by one of its first `bound` instructions. */
    ghost predicate Defines(d: nat, n: nat, bound: nat)
      requires Shapes() && d < |f.ins| && bound <= |f.ins[d]|
    {
      || (exists k :: 0 <= k < |h.phi[d]| && h.phi[d][k].to == n)
      || (exists j :: 0 <= j < bound && h.ins[d][j].to == Tmp(n))
    }

    /** Block b and every block that it dominates can read n from instruction i of b on. */
    ghost predicate Available(n: nat, b: nat, i: nat)
      requires Shapes() && b < |f.ins| && i <= |f.ins[b]|
    {
      exists d: nat :: d < |f.ins| && Dominates(f.g, d, b) && Defines(d, n, if d == b then i else |f.ins[d]|)
    }

    ghost predicate SameSite(x: Ref, y: Ref, b: nat, i: nat, b': nat, i': nat) {
      x == y && x.Tmp? && x.t >= ntmp ==> b == b' && i == i'
    }

    /** No new temporary has two definitions. */
    ghost predicate SingleDefs()
      requires Shapes()
    {
      && (forall b, i, b', i' :: 0 <= b < |f.ins| && 0 <= i < |f.ins[b]| && 0 <= b' < |f.ins| && 0 <= i' < |f.ins[b']| ==>
            SameSite(h.ins[b][i].to, h.ins[b'][i'].to, b, i, b', i'))
      && (forall b, k, b', k' :: 0 <= b < |f.ins| && 0 <= k < |h.phi[b]| && 0 <= b' < |f.ins| && 0 <= k' < |h.phi[b']| ==>
            SameSite(Tmp(h.phi[b][k].to), Tmp(h.phi[b'][k'].to), b, k, b', k'))
      && (forall b, i, b', k' :: 0 <= b < |f.ins| && 0 <= i < |f.ins[b]| && 0 <= b' < |f.ins| && 0 <= k' < |h.phi[b']| ==>
            h.ins[b][i].to != Tmp(h.phi[b'][k'].to))
    }

    lemma {:induction false} NamesAreAvailable(t: nat, b: nat)
      requires Correct() && b < |f.ins| && t < ntmp
      ensures Entry(t, b).Tmp? && Entry(t, b).t >= ntmp ==> Available(Entry(t, b).t, b, 0)
      ensures Top(t, b).Tmp? && Top(t, b).t >= ntmp ==> Available(Top(t, b).t, b, |f.ins[b]|)
      decreases b
    {
      assert Dominates(f.g, b, b);
      if HasPhi(t, b) {
        assert Entry(t, b).Tmp? && Defines(b, Entry(t, b).t, 0);
      } else if b > 0 && Entry(t, b).Tmp? && Entry(t, b).t >= ntmp {
        var a: nat, n := idom[b], Entry(t, b).t;
        NamesAreAvailable(t, a);
        var d: nat :| d < |f.ins| && Dominates(f.g, d, a) && Defines(d, n, if d == a then |f.ins[a]| else |f.ins[d]|);
        assert d in Chain(idom, a) && d in Chain(idom, b);
      }
      if Entry(t, b).Tmp? && Entry(t, b).t >= ntmp {
        MoreAvailable(Entry(t, b).t, b, 0, |f.ins[b]|);
      }
    }

    lemma MoreAvailable(n: nat, b: nat, i: nat, j: nat)
      requires Shapes() && b < |f.ins| && i <= j <= |f.ins[b]| && Available(n, b, i)
      ensures Available(n, b, j)
    {
      var d: nat :| d < |f.ins| && Dominates(f.g, d, b) && Defines(d, n, if d == b then i else |f.ins[d]|);
      assert Defines(d, n, if d == b then j else |f.ins[d]|);
    }

    /**
     * Every use of a new temporary is dominated by its definition. By RenamedPhi the use of a phi is
     * Top of the predecessor, so it counts at the predecessor's end.
     */
    lemma UsesAreDominated(t: nat, b: nat, i: nat)
      requires Correct() && b < |f.ins| && i <= |f.ins[b]| && t < ntmp
      ensures Cur(t, b, i).Tmp? && Cur(t, b, i).t >= ntmp ==> Available(Cur(t, b, i).t, b, i)
      ensures Top(t, b).Tmp? && Top(t, b).t >= ntmp ==> Available(Top(t, b).t, b, |f.ins[b]|)
    {
      NamesAreAvailable(t, b);
      assert Dominates(f.g, b, b);
      if t !in skip && Cur(t, b, i).Tmp? && Cur(t, b, i).t >= ntmp {
        if LastDef(f.ins[b], t, i) >= 0 {
          assert Defines(b, Cur(t, b, i).t, i);
        } else {
          MoreAvailable(Cur(t, b, i).t, b, 0, i);
        }
      }
    }
  }
}
