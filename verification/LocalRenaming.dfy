/**
 * The first half of phiins in ssa.c: definitions that are not live at the end of their block get names of their
 * own.
 */
module LocalRenaming {
  import opened Ir
  import opened Ssa

  // ----- one temporary, one block -----

  function TempSubst(code: seq<Ins>, code': seq<Ins>, t: nat, i: nat, r: Ref): Ref
    requires i <= |code| == |code'|
  {
    if r == Tmp(t) && LastDef(code, t, i) >= 0 then code'[LastDef(code, t, i)].to else r
  }

  /** Instruction x of the code, after the definitions of t have been given names between n0 and n1. */
  ghost predicate TempRenamed(code: seq<Ins>, code': seq<Ins>, t: nat, i: nat, n0: nat, n1: nat)
    requires i < |code| == |code'|
  {
    var x, y := code[i], code'[i];
    && y.op == x.op && y.arg0 == TempSubst(code, code', t, i, x.arg0) && y.arg1 == TempSubst(code, code', t, i, x.arg1)
    && (if x.to == Tmp(t) then y.to.Tmp? && n0 <= y.to.t < n1 else y.to == x.to)
  }

  ghost predicate TempPass(code: seq<Ins>, code': seq<Ins>, j: Ref, j': Ref, t: nat, n0: nat, n1: nat) {
    && |code'| == |code| && n0 <= n1 && j' == TempSubst(code, code', t, |code|, j)
    && (forall i :: 0 <= i < |code| ==> TempRenamed(code, code', t, i, n0, n1))
    && (forall i, k :: 0 <= i < k < |code| && code[i].to == code[k].to == Tmp(t) ==> code'[i].to != code'[k].to)
  }

  /** The instruction loop of phiins for a block at whose end t is dead. */
  method RenameTemp(code: seq<Ins>, j: Ref, t: nat, n0: nat) returns (code': seq<Ins>, j': Ref, n1: nat)
    ensures TempPass(code, code', j, j', t, n0, n1)
  {
    code', n1 := code, n0;
    var r := R;
    for i := 0 to |code|
      invariant |code'| == |code| && n0 <= n1 && code'[i..] == code[i..]
      invariant r == if LastDef(code, t, i) >= 0 then code'[LastDef(code, t, i)].to else R
      invariant forall k :: 0 <= k < i ==> TempRenamed(code, code', t, k, n0, n1)
      invariant if LastDef(code, t, i) >= 0 then r.Tmp? else r.R?
      invariant forall k, l :: 0 <= k < l < i && code[k].to == code[l].to == Tmp(t) ==> code'[k].to != code'[l].to
    {
      var x := code'[i];
      assert x == code[i..][0] == code[i];
      ghost var prev, m := code', n1;
      if r != R {
        x := x.(arg0 := if x.arg0 == Tmp(t) then r else x.arg0, arg1 := if x.arg1 == Tmp(t) then r else x.arg1);
      }
      if x.to == Tmp(t) {
        r := Tmp(n1);
        n1 := n1 + 1;
        x := x.(to := r);
      }
      code' := code'[i := x];
      forall k | 0 <= k < i + 1 ensures TempRenamed(code, code', t, k, n0, n1) {
        var d := LastDef(code, t, k);
        assert d >= 0 ==> code'[d] == prev[d];
        if k < i {
          assert TempRenamed(code, prev, t, k, n0, m) && code'[k] == prev[k];
        }
      }
      forall k, l | 0 <= k < l < i + 1 && code[k].to == code[l].to == Tmp(t) ensures code'[k].to != code'[l].to {
        assert TempRenamed(code, prev, t, k, n0, m) && code'[k] == prev[k];
      }
    }
    j' := if r != R && j == Tmp(t) then r else j;
  }

  // ----- all temporaries of one block -----

  function Subst(code0: seq<Ins>, code: seq<Ins>, done: set<nat>, i: nat, r: Ref): Ref
    requires i <= |code0| == |code|
  {
    if r.Tmp? && r.t in done && LastDef(code0, r.t, i) >= 0 then code[LastDef(code0, r.t, i)].to else r
  }

  /** y is a new name of the variable that x defines, if that variable has been dealt with. */
  ghost predicate NewDef(x: Ref, y: Ref, done: set<nat>, ntmp: nat, owner: map<nat, nat>) {
    if x.Tmp? && x.t in done then y.Tmp? && y.t >= ntmp && y.t in owner && owner[y.t] == x.t else y == x
  }

  ghost predicate LocalIns(code0: seq<Ins>, code: seq<Ins>, done: set<nat>, i: nat, ntmp: nat, owner: map<nat, nat>)
    requires i < |code0| == |code|
  {
    var x, y := code0[i], code[i];
    && y.op == x.op && y.arg0 == Subst(code0, code, done, i, x.arg0) && y.arg1 == Subst(code0, code, done, i, x.arg1)
    && NewDef(x.to, y.to, done, ntmp, owner)
  }

  /** The block after the temporaries of `done` have been renamed in it. */
  ghost predicate LocalBlock(code0: seq<Ins>, j0: Ref, code: seq<Ins>, j: Ref, done: set<nat>, ntmp: nat,
                             owner: map<nat, nat>) {
    && |code| == |code0| && j == Subst(code0, code, done, |code0|, j0)
    && forall i :: 0 <= i < |code0| ==> LocalIns(code0, code, done, i, ntmp, owner)
  }

  lemma {:induction false} SameDefs(code0: seq<Ins>, code: seq<Ins>, t: nat, i: nat, done: set<nat>, ntmp: nat,
                                    owner: map<nat, nat>)
    requires i <= |code0| == |code| && t !in done && t < ntmp
    requires forall k :: 0 <= k < |code0| ==> LocalIns(code0, code, done, k, ntmp, owner)
    ensures LastDef(code, t, i) == LastDef(code0, t, i)
  {
    if i > 0 {
      assert LocalIns(code0, code, done, i - 1, ntmp, owner);
      SameDefs(code0, code, t, i - 1, done, ntmp, owner);
    }
  }

  lemma SubstStep(code0: seq<Ins>, code: seq<Ins>, code': seq<Ins>, t: nat, i: nat, r: Ref,
                  done: set<nat>, ntmp: nat, owner: map<nat, nat>, n0: nat, n1: nat)
    requires i <= |code0| == |code| == |code'| && t !in done && t < ntmp && ValidRef(r, ntmp)
    requires forall k :: 0 <= k < |code0| ==> LocalIns(code0, code, done, k, ntmp, owner)
    requires forall k :: 0 <= k < |code| ==> TempRenamed(code, code', t, k, n0, n1)
    ensures TempSubst(code, code', t, i, Subst(code0, code, done, i, r)) == Subst(code0, code', done + {t}, i, r)
  {
    SameDefs(code0, code, t, i, done, ntmp, owner);
    if r.Tmp? && LastDef(code0, r.t, i) >= 0 {
      var d := LastDef(code0, r.t, i);
      assert LocalIns(code0, code, done, d, ntmp, owner) && TempRenamed(code, code', t, d, n0, n1);
    }
  }

  /** Dealing with one more temporary. */
  lemma LocalStep(code0: seq<Ins>, j0: Ref, code: seq<Ins>, j: Ref, code': seq<Ins>, j': Ref, t: nat,
                  done: set<nat>, ntmp: nat, owner: map<nat, nat>, owner': map<nat, nat>, n0: nat, n1: nat)
    requires LocalBlock(code0, j0, code, j, done, ntmp, owner) && TempPass(code, code', j, j', t, n0, n1)
    requires (forall i :: 0 <= i < |code0| ==> ValidIns(code0[i], ntmp)) && ValidRef(j0, ntmp)
    requires t !in done && t < ntmp <= n0
    requires forall n :: n in owner ==> n in owner' && owner'[n] == owner[n]
    requires forall n :: n0 <= n < n1 ==> n in owner' && owner'[n] == t
    ensures LocalBlock(code0, j0, code', j', done + {t}, ntmp, owner')
  {
    SubstStep(code0, code, code', t, |code0|, j0, done, ntmp, owner, n0, n1);
    forall i | 0 <= i < |code0| ensures LocalIns(code0, code', done + {t}, i, ntmp, owner') {
      assert LocalIns(code0, code, done, i, ntmp, owner) && TempRenamed(code, code', t, i, n0, n1);
      assert ValidIns(code0[i], ntmp);
      SubstStep(code0, code, code', t, i, code0[i].arg0, done, ntmp, owner, n0, n1);
      SubstStep(code0, code, code', t, i, code0[i].arg1, done, ntmp, owner, n0, n1);
    }
  }
}
