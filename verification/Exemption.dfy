/** The variables that phiins leaves alone, from the definitions and uses counted by filluse in ssa.c. */
module Exemption {
  import opened Cfg
  import opened Ir

  ghost predicate DefinedAt(f: Fn, t: nat, b: int, i: int) {
    0 <= b < |f.ins| && 0 <= i < |f.ins[b]| && f.ins[b][i].to == Tmp(t)
  }

  /** Instruction i of b reads t; the jump counts as the last one. */
  predicate ReadsAt(f: Fn, t: nat, b: nat, i: nat)
    requires |f.ins| == |f.jmp|
  {
    && b < |f.ins| && i <= |f.ins[b]|
    && if i < |f.ins[b]| then f.ins[b][i].arg0 == Tmp(t) || f.ins[b][i].arg1 == Tmp(t) else f.jmp[b] == Tmp(t)
  }

  /** t has one definition, in the start block or in the block of all its uses. */
  ghost predicate Exempt(f: Fn, t: nat)
    requires |f.ins| == |f.jmp|
  {
    exists b: nat, i: nat :: DefinedOnlyAt(f, t, b, i) && (b == 0 || UsedOnlyIn(f, t, b))
  }

  ghost predicate DefinedOnlyAt(f: Fn, t: nat, b: nat, i: nat) {
    DefinedAt(f, t, b, i) && forall b', i' :: DefinedAt(f, t, b', i') ==> b' == b && i' == i
  }

  ghost predicate UsedOnlyIn(f: Fn, t: nat, b: nat)
    requires |f.ins| == |f.jmp|
  {
    forall b', i' :: ReadsAt(f, t, b', i') ==> b' == b
  }

  /** Position (b', i') comes before (b, i). */
  predicate Earlier(b': int, i': int, b: int, i: int) {
    b' < b || (b' == b && i' < i)
  }

  /** The definitions of t among the instructions before (b, i): how many, up to two, and the block of the last one. */
  ghost predicate Counted(f: Fn, t: nat, b: int, i: int, n: nat, defb: nat, defi: nat) {
    && n <= 2
    && (n == 0 ==> forall b', i' :: DefinedAt(f, t, b', i') ==> !Earlier(b', i', b, i))
    && (n > 0 ==> DefinedAt(f, t, defb, defi) && Earlier(defb, defi, b, i))
    && (n == 1 ==> forall b', i' :: DefinedAt(f, t, b', i') && Earlier(b', i', b, i) ==> b' == defb && i' == defi)
    && (n == 2 ==> exists b', i' :: DefinedAt(f, t, b', i') && (b' != defb || i' != defi))
  }

  /** ndef and bid of filluse; a count above one does not matter. */
  method CountDefs(f: Fn, t: nat) returns (n: nat, defb: nat, ghost defi: nat)
    ensures n <= 2 && (n == 1 <==> exists b: nat, i: nat :: DefinedOnlyAt(f, t, b, i))
    ensures n == 1 ==> DefinedOnlyAt(f, t, defb, defi)
  {
    n, defb, defi := 0, 0, 0;
    for b := 0 to |f.ins|
      invariant Counted(f, t, b, 0, n, defb, defi)
    {
      for i := 0 to |f.ins[b]|
        invariant Counted(f, t, b, i, n, defb, defi)
      {
        if f.ins[b][i].to == Tmp(t) {
          assert DefinedAt(f, t, b, i);
          n := if n == 0 then 1 else 2;
          defb, defi := b, i;
        }
      }
    }
    assert forall b', i' :: DefinedAt(f, t, b', i') ==> Earlier(b', i', |f.ins|, 0);
    assert n == 1 ==> DefinedOnlyAt(f, t, defb, defi);
  }

  /** The loop over the use list. */
  method UsedOnly(f: Fn, t: nat, b: nat) returns (ok: bool)
    requires |f.ins| == |f.jmp|
    ensures ok <==> UsedOnlyIn(f, t, b)
  {
    for b' := 0 to |f.ins|
      invariant forall c: nat, i: nat :: c < b' && ReadsAt(f, t, c, i) ==> c == b
    {
      for i := 0 to |f.ins[b']|
        invariant forall k: nat :: k < i && ReadsAt(f, t, b', k) ==> b' == b
      {
        if (f.ins[b'][i].arg0 == Tmp(t) || f.ins[b'][i].arg1 == Tmp(t)) && b' != b {
          assert ReadsAt(f, t, b', i);
          return false;
        }
      }
      if f.jmp[b'] == Tmp(t) && b' != b {
        assert ReadsAt(f, t, b', |f.ins[b']|);
        return false;
      }
    }
    ok := true;
  }

  /** The exempted variables. */
  method Exempted(f: Fn, ntmp: nat) returns (skip: set<nat>)
    requires |f.ins| == |f.jmp|
    ensures forall t: nat :: t in skip <==> t < ntmp && Exempt(f, t)
  {
    skip := {};
    for t := 0 to ntmp
      invariant forall u: nat :: u in skip <==> u < t && Exempt(f, u)
    {
      var n, defb, defi := CountDefs(f, t);
      if n == 1 {
        var ok := UsedOnly(f, t, defb);
        if ok || defb == 0 {
          skip := skip + {t};
          assert Exempt(f, t);
        }
      }
    }
  }
}
