/** The intermediate representation: operands, instructions, phis and functions. */
module Ir {
  import opened Cfg

  /** An operand: R (absent), a temporary, an integer constant, or UNDEF. */
  datatype Ref = R | Tmp(t: nat) | Con(v: int) | Undef

  datatype Ins = Ins(op: nat, to: Ref, arg0: Ref, arg1: Ref)

  /** A phi; args plays the parallel vectors Phi.blk and Phi.arg, indexed by predecessor. */
  datatype Phi = Phi(to: nat, args: map<nat, Ref>)

  datatype Fn = Fn(g: Graph, phi: seq<seq<Phi>>, ins: seq<seq<Ins>>, jmp: seq<Ref>) {
    /** Every operand of a function numbers its temporaries below ntmp, and only temporaries are assigned. */
    ghost predicate Valid(ntmp: nat) {
      && g.Valid() && |phi| == |ins| == |jmp| == |g.s1|
      && (forall b, i :: 0 <= b < |ins| && 0 <= i < |ins[b]| ==> ValidIns(ins[b][i], ntmp))
      && (forall b :: 0 <= b < |jmp| ==> ValidRef(jmp[b], ntmp))
      && (forall b, i :: 0 <= b < |phi| && 0 <= i < |phi[b]| ==> ValidPhi(phi[b][i], ntmp))
    }
  }

  predicate ValidRef(r: Ref, ntmp: nat) {
    r.Tmp? ==> r.t < ntmp
  }

  predicate ValidIns(i: Ins, ntmp: nat) {
    (i.to.R? || i.to.Tmp?) && ValidRef(i.to, ntmp) && ValidRef(i.arg0, ntmp) && ValidRef(i.arg1, ntmp)
  }

  ghost predicate ValidPhi(p: Phi, ntmp: nat) {
    p.to < ntmp && forall b :: b in p.args ==> ValidRef(p.args[b], ntmp)
  }
}
