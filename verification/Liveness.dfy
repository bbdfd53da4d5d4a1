/** Liveness analysis: liveon and filllive of live.c, for functions without calls and physical registers. */
module Liveness {
  import opened Cfg
  import opened Ir

  function Uses(r: Ref): set<nat> {
    if r.Tmp? then {r.t} else {}
  }

  /** The temporaries live before the instruction when `after` are live after it. */
  function BeforeIns(i: Ins, after: set<nat>): set<nat> {
    after - Uses(i.to) + Uses(i.arg0) + Uses(i.arg1)
  }

  function BeforeAll(code: seq<Ins>, after: set<nat>): set<nat> {
    if code == [] then after else BeforeIns(code[0], BeforeAll(code[1..], after))
  }

  function PhiDefs(ps: seq<Phi>): set<nat> {
    set i | 0 <= i < |ps| :: ps[i].to
  }

  function PhiUses(ps: seq<Phi>, b: nat): set<nat> {
    set i, t | 0 <= i < |ps| && b in ps[i].args && t in Uses(ps[i].args[b]) :: t
  }

  // ----- liveness by paths -----

  /** t is read in the body of b before any write to it. */
  predicate Exposed(f: Fn, b: nat, t: nat)
    requires b < |f.ins| && b < |f.jmp|
  {
    t in BeforeAll(f.ins[b], Uses(f.jmp[b]))
  }

  predicate Kills(f: Fn, b: nat, t: nat)
    requires b < |f.ins|
  {
    exists i :: 0 <= i < |f.ins[b]| && f.ins[b][i].to == Tmp(t)
  }

  /** t is live in front of the body of b because of a use reached along q. */
  ghost predicate LiveBody(f: Fn, ntmp: nat, b: nat, q: seq<nat>, t: nat)
    requires f.Valid(ntmp) && b < |f.ins|
    decreases |q|, 0
  {
    if q == [] then Exposed(f, b, t) else !Kills(f, b, t) && LiveExit(f, ntmp, b, q, t)
  }

  /** t is live at the end of b because of a use reached along q; a phi's use belongs to its edge. */
  ghost predicate LiveExit(f: Fn, ntmp: nat, b: nat, q: seq<nat>, t: nat)
    requires f.Valid(ntmp) && b < |f.ins| && q != []
    decreases |q|, 0, 0
  {
    && f.g.Edge(b, q[0])
    && ((|q| == 1 && t in PhiUses(f.phi[q[0]], b))
        || (t !in PhiDefs(f.phi[q[0]]) && LiveBody(f, ntmp, q[0], q[1..], t)))
  }

  ghost predicate LiveIn(f: Fn, ntmp: nat, b: nat, t: nat)
    requires f.Valid(ntmp) && b < |f.ins|
  {
    exists q :: LiveBody(f, ntmp, b, q, t)
  }

  ghost predicate LiveOut(f: Fn, ntmp: nat, b: nat, t: nat)
    requires f.Valid(ntmp) && b < |f.ins|
  {
    exists q :: q != [] && LiveExit(f, ntmp, b, q, t)
  }

  lemma {:induction false} BeforeAllSplit(code: seq<Ins>, after: set<nat>, t: nat)
    ensures t in BeforeAll(code, after) <==>
      t in BeforeAll(code, {}) || (t in after && forall i :: 0 <= i < |code| ==> code[i].to != Tmp(t))
  {
    if code != [] {
      BeforeAllSplit(code[1..], after, t);
      assert forall i :: 0 < i < |code| ==> code[i] == code[1..][i - 1];
    }
  }

  // ----- the flow equations -----

  ghost function BodyIn(f: Fn, b: nat, out: set<nat>): set<nat>
    requires b < |f.ins| && b < |f.jmp|
  {
    BeforeAll(f.ins[b], out + Uses(f.jmp[b]))
  }

  /** What is live along the edge from b to s when `ins` is live in front of the body of s. */
  function AlongEdge(f: Fn, b: nat, s: nat, ins: set<nat>): set<nat>
    requires s < |f.phi|
  {
    ins - PhiDefs(f.phi[s]) + PhiUses(f.phi[s], b)
  }

  ghost predicate Sized(f: Fn, ntmp: nat, in': seq<set<nat>>, out: seq<set<nat>>) {
    f.Valid(ntmp) && |in'| == |out| == |f.ins|
  }

  ghost predicate BodyEqn(f: Fn, ntmp: nat, in': seq<set<nat>>, out: seq<set<nat>>, b: nat)
    requires Sized(f, ntmp, in', out) && b < |f.ins|
  {
    in'[b] == BodyIn(f, b, out[b])
  }

  ghost predicate EdgeEqn(f: Fn, ntmp: nat, in': seq<set<nat>>, out: seq<set<nat>>, b: nat)
    requires Sized(f, ntmp, in', out) && b < |f.ins|
  {
    forall s: nat :: f.g.Edge(b, s) ==> AlongEdge(f, b, s, in'[s]) <= out[b]
  }

  ghost predicate Solution(f: Fn, ntmp: nat, in': seq<set<nat>>, out: seq<set<nat>>) {
    && Sized(f, ntmp, in', out)
    && forall b :: 0 <= b < |f.ins| ==> BodyEqn(f, ntmp, in', out, b) && EdgeEqn(f, ntmp, in', out, b)
  }

  /** Only what is really live has been recorded. */
  ghost predicate Justified(f: Fn, ntmp: nat, in': seq<set<nat>>, out: seq<set<nat>>) {
    && Sized(f, ntmp, in', out)
    && (forall b, t :: 0 <= b < |f.ins| && t in in'[b] ==> LiveIn(f, ntmp, b, t))
    && (forall b, t :: 0 <= b < |f.ins| && t in out[b] ==> LiveOut(f, ntmp, b, t))
  }

  lemma LiveBodyFromOut(f: Fn, ntmp: nat, b: nat, out: set<nat>, t: nat)
    requires f.Valid(ntmp) && b < |f.ins| && t in BodyIn(f, b, out)
    requires forall u :: u in out ==> LiveOut(f, ntmp, b, u)
    ensures LiveIn(f, ntmp, b, t)
  {
    BeforeAllSplit(f.ins[b], out + Uses(f.jmp[b]), t);
    BeforeAllSplit(f.ins[b], Uses(f.jmp[b]), t);
    if Exposed(f, b, t) {
      assert LiveBody(f, ntmp, b, [], t);
    } else {
      var q :| q != [] && LiveExit(f, ntmp, b, q, t);
      assert LiveBody(f, ntmp, b, q, t);
    }
  }

  lemma LiveOutFromEdge(f: Fn, ntmp: nat, b: nat, s: nat, ins: set<nat>, t: nat)
    requires f.Valid(ntmp) && b < |f.ins| && f.g.Edge(b, s) && t in AlongEdge(f, b, s, ins)
    requires forall u :: u in ins ==> LiveIn(f, ntmp, s, u)
    ensures LiveOut(f, ntmp, b, t)
  {
    if t in PhiUses(f.phi[s], b) {
      assert LiveExit(f, ntmp, b, [s], t);
    } else {
      var q :| LiveBody(f, ntmp, s, q, t);
      assert ([s] + q)[1..] == q;
      assert LiveExit(f, ntmp, b, [s] + q, t);
    }
  }

  /** A solution of the flow equations misses nothing that is live. */
  lemma {:induction false} SolutionCovers(f: Fn, ntmp: nat, in': seq<set<nat>>, out: seq<set<nat>>, b: nat, q: seq<nat>,
                                          t: nat)
    requires Solution(f, ntmp, in', out) && b < |f.ins|
    ensures LiveBody(f, ntmp, b, q, t) ==> t in in'[b]
    ensures q != [] && LiveExit(f, ntmp, b, q, t) ==> t in out[b]
    decreases |q|
  {
    assert BodyEqn(f, ntmp, in', out, b) && EdgeEqn(f, ntmp, in', out, b);
    if q != [] && LiveExit(f, ntmp, b, q, t) {
      SolutionCovers(f, ntmp, in', out, q[0], q[1..], t);
      assert t in AlongEdge(f, b, q[0], in'[q[0]]);
    }
    BeforeAllSplit(f.ins[b], out[b] + Uses(f.jmp[b]), t);
    BeforeAllSplit(f.ins[b], Uses(f.jmp[b]), t);
  }

  /** The least solution is liveness. */
  lemma LeastSolution(f: Fn, ntmp: nat, in': seq<set<nat>>, out: seq<set<nat>>, b: nat, t: nat)
    requires Solution(f, ntmp, in', out) && Justified(f, ntmp, in', out) && b < |f.ins|
    ensures t in in'[b] <==> LiveIn(f, ntmp, b, t)
    ensures t in out[b] <==> LiveOut(f, ntmp, b, t)
  {
    if LiveIn(f, ntmp, b, t) {
      var q :| LiveBody(f, ntmp, b, q, t);
      SolutionCovers(f, ntmp, in', out, b, q, t);
    }
    if LiveOut(f, ntmp, b, t) {
      var q :| q != [] && LiveExit(f, ntmp, b, q, t);
      SolutionCovers(f, ntmp, in', out, b, q, t);
    }
  }

  // ----- register pressure -----

  /** The live temporaries of one register bank: k = 1 for floating point (KBASE). */
  ghost function Bank(live: set<nat>, flt: set<nat>, k: nat): set<nat> {
    if k == 0 then live - flt else live * flt
  }

  /** The number of temporaries of bank k that are live in front of instruction i, or behind the last one. */
  ghost function LiveCount(code: seq<Ins>, after: set<nat>, flt: set<nat>, k: nat, i: nat): nat
    requires i <= |code|
  {
    |Bank(BeforeAll(code[i..], after), flt, k)|
  }

  /** n is the largest number of temporaries of bank k that are live at once at any point of the code. */
  ghost predicate Peak(n: nat, code: seq<Ins>, after: set<nat>, flt: set<nat>, k: nat) {
    && (forall i :: 0 <= i <= |code| ==> LiveCount(code, after, flt, k, i) <= n)
    && (exists i :: 0 <= i <= |code| && LiveCount(code, after, flt, k, i) == n)
  }

  /** One instruction more at the head: the largest number is the old one or the count in front of it. */
  lemma PeakStep(n: nat, n': nat, code: seq<Ins>, after: set<nat>, flt: set<nat>, k: nat)
    requires code != [] && Peak(n, code[1..], after, flt, k)
    requires n' >= n && n' >= LiveCount(code, after, flt, k, 0)
    requires n' == n || n' == LiveCount(code, after, flt, k, 0)
    ensures Peak(n', code, after, flt, k)
  {
    assert code[0..] == code;
    forall i | 1 <= i <= |code|
      ensures LiveCount(code, after, flt, k, i) == LiveCount(code[1..], after, flt, k, i - 1)
    {
      assert code[1..][i - 1..] == code[i..];
    }
    var j :| 0 <= j <= |code[1..]| && LiveCount(code[1..], after, flt, k, j) == n;
    assert LiveCount(code, after, flt, k, j + 1) == n;
  }

  lemma BankAdd(live: set<nat>, flt: set<nat>, t: nat)
    requires t !in live
    ensures |Bank(live + {t}, flt, 0)| == |Bank(live, flt, 0)| + if t in flt then 0 else 1
    ensures |Bank(live + {t}, flt, 1)| == |Bank(live, flt, 1)| + if t in flt then 1 else 0
  {
    if t in flt {
      assert Bank(live + {t}, flt, 0) == Bank(live, flt, 0);
      assert Bank(live + {t}, flt, 1) == Bank(live, flt, 1) + {t};
    } else {
      assert Bank(live + {t}, flt, 0) == Bank(live, flt, 0) + {t};
      assert Bank(live + {t}, flt, 1) == Bank(live, flt, 1);
    }
  }

  // ----- live.c -----

  /** The counters nlv[0] and nlv[1]. */
  datatype Count = Count(int': nat, flt: nat)

  ghost predicate Counts(nlv: Count, live: set<nat>, flt: set<nat>) {
    nlv.int' == |Bank(live, flt, 0)| && nlv.flt == |Bank(live, flt, 1)|
  }

  /** The counters hold the largest numbers of live temporaries of the two banks. */
  ghost predicate Peaks(nlive: Count, code: seq<Ins>, after: set<nat>, flt: set<nat>) {
    Peak(nlive.int', code, after, flt, 0) && Peak(nlive.flt, code, after, flt, 1)
  }

  /** nlive[b] is the largest number of temporaries of each bank live at once anywhere in b. */
  ghost predicate PressureOk(f: Fn, out: seq<set<nat>>, nlive: seq<Count>, flt: set<nat>, b: int)
    requires 0 <= b < |out| == |nlive| == |f.ins| == |f.jmp|
  {
    Peaks(nlive[b], f.ins[b], out[b] + Uses(f.jmp[b]), flt)
  }

  lemma PeakEmpty(nlv: Count, live: set<nat>, flt: set<nat>)
    requires Counts(nlv, live, flt)
    ensures Peaks(nlv, [], live, flt)
  {
    assert LiveCount([], live, flt, 0, 0) == nlv.int' && LiveCount([], live, flt, 1, 0) == nlv.flt;
  }

  method LiveOn(f: Fn, b: nat, s: nat, ins: set<nat>) returns (v: set<nat>)
    requires s < |f.phi|
    ensures v == AlongEdge(f, b, s, ins)
  {
    var ps := f.phi[s];
    v := ins;
    for i := 0 to |ps|
      invariant v == ins - PhiDefs(ps[..i])
    {
      v := v - {ps[i].to};
      assert ps[..i + 1] == ps[..i] + [ps[i]];
    }
    assert ps[..|ps|] == ps;
    ghost var v0 := v;
    for i := 0 to |ps|
      invariant v == v0 + PhiUses(ps[..i], b)
    {
      if b in ps[i].args && ps[i].args[b].Tmp? {
        v := v + {ps[i].args[b].t};
      }
      PhiUsesStep(ps[..i], ps[i], b);
      assert ps[..i + 1] == ps[..i] + [ps[i]];
    }
  }

  lemma PhiUsesStep(ps: seq<Phi>, p: Phi, b: nat)
    ensures PhiUses(ps + [p], b) == PhiUses(ps, b) + if b in p.args then Uses(p.args[b]) else {}
  {
    var qs := ps + [p];
    forall t ensures t in PhiUses(qs, b) <==> t in PhiUses(ps, b) + if b in p.args then Uses(p.args[b]) else {} {
      if t in PhiUses(ps, b) {
        var i :| 0 <= i < |ps| && b in ps[i].args && t in Uses(ps[i].args[b]);
        assert qs[i] == ps[i];
      }
      if b in p.args && t in Uses(p.args[b]) {
        assert qs[|ps|] == p;
      }
    }
  }

  /** bset: note a use and keep the counters right. */
  method Note(r: Ref, live0: set<nat>, flt: set<nat>, nlv0: Count) returns (live: set<nat>, nlv: Count)
    requires Counts(nlv0, live0, flt)
    ensures live == live0 + Uses(r) && Counts(nlv, live, flt)
  {
    live, nlv := live0, nlv0;
    if r.Tmp? && r.t !in live {
      BankAdd(live, flt, r.t);
      nlv := if r.t in flt then nlv.(flt := nlv.flt + 1) else nlv.(int' := nlv.int' + 1);
      live := live + {r.t};
    }
  }

  /** The result of an instruction is not live above it. */
  method Drop(r: Ref, live: set<nat>, flt: set<nat>, nlv: Count) returns (live': set<nat>, nlv': Count)
    requires Counts(nlv, live, flt) && (r.R? || r.Tmp?)
    ensures live' == live - Uses(r) && Counts(nlv', live', flt)
  {
    live', nlv' := live, nlv;
    if r.Tmp? && r.t in live {
      BankAdd(live - {r.t}, flt, r.t);
      assert live - {r.t} + {r.t} == live;
      nlv' := if r.t in flt then nlv.(flt := nlv.flt - 1) else nlv.(int' := nlv.int' - 1);
      live' := live - {r.t};
    }
  }

  /** One instruction: its result is no longer live above it, its operands are. */
  method ScanIns(ins: Ins, live: set<nat>, flt: set<nat>, nlv: Count) returns (live': set<nat>, nlv': Count)
    requires Counts(nlv, live, flt) && (ins.to.R? || ins.to.Tmp?)
    ensures live' == BeforeIns(ins, live) && Counts(nlv', live', flt)
  {
    live', nlv' := Drop(ins.to, live, flt, nlv);
    live', nlv' := Note(ins.arg0, live', flt, nlv');
    live', nlv' := Note(ins.arg1, live', flt, nlv');
  }

  /** The part of filllive that walks one block backwards from its live-out set. */
  method ScanBlock(f: Fn, ntmp: nat, b: nat, out: set<nat>, flt: set<nat>) returns (live: set<nat>, nlive: Count)
    requires f.Valid(ntmp) && b < |f.ins|
    ensures live == BodyIn(f, b, out)
    ensures Peaks(nlive, f.ins[b], out + Uses(f.jmp[b]), flt)
  {
    var nlv := Count(|out - flt|, |out * flt|);
    live, nlv := Note(f.jmp[b], out, flt, nlv);
    ghost var after := live;
    nlive := nlv;
    var code := f.ins[b];
    PeakEmpty(nlv, live, flt);
    assert code[|code|..] == [];
    for i := |code| downto 0
      invariant live == BeforeAll(code[i..], after) && Counts(nlv, live, flt)
      invariant Peaks(nlive, code[i..], after, flt)
    {
      assert code[i..][1..] == code[i + 1..] && code[i..][0..] == code[i..] && ValidIns(code[i], ntmp);
      live, nlv := ScanIns(code[i], live, flt, nlv);
      ghost var before := nlive;
      if nlv.int' > nlive.int' {
        nlive := nlive.(int' := nlv.int');
      }
      if nlv.flt > nlive.flt {
        nlive := nlive.(flt := nlv.flt);
      }
      PeakStep(before.int', nlive.int', code[i..], after, flt, 0);
      PeakStep(before.flt, nlive.flt, code[i..], after, flt, 1);
    }
    assert code[0..] == code;
  }

  // ----- termination: the live-out sets only grow -----

  ghost function All(ntmp: nat): (ts: set<nat>)
    ensures forall t: nat :: t in ts <==> t < ntmp
  {
    if ntmp == 0 then {} else All(ntmp - 1) + {ntmp - 1}
  }

  /** How many more temporaries the live-out sets could still receive. */
  ghost function Room(out: seq<set<nat>>, all: set<nat>): nat {
    if out == [] then 0 else Room(out[..|out| - 1], all) + |all - out[|out| - 1]|
  }

  lemma {:induction false} RoomShrinks(out: seq<set<nat>>, all: set<nat>, b: nat, v: set<nat>)
    requires b < |out| && out[b] <= v <= all
    ensures Room(out[b := v], all) <= Room(out, all)
    ensures out[b] != v ==> Room(out[b := v], all) < Room(out, all)
  {
    if b < |out| - 1 {
      assert out[b := v][..|out| - 1] == out[..|out| - 1][b := v];
      RoomShrinks(out[..|out| - 1], all, b, v);
    } else {
      assert out[b := v][..|out| - 1] == out[..|out| - 1];
      assert all - v <= all - out[b];
      Larger(all - v, all - out[b]);
    }
  }

  lemma Larger(a: set<nat>, b: set<nat>)
    requires a <= b
    ensures |a| <= |b| && (a != b ==> |a| < |b|)
  {
    assert b == a + (b - a);
  }

  /** Every live temporary is one of the function's. */
  lemma Bounded(f: Fn, ntmp: nat, b: nat, s: nat, ins: set<nat>, out: set<nat>, all: set<nat>)
    requires f.Valid(ntmp) && b < |f.ins| && s < |f.ins| && ins <= all && out <= all
    requires all == All(ntmp)
    ensures BodyIn(f, b, out) <= all && AlongEdge(f, b, s, ins) <= all
  {
    BoundedBody(f.ins[b], ntmp, out + Uses(f.jmp[b]), all);
  }

  lemma {:induction false} BoundedBody(code: seq<Ins>, ntmp: nat, after: set<nat>, all: set<nat>)
    requires (forall i :: 0 <= i < |code| ==> ValidIns(code[i], ntmp)) && after <= all
    requires all == All(ntmp)
    ensures BeforeAll(code, after) <= all
  {
    if code != [] { BoundedBody(code[1..], ntmp, after, all); }
  }

  /** The invariant of a pass of filllive before block n - 1 is visited; fresh while the first pass runs. */
  ghost predicate PassInv(f: Fn, ntmp: nat, in': seq<set<nat>>, out: seq<set<nat>>, all: set<nat>, n: nat,
                          first: bool) {
    && Justified(f, ntmp, in', out)
    && (forall b :: 0 <= b < |f.ins| ==> in'[b] <= all && out[b] <= all)
    && (forall b :: 0 <= b < |f.ins| && (n <= b || !first) ==> BodyEqn(f, ntmp, in', out, b))
  }

  /** One visit of block b: out[b] grows to o, and in[b] follows. */
  lemma VisitBlock(f: Fn, ntmp: nat, in': seq<set<nat>>, out: seq<set<nat>>, all: set<nat>, b: nat, first: bool,
                   o: set<nat>)
    requires b < |f.ins| && PassInv(f, ntmp, in', out, all, b + 1, first)
    requires all == All(ntmp)
    requires out[b] <= o <= all && forall t :: t in o ==> LiveOut(f, ntmp, b, t)
    ensures PassInv(f, ntmp, in'[b := BodyIn(f, b, o)], out[b := o], all, b, first)
  {
    Bounded(f, ntmp, b, b, {}, o, all);
    var in1, out1 := in'[b := BodyIn(f, b, o)], out[b := o];
    forall t | t in in1[b] ensures LiveIn(f, ntmp, b, t) {
      LiveBodyFromOut(f, ntmp, b, o, t);
    }
    forall c | 0 <= c < |f.ins| && (b <= c || !first) ensures BodyEqn(f, ntmp, in1, out1, c) {
      assert c != b ==> BodyEqn(f, ntmp, in', out, c);
    }
  }

  /** The two successor updates of out[b] in filllive. */
  method GrowOut(f: Fn, ntmp: nat, in': array<set<nat>>, out0: set<nat>, b: nat, ghost all: set<nat>)
    returns (o: set<nat>)
    requires f.Valid(ntmp) && b < |f.ins| && in'.Length == |f.ins| && out0 <= all
    requires all == All(ntmp)
    requires forall c, t :: 0 <= c < in'.Length && t in in'[c] ==> LiveIn(f, ntmp, c, t)
    requires forall c :: 0 <= c < in'.Length ==> in'[c] <= all
    requires forall t :: t in out0 ==> LiveOut(f, ntmp, b, t)
    ensures out0 <= o <= all && forall t :: t in o ==> LiveOut(f, ntmp, b, t)
    ensures forall s: nat :: f.g.Edge(b, s) ==> AlongEdge(f, b, s, in'[s]) <= o
  {
    o := out0;
    for k := 0 to 2
      invariant out0 <= o <= all && forall t :: t in o ==> LiveOut(f, ntmp, b, t)
      invariant k >= 1 && f.g.s1[b] >= 0 ==> AlongEdge(f, b, f.g.s1[b], in'[f.g.s1[b]]) <= o
      invariant k >= 2 && f.g.s2[b] >= 0 ==> AlongEdge(f, b, f.g.s2[b], in'[f.g.s2[b]]) <= o
    {
      var s := if k == 0 then f.g.s1[b] else f.g.s2[b];
      if s >= 0 {
        var v := LiveOn(f, b, s, in'[s]);
        Bounded(f, ntmp, b, s, in'[s], {}, all);
        forall t | t in v ensures LiveOut(f, ntmp, b, t) {
          LiveOutFromEdge(f, ntmp, b, s, in'[s], t);
        }
        o := o + v;
      }
    }
  }

  /** The body of filllive's loop: the visit of block n. */
  method Visit(f: Fn, ntmp: nat, flt: set<nat>, in': array<set<nat>>, out: array<set<nat>>, nlive: array<Count>, n: nat,
               ghost all: set<nat>, ghost first: bool)
    returns (changed: bool)
    requires in'.Length == out.Length == nlive.Length == |f.ins| && n < |f.ins|
    requires in' != out && all == All(ntmp)
    requires PassInv(f, ntmp, in'[..], out[..], all, n + 1, first)
    modifies in', out, nlive
    ensures PassInv(f, ntmp, in'[..], out[..], all, n, first)
    ensures in'[..] == old(in'[..])[n := in'[n]] && out[..] == old(out[..])[n := out[n]]
    ensures nlive[..] == old(nlive[..])[n := nlive[n]] && PressureOk(f, out[..], nlive[..], flt, n)
    ensures changed <==> out[n] != old(out[n])
    ensures Room(out[..], all) <= old(Room(out[..], all))
    ensures changed ==> Room(out[..], all) < old(Room(out[..], all))
    ensures EdgeEqn(f, ntmp, old(in'[..]), out[..], n)
  {
    ghost var in1, out1 := in'[..], out[..];
    var u := out[n];
    var o := GrowOut(f, ntmp, in', u, n, all);
    VisitBlock(f, ntmp, in1, out1, all, n, first, o);
    RoomShrinks(out1, all, n, o);
    out[n] := o;
    changed := o != u;
    var live, nl := ScanBlock(f, ntmp, n, o, flt);
    in'[n] := live;
    nlive[n] := nl;
    assert in'[..] == in1[n := live] && out[..] == out1[n := o];
  }

  /** One pass of filllive over the blocks, in reverse order; chg0 holds in the first pass only. */
  method Pass(f: Fn, ntmp: nat, flt: set<nat>, in': array<set<nat>>, out: array<set<nat>>, nlive: array<Count>,
              chg0: bool,
              ghost all: set<nat>)
    returns (chg: bool)
    requires in'.Length == out.Length == nlive.Length == |f.ins|
    requires in' != out && all == All(ntmp)
    requires PassInv(f, ntmp, in'[..], out[..], all, |f.ins|, chg0)
    modifies in', out, nlive
    ensures PassInv(f, ntmp, in'[..], out[..], all, |f.ins|, false)
    ensures Room(out[..], all) <= old(Room(out[..], all))
    ensures chg && !chg0 ==> Room(out[..], all) < old(Room(out[..], all))
    ensures !chg ==> Solution(f, ntmp, in'[..], out[..])
    ensures forall b :: 0 <= b < |f.ins| ==> PressureOk(f, out[..], nlive[..], flt, b)
  {
    hide LiveOut, PressureOk, BodyEqn, EdgeEqn, Solution, Room;
    chg := chg0;
    ghost var in0, out0 := in'[..], out[..];
    for n := |f.ins| downto 0
      invariant PassInv(f, ntmp, in'[..], out[..], all, n, chg0)
      invariant Room(out[..], all) <= Room(out0, all)
      invariant !chg ==> in'[..] == in0 && out[..] == out0 && !chg0
      invariant !chg ==> forall b: nat :: n <= b < |f.ins| ==> EdgeEqn(f, ntmp, in0, out0, b)
      invariant chg && !chg0 ==> Room(out[..], all) < Room(out0, all)
      invariant forall b :: n <= b < |f.ins| ==> PressureOk(f, out[..], nlive[..], flt, b)
    {
      ghost var in1, out1, nl1 := in'[..], out[..], nlive[..];
      assert !chg ==> BodyEqn(f, ntmp, in1, out1, n);
      var changed := Visit(f, ntmp, flt, in', out, nlive, n, all, chg0);
      assert BodyEqn(f, ntmp, in'[..], out[..], n);
      if !chg && !changed { SameInputs(f, ntmp, in1, in'[..], out1, out[..], n); }
      chg := chg || changed;
      PressuresStay(f, out1, out[..], nl1, nlive[..], flt, n);
    }
    if !chg { Stable(f, ntmp, in'[..], out[..], all); }
  }

  lemma Stable(f: Fn, ntmp: nat, in': seq<set<nat>>, out: seq<set<nat>>, all: set<nat>)
    requires PassInv(f, ntmp, in', out, all, 0, false)
    requires forall b: nat :: b < |f.ins| ==> EdgeEqn(f, ntmp, in', out, b)
    ensures Solution(f, ntmp, in', out)
  {}

  lemma SameInputs(f: Fn, ntmp: nat, in1: seq<set<nat>>, in2: seq<set<nat>>, out1: seq<set<nat>>, out2: seq<set<nat>>,
                   n: nat)
    requires Sized(f, ntmp, in1, out1) && Sized(f, ntmp, in2, out2) && n < |f.ins|
    requires BodyEqn(f, ntmp, in1, out1, n) && BodyEqn(f, ntmp, in2, out2, n)
    requires in2 == in1[n := in2[n]] && out2 == out1[n := out2[n]] && out1[n] == out2[n]
    ensures in2 == in1 && out2 == out1
  {}

  lemma PressuresStay(f: Fn, out: seq<set<nat>>, out': seq<set<nat>>, nl: seq<Count>, nl': seq<Count>, flt: set<nat>,
                      n: nat)
    requires |out| == |out'| == |nl| == |nl'| == |f.ins| && n < |f.ins| && |f.jmp| == |f.ins|
    requires out' == out[n := out'[n]] && nl' == nl[n := nl'[n]]
    ensures forall b :: n + 1 <= b < |f.ins| && PressureOk(f, out, nl, flt, b) ==> PressureOk(f, out', nl', flt, b)
  {}

  /** filllive: the least solution of the flow equations, which is liveness by paths, and the pressures. */
  method FillLive(f: Fn, ntmp: nat, flt: set<nat>, in': array<set<nat>>, out: array<set<nat>>, nlive: array<Count>)
    requires f.Valid(ntmp) && in'.Length == out.Length == nlive.Length == |f.ins|
    requires in' != out
    modifies in', out, nlive
    ensures Solution(f, ntmp, in'[..], out[..])
    ensures forall b: nat, t :: b < |f.ins| ==> (t in in'[b] <==> LiveIn(f, ntmp, b, t))
    ensures forall b: nat, t :: b < |f.ins| ==> (t in out[b] <==> LiveOut(f, ntmp, b, t))
    ensures forall b :: 0 <= b < |f.ins| ==> PressureOk(f, out[..], nlive[..], flt, b)
  {
    ghost var all := All(ntmp);
    forall b | 0 <= b < in'.Length {
      in'[b] := {};
    }
    forall b | 0 <= b < out.Length {
      out[b] := {};
    }
    var chg := Pass(f, ntmp, flt, in', out, nlive, true, all);
    while chg
      invariant PassInv(f, ntmp, in'[..], out[..], all, |f.ins|, false)
      invariant !chg ==> Solution(f, ntmp, in'[..], out[..])
      invariant forall b :: 0 <= b < |f.ins| ==> PressureOk(f, out[..], nlive[..], flt, b)
      decreases Room(out[..], all), chg
    {
      chg := Pass(f, ntmp, flt, in', out, nlive, false, all);
    }
    forall b: nat, t | b < |f.ins|
      ensures (t in in'[b] <==> LiveIn(f, ntmp, b, t)) && (t in out[b] <==> LiveOut(f, ntmp, b, t))
    {
      LeastSolution(f, ntmp, in'[..], out[..], b, t);
    }
  }
}
