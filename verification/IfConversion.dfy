/** If-conversion: ifgraph of cfg.c and okgraph, convert of ifopt.c. Blocks are named by rpo number. */
module IfConversion {
  import opened Cfg
  import opened Ir
  import opened Dominators
  import opened SsaMeaning

  // ----- functions in SSA form -----

  ghost predicate Reach(g: Graph, b: nat) {
    ReachableFrom(g, 0, b)
  }

  /** home[t] is the block that defines t; only the blocks that can be reached matter. */
  ghost predicate SsaForm(f: Fn, ntmp: nat, home: seq<nat>) {
    && f.Valid(ntmp) && |home| == ntmp && NoEntryToStart(f.g)
    && forall b: nat :: b < |f.ins| && Reach(f.g, b) ==> BlockSsa(f, home, b)
  }

  ghost predicate BlockSsa(f: Fn, home: seq<nat>, b: nat)
    requires f.Valid(|home|) && b < |f.ins|
  {
    && (forall k: nat :: k < |f.ins[b]| ==> InsSsa(f, home, b, k))
    && (forall k: nat :: k < |f.phi[b]| ==> PhiSsa(f, home, b, k))
    && UseSsa(f, home, f.jmp[b], b, |f.ins[b]|)
  }

  /** A single definition, and operands defined above. */
  ghost predicate InsSsa(f: Fn, home: seq<nat>, b: nat, k: nat)
    requires f.Valid(|home|) && b < |f.ins| && k < |f.ins[b]|
  {
    var i := f.ins[b][k];
    && (i.to.Tmp? ==> i.to.t < |home| && home[i.to.t] == b && !DefinedElsewhere(f, b, k, i.to.t))
    && UseSsa(f, home, i.arg0, b, k) && UseSsa(f, home, i.arg1, b, k)
  }

  ghost predicate DefinedElsewhere(f: Fn, b: nat, k: nat, t: nat)
    requires b < |f.ins| == |f.phi|
  {
    || (exists j :: 0 <= j < |f.ins[b]| && j != k && f.ins[b][j].to == Tmp(t))
    || (exists j :: 0 <= j < |f.phi[b]| && f.phi[b][j].to == t)
  }

  ghost predicate DefinedBefore(f: Fn, b: nat, k: nat, t: nat)
    requires b < |f.ins| == |f.phi| && k <= |f.ins[b]|
  {
    || (exists j :: 0 <= j < k && f.ins[b][j].to == Tmp(t))
    || (exists j :: 0 <= j < |f.phi[b]| && f.phi[b][j].to == t)
  }

  /** A use of r in front of instruction k of b. */
  ghost predicate UseSsa(f: Fn, home: seq<nat>, r: Ref, b: nat, k: nat)
    requires f.Valid(|home|) && b < |f.ins| && k <= |f.ins[b]|
  {
    r.Tmp? ==>
      && r.t < |home|
      && (if home[r.t] == b then DefinedBefore(f, b, k, r.t)
          else Dominates(f.g, home[r.t], b) && DefinedIn(f, home[r.t], r.t))
  }

  ghost predicate DefinedIn(f: Fn, b: nat, t: nat)
    requires |f.ins| == |f.phi|
  {
    b < |f.ins| && DefinedBefore(f, b, |f.ins[b]|, t)
  }

  ghost predicate PhiSsa(f: Fn, home: seq<nat>, b: nat, k: nat)
    requires f.Valid(|home|) && b < |f.phi| && k < |f.phi[b]|
  {
    var p := f.phi[b][k];
    && p.to < |home| && home[p.to] == b && (forall j :: 0 <= j < |f.phi[b]| && j != k ==> f.phi[b][j].to != p.to)
    && forall a: nat :: a < |f.ins| && Reach(f.g, a) && f.g.Edge(a, b) ==> ArgSsa(f, home, p, a)
  }

  /** A phi uses its argument at the end of the predecessor. */
  ghost predicate ArgSsa(f: Fn, home: seq<nat>, p: Phi, a: nat)
    requires f.Valid(|home|) && a < |f.ins|
  {
    a in p.args && UseSsa(f, home, p.args[a], a, |f.ins[a]|)
  }

  // ----- hammocks -----

  /** t does nothing but lead from i to j. */
  ghost predicate Arm(g: Graph, i: nat, t: nat, j: nat)
    requires g.Valid()
  {
    && t < |g.s1| && t != i && t != j && g.s1[t] == j && g.s2[t] == NONE
    && forall p: nat :: Reach(g, p) && g.Edge(p, t) ==> p == i
  }

  /** i branches to t and e, or to the join j directly where t or e is i itself. */
  ghost predicate Hammock(g: Graph, i: nat, t: nat, e: nat, j: nat) {
    && g.Valid() && i < |g.s1| && j < |g.s1| && Reach(g, i) && j != i && t != e && g.s1[i] != g.s2[i]
    && (if t == i then g.s1[i] == j else g.s1[i] == t && Arm(g, i, t, j))
    && (if e == i then g.s2[i] == j else g.s2[i] == e && Arm(g, i, e, j))
    && forall p: nat :: Reach(g, p) && g.Edge(p, j) ==> p == t || p == e
  }

  lemma ReachEdge(g: Graph, a: nat, b: nat)
    requires g.Valid() && Reach(g, a) && g.Edge(a, b)
    ensures Reach(g, b)
  {
    var p :| IsPath(g, 0, p, a);
    PathStep(g, 0, p, a, b);
  }

  lemma HammockReach(g: Graph, i: nat, t: nat, e: nat, j: nat)
    requires Hammock(g, i, t, e, j)
    ensures Reach(g, i) && Reach(g, t) && Reach(g, e) && Reach(g, j) && t < |g.s1| && e < |g.s1|
  {
    if t != i { ReachEdge(g, i, t); }
    if e != i { ReachEdge(g, i, e); }
    ReachEdge(g, if t != i then t else i, j);
  }

  lemma NotStart(g: Graph, i: nat, t: nat, e: nat, j: nat, b: nat)
    requires Hammock(g, i, t, e, j) && NoEntryToStart(g)
    requires b == j || (b != i && (b == t || b == e))
    ensures b != 0
  {
    assert !g.Edge(i, 0) && !g.Edge(t, 0) && !g.Edge(e, 0);
    assert if t == i then g.Edge(i, j) else g.Edge(t, j) && g.Edge(i, t);
    assert e != i ==> g.Edge(i, e);
  }

  /** Every block but the arm x itself can be reached without passing through x. */
  lemma {:induction false} AroundArm(g: Graph, i: nat, t: nat, e: nat, j: nat, x: nat, p: seq<nat>, b: nat)
    returns (q: seq<nat>)
    requires Hammock(g, i, t, e, j) && NoEntryToStart(g) && (x == t || x == e) && x != i
    requires IsPath(g, 0, p, b) && b != x
    ensures IsPath(g, 0, q, b) && x !in q
    decreases |p|
  {
    var n := |p| - 1;
    if n == 0 {
      q := p;
    } else {
      var a := p[n - 1];
      PathPrefix(g, 0, p, b, n - 1);
      assert Reach(g, a) && g.Edge(a, b);
      if a == x {
        NotStart(g, i, t, e, j, x);
        PathPrefix(g, 0, p, b, n - 2);
        assert g.Edge(p[n - 2], p[n - 1]);
        assert p[n - 2] == i && b == j;
        q := AroundArm(g, i, t, e, j, x, p[..n - 1], i);
        var y := if x == t then e else t;
        if y != i {
          PathStep(g, 0, q, i, y);
          q := q + [y];
        }
        PathStep(g, 0, q, y, j);
        q := q + [j];
      } else {
        q := AroundArm(g, i, t, e, j, x, p[..n], a);
        PathStep(g, 0, q, a, b);
        q := q + [b];
      }
    }
  }

  lemma ArmDominatesItself(g: Graph, i: nat, t: nat, e: nat, j: nat, x: nat, b: nat)
    requires Hammock(g, i, t, e, j) && NoEntryToStart(g) && (x == t || x == e) && x != i && Reach(g, b) && b != x
    ensures !Dominates(g, x, b)
  {
    var p :| IsPath(g, 0, p, b);
    var q := AroundArm(g, i, t, e, j, x, p, b);
  }

  /** The join is not above the branch: it is reached through it. */
  lemma {:induction false} BeforeJoin(g: Graph, i: nat, t: nat, e: nat, j: nat, p: seq<nat>, k: nat)
    requires Hammock(g, i, t, e, j) && NoEntryToStart(g) && k < |p| && IsPath(g, 0, p[..k + 1], p[k])
    requires p[k] == j || (p[k] != i && (p[k] == t || p[k] == e))
    ensures i in p[..k]
    decreases k
  {
    var q := p[..k + 1];
    NotStart(g, i, t, e, j, p[k]);
    assert q[0] == 0;
    PathPrefix(g, 0, q, p[k], k - 1);
    assert q[..k] == p[..k];
    assert Reach(g, p[k - 1]) && g.Edge(q[k - 1], q[k]);
    if p[k - 1] != i {
      BeforeJoin(g, i, t, e, j, p, k - 1);
      assert i in p[..k];
    }
  }

  lemma InLonger(p: seq<nat>, l: nat, k: nat, x: nat)
    requires l <= k <= |p| && x in p[..l]
    ensures x in p[..k]
  {
    assert p[..k] == p[..l] + p[l..k];
  }

  lemma JoinNotAbove(g: Graph, i: nat, t: nat, e: nat, j: nat, b: nat)
    requires Hammock(g, i, t, e, j) && NoEntryToStart(g) && (b == i || b == t || b == e)
    ensures !Dominates(g, j, b)
  {
    var p :| IsPath(g, 0, p, i);
    var k := FirstVisit(p, i);
    PathPrefix(g, 0, p, i, k);
    var q := p[..k + 1];
    if j in q {
      var l :| 0 <= l < |q| && q[l] == j;
      PathPrefix(g, 0, q, i, l);
      assert q[..l + 1] == p[..l + 1];
      BeforeJoin(g, i, t, e, j, p, l);
      InLonger(p, l, k, i);
    }
    if b != i {
      PathStep(g, 0, q, i, b);
      assert j !in q + [b];
    }
  }

  // ----- machines with a select flag -----

  const SEL0: nat := 0
  const SEL1: nat := 1
  const DBGLOC: nat := 2
  const NOP: nat := 3

  /** The result depends on the operands only, and nothing else changes. */
  ghost predicate PureOp<W(!new)>(m: Machine<W>, o: nat) {
    forall w: W, w': W, a: int, b: int :: m.op(o, w, a, b).1 == w && m.op(o, w, a, b).0 == m.op(o, w', a, b).0
  }

  /** sel0 has no result of its own. */
  ghost predicate Silent0<W>(m: Machine<W>, w: W, a: int, b: int) {
    m.op(SEL0, w, a, b).0 == 0
  }

  /** sees is the part of the world other than the flag that sel0 sets and sel1 reads. */
  ghost predicate OpOk<W(!new), V>(m: Machine<W>, pinned: nat -> bool, sees: W -> V, flag: W -> int, o: nat) {
    if o == SEL0 then forall w: W, a: int, b: int :: sees(m.op(o, w, a, b).1) == sees(w) && flag(m.op(o, w, a, b).1) == a && Silent0(m, w, a, b)
    else if o == SEL1 then forall w: W, a: int, b: int :: m.op(o, w, a, b) == (if flag(w) != 0 then a else b, w)
    else if !pinned(o) || o == DBGLOC then PureOp(m, o)
    else forall w: W, w': W, a: int, b: int :: sees(w) == sees(w') ==> SameEffect(m, sees, o, w, w', a, b)
  }

  ghost predicate SameEffect<W, V>(m: Machine<W>, sees: W -> V, o: nat, w: W, w': W, a: int, b: int) {
    m.op(o, w, a, b).0 == m.op(o, w', a, b).0 && sees(m.op(o, w, a, b).1) == sees(m.op(o, w', a, b).1)
  }

  ghost predicate MachineOk<W(!new), V>(m: Machine<W>, pinned: nat -> bool, sees: W -> V, flag: W -> int) {
    pinned(SEL0) && pinned(SEL1) && forall o: nat :: OpOk(m, pinned, sees, flag, o)
  }

  /** Each sel1 stands in a group headed by a sel0. */
  ghost predicate Grouped(code: seq<Ins>) {
    forall k :: 0 <= k < |code| && code[k].op == SEL1 ==> k > 0 && IsSel(code[k - 1])
  }

  predicate IsSel(i: Ins) {
    i.op == SEL0 || i.op == SEL1
  }

  lemma {:induction false} ExecAppend<W>(m: Machine<W>, a: seq<Ins>, b: seq<Ins>, k: nat, st: State<W>)
    requires k <= |b|
    ensures Exec(m, a + b, |a| + k, st) == Exec(m, b, k, Exec(m, a, |a|, st))
  {
    if k == 0 {
      ExecPrefix(m, a, b, |a|, st);
    } else {
      ExecAppend(m, a, b, k - 1, st);
      assert (a + b)[|a| + k - 1] == b[k - 1];
    }
  }

  lemma ExecAll<W>(m: Machine<W>, a: seq<Ins>, b: seq<Ins>, st: State<W>)
    ensures Exec(m, a + b, |a + b|, st) == Exec(m, b, |b|, Exec(m, a, |a|, st))
  {
    ExecAppend(m, a, b, |b|, st);
  }

  lemma {:induction false} ExecPrefix<W>(m: Machine<W>, a: seq<Ins>, b: seq<Ins>, k: nat, st: State<W>)
    requires k <= |a|
    ensures Exec(m, a + b, k, st) == Exec(m, a, k, st)
  {
    if k > 0 { ExecPrefix(m, a, b, k - 1, st); }
  }

  // ----- the conversion -----

  /** The hammock in a function, with arms that have no phis and only instructions that may be run early. */
  datatype Site = Site(f: Fn, home: seq<nat>, pinned: nat -> bool, i: nat, t: nat, e: nat, j: nat) {
    ghost predicate Ok() {
      && SsaForm(f, |home|, home) && Hammock(f.g, i, t, e, j)
      && (t != i ==> ArmOk(t)) && (e != i ==> ArmOk(e))
      && forall b: nat :: b < |f.ins| ==> Grouped(f.ins[b])
    }

    ghost predicate ArmOk(x: nat)
      requires f.Valid(|home|)
    {
      x < |f.ins| && f.phi[x] == [] && forall k :: 0 <= k < |f.ins[x]| ==>
        f.ins[x][k].op == DBGLOC || !pinned(f.ins[x][k].op)
    }

    ghost function Arms(): set<nat> { {t, e} - {i} }
  }

  /** Temporaries defined outside the arms are the same. */
  ghost predicate Agree(s: Site, a: Env, b: Env) {
    forall t: nat :: t < |s.home| && s.home[t] !in s.Arms() ==> a(t) == b(t)
  }

  /** The same visible temporaries and the same world, apart from the flag. */
  ghost predicate Same<W, V>(s: Site, sees: W -> V, x: State<W>, y: State<W>) {
    Agree(s, x.env, y.env) && sees(x.world) == sees(y.world)
  }

  /** And the same flag, in the middle of a group of selects. */
  ghost predicate SameIf<W, V>(s: Site, sees: W -> V, flag: W -> int, inGroup: bool, x: State<W>, y: State<W>) {
    Same(s, sees, x, y) && (inGroup ==> flag(x.world) == flag(y.world))
  }

  lemma UseVisible(s: Site, r: Ref, b: nat, k: nat)
    requires s.Ok() && b < |s.f.ins| && k <= |s.f.ins[b]| && Reach(s.f.g, b) && b !in s.Arms()
    requires UseSsa(s.f, s.home, r, b, k)
    ensures r.Tmp? ==> r.t < |s.home| && s.home[r.t] !in s.Arms()
  {
    if r.Tmp? && s.home[r.t] in s.Arms() {
      ArmDominatesItself(s.f.g, s.i, s.t, s.e, s.j, s.home[r.t], b);
    }
  }

  lemma OpAgree<W(!new), V>(m: Machine<W>, pinned: nat -> bool, sees: W -> V, flag: W -> int, o: nat, w: W, w': W,
                            a: int, b: int)
    requires MachineOk(m, pinned, sees, flag) && sees(w) == sees(w') && (o == SEL1 ==> flag(w) == flag(w'))
    ensures SameEffect(m, sees, o, w, w', a, b)
    ensures o == SEL0 || o == SEL1 ==> flag(m.op(o, w, a, b).1) == flag(m.op(o, w', a, b).1)
  {
    assert OpOk(m, pinned, sees, flag, o);
    if o == SEL0 {
      assert m.op(o, w, a, b).0 == m.op(o, w', a, b).0 by { assert Silent0(m, w, a, b) && Silent0(m, w', a, b); }
    } else if o == SEL1 {
      assert m.op(o, w, a, b) == (if flag(w) != 0 then a else b, w);
      assert m.op(o, w', a, b) == (if flag(w') != 0 then a else b, w');
    } else if !pinned(o) || o == DBGLOC {
      assert m.op(o, w, a, b).1 == w && m.op(o, w', a, b).1 == w' && m.op(o, w, a, b).0 == m.op(o, w', a, b).0;
    }
  }

  lemma InsAgree<W(!new), V>(m: Machine<W>, s: Site, sees: W -> V, flag: W -> int, b: nat, k: nat, st: State<W>,
                             st': State<W>)
    requires s.Ok() && MachineOk(m, s.pinned, sees, flag) && b < |s.f.ins| && k < |s.f.ins[b]| && Reach(s.f.g, b)
    requires b !in s.Arms()
    requires Same(s, sees, st, st')
    requires s.f.ins[b][k].op == SEL1 ==> flag(st.world) == flag(st'.world)
    ensures var x, x' := ExecIns(m, s.f.ins[b][k], st), ExecIns(m, s.f.ins[b][k], st');
      SameIf(s, sees, flag, IsSel(s.f.ins[b][k]), x, x')
  {
    var i := s.f.ins[b][k];
    assert BlockSsa(s.f, s.home, b) && InsSsa(s.f, s.home, b, k);
    UseVisible(s, i.arg0, b, k);
    UseVisible(s, i.arg1, b, k);
    var a, c := m.Eval(i.arg0, st.env), m.Eval(i.arg1, st.env);
    assert m.Eval(i.arg0, st'.env) == a && m.Eval(i.arg1, st'.env) == c;
    OpAgree(m, s.pinned, sees, flag, i.op, st.world, st'.world, a, c);
  }

  /** A block outside the arms does the same in both functions. */
  lemma {:induction false} ExecAgree<W(!new), V>(m: Machine<W>, s: Site, sees: W -> V, flag: W -> int, b: nat, k: nat,
                                                 st: State<W>, st': State<W>)
    requires s.Ok() && MachineOk(m, s.pinned, sees, flag) && b < |s.f.ins| && k <= |s.f.ins[b]| && Reach(s.f.g, b)
    requires b !in s.Arms()
    requires Same(s, sees, st, st')
    ensures SameIf(s, sees, flag, k > 0 && IsSel(s.f.ins[b][k - 1]), Exec(m, s.f.ins[b], k, st), Exec(m, s.f.ins[b], k, st'))
  {
    hide MachineOk, SsaForm, Hammock, Same;
    if k == 0 {
      assert Exec(m, s.f.ins[b], 0, st) == st && Exec(m, s.f.ins[b], 0, st') == st';
    } else {
      ExecAgree(m, s, sees, flag, b, k - 1, st, st');
      var x, x' := Exec(m, s.f.ins[b], k - 1, st), Exec(m, s.f.ins[b], k - 1, st');
      assert Grouped(s.f.ins[b]);
      InsAgree(m, s, sees, flag, b, k - 1, x, x');
      assert Exec(m, s.f.ins[b], k, st) == ExecIns(m, s.f.ins[b][k - 1], x);
      assert Exec(m, s.f.ins[b], k, st') == ExecIns(m, s.f.ins[b][k - 1], x');
    }
  }

  /** Running an arm changes only the temporaries it defines. */
  lemma {:induction false} ArmFrame<W(!new), V>(m: Machine<W>, s: Site, sees: W -> V, flag: W -> int, x: nat, k: nat,
                                                st: State<W>)
    requires s.Ok() && MachineOk(m, s.pinned, sees, flag) && x in s.Arms() && x < |s.f.ins| && k <= |s.f.ins[x]|
    ensures var y := Exec(m, s.f.ins[x], k, st);
      y.world == st.world && forall t: nat :: t < |s.home| && s.home[t] != x ==> y.env(t) == st.env(t)
  {
    if k > 0 {
      ArmFrame(m, s, sees, flag, x, k - 1, st);
      HammockReach(s.f.g, s.i, s.t, s.e, s.j);
      assert BlockSsa(s.f, s.home, x) && InsSsa(s.f, s.home, x, k - 1);
      assert s.ArmOk(x) && OpOk(m, s.pinned, sees, flag, s.f.ins[x][k - 1].op);
    }
  }

  /** What an arm computes does not depend on whether the other one ran. */
  lemma {:induction false} ArmAgree<W(!new), V>(m: Machine<W>, s: Site, sees: W -> V, flag: W -> int, x: nat, k: nat,
                                                st: State<W>, st': State<W>)
    requires s.Ok() && MachineOk(m, s.pinned, sees, flag) && x in s.Arms() && x < |s.f.ins| && k <= |s.f.ins[x]|
    requires Agree(s, st.env, st'.env)
    ensures forall t: nat :: t < |s.home| && (s.home[t] !in s.Arms() || (s.home[t] == x && DefinedBefore(s.f, x, k, t))) ==>
      Exec(m, s.f.ins[x], k, st).env(t) == Exec(m, s.f.ins[x], k, st').env(t)
  {
    if k > 0 {
      ArmAgree(m, s, sees, flag, x, k - 1, st, st');
      ArmStep(m, s, sees, flag, x, k - 1, Exec(m, s.f.ins[x], k - 1, st), Exec(m, s.f.ins[x], k - 1, st'));
    }
  }

  lemma ArmStep<W(!new), V>(m: Machine<W>, s: Site, sees: W -> V, flag: W -> int, x: nat, k: nat, st: State<W>,
                            st': State<W>)
    requires s.Ok() && MachineOk(m, s.pinned, sees, flag) && x in s.Arms() && x < |s.f.ins| && k < |s.f.ins[x]|
    requires forall t: nat :: t < |s.home| && (s.home[t] !in s.Arms() || (s.home[t] == x && DefinedBefore(s.f, x, k, t))) ==>
      st.env(t) == st'.env(t)
    ensures forall t: nat :: t < |s.home| && (s.home[t] !in s.Arms() || (s.home[t] == x && DefinedBefore(s.f, x, k + 1, t))) ==>
      ExecIns(m, s.f.ins[x][k], st).env(t) == ExecIns(m, s.f.ins[x][k], st').env(t)
  {
    var i := s.f.ins[x][k];
    HammockReach(s.f.g, s.i, s.t, s.e, s.j);
    assert BlockSsa(s.f, s.home, x) && InsSsa(s.f, s.home, x, k);
    ArmUse(s, x, i.arg0, k);
    ArmUse(s, x, i.arg1, k);
    assert s.ArmOk(x) && OpOk(m, s.pinned, sees, flag, i.op);
    assert PureOp(m, i.op);
    assert m.Eval(i.arg0, st.env) == m.Eval(i.arg0, st'.env) && m.Eval(i.arg1, st.env) == m.Eval(i.arg1, st'.env);
    forall t: nat | t < |s.home| && s.home[t] == x && DefinedBefore(s.f, x, k + 1, t) && i.to != Tmp(t)
      ensures DefinedBefore(s.f, x, k, t)
    {
      if l :| 0 <= l < k + 1 && s.f.ins[x][l].to == Tmp(t) { assert l < k; }
    }
  }

  /** An arm uses what is visible at the branch and what it has defined itself. */
  lemma ArmUse(s: Site, x: nat, r: Ref, k: nat)
    requires s.Ok() && x in s.Arms() && x < |s.f.ins| && k <= |s.f.ins[x]| && UseSsa(s.f, s.home, r, x, k)
    ensures r.Tmp? ==>
      r.t < |s.home| && (s.home[r.t] !in s.Arms() || (s.home[r.t] == x && DefinedBefore(s.f, x, k, r.t)))
    ensures r.Tmp? ==> s.home[r.t] != s.j
  {
    HammockReach(s.f.g, s.i, s.t, s.e, s.j);
    if r.Tmp? && s.home[r.t] != x {
      JoinNotAbove(s.f.g, s.i, s.t, s.e, s.j, x);
      if s.home[r.t] in s.Arms() { ArmDominatesItself(s.f.g, s.i, s.t, s.e, s.j, s.home[r.t], x); }
    }
  }

  // ----- the code that convert puts in the branching block -----

  function ArmCode(f: Fn, i: nat, x: nat): seq<Ins>
    requires x < |f.ins|
  {
    if x == i then [] else f.ins[x]
  }

  function SelOf(p: Phi, t: nat, e: nat): Ins
    requires t in p.args && e in p.args
  {
    Ins(SEL1, Tmp(p.to), p.args[t], p.args[e])
  }

  ghost predicate HasArgs(ps: seq<Phi>, t: nat, e: nat) {
    forall k :: 0 <= k < |ps| ==> t in ps[k].args && e in ps[k].args
  }

  /** One sel0 on the condition and one sel1 for each phi. */
  function Selects(ps: seq<Phi>, cond: Ref, t: nat, e: nat): (r: seq<Ins>)
    requires HasArgs(ps, t, e)
    ensures |r| == if ps == [] then 0 else |ps| + 1
  {
    if ps == [] then [] else
    [Ins(SEL0, R, cond, R)] + seq(|ps|, k requires 0 <= k < |ps| => SelOf(ps[k], t, e))
  }

  function ConvertedCode(f: Fn, i: nat, t: nat, e: nat, j: nat): seq<Ins>
    requires i < |f.ins| == |f.phi| == |f.jmp| && t < |f.ins| && e < |f.ins| && j < |f.ins| && HasArgs(f.phi[j], t, e)
  {
    f.ins[i] + ArmCode(f, i, t) + ArmCode(f, i, e) + Selects(f.phi[j], f.jmp[i], t, e)
  }

  function Converted(f: Fn, i: nat, t: nat, e: nat, j: nat): Fn
    requires |f.g.s1| == |f.g.s2| == |f.ins| == |f.phi| == |f.jmp|
    requires i < |f.ins| && t < |f.ins| && e < |f.ins| && j < |f.ins| && HasArgs(f.phi[j], t, e)
  {
    f.(g := Graph(f.g.s1[i := j], f.g.s2[i := NONE]), ins := f.ins[i := ConvertedCode(f, i, t, e, j)],
       jmp := f.jmp[i := R], phi := f.phi[j := []])
  }

  lemma JoinHasArgs(s: Site)
    requires s.Ok()
    ensures s.t < |s.f.ins| && s.e < |s.f.ins| && HasArgs(s.f.phi[s.j], s.t, s.e)
  {
    HammockReach(s.f.g, s.i, s.t, s.e, s.j);
    forall k | 0 <= k < |s.f.phi[s.j]| ensures s.t in s.f.phi[s.j][k].args && s.e in s.f.phi[s.j][k].args {
      JoinArg(s, k, s.t);
      JoinArg(s, k, s.e);
    }
  }

  lemma JoinArg(s: Site, k: nat, x: nat)
    requires s.Ok() && k < |s.f.phi[s.j]| && (x == s.t || x == s.e)
    ensures x < |s.f.ins| && ArgSsa(s.f, s.home, s.f.phi[s.j][k], x)
  {
    HammockReach(s.f.g, s.i, s.t, s.e, s.j);
    assert BlockSsa(s.f, s.home, s.j) && PhiSsa(s.f, s.home, s.j, k);
    assert s.f.g.Edge(x, s.j);
  }

  /** The value that side x of the hammock hands over for r, given the environment in which it ended. */
  ghost predicate Independent(s: Site, r: Ref) {
    r.Tmp? ==> r.t < |s.home| && s.home[r.t] != s.j
  }

  lemma JoinArgIndependent(s: Site, k: nat, x: nat)
    requires s.Ok() && k < |s.f.phi[s.j]| && (x == s.t || x == s.e) && x in s.f.phi[s.j][k].args
    ensures Independent(s, s.f.phi[s.j][k].args[x])
  {
    JoinArg(s, k, x);
    var r := s.f.phi[s.j][k].args[x];
    if r.Tmp? && s.home[r.t] == s.j { JoinNotAbove(s.f.g, s.i, s.t, s.e, s.j, x); }
  }

  /** The first k selects have been run: they assign the phis at once. */
  ghost predicate Selected<W, V>(m: Machine<W>, s: Site, sees: W -> V, flag: W -> int, k: nat, st: State<W>,
                                 x: State<W>)
    requires s.Ok() && k <= |s.f.phi[s.j]| && HasArgs(s.f.phi[s.j], s.t, s.e)
  {
    var c := m.Eval(s.f.jmp[s.i], st.env);
    && sees(x.world) == sees(st.world) && flag(x.world) == c
    && (forall l: nat :: l < k ==> PhiSelected(m, s, l, c, st.env, x.env))
    && (forall n: nat :: (forall l: nat :: l < k ==> s.f.phi[s.j][l].to != n) ==> x.env(n) == st.env(n))
  }

  ghost predicate PhiSelected<W>(m: Machine<W>, s: Site, l: nat, c: int, before: Env, after: Env)
    requires s.Ok() && l < |s.f.phi[s.j]| && HasArgs(s.f.phi[s.j], s.t, s.e)
  {
    var p := s.f.phi[s.j][l];
    after(p.to) == m.Eval(if c != 0 then p.args[s.t] else p.args[s.e], before)
  }

  /** No select reads the result of another. */
  lemma SelectStep<W(!new), V>(m: Machine<W>, s: Site, sees: W -> V, flag: W -> int, k: nat, st: State<W>, x: State<W>)
    requires s.Ok() && MachineOk(m, s.pinned, sees, flag) && k < |s.f.phi[s.j]| && HasArgs(s.f.phi[s.j], s.t, s.e)
    requires Selected(m, s, sees, flag, k, st, x)
    ensures Selected(m, s, sees, flag, k + 1, st, ExecIns(m, SelOf(s.f.phi[s.j][k], s.t, s.e), x))
  {
    var ps := s.f.phi[s.j];
    var y := ExecIns(m, SelOf(ps[k], s.t, s.e), x);
    assert OpOk(m, s.pinned, sees, flag, SEL1);
    HammockReach(s.f.g, s.i, s.t, s.e, s.j);
    assert BlockSsa(s.f, s.home, s.j);
    forall l: nat | l < k ensures ps[l].to != ps[k].to && s.home[ps[l].to] == s.j {
      assert PhiSsa(s.f, s.home, s.j, l);
    }
    var a, b := ps[k].args[s.t], ps[k].args[s.e];
    JoinArgIndependent(s, k, s.t);
    JoinArgIndependent(s, k, s.e);
    assert m.Eval(a, x.env) == m.Eval(a, st.env) && m.Eval(b, x.env) == m.Eval(b, st.env);
    assert m.op(SEL1, x.world, m.Eval(a, x.env), m.Eval(b, x.env)) ==
      (if flag(x.world) != 0 then m.Eval(a, x.env) else m.Eval(b, x.env), x.world);
    forall l: nat | l < k + 1 ensures PhiSelected(m, s, l, m.Eval(s.f.jmp[s.i], st.env), st.env, y.env) {
      if l < k { assert PhiSelected(m, s, l, m.Eval(s.f.jmp[s.i], st.env), st.env, x.env); }
    }
  }

  lemma {:induction false} SelectsRun<W(!new), V>(m: Machine<W>, s: Site, sees: W -> V, flag: W -> int, k: nat,
                                                  st: State<W>)
    requires s.Ok() && MachineOk(m, s.pinned, sees, flag) && s.f.phi[s.j] != [] && k <= |s.f.phi[s.j]|
    requires HasArgs(s.f.phi[s.j], s.t, s.e)
    ensures Selected(m, s, sees, flag, k, st, Exec(m, Selects(s.f.phi[s.j], s.f.jmp[s.i], s.t, s.e), k + 1, st))
  {
    var ps := s.f.phi[s.j];
    var code := Selects(ps, s.f.jmp[s.i], s.t, s.e);
    if k == 0 {
      assert OpOk(m, s.pinned, sees, flag, SEL0);
      assert code[0] == Ins(SEL0, R, s.f.jmp[s.i], R);
      assert Exec(m, code, 1, st) == ExecIns(m, code[0], Exec(m, code, 0, st));
    } else {
      SelectsRun(m, s, sees, flag, k - 1, st);
      assert code[k] == SelOf(ps[k - 1], s.t, s.e);
      SelectStep(m, s, sees, flag, k - 1, st, Exec(m, code, k, st));
    }
  }

  // ----- the branching block before and after -----

  ghost function RunArm<W>(m: Machine<W>, s: Site, x: nat, st: State<W>): State<W>
    requires s.Ok() && x < |s.f.ins|
  {
    if x == s.i then st else Exec(m, s.f.ins[x], |s.f.ins[x]|, st)
  }

  lemma CodeRuns<W(!new), V>(m: Machine<W>, s: Site, st: State<W>)
    requires s.Ok() && s.t < |s.f.ins| && s.e < |s.f.ins| && HasArgs(s.f.phi[s.j], s.t, s.e)
    ensures var code, sels := ConvertedCode(s.f, s.i, s.t, s.e, s.j), Selects(s.f.phi[s.j], s.f.jmp[s.i], s.t, s.e);
      var st1 := Exec(m, s.f.ins[s.i], |s.f.ins[s.i]|, st);
      Exec(m, code, |code|, st) == Exec(m, sels, |sels|, RunArm(m, s, s.e, RunArm(m, s, s.t, st1)))
  {
    var a, b, c, d := s.f.ins[s.i], ArmCode(s.f, s.i, s.t), ArmCode(s.f, s.i, s.e), Selects(s.f.phi[s.j], s.f.jmp[s.i], s.t, s.e);
    ExecAll(m, a + b + c, d, st);
    ExecAll(m, a + b, c, st);
    ExecAll(m, a, b, st);
  }

  /** Both arms have been run after the same branch block: side x left for r what it leaves when it runs alone. */
  lemma AfterArms<W(!new), V>(m: Machine<W>, s: Site, sees: W -> V, flag: W -> int, x: nat, r: Ref, st: State<W>,
                              st': State<W>)
    requires s.Ok() && MachineOk(m, s.pinned, sees, flag) && (x == s.t || x == s.e) && x < |s.f.ins|
    requires Agree(s, st.env, st'.env) && UseSsa(s.f, s.home, r, x, |s.f.ins[x]|)
    ensures s.t < |s.f.ins| && s.e < |s.f.ins|
    ensures m.Eval(r, RunArm(m, s, s.e, RunArm(m, s, s.t, st')).env) == m.Eval(r, RunArm(m, s, x, st).env)
  {
    HammockReach(s.f.g, s.i, s.t, s.e, s.j);
    ArmChanges(m, s, sees, flag, s.t, st');
    var st1 := RunArm(m, s, s.t, st');
    ArmChanges(m, s, sees, flag, s.e, st1);
    ArmChanges(m, s, sees, flag, x, st);
    if r.Tmp? {
      if x == s.i {
        UseVisible(s, r, x, |s.f.ins[x]|);
      } else {
        ArmUse(s, x, r, |s.f.ins[x]|);
        ArmAgree(m, s, sees, flag, x, |s.f.ins[x]|, st, if x == s.t then st' else st1);
      }
    }
  }

  lemma ArmChanges<W(!new), V>(m: Machine<W>, s: Site, sees: W -> V, flag: W -> int, x: nat, st: State<W>)
    requires s.Ok() && MachineOk(m, s.pinned, sees, flag) && (x == s.t || x == s.e) && x < |s.f.ins|
    ensures var y := RunArm(m, s, x, st);
      && y.world == st.world && Agree(s, st.env, y.env)
      && forall t: nat :: t < |s.home| && (x == s.i || s.home[t] != x) ==> y.env(t) == st.env(t)
  {
    if x != s.i { ArmFrame(m, s, sees, flag, x, |s.f.ins[x]|, st); }
  }

  /** Leaving the hammock by side x or running the converted block leads to the same visible values at the join. */
  lemma JoinAgrees<W(!new), V>(m: Machine<W>, s: Site, sees: W -> V, flag: W -> int, x: nat, st: State<W>,
                               st': State<W>)
    requires s.Ok() && MachineOk(m, s.pinned, sees, flag) && (x == s.t || x == s.e) && x < |s.f.ins|
    requires s.t < |s.f.ins| && s.e < |s.f.ins| && HasArgs(s.f.phi[s.j], s.t, s.e)
    requires Agree(s, st.env, st'.env) && sees(st.world) == sees(st'.world)
    requires x == if m.Eval(s.f.jmp[s.i], st.env) != 0 then s.t else s.e
    ensures var sels := Selects(s.f.phi[s.j], s.f.jmp[s.i], s.t, s.e);
      var y := Exec(m, sels, |sels|, RunArm(m, s, s.e, RunArm(m, s, s.t, st')));
      && Agree(s, EnterPhis(m, s.f.phi[s.j], x, RunArm(m, s, x, st).env), y.env)
      && sees(RunArm(m, s, x, st).world) == sees(y.world)
  {
    var ps := s.f.phi[s.j];
    var sels := Selects(ps, s.f.jmp[s.i], s.t, s.e);
    var a, b := RunArm(m, s, x, st), RunArm(m, s, s.e, RunArm(m, s, s.t, st'));
    ArmChanges(m, s, sees, flag, x, st);
    ArmChanges(m, s, sees, flag, s.t, st');
    ArmChanges(m, s, sees, flag, s.e, RunArm(m, s, s.t, st'));
    assert BlockSsa(s.f, s.home, s.i);
    UseVisible(s, s.f.jmp[s.i], s.i, |s.f.ins[s.i]|);
    assert m.Eval(s.f.jmp[s.i], b.env) == m.Eval(s.f.jmp[s.i], st.env);
    if ps != [] {
      SelectsRun(m, s, sees, flag, |ps|, b);
      var y := Exec(m, sels, |sels|, b);
      forall k: nat | k < |ps| ensures y.env(ps[k].to) == m.Eval(ps[k].args[x], a.env) {
        assert PhiSelected(m, s, k, m.Eval(s.f.jmp[s.i], b.env), b.env, y.env);
        JoinArg(s, k, x);
        AfterArms(m, s, sees, flag, x, ps[k].args[x], st, st');
      }
      PhisAgree(m, s, x, a.env, b.env, y.env);
    }
  }

  /** The parallel assignment of the phis and its result. */
  lemma PhisAgree<W>(m: Machine<W>, s: Site, x: nat, a: Env, b: Env, y: Env)
    requires s.Ok() && (x == s.t || x == s.e) && HasArgs(s.f.phi[s.j], s.t, s.e) && Agree(s, a, b)
    requires forall k: nat :: k < |s.f.phi[s.j]| ==> y(s.f.phi[s.j][k].to) == m.Eval(s.f.phi[s.j][k].args[x], a)
    requires forall n: nat :: (forall l: nat :: l < |s.f.phi[s.j]| ==> s.f.phi[s.j][l].to != n) ==> y(n) == b(n)
    ensures Agree(s, EnterPhis(m, s.f.phi[s.j], x, a), y)
  {
    var ps := s.f.phi[s.j];
    HammockReach(s.f.g, s.i, s.t, s.e, s.j);
    assert BlockSsa(s.f, s.home, s.j);
    forall n: nat | n < |s.home| && s.home[n] !in s.Arms() ensures EnterPhis(m, ps, x, a)(n) == y(n) {
      if k: nat :| k < |ps| && ps[k].to == n {
        assert PhiSsa(s.f, s.home, s.j, k);
        assert x in ps[k].args;
      }
    }
  }

  // ----- whole runs -----

  lemma SelectsValid(f: Fn, n: nat, b: nat, c: Ref, t: nat, e: nat)
    requires f.Valid(n) && b < |f.phi| && ValidRef(c, n) && HasArgs(f.phi[b], t, e)
    ensures forall k :: 0 <= k < |Selects(f.phi[b], c, t, e)| ==> ValidIns(Selects(f.phi[b], c, t, e)[k], n)
  {
    var sels := Selects(f.phi[b], c, t, e);
    forall k | 0 <= k < |sels| ensures ValidIns(sels[k], n) {
      if k > 0 { assert ValidPhi(f.phi[b][k - 1], n) && sels[k] == SelOf(f.phi[b][k - 1], t, e); }
    }
  }

  lemma ConvertedValid(s: Site)
    requires s.Ok() && s.t < |s.f.ins| && s.e < |s.f.ins| && HasArgs(s.f.phi[s.j], s.t, s.e)
    ensures Converted(s.f, s.i, s.t, s.e, s.j).Valid(|s.home|)
  {
    var f, n := s.f, |s.home|;
    var h := Converted(f, s.i, s.t, s.e, s.j);
    var sels := Selects(f.phi[s.j], f.jmp[s.i], s.t, s.e);
    SelectsValid(f, n, s.j, f.jmp[s.i], s.t, s.e);
    hide Selects, SelOf;
    forall b, k | 0 <= b < |h.ins| && 0 <= k < |h.ins[b]| ensures ValidIns(h.ins[b][k], n) {
      if b == s.i {
        var x := h.ins[b][k];
        assert x in f.ins[s.i] || x in f.ins[s.t] || x in f.ins[s.e] || x in sels;
      }
    }
  }

  ghost function Result(s: Site): (h: Fn)
    requires s.Ok()
    ensures h.Valid(|s.home|) && |h.ins| == |s.f.ins|
    ensures s.t < |s.f.ins| && s.e < |s.f.ins| && HasArgs(s.f.phi[s.j], s.t, s.e)
    ensures h == Converted(s.f, s.i, s.t, s.e, s.j)
  {
    JoinHasArgs(s);
    ConvertedValid(s);
    Converted(s.f, s.i, s.t, s.e, s.j)
  }

  /** Both functions are outside the hammock's arms at the same place, and stop there with the same value. */
  ghost predicate Level<W, V>(m: Machine<W>, s: Site, sees: W -> V, c: Config<W>, d: Config<W>)
    requires s.Ok()
  {
    && c.b == d.b < |s.f.ins| && c.b !in s.Arms() && Reach(s.f.g, c.b) && (c.At? <==>
        d.At?) && Same(s, sees, c.st, d.st)
    && (c.Halted? ==> c.b != s.i && m.Eval(s.f.jmp[c.b], c.st.env) == m.Eval(s.f.jmp[d.b], d.st.env))
  }

  /** The original is in an arm, the converted function already at the join. */
  ghost predicate Ahead<W, V>(m: Machine<W>, s: Site, sees: W -> V, c: Config<W>, d: Config<W>)
    requires s.Ok()
  {
    && c.At? && d.At? && c.b in s.Arms() && c.b < |s.f.ins| && d.b == s.j
    && var st := RunArm(m, s, c.b, c.st);
       Agree(s, EnterPhis(m, s.f.phi[s.j], c.b, st.env), d.st.env) && sees(st.world) == sees(d.st.world) && sees(c.st.world) == sees(d.st.world)
  }

  /** A jump outside the hammock. */
  lemma PlainStep<W(!new), V>(m: Machine<W>, s: Site, sees: W -> V, flag: W -> int, c: Config<W>, d: Config<W>)
    requires s.Ok() && MachineOk(m, s.pinned, sees, flag) && Level(m, s, sees, c, d) && c.b != s.i
    ensures Level(m, s, sees, Step(m, s.f, |s.home|, c), Step(m, Result(s), |s.home|, d))
  {
    var f, b := s.f, c.b;
    if c.At? {
      var n := |f.ins[b]|;
      ExecAgree(m, s, sees, flag, b, n, c.st, d.st);
      PlainJump(m, s, sees, b, Exec(m, f.ins[b], n, c.st), Exec(m, f.ins[b], n, d.st));
      hide MachineOk, Agree, EnterPhis, Exec, Site.Ok;
    }
  }

  /** Both take the same edge, and the phis of its target agree. */
  lemma PlainJump<W(!new), V>(m: Machine<W>, s: Site, sees: W -> V, b: nat, x: State<W>, y: State<W>)
    requires s.Ok() && b < |s.f.ins| && b !in s.Arms() && b != s.i && Reach(s.f.g, b) && Same(s, sees, x, y)
    ensures m.Eval(s.f.jmp[b], x.env) == m.Eval(s.f.jmp[b], y.env)
    ensures var to := Target(s.f.g, b, m.Eval(s.f.jmp[b], x.env));
      to >= 0 ==>
        to < |s.f.ins| && Reach(s.f.g, to) && to !in s.Arms() && to != s.j &&
        Agree(s, EnterPhis(m, s.f.phi[to], b, x.env), EnterPhis(m, s.f.phi[to], b, y.env))
  {
    assert BlockSsa(s.f, s.home, b);
    UseVisible(s, s.f.jmp[b], b, |s.f.ins[b]|);
    var to := Target(s.f.g, b, m.Eval(s.f.jmp[b], x.env));
    if to >= 0 {
      OutsideEdge(s, b, to);
      EnterAgree(m, s, b, to, x.env, y.env);
    }
  }

  /** Edges from outside the hammock lead neither to an arm nor to the join. */
  lemma OutsideEdge(s: Site, b: nat, to: nat)
    requires s.Ok() && b < |s.f.ins| && b !in s.Arms() && b != s.i && Reach(s.f.g, b) && s.f.g.Edge(b, to)
    ensures Reach(s.f.g, to) && to !in s.Arms() && to != s.j
  {
    ReachEdge(s.f.g, b, to);
  }

  lemma EnterAgree<W>(m: Machine<W>, s: Site, b: nat, to: nat, a: Env, y: Env)
    requires s.Ok() && b < |s.f.ins| && to < |s.f.ins| && b !in s.Arms() && Reach(s.f.g, b) && s.f.g.Edge(b, to)
    requires Agree(s, a, y)
    ensures Agree(s, EnterPhis(m, s.f.phi[to], b, a), EnterPhis(m, s.f.phi[to], b, y))
  {
    var ps := s.f.phi[to];
    ReachEdge(s.f.g, b, to);
    assert BlockSsa(s.f, s.home, to);
    forall n: nat | n < |s.home| && s.home[n] !in s.Arms()
      ensures EnterPhis(m, ps, b, a)(n) == EnterPhis(m, ps, b, y)(n)
    {
      if k: nat :| k < |ps| && ps[k].to == n && b in ps[k].args {
        assert PhiSsa(s.f, s.home, to, k) && ArgSsa(s.f, s.home, ps[k], b);
        UseVisible(s, ps[k].args[b], b, |s.f.ins[b]|);
      }
    }
  }

  /** What the converted block does, for an original that leaves its branch block with st. */
  lemma BlockStep<W(!new), V>(m: Machine<W>, s: Site, sees: W -> V, flag: W -> int, x: nat, st: State<W>, d: Config<W>)
    requires s.Ok() && MachineOk(m, s.pinned, sees, flag) && d.At? && d.b == s.i && (x == s.t || x == s.e)
    requires x < |s.f.ins|
    requires Same(s, sees, st, Exec(m, s.f.ins[s.i], |s.f.ins[s.i]|, d.st))
    requires x == if m.Eval(s.f.jmp[s.i], st.env) != 0 then s.t else s.e
    ensures var d' := Step(m, Result(s), |s.home|, d);
      && d'.At? && d'.b == s.j && Agree(s, EnterPhis(m, s.f.phi[s.j], x, RunArm(m, s, x, st).env), d'.st.env)
      && sees(RunArm(m, s, x, st).world) == sees(d'.st.world)
  {
    var h := Result(s);
    var st' := Exec(m, s.f.ins[s.i], |s.f.ins[s.i]|, d.st);
    CodeRuns<W, V>(m, s, d.st);
    JoinAgrees(m, s, sees, flag, x, st, st');
    var y := Exec(m, h.ins[s.i], |h.ins[s.i]|, d.st);
    assert h.jmp[s.i] == R && h.phi[s.j] == [];
    assert Step(m, h, |s.home|, d) == At(s.j, State(y.world, EnterPhis(m, [], s.i, y.env)));
    assert Agree(s, y.env, EnterPhis(m, [], s.i, y.env));
  }

  /** The converted block does in one step what the branch and the side x do. */
  lemma SideStep<W(!new), V>(m: Machine<W>, s: Site, sees: W -> V, flag: W -> int, c: Config<W>, d: Config<W>, x: nat,
                             st: State<W>)
    requires s.Ok() && MachineOk(m, s.pinned, sees, flag) && Level(m, s, sees, c, d) && c.b == s.i && c.At?
    requires st == Exec(m, s.f.ins[s.i], |s.f.ins[s.i]|, c.st)
    requires Same(s, sees, st, Exec(m, s.f.ins[s.i], |s.f.ins[s.i]|, d.st))
    requires x == (if m.Eval(s.f.jmp[s.i], st.env) != 0 then s.t else s.e) && x < |s.f.ins| && Reach(s.f.g, s.j)
    ensures Matched(m, s, sees, Step(m, s.f, |s.home|, c), Step(m, Result(s), |s.home|, d))
  {
    hide MachineOk, Grouped, BlockSsa, Result, Selects;
    var f, i := s.f, s.i;
    if x == i {
      assert Target(f.g, i, m.Eval(f.jmp[i], st.env)) == s.j;
      BlockStep(m, s, sees, flag, x, st, d);
    } else {
      assert Step(m, f, |s.home|, c) == At(x, State(st.world, EnterPhis(m, f.phi[x], i, st.env)));
      IntoArm(m, s, sees, flag, x, st, d);
    }
  }

  /** The original enters the arm x, the converted function goes to the join. */
  lemma IntoArm<W(!new), V>(m: Machine<W>, s: Site, sees: W -> V, flag: W -> int, x: nat, st: State<W>, d: Config<W>)
    requires s.Ok() && MachineOk(m, s.pinned, sees, flag) && d.At? && d.b == s.i && x in s.Arms() && x < |s.f.ins|
    requires Same(s, sees, st, Exec(m, s.f.ins[s.i], |s.f.ins[s.i]|, d.st))
    requires x == if m.Eval(s.f.jmp[s.i], st.env) != 0 then s.t else s.e
    ensures Ahead(m, s, sees, At(x, State(st.world, EnterPhis(m, s.f.phi[x], s.i, st.env))),
                  Step(m, Result(s), |s.home|, d))
  {
    hide MachineOk, Grouped, BlockSsa, Result, Selects;
    assert s.ArmOk(x);
    var st1 := State(st.world, EnterPhis(m, s.f.phi[x], s.i, st.env));
    assert Agree(s, st1.env, st.env) && m.Eval(s.f.jmp[s.i], st1.env) == m.Eval(s.f.jmp[s.i], st.env);
    BlockStep(m, s, sees, flag, x, st1, d);
    ArmChanges(m, s, sees, flag, x, st1);
  }

  lemma BranchStep<W(!new), V>(m: Machine<W>, s: Site, sees: W -> V, flag: W -> int, c: Config<W>, d: Config<W>)
    requires s.Ok() && MachineOk(m, s.pinned, sees, flag) && Level(m, s, sees, c, d) && c.b == s.i && c.At?
    ensures Matched(m, s, sees, Step(m, s.f, |s.home|, c), Step(m, Result(s), |s.home|, d))
  {
    var n := |s.f.ins[s.i]|;
    ExecAgree(m, s, sees, flag, s.i, n, c.st, d.st);
    var st := Exec(m, s.f.ins[s.i], n, c.st);
    HammockReach(s.f.g, s.i, s.t, s.e, s.j);
    SideStep(m, s, sees, flag, c, d, if m.Eval(s.f.jmp[s.i], st.env) != 0 then s.t else s.e, st);
  }

  /** The arm ends at the join, where the converted function already is. */
  lemma ArmStepJoins<W(!new), V>(m: Machine<W>, s: Site, sees: W -> V, c: Config<W>, d: Config<W>)
    requires s.Ok() && Ahead(m, s, sees, c, d)
    ensures Level(m, s, sees, Step(m, s.f, |s.home|, c), d)
  {
    HammockReach(s.f.g, s.i, s.t, s.e, s.j);
  }

  ghost predicate Matched<W, V>(m: Machine<W>, s: Site, sees: W -> V, c: Config<W>, d: Config<W>)
    requires s.Ok()
  {
    Level(m, s, sees, c, d) || Ahead(m, s, sees, c, d)
  }

  lemma MatchedStep<W(!new), V>(m: Machine<W>, s: Site, sees: W -> V, flag: W -> int, c: Config<W>, d: Config<W>)
    requires s.Ok() && MachineOk(m, s.pinned, sees, flag) && Level(m, s, sees, c, d)
    ensures c.b < |s.f.ins| && d.b < |s.f.ins|
    ensures Matched(m, s, sees, Step(m, s.f, |s.home|, c), Step(m, Result(s), |s.home|, d))
  {
    if c.b == s.i { BranchStep(m, s, sees, flag, c, d); } else { PlainStep(m, s, sees, flag, c, d); }
  }

  lemma StartLevel<W(!new), V>(m: Machine<W>, s: Site, sees: W -> V, w: W)
    requires s.Ok()
    ensures Level(m, s, sees, Run(m, s.f, |s.home|, w, 0), Run(m, Result(s), |s.home|, w, 0))
  {
    assert IsPath(s.f.g, 0, [0], 0);
    if s.t != s.i { NotStart(s.f.g, s.i, s.t, s.e, s.j, s.t); }
    if s.e != s.i { NotStart(s.f.g, s.i, s.t, s.e, s.j, s.e); }
  }

  /** One step of the original: the converted function waits while it is ahead. */
  lemma ForwardStep<W(!new), V>(m: Machine<W>, s: Site, h: Fn, sees: W -> V, flag: W -> int, c: Config<W>, d: Config<W>)
    returns (moved: bool)
    requires s.Ok() && MachineOk(m, s.pinned, sees, flag) && h == Result(s) && h.Valid(|s.home|)
    requires Matched(m, s, sees, c, d)
    ensures c.b < |s.f.ins| && d.b < |h.ins|
    ensures Matched(m, s, sees, Step(m, s.f, |s.home|, c), if moved then Step(m, h, |s.home|, d) else d)
  {
    moved := Level(m, s, sees, c, d);
    if moved {
      MatchedStep(m, s, sees, flag, c, d);
    } else {
      ArmStepJoins(m, s, sees, c, d);
    }
  }

  /** One step of the converted function: the original catches up. */
  lemma BackwardStep<W(!new), V>(m: Machine<W>, s: Site, h: Fn, sees: W -> V, flag: W -> int, c: Config<W>,
                                 d: Config<W>)
    returns (twice: bool)
    requires s.Ok() && MachineOk(m, s.pinned, sees, flag) && h == Result(s) && h.Valid(|s.home|)
    requires Level(m, s, sees, c, d)
    ensures c.b < |s.f.ins| && d.b < |h.ins| && Step(m, s.f, |s.home|, c).b < |s.f.ins|
    ensures var c' := Step(m, s.f, |s.home|, c);
      Level(m, s, sees, if twice then Step(m, s.f, |s.home|, c') else c', Step(m, h, |s.home|, d))
  {
    MatchedStep(m, s, sees, flag, c, d);
    var c', d' := Step(m, s.f, |s.home|, c), Step(m, h, |s.home|, d);
    twice := !Level(m, s, sees, c', d');
    if twice { ArmStepJoins(m, s, sees, c', d'); }
  }

  /** One step of f keeps the relation if h makes at most two. */
  ghost predicate Advances<W>(m: Machine<W>, f: Fn, h: Fn, ntmp: nat, rel: (Config<W>, Config<W>) -> bool, c: Config<W>,
                              d: Config<W>)
    requires f.Valid(ntmp) && h.Valid(ntmp)
  {
    && c.b < |f.ins| && d.b < |h.ins|
    && var c', d' := Step(m, f, ntmp, c), Step(m, h, ntmp, d);
       rel(c', d) || rel(c', d') || (d'.b < |h.ins| && rel(c', Step(m, h, ntmp, d')))
  }

  lemma AdvanceRun<W>(m: Machine<W>, f: Fn, h: Fn, ntmp: nat, rel: (Config<W>, Config<W>) -> bool, w: W, n: nat, k: nat)
    requires f.Valid(ntmp) && h.Valid(ntmp)
    requires Advances(m, f, h, ntmp, rel, Run(m, f, ntmp, w, n), Run(m, h, ntmp, w, k))
    ensures var c := Run(m, f, ntmp, w, n + 1);
      rel(c, Run(m, h, ntmp, w, k)) || rel(c, Run(m, h, ntmp, w, k + 1)) || rel(c, Run(m, h, ntmp, w, k + 2))
  {
    assert Run(m, h, ntmp, w, k + 2) == Step(m, h, ntmp, Run(m, h, ntmp, w, k + 1));
  }

  /** A relation that every step of f keeps holds along the whole run. */
  lemma Simulates<W(!new)>(m: Machine<W>, f: Fn, h: Fn, ntmp: nat, rel: (Config<W>, Config<W>) -> bool, w: W, n: nat)
    returns (k: nat)
    requires f.Valid(ntmp) && h.Valid(ntmp) && rel(Run(m, f, ntmp, w, 0), Run(m, h, ntmp, w, 0))
    requires forall c, d :: rel(c, d) ==> Advances(m, f, h, ntmp, rel, c, d)
    ensures rel(Run(m, f, ntmp, w, n), Run(m, h, ntmp, w, k))
  {
    k := 0;
    for i := 0 to n
      invariant rel(Run(m, f, ntmp, w, i), Run(m, h, ntmp, w, k))
    {
      AdvanceRun(m, f, h, ntmp, rel, w, i, k);
      var c := Run(m, f, ntmp, w, i + 1);
      k := if rel(c, Run(m, h, ntmp, w, k)) then k else if rel(c, Run(m, h, ntmp, w, k + 1)) then k + 1 else k + 2;
    }
  }

  /** Every state of the original is matched; h is the converted function. */
  lemma Forward<W(!new), V>(m: Machine<W>, s: Site, h: Fn, sees: W -> V, flag: W -> int, w: W, n: nat) returns (k: nat)
    requires s.Ok() && MachineOk(m, s.pinned, sees, flag) && h == Result(s) && h.Valid(|s.home|)
    ensures Matched(m, s, sees, Run(m, s.f, |s.home|, w, n), Run(m, h, |s.home|, w, k))
  {
    var rel := (c: Config<W>, d: Config<W>) => Matched(m, s, sees, c, d);
    StartLevel(m, s, sees, w);
    forall c, d | rel(c, d) ensures Advances(m, s.f, h, |s.home|, rel, c, d) {
      var moved := ForwardStep(m, s, h, sees, flag, c, d);
    }
    k := Simulates(m, s.f, h, |s.home|, rel, w, n);
  }

  /** Every state of the converted function is matched. */
  lemma Backward<W(!new), V>(m: Machine<W>, s: Site, h: Fn, sees: W -> V, flag: W -> int, w: W, k: nat) returns (n: nat)
    requires s.Ok() && MachineOk(m, s.pinned, sees, flag) && h == Result(s) && h.Valid(|s.home|)
    ensures Level(m, s, sees, Run(m, s.f, |s.home|, w, n), Run(m, h, |s.home|, w, k))
  {
    var rel := (d: Config<W>, c: Config<W>) => Level(m, s, sees, c, d);
    StartLevel(m, s, sees, w);
    forall d, c | rel(d, c) ensures Advances(m, h, s.f, |s.home|, rel, d, c) {
      var twice := BackwardStep(m, s, h, sees, flag, c, d);
    }
    n := Simulates(m, h, s.f, |s.home|, rel, w, k);
  }

  /** d shows what c shows: the same world, and the same end with the same value. */
  ghost predicate Shows<W, V>(m: Machine<W>, f: Fn, h: Fn, sees: W -> V, c: Config<W>, d: Config<W>)
    requires c.b < |f.jmp| && d.b < |h.jmp|
  {
    && sees(c.st.world) == sees(d.st.world)
    && (c.Halted? ==> d.Halted? && d.b == c.b && m.Eval(h.jmp[d.b], d.st.env) == m.Eval(f.jmp[c.b], c.st.env))
  }

  /** Some state of h shows what f shows after n blocks. */
  ghost predicate Mirrors<W, V>(m: Machine<W>, f: Fn, h: Fn, ntmp: nat, sees: W -> V, w: W, n: nat)
    requires f.Valid(ntmp) && h.Valid(ntmp)
  {
    exists k: nat :: Shows(m, f, h, sees, Run(m, f, ntmp, w, n), Run(m, h, ntmp, w, k))
  }

  /**
   * If-conversion preserves meaning: on every machine, from every memory, each state of either function shows
   * the same world as some state of the other, and if one returns, so does the other with the same value.
   */
  lemma ConversionPreservesMeaning<W(!new), V>(m: Machine<W>, s: Site, sees: W -> V, flag: W -> int, w: W)
    requires s.Ok() && MachineOk(m, s.pinned, sees, flag)
    ensures forall n: nat :: Mirrors(m, s.f, Result(s), |s.home|, sees, w, n)
    ensures forall k: nat :: Mirrors(m, Result(s), s.f, |s.home|, sees, w, k)
  {
    var h, nt := Result(s), |s.home|;
    forall n: nat ensures Mirrors(m, s.f, h, nt, sees, w, n) {
      var k := Forward(m, s, h, sees, flag, w, n);
      assert Shows(m, s.f, h, sees, Run(m, s.f, nt, w, n), Run(m, h, nt, w, k));
    }
    forall k: nat ensures Mirrors(m, h, s.f, nt, sees, w, k) {
      var n := Backward(m, s, h, sees, flag, w, k);
      assert Shows(m, h, s.f, sees, Run(m, h, nt, w, k), Run(m, s.f, nt, w, n));
    }
  }

  // ----- ifgraph, okgraph, convert -----

  /** For the blocks that can be reached, pred lists the predecessors that can be reached, once each. */
  ghost predicate LivePreds(g: Graph, pred: seq<seq<nat>>) {
    && g.Valid() && |pred| == |g.s1|
    && forall b: nat :: b < |pred| && Reach(g, b) ==> PredsAt(g, pred[b], b)
  }

  ghost predicate PredsAt(g: Graph, ps: seq<nat>, b: nat)
    requires g.Valid()
  {
    && (forall p: nat :: Reach(g, p) && g.Edge(p, b) ==> p in ps)
    && (forall p: nat :: p in ps ==> Reach(g, p) && g.Edge(p, b))
    && (forall i, j :: 0 <= i < j < |ps| ==> ps[i] != ps[j])
  }

  lemma OnlyPred(g: Graph, pred: seq<seq<nat>>, b: nat, p: nat)
    requires LivePreds(g, pred) && b < |pred| && |pred[b]| == 1 && Reach(g, p) && g.Edge(p, b)
    ensures forall q: nat :: Reach(g, q) && g.Edge(q, b) ==> q == p
  {
    ReachEdge(g, p, b);
    assert PredsAt(g, pred[b], b);
  }

  lemma TwoPreds(g: Graph, pred: seq<seq<nat>>, b: nat, p: nat, q: nat)
    requires LivePreds(g, pred) && b < |pred| && |pred[b]| == 2 && p != q
    requires Reach(g, p) && g.Edge(p, b) && Reach(g, q) && g.Edge(q, b)
    ensures forall r: nat :: Reach(g, r) && g.Edge(r, b) ==> r == p || r == q
  {
    ReachEdge(g, p, b);
    assert PredsAt(g, pred[b], b);
  }

  /** A reachable block that is not the start has a reachable predecessor other than itself. */
  lemma {:induction false} EnteredFrom(g: Graph, b: nat, p: seq<nat>) returns (a: nat)
    requires IsPath(g, 0, p, b) && b != 0
    ensures Reach(g, a) && g.Edge(a, b) && a != b
    decreases |p|
  {
    a := p[|p| - 2];
    PathPrefix(g, 0, p, b, |p| - 2);
    assert g.Edge(p[|p| - 2], p[|p| - 1]);
    if a == b { a := EnteredFrom(g, b, p[..|p| - 1]); }
  }

  /** The arm found by ifgraph: it has one predecessor and is not the branch itself. */
  lemma FoundArm(g: Graph, pred: seq<seq<nat>>, i: nat, x: nat, j: nat)
    requires LivePreds(g, pred) && NoEntryToStart(g) && i < |pred| && x < |pred| && Reach(g, i) && g.Edge(i, x)
    requires |pred[x]| == 1 && g.s1[x] == j && g.s2[x] == NONE && x != j
    ensures Arm(g, i, x, j) && Reach(g, x)
  {
    ReachEdge(g, i, x);
    OnlyPred(g, pred, x, i);
    assert !g.Edge(i, 0);
    var p :| IsPath(g, 0, p, x);
    var a := EnteredFrom(g, x, p);
  }

  /** The join is not the branch: something else would have to lead there first. */
  lemma JoinIsNotBranch(g: Graph, i: nat, x: nat, y: nat, j: nat)
    requires g.Valid() && NoEntryToStart(g) && Reach(g, i) && g.Edge(y, j) && j != 0
    requires (forall p: nat :: Reach(g, p) && g.Edge(p, j) ==> p == x || p == y)
    requires x == i || forall p: nat :: Reach(g, p) && g.Edge(p, x) ==> p == i
    requires y == i || forall p: nat :: Reach(g, p) && g.Edge(p, y) ==> p == i
    requires x != 0 || x == i
    requires y != 0 || y == i
    ensures j != i
  {
    if j == i {
      var p :| IsPath(g, 0, p, i);
      var k := FirstVisit(p, i);
      PathPrefix(g, 0, p, i, k);
      BeforeBranch(g, i, x, y, p, k);
    }
  }

  /** Every predecessor of i on the way to its first visit has i above it. */
  lemma BeforeBranch(g: Graph, i: nat, x: nat, y: nat, p: seq<nat>, k: nat)
    requires g.Valid() && k < |p| && IsPath(g, 0, p[..k + 1], i) && i !in p[..k]
    requires (forall q: nat :: Reach(g, q) && g.Edge(q, i) ==> q == x || q == y)
    requires x == i || ((forall q: nat :: Reach(g, q) && g.Edge(q, x) ==> q == i) && x != 0)
    requires y == i || ((forall q: nat :: Reach(g, q) && g.Edge(q, y) ==> q == i) && y != 0)
    ensures k == 0
  {
    if k > 0 {
      assert p[k - 1] in p[..k] && (k >= 2 ==> p[k - 2] in p[..k]);
      BeforeArm(g, i, x, y, p, k);
    }
  }

  /** On a path to i, the block before last is i itself if an arm is last. */
  lemma BeforeArm(g: Graph, i: nat, x: nat, y: nat, p: seq<nat>, k: nat)
    requires g.Valid() && 0 < k < |p| && IsPath(g, 0, p[..k + 1], i) && p[k - 1] != i
    requires (forall q: nat :: Reach(g, q) && g.Edge(q, i) ==> q == x || q == y)
    requires x == i || ((forall q: nat :: Reach(g, q) && g.Edge(q, x) ==> q == i) && x != 0)
    requires y == i || ((forall q: nat :: Reach(g, q) && g.Edge(q, y) ==> q == i) && y != 0)
    ensures k >= 2 && p[k - 2] == i
  {
    var q := p[..k + 1];
    PathPrefix(g, 0, q, i, k - 1);
    assert g.Edge(q[k - 1], q[k]);
    assert k - 1 > 0;
    PathPrefix(g, 0, q, i, k - 2);
    assert g.Edge(q[k - 2], q[k - 1]);
  }

  /** The two-armed case. */
  lemma BothArms(g: Graph, pred: seq<seq<nat>>, i: nat, t: nat, e: nat, j: nat)
    requires LivePreds(g, pred) && NoEntryToStart(g) && i < |pred| && Reach(g, i) && j < |pred|
    requires g.s1[i] == t && g.s2[i] == e && t != e && t < |pred| && e < |pred|
    requires |pred[t]| == 1 && g.s1[t] == j && g.s2[t] == NONE && |pred[e]| == 1 && g.s1[e] == j && g.s2[e] == NONE
    requires |pred[j]| == 2
    ensures Hammock(g, i, t, e, j)
  {
    assert g.Edge(i, t) && g.Edge(i, e) && g.Edge(t, j) && g.Edge(e, j);
    ReachEdge(g, i, t);
    ReachEdge(g, i, e);
    TwoPreds(g, pred, j, t, e);
    FoundArm(g, pred, i, t, j);
    FoundArm(g, pred, i, e, j);
    assert !g.Edge(i, 0) && !g.Edge(t, 0);
    JoinIsNotBranch(g, i, t, e, j);
  }

  /** The one-armed case; x is the arm. */
  lemma OneArm(g: Graph, pred: seq<seq<nat>>, i: nat, x: nat, j: nat)
    requires LivePreds(g, pred) && NoEntryToStart(g) && i < |pred| && Reach(g, i) && j < |pred| && x < |pred|
    requires {g.s1[i], g.s2[i]} == {x, j} && x != j
    requires |pred[x]| == 1 && g.s1[x] == j && g.s2[x] == NONE && |pred[j]| == 2
    ensures g.s1[i] == x ==> Hammock(g, i, x, i, j)
    ensures g.s2[i] == x ==> Hammock(g, i, i, x, j)
  {
    assert g.Edge(i, x) && g.Edge(i, j) && g.Edge(x, j);
    ReachEdge(g, i, x);
    FoundArm(g, pred, i, x, j);
    TwoPreds(g, pred, j, i, x);
    assert !g.Edge(i, 0) && !g.Edge(x, 0);
    JoinIsNotBranch(g, i, x, i, j);
  }

  /** In reverse postorder an arm comes before the join. */
  predicate Numbered(i: nat, t: nat, e: nat, j: nat) {
    (t == i ==> e < j) && (e == i ==> t < j)
  }

  lemma FirstMembers(ps: seq<nat>)
    ensures |ps| > 1 ==> ps[0] in ps && ps[1] in ps
    ensures |ps| > 2 ==> ps[2] in ps
  {}

  lemma ArmPred(g: Graph, pred: seq<seq<nat>>, i: nat, x: nat, j: nat)
    requires LivePreds(g, pred) && Arm(g, i, x, j) && Reach(g, i) && g.Edge(i, x)
    ensures |pred[x]| == 1
  {
    var ps := pred[x];
    ReachEdge(g, i, x);
    assert PredsAt(g, ps, x) && i in ps;
    FirstMembers(ps);
  }

  lemma JoinPreds(g: Graph, pred: seq<seq<nat>>, i: nat, t: nat, e: nat, j: nat)
    requires LivePreds(g, pred) && Hammock(g, i, t, e, j)
    ensures |pred[j]| == 2
  {
    HammockReach(g, i, t, e, j);
    var ps := pred[j];
    assert PredsAt(g, ps, j) && g.Edge(t, j) && g.Edge(e, j) && t in ps && e in ps;
    FirstMembers(ps);
  }

  /** What ifgraph tests, for the lower and the upper successor. */
  ghost predicate Looks(g: Graph, pred: seq<seq<nat>>, s1: int, s2: int)
    requires g.Valid() && |pred| == |g.s1|
  {
    && 0 <= s1 < |pred| && 0 <= s2 < |pred| && g.s1[s1] >= 0 && g.s2[s1] < 0 && |pred[s1]| == 1
    && if g.s1[s1] == s2 then |pred[s2]| == 2
       else g.s1[s2] >= 0 && g.s2[s2] < 0 && |pred[s2]| == 1 && g.s1[s1] == g.s1[s2] && |pred[g.s1[s1]]| == 2
  }

  /** A hammock passes the tests, and is the only one at its branch. */
  lemma HammockLooks(g: Graph, pred: seq<seq<nat>>, i: nat, t: nat, e: nat, j: nat)
    requires LivePreds(g, pred) && Hammock(g, i, t, e, j) && Numbered(i, t, e, j)
    ensures g.s1[i] >= 0 && g.s2[i] >= 0
    ensures Looks(g, pred, if g.s1[i] < g.s2[i] then g.s1[i] else g.s2[i], if g.s1[i] < g.s2[i] then g.s2[i] else g.s1[i])
  {
    if t != i { ArmPred(g, pred, i, t, j); }
    if e != i { ArmPred(g, pred, i, e, j); }
    JoinPreds(g, pred, i, t, e, j);
  }

  lemma HammockUnique(g: Graph, i: nat, t: nat, e: nat, j: nat, t': nat, e': nat, j': nat)
    requires Hammock(g, i, t, e, j) && Hammock(g, i, t', e', j')
    ensures t == t' && e == e' && j == j'
  {
    HammockReach(g, i, t, e, j);
    HammockReach(g, i, t', e', j');
    assert g.Edge(t, j) && g.Edge(e, j) && g.Edge(t', j') && g.Edge(e', j');
  }

  /** ifgraph: recognises if-then, if-else and if-then-else; a side without a block of its own is given as ifb. */
  method IfGraph(g: Graph, pred: seq<seq<nat>>, ifb: nat) returns (ok: bool, thenb: nat, elseb: nat, joinb: nat)
    requires LivePreds(g, pred) && NoEntryToStart(g) && ifb < |pred| && (Reach(g, ifb) || g.s2[ifb] < 0)
    ensures ok ==> thenb < |pred| && elseb < |pred| && joinb < |pred|
    ensures ok ==> Hammock(g, ifb, thenb, elseb, joinb) && Numbered(ifb, thenb, elseb, joinb)
    ensures !ok ==> forall t: nat, e: nat, j: nat :: Numbered(ifb, t, e, j) ==> !Hammock(g, ifb, t, e, j)
  {
    ok, thenb, elseb, joinb := false, ifb, ifb, ifb;
    forall t: nat, e: nat, j: nat | Numbered(ifb, t, e, j) && Hammock(g, ifb, t, e, j)
      ensures g.s1[ifb] >= 0 && g.s2[ifb] >= 0
      ensures Looks(g, pred, if g.s1[ifb] < g.s2[ifb] then g.s1[ifb] else g.s2[ifb],
                    if g.s1[ifb] < g.s2[ifb] then g.s2[ifb] else g.s1[ifb])
    {
      HammockLooks(g, pred, ifb, t, e, j);
    }
    if g.s1[ifb] < 0 || g.s2[ifb] < 0 {
      return; // not a jnz
    }
    var s1, s2 := g.s1[ifb], g.s2[ifb];
    var swapped := s1 > s2;
    if swapped {
      s1, s2 := s2, s1;
    }
    if s1 == s2 {
      return;
    }
    if !(g.s1[s1] >= 0 && g.s2[s1] < 0) || |pred[s1]| != 1 {
      return;
    }
    if g.s1[s1] == s2 {
      if |pred[s2]| != 2 {
        return;
      }
      OneArm(g, pred, ifb, s1, s2);
      thenb, elseb := if swapped then ifb else s1, if swapped then s1 else ifb;
      return true, thenb, elseb, s2;
    }
    if !(g.s1[s2] >= 0 && g.s2[s2] < 0) || |pred[s2]| != 1 {
      return;
    }
    if g.s1[s1] != g.s1[s2] || |pred[g.s1[s1]]| != 2 {
      return;
    }
    joinb := g.s1[s1];
    thenb, elseb := if swapped then s2 else s1, if swapped then s1 else s2;
    BothArms(g, pred, ifb, thenb, elseb, joinb);
    ok := true;
  }

  const MAX_INS := 2
  const MAX_PHIS := 2

  /** The instructions that would be run early. */
  function Work(code: seq<Ins>): nat {
    if code == [] then 0 else
    Work(code[..|code| - 1]) + if code[|code| - 1].op == DBGLOC || code[|code| - 1].op == NOP then 0 else 1
  }

  /** No pinned instruction but dbgloc, and at most two others that are not nops. */
  ghost predicate ArmFits(code: seq<Ins>, pinned: nat -> bool) {
    Work(code) <= MAX_INS && forall k :: 0 <= k < |code| ==> code[k].op == DBGLOC || !pinned(code[k].op)
  }

  /** okbranch. */
  method OkBranch(code: seq<Ins>, pinned: nat -> bool) returns (ok: bool)
    ensures ok <==> ArmFits(code, pinned)
  {
    var n := 0;
    for k := 0 to |code|
      invariant forall l :: 0 <= l < k ==> code[l].op == DBGLOC || !pinned(code[l].op)
      invariant n == Work(code[..k])
    {
      if code[k].op != DBGLOC {
        if pinned(code[k].op) {
          return false;
        }
        if code[k].op != NOP {
          n := n + 1;
        }
      }
      assert code[..k + 1][..k] == code[..k];
    }
    assert code[..|code|] == code;
    ok := n <= MAX_INS;
  }

  /** okjoin: at most two phis, all of an integer class. */
  method OkJoin(ps: seq<Phi>, integer: nat -> bool) returns (ok: bool)
    ensures ok <==> |ps| <= MAX_PHIS && forall k :: 0 <= k < |ps| ==> integer(ps[k].to)
  {
    for k := 0 to |ps|
      invariant forall l :: 0 <= l < k ==> integer(ps[l].to)
    {
      if !integer(ps[k].to) {
        return false;
      }
    }
    ok := |ps| <= MAX_PHIS;
  }

  /** The limits on a hammock that is worth converting. */
  ghost predicate Fits(f: Fn, pinned: nat -> bool, integer: nat -> bool, ifb: nat, thenb: nat, elseb: nat, joinb: nat)
    requires |f.ins| == |f.phi| && thenb < |f.ins| && elseb < |f.ins| && joinb < |f.ins|
  {
    && |f.phi[joinb]| <= MAX_PHIS && (forall k :: 0 <= k < |f.phi[joinb]| ==> integer(f.phi[joinb][k].to))
    && (thenb != ifb ==> ArmFits(f.ins[thenb], pinned)) && (elseb != ifb ==> ArmFits(f.ins[elseb], pinned))
  }

  /** No hammock at this block meets the limits. */
  ghost predicate NothingFits(f: Fn, pinned: nat -> bool, integer: nat -> bool, ifb: nat)
    requires |f.g.s1| == |f.g.s2| == |f.ins| == |f.phi|
  {
    forall t: nat, e: nat, j: nat :: Numbered(ifb, t, e, j) && Hammock(f.g, ifb, t, e, j) ==>
      t < |f.ins| && e < |f.ins| && !Fits(f, pinned, integer, ifb, t, e, j)
  }

  ghost predicate SiteFits(s: Site, integer: nat -> bool) {
    && |s.f.ins| == |s.f.phi| && s.t < |s.f.ins| && s.e < |s.f.ins| && s.j < |s.f.ins|
    && Fits(s.f, s.pinned, integer, s.i, s.t, s.e, s.j)
  }

  /** okgraph. */
  method OkGraph(f: Fn, pred: seq<seq<nat>>, pinned: nat -> bool, integer: nat -> bool, ifb: nat, thenb: nat,
                 elseb: nat, joinb: nat)
    returns (ok: bool)
    requires |f.ins| == |f.phi| == |pred| && thenb < |f.ins| && elseb < |f.ins| && joinb < |f.ins|
    ensures ok <==> |pred[joinb]| == 2 && Fits(f, pinned, integer, ifb, thenb, elseb, joinb)
  {
    ok := |pred[joinb]| == 2;
    if ok {
      ok := OkJoin(f.phi[joinb], integer);
    }
    if ok && thenb != ifb {
      ok := OkBranch(f.ins[thenb], pinned);
    }
    if ok && elseb != ifb {
      ok := OkBranch(f.ins[elseb], pinned);
    }
  }

  /**
   * convert: the code of the arms and the selects are appended to the branching block, which then jumps to the join
   * as its only predecessor.
   */
  method Convert(f: Fn, pred: seq<seq<nat>>, ifb: nat, thenb: nat, elseb: nat, joinb: nat)
    returns (h: Fn, pred': seq<seq<nat>>)
    requires |f.g.s1| == |f.g.s2| == |f.ins| == |f.phi| == |f.jmp|
    requires ifb < |f.ins| && thenb < |f.ins| && elseb < |f.ins| && joinb < |f.ins|
    requires HasArgs(f.phi[joinb], thenb, elseb)
    requires |pred| == |f.ins|
    ensures h == Converted(f, ifb, thenb, elseb, joinb) && pred' == pred[joinb := [ifb]]
  {
    var ps := f.phi[joinb];
    var ins := f.ins[ifb];
    if thenb != ifb {
      ins := ins + f.ins[thenb];
    }
    if elseb != ifb {
      ins := ins + f.ins[elseb];
    }
    ghost var sels := Selects(ps, f.jmp[ifb], thenb, elseb);
    ghost var code := f.ins[ifb] + ArmCode(f, ifb, thenb) + ArmCode(f, ifb, elseb);
    assert ins == code;
    if ps != [] {
      ins := ins + [Ins(SEL0, R, f.jmp[ifb], R)];
      for k := 0 to |ps|
        invariant ins == code + sels[..k + 1]
      {
        ins := ins + [Ins(SEL1, Tmp(ps[k].to), ps[k].args[thenb], ps[k].args[elseb])];
        assert sels[..k + 2] == sels[..k + 1] + [sels[k + 1]];
      }
    }
    assert ins == code + sels;
    h := f.(g := Graph(f.g.s1[ifb := joinb], f.g.s2[ifb := NONE]), ins := f.ins[ifb := ins],
            jmp := f.jmp[ifb := R], phi := f.phi[joinb := []]);
    pred' := pred[joinb := [ifb]];
  }

  /**
   * One round of ifconvert: what it converts is a site, so that the result means the same. The arms are expected
   * without phis: each has a single predecessor.
   */
  method IfConvertAt(f: Fn, pred: seq<seq<nat>>, ghost home: seq<nat>, pinned: nat -> bool, integer: nat -> bool,
                     ifb: nat)
    returns (done: bool, h: Fn, pred': seq<seq<nat>>, ghost s: Site)
    requires SsaForm(f, |home|, home) && LivePreds(f.g, pred) && ifb < |pred| && (Reach(f.g, ifb) || f.g.s2[ifb] < 0)
    requires forall b: nat :: b < |f.ins| ==> Grouped(f.ins[b])
    requires forall b: nat :: b < |pred| && |pred[b]| == 1 ==> f.phi[b] == []
    ensures !done ==> h == f && pred' == pred && NothingFits(f, pinned, integer, ifb)
    ensures done ==> SiteFits(s, integer) && Numbered(ifb, s.t, s.e, s.j)
    ensures done ==> s.f == f && s.home == home && s.pinned == pinned && s.i == ifb && s.Ok() && h == Result(s)
    ensures done ==> s.j < |pred| && pred' == pred[s.j := [ifb]]
  {
    done, h, pred' := false, f, pred;
    var ok, t, e, j := IfGraph(f.g, pred, ifb);
    s := Site(f, home, pinned, ifb, t, e, j);
    if ok {
      JoinPreds(f.g, pred, ifb, t, e, j);
      forall t': nat, e': nat, j': nat | Hammock(f.g, ifb, t', e', j') ensures t' == t && e' == e && j' == j {
        HammockUnique(f.g, ifb, t', e', j', t, e, j);
      }
      ok := OkGraph(f, pred, pinned, integer, ifb, t, e, j);
      if ok {
        ArmHasNoPhis(s, pred);
        JoinHasArgs(s);
        h, pred' := Convert(f, pred, ifb, t, e, j);
        done := true;
      }
    }
  }

  lemma ArmHasNoPhis(s: Site, pred: seq<seq<nat>>)
    requires s.f.Valid(|s.home|) && LivePreds(s.f.g, pred) && Hammock(s.f.g, s.i, s.t, s.e, s.j)
    requires forall b: nat :: b < |pred| && |pred[b]| == 1 ==> s.f.phi[b] == []
    ensures s.t < |pred| && s.e < |pred|
    ensures s.t != s.i ==> s.f.phi[s.t] == []
    ensures s.e != s.i ==> s.f.phi[s.e] == []
  {
    HammockReach(s.f.g, s.i, s.t, s.e, s.j);
    if s.t != s.i { ArmPred(s.f.g, pred, s.i, s.t, s.j); }
    if s.e != s.i { ArmPred(s.f.g, pred, s.i, s.e, s.j); }
  }
}
