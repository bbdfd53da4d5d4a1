/** SSA construction preserves meaning: a function and its SSA form run in lock step. */
module SsaMeaning {
  import opened Cfg
  import opened Ir
  import opened Dominators
  import opened Liveness
  import opened Ssa

  // ----- execution -----

  /**
   * The operations, from an opcode, the memory and two operands to a result and the new memory; and
   * what a temporary reads before its first write, which is also what UNDEF stands for.
   */
  datatype Machine<!W> = Machine(op: (nat, W, int, int) -> (int, W), undef: int)
  {
    function Eval(r: Ref, env: Env): int {
      match r
      case R => 0
      case Tmp(t) => env(t)
      case Con(v) => v
      case Undef => undef
    }
  }

  type Env = nat -> int

  datatype State<W> = State(world: W, env: Env)

  /** At the body of a block, just after its phis; or stopped at the end of a block without successors. */
  datatype Config<W> = At(b: nat, st: State<W>) | Halted(b: nat, st: State<W>)

  function ExecIns<W>(m: Machine<W>, i: Ins, st: State<W>): State<W> {
    var (v, w) := m.op(i.op, st.world, m.Eval(i.arg0, st.env), m.Eval(i.arg1, st.env));
    State(w, (n: nat) => if i.to == Tmp(n) then v else st.env(n))
  }

  /** The state in front of instruction i of the code. */
  function Exec<W>(m: Machine<W>, code: seq<Ins>, i: nat, st: State<W>): State<W>
    requires i <= |code|
  {
    if i == 0 then st else ExecIns(m, code[i - 1], Exec(m, code, i - 1, st))
  }

  /** All phis of a block read their arguments for the edge from p before any of them is written. */
  ghost function EnterPhis<W>(m: Machine<W>, ps: seq<Phi>, p: nat, env: Env): Env {
    (n: nat) => if exists k :: 0 <= k < |ps| && ps[k].to == n && p in ps[k].args then
           var k :| 0 <= k < |ps| && ps[k].to == n && p in ps[k].args;
           m.Eval(ps[k].args[p], env)
         else env(n)
  }

  /** The successor taken: jnz goes to s1 on a non-zero argument. */
  function Target(g: Graph, b: nat, v: int): int
    requires b < |g.s1| == |g.s2|
  {
    if g.s2[b] >= 0 && v == 0 then g.s2[b] else g.s1[b]
  }

  ghost function Step<W>(m: Machine<W>, f: Fn, ntmp: nat, c: Config<W>): Config<W>
    requires f.Valid(ntmp) && c.b < |f.ins|
  {
    if c.Halted? then c else
    var st := Exec(m, f.ins[c.b], |f.ins[c.b]|, c.st);
    var s := Target(f.g, c.b, m.Eval(f.jmp[c.b], st.env));
    if s < 0 then Halted(c.b, st) else At(s, State(st.world, EnterPhis(m, f.phi[s], c.b, st.env)))
  }

  /** The configuration after n blocks, from an undefined environment. */
  ghost function Run<W>(m: Machine<W>, f: Fn, ntmp: nat, w: W, n: nat): (c: Config<W>)
    requires f.Valid(ntmp)
    ensures c.b < |f.ins|
  {
    if n == 0 then At(0, State(w, (_: nat) => m.undef)) else Step(m, f, ntmp, Run(m, f, ntmp, w, n - 1))
  }

  // ----- the simulation -----

  /** The variables live in front of instruction i of b. */
  ghost function LiveAt(c: Conversion, b: nat, i: nat): set<nat>
    requires c.Shapes() && b < |c.f.ins| && i <= |c.f.ins[b]|
  {
    BeforeAll(c.f.ins[b][i..], c.out[b] + Uses(c.f.jmp[b]))
  }

  /** Every live variable has, under its current name, the value it has in the original. */
  ghost predicate Match<W>(m: Machine<W>, c: Conversion, b: nat, i: nat, e: Env, eh: Env)
    requires c.Shapes() && b < |c.f.ins| && i <= |c.f.ins[b]|
  {
    forall t: nat :: t in LiveAt(c, b, i) && t < c.ntmp ==> m.Eval(c.Cur(t, b, i), eh) == e(t)
  }

  lemma OperandAgrees<W>(m: Machine<W>, c: Conversion, b: nat, i: nat, r: Ref, e: Env, eh: Env)
    requires c.Shapes() && b < |c.f.ins| && i <= |c.f.ins[b]| && ValidRef(r, c.ntmp)
    requires Match(m, c, b, i, e, eh) && Uses(r) <= LiveAt(c, b, i)
    ensures m.Eval(c.Subst(r, b, i), eh) == m.Eval(r, e)
  {}

  lemma InsStep<W>(m: Machine<W>, c: Conversion, b: nat, i: nat, st: State<W>, sh: State<W>)
    requires c.Correct() && b < |c.f.ins| && i < |c.f.ins[b]|
    requires Match(m, c, b, i, st.env, sh.env) && st.world == sh.world
    ensures ExecIns(m, c.f.ins[b][i], st).world == ExecIns(m, c.h.ins[b][i], sh).world
    ensures Match(m, c, b, i + 1, ExecIns(m, c.f.ins[b][i], st).env, ExecIns(m, c.h.ins[b][i], sh).env)
  {
    var x, y := c.f.ins[b][i], c.h.ins[b][i];
    assert c.RenamedIns(b, i) && ValidIns(x, c.ntmp);
    assert c.f.ins[b][i..][1..] == c.f.ins[b][i + 1..];
    assert LiveAt(c, b, i) == BeforeIns(x, LiveAt(c, b, i + 1));
    OperandAgrees(m, c, b, i, x.arg0, st.env, sh.env);
    OperandAgrees(m, c, b, i, x.arg1, st.env, sh.env);
    var e1, eh1 := ExecIns(m, x, st).env, ExecIns(m, y, sh).env;
    forall t: nat | t in LiveAt(c, b, i + 1) && t < c.ntmp ensures m.Eval(c.Cur(t, b, i + 1), eh1) == e1(t) {
      if x.to == Tmp(t) {
        assert c.Cur(t, b, i + 1) == y.to;
      } else {
        assert c.Cur(t, b, i + 1) == c.Cur(t, b, i);
        c.CurOwned(t, b, i);
      }
    }
  }

  lemma {:induction false} BodySteps<W>(m: Machine<W>, c: Conversion, b: nat, i: nat, st: State<W>, sh: State<W>)
    requires c.Correct() && b < |c.f.ins| && i <= |c.f.ins[b]|
    requires Match(m, c, b, 0, st.env, sh.env) && st.world == sh.world
    ensures Exec(m, c.f.ins[b], i, st).world == Exec(m, c.h.ins[b], i, sh).world
    ensures Match(m, c, b, i, Exec(m, c.f.ins[b], i, st).env, Exec(m, c.h.ins[b], i, sh).env)
  {
    if i > 0 {
      var st1, sh1 := Exec(m, c.f.ins[b], i - 1, st), Exec(m, c.h.ins[b], i - 1, sh);
      BodySteps(m, c, b, i - 1, st, sh);
      InsStep(m, c, b, i - 1, st1, sh1);
      assert Exec(m, c.f.ins[b], i, st) == ExecIns(m, c.f.ins[b][i - 1], st1);
      assert Exec(m, c.h.ins[b], i, sh) == ExecIns(m, c.h.ins[b][i - 1], sh1);
    }
  }

  /** At the end of a block the current name of a live-out variable is the one the name stack holds. */
  lemma ExitName(c: Conversion, t: nat, b: nat)
    requires c.Shapes() && b < |c.f.ins| && t in c.out[b] && t !in c.skip
    ensures c.Cur(t, b, |c.f.ins[b]|) == c.Top(t, b)
  {}

  lemma EdgeStep<W>(m: Machine<W>, c: Conversion, b: nat, s: nat, e: Env, eh: Env)
    requires c.Correct() && c.f.g.Edge(b, s)
    requires Match(m, c, b, |c.f.ins[b]|, e, eh)
    ensures Match(m, c, s, 0, e, EnterPhis(m, c.h.phi[s], b, eh))
  {
    var eh1 := EnterPhis(m, c.h.phi[s], b, eh);
    assert EdgeEqn(c.f, c.ntmp, c.in', c.out, b) && BodyEqn(c.f, c.ntmp, c.in', c.out, s);
    assert c.f.ins[s][0..] == c.f.ins[s];
    assert AlongEdge(c.f, b, s, c.in'[s]) == c.in'[s];
    forall t: nat | t in LiveAt(c, s, 0) && t < c.ntmp ensures m.Eval(c.Cur(t, s, 0), eh1) == e(t) {
      assert t in c.in'[s] && t in c.out[b] && t in LiveAt(c, b, |c.f.ins[b]|);
      EdgeName(m, c, b, s, t, eh);
    }
  }

  /** Entering s from b, the name of t moves without changing its value. */
  lemma EdgeName<W>(m: Machine<W>, c: Conversion, b: nat, s: nat, t: nat, eh: Env)
    requires c.Correct() && c.f.g.Edge(b, s) && t < c.ntmp && t in c.in'[s] && t in c.out[b]
    ensures m.Eval(c.Cur(t, s, 0), EnterPhis(m, c.h.phi[s], b, eh)) == m.Eval(c.Cur(t, b, |c.f.ins[b]|), eh)
  {
    var ps := c.h.phi[s];
    var eh1 := EnterPhis(m, ps, b, eh);
    if t !in c.skip && c.HasPhi(t, s) {
      ExitName(c, t, b);
      PhiValue(m, c, b, s, t, eh);
    } else {
      if t !in c.skip {
        ExitName(c, t, b);
        c.NameAcrossEdge(t, b, s);
      }
      var r := c.Cur(t, s, 0);
      c.CurOwned(t, s, 0);
      assert r == c.Cur(t, b, |c.f.ins[b]|);
      if r.Tmp? {
        forall k | 0 <= k < |ps| ensures ps[k].to != r.t {
          assert c.RenamedPhi(s, k);
        }
        assert eh1(r.t) == eh(r.t);
      }
    }
  }

  lemma PhiValue<W>(m: Machine<W>, c: Conversion, b: nat, s: nat, t: nat, eh: Env)
    requires c.Correct() && c.f.g.Edge(b, s) && t !in c.skip && c.HasPhi(t, s)
    ensures m.Eval(c.Cur(t, s, 0), EnterPhis(m, c.h.phi[s], b, eh)) == m.Eval(c.Top(t, b), eh)
  {
    var ps := c.h.phi[s];
    var k := IndexOf(c.pv[s], t);
    assert c.RenamedPhi(s, k);
    assert b in ps[k].args;
    forall k' | 0 <= k' < |ps| && ps[k'].to == ps[k].to ensures k' == k {
      assert c.RenamedPhi(s, k');
    }
  }

  /** The two runs are at the same place with the same memory, and return the same value. */
  ghost predicate SameStep<W>(m: Machine<W>, c: Conversion, x: Config<W>, y: Config<W>)
    requires c.Shapes()
  {
    && x.b == y.b < |c.f.ins| && x.st.world == y.st.world && (x.At? <==> y.At?)
    && (x.At? ==> Match(m, c, x.b, 0, x.st.env, y.st.env))
    && (x.Halted? ==> m.Eval(c.f.jmp[x.b], x.st.env) == m.Eval(c.h.jmp[y.b], y.st.env))
  }

  lemma StartStep<W>(m: Machine<W>, c: Conversion, nh: nat, w: W)
    requires c.Correct() && c.h.Valid(nh)
    ensures SameStep(m, c, Run(m, c.f, c.ntmp, w, 0), Run(m, c.h, nh, w, 0))
  {
    forall t: nat | t in LiveAt(c, 0, 0) && t < c.ntmp ensures m.Eval(c.Cur(t, 0, 0), (_: nat) => m.undef) == m.undef {
      c.CurOwned(t, 0, 0);
    }
  }

  lemma BlockStep<W>(m: Machine<W>, c: Conversion, nh: nat, x: Config<W>, y: Config<W>)
    requires c.Correct() && c.h.Valid(nh) && SameStep(m, c, x, y)
    ensures SameStep(m, c, Step(m, c.f, c.ntmp, x), Step(m, c.h, nh, y))
  {
    if x.At? {
      var b := x.b;
      var len := |c.f.ins[b]|;
      BodySteps(m, c, b, len, x.st, y.st);
      var st, sh := Exec(m, c.f.ins[b], len, x.st), Exec(m, c.h.ins[b], len, y.st);
      assert ValidRef(c.f.jmp[b], c.ntmp);
      OperandAgrees(m, c, b, len, c.f.jmp[b], st.env, sh.env);
      var s := Target(c.f.g, b, m.Eval(c.f.jmp[b], st.env));
      if s >= 0 {
        EdgeStep(m, c, b, s, st.env, sh.env);
        assert c.f.phi[s] == [];
      }
    }
  }

  /**
   * For every meaning of the operations and every number of steps, the SSA form is at the same block
   * as the original, has done the same to memory, and on return gives the same value. As the machine may
   * record its operands in the memory, every instruction also reads the same operands.
   */
  lemma {:induction false} SsaPreservesMeaning<W>(m: Machine<W>, c: Conversion, nh: nat, w: W, n: nat)
    requires c.Correct() && c.h.Valid(nh)
    ensures SameStep(m, c, Run(m, c.f, c.ntmp, w, n), Run(m, c.h, nh, w, n))
  {
    if n == 0 {
      StartStep(m, c, nh, w);
    } else {
      SsaPreservesMeaning(m, c, nh, w, n - 1);
      BlockStep(m, c, nh, Run(m, c.f, c.ntmp, w, n - 1), Run(m, c.h, nh, w, n - 1));
    }
  }
}
