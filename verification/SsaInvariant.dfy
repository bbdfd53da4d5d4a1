/** ssacheck of ssa.c on the result of SSA construction: when every use is dominated by a definition. */
module SsaInvariant {
  import opened Cfg
  import opened Ir
  import opened Dominators
  import opened Liveness
  import opened Ssa
  import opened Renaming
  import opened Exemption
  import opened SsaConstruction

  /** A phi that follows b reads n at the end of b. */
  ghost predicate PhiReads(h: Fn, n: nat, b: nat)
    requires h.g.Valid() && |h.phi| == |h.g.s1|
  {
    exists s: nat, k: nat ::
      s < |h.phi| && h.g.Edge(b, s) && k < |h.phi[s]| && b in h.phi[s][k].args && h.phi[s][k].args[b] == Tmp(n)
  }

  /** What ssacheck tests of the uses: each is dominated by a definition, those of phis at the predecessor. */
  ghost predicate Checked(c: Conversion)
    requires c.Shapes()
  {
    && (forall n: nat, b: nat, i: nat :: ReadsAt(c.h, n, b, i) ==> c.Available(n, b, i))
    && (forall n: nat, b: nat :: b < |c.f.ins| && PhiReads(c.h, n, b) ==> c.Available(n, b, |c.f.ins[b]|))
  }

  /** No execution reads a variable that is not renamed before it has been assigned. */
  ghost predicate AssignedFirst(c: Conversion)
    requires c.Shapes()
  {
    forall t: nat :: t < c.ntmp && t !in c.vis ==> !LiveIn(c.f, c.ntmp, 0, t)
  }

  // ----- exposed reads -----

  ghost predicate NoDef(code: seq<Ins>, t: nat, k: nat, i: nat) {
    forall j :: k <= j < i && j < |code| ==> code[j].to != Tmp(t)
  }

  lemma {:induction false} ReadIsExposed(f: Fn, b: nat, t: nat, k: nat, i: nat)
    requires |f.ins| == |f.jmp| && ReadsAt(f, t, b, i) && k <= i && NoDef(f.ins[b], t, k, i)
    ensures t in BeforeAll(f.ins[b][k..], Uses(f.jmp[b]))
    decreases i - k
  {
    if k < i {
      ReadIsExposed(f, b, t, k + 1, i);
      assert f.ins[b][k..][1..] == f.ins[b][k + 1..];
    }
  }

  lemma {:induction false} ExposedIsRead(f: Fn, b: nat, t: nat, k: nat) returns (i: nat)
    requires |f.ins| == |f.jmp| && b < |f.ins| && k <= |f.ins[b]| && t in BeforeAll(f.ins[b][k..], Uses(f.jmp[b]))
    ensures k <= i && ReadsAt(f, t, b, i) && NoDef(f.ins[b], t, k, i)
    decreases |f.ins[b]| - k
  {
    i := k;
    if k < |f.ins[b]| && !ReadsAt(f, t, b, k) {
      assert f.ins[b][k..][1..] == f.ins[b][k + 1..];
      i := ExposedIsRead(f, b, t, k + 1);
    }
  }

  lemma FirstIsExposed(f: Fn, ntmp: nat, b: nat, t: nat, i: nat)
    requires f.Valid(ntmp) && ReadsAt(f, t, b, i) && NoDef(f.ins[b], t, 0, i)
    ensures LiveIn(f, ntmp, b, t)
  {
    ReadIsExposed(f, b, t, 0, i);
    assert f.ins[b][0..] == f.ins[b];
    assert LiveBody(f, ntmp, b, [], t);
  }

  // ----- a use without a definition above it is live at the start -----

  ghost predicate NoPhis(f: Fn) {
    forall b :: 0 <= b < |f.phi| ==> f.phi[b] == []
  }

  lemma LiveAcross(f: Fn, ntmp: nat, a: nat, b: nat, t: nat)
    requires f.Valid(ntmp) && NoPhis(f) && f.g.Edge(a, b) && b < |f.ins| && LiveIn(f, ntmp, b, t)
    ensures a < |f.ins| && LiveOut(f, ntmp, a, t) && (!Kills(f, a, t) ==> LiveIn(f, ntmp, a, t))
  {
    var q :| LiveBody(f, ntmp, b, q, t);
    assert ([b] + q)[1..] == q;
    assert LiveExit(f, ntmp, a, [b] + q, t);
    assert !Kills(f, a, t) ==> LiveBody(f, ntmp, a, [b] + q, t);
  }

  lemma {:induction false} LiveFromStart(f: Fn, ntmp: nat, p: seq<nat>, b: nat, t: nat)
    requires f.Valid(ntmp) && NoPhis(f) && IsPath(f.g, 0, p, b) && b < |f.ins| && LiveIn(f, ntmp, b, t)
    requires forall i :: 0 <= i < |p| - 1 ==> p[i] < |f.ins| && (LiveOut(f, ntmp, p[i], t) ==> !Kills(f, p[i], t))
    ensures LiveIn(f, ntmp, 0, t)
    decreases |p|
  {
    var n := |p| - 1;
    if n > 0 {
      assert f.g.Edge(p[n - 1], p[n]);
      LiveAcross(f, ntmp, p[n - 1], b, t);
      PathPrefix(f.g, 0, p, b, n - 1);
      LiveFromStart(f, ntmp, p[..n], p[n - 1], t);
    }
  }

  lemma PathInRange(g: Graph, a: nat, p: seq<nat>, b: nat)
    requires IsPath(g, a, p, b)
    ensures forall i :: 0 <= i < |p| ==> p[i] < |g.s1|
  {
    forall i | 0 <= i < |p| ensures p[i] < |g.s1| {
      if i > 0 { assert g.Edge(p[i - 1], p[i]); }
    }
  }

  // ----- the names of renamed variables -----

  lemma {:induction false} RenamedNames(c: Conversion, t: nat, b: nat)
    requires c.Correct() && b < |c.f.ins| && t in c.vis && t !in c.skip
    ensures c.Entry(t, b).Tmp? ==> c.Entry(t, b).t >= c.ntmp
    ensures c.Top(t, b).Tmp? ==> c.Top(t, b).t >= c.ntmp
    decreases b
  {
    if c.HasPhi(t, b) {
      assert c.RenamedPhi(b, IndexOf(c.pv[b], t));
    } else if b > 0 {
      RenamedNames(c, t, c.idom[b]);
    }
    var i := c.ExitDef(t, b);
    if i >= 0 { assert c.RenamedIns(b, i); }
  }

  /** A read in h is a read in f of a variable whose name it has. */
  lemma ReadBefore(c: Conversion, n: nat, b: nat, i: nat) returns (t: nat)
    requires c.Correct() && ReadsAt(c.h, n, b, i)
    ensures t < c.ntmp && ReadsAt(c.f, t, b, i) && c.Cur(t, b, i) == Tmp(n)
  {
    if i < |c.f.ins[b]| {
      var x := c.f.ins[b][i];
      assert c.RenamedIns(b, i) && ValidIns(x, c.ntmp);
      var r := if c.h.ins[b][i].arg0 == Tmp(n) then x.arg0 else x.arg1;
      t := r.t;
    } else {
      assert ValidRef(c.f.jmp[b], c.ntmp);
      t := c.f.jmp[b].t;
    }
  }

  lemma NoLastDef(code: seq<Ins>, t: nat, i: nat)
    requires i <= |code|
    ensures LastDef(code, t, i) == -1 <==> NoDef(code, t, 0, i)
  {}

  /** A use of an exempted variable. */
  lemma ExemptUse(c: Conversion, t: nat, b: nat, i: nat)
    requires c.Correct() && StackedVars(c) && SkipsExempt(c.f, c.ntmp, c.skip) && AssignedFirst(c)
    requires t in c.skip && ReadsAt(c.f, t, b, i) && Reachable(c, b)
    ensures c.Available(t, b, i)
  {
    var f := c.f;
    assert Exempt(f, t) && t !in c.vis;
    var d: nat, j: nat :| DefinedOnlyAt(f, t, d, j) && (d == 0 || UsedOnlyIn(f, t, d));
    assert DefinedAt(f, t, d, j) && c.RenamedIns(d, j) && ValidIns(f.ins[d][j], c.ntmp);
    assert c.h.ins[d][j].to == Tmp(t);
    if d != b {
      assert d == 0;
      assert Dominates(f.g, 0, b) && c.Defines(0, t, |f.ins[0]|);
    } else if j < i {
      assert Dominates(f.g, b, b) && c.Defines(b, t, i);
    } else {
      forall k | 0 <= k < i && k < |f.ins[b]| ensures f.ins[b][k].to != Tmp(t) {
        assert DefinedAt(f, t, b, k) ==> k == j;
      }
      FirstIsExposed(f, c.ntmp, b, t, i);
      var p := FirstPath(c, b);
      forall l | 0 <= l < |p| - 1 ensures p[l] < |f.ins| && !Kills(f, p[l], t) {
        assert p[l] in p[..|p| - 1];
        if k :| 0 <= k < |f.ins[p[l]]| && f.ins[p[l]][k].to == Tmp(t) { assert DefinedAt(f, t, p[l], k); }
      }
      LiveFromStart(f, c.ntmp, p, b, t);
      assert false;
    }
  }

  ghost predicate Reachable(c: Conversion, b: nat)
    requires c.Shapes()
  {
    ReachableFrom(c.f.g, 0, b)
  }

  /** A path to b that does not visit it before. */
  lemma FirstPath(c: Conversion, b: nat) returns (p: seq<nat>)
    requires c.Shapes() && Reachable(c, b)
    ensures IsPath(c.f.g, 0, p, b) && b !in p[..|p| - 1] && forall i :: 0 <= i < |p| ==> p[i] < |c.f.ins|
  {
    var q :| IsPath(c.f.g, 0, q, b);
    var k := FirstVisit(q, b);
    PathPrefix(c.f.g, 0, q, b, k);
    p := q[..k + 1];
    assert p[..|p| - 1] == q[..k];
    PathInRange(c.f.g, 0, p, b);
  }

  /** A variable that is not renamed and not exempted has no definition that is live at the end of its block. */
  lemma UnrenamedUse(c: Conversion, t: nat, b: nat, i: nat)
    requires c.Correct() && StackedVars(c) && t < c.ntmp && t !in c.skip && t !in c.vis
    requires ReadsAt(c.f, t, b, i) && LastDef(c.f.ins[b], t, i) == -1 && Reachable(c, b)
    ensures LiveIn(c.f, c.ntmp, 0, t)
  {
    NoLastDef(c.f.ins[b], t, i);
    FirstIsExposed(c.f, c.ntmp, b, t, i);
    var p := FirstPath(c, b);
    forall l | 0 <= l < |p| - 1 && LiveOut(c.f, c.ntmp, p[l], t) ensures !Kills(c.f, p[l], t) {
      var q :| q != [] && LiveExit(c.f, c.ntmp, p[l], q, t);
      SolutionCovers(c.f, c.ntmp, c.in', c.out, p[l], q, t);
      assert c.ExitDef(t, p[l]) == -1;
      NoLastDef(c.f.ins[p[l]], t, |c.f.ins[p[l]]|);
    }
    LiveFromStart(c.f, c.ntmp, p, b, t);
  }

  lemma UseChecked(c: Conversion, n: nat, b: nat, i: nat)
    requires c.Correct() && StackedVars(c) && SkipsExempt(c.f, c.ntmp, c.skip) && AssignedFirst(c)
    requires ReadsAt(c.h, n, b, i) && Reachable(c, b)
    ensures c.Available(n, b, i)
  {
    var t := ReadBefore(c, n, b, i);
    c.CurOwned(t, b, i);
    var d := LastDef(c.f.ins[b], t, i);
    assert d >= 0 ==> c.RenamedIns(b, d);
    if n >= c.ntmp {
      c.UsesAreDominated(t, b, i);
    } else if t in c.skip {
      ExemptUse(c, t, b, i);
    } else {
      if t in c.vis { RenamedNames(c, t, b); }
      UnrenamedUse(c, t, b, i);
      assert false;
    }
  }

  lemma PhiUseChecked(c: Conversion, n: nat, a: nat)
    requires c.Correct() && StackedVars(c) && a < |c.f.ins| && PhiReads(c.h, n, a)
    ensures c.Available(n, a, |c.f.ins[a]|)
  {
    var s: nat, k: nat :|
      s < |c.h.phi| && c.h.g.Edge(a, s) && k < |c.h.phi[s]| && a in c.h.phi[s][k].args && c.h.phi[s][k].args[a] == Tmp(n);
    assert c.RenamedPhi(s, k);
    var t := c.pv[s][k];
    RenamedNames(c, t, a);
    c.UsesAreDominated(t, a, |c.f.ins[a]|);
  }

  // ----- a variable read before it is assigned fails the check -----

  /** The read that makes t live in front of b. */
  lemma {:induction false} FindRead(f: Fn, ntmp: nat, b: nat, q: seq<nat>, t: nat) returns (p: seq<nat>, i: nat)
    requires f.Valid(ntmp) && NoPhis(f) && b < |f.ins| && LiveBody(f, ntmp, b, q, t)
    ensures |p| > 0 && IsPath(f.g, b, p, p[|p| - 1]) && ReadsAt(f, t, p[|p| - 1], i)
    ensures NoDef(f.ins[p[|p| - 1]], t, 0, i)
    ensures forall l :: 0 <= l < |p| - 1 ==> p[l] < |f.ins| && !Kills(f, p[l], t)
    decreases |q|
  {
    if q == [] {
      p := [b];
      assert f.ins[b][0..] == f.ins[b];
      i := ExposedIsRead(f, b, t, 0);
    } else {
      p, i := FindRead(f, ntmp, q[0], q[1..], t);
      p := [b] + p;
    }
  }

  lemma UnassignedFails(c: Conversion, t: nat)
    requires c.Correct() && StackedVars(c) && t < c.ntmp && t !in c.vis && LiveIn(c.f, c.ntmp, 0, t)
    ensures !Checked(c)
  {
    var f := c.f;
    var q :| LiveBody(f, c.ntmp, 0, q, t);
    var p, i := FindRead(f, c.ntmp, 0, q, t);
    var e := p[|p| - 1];
    NoLastDef(f.ins[e], t, i);
    if t !in c.skip { Unstacked(c, t, e); }
    assert c.Cur(t, e, i) == Tmp(t);
    if i < |f.ins[e]| { assert c.RenamedIns(e, i); }
    assert ReadsAt(c.h, t, e, i);
    if c.Available(t, e, i) {
      var d: nat :| d < |f.ins| && Dominates(f.g, d, e) && c.Defines(d, t, if d == e then i else |f.ins[d]|);
      assert d in p;
      NotDefined(c, t, d, if d == e then i else |f.ins[d]|);
    }
  }

  /** An old variable is defined in h only where it was in f. */
  lemma NotDefined(c: Conversion, t: nat, d: nat, bound: nat)
    requires c.Correct() && t < c.ntmp && d < |c.f.ins| && bound <= |c.f.ins[d]| && c.Defines(d, t, bound)
    ensures Kills(c.f, d, t) && !NoDef(c.f.ins[d], t, 0, bound)
  {
    forall k: nat | k < |c.h.phi[d]| ensures c.h.phi[d][k].to != t {
      assert c.RenamedPhi(d, k);
    }
    var j :| 0 <= j < bound && c.h.ins[d][j].to == Tmp(t);
    assert c.RenamedIns(d, j) && ValidIns(c.f.ins[d][j], c.ntmp);
  }

  /**
   * ssacheck: in the SSA form every use, of new names and of exempted variables alike, is dominated by a definition,
   * if and only if f reads no variable that is not renamed before assigning it.
   */
  lemma SsaCheckExact(c: Conversion)
    requires c.Correct() && StackedVars(c) && SkipsExempt(c.f, c.ntmp, c.skip)
    requires forall b: nat :: b < |c.f.ins| ==> Reachable(c, b)
    ensures Checked(c) <==> AssignedFirst(c)
  {
    if AssignedFirst(c) {
      forall n: nat, b: nat, i: nat | ReadsAt(c.h, n, b, i) ensures c.Available(n, b, i) {
        UseChecked(c, n, b, i);
      }
      forall n: nat, b: nat | b < |c.f.ins| && PhiReads(c.h, n, b) ensures c.Available(n, b, |c.f.ins[b]|) {
        PhiUseChecked(c, n, b);
      }
    }
    if !AssignedFirst(c) {
      var t: nat :| t < c.ntmp && t !in c.vis && LiveIn(c.f, c.ntmp, 0, t);
      UnassignedFails(c, t);
    }
  }
}
