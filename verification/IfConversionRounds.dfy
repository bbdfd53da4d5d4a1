/** The whole of ifconvert: a converted function is again in SSA form, so that the next round applies to it. */
module IfConversionRounds {
  import opened Cfg
  import opened Ir
  import opened Dominators
  import opened SsaMeaning
  import opened IfConversion

  // ----- paths before and after one conversion -----

  /** The graph after the conversion. */
  ghost function NewGraph(s: Site): Graph
    requires s.Ok()
  {
    Result(s).g
  }

  lemma NewEdges(s: Site, a: nat, b: nat)
    requires s.Ok()
    ensures NewGraph(s).Valid() && |NewGraph(s).s1| == |s.f.g.s1|
    ensures NewGraph(s).Edge(a, b) <==> if a == s.i then b == s.j else s.f.g.Edge(a, b)
  {}

  /** A path of the new graph goes through an arm, or straight to the join, in the old one. */
  lemma {:induction false} OldPath(s: Site, p: seq<nat>, b: nat) returns (q: seq<nat>)
    requires s.Ok() && IsPath(NewGraph(s), 0, p, b)
    ensures IsPath(s.f.g, 0, q, b) && forall x :: x in q ==> x in p || x in s.Arms()
    decreases |p|
  {
    var n := |p| - 1;
    if n == 0 {
      q := p;
    } else {
      var a := p[n - 1];
      PathPrefix(NewGraph(s), 0, p, b, n - 1);
      q := OldPath(s, p[..n], a);
      NewEdges(s, a, b);
      assert NewGraph(s).Edge(p[n - 1], p[n]);
      if a == s.i && s.t != s.i {
        PathStep(s.f.g, 0, q, a, s.t);
        q := q + [s.t];
        PathStep(s.f.g, 0, q, s.t, b);
      } else {
        PathStep(s.f.g, 0, q, a, b);
      }
      q := q + [b];
    }
  }

  /** A path of the old graph that does not end in an arm leads to the same block in the new one. */
  lemma {:induction false} NewPath(s: Site, p: seq<nat>, b: nat) returns (q: seq<nat>)
    requires s.Ok() && IsPath(s.f.g, 0, p, b) && b !in s.Arms()
    ensures IsPath(NewGraph(s), 0, q, b)
    decreases |p|
  {
    var n := |p| - 1;
    if n == 0 {
      q := p;
    } else {
      var a := p[n - 1];
      PathPrefix(s.f.g, 0, p, b, n - 1);
      assert s.f.g.Edge(p[n - 1], p[n]);
      if a in s.Arms() {
        NotStart(s.f.g, s.i, s.t, s.e, s.j, a);
        PathPrefix(s.f.g, 0, p, b, n - 2);
        assert s.f.g.Edge(p[n - 2], p[n - 1]);
        assert p[n - 2] == s.i && b == s.j;
        q := NewPath(s, p[..n - 1], s.i);
        a := s.i;
      } else {
        q := NewPath(s, p[..n], a);
      }
      NewEdges(s, a, b);
      PathStep(NewGraph(s), 0, q, a, b);
      q := q + [b];
    }
  }

  lemma ArmsUnreached(s: Site, p: seq<nat>, b: nat)
    requires s.Ok() && IsPath(NewGraph(s), 0, p, b)
    ensures b !in s.Arms()
  {
    if b in s.Arms() {
      NotStart(s.f.g, s.i, s.t, s.e, s.j, b);
      var n := |p| - 1;
      PathPrefix(NewGraph(s), 0, p, b, n - 1);
      assert NewGraph(s).Edge(p[n - 1], p[n]);
      var r := OldPath(s, p[..n], p[n - 1]);
      NewEdges(s, p[n - 1], b);
    }
  }

  /** What can be reached afterwards could be reached before; the arms no longer can. */
  lemma ReachKept(s: Site, b: nat)
    requires s.Ok()
    ensures Reach(NewGraph(s), b) <==> Reach(s.f.g, b) && b !in s.Arms()
  {
    if Reach(NewGraph(s), b) {
      var p :| IsPath(NewGraph(s), 0, p, b);
      var q := OldPath(s, p, b);
      ArmsUnreached(s, p, b);
    }
    if Reach(s.f.g, b) && b !in s.Arms() {
      var p :| IsPath(s.f.g, 0, p, b);
      var q := NewPath(s, p, b);
    }
  }

  /** Dominance by a block outside the arms is kept. */
  lemma DominanceKept(s: Site, d: nat, b: nat)
    requires s.Ok() && Dominates(s.f.g, d, b) && d !in s.Arms()
    ensures Dominates(NewGraph(s), d, b)
  {
    forall p | IsPath(NewGraph(s), 0, p, b) ensures d in p {
      var q := OldPath(s, p, b);
    }
  }

  /** The branch now dominates the join. */
  lemma BranchAboveJoin(s: Site)
    requires s.Ok()
    ensures Dominates(NewGraph(s), s.i, s.j)
  {
    NotStart(s.f.g, s.i, s.t, s.e, s.j, s.j);
    forall p | IsPath(NewGraph(s), 0, p, s.j) ensures s.i in p {
      var n := |p| - 1;
      PathPrefix(NewGraph(s), 0, p, s.j, n - 1);
      assert NewGraph(s).Edge(p[n - 1], p[n]);
      ReachKept(s, p[n - 1]);
      NewEdges(s, p[n - 1], s.j);
    }
  }

  // ----- the new homes -----

  ghost predicate JoinPhi(s: Site, t: nat)
    requires s.Ok()
  {
    exists k :: 0 <= k < |s.f.phi[s.j]| && s.f.phi[s.j][k].to == t
  }

  /** What the arms and the phis of the join defined is now defined in the branching block. */
  ghost predicate Moves(s: Site, t: nat)
    requires s.Ok() && t < |s.home|
  {
    s.home[t] in s.Arms() || JoinPhi(s, t)
  }

  ghost function NewHome(s: Site): (home: seq<nat>)
    requires s.Ok()
    ensures |home| == |s.home| && forall t: nat :: t < |home| ==> home[t] == if Moves(s, t) then s.i else s.home[t]
  {
    seq(|s.home|, t requires 0 <= t < |s.home| => if Moves(s, t) then s.i else s.home[t])
  }

  lemma JoinPhiHome(s: Site, t: nat)
    requires s.Ok() && JoinPhi(s, t)
    ensures t < |s.home| && s.home[t] == s.j
  {
    HammockReach(s.f.g, s.i, s.t, s.e, s.j);
    assert BlockSsa(s.f, s.home, s.j);
    var k :| 0 <= k < |s.f.phi[s.j]| && s.f.phi[s.j][k].to == t;
    assert PhiSsa(s.f, s.home, s.j, k);
  }

  // ----- the code of the branching block -----

  /** x is the branching block or an arm. */
  ghost predicate Side(s: Site, x: nat)
    requires s.Ok()
  {
    x == s.i || x in s.Arms()
  }

  /** Where the code of x starts in the converted block. */
  ghost function Offset(s: Site, x: nat): nat
    requires s.Ok() && s.t < |s.f.ins|
  {
    if x == s.i then 0 else if x == s.t then |s.f.ins[s.i]| else |s.f.ins[s.i]| + |ArmCode(s.f, s.i, s.t)|
  }

  /** The code of the branching block and of the arms, and what follows it. */
  ghost function Body(s: Site): seq<Ins>
    requires s.Ok() && s.t < |s.f.ins| && s.e < |s.f.ins|
  {
    s.f.ins[s.i] + ArmCode(s.f, s.i, s.t) + ArmCode(s.f, s.i, s.e)
  }

  ghost function JoinSelects(s: Site): seq<Ins>
    requires s.Ok() && HasArgs(s.f.phi[s.j], s.t, s.e)
  {
    Selects(s.f.phi[s.j], s.f.jmp[s.i], s.t, s.e)
  }

  /** x stands in w from off on. */
  ghost predicate StandsAt(w: seq<Ins>, off: nat, x: seq<Ins>) {
    off + |x| <= |w| && forall k :: 0 <= k < |x| ==> w[off + k] == x[k]
  }

  lemma ConcatAt(a: seq<Ins>, b: seq<Ins>, c: seq<Ins>)
    ensures StandsAt(a + b + c, 0, a) && StandsAt(a + b + c, |a|, b) && StandsAt(a + b + c, |a| + |b|, c)
  {}

  lemma Parts(s: Site)
    requires s.Ok()
    ensures s.i < |s.f.ins| && s.t < |s.f.ins| && s.e < |s.f.ins| && s.j < |s.f.ins| == |s.f.phi| == |s.f.jmp|
    ensures s.t != s.e && s.j != s.i && s.j != s.t && s.j != s.e && HasArgs(s.f.phi[s.j], s.t, s.e)
    ensures |Result(s).ins| == |s.f.ins| && Result(s).ins[s.i] == Body(s) + JoinSelects(s)
  {
    HammockReach(s.f.g, s.i, s.t, s.e, s.j);
    JoinHasArgs(s);
  }

  lemma BodyAt(s: Site, x: nat)
    requires s.Ok() && Side(s, x) && s.t < |s.f.ins| && s.e < |s.f.ins|
    ensures x < |s.f.ins| && StandsAt(Body(s), Offset(s, x), s.f.ins[x])
    ensures x != s.i ==> Offset(s, x) >= |s.f.ins[s.i]|
  {
    Parts(s);
    ConcatAt(s.f.ins[s.i], ArmCode(s.f, s.i, s.t), ArmCode(s.f, s.i, s.e));
    hide Site.Ok, Result, StandsAt;
  }

  lemma CodeAt(s: Site, x: nat)
    requires s.Ok() && Side(s, x)
    ensures s.t < |s.f.ins| && s.e < |s.f.ins| && x < |s.f.ins|
    ensures Offset(s, x) + |s.f.ins[x]| <= |Body(s)| <= |Result(s).ins[s.i]|
    ensures forall k :: 0 <= k < |s.f.ins[x]| ==> Result(s).ins[s.i][Offset(s, x) + k] == s.f.ins[x][k]
    ensures x != s.i ==> Offset(s, x) >= |s.f.ins[s.i]|
  {
    Parts(s);
    BodyAt(s, x);
    hide Site.Ok, Result, Body, JoinSelects;
  }

  lemma SelectAt(s: Site, k: nat)
    requires s.Ok() && k < |s.f.phi[s.j]|
    ensures s.t < |s.f.ins| && s.e < |s.f.ins| && HasArgs(s.f.phi[s.j], s.t, s.e)
    ensures |Result(s).ins[s.i]| == |Body(s)| + |s.f.phi[s.j]| + 1
    ensures Result(s).ins[s.i][|Body(s)|] == Ins(SEL0, R, s.f.jmp[s.i], R)
    ensures Result(s).ins[s.i][|Body(s)| + 1 + k] == SelOf(s.f.phi[s.j][k], s.t, s.e)
  {
    Parts(s);
    hide Site.Ok, Result, Body;
    var sels := JoinSelects(s);
    assert sels[0] == Ins(SEL0, R, s.f.jmp[s.i], R) && sels[k + 1] == SelOf(s.f.phi[s.j][k], s.t, s.e);
  }

  /** What is defined in x is defined in the converted block. */
  lemma DefMoves(s: Site, x: nat, k: nat, t: nat, k': nat)
    requires s.Ok() && Side(s, x) && x < |s.f.ins| && k <= |s.f.ins[x]| && DefinedBefore(s.f, x, k, t)
    requires s.t < |s.f.ins| && Offset(s, x) + k <= k' <= |Result(s).ins[s.i]|
    ensures DefinedBefore(Result(s), s.i, k', t)
  {
    CodeAt(s, x);
    assert x != s.i ==> s.ArmOk(x);
    if l :| 0 <= l < k && s.f.ins[x][l].to == Tmp(t) {
      assert Result(s).ins[s.i][Offset(s, x) + l].to == Tmp(t);
    } else {
      var l :| 0 <= l < |s.f.phi[x]| && s.f.phi[x][l].to == t;
      assert Result(s).phi[s.i][l].to == t;
    }
  }

  lemma JoinPhiDefined(s: Site, t: nat)
    requires s.Ok() && JoinPhi(s, t)
    ensures DefinedIn(Result(s), s.i, t)
  {
    var k: nat :| k < |s.f.phi[s.j]| && s.f.phi[s.j][k].to == t;
    SelectAt(s, k);
    assert Result(s).ins[s.i][|Body(s)| + 1 + k].to == Tmp(t);
  }

  /** Outside the branching block, only the phis of the join have gone. */
  lemma DefinedBeforeStays(s: Site, b: nat, k: nat, t: nat)
    requires s.Ok() && b < |s.f.ins| && b != s.i && k <= |s.f.ins[b]| && DefinedBefore(s.f, b, k, t) && !JoinPhi(s, t)
    ensures Result(s).ins[b] == s.f.ins[b] && DefinedBefore(Result(s), b, k, t)
  {
    if l :| 0 <= l < |s.f.phi[b]| && s.f.phi[b][l].to == t {
      assert b != s.j;
      assert Result(s).phi[b][l].to == t;
    } else {
      var l :| 0 <= l < k && s.f.ins[b][l].to == Tmp(t);
      assert Result(s).ins[b][l].to == Tmp(t);
    }
  }

  /** A definition that does not move is still there. */
  lemma DefStays(s: Site, t: nat)
    requires s.Ok() && t < |s.home| && !Moves(s, t) && DefinedIn(s.f, s.home[t], t)
    ensures DefinedIn(Result(s), s.home[t], t)
  {
    var d := s.home[t];
    if d == s.i {
      CodeAt(s, s.i);
      DefMoves(s, s.i, |s.f.ins[s.i]|, t, |Result(s).ins[s.i]|);
    } else {
      DefinedBeforeStays(s, d, |s.f.ins[d]|, t);
    }
  }

  // ----- uses -----

  /** A use in a block other than the branch. */
  lemma UseStays(s: Site, r: Ref, b: nat, k: nat)
    requires s.Ok() && b < |s.f.ins| && b != s.i && Reach(NewGraph(s), b) && k <= |s.f.ins[b]|
    requires UseSsa(s.f, s.home, r, b, k)
    ensures UseSsa(Result(s), NewHome(s), r, b, k)
  {
    if r.Tmp? {
      var t, d := r.t, s.home[r.t];
      ReachKept(s, b);
      if d in s.Arms() { ArmDominatesItself(s.f.g, s.i, s.t, s.e, s.j, d, b); }
      if JoinPhi(s, t) {
        JoinPhiHome(s, t);
        JoinPhiDefined(s, t);
        BranchAboveJoin(s);
        if b != s.j {
          DominanceKept(s, s.j, b);
          DominatesTrans(NewGraph(s), s.i, s.j, b);
        }
      } else if d != b {
        DominanceKept(s, d, b);
        DefStays(s, t);
      } else {
        DefinedBeforeStays(s, b, k, t);
      }
    }
  }

  /** A use that moves from x to the converted block. */
  lemma UseMoves(s: Site, r: Ref, x: nat, k: nat, k': nat)
    requires s.Ok() && Side(s, x) && x < |s.f.ins| && k <= |s.f.ins[x]| && UseSsa(s.f, s.home, r, x, k)
    requires s.t < |s.f.ins| && Offset(s, x) + k <= k' <= |Result(s).ins[s.i]|
    ensures UseSsa(Result(s), NewHome(s), r, s.i, k')
  {
    if r.Tmp? {
      var t, d := r.t, s.home[r.t];
      CodeAt(s, x);
      if JoinPhi(s, t) { JoinPhiHome(s, t); }
      if d == x {
        DefMoves(s, x, k, t, k');
      } else {
        DefinedAbove(s, d, x);
        if d == s.i {
          DefMoves(s, s.i, |s.f.ins[s.i]|, t, k');
        } else {
          DefStays(s, t);
        }
      }
    }
  }

  /** What dominates the branch or an arm, and is neither, dominates the converted block. */
  lemma DefinedAbove(s: Site, d: nat, x: nat)
    requires s.Ok() && Side(s, x) && d != x && Dominates(s.f.g, d, x)
    ensures d != s.j && d !in s.Arms() && Dominates(NewGraph(s), d, s.i)
  {
    HammockReach(s.f.g, s.i, s.t, s.e, s.j);
    JoinNotAbove(s.f.g, s.i, s.t, s.e, s.j, x);
    if d in s.Arms() { ArmDominatesItself(s.f.g, s.i, s.t, s.e, s.j, d, x); }
    if x != s.i { DominatesPred(s.f.g, d, x, s.i); }
    DominanceKept(s, d, s.i);
  }

  // ----- the converted function is in SSA form -----

  /** Where instruction n of the converted block comes from: instruction k of x, or the k-th select. */
  datatype Source = Code(x: nat, k: nat) | Sel(k: nat)

  ghost predicate Comes(s: Site, n: nat, o: Source)
    requires s.Ok()
  {
    && s.t < |s.f.ins| && s.e < |s.f.ins| && HasArgs(s.f.phi[s.j], s.t, s.e) && n < |Result(s).ins[s.i]|
    && match o
       case Code(x, k) =>
         Side(s, x) && x < |s.f.ins| && k < |s.f.ins[x]| && n == Offset(s, x) + k && Result(s).ins[s.i][n] == s.f.ins[x][k]
       case Sel(k) =>
         && s.f.phi[s.j] != [] && k <= |s.f.phi[s.j]| && n == |Body(s)| + k
         && Result(s).ins[s.i][n] ==
              if k == 0 then Ins(SEL0, R, s.f.jmp[s.i], R) else SelOf(s.f.phi[s.j][k - 1], s.t, s.e)
  }

  lemma BodySize(s: Site)
    requires s.Ok() && s.t < |s.f.ins| && s.e < |s.f.ins|
    ensures |Body(s)| == |s.f.ins[s.i]| + |ArmCode(s.f, s.i, s.t)| + |ArmCode(s.f, s.i, s.e)|
  {}

  lemma ComesCode(s: Site, x: nat, k: nat)
    requires s.Ok() && Side(s, x) && x < |s.f.ins| && k < |s.f.ins[x]| && s.t < |s.f.ins|
    ensures Comes(s, Offset(s, x) + k, Code(x, k))
  {
    Parts(s);
    CodeAt(s, x);
  }

  lemma ComesSelect(s: Site, k: nat)
    requires s.Ok() && s.f.phi[s.j] != [] && k <= |s.f.phi[s.j]| && s.t < |s.f.ins| && s.e < |s.f.ins|
    ensures Comes(s, |Body(s)| + k, Sel(k))
  {
    Parts(s);
    SelectAt(s, if k == 0 then 0 else k - 1);
  }

  lemma ComesFrom(s: Site, n: nat) returns (o: Source)
    requires s.Ok() && n < |Result(s).ins[s.i]|
    ensures Comes(s, n, o)
  {
    Parts(s);
    BodySize(s);
    var a, b, size := |s.f.ins[s.i]|, |s.f.ins[s.i]| + |ArmCode(s.f, s.i, s.t)|, |Body(s)|;
    assert |JoinSelects(s)| == if s.f.phi[s.j] == [] then 0 else |s.f.phi[s.j]| + 1;
    hide Site.Ok, Result, Body, JoinSelects, Comes;
    if n < a {
      o := Code(s.i, n);
      ComesCode(s, s.i, n);
    } else if n < b {
      o := Code(s.t, n - a);
      ComesCode(s, s.t, n - a);
    } else if n < size {
      o := Code(s.e, n - b);
      ComesCode(s, s.e, n - b);
    } else {
      o := Sel(n - size);
      ComesSelect(s, n - size);
    }
  }

  /** The block that defined what an instruction of the converted block defines. */
  ghost function OldHome(s: Site, o: Source): nat
  {
    if o.Code? then o.x else s.j
  }

  lemma DefinesIn(s: Site, n: nat, o: Source)
    requires s.Ok() && Comes(s, n, o) && Result(s).ins[s.i][n].to.Tmp?
    ensures var t := Result(s).ins[s.i][n].to.t; t < |s.home| && s.home[t] == OldHome(s, o) && NewHome(s)[t] == s.i
  {
    match o {
      case Code(x, k) => CodeDefines(s, x, k);
      case Sel(k) =>
        var t := s.f.phi[s.j][k - 1].to;
        assert JoinPhi(s, t);
        JoinPhiHome(s, t);
    }
  }

  lemma CodeDefines(s: Site, x: nat, k: nat)
    requires s.Ok() && Side(s, x) && x < |s.f.ins| && k < |s.f.ins[x]| && s.f.ins[x][k].to.Tmp?
    ensures var t := s.f.ins[x][k].to.t; t < |s.home| && s.home[t] == x && !DefinedElsewhere(s.f, x, k, t)
    ensures NewHome(s)[s.f.ins[x][k].to.t] == s.i
  {
    HammockReach(s.f.g, s.i, s.t, s.e, s.j);
    assert BlockSsa(s.f, s.home, x) && InsSsa(s.f, s.home, x, k);
  }

  /** What an instruction or a select defines. */
  ghost function Defined(s: Site, o: Source): Ref
    requires s.Ok() && IsSource(s, o)
  {
    if o.Code? then s.f.ins[o.x][o.k].to else if o.k == 0 then R else Tmp(s.f.phi[s.j][o.k - 1].to)
  }

  ghost predicate IsSource(s: Site, o: Source)
    requires s.Ok()
  {
    match o
    case Code(x, k) => Side(s, x) && x < |s.f.ins| && k < |s.f.ins[x]|
    case Sel(k) => k <= |s.f.phi[s.j]|
  }

  lemma DefinedHome(s: Site, o: Source)
    requires s.Ok() && IsSource(s, o) && Defined(s, o).Tmp?
    ensures Defined(s, o).t < |s.home| && s.home[Defined(s, o).t] == OldHome(s, o)
  {
    if o.Code? {
      CodeDefines(s, o.x, o.k);
    } else {
      assert JoinPhi(s, Defined(s, o).t);
      JoinPhiHome(s, Defined(s, o).t);
    }
  }

  lemma DefsDiffer(s: Site, o: Source, o': Source)
    requires s.Ok() && IsSource(s, o) && IsSource(s, o') && o != o' && Defined(s, o).Tmp? && Defined(s, o').Tmp?
    ensures Defined(s, o') != Defined(s, o)
  {
    DefinedHome(s, o);
    DefinedHome(s, o');
    if OldHome(s, o) == OldHome(s, o') {
      Parts(s);
      if o.Code? {
        CodeDefines(s, o.x, o.k);
      } else {
        DistinctPhis(s, o.k - 1, o'.k - 1);
      }
    }
  }

  /** Two instructions of the converted block define different temporaries. */
  lemma DefinesOnce(s: Site, n: nat, n': nat, o: Source, o': Source)
    requires s.Ok() && Comes(s, n, o) && Comes(s, n', o') && n != n' && Result(s).ins[s.i][n].to.Tmp?
    ensures Result(s).ins[s.i][n'].to != Result(s).ins[s.i][n].to
  {
    Parts(s);
    hide Site.Ok, Body, HasArgs;
    if Result(s).ins[s.i][n'].to.Tmp? { DefsDiffer(s, o, o'); }
  }

  lemma DistinctPhis(s: Site, k: nat, k': nat)
    requires s.Ok() && k < |s.f.phi[s.j]| && k' < |s.f.phi[s.j]| && k != k'
    ensures s.f.phi[s.j][k'].to != s.f.phi[s.j][k].to
  {
    HammockReach(s.f.g, s.i, s.t, s.e, s.j);
    assert BlockSsa(s.f, s.home, s.j) && PhiSsa(s.f, s.home, s.j, k);
  }

  lemma NotInPhis(s: Site, n: nat, o: Source)
    requires s.Ok() && Comes(s, n, o) && Result(s).ins[s.i][n].to.Tmp?
    ensures forall l :: 0 <= l < |Result(s).phi[s.i]| ==> Result(s).phi[s.i][l].to != Result(s).ins[s.i][n].to.t
  {
    DefinesIn(s, n, o);
    var t := Result(s).ins[s.i][n].to.t;
    assert BlockSsa(s.f, s.home, s.i);
    forall l: nat | l < |Result(s).phi[s.i]| ensures Result(s).phi[s.i][l].to != t {
      assert PhiSsa(s.f, s.home, s.i, l);
      if o.Code? && o.x == s.i { assert InsSsa(s.f, s.home, s.i, o.k); }
    }
  }

  lemma NewUses(s: Site, n: nat, o: Source)
    requires s.Ok() && Comes(s, n, o)
    ensures UseSsa(Result(s), NewHome(s), Result(s).ins[s.i][n].arg0, s.i, n)
    ensures UseSsa(Result(s), NewHome(s), Result(s).ins[s.i][n].arg1, s.i, n)
  {
    HammockReach(s.f.g, s.i, s.t, s.e, s.j);
    match o {
      case Code(x, k) =>
        assert BlockSsa(s.f, s.home, x) && InsSsa(s.f, s.home, x, k);
        UseMoves(s, s.f.ins[x][k].arg0, x, k, n);
        UseMoves(s, s.f.ins[x][k].arg1, x, k, n);
      case Sel(k) => SelectUses(s, n, k);
    }
  }

  lemma SelectUses(s: Site, n: nat, k: nat)
    requires s.Ok() && Comes(s, n, Sel(k))
    ensures UseSsa(Result(s), NewHome(s), Result(s).ins[s.i][n].arg0, s.i, n)
    ensures UseSsa(Result(s), NewHome(s), Result(s).ins[s.i][n].arg1, s.i, n)
  {
    HammockReach(s.f.g, s.i, s.t, s.e, s.j);
    CodeAt(s, s.i);
    CodeAt(s, s.t);
    CodeAt(s, s.e);
    assert BlockSsa(s.f, s.home, s.i);
    if k > 0 {
      JoinArg(s, k - 1, s.t);
      JoinArg(s, k - 1, s.e);
    }
    hide Site.Ok, Result, Body, UseSsa;
    if k == 0 {
      UseMoves(s, s.f.jmp[s.i], s.i, |s.f.ins[s.i]|, n);
      AbsentUse(Result(s), NewHome(s), s.i, n);
    } else {
      UseMoves(s, s.f.phi[s.j][k - 1].args[s.t], s.t, |s.f.ins[s.t]|, n);
      UseMoves(s, s.f.phi[s.j][k - 1].args[s.e], s.e, |s.f.ins[s.e]|, n);
    }
  }

  lemma AbsentUse(f: Fn, home: seq<nat>, b: nat, k: nat)
    requires f.Valid(|home|) && b < |f.ins| && k <= |f.ins[b]|
    ensures UseSsa(f, home, R, b, k)
  {}

  lemma NewInsSsa(s: Site, n: nat)
    requires s.Ok() && n < |Result(s).ins[s.i]|
    ensures InsSsa(Result(s), NewHome(s), s.i, n)
  {
    var o := ComesFrom(s, n);
    NewUses(s, n, o);
    if Result(s).ins[s.i][n].to.Tmp? {
      DefinesIn(s, n, o);
      NotInPhis(s, n, o);
      forall n': nat | n' < |Result(s).ins[s.i]| && n' != n
        ensures Result(s).ins[s.i][n'].to != Result(s).ins[s.i][n].to
      {
        var o' := ComesFrom(s, n');
        DefinesOnce(s, n, n', o, o');
      }
    }
  }

  /** Instructions of the other blocks. */
  lemma OldInsSsa(s: Site, b: nat, k: nat)
    requires s.Ok() && b < |s.f.ins| && b != s.i && Reach(NewGraph(s), b) && k < |Result(s).ins[b]|
    ensures InsSsa(Result(s), NewHome(s), b, k)
  {
    ReachKept(s, b);
    assert BlockSsa(s.f, s.home, b) && InsSsa(s.f, s.home, b, k);
    var i := s.f.ins[b][k];
    UseStays(s, i.arg0, b, k);
    UseStays(s, i.arg1, b, k);
    if i.to.Tmp? && JoinPhi(s, i.to.t) { JoinPhiHome(s, i.to.t); }
  }

  lemma OldPhiSsa(s: Site, b: nat, k: nat)
    requires s.Ok() && b < |s.f.ins| && Reach(NewGraph(s), b) && k < |Result(s).phi[b]|
    ensures PhiSsa(Result(s), NewHome(s), b, k)
  {
    var h := Result(s);
    ReachKept(s, b);
    assert b != s.j && BlockSsa(s.f, s.home, b) && PhiSsa(s.f, s.home, b, k);
    var p := h.phi[b][k];
    if JoinPhi(s, p.to) { JoinPhiHome(s, p.to); }
    forall a: nat | a < |h.ins| && Reach(h.g, a) && h.g.Edge(a, b) ensures ArgSsa(h, NewHome(s), p, a) {
      ReachKept(s, a);
      NewEdges(s, a, b);
      assert ArgSsa(s.f, s.home, p, a);
      UseStays(s, p.args[a], a, |s.f.ins[a]|);
    }
  }

  /** One round of if-conversion leaves a function in SSA form. */
  lemma ResultIsSsa(s: Site)
    requires s.Ok()
    ensures SsaForm(Result(s), |s.home|, NewHome(s))
  {
    var h, home := Result(s), NewHome(s);
    NotStart(s.f.g, s.i, s.t, s.e, s.j, s.j);
    forall a ensures !h.g.Edge(a, 0) {
      if a >= 0 { NewEdges(s, a, 0); }
    }
    forall b: nat | b < |h.ins| && Reach(h.g, b) ensures BlockSsa(h, home, b) {
      forall k: nat | k < |h.ins[b]| ensures InsSsa(h, home, b, k) {
        if b == s.i { NewInsSsa(s, k); } else { OldInsSsa(s, b, k); }
      }
      forall k: nat | k < |h.phi[b]| ensures PhiSsa(h, home, b, k) {
        OldPhiSsa(s, b, k);
      }
      if b != s.i {
        ReachKept(s, b);
        assert BlockSsa(s.f, s.home, b);
        UseStays(s, s.f.jmp[b], b, |s.f.ins[b]|);
      }
    }
  }

  ghost predicate SelectsPinned(pinned: nat -> bool) {
    pinned(SEL0) && pinned(SEL1)
  }

  lemma ResultIsGrouped(s: Site, b: nat)
    requires s.Ok() && SelectsPinned(s.pinned) && b < |s.f.ins|
    ensures Grouped(Result(s).ins[b])
  {
    if b == s.i {
      forall n: nat | n < |Result(s).ins[b]| && Result(s).ins[b][n].op == SEL1
        ensures n > 0 && IsSel(Result(s).ins[b][n - 1])
      {
        var o := ComesFrom(s, n);
        if o.Code? {
          assert o.x != s.i ==> s.ArmOk(o.x);
          assert Grouped(s.f.ins[o.x]);
          CodeAt(s, o.x);
        } else {
          ComesSelect(s, o.k - 1);
        }
      }
    }
  }

  // ----- the loop of ifconvert -----

  /** What ifconvert expects: SSA form with predecessors; a block that cannot be reached any more does not branch. */
  ghost predicate Ready(f: Fn, home: seq<nat>, pred: seq<seq<nat>>) {
    && SsaForm(f, |home|, home) && LivePreds(f.g, pred)
    && (forall b: nat :: b < |f.ins| ==> Grouped(f.ins[b]))
    && (forall b: nat :: b < |pred| && |pred[b]| == 1 ==> f.phi[b] == [])
    && (forall b: nat :: b < |f.ins| ==> Reach(f.g, b) || f.g.s2[b] < 0)
  }

  lemma NewPreds(s: Site, pred: seq<seq<nat>>)
    requires s.Ok() && LivePreds(s.f.g, pred)
    ensures LivePreds(NewGraph(s), pred[s.j := [s.i]])
  {
    var g, pred' := NewGraph(s), pred[s.j := [s.i]];
    forall b: nat | b < |pred'| && Reach(g, b) ensures PredsAt(g, pred'[b], b) {
      ReachKept(s, b);
      assert PredsAt(s.f.g, pred[b], b);
      forall p: nat ensures Reach(g, p) && g.Edge(p, b) <==> p in pred'[b] {
        ReachKept(s, p);
        ReachKept(s, s.i);
        NewEdges(s, p, b);
      }
    }
  }

  /** The next round can be made. */
  lemma ReadyAgain(s: Site, pred: seq<seq<nat>>)
    requires s.Ok() && SelectsPinned(s.pinned) && Ready(s.f, s.home, pred)
    ensures Ready(Result(s), NewHome(s), pred[s.j := [s.i]])
  {
    var h := Result(s);
    ResultIsSsa(s);
    NewPreds(s, pred);
    forall b: nat | b < |h.ins| ensures Grouped(h.ins[b]) && (Reach(h.g, b) || h.g.s2[b] < 0) {
      ResultIsGrouped(s, b);
      ReachKept(s, b);
    }
  }

  /** h comes from f by one conversion after the other. */
  ghost predicate Rounds(f: Fn, ss: seq<Site>, h: Fn, pinned: nat -> bool, ntmp: nat) {
    if ss == [] then h == f else
    var s := ss[|ss| - 1];
    s.Ok() && s.pinned == pinned && |s.home| == ntmp && h == Result(s) && Rounds(f, ss[..|ss| - 1], s.f, pinned, ntmp)
  }

  /** What each of the two shows, the other shows too. */
  ghost predicate SameMeaning<W, V>(m: Machine<W>, f: Fn, h: Fn, ntmp: nat, sees: W -> V, w: W)
    requires f.Valid(ntmp) && h.Valid(ntmp)
  {
    (forall n: nat :: Mirrors(m, f, h, ntmp, sees, w, n)) && (forall n: nat :: Mirrors(m, h, f, ntmp, sees, w, n))
  }

  lemma MirrorsTrans<W, V>(m: Machine<W>, f: Fn, g: Fn, h: Fn, ntmp: nat, sees: W -> V, w: W, n: nat)
    requires f.Valid(ntmp) && g.Valid(ntmp) && h.Valid(ntmp) && Mirrors(m, f, g, ntmp, sees, w, n)
    requires forall k: nat :: Mirrors(m, g, h, ntmp, sees, w, k)
    ensures Mirrors(m, f, h, ntmp, sees, w, n)
  {
    var k: nat :| Shows(m, f, g, sees, Run(m, f, ntmp, w, n), Run(m, g, ntmp, w, k));
    assert Mirrors(m, g, h, ntmp, sees, w, k);
    var l: nat :| Shows(m, g, h, sees, Run(m, g, ntmp, w, k), Run(m, h, ntmp, w, l));
    assert Shows(m, f, h, sees, Run(m, f, ntmp, w, n), Run(m, h, ntmp, w, l));
  }

  /**
   * ifconvert as a whole preserves meaning: on every machine and from every memory, each state of either function
   * shows the same world as some state of the other, and if one returns, so does the other with the same value.
   */
  lemma {:induction false} RoundsPreserveMeaning<W(!new), V>(m: Machine<W>, f: Fn, ss: seq<Site>, h: Fn,
          pinned: nat -> bool, ntmp: nat,
                                                             sees: W -> V, flag: W -> int, w: W)
    requires f.Valid(ntmp) && h.Valid(ntmp) && Rounds(f, ss, h, pinned, ntmp) && MachineOk(m, pinned, sees, flag)
    ensures SameMeaning(m, f, h, ntmp, sees, w)
    decreases |ss|
  {
    if ss == [] {
      forall n: nat ensures Mirrors(m, f, f, ntmp, sees, w, n) {
        assert Shows(m, f, f, sees, Run(m, f, ntmp, w, n), Run(m, f, ntmp, w, n));
      }
    } else {
      var s := ss[|ss| - 1];
      RoundsPreserveMeaning(m, f, ss[..|ss| - 1], s.f, pinned, ntmp, sees, flag, w);
      ConversionPreservesMeaning(m, s, sees, flag, w);
      forall n: nat ensures Mirrors(m, f, h, ntmp, sees, w, n) && Mirrors(m, h, f, ntmp, sees, w, n) {
        MirrorsTrans(m, f, s.f, h, ntmp, sees, w, n);
        MirrorsTrans(m, h, s.f, f, ntmp, sees, w, n);
      }
    }
  }

  /** The round of block b: the hammock there is converted if it meets the limits, and nothing changes otherwise. */
  ghost predicate Round(f: Fn, h: Fn, pinned: nat -> bool, integer: nat -> bool, b: nat) {
    && |f.g.s1| == |f.g.s2| == |f.ins| == |f.phi|
    && ((h == f && NothingFits(f, pinned, integer, b)) || (exists s: Site :: Converts(s, f, h, pinned, integer, b)))
  }

  ghost predicate Converts(s: Site, f: Fn, h: Fn, pinned: nat -> bool, integer: nat -> bool, b: nat) {
    && s.Ok() && s.f == f && s.pinned == pinned && s.i == b && SiteFits(s, integer) && Numbered(b, s.t, s.e, s.j)
    && h == Result(s)
  }

  /** fs lists the function before the round of each block, and after the last one. */
  ghost predicate AllRounds(fs: seq<Fn>, n: nat, pinned: nat -> bool, integer: nat -> bool) {
    |fs| == n + 1 && forall b: nat :: b < n ==> Round(fs[b], fs[b + 1], pinned, integer, b)
  }

  lemma ReadyAt(f: Fn, home: seq<nat>, pred: seq<seq<nat>>, b: nat)
    requires Ready(f, home, pred) && b < |f.ins|
    ensures SsaForm(f, |home|, home) && LivePreds(f.g, pred) && b < |pred| && (Reach(f.g, b) || f.g.s2[b] < 0)
    ensures forall c: nat :: c < |f.ins| ==> Grouped(f.ins[c])
    ensures forall c: nat :: c < |pred| && |pred[c]| == 1 ==> f.phi[c] == []
  {}

  lemma RoundMade(done: bool, s: Site, f: Fn, h: Fn, pinned: nat -> bool, integer: nat -> bool, b: nat)
    requires |f.g.s1| == |f.g.s2| == |f.ins| == |f.phi|
    requires if done then Converts(s, f, h, pinned, integer, b) else h == f && NothingFits(f, pinned, integer, b)
    ensures Round(f, h, pinned, integer, b)
  {}

  lemma NextRound(fs: seq<Fn>, n: nat, h: Fn, pinned: nat -> bool, integer: nat -> bool)
    requires AllRounds(fs, n, pinned, integer) && Round(fs[n], h, pinned, integer, n)
    ensures AllRounds(fs + [h], n + 1, pinned, integer)
  {
    hide Round;
    var fs' := fs + [h];
    forall b: nat | b < n + 1 ensures Round(fs'[b], fs'[b + 1], pinned, integer, b) {
      if b < n { assert Round(fs[b], fs[b + 1], pinned, integer, b); }
    }
  }

  /** ifconvert: one round for every block, in the order of their numbers. */
  method IfConvert(f: Fn, pred0: seq<seq<nat>>, ghost home0: seq<nat>, pinned: nat -> bool, integer: nat -> bool)
    returns (h: Fn, pred: seq<seq<nat>>, ghost home: seq<nat>, ghost ss: seq<Site>, ghost fs: seq<Fn>)
    requires Ready(f, home0, pred0) && SelectsPinned(pinned)
    ensures |home| == |home0| && Ready(h, home, pred) && Rounds(f, ss, h, pinned, |home0|)
    ensures AllRounds(fs, |f.ins|, pinned, integer) && fs[0] == f && fs[|f.ins|] == h
  {
    hide Round, Ready, Result, NewHome, SelectsPinned, SiteFits;
    h, pred, home, ss, fs := f, pred0, home0, [], [f];
    for ifb := 0 to |f.ins|
      invariant |home| == |home0| && |h.ins| == |f.ins| && Ready(h, home, pred) && Rounds(f, ss, h, pinned, |home0|)
      invariant AllRounds(fs, ifb, pinned, integer) && fs[0] == f && fs[ifb] == h
    {
      ReadyAt(h, home, pred, ifb);
      var done, h', pred', s := IfConvertAt(h, pred, home, pinned, integer, ifb);
      RoundMade(done, s, h, h', pinned, integer, ifb);
      NextRound(fs, ifb, h', pinned, integer);
      fs := fs + [h'];
      if done {
        ReadyAgain(s, pred);
        ss := ss + [s];
        h, pred, home := h', pred', NewHome(s);
      }
    }
  }
}
