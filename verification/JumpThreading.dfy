/** Removal of empty jump blocks: uffind and simpljmp of cfg.c, for phi-free functions. */
module JumpThreading {

  const NONE: int := -1

  /** Ret0 is a plain return, Exit any other way of leaving the function, Branch a jump with two targets. */
  datatype Jmp = Ret0 | Exit | Goto | Branch

  /**
   * The blocks: how many instructions each has, its jump and its successors. The successors are the targets of
   * the jump, no more and no fewer: fillpreds, filllive and the rest follow them whatever the jump is.
   */
  datatype Blocks = Blocks(nins: seq<nat>, jmp: seq<Jmp>, s1: seq<int>, s2: seq<int>) {
    ghost predicate Valid() {
      && |nins| == |jmp| == |s1| == |s2|
      && (forall b :: 0 <= b < |jmp| ==> NONE <= s1[b] < |jmp| && NONE <= s2[b] < |jmp|)
      && (forall b :: 0 <= b < |jmp| && (jmp[b].Goto? || jmp[b].Branch?) ==> s1[b] >= 0)
      && (forall b :: 0 <= b < |jmp| && jmp[b].Branch? ==> s2[b] >= 0)
      && (forall b :: 0 <= b < |jmp| && !jmp[b].Branch? ==> s2[b] == NONE)
      && (forall b :: 0 <= b < |jmp| && (jmp[b].Exit? || jmp[b].Ret0?) ==> s1[b] == NONE)
    }
  }

  // ----- execution -----

  /** The effect of the instructions of a block, and the outcome of its jump's test. */
  datatype Machine<!S> = Machine(run: (nat, S) -> S, test: (nat, S) -> bool)

  datatype Outcome = Return0 | ExitAt(b: nat)

  /** trace lists the blocks with instructions that have been executed. */
  datatype Config<S> = At(b: nat, s: S, trace: seq<nat>) | Done(out: Outcome, s: S, trace: seq<nat>)

  ghost function Step<S>(m: Machine<S>, p: Blocks, c: Config<S>): Config<S>
    requires p.Valid()
  {
    if c.Done? || c.b >= |p.jmp| then c else
    var b := c.b;
    var s := if p.nins[b] > 0 then m.run(b, c.s) else c.s;
    var trace := if p.nins[b] > 0 then c.trace + [b] else c.trace;
    match p.jmp[b]
    case Ret0 => Done(Return0, s, trace)
    case Exit => Done(ExitAt(b), s, trace)
    case Goto => At(p.s1[b], s, trace)
    case Branch => At(if m.test(b, s) then p.s1[b] else p.s2[b], s, trace)
  }

  /** Execution can go from b to s, when the test of b, if it has one, comes out as `taken`. */
  ghost predicate Goes(p: Blocks, b: nat, taken: bool, s: nat)
    requires p.Valid()
  {
    var m := Machine((_, x: bool) => x, (_, x: bool) => x);
    var d := Step(m, p, At(b, taken, []));
    d.At? && d.b == s
  }

  /** The edges of the graph are the moves of execution: a field left over from an earlier jump would be neither. */
  lemma EdgesAreMoves(p: Blocks, b: nat, s: nat)
    requires p.Valid() && b < |p.jmp|
    ensures (s == p.s1[b] || s == p.s2[b]) <==> exists taken: bool :: Goes(p, b, taken, s)
  {
    assert s == p.s1[b] ==> Goes(p, b, true, s);
    assert s == p.s2[b] ==> Goes(p, b, false, s);
  }

  ghost function Steps<S>(m: Machine<S>, p: Blocks, c: Config<S>, k: nat): Config<S>
    requires p.Valid()
  {
    if k == 0 then c else Step(m, p, Steps(m, p, c, k - 1))
  }

  lemma {:induction false} StepsAdd<S>(m: Machine<S>, p: Blocks, c: Config<S>, j: nat, k: nat)
    requires p.Valid()
    ensures Steps(m, p, Steps(m, p, c, j), k) == Steps(m, p, c, j + k)
  {
    if k > 0 { StepsAdd(m, p, c, j, k - 1); }
  }

  lemma OneStep<S>(m: Machine<S>, p: Blocks, c: Config<S>)
    requires p.Valid()
    ensures Steps(m, p, c, 1) == Step(m, p, c)
  {
    assert Steps(m, p, c, 0) == c;
  }

  // ----- the union-find forest -----

  /** The block is jumped over: it does nothing but go to its only successor, or return. */
  ghost predicate Silent(p: Blocks, b: nat)
    requires p.Valid() && b < |p.jmp|
  {
    p.nins[b] == 0 && (p.jmp[b].Goto? || p.jmp[b].Ret0?)
  }

  /** Where the jump of b goes once every plain return goes to the block |p.jmp|. */
  ghost function Next(p: Blocks, b: nat): int
    requires p.Valid() && b < |p.jmp|
  {
    if p.jmp[b].Ret0? then |p.jmp| else p.s1[b]
  }

  /** root is the representative of each block, dist the number of steps the original takes to get there. */
  ghost predicate Node(uf: seq<int>, root: seq<nat>, dist: seq<nat>, b: nat)
    requires |uf| == |root| == |dist| && b < |uf|
  {
    && NONE <= uf[b] < |uf| && root[b] < |uf| && uf[root[b]] == NONE
    && if uf[b] == NONE then root[b] == b && dist[b] == 0
       else root[b] != b && root[uf[b]] == root[b] && dist[uf[b]] < dist[b]
  }

  ghost predicate Forest(uf: seq<int>, root: seq<nat>, dist: seq<nat>) {
    |uf| == |root| == |dist| && forall b: nat :: b < |uf| ==> Node(uf, root, dist, b)
  }

  /** A linked block is silent, and its successor is one step closer to the same representative. */
  ghost predicate Hop(p: Blocks, root: seq<nat>, dist: seq<nat>, b: nat)
    requires p.Valid() && b < |p.jmp| && |root| == |dist| == |p.jmp| + 1
  {
    Silent(p, b) && root[Next(p, b)] == root[b] && dist[b] == dist[Next(p, b)] + 1
  }

  ghost predicate Follows(p: Blocks, uf: seq<int>, root: seq<nat>, dist: seq<nat>)
    requires p.Valid()
  {
    && |uf| == |root| == |dist| == |p.jmp| + 1 && uf[|p.jmp|] == NONE
    && forall b: nat :: b < |p.jmp| && uf[b] != NONE ==> Hop(p, root, dist, b)
  }

  ghost predicate SameLinks(uf: seq<int>, uf': seq<int>) {
    |uf'| == |uf| && forall b: nat :: b < |uf| ==> (uf'[b] == NONE <==> uf[b] == NONE)
  }

  lemma Compressed(uf: seq<int>, root: seq<nat>, dist: seq<nat>, x: nat)
    requires Forest(uf, root, dist) && x < |uf| && uf[x] != NONE
    ensures Node(uf, root, dist, x)
    ensures Forest(uf[x := root[x]], root, dist)
  {
    assert Node(uf, root, dist, x);
    assert Node(uf, root, dist, root[x]);
    var uf' := uf[x := root[x]];
    forall b: nat | b < |uf| ensures Node(uf', root, dist, b) {
      assert Node(uf, root, dist, b);
    }
  }

  /** uffind: the representative of x, with path compression. */
  method Find(uf: array<int>, x: nat, ghost root: seq<nat>, ghost dist: seq<nat>) returns (r: nat)
    requires x < uf.Length && Forest(uf[..], root, dist)
    modifies uf
    ensures r == root[x] < uf.Length && Forest(uf[..], root, dist)
    ensures SameLinks(old(uf[..]), uf[..]) && uf[r] == NONE
    decreases dist[x]
  {
    r := x;
    assert Node(uf[..], root, dist, x);
    if uf[x] != NONE {
      r := Find(uf, uf[x], root, dist);
      ghost var s := uf[..];
      Compressed(s, root, dist, x);
      uf[x] := r;
      assert uf[..] == s[x := r];
    }
  }

  // ----- what simpljmp produces -----

  /** Jump b of q goes straight to where p ends up after the empty blocks. */
  ghost predicate Threads(p: Blocks, q: Blocks, root: seq<nat>, b: nat)
    requires p.Valid() && b < |p.jmp| < |q.jmp| == |q.s1| == |q.s2| && |root| == |p.jmp| + 1
  {
    match p.jmp[b]
    case Exit => q.jmp[b].Exit?
    case Ret0 => q.jmp[b].Goto? && q.s1[b] == root[|p.jmp|]
    case Goto => q.jmp[b].Goto? && q.s1[b] == root[p.s1[b]]
    case Branch =>
      if root[p.s1[b]] == root[p.s2[b]] then q.jmp[b].Goto? && q.s1[b] == root[p.s1[b]]
      else q.jmp[b].Branch? && q.s1[b] == root[p.s1[b]] && q.s2[b] == root[p.s2[b]]
  }

  /** dist[b] silent steps lead from b to root[b]; the block |p.jmp| stands for a plain return. */
  ghost predicate Roots(p: Blocks, root: seq<nat>, dist: seq<nat>)
    requires p.Valid()
  {
    && |root| == |dist| == |p.jmp| + 1 && dist[|p.jmp|] == 0
    && (forall b: nat :: b <= |p.jmp| ==> root[b] <= |p.jmp| && dist[root[b]] == 0)
    && (forall b: nat :: b <= |p.jmp| && dist[b] == 0 ==> root[b] == b)
    && (forall b: nat :: b < |p.jmp| && dist[b] > 0 ==> Hop(p, root, dist, b))
  }

  /** An empty block that is its own representative jumps to itself through empty blocks only. */
  ghost predicate OnlyLoops(p: Blocks, root: seq<nat>, b: nat)
    requires p.Valid() && b < |p.jmp| && |root| == |p.jmp| + 1
  {
    Silent(p, b) && root[b] == b ==> root[Next(p, b)] == b
  }

  ghost predicate Threaded(p: Blocks, q: Blocks, root: seq<nat>, dist: seq<nat>) {
    && p.Valid() && q.Valid() && Roots(p, root, dist)
    && |q.jmp| == |p.jmp| + 1 && q.nins == p.nins + [0] && q.jmp[|p.jmp|].Ret0?
    && forall b: nat :: b < |p.jmp| ==> Threads(p, q, root, b) && OnlyLoops(p, root, b)
  }

  /** No jump leads to an empty block any more, unless that block does nothing but jump to itself. */
  lemma NoJumpToEmptyBlock(p: Blocks, q: Blocks, root: seq<nat>, dist: seq<nat>, b: nat, s: int)
    requires Threaded(p, q, root, dist) && b < |p.jmp| && s >= 0
    requires (q.jmp[b].Goto? && s == q.s1[b]) || (q.jmp[b].Branch? && (s == q.s1[b] || s == q.s2[b]))
    ensures s < |p.jmp| && Silent(p, s) ==> q.jmp[s].Goto? && q.s1[s] == s
  {
    assert Threads(p, q, root, b);
    if s < |p.jmp| && Silent(p, s) {
      assert Threads(p, q, root, s) && OnlyLoops(p, root, s);
    }
  }

  /** p and q have done the same things; q is at the block of p, or where that block leads silently. */
  ghost predicate Related<S>(p: Blocks, root: seq<nat>, c: Config<S>, d: Config<S>)
    requires p.Valid() && |root| == |p.jmp| + 1
  {
    && c.s == d.s && c.trace == d.trace
    && match c
       case At(b, _, _) => b < |p.jmp| && d.At? && (d.b == b || d.b == root[b])
       case Done(out, _, _) => d == c || (out.Return0? && d.At? && d.b == |p.jmp|)
  }

  lemma ForwardStep<S>(m: Machine<S>, p: Blocks, q: Blocks, root: seq<nat>, dist: seq<nat>, c: Config<S>, d: Config<S>)
    requires Threaded(p, q, root, dist) && Related(p, root, c, d)
    ensures c.At? && c.b == d.b ==> Related(p, root, Step(m, p, c), Step(m, q, d))
    ensures c.At? && c.b != d.b ==> Related(p, root, Step(m, p, c), d)
    ensures c.At? && c.b != d.b ==>
      if root[c.b] == |p.jmp| && dist[c.b] == 1 then Step(m, p, c).Done?
      else Step(m, p, c).At? && root[Step(m, p, c).b] == d.b && dist[Step(m, p, c).b] == dist[c.b] - 1
    ensures c.Done? ==> Step(m, p, c) == Step(m, q, c) == c && Step(m, q, d) == c
  {
    if c.At? {
      assert Threads(p, q, root, c.b);
      if c.b != d.b { assert Hop(p, root, dist, c.b); }
    }
  }

  /** Every state p reaches is matched by q, in no more steps. */
  lemma {:induction false} Forward<S>(m: Machine<S>, p: Blocks, q: Blocks, root: seq<nat>, dist: seq<nat>, b: nat, s: S,
                                      k: nat)
    returns (j: nat)
    requires Threaded(p, q, root, dist) && b < |p.jmp|
    ensures j <= k && Related(p, root, Steps(m, p, At(b, s, []), k), Steps(m, q, At(b, s, []), j))
  {
    if k == 0 {
      j := 0;
    } else {
      j := Forward(m, p, q, root, dist, b, s, k - 1);
      var c, d := Steps(m, p, At(b, s, []), k - 1), Steps(m, q, At(b, s, []), j);
      ForwardStep(m, p, q, root, dist, c, d);
      if c.At? && c.b == d.b { j := j + 1; }
    }
  }

  /** The original reaches the representative of its block without doing anything. */
  lemma {:induction false} SilentRun<S>(m: Machine<S>, p: Blocks, q: Blocks, root: seq<nat>, dist: seq<nat>,
                                        c: Config<S>, d: Config<S>)
    returns (k: nat, e: Config<S>)
    requires Threaded(p, q, root, dist) && Related(p, root, c, d)
    ensures e == Steps(m, p, c, k) && Related(p, root, e, d) && (e.At? ==> d.At? && e.b == d.b)
    decreases if c.At? then dist[c.b] else 0
  {
    if c.Done? || c.b == d.b {
      k, e := 0, c;
    } else {
      ForwardStep(m, p, q, root, dist, c, d);
      e := Step(m, p, c);
      OneStep(m, p, c);
      k := 1;
      if e.At? {
        k, e := SilentRun(m, p, q, root, dist, e, d);
        StepsAdd(m, p, c, 1, k);
        k := 1 + k;
      }
    }
  }

  /** One step of q is matched by a run of p. */
  lemma BackwardStep<S>(m: Machine<S>, p: Blocks, q: Blocks, root: seq<nat>, dist: seq<nat>, c: Config<S>, d: Config<S>)
    returns (k: nat)
    requires Threaded(p, q, root, dist) && Related(p, root, c, d)
    ensures Related(p, root, Steps(m, p, c, k), Step(m, q, d))
  {
    var e;
    k, e := SilentRun(m, p, q, root, dist, c, d);
    ForwardStep(m, p, q, root, dist, e, d);
    if e.At? { k := k + 1; }
  }

  /** Every state q reaches is matched by p. */
  lemma {:induction false} Backward<S>(m: Machine<S>, p: Blocks, q: Blocks, root: seq<nat>, dist: seq<nat>, b: nat,
                                       s: S, j: nat)
    returns (k: nat)
    requires Threaded(p, q, root, dist) && b < |p.jmp|
    ensures Related(p, root, Steps(m, p, At(b, s, []), k), Steps(m, q, At(b, s, []), j))
  {
    if j == 0 {
      k := 0;
    } else {
      k := Backward(m, p, q, root, dist, b, s, j - 1);
      var c, d := Steps(m, p, At(b, s, []), k), Steps(m, q, At(b, s, []), j - 1);
      var i := BackwardStep(m, p, q, root, dist, c, d);
      StepsAdd(m, p, At(b, s, []), k, i);
      k := k + i;
    }
  }

  /** d has done what c has done, and has ended in the same way if c has ended. */
  ghost predicate Observes<S>(c: Config<S>, d: Config<S>) {
    c.s == d.s && c.trace == d.trace && (c.Done? ==> d == c)
  }

  /** Some state of the run of p from c has done what d has done. */
  ghost predicate Reaches<S(!new)>(m: Machine<S>, p: Blocks, c: Config<S>, d: Config<S>)
    requires p.Valid()
  {
    exists k: nat :: Observes(d, Steps(m, p, c, k))
  }

  /**
   * simpljmp preserves the sequence of blocks executed, the state, the way the function ends and
   * divergence: each state of either run is matched by the other.
   */
  lemma ThreadingPreservesMeaning<S(!new)>(m: Machine<S>, p: Blocks, q: Blocks, root: seq<nat>, dist: seq<nat>, b: nat,
                                           s: S)
    requires Threaded(p, q, root, dist) && b < |p.jmp|
    ensures forall k: nat :: Reaches(m, q, At(b, s, []), Steps(m, p, At(b, s, []), k))
    ensures forall j: nat :: Reaches(m, p, At(b, s, []), Steps(m, q, At(b, s, []), j))
  {
    var c0 := At(b, s, []);
    forall k: nat ensures Reaches(m, q, c0, Steps(m, p, c0, k)) {
      var j := Forward(m, p, q, root, dist, b, s, k);
      var c, d := Steps(m, p, c0, k), Steps(m, q, c0, j);
      ForwardStep(m, p, q, root, dist, c, d);
      assert c.Done? ==> Steps(m, q, c0, j + 1) == c;
      assert Observes(c, if c.Done? then Steps(m, q, c0, j + 1) else Steps(m, q, c0, j));
    }
    forall j: nat ensures Reaches(m, p, c0, Steps(m, q, c0, j)) {
      var k := Backward(m, p, q, root, dist, b, s, j);
      assert Observes(Steps(m, q, c0, j), Steps(m, p, c0, k));
    }
  }

  // ----- simpljmp -----

  /** Linking b to the representative of its successor s0. */
  ghost function LinkRoot(root: seq<nat>, b: nat, r: nat): (root': seq<nat>)
    ensures |root'| == |root|
  {
    seq(|root|, x requires 0 <= x < |root| => if root[x] == b then r else root[x])
  }

  ghost function LinkDist(root: seq<nat>, dist: seq<nat>, b: nat, d: nat): (dist': seq<nat>)
    requires |root| == |dist|
    ensures |dist'| == |dist|
  {
    seq(|root|, x requires 0 <= x < |root| => if root[x] == b then dist[x] + 1 + d else dist[x])
  }

  /** The empty blocks before i that are not linked are loops. */
  ghost predicate Tight(p: Blocks, root: seq<nat>, i: nat)
    requires p.Valid() && |root| == |p.jmp| + 1
  {
    forall b: nat :: b < i && b < |p.jmp| ==> OnlyLoops(p, root, b)
  }

  lemma TightLinked(p: Blocks, uf: seq<int>, root: seq<nat>, dist: seq<nat>, i: nat, r: nat)
    requires p.Valid() && Forest(uf, root, dist) && Follows(p, uf, root, dist) && Tight(p, root, i)
    requires i < |p.jmp| && r < |uf| && r != i && root[i] == i && root[r] == r
    ensures Tight(p, LinkRoot(root, i, r), i + 1)
  {
    forall b: nat | b < i + 1 && b < |p.jmp| ensures OnlyLoops(p, LinkRoot(root, i, r), b) {
      assert Node(uf, root, dist, b);
      if b < i { assert OnlyLoops(p, root, b); }
    }
  }

  lemma LinkedForest(uf: seq<int>, root: seq<nat>, dist: seq<nat>, b: nat, r: nat, d: nat)
    requires Forest(uf, root, dist)
    requires b < |uf| && r < |uf| && uf[b] == uf[r] == NONE && r != b
    ensures Forest(uf[b := r], LinkRoot(root, b, r), LinkDist(root, dist, b, d))
  {
    var uf', root', dist' := uf[b := r], LinkRoot(root, b, r), LinkDist(root, dist, b, d);
    assert Node(uf, root, dist, b) && Node(uf, root, dist, r);
    forall x: nat | x < |uf| ensures Node(uf', root', dist', x) {
      assert Node(uf, root, dist, x);
    }
  }

  lemma LinkedFollows(p: Blocks, uf: seq<int>, root: seq<nat>, dist: seq<nat>, b: nat, r: nat, d: nat)
    requires p.Valid() && Forest(uf, root, dist) && Follows(p, uf, root, dist)
    requires b < |p.jmp| && uf[b] == NONE && Silent(p, b) && r != b && r == root[Next(p, b)] && d == dist[Next(p, b)]
    requires Forest(uf[b := r], LinkRoot(root, b, r), LinkDist(root, dist, b, d))
    ensures Follows(p, uf[b := r], LinkRoot(root, b, r), LinkDist(root, dist, b, d))
  {
    var uf', root', dist' := uf[b := r], LinkRoot(root, b, r), LinkDist(root, dist, b, d);
    assert Node(uf, root, dist, b) && Node(uf, root, dist, Next(p, b)) && Node(uf, root, dist, r);
    forall x: nat | x < |p.jmp| && uf'[x] != NONE ensures Hop(p, root', dist', x) {
      if x != b { assert Hop(p, root, dist, x); }
    }
  }

  /** How far the first loop has got: s1 still leads to the right representative. */
  ghost predicate Swept(p: Blocks, c: Blocks, root: seq<nat>, b: nat)
    requires p.Valid() && b < |p.jmp| && |c.jmp| == |c.s1| == |c.s2| == |root| == |p.jmp| + 1
  {
    && c.s2[b] == p.s2[b]
    && c.jmp[b] == (if p.jmp[b].Ret0? then Goto else p.jmp[b])
    && NONE <= c.s1[b] <= |p.jmp|
    && if Next(p, b) == NONE then c.s1[b] == NONE else c.s1[b] >= 0 && root[c.s1[b]] == root[Next(p, b)]
  }

  ghost predicate Fresh(p: Blocks, c: Blocks, b: nat)
    requires p.Valid() && b < |p.jmp| && |c.jmp| == |c.s1| == |c.s2| == |p.jmp| + 1
  {
    c.jmp[b] == p.jmp[b] && c.s1[b] == p.s1[b] && c.s2[b] == p.s2[b]
  }

  /** The block appended for the plain returns. */
  ghost predicate Extended(p: Blocks, c: Blocks) {
    var n := |p.jmp|;
    && c.nins == p.nins + [0] && |c.jmp| == |c.s1| == |c.s2| == n + 1
    && c.jmp[n].Ret0? && c.s1[n] == NONE && c.s2[n] == NONE
  }

  /** The first loop has dealt with the blocks before i. */
  ghost predicate Sweeping(p: Blocks, c: Blocks, uf: seq<int>, root: seq<nat>, dist: seq<nat>, i: nat)
    requires p.Valid()
  {
    && Extended(p, c) && Forest(uf, root, dist) && Follows(p, uf, root, dist)
    && (forall b: nat :: i <= b < |p.jmp| ==> uf[b] == NONE && Fresh(p, c, b))
    && (forall b: nat :: b < i && b < |p.jmp| ==> Swept(p, c, root, b))
  }

  /** Path compression keeps the links that matter. */
  lemma CompressedFollows(p: Blocks, uf: seq<int>, uf': seq<int>, root: seq<nat>, dist: seq<nat>)
    requires p.Valid() && Forest(uf, root, dist) && Follows(p, uf, root, dist)
    requires Forest(uf', root, dist) && SameLinks(uf, uf')
    ensures Follows(p, uf', root, dist)
  {
    forall x: nat | x < |p.jmp| && uf'[x] != NONE ensures Hop(p, root, dist, x) {
      assert uf[x] != NONE;
    }
  }

  /** Block i now ends with a jump to t, and nothing was linked. */
  lemma SweptPlain(p: Blocks, c: Blocks, uf: seq<int>, uf': seq<int>, root: seq<nat>, dist: seq<nat>, i: nat, t: int)
    requires p.Valid() && i < |p.jmp| && Sweeping(p, c, uf, root, dist, i)
    requires NONE <= t <= |p.jmp| && if Next(p, i) == NONE then t == NONE else t >= 0 && root[t] == root[Next(p, i)]
    requires Forest(uf', root, dist) && SameLinks(uf, uf')
    ensures var j := if p.jmp[i].Ret0? then Goto else p.jmp[i];
      Sweeping(p, c.(jmp := c.jmp[i := j], s1 := c.s1[i := t]), uf', root, dist, i + 1)
  {
    var j := if p.jmp[i].Ret0? then Goto else p.jmp[i];
    var c' := c.(jmp := c.jmp[i := j], s1 := c.s1[i := t]);
    CompressedFollows(p, uf, uf', root, dist);
    forall b: nat | i + 1 <= b < |p.jmp| ensures uf'[b] == NONE && Fresh(p, c', b) {
      assert Fresh(p, c, b);
    }
    forall b: nat | b < i + 1 && b < |p.jmp| ensures Swept(p, c', root, b) {
      if b < i { assert Swept(p, c, root, b); } else { assert Fresh(p, c, b); }
    }
  }

  /** Block i, which does nothing, was linked to the representative r of its successor. */
  lemma SweptLinked(p: Blocks, c: Blocks, uf: seq<int>, root: seq<nat>, dist: seq<nat>, i: nat, r: nat, d: nat)
    requires p.Valid() && i < |p.jmp| && Sweeping(p, c, uf, root, dist, i + 1)
    requires uf[i] == NONE && Silent(p, i) && r != i && r == root[Next(p, i)] && d == dist[Next(p, i)]
    ensures Sweeping(p, c, uf[i := r], LinkRoot(root, i, r), LinkDist(root, dist, i, d), i + 1)
  {
    assert Node(uf, root, dist, Next(p, i));
    LinkedForest(uf, root, dist, i, r, d);
    LinkedFollows(p, uf, root, dist, i, r, d);
    forall b: nat | b < i + 1 && b < |p.jmp| ensures Swept(p, c, LinkRoot(root, i, r), b) {
      assert Swept(p, c, root, b);
    }
  }

  /** c and d differ at block b only. */
  ghost predicate OnlyAt(c: Blocks, d: Blocks, b: nat)
    requires |c.jmp| == |c.s1| == |c.s2| == |d.jmp| == |d.s1| == |d.s2|
  {
    forall x: nat :: x < |c.jmp| && x != b ==> d.jmp[x] == c.jmp[x] && d.s1[x] == c.s1[x] && d.s2[x] == c.s2[x]
  }

  /** The successors of b are the targets of its jump. */
  ghost predicate Sound(c: Blocks, b: nat)
    requires b < |c.jmp| == |c.s1| == |c.s2|
  {
    && NONE <= c.s1[b] < |c.jmp| && NONE <= c.s2[b] < |c.jmp|
    && (c.jmp[b].Goto? || c.jmp[b].Branch? ==> c.s1[b] >= 0)
    && (if c.jmp[b].Branch? then c.s2[b] >= 0 else c.s2[b] == NONE)
    && (c.jmp[b].Exit? || c.jmp[b].Ret0? ==> c.s1[b] == NONE)
  }

  /** The second loop has dealt with the blocks before i. */
  ghost predicate Redirecting(p: Blocks, c: Blocks, root: seq<nat>, i: nat)
    requires p.Valid()
  {
    && Extended(p, c) && |root| == |p.jmp| + 1
    && (forall b: nat :: i <= b < |p.jmp| ==> Swept(p, c, root, b))
    && (forall b: nat :: b < i && b < |p.jmp| ==> Threads(p, c, root, b) && Sound(c, b))
  }

  lemma Redirected(p: Blocks, c: Blocks, d: Blocks, root: seq<nat>, i: nat)
    requires p.Valid() && i < |p.jmp| && Redirecting(p, c, root, i)
    requires Extended(p, d) && OnlyAt(c, d, i) && Threads(p, d, root, i) && Sound(d, i)
    ensures Redirecting(p, d, root, i + 1)
  {
    forall b: nat | i + 1 <= b < |p.jmp| ensures Swept(p, d, root, b) {
      assert Swept(p, c, root, b);
    }
    forall b: nat | b < i + 1 && b < |p.jmp| ensures Threads(p, d, root, b) && Sound(d, b) {
      if b < i { assert Threads(p, c, root, b) && Sound(c, b); }
    }
  }

  /** The representatives of the successors of b are blocks, and the new block is its own. */
  lemma Anchors(p: Blocks, uf: seq<int>, root: seq<nat>, dist: seq<nat>, b: nat)
    requires p.Valid() && Forest(uf, root, dist) && |uf| == |p.jmp| + 1 && b < |p.jmp|
    ensures p.s1[b] >= 0 ==> root[p.s1[b]] < |uf|
    ensures p.s2[b] >= 0 ==> root[p.s2[b]] < |uf|
    ensures root[|p.jmp|] < |uf|
  {
    assert p.s1[b] >= 0 ==> Node(uf, root, dist, p.s1[b]);
    assert p.s2[b] >= 0 ==> Node(uf, root, dist, p.s2[b]);
    assert Node(uf, root, dist, |p.jmp|);
  }

  lemma Started(p: Blocks, c: Blocks, uf: seq<int>, root: seq<nat>, dist: seq<nat>)
    requires p.Valid() && |uf| == |root| == |dist| == |p.jmp| + 1
    requires c == Blocks(p.nins + [0], p.jmp + [Ret0], p.s1 + [NONE], p.s2 + [NONE])
    requires forall b: nat :: b < |uf| ==> uf[b] == NONE && root[b] == b && dist[b] == 0
    ensures Sweeping(p, c, uf, root, dist, 0)
  {
    forall b: nat | b < |uf| ensures Node(uf, root, dist, b) {
    }
  }

  lemma Finished(p: Blocks, c: Blocks, uf: seq<int>, root: seq<nat>, dist: seq<nat>)
    requires p.Valid() && Forest(uf, root, dist) && Follows(p, uf, root, dist) && Redirecting(p, c, root, |p.jmp|)
    requires Tight(p, root, |p.jmp|)
    ensures Threaded(p, c, root, dist)
  {
    forall b: nat | b <= |p.jmp|
      ensures root[b] <= |p.jmp| && dist[root[b]] == 0 && (dist[b] == 0 ==> root[b] == b)
      ensures (dist[b] > 0 ==> uf[b] != NONE)
    {
      assert Node(uf, root, dist, b) && Node(uf, root, dist, root[b]);
    }
    forall b: nat | b < |c.jmp| ensures Sound(c, b) {
    }
    assert c.Valid() by {
      forall b | 0 <= b < |c.jmp|
        ensures NONE <= c.s1[b] < |c.jmp| && NONE <= c.s2[b] < |c.jmp|
        ensures (c.jmp[b].Goto? || c.jmp[b].Branch? ==> c.s1[b] >= 0)
        ensures if c.jmp[b].Branch? then c.s2[b] >= 0 else c.s2[b] == NONE
        ensures c.jmp[b].Exit? || c.jmp[b].Ret0? ==> c.s1[b] == NONE
      {
        assert Sound(c, b);
      }
    }
  }

  /** The blocks of a function; simpljmp rewrites the jumps in place and appends a block. */
  class Fn {
    var nins: seq<nat>
    var jmp: seq<Jmp>
    var s1: seq<int>
    var s2: seq<int>

    ghost function Code(): Blocks
      reads this
    {
      Blocks(nins, jmp, s1, s2)
    }

    /** One round of the first loop. */
    method Sweep(ghost p: Blocks, uf: array<int>, ghost root: seq<nat>, ghost dist: seq<nat>, ret: nat, b: nat)
      returns (ghost root': seq<nat>, ghost dist': seq<nat>)
      requires p.Valid() && b < |p.jmp| == ret && Sweeping(p, Code(), uf[..], root, dist, b) && Tight(p, root, b)
      modifies this`jmp, this`s1, uf
      ensures Sweeping(p, Code(), uf[..], root', dist', b + 1) && Tight(p, root', b + 1)
    {
      root', dist' := root, dist;
      assert Fresh(p, Code(), b);
      ghost var c, uf0, s0 := Code(), uf[..], Next(p, b);
      if jmp[b].Ret0? {
        jmp := jmp[b := Goto];
        s1 := s1[b := ret];
      }
      assert jmp == c.jmp[b := jmp[b]] && s1[b] == s0;
      if nins[b] == 0 && jmp[b].Goto? {
        var r := Find(uf, s1[b], root, dist);
        s1 := s1[b := r];
        assert Code() == c.(jmp := c.jmp[b := jmp[b]], s1 := c.s1[b := r]);
        assert Node(uf[..], root, dist, r);
        SweptPlain(p, c, uf0, uf[..], root, dist, b, r);
        if r != b {
          assert Node(uf[..], root, dist, b);
          SweptLinked(p, Code(), uf[..], root, dist, b, r, dist[s0]);
          TightLinked(p, uf[..], root, dist, b, r);
          root', dist' := LinkRoot(root, b, r), LinkDist(root, dist, b, dist[s0]);
          ghost var before := uf[..];
          uf[b] := r;
          assert uf[..] == before[b := r];
        }
      } else {
        assert Code() == c.(jmp := c.jmp[b := jmp[b]], s1 := c.s1[b := s1[b]]);
        SweptPlain(p, c, uf0, uf[..], root, dist, b, s1[b]);
      }
    }

    /** One round of the second loop. */
    method Redirect(ghost p: Blocks, uf: array<int>, ghost root: seq<nat>, ghost dist: seq<nat>, b: nat)
      requires p.Valid() && Forest(uf[..], root, dist) && Extended(p, Code()) && uf.Length == |p.jmp| + 1
      requires b < |p.jmp| && Swept(p, Code(), root, b)
      modifies this`jmp, this`s1, this`s2, uf
      ensures Forest(uf[..], root, dist) && SameLinks(old(uf[..]), uf[..])
      ensures Extended(p, Code()) && OnlyAt(old(Code()), Code(), b)
      ensures Threads(p, Code(), root, b) && Sound(Code(), b)
    {
      Anchors(p, uf[..], root, dist, b);
      if s1[b] != NONE {
        var r := Find(uf, s1[b], root, dist);
        s1 := s1[b := r];
      }
      if s2[b] != NONE {
        var r := Find(uf, s2[b], root, dist);
        s2 := s2[b := r];
      }
      if s1[b] != NONE && s1[b] == s2[b] {
        jmp := jmp[b := Goto];
        s2 := s2[b := NONE];
      }
    }

    /** simpljmp: the empty blocks are jumped over. */
    method SimplJmp() returns (ghost root: seq<nat>, ghost dist: seq<nat>)
      requires Code().Valid()
      modifies this
      ensures Threaded(old(Code()), Code(), root, dist)
    {
      ghost var p := Code();
      var ret := |jmp|;
      nins, jmp, s1, s2 := nins + [0], jmp + [Ret0], s1 + [NONE], s2 + [NONE];
      var uf := new int[ret + 1](i => NONE);
      root := seq(ret + 1, i => i);
      dist := seq(ret + 1, i => 0);
      Started(p, Code(), uf[..], root, dist);
      for b := 0 to ret
        invariant Sweeping(p, Code(), uf[..], root, dist, b) && Tight(p, root, b)
      {
        root, dist := Sweep(p, uf, root, dist, ret, b);
      }
      for b := 0 to ret
        invariant Forest(uf[..], root, dist) && Follows(p, uf[..], root, dist) && Redirecting(p, Code(), root, b)
        invariant Tight(p, root, ret)
      {
        ghost var c, u := Code(), uf[..];
        Redirect(p, uf, root, dist, b);
        CompressedFollows(p, u, uf[..], root, dist);
        Redirected(p, c, Code(), root, b);
      }
      Finished(p, Code(), uf[..], root, dist);
    }
  }
}
