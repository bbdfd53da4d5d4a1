/** Sequentialisation of parallel moves: pmadd, pmrec and pmgen of rega.c. */
module ParallelMoves {

  /** Where a value can live during register allocation: a register or a stack slot. */
  datatype Loc = Tmp(id: nat) | Slot(id: nat)

  /** The classes Kw, Kl, Ks, Kd: KBASE is `flt`, KWIDE is `wide`; C's `|` acts on both bits. */
  datatype Cls = Cls(flt: bool, wide: bool) {
    function Or(that: Cls): Cls { Cls(flt || that.flt, wide || that.wide) }
  }

  datatype Move = Move(src: Loc, dst: Loc, cls: Cls)

  datatype Ins =
    | Copy(cls: Cls, to: Loc, arg: Loc)
    | Swap(cls: Cls, arg0: Loc, arg1: Loc)

  datatype PMStat = ToMove | Moving | Moved

  /** The static table of rega.c has room for one move per register. */
  const MAX_MOVES: nat := 64

  // ----- machine semantics -----

  /** A 64-bit value as two halves; a narrow instruction leaves the high half unspecified. */
  datatype Val = Val(lo: int, hi: int)

  type Store = Loc -> Val

  ghost predicate Agree(wide: bool, v: Val, w: Val) {
    v.lo == w.lo && (wide ==> v.hi == w.hi)
  }

  ghost predicate Step(i: Ins, s: Store, t: Store) {
    match i
    case Copy(k, to, arg) =>
      && Agree(k.wide, t(to), s(arg))
      && forall l :: l != to ==> t(l) == s(l)
    case Swap(k, a, b) =>
      && Agree(k.wide, t(a), s(b))
      && Agree(k.wide, t(b), s(a))
      && forall l :: l != a && l != b ==> t(l) == s(l)
  }

  /** Code runs from its head; since emit fills its buffer backwards, the head was emitted last. */
  ghost predicate Run(code: seq<Ins>, s: Store, t: Store) {
    if code == [] then forall l :: t(l) == s(l)
    else exists m: Store :: Step(code[0], s, m) && Run(code[1..], m, t)
  }

  /** Every program has an execution from every store, so statements about all runs are not vacuous. */
  lemma {:induction false} RunExists(code: seq<Ins>, s: Store)
    ensures exists t: Store :: Run(code, s, t)
  {
    if code == [] {
      assert Run(code, s, s);
    } else {
      var m: Store := match code[0]
        case Copy(_, to, arg) => ((l: Loc) => if l == to then s(arg) else s(l))
        case Swap(_, a, b) => ((l: Loc) => if l == a then s(b) else if l == b then s(a) else s(l));
      assert Step(code[0], s, m);
      RunExists(code[1..], m);
      var t: Store :| Run(code[1..], m, t);
      assert Run(code, s, t);
    }
  }

  // ----- what a set of moves asks for -----

  ghost predicate DistinctDst(pm: seq<Move>) {
    forall i, j :: 0 <= i < |pm| && 0 <= j < |pm| && pm[i].dst == pm[j].dst ==> i == j
  }

  ghost predicate SelfMove(m: Move) { m.src == m.dst }

  /** Moves that feed each other are all integer or all floating point. */
  ghost predicate SameBank(pm: seq<Move>) {
    forall i, j ::
      (0 <= i < |pm| && 0 <= j < |pm| && pm[j].dst == pm[i].src && !SelfMove(pm[i]) && !SelfMove(pm[j]))
      ==> pm[i].cls.flt == pm[j].cls.flt
  }

  /** t is s after all the moves of `ms` have happened at once. */
  ghost predicate Parallel(pm: seq<Move>, ms: set<nat>, s: Store, t: Store)
    requires forall m :: m in ms ==> m < |pm|
  {
    && (forall m :: m in ms ==> Agree(pm[m].cls.wide, t(pm[m].dst), s(pm[m].src)))
    && (forall l :: (forall m :: m in ms ==> pm[m].dst != l) ==> t(l) == s(l))
  }

  /** As Parallel, with a cycle still open: the location of move c receives the old value of x. */
  ghost predicate Open(pm: seq<Move>, ms: set<nat>, c: nat, x: Loc, wide: bool, s: Store, t: Store)
    requires c < |pm| && forall m :: m in ms ==> m < |pm|
  {
    && (forall m :: m in ms ==> Agree(pm[m].cls.wide, t(pm[m].dst), s(pm[m].src)))
    && Agree(wide, t(pm[c].dst), s(x))
    && (forall l :: (forall m :: m in ms ==> pm[m].dst != l) && l != pm[c].dst ==> t(l) == s(l))
  }

  /** The producer of each finished move's source is finished too, except for the open cycle's start. */
  ghost predicate Closed(pm: seq<Move>, ms: set<nat>, c: int)
    requires forall m :: m in ms ==> m < |pm|
  {
    forall m, j :: m in ms && 0 <= j < |pm| && pm[j].dst == pm[m].src ==> j in ms || j == c
  }

  /** A 64-bit move of a bank: what makes an instruction of that bank have to move both halves. */
  ghost predicate WideMove(pm: seq<Move>, flt: bool) {
    exists m :: 0 <= m < |pm| && pm[m].cls == Cls(flt, true) && !SelfMove(pm[m])
  }

  /** The instruction carries out move m, in the bank of the move, and is wide only if a move of that bank is. */
  ghost predicate Serves(pm: seq<Move>, m: nat, i: Ins)
    requires m < |pm|
  {
    && !SelfMove(pm[m])
    && match i
       case Copy(k, to, arg) => k == pm[m].cls && to == pm[m].dst && arg == pm[m].src
       case Swap(k, a, b) =>
         a == pm[m].src && b == pm[m].dst && k.flt == pm[m].cls.flt && (k.wide ==> WideMove(pm, k.flt))
  }

  /** Every instruction carries out some move. */
  ghost predicate Banked(pm: seq<Move>, code: seq<Ins>) {
    forall i :: i in code ==> exists m :: 0 <= m < |pm| && Serves(pm, m, i)
  }

  lemma BankedFirst(pm: seq<Move>, m: nat, i: Ins, code: seq<Ins>)
    requires m < |pm| && Serves(pm, m, i) && Banked(pm, code)
    ensures Banked(pm, [i] + code)
  {
  }

  ghost predicate Touches(i: Ins, l: Loc) {
    match i
    case Copy(_, to, arg) => l == to || l == arg
    case Swap(_, a, b) => l == a || l == b
  }

  /**
   * An instruction that reads or writes a location some move fills belongs to the bank of that move: an integer
   * register is never exchanged or copied by a floating-point instruction, nor the other way round.
   */
  lemma BankFits(pm: seq<Move>, code: seq<Ins>, i: Ins, m: nat)
    requires DistinctDst(pm) && SameBank(pm) && Banked(pm, code) && i in code
    requires m < |pm| && !SelfMove(pm[m]) && Touches(i, pm[m].dst)
    ensures i.cls.flt == pm[m].cls.flt
  {
    var j :| 0 <= j < |pm| && Serves(pm, j, i);
    assert pm[j].dst == pm[m].dst || pm[j].src == pm[m].dst;
  }

  function Finished(st: seq<PMStat>): (ms: set<nat>)
    ensures forall m: nat :: m in ms <==> m < |st| && st[m] == Moved
  {
    set m: nat | m < |st| && st[m] == Moved
  }

  function Waiting(st: seq<PMStat>): (ms: set<nat>)
    ensures forall m: nat :: m in ms <==> m < |st| && st[m] == ToMove
  {
    set m: nat | m < |st| && st[m] == ToMove
  }

  function Proper(pm: seq<Move>, ms: set<nat>): (ps: set<nat>)
    requires forall m :: m in ms ==> m < |pm|
    ensures forall m :: m in ps <==> m in ms && pm[m].src != pm[m].dst
  {
    set m | m in ms && pm[m].src != pm[m].dst
  }

  lemma ProperGrows(pm: seq<Move>, ms: set<nat>, i: nat)
    requires i < |pm| && i !in ms && forall m :: m in ms ==> m < |pm|
    ensures |Proper(pm, ms + {i})| == |Proper(pm, ms)| + if SelfMove(pm[i]) then 0 else 1
  {
    if SelfMove(pm[i]) {
      assert Proper(pm, ms + {i}) == Proper(pm, ms);
    } else {
      assert Proper(pm, ms + {i}) == Proper(pm, ms) + {i};
    }
  }

  // ----- one emission at a time -----

  /** Moves only ever go from ToMove to Moved; the ones in progress belong to the callers. */
  ghost predicate Settles(st: seq<PMStat>, st': seq<PMStat>) {
    |st| == |st'| && forall m :: 0 <= m < |st| ==> st[m] == st'[m] || (st[m] == ToMove && st'[m] == Moved)
  }

  /** Between two calls of pmrec by pmgen, and around each move that is not on a cycle. */
  ghost predicate Settled(pm: seq<Move>, ms: set<nat>, code: seq<Ins>) {
    && (forall m :: m in ms ==> m < |pm|)
    && Closed(pm, ms, -1)
    && (forall s: Store, t: Store :: Run(code, s, t) ==> Parallel(pm, ms, s, t))
    && |code| <= |Proper(pm, ms)|
  }

  /** While the cycle started by move c unwinds: the destination of c receives the old value of x. */
  ghost predicate Pending(pm: seq<Move>, ms: set<nat>, c: nat, x: Loc, wide: bool, code: seq<Ins>) {
    && c < |pm| && (forall m :: m in ms ==> m < |pm|)
    && Closed(pm, ms, c)
    && (forall m :: m in ms ==> pm[m].src != x)
    && (forall s: Store, t: Store :: Run(code, s, t) ==> Open(pm, ms, c, x, wide, s, t))
    && |code| <= |Proper(pm, ms)|
  }

  lemma SelfDone(pm: seq<Move>, ms: set<nat>, i: nat, code: seq<Ins>)
    requires DistinctDst(pm) && i < |pm| && i !in ms && SelfMove(pm[i])
    requires Settled(pm, ms, code)
    ensures Settled(pm, ms + {i}, code)
  {
    ProperGrows(pm, ms, i);
    forall s: Store, t: Store | Run(code, s, t) ensures Parallel(pm, ms + {i}, s, t) {
      assert Parallel(pm, ms, s, t);
    }
  }

  lemma CopyFirst(pm: seq<Move>, ms: set<nat>, i: nat, code: seq<Ins>)
    requires DistinctDst(pm) && i < |pm| && i !in ms && !SelfMove(pm[i])
    requires Settled(pm, ms, code)
    requires forall j :: 0 <= j < |pm| && pm[j].dst == pm[i].src ==> j in ms
    ensures Settled(pm, ms + {i}, [Copy(pm[i].cls, pm[i].dst, pm[i].src)] + code)
  {
    ProperGrows(pm, ms, i);
    var ins := Copy(pm[i].cls, pm[i].dst, pm[i].src);
    forall s: Store, t: Store | Run([ins] + code, s, t) ensures Parallel(pm, ms + {i}, s, t) {
      var m: Store :| Step(ins, s, m) && Run(code, m, t) by { assert ([ins] + code)[1..] == code; }
      assert Parallel(pm, ms, m, t);
    }
  }

  /** The deepest move of a cycle, whose source is the destination of the move c still in progress. */
  lemma CycleFirst(pm: seq<Move>, ms: set<nat>, c: nat, i: nat, k: Cls, code: seq<Ins>)
    requires DistinctDst(pm) && i < |pm| && i !in ms && !SelfMove(pm[i])
    requires c < |pm| && c !in ms && c != i && pm[c].dst == pm[i].src && (pm[i].cls.wide ==> k.wide)
    requires Settled(pm, ms, code)
    ensures Pending(pm, ms + {i}, c, pm[i].dst, k.wide, [Swap(k, pm[i].src, pm[i].dst)] + code)
  {
    forall s: Store, t: Store | Run(code, s, t) ensures Open(pm, ms, c, pm[c].dst, k.wide, s, t) {
      assert Parallel(pm, ms, s, t);
    }
    SwapFirst(pm, ms, c, i, c, k, code);
  }

  /** A later move of a cycle, when the recursion unwinds. */
  lemma SwapFirst(pm: seq<Move>, ms: set<nat>, c: nat, i: nat, j: nat, k: Cls, code: seq<Ins>)
    requires DistinctDst(pm) && i < |pm| && j < |pm| && c < |pm|
    requires i !in ms && i != c && pm[j].dst == pm[i].src && !SelfMove(pm[i])
    requires c !in ms && (j in ms || j == c) && (pm[i].cls.wide ==> k.wide)
    requires Pending(pm, ms, c, pm[j].dst, k.wide, code)
    ensures Pending(pm, ms + {i}, c, pm[i].dst, k.wide, [Swap(k, pm[i].src, pm[i].dst)] + code)
  {
    ProperGrows(pm, ms, i);
    var ins := Swap(k, pm[i].src, pm[i].dst);
    forall s: Store, t: Store | Run([ins] + code, s, t)
      ensures Open(pm, ms + {i}, c, pm[i].dst, k.wide, s, t)
    {
      var m: Store :| Step(ins, s, m) && Run(code, m, t) by { assert ([ins] + code)[1..] == code; }
      assert Open(pm, ms, c, pm[j].dst, k.wide, m, t);
    }
  }

  /** The recursion is back at the move that started the cycle: its value is already in place. */
  lemma CycleClosed(pm: seq<Move>, ms: set<nat>, i: nat, j: nat, k: Cls, code: seq<Ins>)
    requires DistinctDst(pm) && i < |pm| && i !in ms && !SelfMove(pm[i])
    requires j < |pm| && j in ms && pm[j].dst == pm[i].src && (pm[i].cls.wide ==> k.wide)
    requires Pending(pm, ms, i, pm[i].src, k.wide, code)
    ensures Settled(pm, ms + {i}, code)
  {
    ProperGrows(pm, ms, i);
    forall s: Store, t: Store | Run(code, s, t) ensures Parallel(pm, ms + {i}, s, t) {
      assert Open(pm, ms, i, pm[i].src, k.wide, s, t);
    }
  }

  // ----- rega.c -----

  /** The state of the pass: the pending moves pm[0..npm) and the instructions emitted so far. */
  class MoveGen {
    var pm: seq<Move>
    var code: seq<Ins>

    constructor ()
      ensures pm == [] && code == []
    {
      pm, code := [], [];
    }

    /** emit: the buffer is filled from its end. */
    method Emit(i: Ins)
      modifies this`code
      ensures code == [i] + old(code)
    {
      code := [i] + code;
    }

    /** pmadd: false stands for die("cannot have more moves than registers"). */
    method Add(src: Loc, dst: Loc, k: Cls) returns (ok: bool)
      modifies this`pm
      ensures ok <==> |old(pm)| != MAX_MOVES
      ensures pm == if ok then old(pm) + [Move(src, dst, k)] else old(pm)
    {
      ok := |pm| != MAX_MOVES;
      if ok {
        pm := pm + [Move(src, dst, k)];
      }
    }

    static method Start(status: array<PMStat>, i: nat)
      requires i < status.Length && status[i] == ToMove
      modifies status
      ensures status[..] == old(status[..])[i := Moving]
      ensures Finished(status[..]) == old(Finished(status[..]))
      ensures Waiting(status[..]) == old(Waiting(status[..])) - {i}
    {
      status[i] := Moving;
    }

    static method Finish(status: array<PMStat>, i: nat)
      requires i < status.Length
      modifies status
      ensures status[..] == old(status[..])[i := Moved]
      ensures Finished(status[..]) == old(Finished(status[..])) + {i}
    {
      status[i] := Moved;
    }

    /** pmrec: k is the class accumulated along the chain of moves; done is the code emitted by pmgen so far. */
    method Rec(status: array<PMStat>, i: nat, k0: Cls, ghost done: seq<Ins>, ghost rest: seq<Ins>)
      returns (c: int, k: Cls, ghost emitted: seq<Ins>)
      requires DistinctDst(pm) && SameBank(pm)
      requires status.Length == |pm| && i < |pm| && status[i] == ToMove
      requires !SelfMove(pm[i]) ==> pm[i].cls.flt == k0.flt && (k0.wide ==> WideMove(pm, k0.flt))
      requires code == done + rest
      requires Settled(pm, Finished(status[..]), done) && Banked(pm, done)
      modifies status, this`code
      ensures code == emitted + rest && Banked(pm, emitted)
      ensures k.flt == k0.flt
      ensures if SelfMove(pm[i]) then k == k0 else k.wide ==> WideMove(pm, k.flt)
      ensures status[i] == Moved && Settles(old(status[..]), status[..])
      ensures k0.wide || (pm[i].cls.wide && !SelfMove(pm[i])) ==> k.wide
      ensures c == -1 || (0 <= c < |pm| && status[c] == Moving && !SelfMove(pm[i]))
      ensures c < 0 ==> Settled(pm, Finished(status[..]), emitted)
      ensures c >= 0 ==> Pending(pm, Finished(status[..]), c, pm[i].dst, k.wide, emitted)
      decreases Waiting(status[..])
    {
      hide Settled, Pending, Banked;
      k, emitted := k0, done;
      ghost var ms := Finished(status[..]);
      if pm[i].src == pm[i].dst {
        SelfDone(pm, ms, i, done);
        Finish(status, i);
        return -1, k, emitted;
      }
      assert pm[i].cls.flt == k.flt;
      k := k.Or(pm[i].cls);
      var j := Producer(i);
      var st := if j == |pm| then Moved else status[j];
      if st == Moving {
        c := j; // start of cycle
        emitted := OpenCycle(status, i, j, k, done, rest);
        return;
      }
      c := -1;
      if st == ToMove {
        Start(status, i);
        c, k, emitted := Rec(status, j, k, done, rest);
      }
      c, emitted := Unwind(status, i, j, c, k, emitted, rest);
    }

    /** The search of pmrec for the move that writes the source of move i; |pm| if there is none. */
    method Producer(i: nat) returns (j: nat)
      requires i < |pm|
      ensures j <= |pm| && (j < |pm| ==> pm[j].dst == pm[i].src)
      ensures forall j' :: 0 <= j' < j ==> pm[j'].dst != pm[i].src
    {
      j := 0;
      while j < |pm| && pm[j].dst != pm[i].src
        invariant j <= |pm| && forall j' :: 0 <= j' < j ==> pm[j'].dst != pm[i].src
      {
        j := j + 1;
      }
    }

    /** The case of pmrec that finds the start of a cycle. */
    method OpenCycle(status: array<PMStat>, i: nat, j: nat, k: Cls, ghost done: seq<Ins>, ghost rest: seq<Ins>)
      returns (ghost emitted: seq<Ins>)
      requires DistinctDst(pm) && status.Length == |pm| && i < |pm| && status[i] == ToMove && !SelfMove(pm[i])
      requires j < |pm| && status[j] == Moving && pm[j].dst == pm[i].src
      requires code == done + rest && (pm[i].cls.wide ==> k.wide)
      requires pm[i].cls.flt == k.flt && (k.wide ==> WideMove(pm, k.flt))
      requires Settled(pm, Finished(status[..]), done) && Banked(pm, done)
      modifies status, this`code
      ensures code == emitted + rest && Banked(pm, emitted)
      ensures status[..] == old(status[..])[i := Moved]
      ensures Pending(pm, Finished(status[..]), j, pm[i].dst, k.wide, emitted)
    {
      hide Settled, Pending, Banked, WideMove;
      CycleFirst(pm, Finished(status[..]), j, i, k, done);
      BankedFirst(pm, i, Swap(k, pm[i].src, pm[i].dst), done);
      Emit(Swap(k, pm[i].src, pm[i].dst));
      emitted := [Swap(k, pm[i].src, pm[i].dst)] + done;
      Finish(status, i);
    }

    /** The end of pmrec, once move j has been dealt with: c0 is what the recursive call returned. */
    method Unwind(status: array<PMStat>, i: nat, j: nat, c0: int, k: Cls, ghost before: seq<Ins>, ghost rest: seq<Ins>)
      returns (c: int, ghost emitted: seq<Ins>)
      requires DistinctDst(pm) && status.Length == |pm| && i < |pm| && status[i] != Moved && !SelfMove(pm[i])
      requires code == before + rest && Banked(pm, before) && (pm[i].cls.wide ==> k.wide)
      requires pm[i].cls.flt == k.flt && (k.wide ==> WideMove(pm, k.flt))
      requires if j < |pm| then pm[j].dst == pm[i].src && status[j] == Moved else
                 c0 == -1 && forall j' :: 0 <= j' < |pm| ==> pm[j'].dst != pm[i].src
      requires c0 == -1 || (0 <= c0 < |pm| && status[c0] == Moving)
      requires c0 < 0 ==> Settled(pm, Finished(status[..]), before)
      requires c0 >= 0 ==> Pending(pm, Finished(status[..]), c0, pm[i].src, k.wide, before)
      modifies status, this`code
      ensures code == emitted + rest && Banked(pm, emitted)
      ensures status[..] == old(status[..])[i := Moved]
      ensures c == if c0 == i then -1 else c0
      ensures c < 0 ==> Settled(pm, Finished(status[..]), emitted)
      ensures c >= 0 ==> Pending(pm, Finished(status[..]), c, pm[i].dst, k.wide, emitted)
    {
      hide Settled, Pending, Banked, WideMove;
      c, emitted := c0, before;
      ghost var ms := Finished(status[..]);
      if c == i {
        c := -1; // end of cycle
        CycleClosed(pm, ms, i, j, k, emitted);
      } else if c != -1 {
        SwapFirst(pm, ms, c, i, j, k, emitted);
        BankedFirst(pm, i, Swap(k, pm[i].src, pm[i].dst), emitted);
        Emit(Swap(k, pm[i].src, pm[i].dst));
        emitted := [Swap(k, pm[i].src, pm[i].dst)] + emitted;
      } else {
        CopyFirst(pm, ms, i, emitted);
        BankedFirst(pm, i, Copy(pm[i].cls, pm[i].dst, pm[i].src), emitted);
        Emit(Copy(pm[i].cls, pm[i].dst, pm[i].src));
        emitted := [Copy(pm[i].cls, pm[i].dst, pm[i].src)] + emitted;
      }
      Finish(status, i);
    }

    /**
     * pmgen: whatever the shape of the move graph (shared sources, chains, self-moves, cycles with
     * branches hanging off them), every run of the emitted code performs all the moves at once, and each
     * instruction carries out one of the moves in the register bank of that move.
     */
    method Gen() returns (ghost emitted: seq<Ins>)
      requires DistinctDst(pm) && SameBank(pm)
      modifies this`code
      ensures code == emitted + old(code)
      ensures forall s: Store, t: Store, m :: Run(emitted, s, t) && 0 <= m < |pm| ==>
                Agree(pm[m].cls.wide, t(pm[m].dst), s(pm[m].src))
      ensures forall s: Store, t: Store, l :: Run(emitted, s, t) && (forall m :: 0 <= m < |pm| ==> pm[m].dst != l) ==>
                t(l) == s(l)
      ensures Banked(pm, emitted)
      ensures |emitted| <= |set m: nat | m < |pm| && pm[m].src != pm[m].dst|
    {
      emitted := [];
      ghost var rest := code;
      var status := new PMStat[|pm|](_ => ToMove);
      var i := 0;
      while i < |pm|
        invariant 0 <= i <= |pm|
        invariant code == emitted + rest
        invariant forall m :: 0 <= m < |pm| ==> status[m] == Moved || (i <= m && status[m] == ToMove)
        invariant Settled(pm, Finished(status[..]), emitted) && Banked(pm, emitted)
      {
        if status[i] == ToMove {
          var _, _, e := Rec(status, i, pm[i].cls, emitted, rest);
          emitted := e;
        }
        i := i + 1;
      }
      ghost var all := Finished(status[..]);
      assert forall m: nat :: m < |pm| ==> m in all;
      assert Proper(pm, all) == set m: nat | m < |pm| && pm[m].src != pm[m].dst;
      forall s: Store, t: Store | Run(emitted, s, t) ensures Parallel(pm, all, s, t) {}
    }
  }
}
