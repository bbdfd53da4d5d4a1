/** Expansion of block copies: blit of simpl.c and the repair of overlapping blits in coalesce of mem.c. */
module BlitExpansion {

  type Memory = int -> nat

  /** A temporary holds an address, or the bytes of a load. */
  datatype Val = Ptr(addr: int) | Data(bytes: seq<nat>)

  /** Add computes an address; Load and Store move size bytes. */
  datatype Ins = Add(to: nat, base: nat, off: int) | Load(to: nat, size: nat, addr: nat) | Store(val: nat, size: nat, addr: nat)

  datatype State = State(tmp: map<nat, Val>, mem: Memory)

  ghost function Read(mem: Memory, a: int, size: nat): seq<nat> {
    seq(size, i requires 0 <= i < size => mem(a + i))
  }

  ghost function Write(mem: Memory, a: int, bytes: seq<nat>): Memory {
    x => if a <= x < a + |bytes| then bytes[x - a] else mem(x)
  }

  ghost predicate IsPtr(s: State, t: nat) {
    t in s.tmp && s.tmp[t].Ptr?
  }

  /** An instruction whose operands have the wrong kind does nothing. */
  ghost function Step(s: State, i: Ins): State {
    match i
    case Add(to, base, off) => if IsPtr(s, base) then s.(tmp := s.tmp[to := Ptr(s.tmp[base].addr + off)]) else s
    case Load(to, size, addr) => if IsPtr(s, addr) then s.(tmp := s.tmp[to := Data(Read(s.mem, s.tmp[addr].addr, size))]) else s
    case Store(val, size, addr) =>
      if IsPtr(s, addr) && val in s.tmp && s.tmp[val].Data? && |s.tmp[val].bytes| == size
      then s.(mem := Write(s.mem, s.tmp[addr].addr, s.tmp[val].bytes)) else s
  }

  ghost function Run(s: State, code: seq<Ins>): State
    decreases |code|
  {
    if code == [] then s else Run(Step(s, code[0]), code[1..])
  }

  lemma {:induction false} RunAppend(s: State, a: seq<Ins>, b: seq<Ins>)
    ensures Run(s, a + b) == Run(Run(s, a), b)
    decreases |a|
  {
    if a == [] {
      assert a + b == b;
    } else {
      assert (a + b)[1..] == a[1..] + b;
      RunAppend(Step(s, a[0]), a[1..], b);
    }
  }

  // ----- what a copy means -----

  /** The byte at x once src + lo .. src + hi has been copied to dst + lo .. dst + hi. */
  ghost function ByteMoved(before: Memory, dst: int, src: int, lo: int, hi: int, x: int): nat {
    if dst + lo <= x < dst + hi then before(src + (x - dst)) else before(x)
  }

  /** after is before with the bytes src + lo .. src + hi copied to dst + lo .. dst + hi at once. */
  ghost predicate Moved(before: Memory, after: Memory, dst: int, src: int, lo: int, hi: int) {
    forall x :: after(x) == ByteMoved(before, dst, src, lo, hi, x)
  }

  /** The temporaries below n are the same. */
  ghost predicate SameBelow(s: State, s': State, n: nat) {
    forall t: nat :: t < n ==> (t in s'.tmp <==> t in s.tmp) && (t in s.tmp ==> s'.tmp[t] == s.tmp[t])
  }

  /** The operands are addresses held in two temporaries below n. */
  ghost predicate Operands(s: State, sd: (nat, nat), n: nat, dst: int, src: int) {
    && sd.0 < n && sd.1 < n && sd.0 in s.tmp && sd.1 in s.tmp
    && s.tmp[sd.0] == Ptr(src) && s.tmp[sd.1] == Ptr(dst)
  }

  /** Whether copying n bytes in increasing (fwd) or decreasing order reads no byte it has overwritten. */
  predicate Safe(dst: int, src: int, n: nat, fwd: bool) {
    dst + n <= src || src + n <= dst || (if fwd then dst <= src else src <= dst)
  }

  /** code copies the part lo .. hi of a block of n bytes. */
  ghost predicate Copies(code: seq<Ins>, sd: (nat, nat), ntmp: nat, lo: int, hi: int, n: nat, fwd: bool) {
    forall s, dst, src :: Operands(s, sd, ntmp, dst, src) && Safe(dst, src, n, fwd) ==>
      Moved(s.mem, Run(s, code).mem, dst, src, lo, hi) && SameBelow(s, Run(s, code), ntmp)
  }

  ghost function Chunk(sd: (nat, nat), r: nat, off: int, size: nat): seq<Ins> {
    [Add(r + 2, sd.0, off), Load(r, size, r + 2), Add(r + 1, sd.1, off), Store(r, size, r + 1)]
  }

  lemma ChunkMoves(s: State, sd: (nat, nat), ntmp: nat, r: nat, off: int, size: nat, dst: int, src: int)
    requires Operands(s, sd, ntmp, dst, src) && ntmp <= r
    ensures var s' := Run(s, Chunk(sd, r, off, size));
      Moved(s.mem, s'.mem, dst, src, off, off + size) && SameBelow(s, s', ntmp)
  {
    var code := Chunk(sd, r, off, size);
    var s1 := Step(s, code[0]);
    var s2 := Step(s1, code[1]);
    var s3 := Step(s2, code[2]);
    var s4 := Step(s3, code[3]);
    assert code == [code[0]] + ([code[1]] + ([code[2]] + ([code[3]] + [])));
    assert Run(s, code) == Run(s1, code[1..]) == Run(s2, code[1..][1..]) == Run(s3, code[1..][1..][1..]) == s4;
  }

  /** Two adjacent pieces copied one after the other, the first next to what the second one copies. */
  lemma MovedTwice(m0: Memory, m1: Memory, m2: Memory, dst: int, src: int, off: int, end: int, lo: int, hi: int, n: nat,
                   fwd: bool)
    requires Moved(m0, m1, dst, src, off, end) && Moved(m1, m2, dst, src, lo, hi) && Safe(dst, src, n, fwd)
    requires 0 <= lo <= hi <= n && 0 <= off <= end <= n && if fwd then lo == end else hi == off
    ensures Moved(m0, m2, dst, src, if fwd then off else lo, if fwd then hi else end)
  {
    var a, b := if fwd then off else lo, if fwd then hi else end;
    forall x ensures m2(x) == ByteMoved(m0, dst, src, a, b, x) {
      assert m2(x) == ByteMoved(m1, dst, src, lo, hi, x) && m1(x) == ByteMoved(m0, dst, src, off, end, x);
      if dst + lo <= x < dst + hi {
        assert m1(src + (x - dst)) == m0(src + (x - dst));
      }
    }
  }

  // ----- the code of one blit -----

  /** The size of the next chunk in the table. */
  function ChunkSize(left: nat): (size: nat)
    requires left > 0
    ensures 0 < size <= left
  {
    if left >= 8 then 8 else if left >= 4 then 4 else if left >= 2 then 2 else 1
  }

  /** The code for the last left bytes of n, with temporaries from r on: the chunk emitted first runs last. */
  ghost function Expand(sd: (nat, nat), r: nat, left: nat, n: nat, fwd: bool): seq<Ins>
    requires left <= n
    decreases left
  {
    if left == 0 then [] else
    var size := ChunkSize(left);
    Expand(sd, r + 3, left - size, n, fwd) + Chunk(sd, r, if fwd then left - size else n - left, size)
  }

  lemma ExpandStep(sd: (nat, nat), r: nat, left: nat, n: nat, fwd: bool, code: seq<Ins>)
    requires 0 < left <= n
    ensures var size := ChunkSize(left);
      Expand(sd, r, left, n, fwd) + code ==
        Expand(sd, r + 3, left - size, n, fwd) + (Chunk(sd, r, if fwd then left - size else n - left, size) + code)
  {}

  /** The code of a blit. */
  ghost function BlitCode(sd: (nat, nat), r: nat, sz: int): seq<Ins> {
    var n := if sz >= 0 then sz else -sz;
    Expand(sd, r, n, n, sz >= 0)
  }

  /** In a safe order the chunks together copy the block at once. */
  lemma {:induction false} ExpandCopies(sd: (nat, nat), ntmp: nat, r: nat, left: nat, n: nat, fwd: bool)
    requires left <= n && ntmp <= r
    ensures Copies(Expand(sd, r, left, n, fwd), sd, ntmp, if fwd then 0 else n - left, if fwd then left else n, n, fwd)
    decreases left
  {
    if left > 0 {
      var size := ChunkSize(left);
      var off := if fwd then left - size else n - left;
      var rest, chunk := Expand(sd, r + 3, left - size, n, fwd), Chunk(sd, r, off, size);
      ExpandCopies(sd, ntmp, r + 3, left - size, n, fwd);
      forall s, dst, src | Operands(s, sd, ntmp, dst, src) && Safe(dst, src, n, fwd)
        ensures Moved(s.mem, Run(s, rest + chunk).mem, dst, src, if fwd then 0 else n - left, if fwd then left else n)
        ensures SameBelow(s, Run(s, rest + chunk), ntmp)
      {
        var s1 := Run(s, rest);
        RunAppend(s, rest, chunk);
        assert Operands(s1, sd, ntmp, dst, src);
        ChunkMoves(s1, sd, ntmp, r, off, size, dst, src);
        var lo, hi := if fwd then 0 else n - left + size, if fwd then left - size else n;
        MovedTwice(s.mem, s1.mem, Run(s1, chunk).mem, dst, src, lo, hi, off, off + size, n, fwd);
      }
    }
  }

  // ----- the order matters -----

  /** What one chunk does to a block is done whatever the overlap. */
  predicate OneChunk(n: nat) {
    n == 0 || n == ChunkSize(n)
  }

  /** No byte is larger than its distance from a. */
  ghost predicate Low(m: Memory, a: int) {
    forall y :: y >= a ==> m(y) <= y - a
  }

  /**
   * Upwards into a block above the source, bytes are overwritten before they are read: each byte comes from too
   * far down.
   */
  lemma {:induction false} UpwardsLags(sd: (nat, nat), ntmp: nat, r: nat, left: nat, n: nat, s: State, dst: int,
                                       src: int)
    requires left <= n && ntmp <= r && Operands(s, sd, ntmp, dst, src) && src < dst && Low(s.mem, src)
    ensures var s' := Run(s, Expand(sd, r, left, n, true));
      Low(s'.mem, src) && SameBelow(s, s', ntmp) && forall y :: dst <= y < dst + left ==> s'.mem(y) <= y - dst
    decreases left
  {
    if left > 0 {
      var size := ChunkSize(left);
      var off := left - size;
      var rest, chunk := Expand(sd, r + 3, off, n, true), Chunk(sd, r, off, size);
      UpwardsLags(sd, ntmp, r + 3, off, n, s, dst, src);
      RunAppend(s, rest, chunk);
      var s1 := Run(s, rest);
      ChunkMoves(s1, sd, ntmp, r, off, size, dst, src);
      var s2 := Run(s1, chunk);
      forall y | y >= src ensures s2.mem(y) <= y - src {
        assert s2.mem(y) == ByteMoved(s1.mem, dst, src, off, off + size, y);
      }
      forall y | dst <= y < dst + left ensures s2.mem(y) <= y - dst {
        assert s2.mem(y) == ByteMoved(s1.mem, dst, src, off, off + size, y);
      }
    }
  }

  ghost predicate High(m: Memory, a: int) {
    forall y :: m(y) >= y - a
  }

  /** Downwards into a block below the source, each byte comes from too far up. */
  lemma {:induction false} DownwardsLeads(sd: (nat, nat), ntmp: nat, r: nat, left: nat, n: nat, s: State, dst: int,
                                          src: int)
    requires left <= n && ntmp <= r && Operands(s, sd, ntmp, dst, src) && dst < src && High(s.mem, dst)
    ensures var s' := Run(s, Expand(sd, r, left, n, false));
      High(s'.mem, dst) && SameBelow(s, s', ntmp) && forall y :: dst + n - left <= y < dst + n ==>
        s'.mem(y) >= y - dst + (src - dst)
    decreases left
  {
    if left > 0 {
      var size := ChunkSize(left);
      var off := n - left;
      var rest, chunk := Expand(sd, r + 3, left - size, n, false), Chunk(sd, r, off, size);
      DownwardsLeads(sd, ntmp, r + 3, left - size, n, s, dst, src);
      RunAppend(s, rest, chunk);
      var s1 := Run(s, rest);
      ChunkMoves(s1, sd, ntmp, r, off, size, dst, src);
      var s2 := Run(s1, chunk);
      forall y ensures s2.mem(y) >= y - dst {
        assert s2.mem(y) == ByteMoved(s1.mem, dst, src, off, off + size, y);
      }
      forall y | dst + n - left <= y < dst + n ensures s2.mem(y) >= y - dst + (src - dst) {
        assert s2.mem(y) == ByteMoved(s1.mem, dst, src, off, off + size, y);
      }
    }
  }

  /** The memory in which each byte from a on holds its distance from a. */
  ghost function Numbered(a: int): Memory {
    y => if y >= a then y - a else 0
  }

  lemma UpwardsGoesWrong(sd: (nat, nat), ntmp: nat, n: nat, dst: int, src: int, s: State)
    requires src < dst < src + n && !OneChunk(n) && Operands(s, sd, ntmp, dst, src) && s.mem == Numbered(src)
    ensures !Moved(s.mem, Run(s, Expand(sd, ntmp, n, n, true)).mem, dst, src, 0, n)
  {
    var size := ChunkSize(n);
    var off := n - size;
    var rest, chunk := Expand(sd, ntmp + 3, off, n, true), Chunk(sd, ntmp, off, size);
    UpwardsLags(sd, ntmp, ntmp + 3, off, n, s, dst, src);
    RunAppend(s, rest, chunk);
    var s1 := Run(s, rest);
    ChunkMoves(s1, sd, ntmp, ntmp, off, size, dst, src);
    var k := if dst - src > off then dst - src else off;
    assert s1.mem(src + k) < k;
    assert Run(s1, chunk).mem(dst + k) == ByteMoved(s1.mem, dst, src, off, off + size, dst + k) < k;
    assert ByteMoved(s.mem, dst, src, 0, n, dst + k) == k;
  }

  lemma DownwardsGoesWrong(sd: (nat, nat), ntmp: nat, n: nat, dst: int, src: int, s: State)
    requires dst < src < dst + n && !OneChunk(n) && Operands(s, sd, ntmp, dst, src) && s.mem == Numbered(dst)
    ensures !Moved(s.mem, Run(s, Expand(sd, ntmp, n, n, false)).mem, dst, src, 0, n)
  {
    var size := ChunkSize(n);
    var rest, chunk := Expand(sd, ntmp + 3, n - size, n, false), Chunk(sd, ntmp, 0, size);
    DownwardsLeads(sd, ntmp, ntmp + 3, n - size, n, s, dst, src);
    RunAppend(s, rest, chunk);
    var s1 := Run(s, rest);
    ChunkMoves(s1, sd, ntmp, ntmp, 0, size, dst, src);
    var k := if size > src - dst then size - (src - dst) else 0;
    assert s1.mem(src + k) > src + k - dst;
    assert Run(s1, chunk).mem(dst + k) == ByteMoved(s1.mem, dst, src, 0, size, dst + k) > src + k - dst;
    assert ByteMoved(s.mem, dst, src, 0, n, dst + k) == src + k - dst;
  }

  /** The code of a blit copies the block at once, from src to dst, whatever is in memory. */
  ghost predicate AlwaysMoves(sd: (nat, nat), ntmp: nat, sz: int, dst: int, src: int) {
    var n := if sz >= 0 then sz else -sz;
    forall s :: Operands(s, sd, ntmp, dst, src) ==> Moved(s.mem, Run(s, BlitCode(sd, ntmp, sz)).mem, dst, src, 0, n)
  }

  /** The sign must fit the overlap exactly when there is more than one chunk. */
  lemma OrderMatters(sd: (nat, nat), ntmp: nat, sz: int, dst: int, src: int)
    requires sd.0 < ntmp && sd.1 < ntmp && sd.0 != sd.1
    ensures var n := if sz >= 0 then sz else -sz;
      AlwaysMoves(sd, ntmp, sz, dst, src) <==> Safe(dst, src, n, sz >= 0) || OneChunk(n)
  {
    var n: nat, fwd := if sz >= 0 then sz else -sz, sz >= 0;
    if Safe(dst, src, n, fwd) {
      ExpandCopies(sd, ntmp, ntmp, n, n, fwd);
    } else if OneChunk(n) {
      forall s | Operands(s, sd, ntmp, dst, src)
        ensures Moved(s.mem, Run(s, BlitCode(sd, ntmp, sz)).mem, dst, src, 0, n)
      {
        OneChunkMoves(sd, ntmp, sz, n, s, dst, src);
      }
    } else {
      var s := State(map[sd.0 := Ptr(src), sd.1 := Ptr(dst)], Numbered(if fwd then src else dst));
      assert Operands(s, sd, ntmp, dst, src);
      if fwd { UpwardsGoesWrong(sd, ntmp, n, dst, src, s); } else { DownwardsGoesWrong(sd, ntmp, n, dst, src, s); }
    }
  }

  lemma OneChunkMoves(sd: (nat, nat), ntmp: nat, sz: int, n: nat, s: State, dst: int, src: int)
    requires Operands(s, sd, ntmp, dst, src) && OneChunk(n) && n == if sz >= 0 then sz else -sz
    ensures Moved(s.mem, Run(s, BlitCode(sd, ntmp, sz)).mem, dst, src, 0, n)
  {
    if n > 0 {
      var chunk := Chunk(sd, ntmp, 0, n);
      assert BlitCode(sd, ntmp, sz) == [] + chunk == chunk by {
        assert Expand(sd, ntmp + 3, 0, n, sz >= 0) == [];
      }
      ChunkMoves(s, sd, ntmp, ntmp, 0, n, dst, src);
    }
  }

  // ----- blit -----

  /** The emission buffer, which is filled backwards, and the number of temporaries in use. */
  class Emitter {
    var code: seq<Ins>
    var ntmp: nat

    method Emit(i: Ins)
      modifies this`code
      ensures code == [i] + old(code)
    {
      code := [i] + code;
    }

    method NewTmp() returns (t: nat)
      modifies this`ntmp
      ensures t == old(ntmp) && ntmp == old(ntmp) + 1
    {
      t := ntmp;
      ntmp := ntmp + 1;
    }

    /** The body of the inner loop. */
    method EmitChunk(sd: (nat, nat), off: int, size: nat)
      modifies this
      ensures code == Chunk(sd, old(ntmp), off, size) + old(code) && ntmp == old(ntmp) + 3
    {
      var r := NewTmp();
      var r1 := NewTmp();
      Emit(Store(r, size, r1));
      Emit(Add(r1, sd.1, off));
      r1 := NewTmp();
      Emit(Load(r, size, r1));
      Emit(Add(r1, sd.0, off));
    }

    /**
     * blit: |sz| bytes are copied from sd.0 to sd.1 in chunks of 8, 4, 2 and 1 bytes, upwards if sz is not negative,
     * else downwards.
     */
    method Blit(sd: (nat, nat), sz: int)
      modifies this
      ensures code == BlitCode(sd, old(ntmp), sz) + old(code)
    {
      hide Expand;
      ghost var base, ntmp0 := code, ntmp;
      var tbl := [8, 4, 2, 1];
      var fwd := sz >= 0;
      var left: nat := if fwd then sz else -sz;
      ghost var n := left;
      var off := if fwd then left else 0;
      var p := 0;
      while left != 0
        invariant 0 <= p <= 4 && left <= n && off == (if fwd then left else n - left)
        invariant p > 0 ==> left < tbl[p - 1]
        invariant Expand(sd, ntmp, left, n, fwd) + code == Expand(sd, ntmp0, n, n, fwd) + base
        decreases 4 - p
      {
        var size := tbl[p];
        while left >= size
          invariant left <= n && off == (if fwd then left else n - left)
          invariant p > 0 ==> left < tbl[p - 1]
          invariant Expand(sd, ntmp, left, n, fwd) + code == Expand(sd, ntmp0, n, n, fwd) + base
        {
          ghost var r, code0 := ntmp, code;
          off := off - if fwd then size else 0;
          EmitChunk(sd, off, size);
          ExpandStep(sd, r, left, n, fwd, code0);
          off := off + if fwd then 0 else size;
          left := left - size;
        }
        p := p + 1;
      }
      NothingLeft(sd, ntmp, n, fwd);
    }
  }

  lemma NothingLeft(sd: (nat, nat), r: nat, n: nat, fwd: bool)
    ensures Expand(sd, r, 0, n, fwd) == []
  {}

  /** code copies a whole block of |sz| bytes, in the order the sign of sz asks for. */
  ghost predicate CopiesBlock(code: seq<Ins>, sd: (nat, nat), ntmp: nat, sz: int) {
    var n := if sz >= 0 then sz else -sz;
    Copies(code, sd, ntmp, 0, n, n, sz >= 0)
  }

  // ----- coalesce -----

  /** The size argument that makes blit go in a safe order: negative when the target lies above the source. */
  ghost predicate RightSign(off0: int, off1: int, sz: int, sz': int) {
    var fwd := sz' >= 0;
    (sz' == sz || sz' == -sz) && forall dst, src :: dst - src == off1 - off0 && sz >= 0 ==> Safe(dst, src, sz, fwd)
  }

  /** The last loop of coalesce, for a blit whose operands now lie at off0 and off1 of one slot. */
  method FixOverlap(off0: int, off1: int, sz: int) returns (drop: bool, sz': int)
    requires sz >= 0
    ensures drop <==> off0 == off1
    ensures !drop ==> RightSign(off0, off1, sz, sz')
  {
    drop, sz' := false, sz;
    if off0 < off1 {
      sz' := -sz;
    } else if off0 == off1 {
      drop := true;
    }
  }

  /** A block of sz bytes is copied at once inside one slot, from offset off0 to offset off1. */
  ghost predicate MovesInSlot(code: seq<Ins>, sd: (nat, nat), ntmp: nat, off0: int, off1: int, sz: nat) {
    forall s, dst, src :: Operands(s, sd, ntmp, dst, src) && dst - src == off1 - off0 ==>
      Moved(s.mem, Run(s, code).mem, dst, src, 0, sz)
  }

  lemma BlitCopies(sd: (nat, nat), ntmp: nat, sz: int)
    ensures CopiesBlock(BlitCode(sd, ntmp, sz), sd, ntmp, sz)
  {
    var n: nat := if sz >= 0 then sz else -sz;
    ExpandCopies(sd, ntmp, ntmp, n, n, sz >= 0);
  }

  lemma RightSignMoves(code: seq<Ins>, sd: (nat, nat), ntmp: nat, off0: int, off1: int, sz: nat, sz': int)
    requires CopiesBlock(code, sd, ntmp, sz') && RightSign(off0, off1, sz, sz')
    ensures MovesInSlot(code, sd, ntmp, off0, off1, sz)
  {
    var fwd := sz' >= 0;
    assert Copies(code, sd, ntmp, 0, sz, sz, fwd);
    forall s, dst, src | Operands(s, sd, ntmp, dst, src) && dst - src == off1 - off0
      ensures Moved(s.mem, Run(s, code).mem, dst, src, 0, sz)
    {
      assert Safe(dst, src, sz, fwd);
    }
  }

  /** The repaired and expanded blit is a memmove whichever way its operands overlap in the fused slot. */
  method FusedBlit(e: Emitter, sd: (nat, nat), off0: int, off1: int, sz: nat)
    requires sd.0 < e.ntmp && sd.1 < e.ntmp
    modifies e
    ensures exists new' :: e.code == new' + old(e.code) && MovesInSlot(new', sd, old(e.ntmp), off0, off1, sz)
  {
    ghost var base, n0 := e.code, e.ntmp;
    var drop, sz' := FixOverlap(off0, off1, sz);
    if drop {
      assert e.code == [] + base;
      assert MovesInSlot([], sd, n0, off0, off1, sz);
    } else {
      e.Blit(sd, sz');
      BlitCopies(sd, n0, sz');
      RightSignMoves(BlitCode(sd, n0, sz'), sd, n0, off0, off1, sz, sz');
    }
  }
}
