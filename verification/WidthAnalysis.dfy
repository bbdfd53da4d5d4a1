/** How many bits a value has: bitwidth and defwidthle of copy.c. */
module WidthAnalysis {
  import opened Ir
  import opened Words

  // ----- bitwidth -----

  /** One line of bitwidth: the upper half counts if it is not zero. */
  function Half(v: nat, n: nat, k: nat): (nat, nat) {
    if v / Pow2(k) > 0 then (v / Pow2(k), n + k) else (v, n)
  }

  function BitWidth(v: nat): nat {
    var (v1, n1) := Half(v, 0, 32);
    var (v2, n2) := Half(v1, n1, 16);
    var (v3, n3) := Half(v2, n2, 8);
    var (v4, n4) := Half(v3, n3, 4);
    var (v5, n5) := Half(v4, n4, 2);
    var (v6, n6) := Half(v5, n5, 1);
    n6 + v6
  }

  /** v0 has n bits below v, and v has at most k bits. */
  ghost predicate Split(v0: nat, v: nat, n: nat, k: nat) {
    v == v0 / Pow2(n) && v < Pow2(k) && (n > 0 ==> v > 0)
  }

  lemma HalfSplits(v0: nat, v: nat, n: nat, k: nat)
    requires Split(v0, v, n, k + k)
    ensures Split(v0, Half(v, n, k).0, Half(v, n, k).1, k)
  {
    assert Pow2(k + k) == Pow2(k) * Pow2(k) by { Pow2Add(k, k); }
    assert Pow2(n + k) == Pow2(n) * Pow2(k) by { Pow2Add(n, k); }
    HalfQuotient(v0, v, Pow2(n), Pow2(k));
  }

  lemma HalfQuotient(v0: nat, v: nat, q: nat, p: nat)
    requires q > 0 && p > 0 && v == v0 / q && v < p * p
    ensures q * p > 0 && v / p == v0 / (q * p) && v / p < p
    ensures v / p == 0 ==> v < p
  {
    DivDiv(v0, q, p);
    DivBound(v, p, p);
    if v / p == 0 { DivZero(v, p); }
  }

  /** bitwidth is the least width: v fits in w bits if and only if bitwidth(v) <= w. */
  lemma BitWidthExact(v: nat, w: nat)
    requires v < LONG
    ensures BitWidth(v) <= w <==> v < Pow2(w)
  {
    Pow2Values();
    assert Pow2(0) == 1;
    var (v1, n1) := Half(v, 0, 32);
    HalfSplits(v, v, 0, 32);
    var (v2, n2) := Half(v1, n1, 16);
    HalfSplits(v, v1, n1, 16);
    var (v3, n3) := Half(v2, n2, 8);
    HalfSplits(v, v2, n2, 8);
    var (v4, n4) := Half(v3, n3, 4);
    HalfSplits(v, v3, n3, 4);
    var (v5, n5) := Half(v4, n4, 2);
    HalfSplits(v, v4, n4, 2);
    var (v6, n6) := Half(v5, n5, 1);
    HalfSplits(v, v5, n5, 1);
    LastBit(v, v6, n6, w);
  }

  lemma LastBit(v: nat, b: nat, n: nat, w: nat)
    requires Split(v, b, n, 1) && Pow2(1) == 2
    ensures n + b <= w <==> v < Pow2(w)
  {
    DivMul(v, Pow2(n));
    assert Pow2(n + 1) == 2 * Pow2(n);
    if b == 0 {
      assert n == 0 && Pow2(0) == 1 && v == 0;
    } else {
      assert Pow2(n) <= v < Pow2(n + 1);
      if n + 1 <= w { Pow2Monotone(n + 1, w); } else { Pow2Monotone(w, n); }
    }
  }

  // ----- defwidthle -----

  /** What defines a temporary; Ext is extsb, extub, extsh or extuh, with 8 or 16 bits. */
  datatype Def =
    | PhiDef(args: seq<Ref>)
    | Copy(a: Ref)
    | Shr(a: Ref, n: Ref)
    | Sar(a: Ref, n: Ref)
    | Cmp
    | And(a: Ref, b: Ref)
    | Or(a: Ref, b: Ref)
    | Xor(a: Ref, b: Ref)
    | Ext(zext: bool, bits: nat, a: Ref)
    | Other

  /** word[t] tells that t has class Kw. */
  datatype Func = Func(def: seq<Def>, word: seq<bool>) {
    ghost predicate Valid() {
      && |def| == |word|
      && forall t: nat :: t < |def| ==> DefOk(t)
    }

    ghost predicate DefOk(t: nat)
      requires t < |def|
    {
      && (forall u: nat :: Operand(t, u) ==> u < |def|)
      && (def[t].Ext? ==> def[t].bits == 8 || def[t].bits == 16)
    }

    /** t is computed from u. */
    predicate Operand(t: nat, u: nat)
      requires t < |def|
    {
      match def[t]
      case PhiDef(args) => Tmp(u) in args
      case Copy(a) => a == Tmp(u)
      case Shr(a, n) => a == Tmp(u) || n == Tmp(u)
      case Sar(a, n) => a == Tmp(u) || n == Tmp(u)
      case And(a, b) => a == Tmp(u) || b == Tmp(u)
      case Or(a, b) => a == Tmp(u) || b == Tmp(u)
      case Xor(a, b) => a == Tmp(u) || b == Tmp(u)
      case Ext(_, _, a) => a == Tmp(u)
      case Cmp => false
      case Other => false
    }
  }

  /** There is no cycle of operands without a phi. */
  ghost predicate Ranked(f: Func, rank: seq<nat>)
    requires f.Valid()
  {
    |rank| == |f.def| && forall t: nat, u: nat :: t < |f.def| && !f.def[t].PhiDef? && f.Operand(t, u) && u < |rank| ==> rank[u] < rank[t]
  }

  ghost function RefRank(rank: seq<nat>, r: Ref): nat {
    if r.Tmp? && r.t < |rank| then rank[r.t] + 1 else 0
  }

  ghost function Unvisited(f: Func, visit: set<nat>): set<nat> {
    set t: nat | t < |f.def| && t !in visit
  }

  /** An operand of t is defined, and comes before t unless t is a phi. */
  lemma UseOk(f: Func, rank: seq<nat>, t: nat, r: Ref)
    requires f.Valid() && Ranked(f, rank) && t < |f.def| && (r.Tmp? ==> f.Operand(t, r.t))
    ensures RefOk(f, r) && (!f.def[t].PhiDef? ==> RefRank(rank, r) < RefRank(rank, Tmp(t)))
  {
    assert f.DefOk(t);
  }

  lemma PhiArgsOk(f: Func, rank: seq<nat>, t: nat)
    requires f.Valid() && Ranked(f, rank) && t < |f.def| && f.def[t].PhiDef?
    ensures forall k :: 0 <= k < |f.def[t].args| ==> RefOk(f, f.def[t].args[k])
  {
    forall k | 0 <= k < |f.def[t].args| ensures RefOk(f, f.def[t].args[k]) {
      assert f.def[t].args[k] in f.def[t].args;
      UseOk(f, rank, t, f.def[t].args[k]);
    }
  }

  predicate RefOk(f: Func, r: Ref) {
    r.Tmp? ==> r.t < |f.def|
  }

  function Min(a: nat, b: nat): nat { if a < b then a else b }

  /** The unsigned value of a 64-bit constant. */
  function Bits(v: int): nat { v % LONG }

  /** The width at which the operand of a constant shift is asked about. */
  function ShiftedWidth(w: nat, n: Ref, top: nat): nat {
    if n.Con? && 0 < Bits(n.v) <= 32 && w < 32 then Min(top, w + Bits(n.v)) else w
  }

  /** defwidthle; visit holds the phis that are being looked at, which are taken to be narrow. */
  function DefWidthLe(f: Func, ghost rank: seq<nat>, r: Ref, w: nat, visit: set<nat>): bool
    requires f.Valid() && Ranked(f, rank) && RefOk(f, r)
    decreases Unvisited(f, visit), RefRank(rank, r)
  {
    if r.Con? && BitWidth(Bits(r.v)) <= w then true
    else if !r.Tmp? then false
    else
      var t := r.t;
      assert f.DefOk(t);
      if !f.word[t] then false else
      match f.def[t]
      case PhiDef(args) =>
        if t in visit then true else
        assert t in Unvisited(f, visit) && t !in Unvisited(f, visit + {t});
        PhiArgsOk(f, rank, t);
        forall k :: 0 <= k < |args| ==> DefWidthLe(f, rank, args[k], w, visit + {t})
      case Copy(a) => UseOk(f, rank, t, a); DefWidthLe(f, rank, a, w, visit)
      case Shr(a, n) =>
        if n.Con? && 0 < Bits(n.v) <= 32 && w + Bits(n.v) >= 32 then true
        else UseOk(f, rank, t, a); DefWidthLe(f, rank, a, ShiftedWidth(w, n, 32), visit)
      case Sar(a, n) => UseOk(f, rank, t, a); DefWidthLe(f, rank, a, ShiftedWidth(w, n, 31), visit)
      case Cmp => w >= 1
      case And(a, b) =>
        UseOk(f, rank, t, a); UseOk(f, rank, t, b);
        DefWidthLe(f, rank, a, w, visit) || DefWidthLe(f, rank, b, w, visit)
      case Or(a, b) =>
        UseOk(f, rank, t, a); UseOk(f, rank, t, b);
        DefWidthLe(f, rank, a, w, visit) && DefWidthLe(f, rank, b, w, visit)
      case Xor(a, b) =>
        UseOk(f, rank, t, a); UseOk(f, rank, t, b);
        DefWidthLe(f, rank, a, w, visit) && DefWidthLe(f, rank, b, w, visit)
      case Ext(zext, bits, a) =>
        if zext && bits <= w then true
        else UseOk(f, rank, t, a); DefWidthLe(f, rank, a, Min(w, if zext then bits else bits - 1), visit)
      case Other => false
  }

  // ----- execution -----

  /** The temporaries assigned so far. */
  type Store = map<nat, nat>

  predicate Has(s: Store, r: Ref) {
    r.Tmp? ==> r.t in s
  }

  /** The low 32 bits of an operand. */
  function Word(s: Store, r: Ref): nat
    requires Has(s, r)
  {
    match r
    case Tmp(t) => s[t] % WORD
    case Con(v) => Bits(v) % WORD
    case R => 0
    case Undef => 0
  }

  /** The logical right shift. */
  function Shifted(x: nat, n: nat): (q: nat)
    ensures q <= x
  {
    DivSmaller(x, Pow2(n));
    x / Pow2(n)
  }

  /** The arithmetic right shift of a word. */
  function SarWord(x: nat, n: nat): nat
    requires x < WORD
  {
    if x < 0x8000_0000 then Shifted(x, n) else WORD - 1 - Shifted(WORD - 1 - x, n)
  }

  /** Sign extension of the low bits. */
  function SignExtend(x: nat, bits: nat): nat
    requires bits == 8 || bits == 16
  {
    Pow2Values();
    var low := x % Pow2(bits);
    if low < Pow2(bits - 1) then low else WORD - Pow2(bits) + low
  }

  /** x can be the low word of a new value of t. */
  ghost predicate Computes(f: Func, s: Store, t: nat, x: nat)
    requires f.Valid() && t < |f.def|
  {
    assert f.DefOk(t);
    match f.def[t]
    case PhiDef(args) => exists k :: 0 <= k < |args| && Has(s, args[k]) && x == Word(s, args[k])
    case Copy(a) => Has(s, a) && x == Word(s, a)
    case Shr(a, n) => Has(s, a) && Has(s, n) && x == Shifted(Word(s, a), Word(s, n) % 32)
    case Sar(a, n) => Has(s, a) && Has(s, n) && x == SarWord(Word(s, a), Word(s, n) % 32)
    case Cmp => x == 0 || x == 1
    case And(a, b) => Has(s, a) && Has(s, b) && x == Bitwise(AndBit(), 32, Word(s, a), Word(s, b))
    case Or(a, b) => Has(s, a) && Has(s, b) && x == Bitwise(OrBit(), 32, Word(s, a), Word(s, b))
    case Xor(a, b) => Has(s, a) && Has(s, b) && x == Bitwise(XorBit(), 32, Word(s, a), Word(s, b))
    case Ext(zext, bits, a) => Has(s, a) && x == if zext then Word(s, a) % Pow2(bits) else SignExtend(Word(s, a), bits)
    case Other => true
  }

  /** Some temporaries are assigned at once: one for an instruction, all the phis of a block on entry. */
  ghost predicate Step(f: Func, s: Store, s': Store)
    requires f.Valid()
  {
    s.Keys <= s'.Keys && forall t :: t in s' && t < |f.def| ==> Kept(s, s', t) || (f.word[t] ==>
      Computes(f, s, t, s'[t] % WORD))
  }

  predicate Kept(s: Store, s': Store, t: nat)
    requires t in s'
  {
    t in s && s'[t] == s[t]
  }

  /** An execution: every store on the way. */
  ghost predicate Trace(f: Func, tr: seq<Store>)
    requires f.Valid()
  {
    |tr| > 0 && tr[0] == map[] && forall i :: 0 < i < |tr| ==> Step(f, tr[i - 1], tr[i])
  }

  // ----- one definition -----

  lemma ShiftedFits(x: nat, n: nat, w: nat)
    requires x < Pow2(w + n)
    ensures Shifted(x, n) < Pow2(w)
  {
    assert Pow2(w + n) == Pow2(w) * Pow2(n) by { Pow2Add(w, n); }
    DivBound(x, Pow2(n), Pow2(w));
  }

  /** A bit of the result needs one in the operands. */
  lemma {:induction false} BitwiseFits(op: (nat, nat) -> nat, n: nat, x: nat, y: nat, w: nat)
    requires forall a: nat, b: nat :: op(a, b) <= 1
    requires op(0, 0) == 0 && x < Pow2(w) && y < Pow2(w)
    ensures Bitwise(op, n, x, y) < Pow2(w)
    decreases n
  {
    if n > 0 && w > 0 {
      BitwiseFits(op, n - 1, x / 2, y / 2, w - 1);
    } else if n > 0 {
      BitwiseFits(op, n - 1, 0, 0, 0);
    }
  }

  lemma {:induction false} AndFits(n: nat, x: nat, y: nat, w: nat)
    requires x < Pow2(w) || y < Pow2(w)
    ensures Bitwise(AndBit(), n, x, y) < Pow2(w)
    decreases n
  {
    if n > 0 && w > 0 {
      AndFits(n - 1, x / 2, y / 2, w - 1);
    } else if n > 0 {
      AndFits(n - 1, x / 2, y / 2, 0);
    }
  }

  lemma SignExtendNarrow(x: nat, bits: nat)
    requires (bits == 8 || bits == 16) && x < Pow2(bits - 1)
    ensures SignExtend(x, bits) == x
  {
    Pow2Values();
    ModSmaller(x, Pow2(bits));
  }

  // ----- facts and what supports them -----

  /** The pairs (t, w) for which t is known to have at most w bits. */
  type Facts = set<(nat, nat)>

  ghost predicate Covers(g: Facts, r: Ref, w: nat) {
    match r
    case Con(v) => Bits(v) < Pow2(w)
    case Tmp(t) => exists w': nat :: w' <= w && (t, w') in g
    case R => false
    case Undef => false
  }

  ghost predicate ConstShift(n: Ref) {
    n.Con? && 0 < Bits(n.v) < 32
  }

  /**
   * Why t has at most w bits, given the facts about its operands; clear: sign extensions of values without the
   * sign bit.
   */
  ghost predicate Local(f: Func, clear: set<nat>, g: Facts, t: nat, w: nat) {
    && t < |f.def| == |f.word| && f.word[t]
    && match f.def[t]
       case PhiDef(args) => forall k :: 0 <= k < |args| ==> Covers(g, args[k], w)
       case Copy(a) => Covers(g, a, w)
       case Shr(a, n) => w >= 32 || Covers(g, a, w) || (ConstShift(n) && (w + Bits(n.v) >= 32 || Covers(g, a, w + Bits(n.v))))
       case Sar(a, n) => w >= 32 || Covers(g, a, Min(w, 31)) || (ConstShift(n) && Covers(g, a, Min(31, w + Bits(n.v))))
       case Cmp => w >= 1
       case And(a, b) => Covers(g, a, w) || Covers(g, b, w)
       case Or(a, b) => Covers(g, a, w) && Covers(g, b, w)
       case Xor(a, b) => Covers(g, a, w) && Covers(g, b, w)
       case Ext(zext, bits, a) =>
         bits > 0 && ((zext && bits <= w) || (t in clear && bits - 1 <= w) || Covers(g, a, Min(w, if zext then bits else bits - 1)))
       case Other => false
  }

  /** In s, the operand of each of these sign extensions does not have the sign bit. */
  ghost predicate ClearIn(f: Func, clear: set<nat>, s: Store)
    requires f.Valid()
  {
    forall e :: e in clear ==> e < |f.def| && SignExt(f, e) && (Has(s, f.def[e].a) ==>
      SignBitClear(f, e, Word(s, f.def[e].a)))
  }

  ghost predicate SignExt(f: Func, e: nat)
    requires e < |f.def|
  {
    f.def[e].Ext? && !f.def[e].zext
  }

  ghost predicate SignBitClear(f: Func, e: nat, x: nat)
    requires e < |f.def| && f.def[e].Ext? && f.DefOk(e)
  {
    x % Pow2(f.def[e].bits) < Pow2(f.def[e].bits - 1)
  }

  /** The facts hold of what has been assigned. */
  ghost predicate Holds(g: Facts, s: Store) {
    forall t: nat, w: nat :: (t, w) in g && t in s ==> s[t] % WORD < Pow2(w)
  }

  lemma CoveredWord(g: Facts, s: Store, r: Ref, w: nat)
    requires Holds(g, s) && Covers(g, r, w) && Has(s, r)
    ensures Word(s, r) < Pow2(w)
  {
    match r {
      case Con(v) => ModSmaller(Bits(v), WORD);
      case Tmp(t) =>
        var w': nat :| w' <= w && (t, w') in g;
        Pow2Monotone(w', w);
      case R => assert false;
      case Undef => assert false;
    }
  }

  lemma WideEnough(x: nat, w: nat)
    requires x < WORD && w >= 32
    ensures x < Pow2(w)
  {
    Pow2Values();
    Pow2Monotone(32, w);
  }

  lemma ConstShiftCount(s: Store, n: Ref)
    requires ConstShift(n)
    ensures Has(s, n) && Word(s, n) % 32 == Bits(n.v)
  {
    ModSmaller(Bits(n.v), WORD);
    ModSmaller(Bits(n.v), 32);
  }

  lemma ShiftLocal(g: Facts, s: Store, a: Ref, n: Ref, w: nat)
    requires Holds(g, s) && Has(s, a) && Has(s, n)
    requires w >= 32 || Covers(g, a, w) || (ConstShift(n) && (w + Bits(n.v) >= 32 || Covers(g, a, w + Bits(n.v))))
    ensures Shifted(Word(s, a), Word(s, n) % 32) < Pow2(w)
  {
    var x := Word(s, a);
    if w >= 32 {
      WideEnough(x, w);
    } else if Covers(g, a, w) {
      CoveredWord(g, s, a, w);
    } else {
      var v := Bits(n.v);
      ConstShiftCount(s, n);
      if w + v >= 32 { WideEnough(x, w + v); } else { CoveredWord(g, s, a, w + v); }
      ShiftedFits(x, v, w);
    }
  }

  lemma SarFits(x: nat, n: nat, m: nat, w: nat)
    requires x < WORD && x < Pow2(m) && m <= 31 && m <= w + n
    ensures SarWord(x, n) < Pow2(w)
  {
    assert Pow2(31) == 0x8000_0000 by { Pow2Values(); }
    Pow2Monotone(m, 31);
    Pow2Monotone(m, w + n);
    ShiftedFits(x, n, w);
  }

  lemma SarLocal(g: Facts, s: Store, a: Ref, n: Ref, w: nat)
    requires Holds(g, s) && Has(s, a) && Has(s, n)
    requires w >= 32 || Covers(g, a, Min(w, 31)) || (ConstShift(n) && Covers(g, a, Min(31, w + Bits(n.v))))
    ensures SarWord(Word(s, a), Word(s, n) % 32) < Pow2(w)
  {
    var x, k := Word(s, a), Word(s, n) % 32;
    if w >= 32 {
      WideEnough(SarWord(x, k), w);
    } else if Covers(g, a, Min(w, 31)) {
      CoveredWord(g, s, a, Min(w, 31));
      SarFits(x, k, Min(w, 31), w);
    } else {
      ConstShiftCount(s, n);
      CoveredWord(g, s, a, Min(31, w + k));
      SarFits(x, k, Min(31, w + k), w);
    }
  }

  lemma ExtLocal(g: Facts, s: Store, zext: bool, bits: nat, a: Ref, w: nat)
    requires Holds(g, s) && Has(s, a) && (bits == 8 || bits == 16)
    requires (zext && bits <= w) || Covers(g, a, Min(w, if zext then bits else bits - 1))
    ensures (if zext then Word(s, a) % Pow2(bits) else SignExtend(Word(s, a), bits)) < Pow2(w)
  {
    var x := Word(s, a);
    var m := Min(w, if zext then bits else bits - 1);
    if zext { ModSmaller(x, Pow2(bits)); }
    if zext && bits <= w {
      Pow2Monotone(bits, w);
    } else {
      CoveredWord(g, s, a, m);
      Pow2Monotone(m, w);
      if !zext {
        Pow2Monotone(m, bits - 1);
        SignExtendNarrow(x, bits);
      }
    }
  }

  /** A supported fact holds of a newly computed value. */
  lemma LocalSound(f: Func, clear: set<nat>, g: Facts, s: Store, t: nat, w: nat, x: nat)
    requires f.Valid() && Holds(g, s) && ClearIn(f, clear, s) && Local(f, clear, g, t, w) && Computes(f, s, t, x)
    ensures x < Pow2(w)
  {
    assert f.DefOk(t);
    if f.def[t].Ext? {
      ExtSound(f, clear, g, s, t, w);
    } else {
      hide ClearIn;
      OtherSound(f, g, s, t, w, x, clear);
    }
  }

  lemma ExtSound(f: Func, clear: set<nat>, g: Facts, s: Store, t: nat, w: nat)
    requires f.Valid() && Holds(g, s) && ClearIn(f, clear, s) && Local(f, clear, g, t, w)
    requires f.def[t].Ext? && f.DefOk(t) && Has(s, f.def[t].a)
    ensures var d, x := f.def[t], Word(s, f.def[t].a); (if d.zext then x % Pow2(d.bits) else SignExtend(x, d.bits)) < Pow2(w)
  {
    var d := f.def[t];
    if t in clear && d.bits - 1 <= w {
      assert SignExt(f, t) && SignBitClear(f, t, Word(s, d.a));
      Pow2Monotone(d.bits - 1, w);
    } else {
      ExtLocal(g, s, d.zext, d.bits, d.a, w);
    }
  }

  lemma OtherSound(f: Func, g: Facts, s: Store, t: nat, w: nat, x: nat, clear: set<nat>)
    requires f.Valid() && Holds(g, s) && Local(f, clear, g, t, w) && Computes(f, s, t, x) && !f.def[t].Ext?
    ensures x < Pow2(w)
  {
    match f.def[t] {
      case PhiDef(args) =>
        var k :| 0 <= k < |args| && Has(s, args[k]) && x == Word(s, args[k]);
        CoveredWord(g, s, args[k], w);
      case Copy(a) => CoveredWord(g, s, a, w);
      case Shr(a, n) => ShiftLocal(g, s, a, n, w);
      case Sar(a, n) => SarLocal(g, s, a, n, w);
      case Cmp => Pow2Monotone(1, w); Pow2Values();
      case And(a, b) =>
        if Covers(g, a, w) { CoveredWord(g, s, a, w); } else { CoveredWord(g, s, b, w); }
        AndFits(32, Word(s, a), Word(s, b), w);
      case Or(a, b) =>
        CoveredWord(g, s, a, w);
        CoveredWord(g, s, b, w);
        BitwiseFits(OrBit(), 32, Word(s, a), Word(s, b), w);
      case Xor(a, b) =>
        CoveredWord(g, s, a, w);
        CoveredWord(g, s, b, w);
        BitwiseFits(XorBit(), 32, Word(s, a), Word(s, b), w);
      case Other => assert false;
    }
  }

  ghost predicate Supported(f: Func, clear: set<nat>, g: Facts, a: Facts) {
    forall t: nat, w: nat :: (t, w) in g ==> Local(f, clear, g + a, t, w)
  }

  /** In every execution, also around phi cycles, r has at most w bits. */
  ghost predicate Right(f: Func, r: Ref, w: nat)
    requires f.Valid()
  {
    forall tr :: Trace(f, tr) && Has(tr[|tr| - 1], r) ==> Word(tr[|tr| - 1], r) < Pow2(w)
  }

  /** No execution gives the operand of the sign extension e the sign bit. */
  ghost predicate AlwaysClear(f: Func, e: nat)
    requires f.Valid()
  {
    forall tr :: Trace(f, tr) ==> ClearIn(f, {e}, tr[|tr| - 1])
  }

  lemma ClearInAll(f: Func, clear: set<nat>, tr: seq<Store>)
    requires f.Valid() && Trace(f, tr) && forall e :: e in clear ==> AlwaysClear(f, e)
    ensures ClearIn(f, clear, tr[|tr| - 1])
  {
    forall e | e in clear ensures ClearIn(f, {e}, tr[|tr| - 1]) {
      assert AlwaysClear(f, e);
    }
  }

  /** Facts that support each other hold in every execution. */
  lemma {:induction false} SupportedHolds(f: Func, clear: set<nat>, g: Facts, tr: seq<Store>)
    requires f.Valid() && Supported(f, clear, g, {}) && Trace(f, tr) && forall e :: e in clear ==> AlwaysClear(f, e)
    ensures Holds(g, tr[|tr| - 1])
    decreases |tr|
  {
    var n := |tr| - 1;
    if n > 0 {
      SupportedHolds(f, clear, g, tr[..n]);
      ClearInAll(f, clear, tr[..n]);
      var s, s' := tr[n - 1], tr[n];
      assert Step(f, s, s') && g + {} == g;
      forall t: nat, w: nat | (t, w) in g && t in s' ensures s'[t] % WORD < Pow2(w) {
        assert Local(f, clear, g, t, w);
        if !Kept(s, s', t) { LocalSound(f, clear, g, s, t, w, s'[t] % WORD); }
      }
    }
  }

  // ----- what a positive answer proves -----

  /**
   * The condition on a run of defwidthle that answers yes; a holds the phis in progress and the widths they were asked
   * about. No phi is met again at a smaller width, and no word shifted by the constant 32 is judged by that count.
   * Nothing is asked of the operands of the sign extensions in clear.
   */
  ghost predicate Steady(f: Func, rank: seq<nat>, clear: set<nat>, r: Ref, w: nat, a: map<nat, nat>)
    requires f.Valid() && Ranked(f, rank) && RefOk(f, r)
    decreases Unvisited(f, a.Keys), RefRank(rank, r)
  {
    r.Tmp? && f.DefOk(r.t) && f.word[r.t] ==>
      var t := r.t;
      match f.def[t]
      case PhiDef(args) =>
        if t in a then a[t] <= w else
        assert t in Unvisited(f, a.Keys) && t !in Unvisited(f, a[t := w].Keys);
        PhiArgsOk(f, rank, t);
        forall k :: 0 <= k < |args| ==> Steady(f, rank, clear, args[k], w, a[t := w])
      case Copy(x) => UseOk(f, rank, t, x); Steady(f, rank, clear, x, w, a)
      case Shr(x, n) =>
        UseOk(f, rank, t, x);
        if n.Con? && 0 < Bits(n.v) <= 32 && w + Bits(n.v) >= 32 then Bits(n.v) == 32 ==> w >= 32
        else Steady(f, rank, clear, x, ShiftedWidth(w, n, 32), a)
      case Sar(x, n) =>
        UseOk(f, rank, t, x);
        (n.Con? && Bits(n.v) == 32 ==> w >= 31) && Steady(f, rank, clear, x, ShiftedWidth(w, n, 31), a)
      case Cmp => true
      case And(x, y) =>
        UseOk(f, rank, t, x); UseOk(f, rank, t, y);
        Steady(f, rank, clear, if DefWidthLe(f, rank, x, w, a.Keys) then x else y, w, a)
      case Or(x, y) =>
        UseOk(f, rank, t, x); UseOk(f, rank, t, y);
        Steady(f, rank, clear, x, w, a) && Steady(f, rank, clear, y, w, a)
      case Xor(x, y) =>
        UseOk(f, rank, t, x); UseOk(f, rank, t, y);
        Steady(f, rank, clear, x, w, a) && Steady(f, rank, clear, y, w, a)
      case Ext(zext, bits, x) =>
        UseOk(f, rank, t, x);
        (zext && bits <= w) || (!zext && t in clear && bits - 1 <= w) ||
        Steady(f, rank, clear, x, Min(w, if zext then bits else bits - 1), a)
      case Other => true
  }

  ghost function Items(a: map<nat, nat>): Facts {
    set t | t in a :: (t, a[t])
  }

  lemma CoversMore(g: Facts, g': Facts, r: Ref, w: nat)
    requires g <= g' && Covers(g, r, w)
    ensures Covers(g', r, w)
  {
    if r.Tmp? {
      var w': nat :| w' <= w && (r.t, w') in g;
      assert (r.t, w') in g';
    }
  }

  lemma LocalMore(f: Func, clear: set<nat>, g: Facts, g': Facts, t: nat, w: nat)
    requires g <= g' && Local(f, clear, g, t, w)
    ensures Local(f, clear, g', t, w)
  {
    forall r: Ref, v: nat | Covers(g, r, v) ensures Covers(g', r, v) {
      CoversMore(g, g', r, v);
    }
  }

  lemma Union(f: Func, clear: set<nat>, g1: Facts, g2: Facts, a: Facts)
    requires Supported(f, clear, g1, a) && Supported(f, clear, g2, a)
    ensures Supported(f, clear, g1 + g2, a)
  {
    forall t: nat, w: nat | (t, w) in g1 + g2 ensures Local(f, clear, g1 + g2 + a, t, w) {
      LocalMore(f, clear, if (t, w) in g1 then g1 + a else g2 + a, g1 + g2 + a, t, w);
    }
  }

  lemma AddFact(f: Func, clear: set<nat>, g: Facts, a: Facts, t: nat, w: nat)
    requires Supported(f, clear, g, a) && Local(f, clear, g + a, t, w)
    ensures Supported(f, clear, g + {(t, w)}, a) && Covers(g + {(t, w)} + a, Tmp(t), w)
  {
    var g' := g + {(t, w)};
    forall u: nat, v: nat | (u, v) in g' ensures Local(f, clear, g' + a, u, v) {
      LocalMore(f, clear, g + a, g' + a, u, v);
    }
    assert (t, w) in g' + a;
  }

  /** A positive answer comes with facts that support it, given those about the phis in progress. */
  lemma {:induction false} Extract(f: Func, rank: seq<nat>, clear: set<nat>, r: Ref, w: nat, a: map<nat, nat>)
    returns (g: Facts)
    requires f.Valid() && Ranked(f, rank) && RefOk(f, r)
    requires Steady(f, rank, clear, r, w, a) && DefWidthLe(f, rank, r, w, a.Keys)
    ensures Supported(f, clear, g, Items(a)) && Covers(g + Items(a), r, w)
    decreases Unvisited(f, a.Keys), RefRank(rank, r), 1
  {
    g := {};
    if r.Con? {
      BitWidthExact(Bits(r.v), w);
    } else {
      var t := r.t;
      assert f.DefOk(t);
      if f.def[t].PhiDef? {
        if t in a {
          assert (t, a[t]) in g + Items(a);
        } else {
          g := ExtractPhi(f, rank, clear, t, w, a);
        }
      } else {
        g := ExtractIns(f, rank, clear, t, w, a);
      }
    }
  }

  lemma {:induction false} ExtractPhi(f: Func, rank: seq<nat>, clear: set<nat>, t: nat, w: nat, a: map<nat, nat>)
    returns (g: Facts)
    requires f.Valid() && Ranked(f, rank) && t < |f.def| && f.def[t].PhiDef? && t !in a
    requires Steady(f, rank, clear, Tmp(t), w, a) && DefWidthLe(f, rank, Tmp(t), w, a.Keys)
    ensures Supported(f, clear, g, Items(a)) && Covers(g + Items(a), Tmp(t), w)
    decreases Unvisited(f, a.Keys), RefRank(rank, Tmp(t)), 0
  {
    hide Ranked;
    var args := f.def[t].args;
    var a' := a[t := w];
    assert f.DefOk(t);
    assert a'.Keys == a.Keys + {t};
    assert t in Unvisited(f, a.Keys) && t !in Unvisited(f, a'.Keys);
    PhiArgsOk(f, rank, t);
    g := {};
    for k := 0 to |args|
      invariant Supported(f, clear, g, Items(a'))
      invariant forall l :: 0 <= l < k ==> Covers(g + Items(a'), args[l], w)
    {
      var h := Extract(f, rank, clear, args[k], w, a');
      Union(f, clear, g, h, Items(a'));
      forall l | 0 <= l < k + 1 ensures Covers(g + h + Items(a'), args[l], w) {
        CoversMore(if l < k then g + Items(a') else h + Items(a'), g + h + Items(a'), args[l], w);
      }
      g := g + h;
    }
    assert g + Items(a') == g + {(t, w)} + Items(a);
    g := g + {(t, w)};
    assert (t, w) in g + Items(a);
  }

  lemma {:induction false} ExtractIns(f: Func, rank: seq<nat>, clear: set<nat>, t: nat, w: nat, a: map<nat, nat>)
    returns (g: Facts)
    requires f.Valid() && Ranked(f, rank) && t < |f.def| && !f.def[t].PhiDef?
    requires Steady(f, rank, clear, Tmp(t), w, a) && DefWidthLe(f, rank, Tmp(t), w, a.Keys)
    ensures Supported(f, clear, g, Items(a)) && Covers(g + Items(a), Tmp(t), w)
    decreases Unvisited(f, a.Keys), RefRank(rank, Tmp(t)), 0
  {
    assert f.DefOk(t);
    g := {};
    match f.def[t] {
      case Copy(x) =>
        UseOk(f, rank, t, x);
        g := Extract(f, rank, clear, x, w, a);
      case Shr(_, _) => g := ExtractShift(f, rank, clear, t, w, a);
      case Sar(_, _) => g := ExtractShift(f, rank, clear, t, w, a);
      case And(x, y) =>
        UseOk(f, rank, t, x);
        UseOk(f, rank, t, y);
        g := Extract(f, rank, clear, if DefWidthLe(f, rank, x, w, a.Keys) then x else y, w, a);
      case Or(x, y) =>
        UseOk(f, rank, t, x);
        UseOk(f, rank, t, y);
        g := ExtractBoth(f, rank, clear, t, w, a, x, y);
      case Xor(x, y) =>
        UseOk(f, rank, t, x);
        UseOk(f, rank, t, y);
        g := ExtractBoth(f, rank, clear, t, w, a, x, y);
      case Ext(zext, bits, x) =>
        UseOk(f, rank, t, x);
        if !(zext && bits <= w) && !(!zext && t in clear && bits - 1 <= w) {
          g := Extract(f, rank, clear, x, Min(w, if zext then bits else bits - 1), a);
        }
      case Cmp =>
    }
    AddFact(f, clear, g, Items(a), t, w);
    g := g + {(t, w)};
  }

  lemma {:induction false} ExtractShift(f: Func, rank: seq<nat>, clear: set<nat>, t: nat, w: nat, a: map<nat, nat>)
    returns (g: Facts)
    requires f.Valid() && Ranked(f, rank) && t < |f.def| && (f.def[t].Shr? || f.def[t].Sar?)
    requires Steady(f, rank, clear, Tmp(t), w, a) && DefWidthLe(f, rank, Tmp(t), w, a.Keys)
    ensures Supported(f, clear, g, Items(a)) && Local(f, clear, g + Items(a), t, w)
    decreases Unvisited(f, a.Keys), RefRank(rank, Tmp(t)), 0, 0
  {
    var x, n := f.def[t].a, f.def[t].n;
    assert f.DefOk(t);
    UseOk(f, rank, t, x);
    g := {};
    if f.def[t].Sar? {
      g := Extract(f, rank, clear, x, ShiftedWidth(w, n, 31), a);
    } else if !(n.Con? && 0 < Bits(n.v) <= 32 && w + Bits(n.v) >= 32) {
      g := Extract(f, rank, clear, x, ShiftedWidth(w, n, 32), a);
    }
  }

  lemma {:induction false} ExtractBoth(f: Func, rank: seq<nat>, clear: set<nat>, t: nat, w: nat, a: map<nat, nat>,
                                       x: Ref, y: Ref)
    returns (g: Facts)
    requires f.Valid() && Ranked(f, rank) && t < |f.def| && !f.def[t].PhiDef?
    requires (x.Tmp? ==> f.Operand(t, x.t)) && (y.Tmp? ==> f.Operand(t, y.t)) && RefOk(f, x) && RefOk(f, y)
    requires Steady(f, rank, clear, x, w, a) && Steady(f, rank, clear, y, w, a)
    requires DefWidthLe(f, rank, x, w, a.Keys) && DefWidthLe(f, rank, y, w, a.Keys)
    ensures Supported(f, clear, g, Items(a)) && Covers(g + Items(a), x, w) && Covers(g + Items(a), y, w)
    decreases Unvisited(f, a.Keys), RefRank(rank, Tmp(t)), 0, 0
  {
    UseOk(f, rank, t, x);
    UseOk(f, rank, t, y);
    g := Extract(f, rank, clear, x, w, a);
    var h := Extract(f, rank, clear, y, w, a);
    Union(f, clear, g, h, Items(a));
    CoversMore(g + Items(a), g + h + Items(a), x, w);
    CoversMore(h + Items(a), g + h + Items(a), y, w);
    g := g + h;
  }

  /**
   * defwidthle is right: in every execution, also around phi cycles, a value accepted by a steady run has at
   * most w bits.
   */
  lemma DefWidthLeSound(f: Func, rank: seq<nat>, clear: set<nat>, r: Ref, w: nat)
    requires f.Valid() && Ranked(f, rank) && RefOk(f, r) && DefWidthLe(f, rank, r, w, {})
    requires Steady(f, rank, clear, r, w, map[]) && forall e :: e in clear ==> AlwaysClear(f, e)
    ensures Right(f, r, w)
  {
    var a: map<nat, nat> := map[];
    assert a.Keys == {};
    var g := Extract(f, rank, clear, r, w, a);
    assert Items(a) == {} && g + {} == g;
    forall tr | Trace(f, tr) && Has(tr[|tr| - 1], r) ensures Word(tr[|tr| - 1], r) < Pow2(w) {
      SupportedHolds(f, clear, g, tr);
      CoveredWord(g, tr[|tr| - 1], r, w);
    }
  }

  // ----- a condition that can be read off the function -----

  predicate Link(f: Func, a: nat, b: nat) {
    a < |f.def| && f.Operand(a, b)
  }

  ghost predicate IsChain(f: Func, p: seq<nat>) {
    |p| > 0 && forall i :: 0 < i < |p| ==> Link(f, p[i - 1], p[i])
  }

  /** b is computed into a, directly or through others. */
  ghost predicate Reaches(f: Func, a: nat, b: nat) {
    exists p :: IsChain(f, p) && p[0] == a && p[|p| - 1] == b
  }

  lemma ReachesSelf(f: Func, a: nat)
    ensures Reaches(f, a, a)
  {
    assert IsChain(f, [a]);
  }

  lemma ReachesBefore(f: Func, a: nat, b: nat, c: nat)
    requires a < |f.def| && f.Operand(a, b) && Reaches(f, b, c)
    ensures Reaches(f, a, c)
  {
    var p :| IsChain(f, p) && p[0] == b && p[|p| - 1] == c;
    assert IsChain(f, [a] + p);
    assert ([a] + p)[|p|] == c;
  }

  lemma ReachesAfter(f: Func, a: nat, b: nat, c: nat)
    requires b < |f.def| && Reaches(f, a, b) && f.Operand(b, c)
    ensures Reaches(f, a, c)
  {
    var p :| IsChain(f, p) && p[0] == a && p[|p| - 1] == b;
    assert IsChain(f, p + [c]);
    assert (p + [c])[|p|] == c;
  }

  lemma ReachesTrans(f: Func, a: nat, b: nat, c: nat)
    requires Reaches(f, a, b) && Reaches(f, b, c)
    ensures Reaches(f, a, c)
  {
    var p :| IsChain(f, p) && p[0] == a && p[|p| - 1] == b;
    var q :| IsChain(f, q) && q[0] == b && q[|q| - 1] == c;
    var r := p + q[1..];
    forall i | 0 < i < |r| ensures Link(f, r[i - 1], r[i]) {
      if i >= |p| { assert Link(f, q[i - |p|], q[i - |p| + 1]); }
    }
    assert IsChain(f, r) && r[0] == a && r[|r| - 1] == c;
  }

  predicate ConShift(d: Def) {
    (d.Shr? || d.Sar?) && d.n.Con?
  }

  /** A sign extension of a word on a cycle, which then goes through a phi. */
  ghost predicate OnCycle(f: Func, t: nat)
    requires |f.word| == |f.def|
  {
    t < |f.def| && f.word[t] && SignExt(f, t) && exists u: nat :: f.def[t].a == Tmp(u) && Reaches(f, u, t)
  }

  /**
   * No word is shifted by the constant 32. Where a sign extension lies on a phi cycle, it does not narrow the queried
   * width, and no word is shifted by a constant.
   */
  ghost predicate Tame(f: Func, w: nat) {
    && |f.word| == |f.def|
    && (forall t: nat :: t < |f.def| && f.word[t] && ConShift(f.def[t]) ==> Bits(f.def[t].n.v) != 32)
    && (forall t: nat :: OnCycle(f, t) ==>
          w < f.def[t].bits && forall u: nat :: u < |f.def| && f.word[u] ==> !ConShift(f.def[u]))
  }

  /** Every phi in progress was asked about at a width that is not above any at which it can be met again. */
  ghost predicate NotNarrowed(f: Func, a: map<nat, nat>, r: Ref, w: nat) {
    r.Tmp? ==> forall p :: p in a ==> Reaches(f, p, r.t) && (Reaches(f, r.t, p) ==> a[p] <= w)
  }

  lemma StaysWide(f: Func, a: map<nat, nat>, t: nat, w: nat, r: Ref, w': nat)
    requires f.Valid() && Tame(f, w) && t < |f.def| && NotNarrowed(f, a, Tmp(t), w) && (r.Tmp? ==> f.Operand(t, r.t))
    requires w <= w' || (f.word[t] && SignExt(f, t) && w' == f.def[t].bits - 1 && f.def[t].a == r)
    ensures NotNarrowed(f, a, r, w')
  {
    if r.Tmp? {
      forall p | p in a ensures Reaches(f, p, r.t) && (Reaches(f, r.t, p) ==> a[p] <= w') {
        ReachesAfter(f, p, t, r.t);
        if Reaches(f, r.t, p) {
          ReachesBefore(f, t, r.t, p);
          ReachesTrans(f, r.t, p, t);
        }
      }
    }
  }

  /** On a tame function, a phi is never met at a smaller width. */
  lemma {:induction false} TameIsSteady(f: Func, rank: seq<nat>, r: Ref, w: nat, a: map<nat, nat>)
    requires f.Valid() && Ranked(f, rank) && RefOk(f, r) && Tame(f, w) && NotNarrowed(f, a, r, w)
    ensures Steady(f, rank, {}, r, w, a)
    decreases Unvisited(f, a.Keys), RefRank(rank, r), 1
  {
    if r.Tmp? && f.DefOk(r.t) && f.word[r.t] {
      var t := r.t;
      match f.def[t] {
        case PhiDef(args) => if t in a { ReachesSelf(f, t); } else { TamePhi(f, rank, t, w, a); }
        case Copy(x) => TameOperand(f, rank, t, w, x, w, a);
        case Shr(x, n) => TameOperand(f, rank, t, w, x, ShiftedWidth(w, n, 32), a);
        case Sar(x, n) => if w < 32 || !n.Con? { TameOperand(f, rank, t, w, x, ShiftedWidth(w, n, 31), a); }
          else { TameOperand(f, rank, t, w, x, w, a); }
        case And(x, y) => TameOperand(f, rank, t, w, x, w, a); TameOperand(f, rank, t, w, y, w, a);
        case Or(x, y) => TameOperand(f, rank, t, w, x, w, a); TameOperand(f, rank, t, w, y, w, a);
        case Xor(x, y) => TameOperand(f, rank, t, w, x, w, a); TameOperand(f, rank, t, w, y, w, a);
        case Ext(zext, bits, x) =>
          if !(zext && bits <= w) { TameOperand(f, rank, t, w, x, Min(w, if zext then bits else bits - 1), a); }
        case Cmp =>
        case Other =>
      }
    }
  }

  lemma {:induction false} TamePhi(f: Func, rank: seq<nat>, t: nat, w: nat, a: map<nat, nat>)
    requires f.Valid() && Ranked(f, rank) && t < |f.def| && f.def[t].PhiDef? && t !in a && Tame(f, w)
    requires NotNarrowed(f, a, Tmp(t), w)
    ensures Steady(f, rank, {}, Tmp(t), w, a)
    decreases Unvisited(f, a.Keys), RefRank(rank, Tmp(t)), 0
  {
    var args, a' := f.def[t].args, a[t := w];
    assert t in Unvisited(f, a.Keys) && t !in Unvisited(f, a'.Keys);
    PhiArgsOk(f, rank, t);
    forall k | 0 <= k < |args| ensures Steady(f, rank, {}, args[k], w, a') {
      assert args[k] in args;
      StaysWide(f, a, t, w, args[k], w);
      ReachesSelf(f, t);
      if args[k].Tmp? { ReachesAfter(f, t, t, args[k].t); }
      TameIsSteady(f, rank, args[k], w, a');
    }
  }

  lemma {:induction false} TameOperand(f: Func, rank: seq<nat>, t: nat, w: nat, r: Ref, w': nat, a: map<nat, nat>)
    requires f.Valid() && Ranked(f, rank) && t < |f.def| && !f.def[t].PhiDef? && f.word[t] && Tame(f, w)
    requires NotNarrowed(f, a, Tmp(t), w)
    requires r.Tmp? ==> f.Operand(t, r.t)
    requires w' == w || (w <= w' && ConShift(f.def[t])) || (w' < w && SignExt(f, t) && w' == f.def[t].bits - 1 && f.def[t].a == r)
    ensures RefOk(f, r) && Steady(f, rank, {}, r, w', a)
    decreases Unvisited(f, a.Keys), RefRank(rank, Tmp(t)), 0
  {
    UseOk(f, rank, t, r);
    StaysWide(f, a, t, w, r, w');
    TameIsSteady(f, rank, r, w', a);
  }

  /** So the answers about a tame function are right. */
  lemma TameIsRight(f: Func, rank: seq<nat>, r: Ref, w: nat)
    requires f.Valid() && Ranked(f, rank) && RefOk(f, r) && Tame(f, w) && DefWidthLe(f, rank, r, w, {})
    ensures Right(f, r, w)
  {
    TameIsSteady(f, rank, r, w, map[]);
    DefWidthLeSound(f, rank, {}, r, w);
  }

  // ----- a positive answer must come -----

  lemma CoversWider(g: Facts, r: Ref, w: nat, w': nat)
    requires Covers(g, r, w) && w <= w'
    ensures Covers(g, r, w')
  {
    if r.Con? { Pow2Monotone(w, w'); }
  }

  /** The facts say something about words. */
  ghost predicate AllNarrow(g: Facts) {
    forall t: nat, w: nat :: (t, w) in g ==> w < 32
  }

  /** What supports a fact about t at w' supports every query about t at w. */
  lemma {:induction false} AnswersYes(f: Func, rank: seq<nat>, g: Facts, r: Ref, w: nat, visit: set<nat>)
    requires f.Valid() && Ranked(f, rank) && RefOk(f, r) && Supported(f, {}, g, {}) && Covers(g, r, w)
    requires w < 32 || AllNarrow(g)
    ensures DefWidthLe(f, rank, r, w, visit)
    decreases Unvisited(f, visit), RefRank(rank, r), 2
  {
    if r.Con? {
      BitWidthExact(Bits(r.v), w);
    } else {
      var t := r.t;
      var w': nat :| w' <= w && (t, w') in g;
      assert g + {} == g;
      assert Local(f, {}, g, t, w') && f.DefOk(t);
      if f.def[t].PhiDef? {
        AnswersPhi(f, rank, g, t, w, w', visit);
      } else if f.def[t].Shr? || f.def[t].Sar? {
        AnswersShift(f, rank, g, t, w, w', visit);
      } else {
        AnswersIns(f, rank, g, t, w, w', visit);
      }
    }
  }

  lemma {:induction false} AnswersPhi(f: Func, rank: seq<nat>, g: Facts, t: nat, w: nat, w': nat, visit: set<nat>)
    requires f.Valid() && Ranked(f, rank) && t < |f.def| && f.def[t].PhiDef? && Supported(f, {}, g, {})
    requires w' <= w && Local(f, {}, g, t, w') && (w < 32 || AllNarrow(g))
    ensures DefWidthLe(f, rank, Tmp(t), w, visit)
    decreases Unvisited(f, visit), RefRank(rank, Tmp(t)), 1
  {
    var args := f.def[t].args;
    if t !in visit {
      assert t in Unvisited(f, visit) && t !in Unvisited(f, visit + {t});
      PhiArgsOk(f, rank, t);
      forall k | 0 <= k < |args| ensures DefWidthLe(f, rank, args[k], w, visit + {t}) {
        CoversWider(g, args[k], w', w);
        AnswersYes(f, rank, g, args[k], w, visit + {t});
      }
    }
  }

  lemma {:induction false} AnswersShift(f: Func, rank: seq<nat>, g: Facts, t: nat, w: nat, w': nat, visit: set<nat>)
    requires f.Valid() && Ranked(f, rank) && t < |f.def| && (f.def[t].Shr? || f.def[t].Sar?) && Supported(f, {}, g, {})
    requires w' <= w && Local(f, {}, g, t, w') && (w < 32 || AllNarrow(g)) && w' < 32
    ensures DefWidthLe(f, rank, Tmp(t), w, visit)
    decreases Unvisited(f, visit), RefRank(rank, Tmp(t)), 1
  {
    var a, n := f.def[t].a, f.def[t].n;
    UseOk(f, rank, t, a);
    assert f.DefOk(t);
    var v := ShiftedWidth(w, n, if f.def[t].Shr? then 32 else 31);
    var v' := if Covers(g, a, w') then w' else if f.def[t].Shr? then w' + Bits(n.v) else Min(31, w' + Bits(n.v));
    if f.def[t].Sar? || !n.Con? || Bits(n.v) == 0 || Bits(n.v) > 32 || w + Bits(n.v) < 32 {
      CoversWider(g, a, v', v);
      AnswersYes(f, rank, g, a, v, visit);
    }
  }

  lemma {:induction false} AnswersIns(f: Func, rank: seq<nat>, g: Facts, t: nat, w: nat, w': nat, visit: set<nat>)
    requires f.Valid() && Ranked(f, rank) && t < |f.def| && Supported(f, {}, g, {})
    requires !f.def[t].PhiDef? && !f.def[t].Shr? && !f.def[t].Sar?
    requires w' <= w && Local(f, {}, g, t, w') && (w < 32 || AllNarrow(g))
    ensures DefWidthLe(f, rank, Tmp(t), w, visit)
    decreases Unvisited(f, visit), RefRank(rank, Tmp(t)), 1
  {
    assert f.DefOk(t);
    match f.def[t] {
      case Copy(a) => AnswersOperand(f, rank, g, t, a, w', w, visit);
      case Cmp =>
      case And(a, b) =>
        UseOk(f, rank, t, a);
        UseOk(f, rank, t, b);
        AnswersOperand(f, rank, g, t, if Covers(g, a, w') then a else b, w', w, visit);
      case Or(a, b) =>
        AnswersOperand(f, rank, g, t, a, w', w, visit);
        AnswersOperand(f, rank, g, t, b, w', w, visit);
      case Xor(a, b) =>
        AnswersOperand(f, rank, g, t, a, w', w, visit);
        AnswersOperand(f, rank, g, t, b, w', w, visit);
      case Ext(zext, bits, a) =>
        if !zext || bits > w {
          var top := if zext then bits else bits - 1;
          AnswersOperand(f, rank, g, t, a, Min(w', top), Min(w, top), visit);
        }
    }
  }

  lemma {:induction false} AnswersOperand(f: Func, rank: seq<nat>, g: Facts, t: nat, a: Ref, v: nat, w: nat,
                                          visit: set<nat>)
    requires f.Valid() && Ranked(f, rank) && t < |f.def| && Supported(f, {}, g, {}) && (a.Tmp? ==> f.Operand(t, a.t))
    requires !f.def[t].PhiDef? && v <= w && Covers(g, a, v) && (w < 32 || AllNarrow(g))
    ensures RefOk(f, a) && RefRank(rank, a) < RefRank(rank, Tmp(t)) && DefWidthLe(f, rank, a, w, visit)
    decreases Unvisited(f, visit), RefRank(rank, Tmp(t)), 0
  {
    UseOk(f, rank, t, a);
    CoversWider(g, a, v, w);
    AnswersYes(f, rank, g, a, w, visit);
  }

  /**
   * On a tame function defwidthle answers yes exactly when there are facts that support each other, around phi cycles
   * included, and bound r: an `and` needs one narrow operand, an `or` both, a comparison one bit, and so on.
   */
  lemma DefWidthLeExact(f: Func, rank: seq<nat>, r: Ref, w: nat)
    requires f.Valid() && Ranked(f, rank) && RefOk(f, r) && Tame(f, w) && w < 32
    ensures DefWidthLe(f, rank, r, w, {}) <==> exists g: Facts :: Supported(f, {}, g, {}) && Covers(g, r, w)
  {
    if DefWidthLe(f, rank, r, w, {}) {
      var a: map<nat, nat> := map[];
      TameIsSteady(f, rank, r, w, a);
      assert a.Keys == {};
      var g := Extract(f, rank, {}, r, w, a);
      assert Items(a) == {} && g + {} == g;
    } else if g: Facts :| Supported(f, {}, g, {}) && Covers(g, r, w) {
      AnswersYes(f, rank, g, r, w, {});
      assert false;
    }
  }

  // ----- where the condition fails -----

  /** Assigning one temporary. */
  lemma Assign(f: Func, s: Store, t: nat, x: nat)
    requires f.Valid() && t < |f.def| && x < WORD && Computes(f, s, t, x)
    ensures Step(f, s, s[t := x])
    ensures forall tr :: Trace(f, tr) && tr[|tr| - 1] == s ==> Trace(f, tr + [s[t := x]])
  {
    var s' := s[t := x];
    ModSmaller(x, WORD);
    forall u | u in s' && u < |f.def| ensures Kept(s, s', u) || (f.word[u] ==> Computes(f, s, u, s'[u] % WORD)) {
      assert u != t ==> Kept(s, s', u);
    }
  }

  /** Where the last value of t comes from. */
  lemma {:induction false} Origin(f: Func, tr: seq<Store>, t: nat) returns (i: nat)
    requires f.Valid() && Trace(f, tr) && t < |f.def| && f.word[t] && t in tr[|tr| - 1]
    ensures i < |tr| - 1 && Computes(f, tr[i], t, tr[|tr| - 1][t] % WORD)
    decreases |tr|
  {
    var n := |tr| - 1;
    assert Step(f, tr[n - 1], tr[n]);
    if Kept(tr[n - 1], tr[n], t) {
      assert Trace(f, tr[..n]);
      i := Origin(f, tr[..n], t);
    } else {
      i := n - 1;
    }
  }

  /** A value that can be computed next is within the width, if the answer for t is right. */
  lemma RightNext(f: Func, tr: seq<Store>, t: nat, x: nat, w: nat)
    requires f.Valid() && Trace(f, tr) && t < |f.def| && x < WORD && Computes(f, tr[|tr| - 1], t, x)
    requires Right(f, Tmp(t), w)
    ensures x < Pow2(w)
  {
    var s := tr[|tr| - 1];
    Assign(f, s, t, x);
    var tr' := tr + [s[t := x]];
    assert Trace(f, tr') && tr'[|tr'| - 1] == s[t := x];
    ModSmaller(x, WORD);
  }

  ghost predicate WordShift(f: Func, t: nat, a: Ref)
    requires f.Valid()
  {
    t < |f.def| && f.word[t] && (exists v: int :: Bits(v) == 32 && (f.def[t] == Shr(a, Con(v)) || f.def[t] == Sar(a, Con(v))))
  }

  /** The count 32 of a word is 0: the shift changes nothing. */
  lemma ShiftBy32Copies(f: Func, s: Store, t: nat, a: Ref, x: nat)
    requires f.Valid() && WordShift(f, t, a) && Has(s, a)
    ensures Computes(f, s, t, x) <==> x == Word(s, a)
  {
    var v: int :| Bits(v) == 32 && (f.def[t] == Shr(a, Con(v)) || f.def[t] == Sar(a, Con(v)));
    assert Word(s, Con(v)) == 32 && Word(s, Con(v)) % 32 == 0;
    assert f.DefOk(t) && Shifted(Word(s, a), 0) == Word(s, a) && SarWord(Word(s, a), 0) == Word(s, a);
  }

  lemma ShiftRight(f: Func, t: nat, a: Ref, w: nat)
    requires f.Valid() && WordShift(f, t, a)
    ensures Right(f, Tmp(t), w) <==> Right(f, a, w)
  {
    if Right(f, Tmp(t), w) {
      forall tr | Trace(f, tr) && Has(tr[|tr| - 1], a) ensures Word(tr[|tr| - 1], a) < Pow2(w) {
        var x := Word(tr[|tr| - 1], a);
        ShiftBy32Copies(f, tr[|tr| - 1], t, a, x);
        RightNext(f, tr, t, x, w);
      }
    }
    if Right(f, a, w) {
      forall tr | Trace(f, tr) && Has(tr[|tr| - 1], Tmp(t)) ensures Word(tr[|tr| - 1], Tmp(t)) < Pow2(w) {
        var i := Origin(f, tr, t);
        assert Trace(f, tr[..i + 1]) && Has(tr[i], a);
        ShiftBy32Copies(f, tr[i], t, a, tr[|tr| - 1][t] % WORD);
      }
    }
  }

  /**
   * A logical shift of a word by the constant 32 is taken to be zero: it is accepted at every width. The answer is right
   * exactly when the answer is right for the operand, and for arithmetic shifts too.
   */
  lemma ShiftBy32Exact(f: Func, rank: seq<nat>, t: nat, a: Ref, w: nat, visit: set<nat>)
    requires f.Valid() && Ranked(f, rank) && WordShift(f, t, a)
    ensures f.def[t].Shr? ==> DefWidthLe(f, rank, Tmp(t), w, visit)
    ensures f.def[t].Sar? ==> RefOk(f, a) && (DefWidthLe(f, rank, Tmp(t), w, visit) <==>
      DefWidthLe(f, rank, a, if w < 32 then 31 else w, visit))
    ensures Right(f, Tmp(t), w) <==> Right(f, a, w)
  {
    assert f.DefOk(t);
    UseOk(f, rank, t, a);
    ShiftRight(f, t, a, w);
  }

  /** b receives the word of a unchanged. */
  ghost predicate Carries(f: Func, a: nat, b: nat)
    requires |f.word| == |f.def|
  {
    b < |f.def| && f.word[b] && match f.def[b] { case PhiDef(args) => Tmp(a) in args case Copy(x) => x == Tmp(a) case _ => false }
  }

  /** Through phis and copies, t receives the word of e. */
  ghost predicate Feeds(f: Func, q: seq<nat>, e: nat, t: nat)
    requires |f.word| == |f.def|
  {
    |q| > 0 && q[0] == e && q[|q| - 1] == t && forall i :: 0 < i < |q| ==> Carries(f, q[i - 1], q[i])
  }

  lemma {:induction false} FeedsRight(f: Func, q: seq<nat>, e: nat, t: nat, w: nat)
    requires f.Valid() && Feeds(f, q, e, t) && Right(f, Tmp(t), w)
    ensures Right(f, Tmp(e), w)
    decreases |q|
  {
    if |q| > 1 {
      var b := q[1];
      assert Carries(f, e, b);
      FeedsRight(f, q[1..], b, t, w);
      forall tr | Trace(f, tr) && Has(tr[|tr| - 1], Tmp(e)) ensures Word(tr[|tr| - 1], Tmp(e)) < Pow2(w) {
        var s, x := tr[|tr| - 1], Word(tr[|tr| - 1], Tmp(e));
        assert Computes(f, s, b, x) by {
          if f.def[b].PhiDef? {
            var k :| 0 <= k < |f.def[b].args| && f.def[b].args[k] == Tmp(e);
            assert Has(s, f.def[b].args[k]) && x == Word(s, f.def[b].args[k]);
          }
        }
        RightNext(f, tr, b, x, w);
      }
    }
  }

  lemma SignExtendBig(x: nat, bits: nat, w: nat)
    requires (bits == 8 || bits == 16) && x % Pow2(bits) >= Pow2(bits - 1) && w < 32
    ensures Pow2(w) <= SignExtend(x, bits) < WORD
  {
    Pow2Values();
    Pow2Monotone(w, 31);
  }

  /** The word of a sign extension has fewer than 32 bits only if its operand never has the sign bit. */
  lemma SignExtRight(f: Func, e: nat, w: nat)
    requires f.Valid() && e < |f.def| && SignExt(f, e) && w < 32 && Right(f, Tmp(e), w)
    ensures AlwaysClear(f, e)
  {
    assert f.DefOk(e);
    var d := f.def[e];
    forall tr | Trace(f, tr) ensures ClearIn(f, {e}, tr[|tr| - 1]) {
      var s := tr[|tr| - 1];
      if Has(s, d.a) && !SignBitClear(f, e, Word(s, d.a)) {
        var x := SignExtend(Word(s, d.a), d.bits);
        SignExtendBig(Word(s, d.a), d.bits, w);
        RightNext(f, tr, e, x, w);
      }
    }
  }

  /**
   * When a phi is met again at a smaller width because of the sign extensions in clear, and for no other reason, and
   * phis and copies carry these to the temporary asked about, then the positive answer is right exactly when no
   * execution gives the operand of one of them the sign bit.
   */
  lemma NarrowedPhiExact(f: Func, rank: seq<nat>, clear: set<nat>, t: nat, w: nat)
    requires f.Valid() && Ranked(f, rank) && t < |f.def| && w < 32 && DefWidthLe(f, rank, Tmp(t), w, {})
    requires Steady(f, rank, clear, Tmp(t), w, map[])
    requires forall e :: e in clear ==> e < |f.def| && SignExt(f, e) && exists q :: Feeds(f, q, e, t)
    ensures Right(f, Tmp(t), w) <==> forall e :: e in clear ==> AlwaysClear(f, e)
  {
    if Right(f, Tmp(t), w) {
      forall e | e in clear ensures AlwaysClear(f, e) {
        var q :| Feeds(f, q, e, t);
        FeedsRight(f, q, e, t, w);
        SignExtRight(f, e, w);
      }
    }
    if forall e :: e in clear ==> AlwaysClear(f, e) {
      DefWidthLeSound(f, rank, clear, Tmp(t), w);
    }
  }

  /** A function whose only shift is by 32: its result is accepted as zero, but is not. */
  lemma ShiftBy32GoesWrong(f: Func, rank: seq<nat>)
    requires f == Func([Other, Shr(Tmp(0), Con(32))], [true, true]) && rank == [0, 1]
    ensures f.Valid() && Ranked(f, rank) && DefWidthLe(f, rank, Tmp(1), 0, {}) && !Right(f, Tmp(1), 0)
  {
    assert f.DefOk(0) && f.DefOk(1) && Bits(32) == 32 && WordShift(f, 1, Tmp(0));
    ShiftBy32Exact(f, rank, 1, Tmp(0), 0, {});
    if Right(f, Tmp(0), 0) {
      assert Trace(f, [map[]]) && Computes(f, map[], 0, 5);
      RightNext(f, [map[]], 0, 5, 0);
      assert false;
    }
  }

  /** A phi of c and its own sign extension. */
  predicate PhiOfExtension(f: Func, rank: seq<nat>, c: nat) {
    && |f.def| == 2 && f.word == [true, true] && rank == [0, 1] && c < LONG
    && f.def[0] == PhiDef([Con(c), Tmp(1)]) && f.def[1] == Ext(false, 8, Tmp(0))
  }

  lemma PhiOfExtensionValid(f: Func, rank: seq<nat>, c: nat)
    requires PhiOfExtension(f, rank, c)
    ensures f.Valid() && Ranked(f, rank)
  {
    assert f.DefOk(0) && f.DefOk(1);
  }

  /** It is accepted at every width that c fits in. */
  lemma PhiOfExtensionAccepted(f: Func, rank: seq<nat>, c: nat, w: nat)
    requires PhiOfExtension(f, rank, c) && c < Pow2(w)
    ensures f.Valid() && Ranked(f, rank) && DefWidthLe(f, rank, Tmp(0), w, {})
  {
    PhiOfExtensionValid(f, rank, c);
    LoopAccepted(f, rank, {0}, w);
    ConAccepted(f, rank, c, w);
    hide DefWidthLe, Ranked;
    PhiAccepted(f, rank, 0, w);
  }

  lemma ConAccepted(f: Func, rank: seq<nat>, c: nat, w: nat)
    requires f.Valid() && Ranked(f, rank) && c < LONG && c < Pow2(w)
    ensures DefWidthLe(f, rank, Con(c), w, {0})
  {
    hide BitWidth, Pow2, Ranked;
    BitWidthExact(c, w);
    ModSmaller(c, LONG);
  }

  lemma PhiAccepted(f: Func, rank: seq<nat>, t: nat, w: nat)
    requires f.Valid() && Ranked(f, rank) && t < |f.def| && f.word[t] && f.def[t].PhiDef?
    requires forall k :: 0 <= k < |f.def[t].args| ==>
      RefOk(f, f.def[t].args[k]) && DefWidthLe(f, rank, f.def[t].args[k], w, {t})
    ensures DefWidthLe(f, rank, Tmp(t), w, {})
  {
    assert {} + {t} == {t} && f.DefOk(t);
  }

  /** Inside the phi, its extension is accepted at once. */
  lemma LoopAccepted(f: Func, rank: seq<nat>, visit: set<nat>, w: nat)
    requires f.Valid() && Ranked(f, rank) && |f.def| == 2 && f.word == [true, true] && 0 in visit
    requires f.def[0].PhiDef? && f.def[1] == Ext(false, 8, Tmp(0))
    ensures DefWidthLe(f, rank, Tmp(1), w, visit)
  {
    assert f.DefOk(0) && f.DefOk(1);
    UseOk(f, rank, 1, Tmp(0));
    assert DefWidthLe(f, rank, Tmp(0), Min(w, 7), visit);
  }

  /** Above 7 bits the phi is met again at a smaller width, and with 128 it grows wider. */
  lemma NarrowedPhiGoesWrong(f: Func, rank: seq<nat>)
    requires PhiOfExtension(f, rank, 128)
    ensures f.Valid() && Ranked(f, rank) && DefWidthLe(f, rank, Tmp(0), 8, {}) && !Right(f, Tmp(0), 8)
  {
    assert 128 < Pow2(8) by { Pow2Values(); }
    PhiOfExtensionAccepted(f, rank, 128, 8);
    hide DefWidthLe, Ranked;
    if Right(f, Tmp(0), 8) {
      assert Carries(f, 1, 0) && Feeds(f, [1, 0], 1, 0);
      FeedsRight(f, [1, 0], 1, 0, 8);
      SignExtRight(f, 1, 8);
      Phi128(f, rank);
      assert false;
    }
  }

  /** The phi can be 128. */
  lemma Phi128(f: Func, rank: seq<nat>)
    requires PhiOfExtension(f, rank, 128) && f.Valid()
    ensures !AlwaysClear(f, 1)
  {
    assert f.DefOk(0) && f.DefOk(1);
    var s0: Store := map[];
    assert Trace(f, [s0]) && Has(s0, f.def[0].args[0]) && Word(s0, f.def[0].args[0]) == 128;
    Assign(f, s0, 0, 128);
    var tr := [s0] + [s0[0 := 128]];
    assert Trace(f, tr) && Word(tr[1], Tmp(0)) == 128;
    assert !SignBitClear(f, 1, 128) by { Pow2Values(); }
  }

  /** At 7 bits the extension is found redundant, and it is. */
  lemma LoopCarriedExtension(f: Func, rank: seq<nat>, c: nat)
    requires PhiOfExtension(f, rank, c) && c < 128
    ensures f.Valid() && Ranked(f, rank) && DefWidthLe(f, rank, Tmp(0), 7, {}) && Right(f, Tmp(0), 7)
  {
    assert c < Pow2(7) by { Pow2Values(); }
    PhiOfExtensionAccepted(f, rank, c, 7);
    hide DefWidthLe, Ranked;
    TameIsRight(f, rank, Tmp(0), 7);
  }
}
