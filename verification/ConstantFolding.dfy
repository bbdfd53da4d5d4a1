/** Integer constant folding of fold.c and the re-association of constants by assoccon in gvn.c. */
module ConstantFolding {
  import opened Words
  import opened Wrappers

  // ----- two's complement -----

  function Modulus(wide: bool): int { if wide then LONG else WORD }

  /** The bit pattern of an integer. */
  function Pattern(v: int, wide: bool): (x: nat)
    ensures x < Modulus(wide)
  {
    v % Modulus(wide)
  }

  /** The signed reading of the low bits of a pattern. */
  function Signed(x: nat, wide: bool): int {
    var low := x % Modulus(wide);
    if low < Modulus(wide) / 2 then low else low - Modulus(wide)
  }

  /** Division and remainder as in C, which round towards zero. */
  function Quotient(a: int, b: int): int
    requires b != 0
  {
    if (a >= 0) == (b > 0) then Abs(a) / Abs(b) else -(Abs(a) / Abs(b))
  }

  function Remainder(a: int, b: int): int
    requires b != 0
  {
    a - b * Quotient(a, b)
  }

  function Abs(a: int): nat { if a < 0 then -a else a }

  // ----- constants and operations -----

  /** struct Con: bits, or the address of a symbol plus an offset; both fields are 64-bit patterns. */
  datatype Con = Bits(i: nat) | Addr(sym: nat, i: nat)

  datatype CmpOp = Eq | Ne | Sle | Slt | Sge | Sgt | Ule | Ult | Uge | Ugt

  /** Ext keeps the low 8, 16 or 32 bits; Cmp compares words or longs. */
  datatype Op =
    | Add | Sub | Neg | Mul | Div | Rem | Udiv | Urem | And | Or | Xor | Sar | Shr | Shl
    | Ext(signed: bool, bits: nat)
    | Cmp(long: bool, c: CmpOp)

  predicate ConOk(c: Con) { c.i < LONG }

  predicate OpOk(op: Op) { op.Ext? ==> op.bits == 8 || op.bits == 16 || op.bits == 32 }

  // ----- fold.c -----

  predicate IsCon(c: Con, wide: bool, k: int) {
    c.Bits? && Pattern(c.i, wide) == Pattern(k, wide)
  }

  function CompareSigned(c: CmpOp, a: int, b: int): bool {
    match c
    case Eq => a == b
    case Ne => a != b
    case Sle => a <= b
    case Slt => a < b
    case Sge => a >= b
    case Sgt => a > b
    case Ule => a <= b
    case Ult => a < b
    case Uge => a >= b
    case Ugt => a > b
  }

  predicate IsSignedCmp(c: CmpOp) { c.Sle? || c.Slt? || c.Sge? || c.Sgt? }

  function Bool(b: bool): nat { if b then 1 else 0 }

  /** A comparison of 64-bit patterns. */
  function Compare(c: CmpOp, l: nat, r: nat): nat {
    Bool(if IsSignedCmp(c) then CompareSigned(c, Signed(l, true), Signed(r, true)) else CompareSigned(c, l, r))
  }

  predicate IsDivision(op: Op) { op.Div? || op.Rem? || op.Udiv? || op.Urem? }

  predicate IsShift(op: Op) { op.Sar? || op.Shr? || op.Shl? }

  function FoldDivision(op: Op, wide: bool, l: nat, r: nat): (x: nat)
    requires IsDivision(op) && r % Modulus(wide) != 0
  {
    var a, b := l % Modulus(wide), r % Modulus(wide);
    if op.Div? then Pattern(Quotient(Signed(l, wide), Signed(r, wide)), true)
    else if op.Rem? then Pattern(Remainder(Signed(l, wide), Signed(r, wide)), true)
    else if op.Udiv? then DivSmaller(a, b); a / b
    else ModSmaller(a, b); a % b
  }

  function ShiftCount(wide: bool, r: nat): nat { if wide then r % 64 else r % 32 }

  function FoldShift(op: Op, wide: bool, l: nat, r: nat): (x: nat)
    requires IsShift(op)
  {
    var p := Pow2(ShiftCount(wide, r));
    if op.Sar? then Pattern(Signed(l, wide) / p, true)
    else if op.Shr? then DivSmaller(l % Modulus(wide), p); (l % Modulus(wide)) / p
    else Pattern(l * p, true)
  }

  /** Sign or zero extension of the low bits. */
  function Extended(signed: bool, bits: nat, l: nat): int {
    var m := Pow2(bits);
    var low := l % m;
    if signed && low >= m / 2 then low - m else low
  }

  /** The value x that foldint computes from 64-bit patterns; wide is its argument w. */
  function FoldBits(op: Op, wide: bool, l: nat, r: nat): (x: nat)
    requires OpOk(op) && (IsDivision(op) ==> r % Modulus(wide) != 0)
  {
    match op
    case Add => Pattern(l + r, true)
    case Sub => Pattern(l - r, true)
    case Neg => Pattern(0 - l, true)
    case Mul => Pattern(l * r, true)
    case And => Bitwise(AndBit(), 64, l, r)
    case Or => Bitwise(OrBit(), 64, l, r)
    case Xor => Bitwise(XorBit(), 64, l, r)
    case Ext(signed, bits) => Pattern(Extended(signed, bits, l), true)
    case Cmp(long, c) =>
      if long then Compare(c, l, r) else Compare(c, Pattern(Signed(l, false), true), Pattern(Signed(r, false), true))
    case Sar => FoldShift(op, wide, l, r)
    case Shr => FoldShift(op, wide, l, r)
    case Shl => FoldShift(op, wide, l, r)
    case Div => FoldDivision(op, wide, l, r)
    case Rem => FoldDivision(op, wide, l, r)
    case Udiv => FoldDivision(op, wide, l, r)
    case Urem => FoldDivision(op, wide, l, r)
  }

  /** foldint for the integer operations. */
  function FoldInt(op: Op, wide: bool, cl: Con, cr: Con): (res: Option<Con>)
    requires OpOk(op) && ConOk(cl) && ConOk(cr)
  {
    if op.Add? && cl.Addr? && cr.Addr? then None
    else if op.Add? && cl.Addr? then Some(Addr(cl.sym, FoldBits(op, wide, cl.i, cr.i)))
    else if op.Add? && cr.Addr? then Some(Addr(cr.sym, FoldBits(op, wide, cl.i, cr.i)))
    else if op.Sub? && cl.Addr? && cr.Addr? && cl.sym != cr.sym then None
    else if op.Sub? && cl.Addr? && cr.Bits? then Some(Addr(cl.sym, FoldBits(op, wide, cl.i, cr.i)))
    else if op.Sub? && cl.Bits? && cr.Addr? then None
    else if !op.Add? && !op.Sub? && (cl.Addr? || cr.Addr?) then None
    else if IsDivision(op) && IsCon(cr, wide, 0) then None
    else if (op.Div? || op.Rem?) && IsCon(cr, wide, -1) && IsCon(cl, wide, 0 - Modulus(wide) / 2) then None
    else
      assert IsDivision(op) ==> cr.Bits? && cr.i % Modulus(wide) != 0;
      Some(Bits(FoldBits(op, wide, cl.i, cr.i)))
  }

  // ----- the arithmetic of a machine of one width -----

  /**
   * The reference: what an operation computes from two words (wide: longs) on a machine that has only words (longs).
   * Comparisons have a width of their own, see MachineCompare.
   */
  function Machine(op: Op, wide: bool, l: nat, r: nat): (x: int)
    requires OpOk(op) && !op.Cmp? && l < Modulus(wide) && r < Modulus(wide) && (IsDivision(op) ==> r != 0)
  {
    var b := if wide then 64 else 32;
    var n := if wide then r % 64 else r % 32;
    match op
    case Add => if l + r < Modulus(wide) then l + r else l + r - Modulus(wide)
    case Sub => if l >= r then l - r else l - r + Modulus(wide)
    case Neg => if l == 0 then 0 else Modulus(wide) - l
    case Mul => (l * r) % Modulus(wide)
    case Div => Pattern(Quotient(Signed(l, wide), Signed(r, wide)), wide)
    case Rem => Pattern(Remainder(Signed(l, wide), Signed(r, wide)), wide)
    case Udiv => l / r
    case Urem => l % r
    case And => Bitwise(AndBit(), b, l, r)
    case Or => Bitwise(OrBit(), b, l, r)
    case Xor => Bitwise(XorBit(), b, l, r)
    case Sar => Pattern(Signed(l, wide) / Pow2(n), wide)
    case Shr => l / Pow2(n)
    case Shl => (l * Pow2(n)) % Modulus(wide)
    case Ext(signed, bits) => Pattern(Extended(signed, bits, l), wide)
  }

  function MachineCompare(c: CmpOp, long: bool, l: nat, r: nat): nat {
    Bool(if IsSignedCmp(c) then CompareSigned(c, Signed(l, long), Signed(r, long))
         else CompareSigned(c, l % Modulus(long), r % Modulus(long)))
  }

  lemma PatternLow(v: int, wide: bool)
    ensures Pattern(v, true) % Modulus(wide) == Pattern(v, wide)
  {
    if wide { ModSmaller(Pattern(v, true), LONG); } else { NestedMod(v, WORD, WORD); }
  }

  lemma LowTwice(x: nat, wide: bool)
    ensures (x % Modulus(wide)) % Modulus(wide) == x % Modulus(wide)
  {
    ModSmaller(x % Modulus(wide), Modulus(wide));
  }

  /** Signed division and right shift see the low bits only. */
  lemma SignedLow(x: nat, wide: bool)
    ensures Signed(x % Modulus(wide), wide) == Signed(x, wide)
  {
    LowTwice(x, wide);
  }

  // ----- bitwise operations on the low bits -----

  lemma DoubleMod(q: nat, b: nat, p: nat)
    requires b <= 1 && p > 0
    ensures (2 * q + b) % (2 * p) == 2 * (q % p) + b
  {
    DivMul(q, p);
    var d := 2 * (q % p) + b;
    assert 2 * q + b == (q / p) * (2 * p) + d;
    DivUnique(2 * q + b, 2 * p, q / p, d);
  }

  lemma HalfMod(x: nat, p: nat)
    requires p > 0
    ensures (x % (2 * p)) / 2 == (x / 2) % p && (x % (2 * p)) % 2 == x % 2
  {
    DoubleMod(x / 2, x % 2, p);
  }

  lemma {:induction false} BitwiseLow(op: (nat, nat) -> nat, n: nat, k: nat, x: nat, y: nat)
    requires k <= n && forall a: nat, b: nat :: op(a, b) <= 1
    ensures Bitwise(op, n, x, y) % Pow2(k) == Bitwise(op, k, x % Pow2(k), y % Pow2(k))
    decreases n
  {
    if k > 0 {
      var p := Pow2(k - 1);
      BitwiseLow(op, n - 1, k - 1, x / 2, y / 2);
      DoubleMod(Bitwise(op, n - 1, x / 2, y / 2), op(x % 2, y % 2), p);
      HalfMod(x, p);
      HalfMod(y, p);
    }
  }

  /** On the low 32 bits, and on all 64. */
  lemma BitwiseWidths(op: (nat, nat) -> nat, wide: bool, l: nat, r: nat)
    requires forall a: nat, b: nat :: op(a, b) <= 1
    ensures Bitwise(op, 64, l, r) % Modulus(wide) == Bitwise(op, if wide then 64 else 32, l % Modulus(wide), r % Modulus(wide))
  {
    Pow2Values();
    BitwiseLow(op, 64, if wide then 64 else 32, l, r);
  }

  // ----- folding agrees with the machine -----

  lemma AddLow(l: nat, r: nat, wide: bool)
    ensures FoldBits(Add, wide, l, r) % Modulus(wide) == Machine(Add, wide, l % Modulus(wide), r % Modulus(wide))
  {
    PatternLow(l + r, wide);
    ModOfSum(l, r, Modulus(wide));
  }

  lemma NegLow(l: nat, r: nat, wide: bool)
    ensures FoldBits(Neg, wide, l, r) % Modulus(wide) == Machine(Neg, wide, l % Modulus(wide), r % Modulus(wide))
  {
    PatternLow(0 - l, wide);
    ModOfNegation(l, Modulus(wide));
  }

  lemma SubLow(l: nat, r: nat, wide: bool)
    ensures FoldBits(Sub, wide, l, r) % Modulus(wide) == Machine(Sub, wide, l % Modulus(wide), r % Modulus(wide))
  {
    PatternLow(l - r, wide);
    ModOfNegation(r, Modulus(wide));
    ModOfSum(l, 0 - r, Modulus(wide));
  }

  lemma CountLow(r: nat, wide: bool)
    ensures ShiftCount(wide, r % Modulus(wide)) == ShiftCount(wide, r)
  {
    if wide { NestedMod(r, 64, LONG / 64); } else { NestedMod(r, 32, WORD / 32); }
  }

  lemma ShlLow(l: nat, p: nat, wide: bool)
    ensures Pattern(l * p, true) % Modulus(wide) == ((l % Modulus(wide)) * p) % Modulus(wide)
  {
    var m := Modulus(wide);
    PatternLow(l * p, wide);
    ModOfProduct(l, p, m);
    ModOfProduct(l % m, p, m);
    LowTwice(l, wide);
  }

  lemma ShiftLow(op: Op, l: nat, r: nat, wide: bool)
    requires IsShift(op)
    ensures FoldBits(op, wide, l, r) % Modulus(wide) == Machine(op, wide, l % Modulus(wide), r % Modulus(wide))
  {
    var m := Modulus(wide);
    var p := Pow2(ShiftCount(wide, r));
    CountLow(r, wide);
    SignedLow(l, wide);
    match op {
      case Sar => PatternLow(Signed(l, wide) / p, wide);
      case Shr =>
        DivSmaller(l % m, p);
        ModSmaller((l % m) / p, m);
      case Shl => ShlLow(l, p, wide);
    }
  }

  lemma DivisionLow(op: Op, l: nat, r: nat, wide: bool)
    requires IsDivision(op) && l < LONG && r < LONG && r % Modulus(wide) != 0
    ensures FoldBits(op, wide, l, r) % Modulus(wide) == Machine(op, wide, l % Modulus(wide), r % Modulus(wide))
  {
    var m := Modulus(wide);
    SignedLow(l, wide);
    SignedLow(r, wide);
    match op {
      case Div => PatternLow(Quotient(Signed(l, wide), Signed(r, wide)), wide);
      case Rem => PatternLow(Remainder(Signed(l, wide), Signed(r, wide)), wide);
      case Udiv =>
        DivSmaller(l % m, r % m);
        ModSmaller((l % m) / (r % m), m);
      case Urem =>
        ModSmaller(l % m, r % m);
        ModSmaller((l % m) % (r % m), m);
    }
  }

  lemma LowBits(l: nat, n: nat, k: nat, m: int)
    requires n > 0 && k > 0 && n * k == m
    ensures (l % m) % n == l % n
  {
    NestedMod(l, n, k);
  }

  lemma LowBitsOfLow(l: nat, bits: nat, wide: bool)
    requires bits == 8 || bits == 16 || bits == 32
    ensures (l % Modulus(wide)) % Pow2(bits) == l % Pow2(bits)
  {
    if bits == 8 {
      assert Pow2(8) == 0x100 by { Pow2Small(); }
      LowBits(l, 0x100, if wide then 0x100_0000_0000_0000 else 0x100_0000, Modulus(wide));
    } else if bits == 16 {
      assert Pow2(16) == 0x1_0000 by { Pow2Values(); }
      LowBits(l, 0x1_0000, if wide then 0x1_0000_0000_0000 else 0x1_0000, Modulus(wide));
    } else {
      assert Pow2(32) == WORD by { Pow2Values(); }
      LowBits(l, WORD, if wide then WORD else 1, Modulus(wide));
    }
  }

  lemma ExtendedLow(signed: bool, bits: nat, l: nat, wide: bool)
    requires bits == 8 || bits == 16 || bits == 32
    ensures Extended(signed, bits, l % Modulus(wide)) == Extended(signed, bits, l)
  {
    LowBitsOfLow(l, bits, wide);
  }

  lemma ExtLow(op: Op, l: nat, r: nat, wide: bool)
    requires op.Ext? && OpOk(op)
    ensures FoldBits(op, wide, l, r) % Modulus(wide) == Machine(op, wide, l % Modulus(wide), r % Modulus(wide))
  {
    ExtendedLow(op.signed, op.bits, l, wide);
    PatternLow(Extended(op.signed, op.bits, l), wide);
  }

  /**
   * At word size the folded constant depends only on the low 32 bits of its operands, and is what a machine of that
   * width computes; at long size likewise with all 64.
   */
  lemma FoldMeaning(op: Op, wide: bool, l: nat, r: nat)
    requires OpOk(op) && !op.Cmp? && l < LONG && r < LONG && (IsDivision(op) ==> r % Modulus(wide) != 0)
    ensures FoldBits(op, wide, l, r) % Modulus(wide) == Machine(op, wide, l % Modulus(wide), r % Modulus(wide))
  {
    if op.Ext? {
      ExtLow(op, l, r, wide);
    } else if IsShift(op) {
      ShiftLow(op, l, r, wide);
    } else if IsDivision(op) {
      DivisionLow(op, l, r, wide);
    } else if op.Mul? {
      PatternLow(l * r, wide);
      ModOfProduct(l, r, Modulus(wide));
    } else if op.And? {
      BitwiseWidths(AndBit(), wide, l, r);
    } else if op.Or? {
      BitwiseWidths(OrBit(), wide, l, r);
    } else if op.Xor? {
      BitwiseWidths(XorBit(), wide, l, r);
    } else {
      AddLow(l, r, wide);
      SubLow(l, r, wide);
      NegLow(l, r, wide);
    }
  }

  lemma SignExtended(x: nat)
    ensures var p, low := Pattern(Signed(x, false), true), x % WORD;
      && p == (if low < WORD / 2 then low else low + (LONG - WORD))
      && Signed(p, true) == Signed(x, false)
  {
    var s := Signed(x, false);
    if s < 0 { DivModIs(s, -1, s + LONG, LONG); } else { DivModIs(s, 0, s, LONG); }
    ModSmaller(Pattern(s, true), LONG);
  }

  /** Word comparisons through sign extension to 64 bits, the unsigned ones included. */
  lemma FoldCompare(c: CmpOp, long: bool, wide: bool, l: nat, r: nat)
    requires l < LONG && r < LONG
    ensures FoldBits(Cmp(long, c), wide, l, r) == MachineCompare(c, long, l, r)
  {
    hide CompareSigned, FoldShift, FoldDivision, Bitwise, Extended;
    if long {
      ModSmaller(l, LONG);
      ModSmaller(r, LONG);
    } else {
      SignExtended(l);
      SignExtended(r);
      WordOrder(c, l % WORD, r % WORD);
    }
  }

  /** Sign extension keeps the unsigned order of words. */
  lemma WordOrder(c: CmpOp, x: nat, y: nat)
    requires x < WORD && y < WORD
    ensures var p := if x < WORD / 2 then x else x + (LONG - WORD); var q := if y < WORD / 2 then y else y + (LONG - WORD);
      CompareSigned(c, p, q) == CompareSigned(c, x, y)
  {}

  // ----- foldint -----

  /** The 64-bit value of a constant, given the addresses of the symbols. */
  function Value(c: Con, base: nat -> nat): nat {
    match c
    case Bits(i) => i
    case Addr(sym, i) => (base(sym) + i) % LONG
  }

  /** The division that C leaves undefined: by zero, or of the least number by -1. */
  predicate Undefined(op: Op, wide: bool, l: nat, r: nat) {
    || (IsDivision(op) && r % Modulus(wide) == 0)
    || ((op.Div? || op.Rem?) && Signed(r, wide) == -1 && Signed(l, wide) == 0 - Modulus(wide) / 2)
  }

  lemma ExtremePatterns(x: nat, wide: bool)
    ensures Pattern(-1, wide) == Modulus(wide) - 1
    ensures (Signed(x, wide) == -1 <==> x % Modulus(wide) == Modulus(wide) - 1)
    ensures Pattern(0 - Modulus(wide) / 2, wide) == Modulus(wide) / 2
    ensures Signed(x, wide) == 0 - Modulus(wide) / 2 <==> x % Modulus(wide) == Modulus(wide) / 2
  {
    var m := Modulus(wide);
    DivModIs(-1, -1, m - 1, m);
    DivModIs(0 - m / 2, -1, m / 2, m);
  }

  /** foldint gives up exactly on undefined divisions. */
  lemma FoldIntTotal(op: Op, wide: bool, l: nat, r: nat)
    requires OpOk(op) && l < LONG && r < LONG
    ensures FoldInt(op, wide, Bits(l), Bits(r)).None? <==> Undefined(op, wide, l, r)
  {
    ExtremePatterns(l, wide);
    ExtremePatterns(r, wide);
    DivModIs(0, 0, 0, Modulus(wide));
  }

  /** A constant that foldint produces has the value that the machine computes from the values of the operands. */
  lemma FoldIntCorrect(op: Op, wide: bool, cl: Con, cr: Con, base: nat -> nat)
    requires OpOk(op) && !op.Cmp? && ConOk(cl) && ConOk(cr) && forall s :: base(s) < LONG
    requires FoldInt(op, wide, cl, cr).Some?
    ensures var l, r, m := Value(cl, base), Value(cr, base), Modulus(wide);
      && (IsDivision(op) ==> r % m != 0)
      && Value(FoldInt(op, wide, cl, cr).value, base) % m == Machine(op, wide, l % m, r % m)
  {
    var l, r := Value(cl, base), Value(cr, base);
    if cl.Bits? && cr.Bits? {
      FoldMeaning(op, wide, l, r);
    } else {
      FoldAddress(op, cl, cr, base, wide);
      if op.Add? { AddLow(l, r, wide); } else { SubLow(l, r, wide); }
    }
  }

  /** An offset can be added before or after the address of the symbol. */
  lemma OffsetMoves(a: int, i: int, j: int)
    ensures (a + (i + j) % LONG) % LONG == ((a + i) % LONG + j) % LONG
  {
    ModDrop(i + j, a, LONG);
    ModDrop(a + i, j, LONG);
  }

  lemma OffsetMovesBack(a: int, i: int, j: int)
    ensures (a + (i - j) % LONG) % LONG == ((a + i) % LONG - j) % LONG
  {
    ModDrop(i - j, a, LONG);
    ModDrop(a + i, 0 - j, LONG);
  }

  /** The difference of two addresses in one object. */
  lemma AddressDifference(a: int, i: int, j: int)
    ensures (i - j) % LONG == ((a + i) % LONG - (a + j) % LONG) % LONG
  {
    ModDrop(a + j, (a + i) % LONG, LONG);
    ModDrop(a + i, 0 - (a + j), LONG);
  }

  lemma FoldSum(cl: Con, cr: Con, base: nat -> nat, wide: bool)
    requires ConOk(cl) && ConOk(cr) && cl.Addr? != cr.Addr?
    ensures Value(FoldInt(Add, wide, cl, cr).value, base) == FoldBits(Add, wide, Value(cl, base), Value(cr, base))
  {
    hide Compare, FoldShift, FoldDivision, Bitwise, Extended;
    if cl.Addr? {
      OffsetMoves(base(cl.sym), cl.i, cr.i);
    } else {
      OffsetMoves(base(cr.sym), cr.i, cl.i);
      assert (cl.i + cr.i) % LONG == (cr.i + cl.i) % LONG;
    }
  }

  lemma FoldDifference(cl: Con, cr: Con, base: nat -> nat, wide: bool)
    requires ConOk(cl) && ConOk(cr) && cl.Addr? && (cr.Addr? ==> cl.sym == cr.sym)
    ensures Value(FoldInt(Sub, wide, cl, cr).value, base) == FoldBits(Sub, wide, Value(cl, base), Value(cr, base))
  {
    hide Compare, FoldShift, FoldDivision, Bitwise, Extended;
    if cr.Addr? {
      AddressDifference(base(cl.sym), cl.i, cr.i);
    } else {
      OffsetMovesBack(base(cl.sym), cl.i, cr.i);
    }
  }

  /** Symbolic sums and differences are exact. */
  lemma FoldAddress(op: Op, cl: Con, cr: Con, base: nat -> nat, wide: bool)
    requires OpOk(op) && !op.Cmp? && ConOk(cl) && ConOk(cr) && !(cl.Bits? && cr.Bits?)
    requires FoldInt(op, wide, cl, cr).Some?
    ensures op.Add? || op.Sub?
    ensures Value(FoldInt(op, wide, cl, cr).value, base) == FoldBits(op, wide, Value(cl, base), Value(cr, base))
  {
    if op.Add? { FoldSum(cl, cr, base, wide); } else { FoldDifference(cl, cr, base, wide); }
  }

  // ----- assoccon -----

  /** An instruction with a constant as its second operand. */
  datatype ConIns = ConIns(op: Op, wide: bool, c: Con)

  /** The operations that are marked associative; subtraction is treated as addition of the negated constant. */
  predicate IsAssoc(op: Op) { op.Add? || op.And? || op.Or? || op.Xor? }

  function AsAdd(op: Op): Op { if op.Sub? then Add else op }

  function NegCon(wide: bool, c: Con): Option<Con>
    requires ConOk(c)
  {
    FoldInt(Sub, wide, Bits(0), c)
  }

  /** The constant as an operand of the addition. */
  function Addend(i: ConIns): Option<Con>
    requires ConOk(i.c)
  {
    if i.op.Sub? then NegCon(i.wide, i.c) else Some(i.c)
  }

  predicate IsNegative(c: Con, wide: bool) {
    c.Bits? && Signed(c.i, wide) < 0
  }

  lemma FoldOk(op: Op, wide: bool, cl: Con, cr: Con)
    requires (IsAssoc(op) || op.Sub?) && ConOk(cl) && ConOk(cr)
    ensures FoldInt(op, wide, cl, cr).Some? ==> ConOk(FoldInt(op, wide, cl, cr).value)
  {
    if op.And? { LongBound(AndBit(), cl.i, cr.i); }
    if op.Or? { LongBound(OrBit(), cl.i, cr.i); }
    if op.Xor? { LongBound(XorBit(), cl.i, cr.i); }
  }

  lemma LongBound(op: (nat, nat) -> nat, x: nat, y: nat)
    requires forall a: nat, b: nat :: op(a, b) <= 1
    ensures Bitwise(op, 64, x, y) < LONG
  {
    BitwiseBound(op, 64, x, y);
    Pow2Values();
  }

  lemma {:induction false} BitwiseBound(op: (nat, nat) -> nat, n: nat, x: nat, y: nat)
    requires forall a: nat, b: nat :: op(a, b) <= 1
    ensures Bitwise(op, n, x, y) < Pow2(n)
  {
    if n > 0 { BitwiseBound(op, n - 1, x / 2, y / 2); }
  }

  /**
   * assoccon: i1 applied to the result of i2 becomes a single instruction on the operand of i2. A negative sum is
   * subtracted instead of added; that negation cannot fail.
   */
  function AssocCon(i1: ConIns, i2: ConIns): (res: Option<ConIns>)
    requires ConOk(i1.c) && ConOk(i2.c)
    ensures res.Some? ==>
      ConOk(res.value.c) && res.value.wide == i1.wide && (IsAssoc(res.value.op) || res.value.op.Sub?)
  {
    var op := AsAdd(i1.op);
    if !IsAssoc(op) || op != AsAdd(i2.op) then None else
    FoldOk(Sub, i1.wide, Bits(0), i1.c);
    FoldOk(Sub, i2.wide, Bits(0), i2.c);
    var c1, c2 := Addend(i1), Addend(i2);
    if c1.None? || c2.None? then None else
    FoldOk(op, i1.wide, c1.value, c2.value);
    var c := FoldInt(op, i1.wide, c1.value, c2.value);
    if c.None? then None
    else if op.Add? && IsNegative(c.value, i1.wide) then
      FoldOk(Sub, i1.wide, Bits(0), c.value);
      var d := NegCon(i1.wide, c.value);
      assert d.Some?;
      Some(ConIns(Sub, i1.wide, d.value))
    else Some(ConIns(op, i1.wide, c.value))
  }

  /** What an instruction leaves in the low bits of its result. */
  ghost predicate Yields(i: ConIns, base: nat -> nat, x: nat, a: nat)
    requires IsAssoc(i.op) || i.op.Sub?
  {
    var m := Modulus(i.wide);
    a % m == Machine(i.op, i.wide, x % m, Value(i.c, base) % m)
  }

  /** The sign with which the constant enters. */
  ghost function Signum(op: Op, v: int): int { if op.Sub? then 0 - v else v }

  lemma CongSum(a: int, b: int, c: int, d: int, m: int)
    requires m > 0 && a % m == b % m && c % m == d % m
    ensures (a + c) % m == (b + d) % m && (a - c) % m == (b - d) % m
  {
    ModDrop(a, c, m);
    ModDrop(b, d, m);
    ModDrop(c, a % m, m);
    ModDrop(d, b % m, m);
    ModDrop(a, 0 - c, m);
    ModDrop(b, 0 - d, m);
    ModDrop(c, a, m);
    ModDrop(d, a, m);
    ModDrop(a, 0 - d, m);
  }

  lemma MachineSum(op: Op, wide: bool, x: nat, v: nat)
    requires op.Add? || op.Sub?
    ensures Machine(op, wide, x % Modulus(wide), v % Modulus(wide)) == (x + Signum(op, v)) % Modulus(wide)
  {
    var m := Modulus(wide);
    ModOfSum(x, v, m);
    ModOfNegation(v, m);
    ModOfSum(x, 0 - v, m);
  }

  /** Congruence of longs implies congruence of words. */
  lemma Narrow(a: int, b: int, wide: bool, wide': bool)
    requires a % Modulus(wide) == b % Modulus(wide) && (wide' ==> wide)
    ensures a % Modulus(wide') == b % Modulus(wide')
  {
    if wide && !wide' {
      NestedMod(a, WORD, WORD);
      NestedMod(b, WORD, WORD);
    }
  }

  lemma AddendValue(i: ConIns, base: nat -> nat)
    requires (i.op.Add? || i.op.Sub?) && ConOk(i.c) && Addend(i).Some? && forall s :: base(s) < LONG
    ensures ConOk(Addend(i).value)
    ensures Value(Addend(i).value, base) % Modulus(i.wide) == Signum(i.op, Value(i.c, base)) % Modulus(i.wide)
  {
    FoldOk(Sub, i.wide, Bits(0), i.c);
    if i.op.Sub? {
      FoldIntCorrect(Sub, i.wide, Bits(0), i.c, base);
      MachineSum(Sub, i.wide, 0, Value(i.c, base));
    }
  }

  /** What the inner instruction leaves, in the width of the outer one. */
  lemma InnerSum(i1: ConIns, i2: ConIns, base: nat -> nat, x: nat, a: nat)
    requires (i2.op.Add? || i2.op.Sub?) && (i1.wide ==> i2.wide) && Yields(i2, base, x, a)
    ensures a % Modulus(i1.wide) == (x + Signum(i2.op, Value(i2.c, base))) % Modulus(i1.wide)
  {
    var v2 := Value(i2.c, base);
    MachineSum(i2.op, i2.wide, x, v2);
    Narrow(a, x + Signum(i2.op, v2), i2.wide, i1.wide);
  }

  /** The sum of the constants, in the width of the outer instruction. */
  lemma SummedValue(i1: ConIns, i2: ConIns, base: nat -> nat)
    requires ConOk(i1.c) && ConOk(i2.c) && (i1.wide ==> i2.wide) && forall s :: base(s) < LONG
    requires (i1.op.Add? || i1.op.Sub?) && AssocCon(i1, i2).Some?
    ensures Value(Summed(i1, i2), base) % Modulus(i1.wide) ==
      (Signum(i1.op, Value(i1.c, base)) + Signum(i2.op, Value(i2.c, base))) % Modulus(i1.wide)
  {
    var m := Modulus(i1.wide);
    AddendValue(i1, base);
    AddendValue(i2, base);
    var c1, c2 := Addend(i1).value, Addend(i2).value;
    var u, v := Signum(i1.op, Value(i1.c, base)), Signum(i2.op, Value(i2.c, base));
    assert Summed(i1, i2) == FoldInt(Add, i1.wide, c1, c2).value;
    hide Machine, Value, Summed, AssocCon, FoldInt, Signum, Addend;
    Narrow(Value(c2, base), v, i2.wide, i1.wide);
    FoldIntCorrect(Add, i1.wide, c1, c2, base);
    MachineSum(Add, i1.wide, Value(c1, base), Value(c2, base));
    CongSum(Value(c1, base), u, Value(c2, base), v, m);
  }

  /** Addition and subtraction, in any mixture. */
  lemma AssocAdd(i1: ConIns, i2: ConIns, base: nat -> nat, x: nat, a: nat)
    requires ConOk(i1.c) && ConOk(i2.c) && (i1.wide ==> i2.wide) && forall s :: base(s) < LONG
    requires (i1.op.Add? || i1.op.Sub?) && AssocCon(i1, i2).Some? && Yields(i2, base, x, a)
    ensures var m := Modulus(i1.wide);
      Machine(i1.op, i1.wide, a % m, Value(i1.c, base) % m) == (x + Value(Summed(i1, i2), base)) % m
  {
    InnerSum(i1, i2, base, x, a);
    hide Machine, Value, Summed, AssocCon, FoldInt, Yields, Signum, Modulus;
    SummedValue(i1, i2, base);
    MachineSum(i1.op, i1.wide, a, Value(i1.c, base));
    SumOfAddends(a, x, Signum(i1.op, Value(i1.c, base)), Signum(i2.op, Value(i2.c, base)), Value(Summed(i1, i2), base), Modulus(i1.wide));
  }

  /** The constants can be added first. */
  lemma SumOfAddends(a: int, x: int, u: int, v: int, e: int, m: int)
    requires m > 0 && a % m == (x + v) % m && e % m == (u + v) % m
    ensures (a + u) % m == (x + e) % m
  {
    CongSum(a, x + v, u, u, m);
    CongSum(x, x, e, u + v, m);
    assert x + v + u == x + (u + v);
  }

  /** The sum of the constants, before a negative one is turned into a subtraction. */
  ghost function Summed(i1: ConIns, i2: ConIns): Con
    requires ConOk(i1.c) && ConOk(i2.c) && (i1.op.Add? || i1.op.Sub?) && AssocCon(i1, i2).Some?
  {
    FoldOk(Sub, i1.wide, Bits(0), i1.c);
    FoldOk(Sub, i2.wide, Bits(0), i2.c);
    FoldInt(Add, i1.wide, Addend(i1).value, Addend(i2).value).value
  }

  /** The final flip from adding a negative constant to subtracting its negation. */
  lemma Flip(i1: ConIns, i2: ConIns, base: nat -> nat, x: nat)
    requires ConOk(i1.c) && ConOk(i2.c) && forall s :: base(s) < LONG
    requires (i1.op.Add? || i1.op.Sub?) && AssocCon(i1, i2).Some?
    ensures var i, m := AssocCon(i1, i2).value, Modulus(i1.wide);
      Machine(i.op, i.wide, x % m, Value(i.c, base) % m) == (x + Value(Summed(i1, i2), base)) % m
  {
    var i, m, c := AssocCon(i1, i2).value, Modulus(i1.wide), Summed(i1, i2);
    FoldOk(Sub, i1.wide, Bits(0), i1.c);
    FoldOk(Sub, i2.wide, Bits(0), i2.c);
    FoldOk(Add, i1.wide, Addend(i1).value, Addend(i2).value);
    MachineSum(i.op, i.wide, x, Value(i.c, base));
    if i.op.Sub? {
      assert NegCon(i1.wide, c) == Some(i.c);
      hide Machine, Value, Summed, AssocCon, FoldInt;
      FoldIntCorrect(Sub, i1.wide, Bits(0), c, base);
      MachineSum(Sub, i1.wide, 0, Value(c, base));
      CongSum(x, x, Value(i.c, base), 0 - Value(c, base), m);
    }
  }

  /** An operation on bits that is associative and commutative. */
  ghost predicate BitAssoc(op: (nat, nat) -> nat) {
    forall a: nat, b: nat, c: nat :: a <= 1 && b <= 1 && c <= 1 ==> BitRow(op, a, b, c)
  }

  ghost predicate BitRow(op: (nat, nat) -> nat, a: nat, b: nat, c: nat) {
    op(a, b) <= 1 && op(b, c) == op(c, b) && op(op(a, b), c) == op(a, op(b, c))
  }

  lemma {:induction false} BitwiseAssoc(op: (nat, nat) -> nat, n: nat, x: nat, y: nat, z: nat)
    requires BitAssoc(op)
    ensures Bitwise(op, n, Bitwise(op, n, x, y), z) == Bitwise(op, n, x, Bitwise(op, n, z, y))
  {
    if n > 0 {
      BitwiseAssoc(op, n - 1, x / 2, y / 2, z / 2);
      var p, q, r := x % 2, y % 2, z % 2;
      assert BitRow(op, p, q, r) && BitRow(op, r, q, p);
      TopBit(op, n, x, y);
      TopBit(op, n, z, y);
    }
  }

  /** The last bit of a result, and the rest. */
  lemma TopBit(op: (nat, nat) -> nat, n: nat, x: nat, y: nat)
    requires n > 0 && op(x % 2, y % 2) <= 1
    ensures Bitwise(op, n, x, y) / 2 == Bitwise(op, n - 1, x / 2, y / 2) && Bitwise(op, n, x, y) % 2 == op(x % 2, y % 2)
  {}

  /** And, or, xor; with a long inner operation the outer one may be a word. */
  lemma AssocBits(op: (nat, nat) -> nat, wide1: bool, wide2: bool, x: nat, a: nat, v1: nat, v2: nat)
    requires BitAssoc(op) && (wide1 ==> wide2) && forall a: nat, b: nat :: op(a, b) <= 1
    requires var m, n := Modulus(wide2), if wide2 then 64 else 32; a % m == Bitwise(op, n, x % m, v2 % m)
    ensures var m, n := Modulus(wide1), if wide1 then 64 else 32;
      Bitwise(op, n, a % m, v1 % m) == Bitwise(op, n, x % m, Bitwise(op, 64, v1, v2) % m)
  {
    var m, n := Modulus(wide1), if wide1 then 64 else 32;
    BitwiseWidths(op, wide2, x, v2);
    BitwiseWidths(op, wide1, x, v2);
    BitwiseWidths(op, wide1, v1, v2);
    Narrow(a, Bitwise(op, 64, x, v2), wide2, wide1);
    BitwiseAssoc(op, n, x % m, v2 % m, v1 % m);
  }

  /** What assoccon makes of a bitwise operation. */
  lemma AssocConBits(i1: ConIns, i2: ConIns)
    requires ConOk(i1.c) && ConOk(i2.c) && (i1.op.And? || i1.op.Or? || i1.op.Xor?) && AssocCon(i1, i2).Some?
    ensures i1.c.Bits? && i2.c.Bits? && i2.op == i1.op
    ensures AssocCon(i1, i2) == Some(ConIns(i1.op, i1.wide, Bits(FoldBits(i1.op, i1.wide, i1.c.i, i2.c.i))))
  {}

  lemma AssocBitwise(i1: ConIns, i2: ConIns, base: nat -> nat, x: nat, a: nat)
    requires ConOk(i1.c) && ConOk(i2.c) && (i1.wide ==> i2.wide)
    requires (i1.op.And? || i1.op.Or? || i1.op.Xor?) && AssocCon(i1, i2).Some? && Yields(i2, base, x, a)
    ensures Machine(i1.op, i1.wide, a % Modulus(i1.wide), Value(i1.c, base) % Modulus(i1.wide)) ==
            Machine(i1.op, i1.wide, x % Modulus(i1.wide), Value(AssocCon(i1, i2).value.c, base) % Modulus(i1.wide))
    ensures AssocCon(i1, i2).value.op == i1.op
  {
    AssocConBits(i1, i2);
    assert i2.op == i1.op;
    match i1.op {
      case And => AssocBits(AndBit(), i1.wide, i2.wide, x, a, i1.c.i, i2.c.i);
      case Or => AssocBits(OrBit(), i1.wide, i2.wide, x, a, i1.c.i, i2.c.i);
      case Xor => AssocBits(XorBit(), i1.wide, i2.wide, x, a, i1.c.i, i2.c.i);
    }
  }

  /**
   * Re-association preserves the value: on every operand x, whatever the inner instruction leaves above its low bits,
   * the outer one yields what the single new instruction yields.
   */
  lemma AssocConSound(i1: ConIns, i2: ConIns, base: nat -> nat, x: nat, a: nat, y: nat)
    requires ConOk(i1.c) && ConOk(i2.c) && (i1.wide ==> i2.wide) && (forall s :: base(s) < LONG)
    requires AssocCon(i1, i2).Some? && (IsAssoc(i1.op) || i1.op.Sub?) && (IsAssoc(i2.op) || i2.op.Sub?)
    requires Yields(i2, base, x, a)
    ensures Yields(i1, base, a, y) <==> Yields(AssocCon(i1, i2).value, base, x, y)
  {
    if i1.op.Add? || i1.op.Sub? {
      AssocAdd(i1, i2, base, x, a);
      Flip(i1, i2, base, x);
    } else {
      AssocBitwise(i1, i2, base, x, a);
    }
  }

  /** On integer constants it applies whenever the two operations match, subtraction counting as addition. */
  lemma AssocConApplies(i1: ConIns, i2: ConIns)
    requires i1.c.Bits? && i2.c.Bits? && ConOk(i1.c) && ConOk(i2.c)
    ensures AssocCon(i1, i2).Some? <==> IsAssoc(AsAdd(i1.op)) && AsAdd(i1.op) == AsAdd(i2.op)
    ensures AssocCon(i1, i2).Some? && AsAdd(i1.op).Add? ==>
      var i := AssocCon(i1, i2).value;
      i.c.Bits? && if i.op.Add? then 0 <= Signed(i.c.i, i.wide)
                   else 0 < Signed(i.c.i, i.wide) || i.c.i % Modulus(i.wide) == Modulus(i.wide) / 2
  {
    hide FoldBits, Signed;
    if AssocCon(i1, i2).Some? && AsAdd(i1.op).Add? && AssocCon(i1, i2).value.op.Sub? {
      NegatedSign(Summed(i1, i2).i, i1.wide);
    }
  }

  /** The negation of a negative number is positive, unless that number is the least one. */
  lemma NegatedSign(k: nat, wide: bool)
    requires Signed(k, wide) < 0
    ensures var x := FoldBits(Sub, wide, 0, k); 0 < Signed(x, wide) || x % Modulus(wide) == Modulus(wide) / 2
  {
    PatternLow(0 - k, wide);
    ModOfNegation(k, Modulus(wide));
  }

  // ----- opfold -----

  /** opfold for an integer class: the folded constant, cut to 32 bits for a word. */
  function OpFold(op: Op, wide: bool, cl: Con, cr: Con): Option<Con>
    requires OpOk(op) && ConOk(cl) && ConOk(cr)
  {
    match FoldInt(op, wide, cl, cr)
    case None => None
    case Some(Bits(i)) => Some(Bits(i % Modulus(wide)))
    case Some(Addr(sym, i)) => Some(Addr(sym, i % Modulus(wide)))
  }

  /** What an instruction leaves in the low bits of its result, comparisons included. */
  function Computes(op: Op, wide: bool, l: nat, r: nat): (x: int)
    requires OpOk(op) && (IsDivision(op) ==> r % Modulus(wide) != 0)
  {
    if op.Cmp? then MachineCompare(op.c, op.long, l, r) else Machine(op, wide, l % Modulus(wide), r % Modulus(wide))
  }

  lemma OpFoldCut(op: Op, wide: bool, cl: Con, cr: Con, base: nat -> nat)
    requires OpOk(op) && ConOk(cl) && ConOk(cr) && FoldInt(op, wide, cl, cr).Some?
    ensures OpFold(op, wide, cl, cr).Some? && OpFold(op, wide, cl, cr).value.i < Modulus(wide)
    ensures Value(OpFold(op, wide, cl, cr).value, base) % Modulus(wide) ==
            Value(FoldInt(op, wide, cl, cr).value, base) % Modulus(wide)
  {
    var m := Modulus(wide);
    match FoldInt(op, wide, cl, cr) {
      case Some(Bits(i)) => LowTwice(i, wide);
      case Some(Addr(sym, i)) =>
        PatternLow(base(sym) + i % m, wide);
        PatternLow(base(sym) + i, wide);
        ModDrop(i, base(sym), m);
    }
  }

  /**
   * The constant that opfold registers, the sum of a symbol and an offset included, has in its low bits what the
   * instruction computes from the values of the operands, wherever the symbols are.
   */
  lemma OpFoldCorrect(op: Op, wide: bool, cl: Con, cr: Con, base: nat -> nat)
    requires OpOk(op) && ConOk(cl) && ConOk(cr) && FoldInt(op, wide, cl, cr).Some? && forall s :: base(s) < LONG
    ensures IsDivision(op) ==> Value(cr, base) % Modulus(wide) != 0
    ensures OpFold(op, wide, cl, cr).Some? && OpFold(op, wide, cl, cr).value.i < Modulus(wide)
    ensures Value(OpFold(op, wide, cl, cr).value, base) % Modulus(wide) ==
            Computes(op, wide, Value(cl, base), Value(cr, base))
  {
    OpFoldCut(op, wide, cl, cr, base);
    if op.Cmp? {
      FoldCompare(op.c, op.long, wide, cl.i, cr.i);
      ModSmaller(MachineCompare(op.c, op.long, cl.i, cr.i), Modulus(wide));
    } else {
      FoldIntCorrect(op, wide, cl, cr, base);
    }
  }

  /** Folding two integers registers exactly the word or long that the machine would have computed. */
  lemma OpFoldExact(op: Op, wide: bool, l: nat, r: nat)
    requires OpOk(op) && l < LONG && r < LONG && FoldInt(op, wide, Bits(l), Bits(r)).Some?
    ensures IsDivision(op) ==> r % Modulus(wide) != 0
    ensures OpFold(op, wide, Bits(l), Bits(r)).Some? && OpFold(op, wide, Bits(l), Bits(r)).value.Bits?
    ensures OpFold(op, wide, Bits(l), Bits(r)).value.i == Computes(op, wide, l, r)
  {
    OpFoldCorrect(op, wide, Bits(l), Bits(r), _ => 0);
    ModSmaller(OpFold(op, wide, Bits(l), Bits(r)).value.i, Modulus(wide));
  }

  // ----- sums and differences that no constant can stand for -----

  /** Wherever the symbols are, c has in its low bits what the instruction computes. */
  ghost predicate StandsFor(c: Con, op: Op, wide: bool, cl: Con, cr: Con)
    requires op.Add? || op.Sub?
  {
    forall base: nat -> nat :: (forall s :: base(s) < LONG) ==>
      Value(c, base) % Modulus(wide) == Computes(op, wide, Value(cl, base), Value(cr, base))
  }

  /** How often the address of a symbol counts in a constant, if it counts at all. */
  function Count(c: Con, sym: nat, on: bool): int { if on && c.Addr? && c.sym == sym then 1 else 0 }

  /** One symbol is at address 1, or none is; all others are at zero. */
  function OneAt(sym: nat, on: bool): nat -> nat { s => if on && s == sym then 1 else 0 }

  lemma ValueAt(c: Con, sym: nat, on: bool, wide: bool)
    requires ConOk(c)
    ensures Value(c, OneAt(sym, on)) % Modulus(wide) == (Count(c, sym, on) + c.i) % Modulus(wide)
  {
    if c.Addr? { PatternLow(OneAt(sym, on)(c.sym) + c.i, wide); }
  }

  lemma SumAt(c: Con, op: Op, wide: bool, cl: Con, cr: Con, sym: nat, on: bool)
    requires (op.Add? || op.Sub?) && ConOk(c) && ConOk(cl) && ConOk(cr) && StandsFor(c, op, wide, cl, cr)
    ensures (Count(c, sym, on) + c.i) % Modulus(wide) ==
      (Count(cl, sym, on) + Signum(op, Count(cr, sym, on)) + (cl.i + Signum(op, cr.i))) % Modulus(wide)
  {
    var m, base := Modulus(wide), OneAt(sym, on);
    ValueAt(c, sym, on, wide);
    ValueAt(cl, sym, on, wide);
    ValueAt(cr, sym, on, wide);
    MachineSum(op, wide, Value(cl, base), Value(cr, base));
    assert Value(c, base) % m == Computes(op, wide, Value(cl, base), Value(cr, base));
    hide Value, Machine, Modulus, Count, OneAt;
    CongSum(Value(cl, base), Count(cl, sym, on) + cl.i, Value(cr, base), Count(cr, sym, on) + cr.i, m);
  }

  /** Moving one symbol by one shows how often its address counts. */
  lemma CountsAgree(c: Con, op: Op, wide: bool, cl: Con, cr: Con, sym: nat)
    requires (op.Add? || op.Sub?) && ConOk(c) && ConOk(cl) && ConOk(cr) && StandsFor(c, op, wide, cl, cr)
    ensures Count(c, sym, true) == Count(cl, sym, true) + Signum(op, Count(cr, sym, true))
  {
    var m := Modulus(wide);
    SumAt(c, op, wide, cl, cr, sym, false);
    SumAt(c, op, wide, cl, cr, sym, true);
    var x, y := Count(c, sym, true), Count(cl, sym, true) + Signum(op, Count(cr, sym, true));
    var z, w := c.i, cl.i + Signum(op, cr.i);
    CongSum(x + z, y + w, z, w, m);
    SmallCongruence(x, y, m);
  }

  lemma SmallCongruence(x: int, y: int, m: int)
    requires m > 4 && -2 <= x <= 2 && -2 <= y <= 2 && x % m == y % m
    ensures x == y
  {
    if x < 0 { DivModIs(x, -1, x + m, m); } else { DivModIs(x, 0, x, m); }
    if y < 0 { DivModIs(y, -1, y + m, m); } else { DivModIs(y, 0, y, m); }
  }

  /**
   * Sums and differences are given up exactly when no constant would do: two symbols added, a symbol subtracted from
   * an integer, or two symbols that differ.
   */
  lemma FoldSumTotal(op: Op, wide: bool, cl: Con, cr: Con)
    requires (op.Add? || op.Sub?) && ConOk(cl) && ConOk(cr)
    ensures FoldInt(op, wide, cl, cr).Some? <==> exists c :: ConOk(c) && StandsFor(c, op, wide, cl, cr)
  {
    if FoldInt(op, wide, cl, cr).Some? {
      var c := FoldInt(op, wide, cl, cr).value;
      FoldOk(op, wide, cl, cr);
      forall base: nat -> nat | forall s :: base(s) < LONG
        ensures Value(c, base) % Modulus(wide) == Computes(op, wide, Value(cl, base), Value(cr, base))
      {
        FoldIntCorrect(op, wide, cl, cr, base);
      }
      assert StandsFor(c, op, wide, cl, cr);
    } else if c :| ConOk(c) && StandsFor(c, op, wide, cl, cr) {
      if cl.Addr? { CountsAgree(c, op, wide, cl, cr, cl.sym); }
      if cr.Addr? { CountsAgree(c, op, wide, cl, cr, cr.sym); }
      assert false;
    }
  }

  // ----- what the operations mean -----

  /** Division rounds towards zero, and the remainder has the sign of the dividend. */
  lemma Truncation(a: int, b: int)
    requires b != 0
    ensures a == b * Quotient(a, b) + Remainder(a, b)
    ensures Abs(Remainder(a, b)) < Abs(b) && (Remainder(a, b) > 0 ==> a > 0) && (Remainder(a, b) < 0 ==> a < 0)
  {
    var x, y := Abs(a), Abs(b);
    DivMul(x, y);
    ModSmaller(x, y);
    var q: int := x / y;
    assert Quotient(a, b) == q || Quotient(a, b) == -q;
    Signs(q, y);
  }

  lemma Signs(q: int, y: int)
    ensures y * q == q * y && y * -q == -(q * y) && -y * q == -(q * y) && -y * -q == q * y
  {}

  /** The signed reading of a pattern: the one number of the signed range with the same low bits. */
  lemma SignedIs(x: nat, wide: bool, v: int)
    ensures v == Signed(x, wide) <==> -Modulus(wide) <= 2 * v < Modulus(wide) && v % Modulus(wide) == x % Modulus(wide)
  {
    var m := Modulus(wide);
    if -m <= 2 * v < m {
      if v < 0 { DivModIs(v, -1, v + m, m); } else { DivModIs(v, 0, v, m); }
    }
    var s := Signed(x, wide);
    if s < 0 { DivModIs(s, -1, s + m, m); } else { DivModIs(s, 0, s, m); }
  }

  /** Adding half the range turns the signed order of patterns into the unsigned one. */
  function Biased(x: nat, long: bool): nat {
    var low, half := x % Modulus(long), Modulus(long) / 2;
    if low < half then low + half else low - half
  }

  /** The outcome of each comparison. */
  lemma Comparisons(c: CmpOp, long: bool, l: nat, r: nat)
    ensures var x, y, a, b := l % Modulus(long), r % Modulus(long), Biased(l, long), Biased(r, long);
      MachineCompare(c, long, l, r) == 1 <==>
        match c
        case Eq => x == y
        case Ne => x != y
        case Ule => x <= y
        case Ult => x < y
        case Uge => y <= x
        case Ugt => y < x
        case Sle => a <= b
        case Slt => a < b
        case Sge => b <= a
        case Sgt => b < a
    ensures MachineCompare(c, long, l, r) == 0 || MachineCompare(c, long, l, r) == 1
  {}

  /** Extension keeps the low bits and fills the others with zeros or with the sign. */
  lemma ExtendedIs(signed: bool, bits: nat, l: nat, v: int)
    requires bits > 0
    ensures v == Extended(signed, bits, l) <==>
      v % Pow2(bits) == l % Pow2(bits) && if signed then 0 - Pow2(bits) <= 2 * v < Pow2(bits) else 0 <= v < Pow2(bits)
  {
    var m := Pow2(bits);
    assert m == 2 * Pow2(bits - 1);
    if 0 - m <= v < m {
      if v < 0 { DivModIs(v, -1, v + m, m); } else { DivModIs(v, 0, v, m); }
    }
    var s := Extended(signed, bits, l);
    if s < 0 { DivModIs(s, -1, s + m, m); } else { DivModIs(s, 0, s, m); }
  }

  function BitAt(x: nat, k: nat): nat { (x / Pow2(k)) % 2 }

  lemma {:induction false} BitwiseAt(op: (nat, nat) -> nat, n: nat, x: nat, y: nat, k: nat)
    requires k < n && forall a: nat, b: nat :: op(a, b) <= 1
    ensures BitAt(Bitwise(op, n, x, y), k) == op(BitAt(x, k), BitAt(y, k))
  {
    TopBit(op, n, x, y);
    if k > 0 {
      hide Bitwise, Pow2;
      BitwiseAt(op, n - 1, x / 2, y / 2, k - 1);
      NextBit(Bitwise(op, n, x, y), k);
      NextBit(x, k);
      NextBit(y, k);
    } else {
      hide Bitwise;
    }
  }

  lemma NextBit(x: nat, k: nat)
    requires k > 0
    ensures BitAt(x, k) == BitAt(x / 2, k - 1)
  {
    DivDiv(x, 2, Pow2(k - 1));
  }

  /** And, or and xor act on each bit by itself. */
  lemma BitOperations(op: Op, wide: bool, l: nat, r: nat, k: nat)
    requires (op.And? || op.Or? || op.Xor?) && l < Modulus(wide) && r < Modulus(wide)
    requires k < if wide then 64 else 32
    ensures var x, a, b := Machine(op, wide, l, r), BitAt(l, k) == 1, BitAt(r, k) == 1;
      x >= 0 && (BitAt(x, k) == 1 <==> if op.And? then a && b else if op.Or? then a || b else a != b)
  {
    var n := if wide then 64 else 32;
    BitwiseAt(AndBit(), n, l, r, k);
    BitwiseAt(OrBit(), n, l, r, k);
    BitwiseAt(XorBit(), n, l, r, k);
  }
}
