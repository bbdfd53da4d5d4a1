/** Powers of two, division and bitwise operations on natural numbers. */
module Words {

  function Pow2(n: nat): (p: nat)
    ensures p > 0
  {
    if n == 0 then 1 else 2 * Pow2(n - 1)
  }

  lemma {:induction false} Pow2Monotone(a: nat, b: nat)
    requires a <= b
    ensures Pow2(a) <= Pow2(b)
    decreases b - a
  {
    if a < b { Pow2Monotone(a, b - 1); }
  }

  lemma {:induction false} Pow2Add(a: nat, b: nat)
    ensures Pow2(a + b) == Pow2(a) * Pow2(b)
  {
    if b > 0 { Pow2Add(a, b - 1); }
  }

  lemma Pow2Small()
    ensures Pow2(1) == 2 && Pow2(2) == 4 && Pow2(4) == 16 && Pow2(7) == 0x80 && Pow2(8) == 0x100
  {
    assert Pow2(4) == 16;
    assert Pow2(7) == 8 * Pow2(4);
  }

  lemma Pow2Values()
    ensures Pow2(1) == 2 && Pow2(2) == 4 && Pow2(4) == 16 && Pow2(7) == 0x80 && Pow2(8) == 0x100 && Pow2(15) == 0x8000
    ensures Pow2(16) == 0x1_0000 && Pow2(31) == 0x8000_0000 && Pow2(32) == WORD && Pow2(64) == LONG
  {
    Pow2Small();
    assert Pow2(16) == Pow2(8) * Pow2(8) by { Pow2Add(8, 8); }
    assert Pow2(32) == Pow2(16) * Pow2(16) by { Pow2Add(16, 16); }
    assert Pow2(64) == Pow2(32) * Pow2(32) by { Pow2Add(32, 32); }
    assert Pow2(16) == 2 * Pow2(15) && Pow2(32) == 2 * Pow2(31);
  }

  const WORD: nat := 0x1_0000_0000
  const LONG: nat := 0x1_0000_0000_0000_0000

  lemma DivMul(a: nat, b: nat)
    requires b > 0
    ensures a == (a / b) * b + a % b
  {}

  lemma {:induction false} MulAtLeast(a: nat, b: nat, c: nat)
    requires a >= b
    ensures a * c >= b * c
    decreases a
  {
    if a > b {
      MulAtLeast(a - 1, b, c);
      assert a * c == (a - 1) * c + c;
    }
  }

  lemma DivBound(a: nat, b: nat, c: nat)
    requires b > 0 && a < c * b
    ensures a / b < c
  {
    DivMul(a, b);
    if a / b >= c { MulAtLeast(a / b, c, b); }
  }

  lemma DivZero(a: nat, b: nat)
    requires b > 0 && a / b == 0
    ensures a < b
  {
    DivMul(a, b);
  }

  lemma SmallMultiple(a: int, t: int)
    requires t > 0 && -t < a * t < t
    ensures a == 0
  {
    if a > 0 {
      MulAtLeast(a, 1, t);
    } else if a < 0 {
      assert (-a) * t == -(a * t);
      MulAtLeast(-a, 1, t);
    }
  }

  /** Quotient and remainder are unique, for negative numbers too. */
  lemma DivModIs(v: int, q: int, r: int, m: int)
    requires m > 0 && v == q * m + r && 0 <= r < m
    ensures v / m == q && v % m == r
  {
    assert v == (v / m) * m + v % m;
    assert (v / m - q) * m == (v / m) * m - q * m;
    SmallMultiple(v / m - q, m);
  }

  /** Taking the remainder by a multiple first changes nothing. */
  lemma NestedMod(x: int, n: int, k: int)
    requires n > 0 && k > 0 && n * k > 0
    ensures (x % (n * k)) % n == x % n
  {
    var q, y := x / (n * k), x % (n * k);
    var p, z := y / n, y % n;
    assert x == q * (n * k) + y && y == p * n + z;
    assert x == (q * k + p) * n + z by { assert (q * k + p) * n == q * (n * k) + p * n; }
    DivModIs(x, q * k + p, z, n);
  }

  lemma ModOfSum(a: int, b: int, m: int)
    requires m > 0
    ensures (a + b) % m == (a % m + b % m) % m
    ensures (a + b) % m == if a % m + b % m < m then a % m + b % m else a % m + b % m - m
  {
    var s := a % m + b % m;
    var q := a / m + b / m;
    assert a == (a / m) * m + a % m && b == (b / m) * m + b % m;
    assert q * m == (a / m) * m + (b / m) * m;
    if s < m {
      DivModIs(a + b, q, s, m);
      DivModIs(s, 0, s, m);
    } else {
      assert (q + 1) * m == q * m + m;
      DivModIs(a + b, q + 1, s - m, m);
      DivModIs(s, 1, s - m, m);
    }
  }

  /** A remainder inside a sum or difference can be dropped. */
  lemma ModDrop(a: int, b: int, m: int)
    requires m > 0
    ensures (a % m + b) % m == (a + b) % m
    ensures (b - a % m) % m == (b - a) % m
  {
    var q := a / m;
    assert a == q * m + a % m;
    var u, v := a % m + b, b - a % m;
    assert u == (u / m) * m + u % m && v == (v / m) * m + v % m;
    assert (q + u / m) * m == q * m + (u / m) * m;
    assert (v / m - q) * m == (v / m) * m - q * m;
    DivModIs(a + b, q + u / m, u % m, m);
    DivModIs(b - a, v / m - q, v % m, m);
  }

  lemma ModOfNegation(a: int, m: int)
    requires m > 0
    ensures (-a) % m == if a % m == 0 then 0 else m - a % m
  {
    assert a == (a / m) * m + a % m;
    var q := a / m;
    if a % m == 0 {
      assert (-q) * m == -(q * m);
      DivModIs(-a, -q, 0, m);
    } else {
      assert (-q - 1) * m == -(q * m) - m;
      DivModIs(-a, -q - 1, m - a % m, m);
    }
  }

  lemma ModOfProduct(a: int, b: int, m: int)
    requires m > 0
    ensures (a * b) % m == ((a % m) * (b % m)) % m
  {
    var p, x, q, y := a / m, a % m, b / m, b % m;
    assert a == p * m + x && b == q * m + y;
    assert a * b == x * y + (p * b + x * q) * m by {
      assert a * b == p * m * b + x * b;
      assert x * b == x * (q * m) + x * y;
      assert x * (q * m) == (x * q) * m;
      assert p * m * b == (p * b) * m;
      assert (p * b + x * q) * m == (p * b) * m + (x * q) * m;
    }
    var k, z := (x * y) / m, (x * y) % m;
    assert x * y == k * m + z;
    assert (p * b + x * q + k) * m == (p * b + x * q) * m + k * m;
    DivModIs(a * b, p * b + x * q + k, z, m);
  }

  lemma DivUnique(a: nat, b: nat, q: nat, r: nat)
    requires b > 0 && a == q * b + r && r < b
    ensures a / b == q
  {
    DivMul(a, b);
    if a / b > q {
      MulAtLeast(a / b, q + 1, b);
    } else if a / b < q {
      MulAtLeast(q, a / b + 1, b);
    }
  }

  lemma Distribute(q: nat, c: nat, r: nat, b: nat)
    ensures (q * c + r) * b == q * (b * c) + r * b
  {
    assert q * (b * c) == (q * c) * b;
  }

  lemma DigitBound(x: nat, c: nat, r: nat, b: nat)
    requires x < c && r < b
    ensures x * b + r < b * c
  {
    MulAtLeast(c, x + 1, b);
    assert (x + 1) * b == x * b + b;
  }

  lemma DivDiv(a: nat, b: nat, c: nat)
    requires b > 0 && c > 0
    ensures b * c > 0 && a / b / c == a / (b * c)
  {
    MulAtLeast(b, 1, c);
    var q, r := a / b, a % b;
    DivMul(a, b);
    DivMul(q, c);
    Distribute(q / c, c, q % c, b);
    DigitBound(q % c, c, r, b);
    DivUnique(a, b * c, q / c, (q % c) * b + r);
  }

  lemma DivSmaller(a: nat, b: nat)
    requires b > 0
    ensures 0 <= a / b <= a
  {
    DivMul(a, b);
    MulAtLeast(b, 1, a / b);
  }

  lemma {:induction false} ModSmaller(x: nat, b: nat)
    requires b > 0
    ensures x % b <= x && x % b < b && (x < b ==> x % b == x)
  {
    DivMul(x, b);
    MulAtLeast(x / b, 0, b);
  }

  /** Bitwise operations, bit by bit; op gives the result on one bit. */
  function Bitwise(op: (nat, nat) -> nat, n: nat, x: nat, y: nat): nat {
    if n == 0 then 0 else 2 * Bitwise(op, n - 1, x / 2, y / 2) + op(x % 2, y % 2)
  }

  function AndBit(): (nat, nat) -> nat { (x, y) => if x == 1 && y == 1 then 1 else 0 }

  function OrBit(): (nat, nat) -> nat { (x, y) => if x == 1 || y == 1 then 1 else 0 }

  function XorBit(): (nat, nat) -> nat { (x, y) => if x != y then 1 else 0 }
}
