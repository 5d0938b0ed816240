/** Machine words as integers: exclusive or, and multiplication that can be undone modulo 2^32. */
module Words {
  import opened Bytes

  const M32 := 0x1_0000_0000
  const M64 := 0x1_0000_0000_0000_0000

  type u32 = x: int | 0 <= x < M32 witness 0
  type u64 = x: int | 0 <= x < M64 witness 0

  /** Bitwise exclusive or. */
  function Xor(a: nat, b: nat): nat
    decreases a + b
  {
    if a == 0 && b == 0 then 0 else (a + b) % 2 + 2 * Xor(a / 2, b / 2)
  }

  lemma {:induction false} XorCommutes(a: nat, b: nat)
    ensures Xor(a, b) == Xor(b, a)
    decreases a + b
  {
    if a != 0 || b != 0 { XorCommutes(a / 2, b / 2); }
  }

  /** The last digit and the rest of an exclusive or. */
  lemma XorDigits(a: nat, b: nat)
    ensures Xor(a, b) % 2 == (a + b) % 2
    ensures Xor(a, b) / 2 == Xor(a / 2, b / 2)
  {
    SplitDigit((a + b) % 2, Xor(a / 2, b / 2));
  }

  lemma SplitDigit(d: nat, x: nat)
    requires d < 2
    ensures (d + 2 * x) % 2 == d && (d + 2 * x) / 2 == x
  {}

  lemma {:induction false} XorAssociates(a: nat, b: nat, c: nat)
    ensures Xor(Xor(a, b), c) == Xor(a, Xor(b, c))
    decreases a + b + c
  {
    if a != 0 || b != 0 || c != 0 {
      XorAssociates(a / 2, b / 2, c / 2);
      var x, y := Xor(a, b), Xor(b, c);
      XorDigits(a, b);
      XorDigits(b, c);
      XorDigits(x, c);
      XorDigits(a, y);
      Parity(a, b, c, x, y);
      SameDigits(Xor(x, c), Xor(a, y));
    }
  }

  lemma Parity(a: nat, b: nat, c: nat, x: nat, y: nat)
    requires x % 2 == (a + b) % 2 && y % 2 == (b + c) % 2
    ensures (x + c) % 2 == (a + y) % 2
  {}

  lemma SameDigits(x: nat, y: nat)
    requires x % 2 == y % 2 && x / 2 == y / 2
    ensures x == y
  {}

  lemma {:induction false} XorSelf(a: nat)
    ensures Xor(a, a) == 0 && Xor(a, 0) == a
  {
    if a != 0 { XorSelf(a / 2); }
  }

  /** Exclusive or with the same value twice gives the first back. */
  lemma XorCancels(a: nat, b: nat)
    ensures Xor(Xor(a, b), b) == a
  {
    XorAssociates(a, b, b);
    XorSelf(b);
    XorSelf(a);
  }

  lemma {:induction false} XorBound(a: nat, b: nat, n: nat)
    requires a < Pow2(n) && b < Pow2(n)
    ensures Xor(a, b) < Pow2(n)
    decreases n
  {
    if n > 0 && (a != 0 || b != 0) { XorBound(a / 2, b / 2, n - 1); }
  }

  lemma HalfOfSum(x: nat, h: nat)
    ensures (x + 2 * h) % 2 == x % 2 && (x + 2 * h) / 2 == x / 2 + h
  {}

  lemma Doubled(p: nat, h: nat)
    ensures 2 * p * h == 2 * (p * h)
  {}

  /** The low k bits and the rest are combined independently. */
  lemma {:induction false} XorSplits(x: nat, xs: nat, y: nat, ys: nat, k: nat)
    requires x < Pow2(k) && y < Pow2(k)
    ensures Xor(x + Pow2(k) * xs, y + Pow2(k) * ys) == Xor(x, y) + Pow2(k) * Xor(xs, ys)
    decreases k
  {
    hide Xor;
    if k > 0 {
      var p := Pow2(k - 1);
      XorSplits(x / 2, xs, y / 2, ys, k - 1);
      XorSplitsStep(x, p * xs, y, p * ys, p * Xor(xs, ys));
      Doubled(p, xs);
      Doubled(p, ys);
      Doubled(p, Xor(xs, ys));
    } else {
      XorSelf(0);
    }
  }

  lemma XorSplitsStep(x: nat, xs: nat, y: nat, ys: nat, both: nat)
    requires Xor(x / 2 + xs, y / 2 + ys) == Xor(x / 2, y / 2) + both
    ensures Xor(x + 2 * xs, y + 2 * ys) == Xor(x, y) + 2 * both
  {
    hide Xor;
    HalfOfSum(x, xs);
    HalfOfSum(y, ys);
    HalfOfSum(Xor(x, y), both);
    XorDigits(x, y);
    XorFromHalves(x + 2 * xs, y + 2 * ys, x, y, Xor(x, y) + 2 * both);
  }

  lemma XorFromHalves(a: nat, b: nat, x: nat, y: nat, c: nat)
    requires a % 2 == x % 2 && b % 2 == y % 2 && c % 2 == (x + y) % 2
    requires Xor(a / 2, b / 2) == c / 2
    ensures Xor(a, b) == c
  {
    hide Xor;
    XorDigits(a, b);
    SumParity(a, b, x, y);
    SameDigits(Xor(a, b), c);
  }

  lemma SumParity(a: nat, b: nat, x: nat, y: nat)
    requires a % 2 == x % 2 && b % 2 == y % 2
    ensures (a + b) % 2 == (x + y) % 2
  {
    assert a == 2 * (a / 2) + x % 2 && b == 2 * (b / 2) + y % 2;
  }

  /** Sixteen bits of an exclusive or need sixteen bits of each side. */
  lemma XorLow16(x: nat, y: nat)
    ensures Xor(x, y) % 0x1_0000 == Xor(x % 0x1_0000, y % 0x1_0000) < 0x1_0000
  {
    hide Xor;
    Powers();
    var a, b, xs, ys := x % 0x1_0000, y % 0x1_0000, x / 0x1_0000, y / 0x1_0000;
    XorBound(a, b, 16);
    XorSplits(a, xs, b, ys, 16);
    LowSixteen(Xor(x, y), Xor(xs, ys), Xor(a, b));
  }

  lemma LowSixteen(x: nat, high: nat, low: nat)
    requires x == low + 0x1_0000 * high && low < 0x1_0000
    ensures x % 0x1_0000 == low
  {}

  // ---------- digits, and, and not, or ----------

  /** (x >> k) & 1 */
  function Digit(x: nat, k: nat): nat {
    if k == 0 then x % 2 else Digit(x / 2, k - 1)
  }

  function Both(a: nat, b: nat): nat { if a % 2 == 1 && b % 2 == 1 then 1 else 0 }

  function Only(a: nat, b: nat): nat { if a % 2 == 1 && b % 2 == 0 then 1 else 0 }

  /** a & b */
  function And(a: nat, b: nat): nat
    decreases a + b
  {
    if a == 0 || b == 0 then 0 else Both(a, b) + 2 * And(a / 2, b / 2)
  }

  /** a & ~b */
  function AndNot(a: nat, b: nat): nat {
    if a == 0 then 0 else Only(a, b) + 2 * AndNot(a / 2, b / 2)
  }

  lemma {:induction false} AndNotZero(b: nat)
    ensures AndNot(b, 0) == b
  {
    if b > 0 { AndNotZero(b / 2); }
  }

  /** a | b */
  function Or(a: nat, b: nat): nat
    decreases a + b
  {
    if a == 0 && b == 0 then 0 else (if a % 2 + b % 2 > 0 then 1 else 0) + 2 * Or(a / 2, b / 2)
  }

  lemma {:induction false} DigitOfZero(k: nat)
    ensures Digit(0, k) == 0
  {
    if k > 0 { DigitOfZero(k - 1); }
  }

  lemma {:induction false} DigitRange(x: nat, k: nat)
    ensures 0 <= Digit(x, k) <= 1
  {
    if k > 0 { DigitRange(x / 2, k - 1); }
  }

  lemma {:induction false} AndDigit(a: nat, b: nat, k: nat)
    ensures Digit(And(a, b), k) == if Digit(a, k) == 1 && Digit(b, k) == 1 then 1 else 0
    decreases k
  {
    if a == 0 || b == 0 {
      DigitOfZero(k);
    } else {
      SplitDigit(Both(a, b), And(a / 2, b / 2));
      if k > 0 { AndDigit(a / 2, b / 2, k - 1); }
    }
  }

  lemma {:induction false} AndNotDigit(a: nat, b: nat, k: nat)
    ensures Digit(AndNot(a, b), k) == if Digit(a, k) == 1 && Digit(b, k) == 0 then 1 else 0
    decreases k
  {
    if a == 0 {
      DigitOfZero(k);
    } else {
      SplitDigit(Only(a, b), AndNot(a / 2, b / 2));
      if k > 0 { AndNotDigit(a / 2, b / 2, k - 1); }
    }
  }

  lemma {:induction false} OrDigit(a: nat, b: nat, k: nat)
    ensures Digit(Or(a, b), k) == if Digit(a, k) == 1 || Digit(b, k) == 1 then 1 else 0
    decreases k
  {
    if a == 0 && b == 0 {
      DigitOfZero(k);
    } else {
      SplitDigit(if a % 2 + b % 2 > 0 then 1 else 0, Or(a / 2, b / 2));
      if k > 0 { OrDigit(a / 2, b / 2, k - 1); }
    }
  }

  lemma {:induction false} Pow2Digit(e: nat, k: nat)
    ensures Digit(Pow2(e), k) == if k == e then 1 else 0
    decreases k
  {
    if e == 0 {
      if k > 0 { DigitOfZero(k - 1); }
    } else {
      SplitDigit(0, Pow2(e - 1));
      if k > 0 { Pow2Digit(e - 1, k - 1); }
    }
  }

  lemma {:induction false} AndNotBound(a: nat, b: nat)
    ensures AndNot(a, b) <= a
  {
    if a > 0 { AndNotBound(a / 2, b / 2); }
  }

  lemma {:induction false} OrBound(a: nat, b: nat, n: nat)
    requires a < Pow2(n) && b < Pow2(n)
    ensures Or(a, b) < Pow2(n)
    decreases n
  {
    if n > 0 { OrBound(a / 2, b / 2, n - 1); }
  }

  /** x >> k */
  function Shr(x: nat, k: nat): nat {
    if k == 0 then x else Shr(x / 2, k - 1)
  }

  /** A right shift distributes over exclusive or. */
  lemma {:induction false} ShrXor(a: nat, b: nat, k: nat)
    ensures Shr(Xor(a, b), k) == Xor(Shr(a, k), Shr(b, k))
  {
    if k > 0 {
      XorDigits(a, b);
      ShrXor(a / 2, b / 2, k - 1);
    }
  }

  /** A right shift is a division. */
  lemma {:induction false} ShrDivides(x: nat, k: nat, p: nat)
    requires p == Pow2(k)
    ensures Shr(x, k) == x / p
  {
    if k > 0 {
      ShrDivides(x / 2, k - 1, Pow2(k - 1));
      HalfThenDivide(x, Pow2(k - 1));
    }
  }

  lemma HalfThenDivide(x: nat, p: nat)
    requires p > 0
    ensures x / (2 * p) == (x / 2) / p
  {
    var h := x / 2;
    var q, r := h / p, h % p;
    assert q * (2 * p) == 2 * (q * p);
    DivUnique(x, 2 * p, q, 2 * r + x % 2);
  }

  lemma Powers()
    ensures Pow2(13) == 0x2000 && Pow2(16) == 0x1_0000 && Pow2(26) == 0x400_0000 && Pow2(32) == M32
  {
    assert Pow2(3) == 8;
    assert Pow2(6) == 64;
    assert Pow2(9) == 512;
    assert Pow2(12) == 0x1000;
    assert Pow2(15) == 0x8000;
    assert Pow2(18) == 0x4_0000;
    assert Pow2(21) == 0x20_0000;
    assert Pow2(24) == 0x100_0000;
    assert Pow2(27) == 0x800_0000;
    assert Pow2(30) == 0x4000_0000;
  }

  lemma DivUnique(a: int, d: int, q: int, r: int)
    requires d > 0 && a == q * d + r && 0 <= r < d
    ensures a / d == q && a % d == r
  {
    SameQuotient(d, q, r, a / d, a % d);
  }

  lemma SameQuotient(d: int, q: int, r: int, q': int, r': int)
    requires d > 0 && 0 <= r < d && 0 <= r' < d && q * d + r == q' * d + r'
    ensures q == q' && r == r'
  {
    if q > q' { Multiple(q - q', d); } else if q < q' { Multiple(q' - q, d); }
  }

  lemma Multiple(k: int, d: int)
    requires k >= 1 && d > 0
    ensures k * d >= d
  {}

  /** Multiplying by c modulo m is undone by multiplying by an inverse of c. */
  lemma MulBack(x: int, c: int, inv: int, m: int)
    requires 0 <= x < m && c * inv == (c * inv) / m * m + 1
    ensures ((x * c) % m * inv) % m == x
  {
    var q, y, t := (x * c) / m, (x * c) % m, (c * inv) / m;
    Regroup(x, c, inv, q, y, t, m);
    DivUnique(y * inv, m, x * t - q * inv, x);
  }

  lemma Regroup(x: int, c: int, inv: int, q: int, y: int, t: int, m: int)
    requires x * c == q * m + y && c * inv == t * m + 1
    ensures y * inv == (x * t - q * inv) * m + x
  {
    calc {
      y * inv;
      (x * c - q * m) * inv;
      x * (c * inv) - q * m * inv;
      x * (t * m + 1) - q * m * inv;
      (x * t - q * inv) * m + x;
    }
  }
}
