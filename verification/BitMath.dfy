/**
 Powers of two and the bitwise operators of unsigned machine words, written over
 the natural numbers, with the few laws of division that the other modules use.
 */
module BitMath {

  /** 2^n */
  function Pow2(n: nat): (p: nat)
    ensures p >= 1
  {
    if n == 0 then 1 else 2 * Pow2(n - 1)
  }

  lemma {:induction false} Pow2Add(a: nat, b: nat)
    ensures Pow2(a + b) == Pow2(a) * Pow2(b)
  {
    if a == 0 {
    } else {
      Pow2Add(a - 1, b);
      MulAssoc(2, Pow2(a - 1), Pow2(b));
    }
  }

  lemma {:induction false} Pow2Monotone(a: nat, b: nat)
    requires a <= b
    ensures Pow2(a) <= Pow2(b)
  {
    if a < b {
      Pow2Monotone(a, b - 1);
    }
  }

  lemma Pow2Values()
    ensures Pow2(3) == 8 && Pow2(4) == 16 && Pow2(8) == 0x100 && Pow2(16) == 0x1_0000
    ensures Pow2(32) == 0x1_0000_0000
    ensures Pow2(63) == 0x8000_0000_0000_0000
    ensures Pow2(64) == 0x1_0000_0000_0000_0000
  {
    hide Pow2;
    SmallPowers();
    Pow2Add(8, 8);
    Pow2Add(16, 16);
    Pow2Add(32, 32);
    Pow2Next(63);
  }

  lemma SmallPowers()
    ensures Pow2(3) == 8 && Pow2(4) == 16 && Pow2(8) == 0x100
  {
  }

  lemma Pow2Next(n: nat)
    ensures Pow2(n + 1) == 2 * Pow2(n)
  {
  }

  // ----- products and quotients -----

  lemma MulAssoc(a: int, b: int, c: int)
    ensures (a * b) * c == a * (b * c)
  {
  }

  /** A quotient and remainder pair is the only one. */
  lemma DivModUnique(n: int, d: int, q: int, r: int)
    requires d > 0 && 0 <= r < d
    requires n == q * d + r
    ensures n / d == q && n % d == r
  {
    var q' := n / d;
    var r' := n % d;
    assert n == q' * d + r';
    assert (q - q') * d == r' - r;
    if q > q' {
      MulLe(1, q - q', d);
    } else if q < q' {
      MulLe(q - q', -1, d);
    }
  }

  lemma MulLe(a: int, b: int, c: int)
    requires a <= b && c >= 0
    ensures a * c <= b * c
  {
  }

  lemma DivMulCancel(a: int, d: int)
    requires d > 0
    ensures (a * d) / d == a && (a * d) % d == 0
  {
    DivModUnique(a * d, d, a, 0);
  }

  /** Dividing twice is dividing by the product. */
  lemma DivDiv(n: nat, a: nat, b: nat)
    requires a > 0 && b > 0
    ensures a * b > 0
    ensures (n / a) / b == n / (a * b)
  {
    var q := n / a;
    var r := n % a;
    var q2 := q / b;
    var r2 := q % b;
    assert n == a * q + r;
    assert q == b * q2 + r2;
    assert a * q == a * (b * q2) + a * r2;
    assert a * (b * q2) == (a * b) * q2;
    MulLe(r2, b - 1, a);
    assert 0 <= a * r2 + r < a * b;
    DivModUnique(n, a * b, q2, a * r2 + r);
  }

  /** Adding a multiple of d shifts the quotient and keeps the remainder. */
  lemma DivModShift(a: int, k: int, d: int)
    requires d > 0
    ensures (a + k * d) / d == a / d + k && (a + k * d) % d == a % d
  {
    assert (a / d + k) * d == (a / d) * d + k * d;
    DivModUnique(a + k * d, d, a / d + k, a % d);
  }

  lemma SmallMod(x: nat, m: nat)
    requires x < m
    ensures x % m == x && x / m == 0
  {
    DivModUnique(x, m, 0, x);
  }

  // ----- bitwise operators -----

  /** n >> s */
  function Shr(n: nat, s: nat): nat {
    Quotient(n, Pow2(s))
  }

  function Quotient(n: nat, d: nat): nat
    requires d > 0
  {
    n / d
  }

  /** a | b */
  function BitOr(a: nat, b: nat): (r: nat)
    decreases a + b
  {
    if a == 0 then b
    else if b == 0 then a
    else 2 * BitOr(a / 2, b / 2) + (if a % 2 == 1 || b % 2 == 1 then 1 else 0)
  }

  /** a & b */
  function BitAnd(a: nat, b: nat): (r: nat)
    decreases a + b
  {
    if a == 0 || b == 0 then 0
    else 2 * BitAnd(a / 2, b / 2) + (if a % 2 == 1 && b % 2 == 1 then 1 else 0)
  }

  /** When no bit position is set on both sides, | is addition. */
  lemma {:induction false} OrDisjoint(a: nat, b: nat, k: nat)
    requires a % Pow2(k) == 0 && b < Pow2(k)
    ensures BitOr(a, b) == a + b && BitOr(b, a) == a + b
  {
    if k > 0 && a > 0 && b > 0 {
      var h := Pow2(k - 1);
      var q := a / (2 * h);
      assert a == (2 * h) * q;
      assert (2 * h) * q == 2 * (q * h);
      DivMulCancel(q, h);
      assert a / 2 == q * h && a % 2 == 0;
      OrDisjoint(a / 2, b / 2, k - 1);
    }
  }

  lemma AndStep(a: nat, b: nat)
    ensures BitAnd(a, b) == 2 * BitAnd(a / 2, b / 2) + (if a % 2 == 1 && b % 2 == 1 then 1 else 0)
  {
  }

  lemma ModDouble(n: nat, h: nat, m: nat)
    requires h > 0 && m == 2 * h
    ensures n % m == 2 * ((n / 2) % h) + n % 2
  {
    var q := (n / 2) / h;
    var r := (n / 2) % h;
    assert n / 2 == h * q + r;
    ScaleDouble(m, h, q);
    DivModUnique(n, m, q, 2 * r + n % 2);
  }

  lemma AndMaskStep(n: nat, h: nat, m: nat)
    requires h > 0 && m == 2 * h
    requires BitAnd(n / 2, h - 1) == (n / 2) % h
    ensures BitAnd(n, m - 1) == n % m
  {
    hide BitAnd;
    ModDouble(n, h, m);
    AndStep(n, m - 1);
    HalfSum(1, h - 1);
  }

  /** Masking with 2^k - 1 keeps the low k bits. */
  lemma {:induction false} AndMask(n: nat, k: nat)
    ensures BitAnd(n, Pow2(k) - 1) == n % Pow2(k)
  {
    if k > 0 {
      AndMask(n / 2, k - 1);
      AndMaskStep(n, Pow2(k - 1), Pow2(k));
    }
  }

  /** & works on the low k bits and on the rest independently. */
  lemma {:induction false} AndSplit(a: nat, b: nat, c: nat, d: nat, k: nat, u: nat, v: nat)
    requires a < Pow2(k) && b < Pow2(k)
    requires u == a + Pow2(k) * c && v == b + Pow2(k) * d
    ensures BitAnd(u, v) == BitAnd(a, b) + Pow2(k) * BitAnd(c, d)
  {
    if k == 0 {
      assert u == c && v == d;
    } else {
      var h := Pow2(k - 1);
      ScaleDouble(Pow2(k), h, c);
      ScaleDouble(Pow2(k), h, d);
      ScaleDouble(Pow2(k), h, BitAnd(c, d));
      HalfSum(a, h * c);
      HalfSum(b, h * d);
      AndSplit(a / 2, b / 2, c, d, k - 1, u / 2, v / 2);
      AndStep(u, v);
      AndStep(a, b);
    }
  }

  lemma ScaleDouble(p: nat, h: nat, x: nat)
    requires p == 2 * h
    ensures p * x == 2 * (h * x)
  {
  }

  lemma HalfSum(a: nat, x: nat)
    ensures (a + 2 * x) / 2 == a / 2 + x && (a + 2 * x) % 2 == a % 2
  {
  }

  /** Setting one bit adds its weight exactly when it was clear. */
  lemma {:induction false} OrBit(x: nat, b: nat)
    ensures BitOr(x, Pow2(b)) == if (x / Pow2(b)) % 2 == 1 then x else x + Pow2(b)
  {
    if b == 0 {
      OrStep(x, 1);
    } else {
      var h := Pow2(b - 1);
      OrBit(x / 2, b - 1);
      OrStep(x, 2 * h);
      HalfSum(0, h);
      DivDiv(x, 2, h);
    }
  }

  lemma OrStep(a: nat, b: nat)
    ensures BitOr(a, b) == 2 * BitOr(a / 2, b / 2) + (if a % 2 == 1 || b % 2 == 1 then 1 else 0)
    ensures BitOr(a, 0) == a && BitOr(0, b) == b
  {
    assert BitOr(0, b / 2) == b / 2;
    assert BitOr(a / 2, 0) == a / 2;
  }

  lemma Distribute(a: int, b: int, c: int)
    ensures (a + b) * c == a * c + b * c && c * (a + b) == c * a + c * b && (a - b) * c == a * c - b * c
  {
  }

  lemma DivisionIdentity(n: int, d: int)
    requires d > 0
    ensures n == (n / d) * d + n % d && 0 <= n % d < d
  {
  }

  lemma {:induction false} AndLe(a: nat, b: nat)
    ensures BitAnd(a, b) <= a
    decreases a + b
  {
    if a > 0 && b > 0 {
      AndLe(a / 2, b / 2);
    }
  }
}
