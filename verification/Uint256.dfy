/**
 The 256-bit unsigned integer: four 64-bit limbs, least significant first.
 Each operator is the limb algorithm of the library; its contract is stated on
 the represented number.
 */
module Uint256 {
  import opened BitMath
  import opened Bytes

  const LIMB_BASE: nat := 0x1_0000_0000_0000_0000
  const MODULUS: nat := 0x1_0000000000000000_0000000000000000_0000000000000000_0000000000000000

  type Limb = x: nat | x < 0x1_0000_0000_0000_0000
  type U128 = x: nat | x < 0x1_0000000000000000_0000000000000000
  type U256 = w: seq<Limb> | |w| == 4 witness [0, 0, 0, 0]

  const ZERO: U256 := [0, 0, 0, 0]

  /** The number a limb vector stands for. */
  function Value(w: U256): (v: nat)
    ensures v < MODULUS
  {
    w[0] as nat + 0x1_0000000000000000 * (w[1] as nat)
    + 0x1_0000000000000000_0000000000000000 * (w[2] as nat)
    + 0x1_0000000000000000_0000000000000000_0000000000000000 * (w[3] as nat)
  }

  function FromLimb(x: Limb): (w: U256)
    ensures Value(w) == x
  {
    [x, 0, 0, 0]
  }

  /** 2^(64 k) */
  function LimbWeight(k: nat): (p: nat)
    ensures p > 0
  {
    if k == 0 then 1 else 0x1_0000_0000_0000_0000 * LimbWeight(k - 1)
  }

  lemma LimbWeightValues()
    ensures LimbWeight(0) == 1
    ensures LimbWeight(1) == 0x1_0000000000000000
    ensures LimbWeight(2) == 0x1_0000000000000000_0000000000000000
    ensures LimbWeight(3) == 0x1_0000000000000000_0000000000000000_0000000000000000
    ensures LimbWeight(4) == MODULUS
  {
    assert LimbWeight(2) == 0x1_0000000000000000_0000000000000000;
  }

  lemma {:induction false} LimbWeightIsPow2(k: nat)
    ensures LimbWeight(k) == Pow2(64 * k)
  {
    if k > 0 {
      LimbWeightIsPow2(k - 1);
      Pow2Values();
      Pow2Add(64, 64 * (k - 1));
    }
  }

  lemma LimbWeightAdd(i: nat, j: nat)
    ensures LimbWeight(i + j) == LimbWeight(i) * LimbWeight(j)
  {
    LimbWeightIsPow2(i);
    LimbWeightIsPow2(j);
    LimbWeightIsPow2(i + j);
    Pow2Add(64 * i, 64 * j);
  }

  /** The number made of the limbs from k upward. */
  function HighLimbs(w: U256, k: nat): (v: nat)
    requires k <= 4
    decreases 4 - k
  {
    if k == 4 then 0 else w[k] as nat + 0x1_0000_0000_0000_0000 * HighLimbs(w, k + 1)
  }

  lemma HighLimbsAll(w: U256)
    ensures HighLimbs(w, 0) == Value(w)
  {
    assert HighLimbs(w, 3) == w[3];
    assert HighLimbs(w, 2) == w[2] as nat + 0x1_0000_0000_0000_0000 * (w[3] as nat);
    assert HighLimbs(w, 1) == w[1] as nat + 0x1_0000_0000_0000_0000 * HighLimbs(w, 2);
  }

  lemma {:induction false} HighLimbsDiv(w: U256, k: nat)
    requires k <= 4
    ensures HighLimbs(w, k) == Value(w) / LimbWeight(k)
  {
    if k == 0 {
      HighLimbsAll(w);
    } else {
      HighLimbsDiv(w, k - 1);
      DivDiv(Value(w), LimbWeight(k - 1), 0x1_0000_0000_0000_0000);
    }
  }

  /** Equal numbers have equal limbs. */
  lemma ValueInjective(a: U256, b: U256)
    requires Value(a) == Value(b)
    ensures a == b
  {
    HighLimbsAll(a);
    HighLimbsAll(b);
    forall k | 0 <= k < 4
      ensures a[k] == b[k]
    {
      EqualFrom(a, b, k);
    }
  }

  lemma {:induction false} EqualFrom(a: U256, b: U256, k: nat)
    requires k < 4 && HighLimbs(a, 0) == HighLimbs(b, 0)
    ensures HighLimbs(a, k) == HighLimbs(b, k) && a[k] == b[k]
  {
    if k > 0 {
      EqualFrom(a, b, k - 1);
      SplitUnique(a[k - 1], HighLimbs(a, k), b[k - 1], HighLimbs(b, k));
    }
    SplitUnique(a[k], HighLimbs(a, k + 1), b[k], HighLimbs(b, k + 1));
  }

  lemma SplitUnique(x: Limb, h: nat, y: Limb, g: nat)
    requires x as nat + 0x1_0000_0000_0000_0000 * h == y as nat + 0x1_0000_0000_0000_0000 * g
    ensures x == y && h == g
  {
  }

  lemma ValueUpdate(w: U256, k: nat, x: Limb)
    requires k < 4
    ensures Value(w[k := x]) == Value(w) + (x as int - w[k]) * LimbWeight(k)
  {
    hide LimbWeight;
    LimbWeightValues();
    if k == 0 {
    } else if k == 1 {
    } else if k == 2 {
    } else {
    }
  }

  // ----- comparison -----

  method Less(a: U256, b: U256) returns (lt: bool)
    ensures lt <==> Value(a) < Value(b)
  {
    var i := 3;
    while i >= 0
      invariant -1 <= i <= 3
      invariant forall k :: i < k < 4 ==> a[k] == b[k]
    {
      if a[i] != b[i] {
        return a[i] < b[i];
      }
      i := i - 1;
    }
    return false;
  }

  // ----- addition and subtraction -----

  method AddCarry(a: Limb, b: Limb, carry: Limb) returns (sum: Limb, carryOut: Limb)
    requires carry <= 1
    ensures carryOut <= 1
    ensures sum + LIMB_BASE * carryOut == a + b + carry
  {
    var s: U128 := a + b + carry;
    carryOut := s / 0x1_0000_0000_0000_0000;
    sum := s % 0x1_0000_0000_0000_0000;
  }

  method SubBorrow(a: Limb, b: Limb, borrow: Limb) returns (diff: Limb, borrowOut: Limb)
    requires borrow <= 1
    ensures borrowOut <= 1
    ensures diff - LIMB_BASE * borrowOut == a - b - borrow
  {
    var bb: U128 := b + borrow;
    var d: U128 := (a - bb) % 0x1_0000000000000000_0000000000000000;
    borrowOut := if a < bb then 1 else 0;
    diff := d % 0x1_0000_0000_0000_0000;
  }

  method Add(a: U256, b: U256) returns (r: U256)
    ensures Value(r) == (Value(a) + Value(b)) % MODULUS
  {
    var s0, c0 := AddCarry(a[0], b[0], 0);
    var s1, c1 := AddCarry(a[1], b[1], c0);
    var s2, c2 := AddCarry(a[2], b[2], c1);
    var s3, c3 := AddCarry(a[3], b[3], c2);
    r := [s0, s1, s2, s3];
    DivModUnique(Value(a) + Value(b), MODULUS, c3, Value(r));
  }

  method Sub(a: U256, b: U256) returns (r: U256)
    ensures Value(r) == (Value(a) - Value(b)) % MODULUS
  {
    var d0, b0 := SubBorrow(a[0], b[0], 0);
    var d1, b1 := SubBorrow(a[1], b[1], b0);
    var d2, b2 := SubBorrow(a[2], b[2], b1);
    var d3, b3 := SubBorrow(a[3], b[3], b2);
    r := [d0, d1, d2, d3];
    DivModUnique(Value(a) - Value(b), MODULUS, -(b3 as int), Value(r));
  }

  // ----- multiplication -----

  /** The number made of the k low limbs. */
  function LowValue(w: U256, k: nat): (v: nat)
    requires k <= 4
  {
    if k == 0 then 0 else LowValue(w, k - 1) + w[k - 1] * LimbWeight(k - 1)
  }

  /** What lies above the k low limbs is a multiple of 2^(64 k). */
  lemma {:induction false} LowHigh(w: U256, k: nat)
    requires k <= 4
    ensures Value(w) == LowValue(w, k) + HighLimbs(w, k) * LimbWeight(k)
  {
    if k == 0 {
      HighLimbsAll(w);
    } else {
      LowHigh(w, k - 1);
      LowHighStep(LowValue(w, k - 1), w[k - 1], HighLimbs(w, k), LimbWeight(k - 1));
    }
  }

  lemma LowHighStep(low: nat, x: nat, h: nat, p: nat)
    ensures low + (x + 0x1_0000_0000_0000_0000 * h) * p == low + x * p + h * (0x1_0000_0000_0000_0000 * p)
  {
  }

  lemma LowValueAll(w: U256)
    ensures LowValue(w, 4) == Value(w)
  {
    LowHigh(w, 4);
  }

  /** A product of limbs plus two limbs fits in 128 bits, and its high half in a limb. */
  lemma PartialSumFits(a: Limb, b: Limb, r: Limb, carry: Limb)
    ensures a * b + r + carry < 0x1_0000000000000000_0000000000000000
  {
    MulLe(a, 0xffff_ffff_ffff_ffff, b);
  }

  lemma Crossed(a: int, b: int, c: int, d: int)
    ensures (a * b) * (c * d) == (a * c) * (b * d)
  {
    MulAssoc(a, b, c * d);
    MulAssoc(b, c, d);
    MulAssoc(c, b, d);
    MulAssoc(a, c, b * d);
  }

  /** Algebra of one inner step: cur = a b + r + carry is stored as low half and new carry. */
  lemma MulStep(v: nat, carry: nat, old_r: nat, a: nat, b: nat, wi: nat, wj: nat, base: nat, low_j: nat,
                low: nat, carry': nat, v': nat, wj': nat, low_j': nat)
    requires a * b + old_r + carry == low + carry' * 0x1_0000_0000_0000_0000
    requires v + carry * (wi * wj) == base + (a * wi) * low_j
    requires v' == v + (low - old_r) * (wi * wj)
    requires wj' == 0x1_0000_0000_0000_0000 * wj && low_j' == low_j + b * wj
    ensures v' + carry' * (wi * wj') == base + (a * wi) * low_j'
  {
    var w, c := wi * wj, 0x1_0000_0000_0000_0000;
    MulAssoc(wi, wj, c);
    Distribute(low, old_r, w);
    Distribute(a * b, old_r + carry, w);
    Distribute(old_r, carry, w);
    Distribute(low, carry' * c, w);
    MulAssoc(carry', c, w);
    Crossed(a, b, wi, wj);
    Distribute(low_j, b * wj, a * wi);
  }

  /** Algebra of one outer step: the limbs that fall off are a multiple of the modulus. */
  lemma MulRow(v: nat, carry: nat, r0: nat, x: nat, a: nat, wi: nat, low: nat, t: nat, wk: nat, b: nat)
    requires wi * wk == MODULUS && v < MODULUS
    requires r0 == (x * b) % MODULUS
    requires b == low + t * wk
    requires v + carry * MODULUS == r0 + (a * wi) * low
    ensures v == ((x + a * wi) * b) % MODULUS
  {
    var q := (x * b) / MODULUS;
    assert x * b == q * MODULUS + r0;
    assert (a * wi) * (low + t * wk) == (a * wi) * low + (a * t) * (wi * wk);
    assert (x + a * wi) * b == x * b + (a * wi) * b;
    assert (x + a * wi) * b == q * MODULUS + v + carry * MODULUS + (a * t) * MODULUS;
    assert (q + carry + a * t) * MODULUS == q * MODULUS + carry * MODULUS + (a * t) * MODULUS;
    DivModUnique((x + a * wi) * b, MODULUS, q + carry + a * t, v);
  }

  /** One step of a row: the limb and the carry that replace r[i + j] and carry. */
  method MulAddLimb(a: Limb, b: Limb, r: Limb, carry: Limb) returns (low: Limb, high: Limb)
    ensures low + high * LIMB_BASE == a * b + r + carry
  {
    PartialSumFits(a, b, r, carry);
    var cur: U128 := a * b + r + carry;
    low := cur % 0x1_0000_0000_0000_0000;
    high := cur / 0x1_0000_0000_0000_0000;
  }

  /** One row of the schoolbook product: adds a b 2^(64 i), dropping limbs above the fourth. */
  method MulAddRow(r0: U256, a: Limb, b: U256, i: nat) returns (r: U256, ghost dropped: nat)
    requires i < 4
    ensures Value(r) + dropped * MODULUS == Value(r0) + (a * LimbWeight(i)) * LowValue(b, 4 - i)
  {
    r := r0;
    var carry: Limb := 0;
    var j := 0;
    ghost var wi := LimbWeight(i);
    while j + i < 4
      invariant 0 <= j <= 4 - i
      invariant Value(r) + carry * (wi * LimbWeight(j)) == Value(r0) + (a * wi) * LowValue(b, j)
    {
      var low, high := MulAddLimb(a, b[j], r[i + j], carry);
      LimbWeightAdd(i, j);
      ValueUpdate(r, i + j, low);
      MulStep(Value(r), carry, r[i + j], a, b[j], wi, LimbWeight(j), Value(r0), LowValue(b, j),
              low, high, Value(r[i + j := low]), LimbWeight(j + 1), LowValue(b, j + 1));
      r := r[i + j := low];
      carry := high;
      j := j + 1;
    }
    LimbWeightAdd(i, 4 - i);
    LimbWeightValues();
    dropped := carry;
  }

  /** Schoolbook product with the limbs above the fourth dropped. */
  method Mul(a: U256, b: U256) returns (r: U256)
    ensures Value(r) == (Value(a) * Value(b)) % MODULUS
  {
    r := ZERO;
    for i := 0 to 4
      invariant Value(r) == (LowValue(a, i) * Value(b)) % MODULUS
    {
      ghost var r0 := Value(r);
      ghost var dropped;
      r, dropped := MulAddRow(r, a[i], b, i);
      LowHigh(b, 4 - i);
      LimbWeightAdd(i, 4 - i);
      LimbWeightValues();
      MulRow(Value(r), dropped, r0, LowValue(a, i), a[i], LimbWeight(i), LowValue(b, 4 - i), HighLimbs(b, 4 - i),
             LimbWeight(4 - i), Value(b));
    }
    LowValueAll(a);
  }

  // ----- shifts -----

  lemma Complement(b: nat)
    requires b <= 64
    ensures Pow2(b) * Pow2(64 - b) == LIMB_BASE
  {
    Pow2Values();
    Pow2Add(b, 64 - b);
  }

  /** With p = 2^b and q = 2^(64 - b): the limb x << b keeps, and the bits it pushes out. */
  lemma SplitProduct(x: nat, p: nat, q: nat, m: nat)
    requires p > 0 && q > 0 && m == p * q && x < m
    ensures (x * p) % m == (x % q) * p && (x * p) / m == x / q
    ensures x * p == m * (x / q) + (x * p) % m
    ensures ((x * p) % m) % p == 0 && (x * p) % m <= m - p
    ensures x / q < p
  {
    var c, r := x / q, x % q;
    assert x == q * c + r;
    assert (q * c + r) * p == c * (p * q) + r * p;
    MulLe(r, q - 1, p);
    assert (q - 1) * p == p * q - p;
    DivModUnique(x * p, m, c, r * p);
    DivMulCancel(r, p);
    if c >= p {
      MulLe(p, c, q);
      assert false;
    }
  }

  lemma JoinProduct(x: nat, above: nat, p: nat, q: nat, m: nat)
    requires p > 0 && q > 0 && m == p * q && x < m
    ensures p * (x / p + (above % p) * q) + x % p == x + m * (above % p)
    ensures x / p + (above % p) * q < m
    ensures x / p < q
  {
    var c, a := x / p, above % p;
    SplitProduct(x, q, p, m);
    assert p * (c + a * q) == p * c + (p * q) * a;
    MulLe(a, p - 1, q);
    assert (p - 1) * q == p * q - q;
  }

  /** x << b reduced to a limb, for 0 < b < 64. */
  function ShlLimb(x: Limb, b: nat): Limb {
    (x * Pow2(b)) % 0x1_0000_0000_0000_0000
  }

  function ShrLimb(x: Limb, b: nat): Limb {
    LimbQuotient(x, Pow2(b))
  }

  function LimbQuotient(x: Limb, d: nat): Limb
    requires d > 0
  {
    QuotientLe(x, d);
    x / d
  }

  lemma QuotientLe(x: nat, d: nat)
    requires d > 0
    ensures x / d <= x
  {
    MulLe(1, d, x / d);
    assert x == d * (x / d) + x % d;
  }

  /** Limb i of the bit part of `<<=`: x is limb i and below is limb i - 1 (0 when there is none). */
  function MergeLeft(x: Limb, below: Limb, b: nat): (y: Limb)
    requires b < 64
    ensures y + LIMB_BASE * (x / Pow2(64 - b)) == x * Pow2(b) + below / Pow2(64 - b)
  {
    Complement(b);
    SplitProduct(x, Pow2(b), Pow2(64 - b), LIMB_BASE);
    SplitProduct(below, Pow2(b), Pow2(64 - b), LIMB_BASE);
    OrDisjoint(ShlLimb(x, b), ShrLimb(below, 64 - b), b);
    BitOr(ShlLimb(x, b), ShrLimb(below, 64 - b))
  }

  /** Limb i of the bit part of `>>=`: x is limb i and above is limb i + 1 (0 when there is none). */
  function MergeRight(x: Limb, above: Limb, b: nat): (y: Limb)
    requires 0 < b < 64
    ensures Pow2(b) * y + x % Pow2(b) == x + LIMB_BASE * (above % Pow2(b))
  {
    Complement(b);
    SplitProduct(above, Pow2(64 - b), Pow2(b), LIMB_BASE);
    JoinProduct(x, above, Pow2(b), Pow2(64 - b), LIMB_BASE);
    OrDisjoint(ShlLimb(above, 64 - b), ShrLimb(x, b), 64 - b);
    BitOr(ShrLimb(x, b), ShlLimb(above, 64 - b))
  }

  function Below(w: U256, i: nat): Limb
    requires i < 4
  {
    if i > 0 then w[i - 1] else 0
  }

  function Above(w: U256, i: nat): Limb
    requires i < 4
  {
    if i + 1 < 4 then w[i + 1] else 0
  }

  lemma LimbShiftLeftValue(w: U256, k: nat, out: U256)
    requires k < 4
    requires forall i :: 0 <= i < 4 ==> out[i] == if i >= k then w[i - k] else 0
    ensures Value(out) == (Value(w) * LimbWeight(k)) % MODULUS
  {
    LimbWeightValues();
    var top := if k == 0 then 0
               else if k == 1 then w[3] as nat
               else if k == 2 then w[2] as nat + 0x1_0000000000000000 * (w[3] as nat)
               else w[1] as nat + 0x1_0000000000000000 * (w[2] as nat)
                    + 0x1_0000000000000000_0000000000000000 * (w[3] as nat);
    assert Value(w) * LimbWeight(k) == top * MODULUS + Value(out);
    DivModUnique(Value(w) * LimbWeight(k), MODULUS, top, Value(out));
  }

  lemma LimbShiftRightValue(w: U256, k: nat, out: U256)
    requires k < 4
    requires forall i :: 0 <= i < 4 ==> out[i] == if i + k < 4 then w[i + k] else 0
    ensures Value(out) == Value(w) / LimbWeight(k)
  {
    LimbWeightValues();
    var low := if k == 0 then 0
               else if k == 1 then w[0] as nat
               else if k == 2 then w[0] as nat + 0x1_0000000000000000 * (w[1] as nat)
               else w[0] as nat + 0x1_0000000000000000 * (w[1] as nat)
                    + 0x1_0000000000000000_0000000000000000 * (w[2] as nat);
    DivModUnique(Value(w), LimbWeight(k), Value(out), low);
  }

  lemma ValueScale(w: U256, p: nat)
    ensures Value(w) * p == w[0] * p + 0x1_0000000000000000 * (w[1] * p)
                            + 0x1_0000000000000000_0000000000000000 * (w[2] * p)
                            + 0x1_0000000000000000_0000000000000000_0000000000000000 * (w[3] * p)
  {
  }

  /** The bits a limb pushes out are the bits the next limb takes in. */
  lemma TelescopeLeft(x0: nat, x1: nat, x2: nat, x3: nat, c0: nat, c1: nat, c2: nat, c3: nat, out: U256)
    requires out[0] + LIMB_BASE * c0 == x0 && out[1] + LIMB_BASE * c1 == x1 + c0
    requires out[2] + LIMB_BASE * c2 == x2 + c1 && out[3] + LIMB_BASE * c3 == x3 + c2
    ensures c3 * MODULUS + Value(out) == x0 + 0x1_0000000000000000 * x1 + 0x1_0000000000000000_0000000000000000 * x2
                                         + 0x1_0000000000000000_0000000000000000_0000000000000000 * x3
  {
  }

  lemma TelescopeRight(w: U256, r0: nat, r1: nat, r2: nat, r3: nat, x0: nat, x1: nat, x2: nat, x3: nat)
    requires x0 + r0 == w[0] + LIMB_BASE * r1 && x1 + r1 == w[1] + LIMB_BASE * r2
    requires x2 + r2 == w[2] + LIMB_BASE * r3 && x3 + r3 == w[3]
    ensures Value(w) == r0 + x0 + 0x1_0000000000000000 * x1 + 0x1_0000000000000000_0000000000000000 * x2
                        + 0x1_0000000000000000_0000000000000000_0000000000000000 * x3
  {
  }

  lemma ShiftedLeftTotal(w: U256, out: U256, p: nat, c0: nat, c1: nat, c2: nat, c3: nat)
    requires out[0] + LIMB_BASE * c0 == w[0] * p
    requires out[1] + LIMB_BASE * c1 == w[1] * p + c0
    requires out[2] + LIMB_BASE * c2 == w[2] * p + c1
    requires out[3] + LIMB_BASE * c3 == w[3] * p + c2
    ensures Value(out) == (Value(w) * p) % MODULUS
  {
    ValueScale(w, p);
    TelescopeLeft(w[0] * p, w[1] * p, w[2] * p, w[3] * p, c0, c1, c2, c3, out);
    DivModUnique(Value(w) * p, MODULUS, c3, Value(out));
  }

  lemma ShiftedRightTotal(w: U256, out: U256, p: nat, r0: nat, r1: nat, r2: nat, r3: nat)
    requires r0 < p
    requires p * out[0] + r0 == w[0] + LIMB_BASE * r1
    requires p * out[1] + r1 == w[1] + LIMB_BASE * r2
    requires p * out[2] + r2 == w[2] + LIMB_BASE * r3
    requires p * out[3] + r3 == w[3]
    ensures Value(out) == Value(w) / p
  {
    ValueScale(out, p);
    TelescopeRight(w, r0, r1, r2, r3, out[0] * p, out[1] * p, out[2] * p, out[3] * p);
    DivModUnique(Value(w), p, Value(out), r0);
  }

  lemma BitShiftLeftValue(w: U256, b: nat, out: U256)
    requires b < 64
    requires forall i :: 0 <= i < 4 ==> out[i] == MergeLeft(w[i], Below(w, i), b)
    ensures Value(out) == (Value(w) * Pow2(b)) % MODULUS
  {
    hide MergeLeft, Pow2, Value, LimbWeight;
    var q := Pow2(64 - b);
    ShiftedLeftTotal(w, out, Pow2(b), w[0] / q, w[1] / q, w[2] / q, w[3] / q);
  }

  lemma BitShiftRightValue(w: U256, b: nat, out: U256)
    requires 0 < b < 64
    requires forall i :: 0 <= i < 4 ==> out[i] == MergeRight(w[i], Above(w, i), b)
    ensures Value(out) == Value(w) / Pow2(b)
  {
    hide MergeRight, Pow2, Value, LimbWeight;
    var p := Pow2(b);
    ShiftedRightTotal(w, out, p, w[0] % p, w[1] % p, w[2] % p, w[3] % p);
  }

  lemma ModTimes(x: nat, p: nat, m: nat)
    requires m > 0
    ensures ((x % m) * p) % m == (x * p) % m
  {
    var q, r := x / m, x % m;
    DivisionIdentity(x, m);
    Distribute(q * m, r, p);
    MulAssoc(q, m, p);
    MulAssoc(q, p, m);
    DivModShift(r * p, q * p, m);
  }

  lemma BigShift(n: nat, s: nat)
    requires s >= 256
    ensures (n * Pow2(s)) % MODULUS == 0
    ensures n < MODULUS ==> n / Pow2(s) == 0
  {
    LimbWeightIsPow2(4);
    LimbWeightValues();
    Pow2Add(256, s - 256);
    var t := Pow2(s - 256);
    MulLe(1, t, MODULUS);
    MulAssoc(n, t, MODULUS);
    DivMulCancel(n * t, MODULUS);
    if n < MODULUS {
      DivModUnique(n, Pow2(s), 0, n);
    }
  }

  /** Shifting by whole limbs and then by the remaining bits. */
  lemma ShiftSplit(n: nat, k: nat, b: nat, s: nat)
    requires s == 64 * k + b
    ensures (((n * LimbWeight(k)) % MODULUS) * Pow2(b)) % MODULUS == (n * Pow2(s)) % MODULUS
    ensures (n / LimbWeight(k)) / Pow2(b) == n / Pow2(s)
    ensures n < MODULUS && k == 0 ==> (n * LimbWeight(k)) % MODULUS == n
    ensures b == 0 ==> (n * LimbWeight(k)) % MODULUS == (n * Pow2(s)) % MODULUS
  {
    LimbWeightIsPow2(k);
    assert Pow2(0) == 1;
    hide Pow2, LimbWeight;
    Pow2Add(64 * k, b);
    ScaleTwice(n, LimbWeight(k), Pow2(b), Pow2(s), MODULUS);
  }

  lemma ScaleTwice(n: nat, w: nat, p: nat, x: nat, m: nat)
    requires w > 0 && p > 0 && m > 0 && x == w * p
    ensures x > 0
    ensures (((n * w) % m) * p) % m == (n * x) % m
    ensures (n / w) / p == n / x
    ensures n < m && w == 1 ==> (n * w) % m == n
    ensures p == 1 ==> (n * w) % m == (n * x) % m
  {
    ModTimes(n * w, p, m);
    MulAssoc(n, w, p);
    DivDiv(n, w, p);
    if n < m {
      SmallMod(n, m);
    }
  }

  /** The whole-limb part of `<<=`. */
  method LimbShiftLeft(w: array<Limb>, limbShift: nat)
    requires w.Length == 4 && limbShift < 4
    modifies w
    ensures Value(w[..]) == (old(Value(w[..])) * LimbWeight(limbShift)) % MODULUS
  {
    ghost var start: U256 := w[..];
    var i := 3;
    while i >= 0
      invariant -1 <= i <= 3
      invariant forall k :: 0 <= k <= i ==> w[k] == start[k]
      invariant forall k :: i < k < 4 ==> w[k] == if k >= limbShift then start[k - limbShift] else 0
    {
      w[i] := if i >= limbShift then w[i - limbShift] else 0;
      i := i - 1;
    }
    LimbShiftLeftValue(start, limbShift, w[..]);
  }

  /** The part of `<<=` inside a limb. */
  method BitShiftLeft(w: array<Limb>, bitShift: nat)
    requires w.Length == 4 && 0 < bitShift < 64
    modifies w
    ensures Value(w[..]) == (old(Value(w[..])) * Pow2(bitShift)) % MODULUS
  {
    hide MergeLeft;
    ghost var start: U256 := w[..];
    var i := 3;
    while i >= 0
      invariant -1 <= i <= 3
      invariant forall k :: 0 <= k <= i ==> w[k] == start[k]
      invariant forall k :: i < k < 4 ==> w[k] == MergeLeft(start[k], Below(start, k), bitShift)
    {
      w[i] := MergeLeft(w[i], if i > 0 then w[i - 1] else 0, bitShift);
      i := i - 1;
    }
    BitShiftLeftValue(start, bitShift, w[..]);
  }

  method LimbShiftRight(w: array<Limb>, limbShift: nat)
    requires w.Length == 4 && limbShift < 4
    modifies w
    ensures Value(w[..]) == old(Value(w[..])) / LimbWeight(limbShift)
  {
    ghost var start: U256 := w[..];
    for i := 0 to 4
      invariant forall k :: 0 <= k < i ==> w[k] == if k + limbShift < 4 then start[k + limbShift] else 0
      invariant forall k :: i <= k < 4 ==> w[k] == start[k]
    {
      w[i] := if i + limbShift < 4 then w[i + limbShift] else 0;
    }
    LimbShiftRightValue(start, limbShift, w[..]);
  }

  method BitShiftRight(w: array<Limb>, bitShift: nat)
    requires w.Length == 4 && 0 < bitShift < 64
    modifies w
    ensures Value(w[..]) == old(Value(w[..])) / Pow2(bitShift)
  {
    hide MergeRight;
    ghost var start: U256 := w[..];
    for i := 0 to 4
      invariant forall k :: 0 <= k < i ==> w[k] == MergeRight(start[k], Above(start, k), bitShift)
      invariant forall k :: i <= k < 4 ==> w[k] == start[k]
    {
      w[i] := MergeRight(w[i], if i + 1 < 4 then w[i + 1] else 0, bitShift);
    }
    BitShiftRightValue(start, bitShift, w[..]);
  }

  /** In-place `<<=`: multiplication by 2^s modulo 2^256, for every shift amount. */
  method ShiftLeftAssign(w: array<Limb>, s: nat)
    requires w.Length == 4
    modifies w
    ensures Value(w[..]) == (old(Value(w[..])) * Pow2(s)) % MODULUS
  {
    ghost var start: U256 := w[..];
    if s >= 256 {
      w[0], w[1], w[2], w[3] := 0, 0, 0, 0;
      BigShift(Value(start), s);
      return;
    }
    var limbShift, bitShift := s / 64, s % 64;
    ShiftSplit(Value(start), limbShift, bitShift, s);
    ghost var afterLimbs := (Value(start) * LimbWeight(limbShift)) % MODULUS;
    if limbShift != 0 {
      LimbShiftLeft(w, limbShift);
    }
    assert Value(w[..]) == afterLimbs;
    if bitShift != 0 {
      BitShiftLeft(w, bitShift);
    }
  }

  /** In-place `>>=`: floor division by 2^s, for every shift amount. */
  method ShiftRightAssign(w: array<Limb>, s: nat)
    requires w.Length == 4
    modifies w
    ensures Value(w[..]) == old(Value(w[..])) / Pow2(s)
  {
    ghost var start: U256 := w[..];
    if s >= 256 {
      w[0], w[1], w[2], w[3] := 0, 0, 0, 0;
      BigShift(Value(start), s);
      return;
    }
    var limbShift, bitShift := s / 64, s % 64;
    ShiftSplit(Value(start), limbShift, bitShift, s);
    if limbShift != 0 {
      LimbShiftRight(w, limbShift);
    }
    if bitShift != 0 {
      BitShiftRight(w, bitShift);
    }
  }

  method ShiftLeft(a: U256, s: nat) returns (r: U256)
    ensures Value(r) == (Value(a) * Pow2(s)) % MODULUS
  {
    var w := new Limb[4](i requires 0 <= i < 4 => a[i]);
    assert w[..] == a;
    ShiftLeftAssign(w, s);
    r := w[..];
  }

  method ShiftRight(a: U256, s: nat) returns (r: U256)
    ensures Value(r) == Value(a) / Pow2(s)
  {
    var w := new Limb[4](i requires 0 <= i < 4 => a[i]);
    assert w[..] == a;
    ShiftRightAssign(w, s);
    r := w[..];
  }

  // ----- single bits and bitwise and -----

  /** Bit i of the number is bit i % 64 of limb i / 64. */
  lemma BitOfLimb(w: U256, k: nat, b: nat)
    requires k < 4 && b < 64
    ensures (w[k] / Pow2(b)) % 2 == (Value(w) / Pow2(64 * k + b)) % 2
  {
    hide Value;
    assert Value(w) / Pow2(64 * k + b) == HighLimbs(w, k) / Pow2(b) by {
      HighLimbsDiv(w, k);
      ShiftSplit(Value(w), k, b, 64 * k + b);
    }
    HalfWeight(b);
    LowDigit(w[k], HighLimbs(w, k + 1), Pow2(b), Pow2(63 - b), 2, LIMB_BASE);
  }

  /** Four bits at a time: the same for hexadecimal digits. */
  lemma NibbleOfLimb(w: U256, k: nat, b: nat)
    requires k < 4 && b <= 60
    ensures (w[k] / Pow2(b)) % 16 == (Value(w) / Pow2(64 * k + b)) % 16
  {
    hide Value;
    assert Value(w) / Pow2(64 * k + b) == HighLimbs(w, k) / Pow2(b) by {
      HighLimbsDiv(w, k);
      ShiftSplit(Value(w), k, b, 64 * k + b);
    }
    assert LIMB_BASE == 16 * (Pow2(60 - b) * Pow2(b)) by {
      Pow2Values();
      Pow2Add(60 - b, b);
      Pow2Add(4, 60);
    }
    LowDigit(w[k], HighLimbs(w, k + 1), Pow2(b), Pow2(60 - b), 16, LIMB_BASE);
  }

  lemma HalfWeight(b: nat)
    requires b < 64
    ensures LIMB_BASE == 2 * (Pow2(63 - b) * Pow2(b))
  {
    Pow2Values();
    Pow2Add(63 - b, b);
  }

  /** What is above a limb does not reach its digits. */
  lemma LowDigit(x: nat, h: nat, p: nat, rest: nat, g: nat, m: nat)
    requires p > 0 && g > 0 && m == g * (rest * p)
    ensures ((x + m * h) / p) % g == (x / p) % g
  {
    assert m * h == (g * (rest * h)) * p;
    DivModShift(x, g * (rest * h), p);
    assert g * (rest * h) == (rest * h) * g;
    DivModShift(x / p, rest * h, g);
  }

  method GetBit(w: U256, i: nat) returns (bit: bool)
    requires i < 256
    ensures bit <==> (Value(w) / Pow2(i)) % 2 == 1
  {
    BitOfLimb(w, i / 64, i % 64);
    var shifted := ShrLimb(w[i / 64], i % 64);
    AndMask(shifted, 1);
    bit := BitAnd(shifted, 1) == 1;
  }

  method SetBit(w: U256, i: nat) returns (r: U256)
    requires i < 256
    ensures Value(r) == if (Value(w) / Pow2(i)) % 2 == 1 then Value(w) else Value(w) + Pow2(i)
  {
    hide Pow2, Value, LimbWeight;
    var k, b := i / 64, i % 64;
    BitOfLimb(w, k, b);
    var limb := SetLimbBit(w[k], b);
    ValueUpdate(w, k, limb);
    LimbWeightIsPow2(k);
    Pow2Add(64 * k, b);
    r := w[k := limb];
  }

  method SetLimbBit(x: Limb, b: nat) returns (y: Limb)
    requires b < 64
    ensures y == if (x / Pow2(b)) % 2 == 1 then x else x + Pow2(b)
  {
    OrBit(x, b);
    HalfWeight(b);
    if (x / Pow2(b)) % 2 == 0 {
      BitRoom(x, Pow2(b), Pow2(63 - b), LIMB_BASE);
    }
    y := BitOr(x, Pow2(b));
  }

  /** A limb with a bit clear stays a limb when that bit's weight is added. */
  lemma BitRoom(x: nat, p: nat, half: nat, m: nat)
    requires p > 0 && m == 2 * (half * p) && x < m && (x / p) % 2 == 0
    ensures x + p < m
  {
    DivisionIdentity(x, p);
    EvenQuotient(x, p, half, m, x / p, x % p);
  }

  lemma EvenQuotient(x: nat, p: nat, half: nat, m: nat, c: nat, r: nat)
    requires x == c * p + r && r < p && c % 2 == 0 && m == 2 * (half * p) && x < m
    ensures x + p < m
  {
    MulAssoc(2, half, p);
    if c >= 2 * half {
      MulLe(2 * half, c, p);
      assert false;
    }
    MulLe(c + 2, 2 * half, p);
    Distribute(c, 2, p);
  }

  method And(a: U256, b: U256) returns (r: U256)
    ensures Value(r) == BitAnd(Value(a), Value(b))
  {
    AndLe(a[0], b[0]);
    AndLe(a[1], b[1]);
    AndLe(a[2], b[2]);
    AndLe(a[3], b[3]);
    r := [BitAnd(a[0], b[0]), BitAnd(a[1], b[1]), BitAnd(a[2], b[2]), BitAnd(a[3], b[3])];
    AndLimbs(a, b, r, 0);
    HighLimbsAll(a);
    HighLimbsAll(b);
    HighLimbsAll(r);
  }

  lemma {:induction false} AndLimbs(a: U256, b: U256, r: U256, k: nat)
    requires k <= 4
    requires forall i :: 0 <= i < 4 ==> r[i] == BitAnd(a[i], b[i])
    ensures HighLimbs(r, k) == BitAnd(HighLimbs(a, k), HighLimbs(b, k))
    decreases 4 - k
  {
    if k < 4 {
      AndLimbs(a, b, r, k + 1);
      Pow2Values();
      AndSplit(a[k], b[k], HighLimbs(a, k + 1), HighLimbs(b, k + 1), 64, HighLimbs(a, k), HighLimbs(b, k));
    }
  }

  /** x << 1 */
  method Shl1(x: U256) returns (r: U256)
    ensures Value(r) == (Value(x) * 2) % MODULUS
  {
    hide MergeLeft;
    Pow2Values();
    var carry: Limb := 0;
    r := x;
    for i := 0 to 4
      invariant carry == if i > 0 then ShrLimb(x[i - 1], 63) else 0
      invariant forall k :: 0 <= k < i ==> r[k] == MergeLeft(x[k], Below(x, k), 1)
      invariant forall k :: i <= k < 4 ==> r[k] == x[k]
    {
      var next := ShrLimb(r[i], 63);
      var limb := JoinShifted(r[i], carry, Below(x, i));
      r := r[i := limb];
      carry := next;
    }
    BitShiftLeftValue(x, 1, r);
    assert Pow2(1) == 2;
  }

  /** (x << 1) | carry */
  method JoinShifted(x: Limb, carry: Limb, ghost below: Limb) returns (y: Limb)
    requires carry == ShrLimb(below, 63)
    ensures y == MergeLeft(x, below, 1)
  {
    assert MergeLeft(x, below, 1) == BitOr(ShlLimb(x, 1), carry);
    y := BitOr(ShlLimb(x, 1), carry);
  }

  // ----- division -----

  predicate FitsU64(w: U256) {
    w[1] == 0 && w[2] == 0 && w[3] == 0
  }

  lemma {:induction false} HighLimbsUpdate(w: U256, i: nat, x: Limb, k: nat)
    requires i < k <= 4
    ensures HighLimbs(w[i := x], k) == HighLimbs(w, k)
    decreases 4 - k
  {
    if k < 4 {
      HighLimbsUpdate(w, i, x, k + 1);
    }
  }

  lemma DivStep(hn: nat, hq: nat, d: nat, r: nat, x: nat, b: nat)
    requires hn == hq * d + r && 0 <= r < d && x < b
    ensures (r * b + x) / d < b
    ensures x + b * hn == ((r * b + x) / d + b * hq) * d + (r * b + x) % d
  {
    var t := r * b + x;
    MulLe(r, d - 1, b);
    Distribute(d, 1, b);
    DivisionIdentity(t, d);
    Distribute(t / d, b * hq, d);
    MulAssoc(b, hq, d);
    Distribute(hq * d, r, b);
    QuotientBelow(t, d, b);
  }

  lemma QuotientBelow(t: nat, d: nat, b: nat)
    requires d > 0 && t < d * b
    ensures t / d < b
  {
    DivisionIdentity(t, d);
    if t / d >= b {
      MulLe(b, t / d, d);
      assert false;
    }
  }

  /** Division by one limb, most significant limb first. */
  method DivModU64(n: U256, d: Limb) returns (q: U256, rem: Limb)
    requires d > 0
    ensures Value(n) == Value(q) * d + rem && rem < d
  {
    q := ZERO;
    var r: U128 := 0;
    var i := 3;
    while i >= 0
      invariant -1 <= i <= 3
      invariant r < d
      invariant HighLimbs(n, i + 1) == HighLimbs(q, i + 1) * d + r
    {
      DivStep(HighLimbs(n, i + 1), HighLimbs(q, i + 1), d, r, n[i], 0x1_0000_0000_0000_0000);
      r := r * 0x1_0000_0000_0000_0000 + n[i];
      var qi: Limb := r / d;
      r := r % d;
      HighLimbsUpdate(q, i, qi, i + 1);
      q := q[i := qi];
      i := i - 1;
    }
    rem := r;
    HighLimbsAll(n);
    HighLimbsAll(q);
  }

  /** The index of the lowest set bit (std::countr_zero on a non-zero limb). */
  function CountrZero(x: Limb): (k: nat)
    requires x > 0
    ensures k < 64 && x % Pow2(k) == 0
  {
    Pow2Values();
    CountrZeroBound(x, 64);
    LowestBit(x)
  }

  function LowestBit(x: nat): (k: nat)
    requires x > 0
    ensures x % Pow2(k) == 0
  {
    if x % 2 == 1 then 0
    else
      var k := LowestBit(x / 2);
      ModDouble(x, Pow2(k), Pow2(k + 1));
      k + 1
  }

  lemma {:induction false} CountrZeroBound(x: nat, n: nat)
    requires 0 < x < Pow2(n)
    ensures LowestBit(x) < n
  {
    if x % 2 == 0 {
      CountrZeroBound(x / 2, n - 1);
    }
  }

  lemma {:induction false} LowestBitOfPower(j: nat)
    ensures LowestBit(Pow2(j)) == j
  {
    if j > 0 {
      LowestBitOfPower(j - 1);
    }
  }

  /** std::has_single_bit */
  predicate HasSingleBit(x: Limb) {
    x > 0 && x == Pow2(CountrZero(x))
  }

  lemma ValueOfZero()
    ensures Value(ZERO) == 0
  {
  }

  /** The limbs of a power of two. */
  lemma PowerLimbs(w: U256, e: nat)
    requires e < 256 && Value(w) == Pow2(e)
    ensures Pow2(e % 64) < LIMB_BASE && w == ZERO[e / 64 := Pow2(e % 64)]
  {
    hide Pow2, Value, LimbWeight;
    var k, b := e / 64, e % 64;
    Pow2Values();
    Pow2Monotone(b, 63);
    ValueOfZero();
    ValueUpdate(ZERO, k, Pow2(b));
    LimbWeightIsPow2(k);
    Pow2Add(64 * k, b);
    ValueInjective(w, ZERO[k := Pow2(b)]);
  }

  /** A single non-zero limb that is a power of two makes the whole number one. */
  lemma SingleLimbPower(w: U256, k: nat)
    requires k < 4 && HasSingleBit(w[k])
    requires forall j :: 0 <= j < 4 && j != k ==> w[j] == 0
    ensures Value(w) == Pow2(64 * k + CountrZero(w[k]))
  {
    var b := CountrZero(w[k]);
    assert w == ZERO[k := w[k]];
    ValueUpdate(ZERO, k, w[k]);
    LimbWeightIsPow2(k);
    Pow2Add(64 * k, b);
  }

  method IsPowerOfTwoAndCtz(w: U256) returns (yes: bool, k: nat)
    ensures yes ==> k < 256 && Value(w) == Pow2(k)
    ensures !yes ==> forall e :: 0 <= e < 256 ==> Value(w) != Pow2(e)
  {
    k := 0;
    if w[0] == 0 && w[1] == 0 && w[2] == 0 && w[3] == 0 {
      return false, 0;
    }
    var nonzero := 0;
    var limbIndex: nat := 0;
    var v: Limb := 0;
    for i := 0 to 4
      invariant 0 <= nonzero <= 1
      invariant nonzero == 0 ==> forall j :: 0 <= j < i ==> w[j] == 0
      invariant nonzero == 1 ==> limbIndex < i && v == w[limbIndex] && v != 0
      invariant nonzero == 1 ==> forall j :: 0 <= j < i && j != limbIndex ==> w[j] == 0
    {
      if w[i] != 0 {
        nonzero := nonzero + 1;
        if nonzero > 1 {
          NotPower(w);
          return false, 0;
        }
        limbIndex := i;
        v := w[i];
      }
    }
    if !HasSingleBit(v) {
      NotPower(w);
      return false, 0;
    }
    SingleLimbPower(w, limbIndex);
    return true, limbIndex * 64 + CountrZero(v);
  }

  lemma NotPower(w: U256)
    ensures (exists i, j :: 0 <= i < j < 4 && w[i] != 0 && w[j] != 0)
            || (exists i :: 0 <= i < 4 && w[i] != 0 && !HasSingleBit(w[i]))
            ==> forall e :: 0 <= e < 256 ==> Value(w) != Pow2(e)
  {
    forall e | 0 <= e < 256 && Value(w) == Pow2(e)
      ensures forall i :: 0 <= i < 4 && i != e / 64 ==> w[i] == 0
      ensures HasSingleBit(w[e / 64])
    {
      PowerLimbs(w, e);
      LowestBitOfPower(e % 64);
    }
  }

  /** One step of binary long division, on numbers: t and r divide n >> (i + 1), the next bit is added. */
  lemma LongDivisionStep(n: nat, i: nat, d: nat, t: nat, r: nat, bit: nat)
    requires n / Pow2(i + 1) == t * d + r && r < d
    requires bit == (n / Pow2(i)) % 2
    ensures n / Pow2(i) == (2 * t) * d + (2 * r + bit)
    ensures 2 * r + bit <= n / Pow2(i) <= n
    ensures 2 * r + bit >= d ==> n / Pow2(i) == (2 * t + 1) * d + (2 * r + bit - d) && 2 * r + bit - d < d
  {
    DivDiv(n, Pow2(i), 2);
    assert n / Pow2(i) == 2 * (n / Pow2(i + 1)) + bit;
    assert (2 * t) * d == 2 * (t * d);
    assert (2 * t + 1) * d == (2 * t) * d + d;
    assert 0 <= t * d;
    QuotientLe(n, Pow2(i));
  }

  /** A multiple of 2^(i+1) has bit i clear; setting it gives an odd multiple of 2^i. */
  lemma NextQuotientBit(q: nat, t: nat, i: nat)
    requires q == t * Pow2(i + 1)
    ensures q == (2 * t) * Pow2(i)
    ensures (q / Pow2(i)) % 2 == 0
    ensures q + Pow2(i) == (2 * t + 1) * Pow2(i)
  {
    assert t * (2 * Pow2(i)) == (2 * t) * Pow2(i);
    DivMulCancel(2 * t, Pow2(i));
    assert (2 * t + 1) * Pow2(i) == (2 * t) * Pow2(i) + Pow2(i);
  }

  lemma LowParity(w: U256)
    ensures Value(w) % 2 == w[0] % 2
  {
    HalfSum(w[0], 0x8000000000000000 * (w[1] as nat) + 0x8000000000000000_0000000000000000 * (w[2] as nat)
                  + 0x8000000000000000_0000000000000000_0000000000000000 * (w[3] as nat));
  }

  lemma DoubleFits(v: nat, w: U256)
    requires 2 * v < MODULUS && Value(w) == (v * 2) % MODULUS
    ensures Value(w) == 2 * v && w[0] % 2 == 0
  {
    hide Value;
    SmallMod(v * 2, MODULUS);
    LowParity(w);
  }

  /** x | 1 */
  method SetLowBit(x: Limb) returns (y: Limb)
    requires x % 2 == 0
    ensures y == x + 1
  {
    assert Pow2(0) == 1;
    OrBit(x, 0);
    y := BitOr(x, 1);
  }

  /** r << 1 with the next dividend bit shifted in. */
  method ShiftInBit(r: U256, bit: bool) returns (r': U256)
    requires 2 * Value(r) + (if bit then 1 else 0) < MODULUS
    ensures Value(r') == 2 * Value(r) + if bit then 1 else 0
  {
    assert LimbWeight(0) == 1;
    hide Value, LimbWeight;
    r' := Shl1(r);
    DoubleFits(Value(r), r');
    if bit {
      var low := SetLowBit(r'[0]);
      ValueUpdate(r', 0, low);
      r' := r'[0 := low];
    }
  }

  /** One turn of long division: r takes in bit i of n, and bit i of q is set when d fits. */
  method DivideBit(n: U256, d: U256, i: nat, q: U256, r: U256, ghost t: nat)
    returns (q': U256, r': U256, ghost t': nat)
    requires i < 256
    requires Value(q) == t * Pow2(i + 1)
    requires Value(n) / Pow2(i + 1) == t * Value(d) + Value(r)
    requires Value(r) < Value(d) && Value(r) <= Value(n) / Pow2(i + 1)
    ensures Value(q') == t' * Pow2(i)
    ensures Value(n) / Pow2(i) == t' * Value(d) + Value(r')
    ensures Value(r') < Value(d) && Value(r') <= Value(n) / Pow2(i)
  {
    hide Value, Pow2;
    q' := q;
    t' := 2 * t;
    var bit := GetBit(n, i);
    LongDivisionStep(Value(n), i, Value(d), t, Value(r), if bit then 1 else 0);
    NextQuotientBit(Value(q), t, i);
    r' := ShiftInBit(r, bit);
    var below := Less(r', d);
    if !below {
      r' := Sub(r', d);
      q' := SetBit(q', i);
      t' := t' + 1;
    }
  }

  /** Restoring long division, one bit at a time from the top. */
  method LongDivision(n: U256, d: U256) returns (q: U256, r: U256)
    requires Value(d) > 0
    ensures Value(n) == Value(q) * Value(d) + Value(r) && Value(r) < Value(d)
  {
    q, r := ZERO, ZERO;
    ghost var t: nat := 0;
    BigShift(Value(n), 256);
    assert Pow2(0) == 1;
    hide Value, Pow2;
    var i := 255;
    while i >= 0
      invariant -1 <= i <= 255
      invariant Value(q) == t * Pow2(i + 1)
      invariant Value(n) / Pow2(i + 1) == t * Value(d) + Value(r)
      invariant Value(r) < Value(d) && Value(r) <= Value(n) / Pow2(i + 1)
    {
      q, r, t := DivideBit(n, d, i, q, r, t);
      i := i - 1;
    }
  }

  /** n & (d - 1) for a power of two d. */
  method MaskLow(n: U256, d: U256, ghost k: nat) returns (r: U256)
    requires Value(d) == Pow2(k)
    ensures Value(r) == Value(n) % Value(d)
  {
    hide Value, Pow2;
    var mask := Sub(d, FromLimb(1));
    assert Value(mask) == Pow2(k) - 1;
    r := And(n, mask);
    AndMask(Value(n), k);
  }

  /** Division by 2^k: a shift and a mask. */
  method DivModPower(n: U256, d: U256, k: nat) returns (q: U256, r: U256)
    requires Value(d) == Pow2(k)
    ensures Value(n) == Value(q) * Value(d) + Value(r) && Value(r) < Value(d)
  {
    hide Value, Pow2;
    q := ShiftRight(n, k);
    r := MaskLow(n, d, k);
    DivisionIdentity(Value(n), Value(d));
  }

  /**
   Quotient and remainder. Dividing by zero gives the pair of zeros; otherwise all three
   paths return the Euclidean quotient and remainder.
   */
  method DivMod(n: U256, d: U256) returns (q: U256, r: U256)
    ensures Value(d) == 0 ==> Value(q) == 0 && Value(r) == 0
    ensures Value(d) > 0 ==> Value(n) == Value(q) * Value(d) + Value(r) && Value(r) < Value(d)
  {
    if d[0] == 0 && d[1] == 0 && d[2] == 0 && d[3] == 0 {
      return ZERO, ZERO;
    }
    if FitsU64(d) {
      var rem;
      q, rem := DivModU64(n, d[0]);
      return q, FromLimb(rem);
    }
    var power, k := IsPowerOfTwoAndCtz(d);
    if power {
      q, r := DivModPower(n, d, k);
      return;
    }
    q, r := LongDivision(n, d);
  }

  /** n / d and n % d for a non-zero divisor. */
  method Divide(n: U256, d: U256) returns (q: U256)
    ensures Value(q) == if Value(d) == 0 then 0 else Value(n) / Value(d)
  {
    var r;
    q, r := DivMod(n, d);
    if Value(d) > 0 {
      DivModUnique(Value(n), Value(d), Value(q), Value(r));
    }
  }

  // ----- bytes -----

  /** Reads 32 bytes, least significant first, eight to a limb. */
  method FromBytesLe(input: seq<byte>) returns (x: U256)
    requires |input| == 32
    ensures Value(x) == LeValue(input)
  {
    LeValueEmpty();
    x := ZERO;
    assert LowValue(x, 0) == 0 && input[..0] == [];
    hide LeValue, Value, LowValue, LimbWeight, Pow2;
    for i := 0 to 4
      invariant LowValue(x, i) == LeValue(input[..8 * i])
    {
      var limb := LimbFromBytes(input[8 * i..8 * i + 8]);
      ghost var before := x;
      x := x[i := limb];
      LowValueSet(before, i, limb);
      assert input[..8 * (i + 1)] == input[..8 * i] + input[8 * i..8 * i + 8];
      LeValueConcat(input[..8 * i], input[8 * i..8 * i + 8]);
      LimbWeightIsPow2(i);
    }
    assert input[..32] == input;
    LowValueAll(x);
  }

  /** (uint64(b[0]) << 0) | (uint64(b[1]) << 8) | ... */
  method LimbFromBytes(b: seq<byte>) returns (limb: Limb)
    requires |b| == 8
    ensures limb == LeValue(b)
  {
    Pow2Values();
    JoinLeValue(b);
    LeValueBound(b);
    limb := JoinLe(b);
  }

  lemma LowValueSet(w: U256, i: nat, x: Limb)
    requires i < 4
    ensures LowValue(w[i := x], i + 1) == LowValue(w, i) + LimbWeight(i) * x
  {
    LowValueUpdate(w, i, x, i);
  }

  lemma {:induction false} LowValueUpdate(w: U256, i: nat, x: Limb, k: nat)
    requires k <= i < 4
    ensures LowValue(w[i := x], k) == LowValue(w, k)
  {
    if k > 0 {
      LowValueUpdate(w, i, x, k - 1);
    }
  }
}
