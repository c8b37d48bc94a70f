/** Network and share targets, and the test of a digest against a target. */
module Target {
  import opened BitMath
  import opened Bytes
  import opened Uint256

  datatype Result<+T> = Ok(value: T) | Err(error: TargetError)

  datatype TargetError = NotPositive | OutOfRange | Underflow

  // ----- compact targets -----

  /** The number a compact target stands for, kept to 256 bits. */
  function CompactValue(compact: nat): (v: nat)
    requires compact < 0x1_0000_0000
    ensures v < MODULUS
  {
    var exponent := compact / 0x100_0000;
    var coefficient := compact % 0x80_0000;
    if exponent <= 3 then ShrLimb(coefficient, 8 * (3 - exponent))
    else (coefficient * Pow2(8 * (exponent - 3))) % MODULUS
  }

  method ExpandCompactTarget(compact: nat) returns (target: U256)
    requires compact < 0x1_0000_0000
    ensures Value(target) == CompactValue(compact)
  {
    ExponentField(compact);
    CoefficientField(compact);
    var exponent := BitAnd(Shr(compact, 24), 0xff);
    var coefficient := BitAnd(compact, 0x7fffff);
    if exponent <= 3 {
      target := FromLimb(ShrLimb(coefficient, 8 * (3 - exponent)));
    } else {
      target := ScaleCoefficient(coefficient, 8 * (exponent - 3));
    }
  }

  /** uint256{coefficient} * (uint256{1} << s) */
  method ScaleCoefficient(coefficient: Limb, s: nat) returns (target: U256)
    ensures Value(target) == (coefficient * Pow2(s)) % MODULUS
  {
    hide Value, Pow2;
    var one := ShiftLeft(FromLimb(1), s);
    target := Mul(FromLimb(coefficient), one);
    ScaleMod(coefficient, Pow2(s), MODULUS);
  }

  lemma ScaleMod(c: nat, p: nat, m: nat)
    requires m > 0
    ensures (c * ((1 * p) % m)) % m == (c * p) % m
  {
    ModTimes(p, c, m);
    MulComm(p % m, c);
    MulComm(p, c);
  }

  lemma MulComm(a: int, b: int)
    ensures a * b == b * a
  {
  }

  lemma FieldWeights()
    ensures Pow2(8) == 0x100 && Pow2(23) == 0x80_0000 && Pow2(24) == 0x100_0000
  {
    assert Pow2(8) == 0x100;
    assert Pow2(16) == 0x1_0000 by { Pow2Add(8, 8); }
    assert Pow2(24) == 0x100_0000 by { Pow2Add(8, 16); }
    assert Pow2(24) == 2 * Pow2(23);
  }

  lemma ExponentField(compact: nat)
    requires compact < 0x1_0000_0000
    ensures BitAnd(Shr(compact, 24), 0xff) == compact / 0x100_0000
  {
    hide Pow2, BitAnd;
    FieldWeights();
    assert Shr(compact, 24) == compact / 0x100_0000;
    AndMask(compact / 0x100_0000, 8);
    SmallMod(compact / 0x100_0000, 0x100);
  }

  lemma CoefficientField(compact: nat)
    ensures BitAnd(compact, 0x7fffff) == compact % 0x80_0000
  {
    hide Pow2, BitAnd;
    FieldWeights();
    AndMask(compact, 23);
  }

  // ----- share targets -----

  /** The difficulty-1 target, 0xffff times 2^208. */
  const DIFF1: nat := 0xffff_0000000000000000000000000000000000000000000000000000

  /** diff1 2^32 / s, the target for the difficulty s / 2^32. */
  function ShareTargetValue(s: nat): (t: nat)
    requires s > 0
  {
    (DIFF1 * 0x1_0000_0000) / s
  }

  /** llround on a positive argument: the nearest integer, halves away from zero. */
  function Round(x: real): int {
    (x + 0.5).Floor
  }

  lemma Diff1Weight()
    ensures Pow2(208) == 0x1_0000000000000000000000000000000000000000000000000000
  {
    Pow2Values();
    hide Pow2;
    assert Pow2(128) == 0x1_0000_0000_0000_0000 * 0x1_0000_0000_0000_0000 by { Pow2Add(64, 64); }
    assert Pow2(192) == Pow2(128) * 0x1_0000_0000_0000_0000 by { Pow2Add(128, 64); }
    Pow2Add(192, 16);
  }

  lemma Diff1Compact()
    ensures CompactValue(0x1d00ffff) == DIFF1
  {
    Diff1Weight();
    hide Pow2;
    SmallMod(DIFF1, MODULUS);
  }

  /** The rounding of a scaled difficulty; from 2^63 on llround leaves its result open. */
  function Scaled(x: real, unspecified: nat): int {
    if Round(x) < 0x8000_0000_0000_0000 then Round(x) else unspecified
  }

  predicate InRange(difficulty: real) {
    difficulty > 0.0 && 1.0 <= difficulty * 4294967296.0 <= 18446744073709551615.0
  }

  method ShareTargetFromDifficulty(difficulty: real, unspecified: nat) returns (r: Result<U256>)
    requires unspecified < 0x1_0000_0000_0000_0000
    ensures difficulty <= 0.0 <==> r == Err(NotPositive)
    ensures difficulty > 0.0 && !InRange(difficulty) <==> r == Err(OutOfRange)
    ensures InRange(difficulty) && Scaled(difficulty * 4294967296.0, unspecified) == 0 <==> r == Err(Underflow)
    ensures r.Ok? ==> var s := Scaled(difficulty * 4294967296.0, unspecified);
                      s > 0 && Value(r.value) == ShareTargetValue(s)
  {
    hide Value, Pow2, CompactValue, ShareTargetValue;
    if !(difficulty > 0.0) {
      return Err(NotPositive);
    }
    var scaled := difficulty * 4294967296.0;
    if !(scaled >= 1.0) || scaled > 18446744073709551615.0 {
      return Err(OutOfRange);
    }
    var s := Scaled(scaled, unspecified);
    ScaledBounds(scaled, unspecified);
    if s == 0 {
      return Err(Underflow);
    }
    r := DivideDiff1(s);
  }

  /** With zero for the open result, exactly the difficulties with a rounding below 2^63 are taken. */
  lemma TakenExactly(difficulty: real)
    ensures InRange(difficulty) && Scaled(difficulty * 4294967296.0, 0) != 0
        <==> difficulty > 0.0 && difficulty * 4294967296.0 >= 1.0
             && Round(difficulty * 4294967296.0) < 0x8000_0000_0000_0000
  {
  }

  lemma ScaledBounds(x: real, unspecified: nat)
    requires x >= 1.0 && unspecified < 0x1_0000_0000_0000_0000
    ensures 0 <= Scaled(x, unspecified) < 0x1_0000_0000_0000_0000
  {
  }

  method DivideDiff1(s: Limb) returns (r: Result<U256>)
    requires s > 0
    ensures r.Ok? && Value(r.value) == ShareTargetValue(s)
  {
    hide Value, Pow2, CompactValue;
    var diff1 := ExpandCompactTarget(0x1d00ffff);
    Diff1Compact();
    Pow2Values();
    var numerator := ShiftLeft(diff1, 32);
    var target := Divide(numerator, FromLimb(s));
    return Ok(target);
  }

  /** The 64-bit integer overload converts to double first; the conversion is exact below 2^53. */
  method ShareTargetFromInteger(difficulty: nat, unspecified: nat) returns (r: Result<U256>)
    requires difficulty < 0x1_0000_0000_0000_0000 && unspecified < 0x1_0000_0000_0000_0000
    ensures difficulty == 0 <==> r == Err(NotPositive)
    ensures difficulty >= 0x1_0000_0000 <==> r == Err(OutOfRange)
    ensures 0x8000_0000 <= difficulty < 0x1_0000_0000 && unspecified == 0 <==> r == Err(Underflow)
    ensures r.Ok? ==>
        if difficulty < 0x8000_0000 then Value(r.value) == DIFF1 / difficulty
        else unspecified > 0 && Value(r.value) == ShareTargetValue(unspecified)
  {
    hide Value;
    if difficulty == 0 {
      return Err(NotPositive);
    }
    r := ShareTargetFromDifficulty(difficulty as real, unspecified);
    RoundWhole(difficulty);
    if r.Ok? && difficulty < 0x8000_0000 {
      ShareTargetWhole(difficulty);
    }
  }

  lemma RoundWhole(d: nat)
    ensures d as real * 4294967296.0 == (d * 0x1_0000_0000) as real
    ensures Round(d as real * 4294967296.0) == d * 0x1_0000_0000
  {
    assert d as real * 4294967296.0 == (d * 0x1_0000_0000) as real;
  }

  // ----- what the share target means -----

  /** The shifted numerator keeps all its bits. */
  lemma NumeratorFits()
    ensures DIFF1 * 0x1_0000_0000 < MODULUS
  {
  }

  lemma ShareTargetFits(s: nat)
    requires s > 0
    ensures ShareTargetValue(s) < MODULUS
  {
    NumeratorFits();
    DivisionIdentity(DIFF1 * 0x1_0000_0000, s);
    MulLe(1, s, ShareTargetValue(s));
  }

  /** A larger difficulty never raises the target. */
  lemma ShareTargetAntitone(s: nat, s': nat)
    requires 0 < s <= s'
    ensures ShareTargetValue(s') <= ShareTargetValue(s)
  {
    var n := DIFF1 * 0x1_0000_0000;
    var t, t' := n / s, n / s';
    DivisionIdentity(n, s);
    DivisionIdentity(n, s');
    if t' > t {
      MulLe(t + 1, t', s);
      MulLe(s, s', t');
      assert false;
    }
  }

  /** For a whole difficulty D the target is exactly diff1 / D. */
  lemma ShareTargetWhole(d: nat)
    requires d > 0
    ensures ShareTargetValue(d * 0x1_0000_0000) == DIFF1 / d
  {
    var n := DIFF1;
    DivisionIdentity(n, d);
    var t, r := n / d, n % d;
    assert n * 0x1_0000_0000 == t * (d * 0x1_0000_0000) + r * 0x1_0000_0000;
    DivModUnique(n * 0x1_0000_0000, d * 0x1_0000_0000, t, r * 0x1_0000_0000);
  }

  /**
   For every real difficulty in range, target times difficulty misses diff1 by less than the
   difficulty (the floor) plus diff1 / 2 s (the rounding of the difficulty to 32 binary places).
   */
  lemma ShareTargetBound(d: real, s: nat, t: nat)
    requires d > 0.0 && s > 0 && s == Round(d * 4294967296.0)
    requires t == ShareTargetValue(s)
    ensures t as real * d - DIFF1 as real < d + DIFF1 as real / (2.0 * s as real)
    ensures DIFF1 as real - t as real * d < d + DIFF1 as real / (2.0 * s as real)
  {
    var n := DIFF1 * 0x1_0000_0000;
    DivisionIdentity(n, s);
    var x, sr, tr := d * 4294967296.0, s as real, t as real;
    assert sr - 0.5 <= x < sr + 0.5;
    QuotientReal(n, s, t);
    var f := DIFF1 as real;
    assert n as real == f * 4294967296.0;
    ScaledBound(f, d, sr, tr);
  }

  lemma QuotientReal(n: nat, s: nat, t: nat)
    requires s > 0 && t == n / s
    ensures t as real * s as real <= n as real < (t as real + 1.0) * s as real
  {
    DivisionIdentity(n, s);
    assert (t * s) as real == t as real * s as real;
    assert ((t + 1) * s) as real == (t as real + 1.0) * s as real;
  }

  lemma ScaledBound(f: real, d: real, s: real, t: real)
    requires f > 0.0 && d > 0.0 && s > 0.0 && t >= 0.0
    requires s - 0.5 <= d * 4294967296.0 < s + 0.5
    requires t * s <= f * 4294967296.0 < (t + 1.0) * s
    ensures t * d - f < d + f / (2.0 * s)
    ensures f - t * d < d + f / (2.0 * s)
  {
    // Both claims are multiplied by s: t s lies within s of f 2^32, and 2^32 d within 1/2 of s.
    var k, e, n := d * 4294967296.0, f / (2.0 * s), f * 4294967296.0;
    var tsd, nd, fs := (t * s) * d, n * d, f * s;
    Squeezed(n, d, s, t, t * s, tsd, nd);
    Exchanged(f, d, 4294967296.0);
    NearlyScaled(f, s, k, fs);
    HalfOver(f, s, e);
    ScaledClaims(f, d, s, t, e, tsd, fs);
  }

  lemma Squeezed(n: real, d: real, s: real, t: real, ts: real, tsd: real, nd: real)
    requires d > 0.0 && ts == t * s && tsd == ts * d && nd == n * d && ts <= n < (t + 1.0) * s
    ensures tsd <= nd < tsd + s * d
  {
    DistributeReal(t, 1.0, s);
    MulLeReal(ts, n, d);
    MulLtReal(n, ts + s, d);
    DistributeReal(ts, s, d);
  }

  lemma DistributeReal(a: real, b: real, c: real)
    ensures (a + b) * c == a * c + b * c
  {
  }

  lemma Exchanged(f: real, d: real, c: real)
    ensures (f * c) * d == (d * c) * f
  {
  }

  lemma HalfOver(f: real, s: real, e: real)
    requires s > 0.0 && e == f / (2.0 * s)
    ensures e * s == f / 2.0
  {
  }

  lemma ScaledClaims(f: real, d: real, s: real, t: real, e: real, tsd: real, fs: real)
    requires s > 0.0 && d > 0.0 && tsd == (t * s) * d && fs == f * s && e * s == f / 2.0
    requires tsd <= fs + f / 2.0 && fs - f / 2.0 < tsd + s * d
    ensures t * d - f < d + e && f - t * d < d + e
  {
    assert (t * d - f) * s == tsd - fs;
    CancelReal(t * d - f, e, s);
    assert (d + e) * s == s * d + f / 2.0;
    assert (f - t * d) * s == fs - tsd;
    CancelRealStrict(f - t * d, d + e, s);
  }

  lemma NearlyScaled(f: real, s: real, k: real, fs: real)
    requires f > 0.0 && s - 0.5 <= k < s + 0.5 && fs == f * s
    ensures fs - f / 2.0 <= k * f <= fs + f / 2.0
  {
    MulLeProducts(k, s + 0.5, f, k * f, fs + f / 2.0);
    MulLeProducts(s - 0.5, k, f, fs - f / 2.0, k * f);
  }

  lemma MulLeProducts(a: real, b: real, c: real, ac: real, bc: real)
    requires a <= b && c > 0.0 && ac == a * c && bc == b * c
    ensures ac <= bc
  {
    MulLeReal(a, b, c);
  }

  lemma MulLeReal(a: real, b: real, c: real)
    requires a <= b && c > 0.0
    ensures a * c <= b * c
  {
  }

  lemma MulLtReal(a: real, b: real, c: real)
    requires a < b && c > 0.0
    ensures a * c < b * c
  {
  }

  lemma CancelReal(a: real, b: real, s: real)
    requires s > 0.0 && a * s <= b * s
    ensures a <= b
  {
    if a > b {
      MulPositive(a - b, s);
      assert false;
    }
  }

  lemma CancelRealStrict(a: real, b: real, s: real)
    requires s > 0.0 && a * s < b * s
    ensures a < b
  {
    if a >= b {
      MulLeReal(b, a, s);
      assert false;
    }
  }

  lemma MulPositive(a: real, s: real)
    requires a > 0.0 && s > 0.0
    ensures a * s > 0.0
  {
  }

  // ----- digests against targets -----

  /** A digest, read as a little-endian number, does not exceed the target. */
  predicate MeetsTarget(digest: seq<byte>, target: nat) {
    LeValue(digest) <= target
  }

  /** Compared from the last byte down: equal, or smaller where they first differ. */
  ghost predicate NotAbove(a: seq<byte>, b: seq<byte>)
    requires |a| == |b|
  {
    a == b || exists i :: 0 <= i < |a| && SmallerAt(a, b, i)
  }

  ghost predicate SmallerAt(a: seq<byte>, b: seq<byte>, i: nat)
    requires |a| == |b| && i < |a|
  {
    a[i] < b[i] && a[i + 1..] == b[i + 1..]
  }

  lemma {:induction false} ValueOrder(a: seq<byte>, b: seq<byte>)
    requires |a| == |b|
    ensures LeValue(a) <= LeValue(b) <==> NotAbove(a, b)
  {
    hide LeValue, ByteValue;
    if a == [] {
      assert a == b;
    } else {
      ValueOrder(a[1..], b[1..]);
      if LeValue(a[1..]) == LeValue(b[1..]) {
        LeValueInjective(a[1..], b[1..]);
      }
      HeadOrder(a, b);
      RestOrder(a, b);
    }
  }

  /** The first byte decides only where the others are equal. */
  lemma HeadOrder(a: seq<byte>, b: seq<byte>)
    requires |a| == |b| > 0
    ensures LeValue(a[1..]) < LeValue(b[1..]) ==> LeValue(a) < LeValue(b)
    ensures LeValue(a[1..]) > LeValue(b[1..]) ==> LeValue(a) > LeValue(b)
    ensures LeValue(a[1..]) == LeValue(b[1..]) ==> (LeValue(a) <= LeValue(b) <==> a[0] <= b[0])
  {
    ByteOrder(a[0], b[0]);
    hide ByteValue;
  }

  lemma ByteOrder(x: byte, y: byte)
    ensures ByteValue(x) <= ByteValue(y) <==> x <= y
  {
  }

  lemma RestOrder(a: seq<byte>, b: seq<byte>)
    requires |a| == |b| > 0
    ensures NotAbove(a, b)
        <==> (a[1..] != b[1..] && NotAbove(a[1..], b[1..])) || (a[1..] == b[1..] && a[0] <= b[0])
  {
    if a[1..] == b[1..] && a[0] < b[0] {
      assert SmallerAt(a, b, 0);
    }
    forall i | 0 <= i < |a| - 1 && SmallerAt(a[1..], b[1..], i) ensures SmallerAt(a, b, i + 1) {
    }
    forall i | 0 < i < |a| && SmallerAt(a, b, i) ensures SmallerAt(a[1..], b[1..], i - 1) {
    }
  }

  /** What meeting a target means, byte by byte. */
  lemma MeetsExactly(digest: seq<byte>, target: nat)
    requires |digest| == 32 && target < MODULUS
    ensures MeetsTarget(digest, target) <==> NotAbove(digest, LeBytes(target, 32))
  {
    hide LeValue, LeBytes;
    TargetBytes(target);
    ValueOrder(digest, LeBytes(target, 32));
  }

  lemma TargetBytes(target: nat)
    requires target < MODULUS
    ensures LeValue(LeBytes(target, 32)) == target
  {
    hide LeValue, LeBytes, Pow2;
    LeRoundTrip(target, 32);
    LimbWeightIsPow2(4);
    LimbWeightValues();
    SmallMod(target, MODULUS);
  }

  /** A digest ends in k zero bytes exactly when it meets the largest target of the other bytes. */
  lemma ZerosExactly(digest: seq<byte>, k: nat)
    requires |digest| == 32 && k <= 32
    ensures MeetsTarget(digest, Pow2(8 * (32 - k)) - 1) <==> forall i :: 32 - k <= i < 32 ==> digest[i] == 0
  {
    hide LeValue, Pow2, ByteValue;
    var low, high := digest[..32 - k], digest[32 - k..];
    assert digest == low + high;
    LeValueConcat(low, high);
    LeValueBound(low);
    ZeroValue(high);
    assert (forall i :: 32 - k <= i < 32 ==> digest[i] == 0) <==> (forall j :: 0 <= j < k ==> high[j] == 0);
    if LeValue(high) > 0 {
      MulLe(1, LeValue(high), Pow2(8 * (32 - k)));
    }
  }

  lemma {:induction false} ZeroValue(b: seq<byte>)
    ensures LeValue(b) == 0 <==> forall j :: 0 <= j < |b| ==> b[j] == 0
  {
    hide ByteValue;
    if b != [] {
      ZeroValue(b[1..]);
      ZeroByte(b[0]);
      assert forall j :: 0 < j < |b| ==> b[j] == b[1..][j - 1];
      assert forall j :: 0 <= j < |b| - 1 ==> b[1..][j] == b[j + 1];
    }
  }

  lemma ZeroByte(x: byte)
    ensures ByteValue(x) == 0 <==> x == 0
  {
  }

  /** True exactly when the digest is not above the little-endian bytes of the target. */
  method HashMeetsTarget(digest: seq<byte>, target: U256) returns (meets: bool)
    requires |digest| == 32
    ensures meets <==> NotAbove(digest, LeBytes(Value(target), 32))
    ensures meets <==> MeetsTarget(digest, Value(target))
  {
    hide Value, LeValue, LeBytes, NotAbove;
    MeetsExactly(digest, Value(target));
    var h := FromBytesLe(digest);
    var above := Less(target, h);
    meets := !above;
  }
}
