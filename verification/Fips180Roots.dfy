/** What pins the constants of SHA-256: they are the roots of the first primes. */
module Fips180Roots {
  import opened BitMath
  import opened Fips180

  // ----- primes -----

  predicate Divides(d: nat, n: nat)
    requires d > 0
  {
    n % d == 0
  }

  predicate IsPrime(n: nat) {
    n >= 2 && forall d :: 2 <= d < n ==> !Divides(d, n)
  }

  lemma DividesIs(d: nat, n: nat, f: nat)
    requires d > 0 && n == f * d
    ensures Divides(d, n)
  {
    DivMulCancel(f, d);
  }

  lemma DividesTransitive(a: nat, b: nat, n: nat)
    requires a > 0 && b > 0 && Divides(a, b) && Divides(b, n)
    ensures Divides(a, n)
  {
    DivisionIdentity(n, b);
    DivisionIdentity(b, a);
    MulAssoc(n / b, b / a, a);
    DividesIs(a, n, n / b * (b / a));
  }

  /** A divisor that is not small has a small cofactor. */
  lemma Cofactor(n: nat, e: nat, d: nat) returns (f: nat)
    requires 2 <= d <= e < n < d * d && Divides(e, n)
    ensures 2 <= f < d && Divides(f, n)
  {
    f := n / e;
    DivisionIdentity(n, e);
    CofactorRange(n, e, d, f, f * e, d * d);
    DividesIs(f, n, e);
  }

  lemma CofactorRange(n: nat, e: nat, d: nat, f: nat, fe: nat, dd: nat)
    requires fe == f * e && dd == d * d && fe == n
    requires 2 <= d <= e < n < dd
    ensures 2 <= f < d
  {
    if f >= d {
      MulLe(d, f, e);
      MulLe(d, e, d);
    } else if f < 2 {
      MulLe(f, 1, e);
    }
  }

  /** No prime below 18 divides n, except n itself. */
  predicate Sifted(n: nat) {
    && n >= 2
    && (n == 2 || !Divides(2, n)) && (n == 3 || !Divides(3, n)) && (n == 5 || !Divides(5, n))
    && (n == 7 || !Divides(7, n)) && (n == 11 || !Divides(11, n)) && (n == 13 || !Divides(13, n))
    && (n == 17 || !Divides(17, n))
  }

  /** Below 18^2 that is enough. */
  lemma SiftedIsPrime(n: nat)
    requires n < 324
    ensures Sifted(n) <==> IsPrime(n)
  {
    hide Divides;
    if Sifted(n) {
      hide Sifted;
      forall e | 2 <= e < n ensures !Divides(e, n) {
        NoDivisor(n, e);
      }
    } else if n >= 2 {
      var d := SmallDivisor(n);
    }
  }

  lemma NoDivisor(n: nat, e: nat)
    requires n < 324 && Sifted(n) && 2 <= e < n
    ensures !Divides(e, n)
  {
    hide Divides, Sifted;
    if e < 18 {
      NoSmallDivisor(n, e);
    } else if Divides(e, n) {
      var f := Cofactor(n, e, 18);
      NoSmallDivisor(n, f);
    }
  }

  function SmallFactor(e: nat): nat {
    if e % 2 == 0 then 2 else if e % 3 == 0 then 3 else e
  }

  lemma SmallFactorIs(e: nat)
    requires 2 <= e < 18
    ensures SmallFactor(e) in {2, 3, 5, 7, 11, 13, 17} && SmallFactor(e) <= e && Divides(SmallFactor(e), e)
  {
    if SmallFactor(e) == e {
      DividesIs(e, e, 1);
    }
  }

  lemma NoSmallDivisor(n: nat, e: nat)
    requires Sifted(n) && 2 <= e < 18 && e < n
    ensures !Divides(e, n)
  {
    hide Divides, SmallFactor;
    SmallFactorIs(e);
    if Divides(e, n) {
      DividesTransitive(SmallFactor(e), e, n);
    }
  }

  lemma SmallDivisor(n: nat) returns (d: nat)
    requires n >= 2 && !Sifted(n)
    ensures 2 <= d < n && Divides(d, n)
  {
    d := if n != 2 && Divides(2, n) then 2 else if n != 3 && Divides(3, n) then 3
         else if n != 5 && Divides(5, n) then 5 else if n != 7 && Divides(7, n) then 7
         else if n != 11 && Divides(11, n) then 11 else if n != 13 && Divides(13, n) then 13 else 17;
    DivisorIsSmaller(n, d);
  }

  lemma DivisorIsSmaller(n: nat, d: nat)
    requires n >= 2 && d > 0 && d != n && Divides(d, n)
    ensures d < n
  {
    if d > n {
      SmallMod(n, d);
    }
  }

  /** How many primes lie below n. */
  ghost function PrimesBelow(n: nat): nat {
    if n == 0 then 0 else PrimesBelow(n - 1) + if IsPrime(n - 1) then 1 else 0
  }

  /** p is the prime number t, counted from zero. */
  ghost predicate PrimeNumber(t: nat, p: nat) {
    IsPrime(p) && PrimesBelow(p) == t
  }

  predicate Passed(m: nat, q: nat) {
    m >= q || !Sifted(m)
  }

  /** No number strictly between p and q is sifted; no two neighbouring primes here are further apart than 14. */
  predicate Gap(p: nat, q: nat) {
    && q <= p + 14
    && Passed(p + 1, q) && Passed(p + 2, q) && Passed(p + 3, q) && Passed(p + 4, q) && Passed(p + 5, q)
    && Passed(p + 6, q) && Passed(p + 7, q) && Passed(p + 8, q) && Passed(p + 9, q) && Passed(p + 10, q)
    && Passed(p + 11, q) && Passed(p + 12, q) && Passed(p + 13, q)
  }

  lemma GapIs(p: nat, q: nat, m: nat)
    requires p < m < q && Gap(p, q)
    ensures !Sifted(m)
  {
    hide Sifted;
    assert Passed(m, q);
  }

  lemma {:induction false} GapHasNoPrime(p: nat, m: nat, q: nat)
    requires p < m <= q < 324 && Gap(p, q)
    ensures PrimesBelow(p + 1) == PrimesBelow(m)
  {
    hide IsPrime, Sifted, Gap;
    if p + 1 < m {
      GapHasNoPrime(p, m - 1, q);
      GapIs(p, q, m - 1);
      SiftedIsPrime(m - 1);
    }
  }

  lemma NextPrime(t: nat, p: nat, q: nat)
    requires PrimeNumber(t, p) && p < q < 324 && Sifted(q) && Gap(p, q)
    ensures PrimeNumber(t + 1, q)
  {
    hide IsPrime, Sifted, Gap;
    SiftedIsPrime(q);
    GapHasNoPrime(p, q, q);
  }

  lemma FirstPrime()
    ensures PrimeNumber(0, 2)
  {
    SiftedIsPrime(2);
    SiftedIsPrime(1);
    SiftedIsPrime(0);
    hide IsPrime;
    assert PrimesBelow(0) == 0 && PrimesBelow(1) == 0;
  }

  // ----- section 4.2.2: the round constants -----

  /** c is the cube root of p in units of 2^-32, rounded down. */
  predicate CubeRoot(p: nat, c: nat) {
    c * c * c <= p * 0x1_0000_0000_0000_0000_0000_0000 < (c + 1) * (c + 1) * (c + 1)
  }

  /** k is the first 32 bits of the fractional part of the cube root of p. */
  ghost predicate CubeRootBits(p: nat, k: nat) {
    exists c: nat :: CubeRoot(p, c) && c % 0x1_0000_0000 == k
  }

  /** k is what section 4.2.2 gives for place t. */
  ghost predicate RootOfPrime(t: nat, k: nat) {
    exists p: nat :: PrimeNumber(t, p) && CubeRootBits(p, k)
  }

  lemma CubeRootIs(t: nat, p: nat, whole: nat, k: nat)
    requires k < 0x1_0000_0000 && PrimeNumber(t, p) && CubeRoot(p, whole * 0x1_0000_0000 + k)
    ensures RootOfPrime(t, k)
  {
    hide PrimeNumber, CubeRoot;
    assert (whole * 0x1_0000_0000 + k) % 0x1_0000_0000 == k;
  }

  lemma NextConstant(t: nat, p: nat, q: nat, whole: nat, k: nat)
    requires PrimeNumber(t, p) && p < q < 324 && Sifted(q) && Gap(p, q)
    requires k < 0x1_0000_0000 && CubeRoot(q, whole * 0x1_0000_0000 + k)
    ensures PrimeNumber(t + 1, q) && RootOfPrime(t + 1, k)
  {
    hide PrimeNumber, Sifted, Gap, CubeRoot, RootOfPrime;
    NextPrime(t, p, q);
    CubeRootIs(t + 1, q, whole, k);
  }

  lemma Constants0()
    ensures PrimeNumber(3, 7) && forall t :: 0 <= t < 4 ==> RootOfPrime(t, K[t])
  {
    hide PrimeNumber, RootOfPrime;
    FirstPrime();
    CubeRootIs(0, 2, 1, 0x428a2f98);
    NextConstant(0, 2, 3, 1, 0x71374491);
    NextConstant(1, 3, 5, 1, 0xb5c0fbcf);
    NextConstant(2, 5, 7, 1, 0xe9b5dba5);
  }

  lemma Constants4()
    requires PrimeNumber(3, 7)
    ensures PrimeNumber(7, 19) && forall t :: 4 <= t < 8 ==> RootOfPrime(t, K[t])
  {
    hide PrimeNumber, RootOfPrime;
    NextConstant(3, 7, 11, 2, 0x3956c25b);
    NextConstant(4, 11, 13, 2, 0x59f111f1);
    NextConstant(5, 13, 17, 2, 0x923f82a4);
    NextConstant(6, 17, 19, 2, 0xab1c5ed5);
  }

  lemma Constants8()
    requires PrimeNumber(7, 19)
    ensures PrimeNumber(11, 37) && forall t :: 8 <= t < 12 ==> RootOfPrime(t, K[t])
  {
    hide PrimeNumber, RootOfPrime;
    NextConstant(7, 19, 23, 2, 0xd807aa98);
    NextConstant(8, 23, 29, 3, 0x12835b01);
    NextConstant(9, 29, 31, 3, 0x243185be);
    NextConstant(10, 31, 37, 3, 0x550c7dc3);
  }

  lemma Constants12()
    requires PrimeNumber(11, 37)
    ensures PrimeNumber(15, 53) && forall t :: 12 <= t < 16 ==> RootOfPrime(t, K[t])
  {
    hide PrimeNumber, RootOfPrime;
    NextConstant(11, 37, 41, 3, 0x72be5d74);
    NextConstant(12, 41, 43, 3, 0x80deb1fe);
    NextConstant(13, 43, 47, 3, 0x9bdc06a7);
    NextConstant(14, 47, 53, 3, 0xc19bf174);
  }

  lemma Constants16()
    requires PrimeNumber(15, 53)
    ensures PrimeNumber(19, 71) && forall t :: 16 <= t < 20 ==> RootOfPrime(t, K[t])
  {
    hide PrimeNumber, RootOfPrime;
    NextConstant(15, 53, 59, 3, 0xe49b69c1);
    NextConstant(16, 59, 61, 3, 0xefbe4786);
    NextConstant(17, 61, 67, 4, 0x0fc19dc6);
    NextConstant(18, 67, 71, 4, 0x240ca1cc);
  }

  lemma Constants20()
    requires PrimeNumber(19, 71)
    ensures PrimeNumber(23, 89) && forall t :: 20 <= t < 24 ==> RootOfPrime(t, K[t])
  {
    hide PrimeNumber, RootOfPrime;
    NextConstant(19, 71, 73, 4, 0x2de92c6f);
    NextConstant(20, 73, 79, 4, 0x4a7484aa);
    NextConstant(21, 79, 83, 4, 0x5cb0a9dc);
    NextConstant(22, 83, 89, 4, 0x76f988da);
  }

  lemma Constants24()
    requires PrimeNumber(23, 89)
    ensures PrimeNumber(27, 107) && forall t :: 24 <= t < 28 ==> RootOfPrime(t, K[t])
  {
    hide PrimeNumber, RootOfPrime;
    NextConstant(23, 89, 97, 4, 0x983e5152);
    NextConstant(24, 97, 101, 4, 0xa831c66d);
    NextConstant(25, 101, 103, 4, 0xb00327c8);
    NextConstant(26, 103, 107, 4, 0xbf597fc7);
  }

  lemma Constants28()
    requires PrimeNumber(27, 107)
    ensures PrimeNumber(31, 131) && forall t :: 28 <= t < 32 ==> RootOfPrime(t, K[t])
  {
    hide PrimeNumber, RootOfPrime;
    NextConstant(27, 107, 109, 4, 0xc6e00bf3);
    NextConstant(28, 109, 113, 4, 0xd5a79147);
    NextConstant(29, 113, 127, 5, 0x06ca6351);
    NextConstant(30, 127, 131, 5, 0x14292967);
  }

  lemma Constants32()
    requires PrimeNumber(31, 131)
    ensures PrimeNumber(35, 151) && forall t :: 32 <= t < 36 ==> RootOfPrime(t, K[t])
  {
    hide PrimeNumber, RootOfPrime;
    NextConstant(31, 131, 137, 5, 0x27b70a85);
    NextConstant(32, 137, 139, 5, 0x2e1b2138);
    NextConstant(33, 139, 149, 5, 0x4d2c6dfc);
    NextConstant(34, 149, 151, 5, 0x53380d13);
  }

  lemma Constants36()
    requires PrimeNumber(35, 151)
    ensures PrimeNumber(39, 173) && forall t :: 36 <= t < 40 ==> RootOfPrime(t, K[t])
  {
    hide PrimeNumber, RootOfPrime;
    NextConstant(35, 151, 157, 5, 0x650a7354);
    NextConstant(36, 157, 163, 5, 0x766a0abb);
    NextConstant(37, 163, 167, 5, 0x81c2c92e);
    NextConstant(38, 167, 173, 5, 0x92722c85);
  }

  lemma Constants40()
    requires PrimeNumber(39, 173)
    ensures PrimeNumber(43, 193) && forall t :: 40 <= t < 44 ==> RootOfPrime(t, K[t])
  {
    hide PrimeNumber, RootOfPrime;
    NextConstant(39, 173, 179, 5, 0xa2bfe8a1);
    NextConstant(40, 179, 181, 5, 0xa81a664b);
    NextConstant(41, 181, 191, 5, 0xc24b8b70);
    NextConstant(42, 191, 193, 5, 0xc76c51a3);
  }

  lemma Constants44()
    requires PrimeNumber(43, 193)
    ensures PrimeNumber(45, 199) && forall t :: 44 <= t < 46 ==> RootOfPrime(t, K[t])
  {
    hide PrimeNumber, RootOfPrime;
    NextConstant(43, 193, 197, 5, 0xd192e819);
    NextConstant(44, 197, 199, 5, 0xd6990624);
  }

  lemma Constants46()
    requires PrimeNumber(45, 199)
    ensures PrimeNumber(47, 223) && forall t :: 46 <= t < 48 ==> RootOfPrime(t, K[t])
  {
    hide PrimeNumber, RootOfPrime;
    NextConstant(45, 199, 211, 5, 0xf40e3585);
    NextConstant(46, 211, 223, 6, 0x106aa070);
  }

  lemma Constants48()
    requires PrimeNumber(47, 223)
    ensures PrimeNumber(51, 239) && forall t :: 48 <= t < 52 ==> RootOfPrime(t, K[t])
  {
    hide PrimeNumber, RootOfPrime;
    NextConstant(47, 223, 227, 6, 0x19a4c116);
    NextConstant(48, 227, 229, 6, 0x1e376c08);
    NextConstant(49, 229, 233, 6, 0x2748774c);
    NextConstant(50, 233, 239, 6, 0x34b0bcb5);
  }

  lemma Constants52()
    requires PrimeNumber(51, 239)
    ensures PrimeNumber(55, 263) && forall t :: 52 <= t < 56 ==> RootOfPrime(t, K[t])
  {
    hide PrimeNumber, RootOfPrime;
    NextConstant(51, 239, 241, 6, 0x391c0cb3);
    NextConstant(52, 241, 251, 6, 0x4ed8aa4a);
    NextConstant(53, 251, 257, 6, 0x5b9cca4f);
    NextConstant(54, 257, 263, 6, 0x682e6ff3);
  }

  lemma Constants56()
    requires PrimeNumber(55, 263)
    ensures PrimeNumber(59, 281) && forall t :: 56 <= t < 60 ==> RootOfPrime(t, K[t])
  {
    hide PrimeNumber, RootOfPrime;
    NextConstant(55, 263, 269, 6, 0x748f82ee);
    NextConstant(56, 269, 271, 6, 0x78a5636f);
    NextConstant(57, 271, 277, 6, 0x84c87814);
    NextConstant(58, 277, 281, 6, 0x8cc70208);
  }

  lemma Constants60()
    requires PrimeNumber(59, 281)
    ensures PrimeNumber(61, 293) && forall t :: 60 <= t < 62 ==> RootOfPrime(t, K[t])
  {
    hide PrimeNumber, RootOfPrime;
    NextConstant(59, 281, 283, 6, 0x90befffa);
    NextConstant(60, 283, 293, 6, 0xa4506ceb);
  }

  lemma Constants62()
    requires PrimeNumber(61, 293)
    ensures PrimeNumber(63, 311) && forall t :: 62 <= t < 64 ==> RootOfPrime(t, K[t])
  {
    hide PrimeNumber, RootOfPrime;
    NextConstant(61, 293, 307, 6, 0xbef9a3f7);
    NextConstant(62, 307, 311, 6, 0xc67178f2);
  }

  lemma ConstantNumbers()
    ensures forall t :: 0 <= t < 64 ==> RootOfPrime(t, K[t])
  {
    hide *;
    Constants0();
    Constants4();
    Constants8();
    Constants12();
    Constants16();
    Constants20();
    Constants24();
    Constants28();
    Constants32();
    Constants36();
    Constants40();
    Constants44();
    Constants46();
    Constants48();
    Constants52();
    Constants56();
    Constants60();
    Constants62();
  }

  /** Section 4.2.2: the cube roots of the first 64 primes. */
  lemma RoundConstants(t: nat)
    requires t < 64
    ensures exists k: WordNumber :: RoundConstant(t) == k as Word && RootOfPrime(t, k)
  {
    hide RootOfPrime;
    ConstantNumbers();
    assert RoundConstant(t) == WordOf(K[t]);
  }

  // ----- section 5.3.3: the initial hash value -----

  /** c is the square root of p in units of 2^-32, rounded down. */
  predicate SquareRoot(p: nat, c: nat) {
    c * c <= p * 0x1_0000_0000_0000_0000 < (c + 1) * (c + 1)
  }

  /** k is the first 32 bits of the fractional part of the square root of the prime number t. */
  ghost predicate SquareRootOfPrime(t: nat, k: nat) {
    exists p: nat, c: nat :: PrimeNumber(t, p) && SquareRoot(p, c) && c % 0x1_0000_0000 == k
  }

  lemma SquareRootIs(t: nat, p: nat, whole: nat, k: nat)
    requires k < 0x1_0000_0000 && PrimeNumber(t, p) && SquareRoot(p, whole * 0x1_0000_0000 + k)
    ensures SquareRootOfPrime(t, k)
  {
    hide PrimeNumber, SquareRoot;
    assert (whole * 0x1_0000_0000 + k) % 0x1_0000_0000 == k;
  }

  lemma FirstPrimes()
    ensures PrimeNumber(0, 2) && PrimeNumber(1, 3) && PrimeNumber(2, 5) && PrimeNumber(3, 7)
    ensures PrimeNumber(4, 11) && PrimeNumber(5, 13) && PrimeNumber(6, 17) && PrimeNumber(7, 19)
  {
    hide PrimeNumber;
    FirstPrime();
    NextPrime(0, 2, 3);
    NextPrime(1, 3, 5);
    NextPrime(2, 5, 7);
    NextPrime(3, 7, 11);
    NextPrime(4, 11, 13);
    NextPrime(5, 13, 17);
    NextPrime(6, 17, 19);
  }

  lemma InitialNumbers()
    ensures forall j :: 0 <= j < 8 ==> SquareRootOfPrime(j, H[j])
  {
    hide PrimeNumber, SquareRootOfPrime;
    FirstPrimes();
    SquareRootIs(0, 2, 1, 0x6a09e667);
    SquareRootIs(1, 3, 1, 0xbb67ae85);
    SquareRootIs(2, 5, 2, 0x3c6ef372);
    SquareRootIs(3, 7, 2, 0xa54ff53a);
    SquareRootIs(4, 11, 3, 0x510e527f);
    SquareRootIs(5, 13, 3, 0x9b05688c);
    SquareRootIs(6, 17, 4, 0x1f83d9ab);
    SquareRootIs(7, 19, 4, 0x5be0cd19);
  }

  lemma {:induction false} WordsOfAt(s: seq<WordNumber>, j: nat)
    requires j < |s|
    ensures WordsOf(s)[j] == WordOf(s[j])
  {
    if j < |s| - 1 {
      WordsOfAt(s[..|s| - 1], j);
    }
  }

  /** Section 5.3.3: the square roots of the first eight primes. */
  lemma InitialHashValue(j: nat)
    requires j < 8
    ensures exists k: WordNumber :: H0[j] == k as Word && SquareRootOfPrime(j, k)
  {
    hide SquareRootOfPrime;
    InitialNumbers();
    WordsOfAt(H, j);
  }
}
