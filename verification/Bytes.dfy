/** Byte strings and the numbers they stand for. */
module Bytes {
  import opened BitMath

  type byte = bv8

  function ByteValue(b: byte): (n: nat)
    ensures n < 256
  {
    b as int
  }

  /** static_cast<uint8_t>(n) */
  function LowByte(n: nat): (b: byte)
    ensures ByteValue(b) == n % 256
  {
    (n % 256) as byte
  }

  lemma ByteValueInjective(a: byte, b: byte)
    requires ByteValue(a) == ByteValue(b)
    ensures a == b
  {
  }

  /** The number whose base-256 digits are bs, least significant first. */
  function LeValue(bs: seq<byte>): (n: nat)
  {
    if bs == [] then 0 else ByteValue(bs[0]) + 256 * LeValue(bs[1..])
  }

  /** The k low bytes of n, least significant first; byte i is n >> 8 i. */
  function LeBytes(n: nat, k: nat): (bs: seq<byte>)
    ensures |bs| == k
  {
    seq(k, i requires 0 <= i < k => LowByte(Shr(n, 8 * i)))
  }

  function Reversed<T>(s: seq<T>): (r: seq<T>)
    ensures |r| == |s|
    ensures forall i :: 0 <= i < |s| ==> r[i] == s[|s| - 1 - i]
  {
    seq(|s|, i requires 0 <= i < |s| => s[|s| - 1 - i])
  }

  lemma ReversedTwice<T>(s: seq<T>)
    ensures Reversed(Reversed(s)) == s
  {
  }

  /** The k low bytes of n, most significant first. */
  function BeBytes(n: nat, k: nat): (bs: seq<byte>)
    ensures |bs| == k
  {
    seq(k, i requires 0 <= i < k => LowByte(Shr(n, 8 * (k - 1 - i))))
  }

  lemma BeBytesReversed(n: nat, k: nat)
    ensures BeBytes(n, k) == Reversed(LeBytes(n, k))
  {
  }

  lemma LeBytesStep(n: nat, k: nat)
    requires k > 0
    ensures LeBytes(n, k) == [LowByte(n)] + LeBytes(n / 256, k - 1)
  {
    hide LowByte;
    assert Pow2(0) == 1 && Pow2(8) == 256;
    forall i | 0 < i < k
      ensures LowByte(Shr(n, 8 * i)) == LowByte(Shr(n / 256, 8 * (i - 1)))
    {
      Pow2Add(8, 8 * (i - 1));
      DivDiv(n, 256, Pow2(8 * (i - 1)));
    }
  }

  /** Writing k bytes and reading them back keeps n modulo 2^(8 k). */
  lemma {:induction false} LeRoundTrip(n: nat, k: nat)
    ensures LeValue(LeBytes(n, k)) == n % Pow2(8 * k)
  {
    hide LowByte, ByteValue;
    if k == 0 {
    } else {
      LeBytesStep(n, k);
      LeRoundTrip(n / 256, k - 1);
      Pow2Add(8, 8 * (k - 1));
      assert Pow2(8) == 256;
      var p := Pow2(8 * (k - 1));
      LeDigit(n, p, Pow2(8 * k));
      assert LeBytes(n, k)[1..] == LeBytes(n / 256, k - 1);
    }
  }

  lemma LeDigit(n: nat, p: nat, m: nat)
    requires p > 0 && m == 256 * p
    ensures n % 256 + 256 * ((n / 256) % p) == n % m
  {
    var q := (n / 256) / p;
    assert n / 256 == p * q + (n / 256) % p;
    assert n == m * q + (n % 256 + 256 * ((n / 256) % p)) by { MulAssoc(256, p, q); }
    DivModUnique(n, m, q, n % 256 + 256 * ((n / 256) % p));
  }

  lemma {:induction false} LeValueBound(bs: seq<byte>)
    ensures LeValue(bs) < Pow2(8 * |bs|)
  {
    hide ByteValue;
    if bs != [] {
      LeValueBound(bs[1..]);
      Pow2Add(8, 8 * (|bs| - 1));
      assert Pow2(8) == 256;
    }
  }

  /** Byte strings of one length are determined by their number. */
  lemma {:induction false} LeValueInjective(a: seq<byte>, b: seq<byte>)
    requires |a| == |b| && LeValue(a) == LeValue(b)
    ensures a == b
  {
    if a != [] {
      LeHeads(ByteValue(a[0]), LeValue(a[1..]), ByteValue(b[0]), LeValue(b[1..]));
      ByteValueInjective(a[0], b[0]);
      LeValueInjective(a[1..], b[1..]);
      assert a == [a[0]] + a[1..] && b == [b[0]] + b[1..];
    }
  }

  lemma LeHeads(x: nat, h: nat, y: nat, g: nat)
    requires x < 256 && y < 256 && x + 256 * h == y + 256 * g
    ensures x == y && h == g
  {
  }

  lemma LeBytesInverse(bs: seq<byte>)
    ensures LeBytes(LeValue(bs), |bs|) == bs
  {
    hide LeValue, LeBytes, Pow2;
    LeValueBound(bs);
    LeRoundTrip(LeValue(bs), |bs|);
    SmallMod(LeValue(bs), Pow2(8 * |bs|));
    LeValueInjective(LeBytes(LeValue(bs), |bs|), bs);
  }

  lemma LeBytesInjective(n: nat, m: nat, k: nat)
    requires n < Pow2(8 * k) && m < Pow2(8 * k) && LeBytes(n, k) == LeBytes(m, k)
    ensures n == m
  {
    hide LeValue, LeBytes, Pow2;
    LeRoundTrip(n, k);
    LeRoundTrip(m, k);
    SmallMod(n, Pow2(8 * k));
    SmallMod(m, Pow2(8 * k));
  }

  /** bs[0] | bs[1] << 8 | bs[2] << 16 | ... */
  function JoinLe(bs: seq<byte>): (n: nat)
  {
    if bs == [] then 0
    else BitOr(JoinLe(bs[..|bs| - 1]), ByteValue(bs[|bs| - 1]) * Pow2(8 * (|bs| - 1)))
  }

  lemma {:induction false} LeValueSnoc(bs: seq<byte>, b: byte)
    ensures LeValue(bs + [b]) == LeValue(bs) + ByteValue(b) * Pow2(8 * |bs|)
  {
    hide ByteValue;
    if bs == [] {
      assert bs + [b] == [b] && [b][1..] == [];
      assert LeValue([b]) == ByteValue(b);
    } else {
      assert (bs + [b])[1..] == bs[1..] + [b];
      LeValueSnoc(bs[1..], b);
      Pow2Add(8, 8 * (|bs| - 1));
      assert Pow2(8) == 256;
      ScaleShift(ByteValue(b), Pow2(8 * (|bs| - 1)), Pow2(8 * |bs|));
    }
  }

  lemma ScaleShift(x: nat, p: nat, m: nat)
    requires m == 256 * p
    ensures 256 * (x * p) == x * m
  {
  }

  lemma LeValueEmpty()
    ensures LeValue([]) == 0
  {
  }

  /** Shifting bytes into place and or-ing them reads the little-endian number. */
  lemma {:induction false} JoinLeValue(bs: seq<byte>)
    ensures JoinLe(bs) == LeValue(bs)
  {
    hide ByteValue, Pow2, LeValue, BitOr;
    LeValueEmpty();
    if bs != [] {
      var init, b := bs[..|bs| - 1], bs[|bs| - 1];
      JoinLeValue(init);
      LeValueBound(init);
      assert bs == init + [b];
      LeValueSnoc(init, b);
      DivMulCancel(ByteValue(b), Pow2(8 * |init|));
      OrDisjoint(ByteValue(b) * Pow2(8 * |init|), LeValue(init), 8 * |init|);
    }
  }

  lemma Pow2Zero()
    ensures Pow2(0) == 1
  {
  }

  lemma ByteWeight(k: nat)
    requires k > 0
    ensures Pow2(8 * k) == 256 * Pow2(8 * (k - 1))
  {
    Pow2Add(8, 8 * (k - 1));
    assert Pow2(8) == 256;
  }

  lemma ConcatStep(x: nat, h: nat, y: nat, p: nat, m: nat)
    requires m == 256 * p
    ensures x + 256 * (h + p * y) == x + 256 * h + m * y
  {
  }

  lemma {:induction false} LeValueConcat(a: seq<byte>, b: seq<byte>)
    ensures LeValue(a + b) == LeValue(a) + Pow2(8 * |a|) * LeValue(b)
  {
    hide ByteValue, Pow2;
    if a == [] {
      Pow2Zero();
      assert a + b == b;
    } else {
      assert (a + b)[1..] == a[1..] + b;
      LeValueConcat(a[1..], b);
      ByteWeight(|a|);
      assert (a + b)[0] == a[0];
      ConcatStep(ByteValue(a[0]), LeValue(a[1..]), LeValue(b), Pow2(8 * (|a| - 1)), Pow2(8 * |a|));
    }
  }
}
