/** The compact form of a target as a codec: byte length and top three bytes, and back. */
module CompactForm {
  import opened BitMath
  import opened Uint256
  import opened Target

  // ----- byte lengths -----

  /** 256^k */
  function Bytes256(k: nat): (w: nat)
    ensures w >= 1
  {
    Pow2(8 * k)
  }

  lemma OneMore(k: nat)
    ensures Bytes256(k + 1) == 256 * Bytes256(k) && Bytes256(0) == 1
  {
    Pow2Add(8, 8 * k);
    SmallPowers();
  }

  lemma WeightTimes(j: nat, k: nat)
    ensures Bytes256(j) * Bytes256(k) == Bytes256(j + k)
  {
    Pow2Add(8 * j, 8 * k);
  }

  lemma FirstWeights()
    ensures Bytes256(0) == 1 && Bytes256(1) == 0x100 && Bytes256(2) == 0x1_0000 && Bytes256(3) == 0x100_0000
    ensures Bytes256(32) == MODULUS
  {
    hide Bytes256;
    OneMore(0);
    OneMore(1);
    OneMore(2);
    WholeWeight();
  }

  lemma WholeWeight()
    ensures Bytes256(32) == MODULUS
  {
    LimbWeightIsPow2(4);
    LimbWeightValues();
  }

  lemma {:induction false} WeightMonotone(j: nat, k: nat)
    requires j <= k
    ensures Bytes256(j) <= Bytes256(k)
  {
    Pow2Monotone(8 * j, 8 * k);
  }

  /** How many bytes a number takes. */
  function ByteLength(v: nat): nat {
    if v == 0 then 0 else 1 + ByteLength(v / 256)
  }

  lemma {:induction false} LengthBounds(v: nat)
    ensures v < Bytes256(ByteLength(v))
    ensures v > 0 ==> ByteLength(v) > 0 && Bytes256(ByteLength(v) - 1) <= v
  {
    hide Bytes256;
    if v > 0 {
      LengthBounds(v / 256);
      OneMore(ByteLength(v / 256));
      if v / 256 > 0 {
        OneMore(ByteLength(v / 256) - 1);
      } else {
        OneMore(0);
      }
    } else {
      OneMore(0);
    }
  }

  lemma LengthIs(v: nat, k: nat)
    requires k > 0 && Bytes256(k - 1) <= v < Bytes256(k)
    ensures ByteLength(v) == k
  {
    hide Bytes256;
    LengthBounds(v);
    var l := ByteLength(v);
    if l < k {
      WeightMonotone(l, k - 1);
    } else if l > k {
      WeightMonotone(k, l - 1);
    }
  }

  // ----- the encoding -----

  /** The top three bytes of a number written in so many bytes. */
  function TopThree(v: nat, size: nat): nat {
    if size <= 3 then v * Bytes256(3 - size) else Quotient(v, Bytes256(size - 3))
  }

  /** One byte more than the number takes when its top bit would be read as a sign. */
  function SizeOfCompact(v: nat): nat {
    if TopThree(v, ByteLength(v)) >= 0x80_0000 then ByteLength(v) + 1 else ByteLength(v)
  }

  function EncodeCompact(v: nat): nat {
    SizeOfCompact(v) * 0x100_0000 + TopThree(v, SizeOfCompact(v))
  }

  /** The number with all but its top three bytes cleared. */
  function KeepTopThree(v: nat, size: nat): nat {
    if size <= 3 then v else Quotient(v, Bytes256(size - 3)) * Bytes256(size - 3)
  }

  /** Forms that encoding produces: no sign, no needless leading zero byte, nothing that expanding loses. */
  predicate Canonical(c: nat) {
    var size, top := c / 0x100_0000, c % 0x100_0000;
    c == 0
    || (&& 0x8000 <= top < 0x80_0000
        && (size < 3 ==> size >= 1 && top % Bytes256(3 - size) == 0)
        && (size <= 32 || (size == 33 && top < 0x1_0000)))
  }

  /** One byte more moves the top three bytes down by one. */
  lemma TopDown(v: nat, size: nat)
    ensures TopThree(v, size + 1) == TopThree(v, size) / 256
  {
    FirstWeights();
    if size < 3 {
      OneMore(2 - size);
      LowZero(v, Bytes256(2 - size));
    } else if size == 3 {
    } else {
      OneMore(size - 3);
      DivDiv(v, Bytes256(size - 3), 256);
    }
  }

  lemma LowZero(v: nat, w: nat)
    ensures v * (256 * w) / 256 == v * w
  {
    assert v * (256 * w) == 256 * (v * w);
  }

  lemma TopBounds(v: nat)
    requires v > 0
    ensures 0x1_0000 <= TopThree(v, ByteLength(v)) < 0x100_0000
  {
    hide Bytes256;
    FirstWeights();
    LengthBounds(v);
    var l := ByteLength(v);
    if l <= 3 {
      LowLength(v, l);
    } else {
      HighLength(v, l);
    }
  }

  lemma LowLength(v: nat, l: nat)
    requires 0 < l <= 3 && Bytes256(l - 1) <= v < Bytes256(l)
    ensures 0x1_0000 <= v * Bytes256(3 - l) < 0x100_0000
  {
    FirstWeights();
    hide Bytes256;
  }

  lemma HighLength(v: nat, l: nat)
    requires l > 3 && Bytes256(l - 1) <= v < Bytes256(l)
    ensures 0x1_0000 <= Quotient(v, Bytes256(l - 3)) < 0x100_0000
  {
    hide Bytes256;
    FirstWeights();
    WeightTimes(2, l - 3);
    WeightTimes(3, l - 3);
    QuotientWithin(v, Bytes256(l - 3), 0x1_0000, 0x100_0000);
  }

  lemma QuotientWithin(v: nat, w: nat, low: nat, high: nat)
    requires w > 0 && low * w <= v < high * w
    ensures low <= v / w < high
  {
    DivisionIdentity(v, w);
    if v / w < low {
      MulLe(v / w + 1, low, w);
      Distribute(v / w, 1, w);
      assert false;
    }
    if v / w >= high {
      MulLe(high, v / w, w);
      assert false;
    }
  }

  /** What encoding gives: a size within the field and canonical top bytes. */
  lemma EncodedParts(v: nat)
    requires 0 < v < MODULUS
    ensures var size := SizeOfCompact(v);
            && 1 <= size <= 33 && 0x8000 <= TopThree(v, size) < 0x80_0000
            && (size == 33 ==> TopThree(v, size) < 0x1_0000)
  {
    hide Bytes256, TopThree, ByteLength;
    TopBounds(v);
    TopDown(v, ByteLength(v));
    LengthWithin(v);
  }

  lemma LengthWithin(v: nat)
    requires 0 < v < MODULUS
    ensures 1 <= ByteLength(v) <= 32
  {
    hide Bytes256;
    LengthBounds(v);
    FirstWeights();
    if ByteLength(v) > 32 {
      WeightMonotone(32, ByteLength(v) - 1);
    }
  }

  // ----- expanding -----

  lemma ZeroForms()
    ensures EncodeCompact(0) == 0 && CompactValue(0) == 0 && Canonical(0)
  {
    FirstWeights();
  }

  function Unpacked(size: nat, top: nat): nat {
    if size <= 3 then Quotient(top, Bytes256(3 - size)) else (top * Bytes256(size - 3)) % MODULUS
  }

  lemma ExpandParts(size: nat, top: nat)
    requires size <= 255 && top < 0x80_0000
    ensures size * 0x100_0000 + top < 0x1_0000_0000
    ensures CompactValue(size * 0x100_0000 + top) == Unpacked(size, top)
  {
    var c := size * 0x100_0000 + top;
    assert c / 0x100_0000 == size && c % 0x80_0000 == top;
  }

  /** Expanding an encoded number gives the number with all but its top three bytes cleared. */
  lemma EncodeThenExpand(v: nat)
    requires v < MODULUS
    ensures EncodeCompact(v) < 0x1_0000_0000 && Canonical(EncodeCompact(v))
    ensures CompactValue(EncodeCompact(v)) == KeepTopThree(v, SizeOfCompact(v))
  {
    hide Bytes256, CompactValue, SizeOfCompact, TopThree, KeepTopThree, Unpacked, Canonical;
    if v == 0 {
      ZeroForms();
      ZeroSize();
    } else {
      var size := SizeOfCompact(v);
      EncodedParts(v);
      ExpandParts(size, TopThree(v, size));
      UnpackedTop(v, size);
      if size <= 3 {
        SmallTop(v, size);
      }
      CanonicalParts(size, TopThree(v, size));
    }
  }

  lemma SmallTop(v: nat, size: nat)
    requires size <= 3
    ensures TopThree(v, size) % Bytes256(3 - size) == 0
  {
    hide Bytes256;
    DivMulCancel(v, Bytes256(3 - size));
  }

  lemma CanonicalParts(size: nat, top: nat)
    requires 1 <= size <= 33 && 0x8000 <= top < 0x80_0000 && (size == 33 ==> top < 0x1_0000)
    requires size <= 3 ==> top % Bytes256(3 - size) == 0
    ensures Canonical(size * 0x100_0000 + top)
  {
    hide Bytes256;
    DivModUnique(size * 0x100_0000 + top, 0x100_0000, size, top);
  }

  lemma UnpackedTop(v: nat, size: nat)
    requires v < MODULUS
    ensures Unpacked(size, TopThree(v, size)) == KeepTopThree(v, size)
  {
    hide Bytes256;
    if size <= 3 {
      DivMulCancel(v, Bytes256(3 - size));
    } else {
      DivisionIdentity(v, Bytes256(size - 3));
      SmallMod(TopThree(v, size) * Bytes256(size - 3), MODULUS);
    }
  }

  lemma ZeroSize()
    ensures SizeOfCompact(0) == 0 && KeepTopThree(0, 0) == 0
  {
  }

  /** A canonical form is the encoding of what it expands to. */
  lemma CanonicalReencodes(c: nat)
    requires c < 0x1_0000_0000 && Canonical(c) && c > 0
    ensures EncodeCompact(CompactValue(c)) == c
  {
    hide Bytes256, CompactValue, ByteLength;
    var size, top := c / 0x100_0000, c % 0x100_0000;
    assert c == size * 0x100_0000 + top;
    ExpandParts(size, top);
    ExpandedValue(size, top);
    ExpandedLength(size, top, CompactValue(c));
    TopDown(CompactValue(c), size - 1);
  }

  /** The expanded number, without the reduction, and its top three bytes. */
  lemma ExpandedValue(size: nat, top: nat)
    requires 1 <= size <= 33 && 0x8000 <= top < 0x80_0000
    requires size < 3 ==> top % Bytes256(3 - size) == 0
    requires size == 33 ==> top < 0x1_0000
    ensures var v := Unpacked(size, top);
            && TopThree(v, size) == top
            && (size > 3 ==> v == top * Bytes256(size - 3))
            && (size <= 3 ==> v * Bytes256(3 - size) == top)
  {
    hide Bytes256;
    FirstWeights();
    if size <= 3 {
      DivisionIdentity(top, Bytes256(3 - size));
    } else {
      ExpandedFits(size, top);
      SmallMod(top * Bytes256(size - 3), MODULUS);
      DivMulCancel(top, Bytes256(size - 3));
    }
  }

  lemma ExpandedFits(size: nat, top: nat)
    requires 3 < size <= 33 && top < 0x100_0000 && (size == 33 ==> top < 0x1_0000)
    ensures top * Bytes256(size - 3) < MODULUS
  {
    hide Bytes256;
    FirstWeights();
    if size == 33 {
      WeightTimes(2, 30);
      ProductBelow(top, 0x1_0000, Bytes256(30));
    } else {
      WeightTimes(3, size - 3);
      WeightMonotone(size, 32);
      ProductBelow(top, 0x100_0000, Bytes256(size - 3));
    }
  }

  lemma ProductBelow(top: nat, bound: nat, w: nat)
    requires top < bound && w > 0
    ensures top * w < bound * w
  {
    MulLe(top + 1, bound, w);
    Distribute(top, 1, w);
  }

  /** A top byte of zero is the one kept off the sign; otherwise the size is the byte length. */
  lemma ExpandedLength(size: nat, top: nat, v: nat)
    requires 1 <= size <= 33 && 0x8000 <= top < 0x80_0000
    requires size > 3 ==> v == top * Bytes256(size - 3)
    requires size <= 3 ==> v * Bytes256(3 - size) == top
    ensures ByteLength(v) == if top < 0x1_0000 then size - 1 else size
  {
    var l := if top < 0x1_0000 then size - 1 else size;
    hide ByteLength;
    if size > 3 {
      LongLength(size, top, v);
    } else {
      ShortLength(size, top, v);
    }
  }

  lemma LongLength(size: nat, top: nat, v: nat)
    requires 3 < size <= 33 && 0x8000 <= top < 0x80_0000 && v == top * Bytes256(size - 3)
    ensures ByteLength(v) == if top < 0x1_0000 then size - 1 else size
  {
    hide ByteLength, Bytes256;
    var w := Bytes256(size - 3);
    FirstWeights();
    WeightTimes(1, size - 3);
    WeightTimes(2, size - 3);
    WeightTimes(3, size - 3);
    if top < 0x1_0000 {
      MulLe(0x100, top, w);
      ProductBelow(top, 0x1_0000, w);
      LengthIs(v, size - 1);
    } else {
      MulLe(0x1_0000, top, w);
      ProductBelow(top, 0x100_0000, w);
      LengthIs(v, size);
    }
  }

  lemma ShortLength(size: nat, top: nat, v: nat)
    requires 1 <= size <= 3 && 0x8000 <= top < 0x80_0000 && v * Bytes256(3 - size) == top
    ensures ByteLength(v) == if top < 0x1_0000 then size - 1 else size
  {
    FirstWeights();
    hide Bytes256, ByteLength;
    if size == 1 && top < 0x1_0000 {
      assert false;
    }
    LengthIs(v, if top < 0x1_0000 then size - 1 else size);
  }

  /** The compact forms that survive expanding and encoding are exactly the canonical ones. */
  lemma CodecExactly(c: nat)
    requires c < 0x1_0000_0000
    ensures EncodeCompact(CompactValue(c)) == c <==> Canonical(c)
  {
    hide EncodeCompact, CompactValue, Canonical;
    EncodeThenExpand(CompactValue(c));
    if Canonical(c) {
      if c > 0 {
        CanonicalReencodes(c);
      } else {
        ZeroForms();
      }
    }
  }

  /** Every form, canonical or not: three bytes without the sign bit, a factor of 256 for each size more. */
  lemma CompactScaling(c: nat)
    requires c < 0xff00_0000
    ensures c / 0x100_0000 == 3 ==> CompactValue(c) == c % 0x80_0000
    ensures c / 0x100_0000 >= 3 ==> CompactValue(c + 0x100_0000) == (CompactValue(c) * 256) % MODULUS
    ensures c / 0x100_0000 < 3 ==> CompactValue(c) == CompactValue(c + 0x100_0000) / 256
  {
    hide Bytes256, CompactValue;
    var size, top := c / 0x100_0000, c % 0x80_0000;
    SameField(c);
    FirstWeights();
    if size >= 3 {
      OneMore(size - 3);
      ModTimes(top * Bytes256(size - 3), 256, MODULUS);
      MulAssoc(top, Bytes256(size - 3), 256);
    } else {
      OneMore(2 - size);
      DivDiv(top, Bytes256(2 - size), 256);
    }
  }

  lemma SameField(c: nat)
    requires c < 0xff00_0000
    ensures var size, top := c / 0x100_0000, c % 0x80_0000;
            CompactValue(c) == Unpacked(size, top) && CompactValue(c + 0x100_0000) == Unpacked(size + 1, top)
  {
    var next := c + 0x100_0000;
    assert next / 0x100_0000 == c / 0x100_0000 + 1 && next % 0x80_0000 == c % 0x80_0000;
  }
}
