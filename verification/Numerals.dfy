/** The strings of a share submission are the hexadecimal numerals of what they stand for. */
module Numerals {
  import opened Wrappers
  import opened BitMath
  import opened Bytes
  import opened Sha256
  import opened Hex
  import opened Uint256Text
  import opened Work
  import opened Scan

  lemma DigitIs(n: byte)
    requires n < 16
    ensures DigitVal(HexDigit(n)) == ByteValue(n) && HexDigit(n) != '_'
  {
  }

  lemma NibblesValue(b: byte)
    ensures ByteValue(b) == 16 * ByteValue(HighNibble(b)) + ByteValue(LowNibble(b))
    ensures ByteValue(HighNibble(b)) < 16 && ByteValue(LowNibble(b)) < 16
  {
  }

  lemma HexOfSnoc(bytes: seq<byte>, b: byte)
    ensures HexOf(bytes + [b]) == HexOf(bytes) + [HexDigit(HighNibble(b))] + [HexDigit(LowNibble(b))]
  {
    hide HexDigit, HighNibble, LowNibble;
  }

  /** Hexadecimal text is the numeral, leading zeros included, of the big-endian number. */
  lemma {:induction false} HexIsNumeral(bytes: seq<byte>)
    ensures ParseNat(HexOf(bytes), 16) == Some(LeValue(Reversed(bytes)))
  {
    hide HexOf, DigitVal, HexDigit, HighNibble, LowNibble, ByteValue, ParseNat, LeValue;
    if bytes == [] {
      EmptyNumeral();
    } else {
      var front, b := bytes[..|bytes| - 1], bytes[|bytes| - 1];
      HexIsNumeral(front);
      assert bytes == front + [b];
      HexOfSnoc(front, b);
      DigitIs(HighNibble(b));
      DigitIs(LowNibble(b));
      NibblesValue(b);
      ParseSnoc(HexOf(front), HexDigit(HighNibble(b)), 16);
      ParseSnoc(HexOf(front) + [HexDigit(HighNibble(b))], HexDigit(LowNibble(b)), 16);
      ReversedSnoc(front, b);
    }
  }

  lemma EmptyNumeral()
    ensures ParseNat(HexOf([]), 16) == Some(0) && LeValue(Reversed([])) == 0
  {
    assert HexOf([]) == "";
  }

  lemma ReversedSnoc(front: seq<byte>, b: byte)
    ensures LeValue(Reversed(front + [b])) == ByteValue(b) + 256 * LeValue(Reversed(front))
  {
    var r := Reversed(front + [b]);
    assert r[1..] == Reversed(front);
  }

  /** The submitted extranonce2 is the counter in 2 * size hexadecimal digits. */
  lemma ExtranonceIsNumeral(counter: nat, size: nat)
    requires size <= 8 && counter <= MaxExtranonce2(size)
    ensures |ExtranonceHex(counter, size)| == 2 * size && ParseNat(ExtranonceHex(counter, size), 16) == Some(counter)
  {
    hide ParseNat, HexOf, BeBytes, LeBytes, LeValue, Pow2, Reversed;
    HexIsNumeral(BeBytes(counter, size));
    BeBytesReversed(counter, size);
    ReversedTwice(LeBytes(counter, size));
    LeRoundTrip(counter, size);
    SmallMod(counter, Pow2(8 * size));
  }

  /** The submitted nonce is the nonce in eight hexadecimal digits. */
  lemma NonceIsNumeral(nonce: nat)
    requires nonce <= MAX_NONCE
    ensures HexOf(WriteBe32(NonceWord(nonce))) == ExtranonceHex(nonce, 4)
    ensures ParseNat(HexOf(WriteBe32(NonceWord(nonce))), 16) == Some(nonce)
  {
    Pow2Values();
    hide ParseNat, HexOf, BeBytes, ReadBe32, WriteBe32, Pow2, ExtranonceHex;
    WriteRead(BeBytes(nonce, 4));
    ExtranonceIsNumeral(nonce, 4);
    ExtranonceIs(nonce);
  }

  lemma ExtranonceIs(nonce: nat)
    ensures ExtranonceHex(nonce, 4) == HexOf(BeBytes(nonce, 4))
  {
  }
}
