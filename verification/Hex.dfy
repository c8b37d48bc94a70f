/** Lowercase hexadecimal strings and the bytes they spell. */
module Hex {
  import opened BitMath
  import opened Bytes
  import opened Fips180
  import opened Sha256

  datatype Result<+T> = Ok(value: T) | Err(error: HexError)

  datatype HexError = BadHex | BadLength | SizeTooLarge

  // ----- digits -----

  function HexDigit(n: byte): (c: char)
    requires n < 16
  {
    "0123456789abcdef"[n as int]
  }

  predicate IsLowerHexDigit(c: char) {
    '0' <= c <= '9' || 'a' <= c <= 'f'
  }

  function HexValue(c: char): (v: byte)
    requires IsLowerHexDigit(c)
    ensures v < 16
  {
    if c <= '9' then (c as int - '0' as int) as byte else (10 + (c as int - 'a' as int)) as byte
  }

  lemma DigitThenValue(n: byte)
    requires n < 16
    ensures IsLowerHexDigit(HexDigit(n)) && HexValue(HexDigit(n)) == n
  {
  }

  lemma ValueThenDigit(c: char)
    requires IsLowerHexDigit(c)
    ensures HexDigit(HexValue(c)) == c
  {
    if c <= '9' {
      assert c == '0' || c == '1' || c == '2' || c == '3' || c == '4' || c == '5' || c == '6' || c == '7' || c == '8'
          || c == '9';
    } else {
      assert c == 'a' || c == 'b' || c == 'c' || c == 'd' || c == 'e' || c == 'f';
    }
  }

  // ----- strings -----

  predicate IsLowerHex(s: string) {
    |s| % 2 == 0 && forall i :: 0 <= i < |s| ==> IsLowerHexDigit(s[i])
  }

  method IsLowerHexString(s: string) returns (ok: bool)
    ensures ok <==> IsLowerHex(s)
  {
    if |s| % 2 != 0 {
      return false;
    }
    for i := 0 to |s|
      invariant forall k :: 0 <= k < i ==> IsLowerHexDigit(s[k])
    {
      if !IsLowerHexDigit(s[i]) {
        return false;
      }
    }
    return true;
  }

  function HighNibble(b: byte): (n: byte)
    ensures n < 16
  {
    (b >> 4) & 0x0f
  }

  function LowNibble(b: byte): (n: byte)
    ensures n < 16
  {
    b & 0x0f
  }

  function JoinNibbles(hi: byte, lo: byte): byte {
    (hi << 4) | lo
  }

  lemma NibblesOfJoin(hi: byte, lo: byte)
    requires hi < 16 && lo < 16
    ensures HighNibble(JoinNibbles(hi, lo)) == hi && LowNibble(JoinNibbles(hi, lo)) == lo
  {
  }

  lemma JoinOfNibbles(b: byte)
    ensures JoinNibbles(HighNibble(b), LowNibble(b)) == b
  {
  }

  function HexOf(bytes: seq<byte>): (s: string)
    ensures |s| == 2 * |bytes|
  {
    seq(2 * |bytes|, i requires 0 <= i < 2 * |bytes| =>
      HexDigit(if i % 2 == 0 then HighNibble(bytes[i / 2]) else LowNibble(bytes[i / 2])))
  }

  function BytesOfHex(s: string): (bytes: seq<byte>)
    requires IsLowerHex(s)
    ensures |bytes| == |s| / 2
  {
    seq(|s| / 2, i requires 0 <= i < |s| / 2 => JoinNibbles(HexValue(s[2 * i]), HexValue(s[2 * i + 1])))
  }

  lemma HexOfIsLowerHex(bytes: seq<byte>)
    ensures IsLowerHex(HexOf(bytes))
  {
    hide HexDigit, IsLowerHexDigit, HighNibble, LowNibble;
    var s := HexOf(bytes);
    forall i | 0 <= i < |s|
      ensures IsLowerHexDigit(s[i])
    {
      DigitThenValue(if i % 2 == 0 then HighNibble(bytes[i / 2]) else LowNibble(bytes[i / 2]));
    }
  }

  /** Decoding what was encoded. */
  lemma HexRoundTrip(bytes: seq<byte>)
    ensures IsLowerHex(HexOf(bytes)) && BytesOfHex(HexOf(bytes)) == bytes
  {
    hide HexDigit, HexValue, IsLowerHexDigit, HighNibble, LowNibble, JoinNibbles;
    HexOfIsLowerHex(bytes);
    forall i | 0 <= i < |bytes|
      ensures BytesOfHex(HexOf(bytes))[i] == bytes[i]
    {
      DigitThenValue(HighNibble(bytes[i]));
      DigitThenValue(LowNibble(bytes[i]));
      JoinOfNibbles(bytes[i]);
    }
  }

  /** Encoding what was decoded. */
  lemma HexRoundTripText(s: string)
    requires IsLowerHex(s)
    ensures HexOf(BytesOfHex(s)) == s
  {
    hide HexDigit, HexValue, IsLowerHexDigit, HighNibble, LowNibble, JoinNibbles;
    forall i | 0 <= i < |s|
      ensures HexOf(BytesOfHex(s))[i] == s[i]
    {
      var k := i / 2;
      NibblesOfJoin(HexValue(s[2 * k]), HexValue(s[2 * k + 1]));
      ValueThenDigit(s[i]);
    }
  }

  lemma BytesOfHexConcat(s: string, t: string)
    requires IsLowerHex(s) && IsLowerHex(t)
    ensures IsLowerHex(s + t) && BytesOfHex(s + t) == BytesOfHex(s) + BytesOfHex(t)
  {
    hide HexValue, IsLowerHexDigit, JoinNibbles;
  }

  lemma HexOfInjective(a: seq<byte>, b: seq<byte>)
    requires HexOf(a) == HexOf(b)
    ensures a == b
  {
    HexRoundTrip(a);
    HexRoundTrip(b);
  }

  // ----- the conversions -----

  method BytesToHex(bytes: seq<byte>) returns (out: string)
    ensures out == HexOf(bytes)
  {
    hide HexDigit, HighNibble, LowNibble;
    out := seq(|bytes| * 2, _ => '0');
    for i := 0 to |bytes|
      invariant |out| == 2 * |bytes|
      invariant forall k :: 0 <= k < 2 * i ==> out[k] == HexOf(bytes)[k]
    {
      out := out[i * 2 := HexDigit(HighNibble(bytes[i]))][i * 2 + 1 := HexDigit(LowNibble(bytes[i]))];
    }
  }

  method HexToBytes(hex: string) returns (r: Result<seq<byte>>)
    ensures r.Ok? <==> IsLowerHex(hex)
    ensures r.Ok? ==> r.value == BytesOfHex(hex)
  {
    hide HexValue, IsLowerHexDigit, JoinNibbles;
    var lower := IsLowerHexString(hex);
    if !lower {
      return Err(BadHex);
    }
    var out: seq<byte> := [];
    var i := 0;
    while i < |hex|
      invariant i % 2 == 0 && 0 <= i <= |hex|
      invariant out == BytesOfHex(hex)[..i / 2]
    {
      out := out + [JoinNibbles(HexValue(hex[i]), HexValue(hex[i + 1]))];
      i := i + 2;
    }
    return Ok(out);
  }

  method HexToArray32(hex: string) returns (r: Result<seq<byte>>)
    ensures r.Ok? <==> IsLowerHex(hex) && |hex| == 64
    ensures r.Ok? ==> r.value == BytesOfHex(hex)
  {
    var bytes := HexToBytes(hex);
    if bytes.Err? {
      return bytes;
    }
    if |bytes.value| != 32 {
      return Err(BadLength);
    }
    return bytes;
  }

  /** Eight digits, most significant byte first. */
  method HexFromU32Be(value: Word) returns (out: string)
    ensures out == HexOf(WriteBe32(value))
  {
    hide HexDigit, HighNibble, LowNibble;
    out := seq(8, _ => '0');
    for i := 0 to 4
      invariant |out| == 8
      invariant forall k :: 0 <= k < 2 * i ==> out[k] == HexOf(WriteBe32(value))[k]
    {
      var b := ByteOfWord(value, 3 - i);
      out := out[i * 2 := HexDigit(HighNibble(b))][i * 2 + 1 := HexDigit(LowNibble(b))];
    }
  }

  /** Byte k of a word, byte 0 least significant. */
  function ByteOfWord(value: Word, k: nat): (b: byte)
    requires k < 4
    ensures b == WriteBe32(value)[3 - k]
  {
    ((value >> (8 * k)) & 0xff) as byte
  }

  /** The word a string of hexadecimal digits spells, modulo 2^32. */
  function HexWord(s: string): Word
    requires forall i :: 0 <= i < |s| ==> IsLowerHexDigit(s[i])
  {
    if s == [] then 0 else PushNibble(HexWord(s[..|s| - 1]), HexValue(s[|s| - 1]))
  }

  function PushNibble(w: Word, v: byte): Word {
    (w << 4) | (v as bv32)
  }

  lemma TwoNibbles(w: Word, hi: byte, lo: byte)
    requires hi < 16 && lo < 16
    ensures PushNibble(PushNibble(w, hi), lo) == ShiftIn(w, JoinNibbles(hi, lo))
  {
  }

  lemma HexWordPair(s: string, k: nat)
    requires IsLowerHex(s) && 2 * k + 2 <= |s|
    ensures HexWord(s[..2 * k + 2]) == ShiftIn(HexWord(s[..2 * k]), BytesOfHex(s)[k])
  {
    hide HexValue, IsLowerHexDigit, JoinNibbles, PushNibble, ShiftIn;
    assert s[..2 * k + 2][..2 * k + 1] == s[..2 * k + 1];
    assert s[..2 * k + 1][..2 * k] == s[..2 * k];
    TwoNibbles(HexWord(s[..2 * k]), HexValue(s[2 * k]), HexValue(s[2 * k + 1]));
  }

  /** Eight digits spell the word of the four bytes they decode to. */
  lemma HexWordIsBigEndian(s: string)
    requires IsLowerHex(s) && |s| == 8
    ensures HexWord(s) == ReadBe32(BytesOfHex(s))
  {
    assert s[..8] == s && s[..0] == [];
    assert HexWord([]) == 0;
    hide HexWord, BytesOfHex, ShiftIn, ReadBe32;
    HexWordPair(s, 0);
    HexWordPair(s, 1);
    HexWordPair(s, 2);
    HexWordPair(s, 3);
    ShiftInFour(BytesOfHex(s));
  }

  method U32FromHexBe(hex: string) returns (r: Result<Word>)
    ensures r.Ok? <==> IsLowerHex(hex) && |hex| == 8
    ensures r.Ok? ==> r.value == ReadBe32(BytesOfHex(hex))
  {
    hide HexValue, PushNibble, IsLowerHexDigit, ReadBe32, BytesOfHex;
    if |hex| != 8 {
      return Err(BadLength);
    }
    var lower := IsLowerHexString(hex);
    if !lower {
      return Err(BadHex);
    }
    var value: Word := 0;
    for i := 0 to 8
      invariant value == HexWord(hex[..i])
    {
      assert hex[..i + 1][..i] == hex[..i];
      value := PushNibble(value, HexValue(hex[i]));
    }
    assert hex[..8] == hex;
    HexWordIsBigEndian(hex);
    return Ok(value);
  }

  /** The size low bytes of value, most significant first; more than eight bytes is an error. */
  method HexFromU64Be(value: nat, size: nat) returns (r: Result<string>)
    requires value < 0x1_0000_0000_0000_0000
    ensures r.Ok? <==> size <= 8
    ensures r.Ok? ==> r.value == HexOf(BeBytes(value, size))
  {
    hide HexDigit, HighNibble, LowNibble, LowByte, Shr;
    if size > 8 {
      return Err(SizeTooLarge);
    }
    var out := seq(size * 2, _ => '0');
    for i := 0 to size
      invariant |out| == 2 * size
      invariant forall k :: 0 <= k < 2 * i ==> out[k] == HexOf(BeBytes(value, size))[k]
    {
      var b := LowByte(Shr(value, 8 * (size - 1 - i)));
      out := out[i * 2 := HexDigit(HighNibble(b))][i * 2 + 1 := HexDigit(LowNibble(b))];
    }
    return Ok(out);
  }
}
