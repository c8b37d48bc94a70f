/** Bytes regrouped as five-bit symbols, through an accumulator that overflows, and addresses built from them. */
module Regroup {
  import opened Bytes
  import opened Sha256
  import opened Bech32

  // ----- bit strings -----

  /** A 32-bit two's complement integer, by its bits. */
  type Accumulator = bv32

  function BitAt(x: bv32, p: bv5): bool {
    (x >> p) & 1 == 1
  }

  /** The lowest bits of a word, the highest of them first. */
  function LowBits(x: bv32, bits: bv5): (b: seq<bool>)
    decreases bits
  {
    if bits == 0 then [] else [BitAt(x, bits - 1)] + LowBits(x, bits - 1)
  }

  function BitsOfSymbols(symbols: seq<byte>): seq<bool> {
    if symbols == [] then []
    else BitsOfSymbols(symbols[..|symbols| - 1]) + LowBits(Symbol(symbols[|symbols| - 1]), 5)
  }

  /** Arithmetic shift: copies of the sign bit come in from the left. */
  function ShiftRight(x: Accumulator, bits: bv5): Accumulator {
    if x & 0x8000_0000 != 0 then !((!x) >> bits) else x >> bits
  }

  function ShiftIn8(x: Accumulator, b: byte): Accumulator {
    (x << 8) | Symbol(b)
  }

  /** The next five bits. */
  function Take5(x: Accumulator, bits: bv5): byte {
    (ShiftRight(x, bits) & 31) as byte
  }

  /** The last bits, filled up with zeros on the right. */
  function Fill5(x: Accumulator, bits: bv5): byte
    requires bits <= 5
  {
    ((x << (5 - bits)) & 31) as byte
  }

  lemma ShiftInHigh(x: Accumulator, b: byte, p: bv5)
    requires p < 24
    ensures BitAt(ShiftIn8(x, b), p + 8) == BitAt(x, p)
  {
  }

  lemma ShiftInLow(x: Accumulator, b: byte, p: bv5)
    requires p < 8
    ensures BitAt(ShiftIn8(x, b), p) == BitAt(Symbol(b), p)
  {
  }

  lemma TakeBit(x: Accumulator, bits: bv5, p: bv5)
    requires bits <= 8 && p < 5
    ensures BitAt(Symbol(Take5(x, bits)), p) == BitAt(x, bits + p)
  {
  }

  lemma FillBit(x: Accumulator, bits: bv5, p: bv5)
    requires bits <= 5 && p < 5
    ensures BitAt(Symbol(Fill5(x, bits)), p) == (if p < 5 - bits then false else BitAt(x, p - (5 - bits)))
  {
  }

  lemma {:induction false} LowBitsAgree(x: bv32, y: bv32, k: bv5)
    requires forall p: bv5 :: p < k ==> BitAt(x, p) == BitAt(y, p)
    ensures LowBits(x, k) == LowBits(y, k)
    decreases k
  {
    hide BitAt;
    if k > 0 {
      LowBitsAgree(x, y, k - 1);
    }
  }

  lemma {:induction false} LowBitsLength(x: bv32, k: bv5)
    ensures |LowBits(x, k)| == k as int
    decreases k
  {
    hide BitAt;
    if k > 0 {
      LowBitsLength(x, k - 1);
    }
  }

  lemma ShiftInByte(x: Accumulator, b: byte)
    ensures LowBits(ShiftIn8(x, b), 8) == LowBits(Symbol(b), 8)
  {
    hide BitAt, ShiftIn8, Symbol;
    forall p: bv5 | p < 8 ensures BitAt(ShiftIn8(x, b), p) == BitAt(Symbol(b), p) {
      ShiftInLow(x, b, p);
    }
    LowBitsAgree(ShiftIn8(x, b), Symbol(b), 8);
  }

  lemma LowBitsNext(x: bv32, k: bv5, next: bv5)
    requires k < 31 && next == k + 1
    ensures LowBits(x, next) == [BitAt(x, k)] + LowBits(x, k)
  {
    hide BitAt;
  }

  /** A byte shifted in comes after the bits that were there. */
  lemma {:induction false} ShiftInBits(x: Accumulator, b: byte, k: bv5)
    requires k <= 16
    ensures LowBits(ShiftIn8(x, b), k + 8) == LowBits(x, k) + LowBits(Symbol(b), 8)
    decreases k
  {
    hide BitAt, ShiftIn8, Symbol, LowBits;
    if k == 0 {
      ShiftInByte(x, b);
      NoBits(x);
    } else {
      ShiftInHigh(x, b, k - 1);
      ShiftInBits(x, b, k - 1);
      LowBitsNext(ShiftIn8(x, b), k - 1 + 8, k + 8);
      LowBitsNext(x, k - 1, k);
    }
  }

  lemma NoBits(x: bv32)
    ensures LowBits(x, 0) == []
  {
  }

  /** The bits taken are the first of those that are there. */
  lemma {:induction false} TakeBits(x: Accumulator, k: bv5, j: bv5)
    requires k <= 8 && j <= 5
    ensures LowBits(x, k + j) == LowBits(Symbol(Take5(x, k)), j) + LowBits(x, k)
    decreases j
  {
    hide BitAt, Take5, Symbol, LowBits;
    if j > 0 {
      TakeBit(x, k, j - 1);
      TakeBits(x, k, j - 1);
      LowBitsNext(x, k + (j - 1), k + j);
      LowBitsNext(Symbol(Take5(x, k)), j - 1, j);
    } else {
      NoBits(Symbol(Take5(x, k)));
    }
  }

  lemma {:induction false} FillZeros(x: Accumulator, bits: bv5, k: bv5)
    requires bits <= 5 && k <= 5 - bits
    ensures LowBits(Symbol(Fill5(x, bits)), k) == seq(k as int, _ => false)
    decreases k
  {
    hide BitAt, Fill5, Symbol;
    if k > 0 {
      FillBit(x, bits, k - 1);
      FillZeros(x, bits, k - 1);
    }
  }

  lemma {:induction false} FillBits(x: Accumulator, bits: bv5, j: bv5)
    requires bits <= 5 && j <= bits
    ensures LowBits(Symbol(Fill5(x, bits)), 5 - bits + j) == LowBits(x, j) + seq((5 - bits) as int, _ => false)
    decreases j
  {
    hide BitAt, Fill5, Symbol, LowBits;
    if j == 0 {
      FillZeros(x, bits, 5 - bits);
      NoBits(x);
    } else {
      FillBit(x, bits, 5 - bits + (j - 1));
      FillBits(x, bits, j - 1);
      LowBitsNext(Symbol(Fill5(x, bits)), 5 - bits + (j - 1), 5 - bits + j);
      LowBitsNext(x, j - 1, j);
    }
  }

  /** The eight bits of a byte, as a bit string of bytes has them. */
  lemma ByteBits(b: byte)
    ensures LowBits(Symbol(b), 8) == BitsOf([b])
  {
    hide BitOfByte, BitAt, Symbol, BitsOf, LowBits;
    BitsOfOne(b);
    LowBitsLength(Symbol(b), 8);
    EightBits(Symbol(b));
    SameBits(b);
  }

  lemma TwoBits(x: bv32, k: bv5, next: bv5)
    requires k < 30 && next == k + 2
    ensures LowBits(x, next) == [BitAt(x, k + 1), BitAt(x, k)] + LowBits(x, k)
  {
    hide BitAt, LowBits;
    LowBitsNext(x, k, k + 1);
    LowBitsNext(x, k + 1, next);
  }

  lemma EightBits(x: bv32)
    ensures LowBits(x, 8)
         == [BitAt(x, 7), BitAt(x, 6), BitAt(x, 5), BitAt(x, 4), BitAt(x, 3), BitAt(x, 2), BitAt(x, 1), BitAt(x, 0)]
  {
    hide BitAt, LowBits;
    NoBits(x);
    TwoBits(x, 0, 2);
    assert LowBits(x, 2) == [BitAt(x, 1), BitAt(x, 0)];
    TwoBits(x, 2, 4);
    assert LowBits(x, 4) == [BitAt(x, 3), BitAt(x, 2), BitAt(x, 1), BitAt(x, 0)];
    TwoBits(x, 4, 6);
    assert LowBits(x, 6) == [BitAt(x, 5), BitAt(x, 4), BitAt(x, 3), BitAt(x, 2), BitAt(x, 1), BitAt(x, 0)];
    TwoBits(x, 6, 8);
  }

  lemma SameBits(b: byte)
    ensures BitAt(Symbol(b), 7) == BitOfByte(b, 0) && BitAt(Symbol(b), 6) == BitOfByte(b, 1)
    ensures BitAt(Symbol(b), 5) == BitOfByte(b, 2) && BitAt(Symbol(b), 4) == BitOfByte(b, 3)
    ensures BitAt(Symbol(b), 3) == BitOfByte(b, 4) && BitAt(Symbol(b), 2) == BitOfByte(b, 5)
    ensures BitAt(Symbol(b), 1) == BitOfByte(b, 6) && BitAt(Symbol(b), 0) == BitOfByte(b, 7)
  {
  }

  // ----- regrouping -----

  lemma {:induction false} SymbolBitsLength(symbols: seq<byte>)
    ensures |BitsOfSymbols(symbols)| == 5 * |symbols|
  {
    hide LowBits;
    if symbols != [] {
      SymbolBitsLength(symbols[..|symbols| - 1]);
      LowBitsLength(Symbol(symbols[|symbols| - 1]), 5);
    }
  }

  lemma SymbolBitsAppend(symbols: seq<byte>, v: byte)
    ensures BitsOfSymbols(symbols + [v]) == BitsOfSymbols(symbols) + LowBits(Symbol(v), 5)
  {
    hide LowBits;
    assert (symbols + [v])[..|symbols|] == symbols;
  }

  lemma TakeBelow32(x: Accumulator, bits: bv5)
    ensures Take5(x, bits) < 32 && (bits <= 5 ==> Fill5(x, bits) < 32)
  {
  }

  /** The bits not yet grouped: fewer than five between two bytes, never more than twelve. */
  method ConvertBits8To5(bytes: seq<byte>) returns (out: seq<byte>)
    ensures Symbols5(out)
    ensures |out| == (8 * |bytes| + 4) / 5
    ensures BitsOfSymbols(out) == BitsOf(bytes) + seq(5 * |out| - 8 * |bytes|, _ => false)
  {
    hide LowBits, BitsOf, Take5, Fill5, ShiftIn8, Symbol, BitOfByte, BitsOfSymbols;
    out := [];
    var acc: Accumulator := 0;
    var bits: bv5 := 0;
    StartBits(acc);
    for i := 0 to |bytes|
      invariant bits < 5 && Symbols5(out)
      invariant BitsOfSymbols(out) + LowBits(acc, bits) == BitsOf(bytes[..i])
    {
      ShiftInBits(acc, bytes[i], bits);
      ByteBits(bytes[i]);
      BitsOfConcat(bytes[..i], [bytes[i]]);
      assert bytes[..i + 1] == bytes[..i] + [bytes[i]];
      acc := ShiftIn8(acc, bytes[i]);
      bits := bits + 8;
      out, bits := EmitGroups(acc, bits, out);
    }
    assert bytes[..|bytes|] == bytes;
    SymbolBitsLength(out);
    LowBitsLength(acc, bits);
    if bits > 0 {
      FillBits(acc, bits, bits);
      TakeBelow32(acc, bits);
      SymbolBitsAppend(out, Fill5(acc, bits));
      out := out + [Fill5(acc, bits)];
    } else {
      NoBits(acc);
    }
  }

  method EmitGroups(acc: Accumulator, bits: bv5, out: seq<byte>) returns (out': seq<byte>, bits': bv5)
    requires bits <= 12 && Symbols5(out)
    ensures bits' < 5 && Symbols5(out')
    ensures BitsOfSymbols(out') + LowBits(acc, bits') == BitsOfSymbols(out) + LowBits(acc, bits)
  {
    hide LowBits, Take5, Symbol, BitsOfSymbols;
    out', bits' := out, bits;
    while bits' >= 5
      invariant bits' <= 12 && Symbols5(out')
      invariant BitsOfSymbols(out') + LowBits(acc, bits') == BitsOfSymbols(out) + LowBits(acc, bits)
      decreases bits'
    {
      TakeBits(acc, bits' - 5, 5);
      TakeBelow32(acc, bits' - 5);
      SymbolBitsAppend(out', Take5(acc, bits' - 5));
      bits' := bits' - 5;
      out' := out' + [Take5(acc, bits')];
    }
  }

  lemma StartBits(acc: Accumulator)
    ensures BitsOfSymbols([]) + LowBits(acc, 0) == BitsOf([])
  {
  }

  // ----- back to bytes -----

  function BitByte(x: bool): byte {
    if x then 1 else 0
  }

  function ByteOf(b: seq<bool>): byte
    requires |b| == 8
  {
    (BitByte(b[0]) << 7) | (BitByte(b[1]) << 6) | (BitByte(b[2]) << 5) | (BitByte(b[3]) << 4)
    | (BitByte(b[4]) << 3) | (BitByte(b[5]) << 2) | (BitByte(b[6]) << 1) | BitByte(b[7])
  }

  /** The whole bytes at the front of a bit string. */
  function BytesOfBits(b: seq<bool>): seq<byte> {
    if |b| < 8 then [] else [ByteOf(b[..8])] + BytesOfBits(b[8..])
  }

  /** The bytes that symbols of five bits spell, without the bits left over. */
  function BytesOfSymbols(symbols: seq<byte>): seq<byte> {
    BytesOfBits(BitsOfSymbols(symbols))
  }

  lemma ByteOfBits(b: byte)
    ensures ByteOf(BitsOf([b])) == b
  {
    hide BitsOf;
    BitsOfOne(b);
    ByteOfEight(b);
  }

  lemma ByteOfEight(b: byte)
    ensures ByteOf([BitOfByte(b, 0), BitOfByte(b, 1), BitOfByte(b, 2), BitOfByte(b, 3), BitOfByte(b, 4), BitOfByte(b,
        5),
                    BitOfByte(b, 6), BitOfByte(b, 7)]) == b
  {
  }

  lemma {:induction false} BytesBack(bytes: seq<byte>, rest: seq<bool>)
    requires |rest| < 8
    ensures BytesOfBits(BitsOf(bytes) + rest) == bytes
  {
    hide BitsOf, ByteOf;
    if bytes == [] {
      assert BitsOf(bytes) + rest == rest;
    } else {
      assert bytes == [bytes[0]] + bytes[1..];
      BitsOfConcat([bytes[0]], bytes[1..]);
      ByteOfBits(bytes[0]);
      var b := BitsOf(bytes) + rest;
      assert b[..8] == BitsOf([bytes[0]]) && b[8..] == BitsOf(bytes[1..]) + rest;
      BytesBack(bytes[1..], rest);
    }
  }

  /** Regrouping loses nothing, although the accumulator overflows after four bytes. */
  lemma RegroupedBack(bytes: seq<byte>, symbols: seq<byte>)
    requires |symbols| == (8 * |bytes| + 4) / 5
    requires BitsOfSymbols(symbols) == BitsOf(bytes) + seq(5 * |symbols| - 8 * |bytes|, _ => false)
    ensures BytesOfSymbols(symbols) == bytes
  {
    hide BitsOf, BitsOfSymbols;
    BytesBack(bytes, seq(5 * |symbols| - 8 * |bytes|, _ => false));
  }

  // ----- addresses -----

  /** An address reads back as the prefix, the witness version 0 and the program. */
  predicate AddressOf(address: string, program: seq<byte>) {
    match Decoded(address)
    case None => false
    case Some((hrp, data)) => hrp == "bc" && |data| > 0 && data[0] == 0 && BytesOfSymbols(data[1..]) == program
  }

  /** Every such address starts with the prefix, the separator and the letter for version 0. */
  lemma AddressStart(address: string, program: seq<byte>)
    requires AddressOf(address, program)
    ensures |address| >= 4 && address[..4] == "bc1q"
  {
    hide ReadSymbols, Polymod, HrpExpand, HrpBytes, BytesOfSymbols, LastSeparator;
    var p := LastSeparator(address).value;
    assert address[..p] == "bc";
    SeparatorIs(address);
    FirstSymbol(address[p + 1..]);
    assert address[..3] == address[..2] + [address[2]];
    assert address[..4] == address[..3] + [address[3]];
  }

  lemma {:induction false} SeparatorIs(text: string)
    ensures LastSeparator(text).Some? ==> text[LastSeparator(text).value] == '1'
  {
    if text != "" {
      SeparatorIs(text[..|text| - 1]);
    }
  }

  lemma {:induction false} FirstSymbol(text: string)
    ensures match ReadSymbols(text)
            case None => true
            case Some(symbols) => |symbols| == |text| && (|symbols| > 0 && symbols[0] == 0 ==> text[0] == 'q')
  {
    hide PositionFrom, LowByte, ByteValue, CHARSET;
    if text != "" {
      FirstSymbol(text[..|text| - 1]);
      ZeroIsQ(text[|text| - 1]);
    }
  }

  lemma ZeroIsQ(c: char)
    ensures match PositionFrom(c, 0)
            case None => true
            case Some(v) => LowByte(v) == 0 ==> c == 'q'
  {
    hide PositionFrom;
    if PositionFrom(c, 0).Some? {
      PositionIs(c, 0);
      assert LowByte(PositionFrom(c, 0).value) == 0 ==> PositionFrom(c, 0).value == 0;
    }
  }

  lemma {:induction false} PositionIs(c: char, k: nat)
    requires k <= 32
    ensures PositionFrom(c, k).Some? ==> CHARSET[PositionFrom(c, k).value] == c
    decreases 32 - k
  {
    hide CHARSET;
    if k < 32 {
      PositionIs(c, k + 1);
    }
  }

  method SegwitAddress(program: seq<byte>) returns (address: string)
    ensures AddressOf(address, program)
  {
    hide Decoded, Encoded, BitsOf, BitsOfSymbols, BytesOfSymbols;
    var symbols := ConvertBits8To5(program);
    var data := [0] + symbols;
    address := Bech32Encode("bc", data);
    EncodedDecodes("bc", data);
    RegroupedBack(program, symbols);
    assert data[1..] == symbols;
  }

  method DecodeP2wpkhAddress(script: seq<byte>) returns (address: string)
    ensures if |script| == 22 && script[0] == 0
        && script[1] == 0x14 then AddressOf(address, script[2..]) else address == ""
  {
    if |script| != 22 || script[0] != 0 || script[1] != 0x14 {
      return "";
    }
    address := SegwitAddress(script[2..]);
  }

  method DecodeP2wshAddress(script: seq<byte>) returns (address: string)
    ensures if |script| == 34 && script[0] == 0
        && script[1] == 0x20 then AddressOf(address, script[2..]) else address == ""
  {
    if |script| != 34 || script[0] != 0 || script[1] != 0x20 {
      return "";
    }
    address := SegwitAddress(script[2..]);
  }
}
