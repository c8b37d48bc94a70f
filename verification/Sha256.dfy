/** The miner's SHA-256: padding, schedule, rounds and digest layout, on byte strings. */
module Sha256 {
  import opened BitMath
  import opened Bytes
  import opened F = Fips180

  // ----- bytes as bit strings -----

  function BitOfByte(b: byte, r: nat): bool
    requires r < 8
  {
    if r == 0 then b & 0x80 != 0
    else if r == 1 then b & 0x40 != 0
    else if r == 2 then b & 0x20 != 0
    else if r == 3 then b & 0x10 != 0
    else if r == 4 then b & 0x08 != 0
    else if r == 5 then b & 0x04 != 0
    else if r == 6 then b & 0x02 != 0
    else b & 0x01 != 0
  }

  function BitsOf(p: seq<byte>): (b: Bits)
    ensures |b| == 8 * |p|
  {
    seq(8 * |p|, j requires 0 <= j < 8 * |p| => BitOfByte(p[j / 8], j % 8))
  }

  lemma BitsOfConcat(p: seq<byte>, q: seq<byte>)
    ensures BitsOf(p + q) == BitsOf(p) + BitsOf(q)
  {
    hide BitOfByte;
    forall j | 0 <= j < 8 * |p + q|
      ensures BitsOf(p + q)[j] == (BitsOf(p) + BitsOf(q))[j]
    {
      if j >= 8 * |p| {
        assert (j - 8 * |p|) / 8 == j / 8 - |p| && (j - 8 * |p|) % 8 == j % 8;
      }
    }
  }

  lemma BitsOfSlice(p: seq<byte>, i: nat, j: nat)
    requires i <= j <= |p|
    ensures BitsOf(p)[8 * i..8 * j] == BitsOf(p[i..j])
  {
    hide BitOfByte;
    assert p == p[..i] + p[i..j] + p[j..];
    BitsOfConcat(p[..i] + p[i..j], p[j..]);
    BitsOfConcat(p[..i], p[i..j]);
  }

  // ----- words -----

  function ReadBe32(p: seq<byte>): Word
    requires |p| == 4
  {
    (p[0] as bv32 << 24) | (p[1] as bv32 << 16) | (p[2] as bv32 << 8) | (p[3] as bv32 << 0)
  }

  lemma WordSnoc(b: Bits, x: bool)
    ensures WordOfBits(b + [x]) == Push(WordOfBits(b), x)
  {
    hide Push;
    assert (b + [x])[..|b|] == b;
  }

  /** Eight more bits shift the word by a byte. */
  lemma WordByte(b: Bits, x: byte)
    ensures WordOfBits(b + BitsOf([x])) == ShiftIn(WordOfBits(b), x)
  {
    hide *;
    var t := BitsOf([x]);
    TakeEnds(b, t);
    FourBits(b, t, 0);
    FourBits(b, t, 4);
    BitsOfOne(x);
    ByteOfNibbles(WordOfBits(b), x);
  }

  lemma TakeEnds(b: Bits, t: Bits)
    requires |t| == 8
    ensures b + t[..0] == b && b + t[..8] == b + t
  {
  }

  lemma BitsOfOne(x: byte)
    ensures var t := BitsOf([x]);
            && t[0] == BitOfByte(x, 0) && t[1] == BitOfByte(x, 1) && t[2] == BitOfByte(x, 2) && t[3] == BitOfByte(x, 3)
            && t[4] == BitOfByte(x, 4) && t[5] == BitOfByte(x, 5) && t[6] == BitOfByte(x, 6) && t[7] == BitOfByte(x, 7)
  {
    hide BitOfByte;
  }

  function ShiftIn(w: Word, x: byte): Word {
    (w << 8) | (x as bv32)
  }

  function Nibble(w: Word, x0: bool, x1: bool, x2: bool, x3: bool): Word {
    (w << 4) | (BitWord(x0) << 3) | (BitWord(x1) << 2) | (BitWord(x2) << 1) | BitWord(x3)
  }

  lemma FourBits(b: Bits, t: Bits, i: nat)
    requires i + 4 <= |t|
    ensures WordOfBits(b + t[..i + 4]) == Nibble(WordOfBits(b + t[..i]), t[i], t[i + 1], t[i + 2], t[i + 3])
  {
    hide WordOfBits;
    hide Push, Nibble;
    NextBit(b, t, i);
    NextBit(b, t, i + 1);
    NextBit(b, t, i + 2);
    NextBit(b, t, i + 3);
    FourPushes(WordOfBits(b + t[..i]), t[i], t[i + 1], t[i + 2], t[i + 3]);
  }

  lemma NextBit(b: Bits, t: Bits, i: nat)
    requires i < |t|
    ensures WordOfBits(b + t[..i + 1]) == Push(WordOfBits(b + t[..i]), t[i])
  {
    hide WordOfBits, Push;
    WordSnoc(b + t[..i], t[i]);
    assert b + t[..i] + [t[i]] == b + t[..i + 1];
  }

  lemma FourPushes(w: Word, x0: bool, x1: bool, x2: bool, x3: bool)
    ensures Push(Push(Push(Push(w, x0), x1), x2), x3) == Nibble(w, x0, x1, x2, x3)
  {
    hide BitWord;
  }

  lemma ByteOfNibbles(w: Word, x: byte)
    ensures Nibble(Nibble(w, BitOfByte(x, 0), BitOfByte(x, 1), BitOfByte(x, 2), BitOfByte(x, 3)),
                   BitOfByte(x, 4), BitOfByte(x, 5), BitOfByte(x, 6), BitOfByte(x, 7)) == ShiftIn(w, x)
  {
  }

  /** Four bytes read big-endian are the word of their 32 bits. */
  lemma WordOfFourBytes(p: seq<byte>)
    requires |p| == 4
    ensures WordOfBits(BitsOf(p)) == ReadBe32(p)
  {
    hide *;
    WordOfNothing(p);
    NextByte(p, 0);
    NextByte(p, 1);
    NextByte(p, 2);
    NextByte(p, 3);
    ShiftInFour(p);
  }

  lemma WordOfNothing(p: seq<byte>)
    requires |p| == 4
    ensures WordOfBits(BitsOf(p[..0])) == 0 && p[..4] == p
  {
  }

  lemma NextByte(p: seq<byte>, i: nat)
    requires i < |p|
    ensures WordOfBits(BitsOf(p[..i + 1])) == ShiftIn(WordOfBits(BitsOf(p[..i])), p[i])
  {
    hide WordOfBits, BitOfByte, BitsOf, ShiftIn;
    assert p[..i + 1] == p[..i] + [p[i]];
    BitsOfConcat(p[..i], [p[i]]);
    WordByte(BitsOf(p[..i]), p[i]);
  }

  lemma ShiftInFour(p: seq<byte>)
    requires |p| == 4
    ensures ShiftIn(ShiftIn(ShiftIn(ShiftIn(0, p[0]), p[1]), p[2]), p[3]) == ReadBe32(p)
  {
  }

  // ----- padding -----

  /** Zero bytes between the 0x80 byte and the length. */
  function ZeroPadBytes(messageBytes: nat): nat {
    (56 + 64 - ((messageBytes + 1) % 64)) % 64
  }

  method PaddingForBitLength(bitLength: nat) returns (padding: seq<byte>)
    requires bitLength < 0x1_0000_0000_0000_0000
    ensures padding == PaddingBytes(bitLength)
  {
    var messageBytes := bitLength / 8;
    var zeroPadBytes := ZeroPadBytes(messageBytes);
    padding := [0x80];
    padding := padding + seq(zeroPadBytes, _ => 0);
    ghost var head := padding;
    var i := 7;
    while i >= 0
      invariant -1 <= i <= 7
      invariant padding == head + BeBytes(bitLength, 8)[..7 - i]
    {
      padding := padding + [LowByte(Shr(bitLength, i * 8))];
      i := i - 1;
    }
  }

  /** The bytes appended to a message of the given bit length. */
  function PaddingBytes(bitLength: nat): seq<byte> {
    [0x80] + seq(ZeroPadBytes(bitLength / 8), _ => 0) + BeBytes(bitLength, 8)
  }

  function PadBytes(m: seq<byte>): (p: seq<byte>)
    ensures |p| % 64 == 0
  {
    m + PaddingBytes(8 * |m|)
  }

  function BitValue(x: bool): (v: int)
    ensures 0 <= v <= 1
    ensures v == 1 <==> x
  {
    if x then 1 else 0
  }

  lemma ByteIsBitSum(b: byte)
    ensures ByteValue(b)
         == 128 * BitValue(BitOfByte(b, 0)) + 64 * BitValue(BitOfByte(b, 1)) + 32 * BitValue(BitOfByte(b, 2))
          + 16 * BitValue(BitOfByte(b, 3)) + 8 * BitValue(BitOfByte(b, 4)) + 4 * BitValue(BitOfByte(b, 5))
          + 2 * BitValue(BitOfByte(b, 6)) + BitValue(BitOfByte(b, 7))
  {
  }

  lemma HighBits(x0: int, x1: int, x2: int, x3: int, x4: int, x5: int, x6: int, x7: int, n: int)
    requires 0 <= x0 <= 1 && 0 <= x1 <= 1 && 0 <= x2 <= 1 && 0 <= x3 <= 1
    requires 0 <= x4 <= 1 && 0 <= x5 <= 1 && 0 <= x6 <= 1 && 0 <= x7 <= 1
    requires n == 128 * x0 + 64 * x1 + 32 * x2 + 16 * x3 + 8 * x4 + 4 * x5 + 2 * x6 + x7
    ensures (n / 128) % 2 == x0 && (n / 64) % 2 == x1 && (n / 32) % 2 == x2 && (n / 16) % 2 == x3
    ensures (n / 8) % 2 == x4 && (n / 4) % 2 == x5 && (n / 2) % 2 == x6 && n % 2 == x7
  {
    assert n / 128 == x0;
    assert n / 64 == 2 * x0 + x1;
    assert n / 32 == 4 * x0 + 2 * x1 + x2;
    assert n / 16 == 8 * x0 + 4 * x1 + 2 * x2 + x3;
    assert n / 8 == 16 * x0 + 8 * x1 + 4 * x2 + 2 * x3 + x4;
    assert n / 4 == 32 * x0 + 16 * x1 + 8 * x2 + 4 * x3 + 2 * x4 + x5;
    assert n / 2 == 64 * x0 + 32 * x1 + 16 * x2 + 8 * x3 + 4 * x4 + 2 * x5 + x6;
  }

  lemma ByteBitValue(b: byte, r: nat)
    requires r < 8
    ensures BitOfByte(b, r) <==> Shr(ByteValue(b), 7 - r) % 2 == 1
  {
    hide *;
    ByteIsBitSum(b);
    HighBits(BitValue(BitOfByte(b, 0)), BitValue(BitOfByte(b, 1)), BitValue(BitOfByte(b, 2)), BitValue(BitOfByte(b, 3)),
             BitValue(BitOfByte(b, 4)), BitValue(BitOfByte(b, 5)), BitValue(BitOfByte(b, 6)), BitValue(BitOfByte(b, 7)),
             ByteValue(b));
    ShrValues(ByteValue(b));
  }

  lemma ShrValues(n: nat)
    ensures Shr(n, 0) == n && Shr(n, 1) == n / 2 && Shr(n, 2) == n / 4 && Shr(n, 3) == n / 8
    ensures Shr(n, 4) == n / 16 && Shr(n, 5) == n / 32 && Shr(n, 6) == n / 64 && Shr(n, 7) == n / 128
  {
    assert Pow2(0) == 1 && Pow2(1) == 2 && Pow2(2) == 4 && Pow2(3) == 8;
    assert Pow2(4) == 16 && Pow2(5) == 32 && Pow2(6) == 64 && Pow2(7) == 128;
  }

  /** Bit r of the low byte of x is bit 7 - r of x. */
  lemma BitOfLowByte(x: nat, r: nat)
    requires r < 8
    ensures BitOfByte(LowByte(x), r) <==> Shr(x, 7 - r) % 2 == 1
  {
    hide BitOfByte, LowByte, ByteValue, Shr;
    ByteBitValue(LowByte(x), r);
    LowByteParity(x, 7 - r);
  }

  lemma LowByteParity(x: nat, k: nat)
    requires k < 8
    ensures Shr(x % 256, k) % 2 == Shr(x, k) % 2
  {
    assert Pow2(8) == 256;
    Pow2Add(k, 8 - k);
    assert Pow2(8 - k) == 2 * Pow2(7 - k);
    hide Pow2;
    DropHigh(x, Pow2(k), Pow2(7 - k));
  }

  lemma DropHigh(x: nat, p: nat, rest: nat)
    requires p > 0 && p * (2 * rest) == 256
    ensures ((x % 256) / p) % 2 == (x / p) % 2
  {
    var q := x / 256;
    assert x == x % 256 + (q * (2 * rest)) * p by {
      assert q * 256 == (q * (2 * rest)) * p;
    }
    DivModShift(x % 256, q * (2 * rest), p);
    assert q * (2 * rest) == 2 * (q * rest);
    HalfSum((x % 256) / p, q * rest);
  }

  lemma LengthBits(l: nat)
    ensures BitsOf(BeBytes(l, 8)) == LengthBlock(l)
  {
    hide BitOfByte, LowByte;
    forall j | 0 <= j < 64
      ensures BitsOf(BeBytes(l, 8))[j] == LengthBlock(l)[j]
    {
      var i, r := j / 8, j % 8;
      BitOfLowByte(Shr(l, 8 * (7 - i)), r);
      Pow2Add(8 * (7 - i), 7 - r);
      DivDiv(l, Pow2(8 * (7 - i)), Pow2(7 - r));
    }
  }

  /** The bytes appended are the padding of section 5.1.1, bit for bit. */
  lemma PadBytesBits(m: seq<byte>)
    ensures BitsOf(PadBytes(m)) == PadBits(BitsOf(m))
  {
    hide BitsOf, LengthBlock, BeBytes;
    var l := 8 * |m|;
    var z: seq<byte> := seq(ZeroPadBytes(|m|), _ => 0);
    assert l / 8 == |m|;
    assert PadBytes(m) == m + ([0x80] + z + BeBytes(l, 8));
    BitsOfConcat(m, [0x80] + z + BeBytes(l, 8));
    BitsOfConcat([0x80] + z, BeBytes(l, 8));
    BitsOfConcat([0x80], z);
    LengthBits(l);
    PaddingHead(|m|);
    assert BitsOf(PadBytes(m)) == BitsOf(m) + (BitsOf([0x80] + z) + LengthBlock(l));
  }

  lemma PaddingHead(n: nat)
    ensures BitsOf([0x80]) + BitsOf(seq(ZeroPadBytes(n), _ => 0)) == [true] + seq(ZeroBits(8 * n), _ => false)
  {
    var z: seq<byte> := seq(ZeroPadBytes(n), _ => 0);
    hide *;
    ZeroBitsBytes(n);
    StartByte();
    ZeroBytesBits(ZeroPadBytes(n));
    FalseRun(7, 8 * ZeroPadBytes(n));
  }

  lemma ZeroBitsBytes(n: nat)
    ensures ZeroBits(8 * n) == 8 * ZeroPadBytes(n) + 7
  {
    hide ZeroBits, ZeroPadBytes;
    ZeroBitsOf(n / 64, n % 64);
    ZeroPadOf(n / 64, n % 64);
    LastBlockRoom(n % 64);
  }

  lemma ZeroBitsOf(q: nat, r: nat)
    ensures ZeroBits(8 * (64 * q + r)) == (447 - 8 * r) % 512
  {
    var m: int := q;
    DivModShift(447 - 8 * r, -m, 512);
  }

  lemma ZeroPadOf(q: nat, r: nat)
    requires r < 64
    ensures ZeroPadBytes(64 * q + r) == if r <= 55 then 55 - r else 119 - r
  {
    DivModShift(r + 1, q, 64);
  }

  lemma LastBlockRoom(r: nat)
    requires r < 64
    ensures (447 - 8 * r) % 512 == if r <= 55 then 447 - 8 * r else 959 - 8 * r
  {
  }

  lemma FalseRun(a: nat, b: nat)
    ensures [true] + seq(a, _ => false) + seq(b, _ => false) == [true] + seq(b + a, _ => false)
  {
  }

  lemma StartByte()
    ensures BitsOf([0x80]) == [true] + seq(7, _ => false)
  {
  }

  lemma ZeroBytesBits(k: nat)
    ensures BitsOf(seq(k, _ => 0)) == seq(8 * k, _ => false)
  {
    assert forall r :: 0 <= r < 8 ==> !BitOfByte(0, r);
    hide BitOfByte;
  }

  // ----- blocks -----

  function BlockOf(p: seq<byte>): Block
    requires |p| == 64
  {
    seq(16, i requires 0 <= i < 16 => ReadBe32(p[4 * i..4 * i + 4]))
  }

  lemma BlockOfBytes(p: seq<byte>)
    requires |p| == 64
    ensures BlockOfBits(BitsOf(p)) == BlockOf(p)
  {
    hide WordOfBits, ReadBe32, BitsOf;
    forall i | 0 <= i < 16
      ensures BlockOfBits(BitsOf(p))[i] == BlockOf(p)[i]
    {
      BitsOfSlice(p, 4 * i, 4 * i + 4);
      WordOfFourBytes(p[4 * i..4 * i + 4]);
    }
  }

  /** Compression of the 64-byte blocks of p in order. */
  function HashBytes(s: Digest, p: seq<byte>): Digest
    requires |p| % 64 == 0
    decreases |p|
  {
    if p == [] then s else HashBytes(Compress(s, BlockOf(p[..64])), p[64..])
  }

  lemma {:induction false} HashBytesBits(s: Digest, p: seq<byte>)
    requires |p| % 64 == 0
    ensures HashBits(s, BitsOf(p)) == HashBytes(s, p)
    decreases |p|
  {
    hide BitsOf, Compress, BlockOf, BlockOfBits;
    if p != [] {
      BitsOfSlice(p, 0, 64);
      BitsOfSlice(p, 64, |p|);
      assert BitsOf(p)[..512] == BitsOf(p)[8 * 0..8 * 64];
      assert BitsOf(p)[512..] == BitsOf(p)[8 * 64..8 * |p|];
      assert p[0..64] == p[..64] && p[64..|p|] == p[64..];
      BlockOfBytes(p[..64]);
      HashBytesBits(Compress(s, BlockOf(p[..64])), p[64..]);
    }
  }

  /** SHA-256 of a byte string, block by block. */
  lemma Sha256OfBytes(m: seq<byte>)
    ensures F.Sha256(BitsOf(m)) == HashBytes(H0, PadBytes(m))
  {
    hide *;
    PadBytesBits(m);
    HashBytesBits(H0, PadBytes(m));
    Sha256Unfold(BitsOf(m));
  }

  lemma Sha256Unfold(b: Bits)
    ensures F.Sha256(b) == HashBits(H0, PadBits(b))
  {
  }

  // ----- the compression loops -----

  method MakeSchedule(block: Block) returns (schedule: seq<Word>)
    ensures |schedule| == 64 && forall t :: 0 <= t < 64 ==> schedule[t] == F.Schedule(block, t)
  {
    hide Plus, SmallSigma0, SmallSigma1;
    schedule := block + seq(48, _ => 0);
    for t := 16 to 64
      invariant |schedule| == 64 && forall k :: 0 <= k < t ==> schedule[k] == F.Schedule(block, k)
    {
      schedule := schedule[t := Plus(Plus(Plus(SmallSigma1(schedule[t - 2]), schedule[t - 7]),
                                          SmallSigma0(schedule[t - 15])), schedule[t - 16])];
    }
  }

  method RunSchedule(schedule: seq<Word>, ghost m: Block, digest: Digest) returns (out: Digest)
    requires |schedule| == 64 && forall t :: 0 <= t < 64 ==> schedule[t] == F.Schedule(m, t)
    ensures out == Compress(digest, m)
  {
    hide Plus, BigSigma0, BigSigma1, Ch, Maj, F.Schedule, RoundConstant;
    var a, b, c, d := digest[0], digest[1], digest[2], digest[3];
    var e, f, g, h := digest[4], digest[5], digest[6], digest[7];
    for t := 0 to 64
      invariant Vars(a, b, c, d, e, f, g, h) == Rounds(digest, m, t)
    {
      var t1 := Plus(Plus(Plus(Plus(h, BigSigma1(e)), Ch(e, f, g)), RoundConstant(t)), schedule[t]);
      var t2 := Plus(BigSigma0(a), Maj(a, b, c));
      h := g;
      g := f;
      f := e;
      e := Plus(d, t1);
      d := c;
      c := b;
      b := a;
      a := Plus(t1, t2);
    }
    out := [Plus(digest[0], a), Plus(digest[1], b), Plus(digest[2], c), Plus(digest[3], d),
            Plus(digest[4], e), Plus(digest[5], f), Plus(digest[6], g), Plus(digest[7], h)];
  }

  method CompressBlock(state: Digest, block: Block) returns (out: Digest)
    ensures out == Compress(state, block)
  {
    var schedule := MakeSchedule(block);
    out := RunSchedule(schedule, block, state);
  }

  lemma SliceOfSlice(p: seq<byte>, a: nat, b: nat, c: nat, d: nat)
    requires a <= b <= |p| && c <= d <= b - a
    ensures p[a..b][c..d] == p[a + c..a + d]
  {
    var x, y := p[a..b][c..d], p[a + c..a + d];
    forall i | 0 <= i < d - c
      ensures x[i] == y[i]
    {
      assert x[i] == p[a..b][c + i];
    }
    assert x == y;
  }

  /** The block of 16 big-endian words at an offset. */
  method ReadBlock(message: seq<byte>, offset: nat) returns (block: Block)
    requires offset + 64 <= |message|
    ensures block == BlockOf(message[offset..offset + 64])
  {
    hide ReadBe32;
    block := seq(16, _ => 0);
    for i := 0 to 16
      invariant |block| == 16
      invariant forall k :: 0 <= k < i ==> block[k] == ReadBe32(message[offset..offset + 64][4 * k..4 * k + 4])
    {
      SliceOfSlice(message, offset, offset + 64, 4 * i, 4 * i + 4);
      block := block[i := ReadBe32(message[offset + 4 * i..offset + 4 * i + 4])];
    }
  }

  /** SHA-256 of every message of fewer than 2^61 bytes. */
  method Sha256Words(data: seq<byte>) returns (digest: Digest)
    requires |data| < 0x2000_0000_0000_0000
    ensures digest == F.Sha256(BitsOf(data))
  {
    hide Compress, PaddingBytes, BlockOf, BitsOf, F.Sha256, WordsOf;
    var bitLength := |data| * 8;
    var padding := PaddingForBitLength(bitLength);
    var message := data + padding;
    assert message == PadBytes(data);
    digest := H0;
    var offset := 0;
    while offset < |message|
      invariant offset % 64 == 0 && 0 <= offset <= |message|
      invariant HashBytes(digest, message[offset..]) == HashBytes(H0, message)
    {
      var block := ReadBlock(message, offset);
      assert message[offset..][..64] == message[offset..offset + 64];
      assert message[offset..][64..] == message[offset + 64..];
      digest := CompressBlock(digest, block);
      offset := offset + 64;
    }
    Sha256OfBytes(data);
  }

  // ----- digests -----

  function WriteBe32(w: Word): (p: seq<byte>)
    ensures |p| == 4
  {
    [((w >> 24) & 0xff) as byte, ((w >> 16) & 0xff) as byte, ((w >> 8) & 0xff) as byte, ((w >> 0) & 0xff) as byte]
  }

  lemma ReadWrite(w: Word)
    ensures ReadBe32(WriteBe32(w)) == w
  {
  }

  lemma WriteRead(p: seq<byte>)
    requires |p| == 4
    ensures WriteBe32(ReadBe32(p)) == p
  {
  }

  /** The digest as 32 bytes, each word most significant byte first. */
  function DigestBytes(d: Digest): (p: seq<byte>)
    ensures |p| == 32
  {
    WordsBytes(d)
  }

  function PaddedDigest(d: Digest): Block {
    d + [0x80000000, 0, 0, 0, 0, 0, 0, 0x00000100]
  }

  method HashDigestWords(d: Digest) returns (out: Digest)
    ensures out == Compress(H0, PaddedDigest(d))
  {
    hide Compress;
    var block: Block := seq(16, _ => 0);
    for i := 0 to 8
      invariant |block| == 16 && forall k :: 0 <= k < i ==> block[k] == d[k]
    {
      block := block[i := d[i]];
    }
    block := block[8 := 0x80000000][9 := 0][10 := 0][11 := 0][12 := 0][13 := 0][14 := 0][15 := 0x00000100];
    assert block == PaddedDigest(d);
    out := CompressBlock(H0, block);
  }

  // ----- hashing words without writing them out -----

  /** Words written big-endian one after the other. */
  function WordsBytes(ws: seq<Word>): (p: seq<byte>)
    ensures |p| == 4 * |ws|
  {
    if ws == [] then [] else WriteBe32(ws[0]) + WordsBytes(ws[1..])
  }

  lemma {:induction false} WordsBytesConcat(a: seq<Word>, b: seq<Word>)
    ensures WordsBytes(a + b) == WordsBytes(a) + WordsBytes(b)
  {
    hide WriteBe32;
    if a == [] {
      assert a + b == b;
    } else {
      assert (a + b)[1..] == a[1..] + b;
      WordsBytesConcat(a[1..], b);
    }
  }

  lemma {:induction false} WordsBytesAt(ws: seq<Word>, i: nat)
    requires i < |ws|
    ensures WordsBytes(ws)[4 * i..4 * i + 4] == WriteBe32(ws[i])
  {
    hide WriteBe32;
    if i > 0 {
      WordsBytesAt(ws[1..], i - 1);
      assert WordsBytes(ws)[4 * i..4 * i + 4] == WordsBytes(ws[1..])[4 * (i - 1)..4 * (i - 1) + 4];
    }
  }

  /** Reading back the words that were written. */
  lemma BlockOfWords(ws: Block)
    ensures BlockOf(WordsBytes(ws)) == ws
  {
    hide WriteBe32, ReadBe32;
    forall i | 0 <= i < 16
      ensures BlockOf(WordsBytes(ws))[i] == ws[i]
    {
      WordsBytesAt(ws, i);
      ReadWrite(ws[i]);
    }
  }

  method DigestWordsToBytesBe(d: Digest) returns (out: seq<byte>)
    ensures out == DigestBytes(d)
  {
    hide WriteBe32;
    out := seq(32, _ => 0);
    for i := 0 to 8
      invariant |out| == 32
      invariant out[..4 * i] == WordsBytes(d[..i])
    {
      var w := WriteBe32(d[i]);
      ghost var done := out[..4 * i];
      out := out[4 * i := w[0]][4 * i + 1 := w[1]][4 * i + 2 := w[2]][4 * i + 3 := w[3]];
      assert out[..4 * (i + 1)] == done + w;
      assert d[..i + 1] == d[..i] + [d[i]];
      WordsBytesConcat(d[..i], [d[i]]);
      OneWord(d[i]);
    }
    assert out[..32] == out && d[..8] == d;
  }

  function ZeroBytes(n: nat): seq<byte> {
    seq(n, _ => 0)
  }

  lemma {:induction false} ZeroWords(n: nat)
    ensures WordsBytes(seq(n, _ => 0)) == ZeroBytes(4 * n)
  {
    if n > 0 {
      var z: seq<Word> := seq(n, _ => 0);
      assert z[1..] == seq(n - 1, _ => 0);
      ZeroWords(n - 1);
    }
  }

  /** The padding words of a message whose length is a whole number of words. */
  function PaddingWords(n: nat, bitLength: Word): seq<Word> {
    [0x80000000] + seq(n, _ => 0) + [bitLength]
  }

  lemma PaddingWordsBytes(n: nat, bitLength: Word)
    ensures WordsBytes(PaddingWords(n, bitLength)) == [0x80] + ZeroBytes(4 * n + 3) + WriteBe32(bitLength)
  {
    var z: seq<Word> := seq(n, _ => 0);
    WordsBytesConcat([0x80000000] + z, [bitLength]);
    WordsBytesConcat([0x80000000], z);
    ZeroWords(n);
    assert WriteBe32(0x80000000) == [0x80, 0, 0, 0];
    OneWord(bitLength);
    OneWord(0x80000000);
    hide WordsBytes, WriteBe32;
    assert [0x80, 0, 0, 0] + ZeroBytes(4 * n) == [0x80] + ZeroBytes(4 * n + 3);
  }

  lemma OneWord(w: Word)
    ensures WordsBytes([w]) == WriteBe32(w)
  {
    assert WordsBytes([w][1..]) == [];
  }

  /** Lengths below 2^16 have six leading zero bytes. */
  lemma ShortLength(l: nat)
    requires l < 0x1_0000
    ensures BeBytes(l, 8) == ZeroBytes(6) + [LowByte(l / 256), LowByte(l)]
  {
    hide LowByte;
    ShrBytes(l);
    forall i | 0 <= i < 6
      ensures BeBytes(l, 8)[i] == 0
    {
      LeadingZero(l, i);
    }
  }

  lemma ShrBytes(l: nat)
    ensures Shr(l, 0) == l && Shr(l, 8) == l / 256
  {
    assert Pow2(0) == 1 && Pow2(8) == 256;
  }

  lemma LeadingZero(l: nat, i: nat)
    requires l < 0x1_0000 && i < 6
    ensures BeBytes(l, 8)[i] == 0
  {
    ShrSmall(l, 8 * (7 - i));
    LowByteZero();
    hide LowByte, Shr;
  }

  lemma LowByteZero()
    ensures LowByte(0) == 0
  {
  }

  lemma ShrSmall(l: nat, k: nat)
    requires l < 0x1_0000 && k >= 16
    ensures Shr(l, k) == 0
  {
    Pow2Values();
    Pow2Monotone(16, k);
    hide Pow2;
    SmallMod(l, Pow2(k));
  }

  lemma LengthWords()
    ensures WriteBe32(0x100) == [0, 0, 1, 0] && WriteBe32(0x280) == [0, 0, 2, 0x80]
    ensures LowByte(1) == 1 && LowByte(256) == 0 && LowByte(2) == 2 && LowByte(640) == 0x80
  {
  }

  lemma Padding256()
    ensures PaddingBytes(256) == WordsBytes(PaddingWords(6, 0x100))
  {
    hide WriteBe32, LowByte, WordsBytes, BeBytes, PaddingWords;
    ShortLength(256);
    PaddingWordsBytes(6, 0x100);
    LengthWords();
    assert PaddingBytes(256) == [0x80] + ZeroBytes(23) + (ZeroBytes(6) + [1, 0]);
    assert [0x80] + ZeroBytes(23) + (ZeroBytes(6) + [1, 0]) == [0x80] + ZeroBytes(27) + [0, 0, 1, 0];
  }

  lemma Padding640()
    ensures PaddingBytes(640) == WordsBytes(PaddingWords(10, 0x280))
  {
    hide WriteBe32, LowByte, WordsBytes, BeBytes, PaddingWords;
    ShortLength(640);
    PaddingWordsBytes(10, 0x280);
    LengthWords();
    assert PaddingBytes(640) == [0x80] + ZeroBytes(39) + (ZeroBytes(6) + [2, 0x80]);
    assert [0x80] + ZeroBytes(39) + (ZeroBytes(6) + [2, 0x80]) == [0x80] + ZeroBytes(43) + [0, 0, 2, 0x80];
  }

  /** Hashing the digest words directly is SHA-256 of the digest's bytes. */
  lemma HashDigest(d: Digest)
    ensures Compress(H0, PaddedDigest(d)) == F.Sha256(BitsOf(DigestBytes(d)))
  {
    hide *;
    Sha256OfBytes(DigestBytes(d));
    OneBlockDigest(d);
    BlockOfWords(PaddedDigest(d));
    HashOneBlock(H0, WordsBytes(PaddedDigest(d)));
  }

  lemma OneBlockDigest(d: Digest)
    ensures PadBytes(DigestBytes(d)) == WordsBytes(PaddedDigest(d))
  {
    hide PaddingBytes, WordsBytes;
    Padding256();
    WordsBytesConcat(d, PaddingWords(6, 0x100));
    assert PaddedDigest(d) == d + PaddingWords(6, 0x100);
  }

  lemma HashOneBlock(s: Digest, p: seq<byte>)
    requires |p| == 64
    ensures HashBytes(s, p) == Compress(s, BlockOf(p))
  {
    hide Compress, BlockOf;
    assert p[..64] == p && p[64..] == [];
  }

  lemma HashTwoBlocks(s: Digest, p: seq<byte>)
    requires |p| == 128
    ensures HashBytes(s, p) == Compress(Compress(s, BlockOf(p[..64])), BlockOf(p[64..]))
  {
    hide Compress, BlockOf;
    HashOneBlock(Compress(s, BlockOf(p[..64])), p[64..]);
  }

  /** Double SHA-256 of a byte string, as bytes. */
  function DoubleSha(m: seq<byte>): (p: seq<byte>)
    ensures |p| == 32
  {
    DigestBytes(F.Sha256(BitsOf(DigestBytes(F.Sha256(BitsOf(m))))))
  }

  method DblSha256Words(data: seq<byte>) returns (digest: Digest)
    requires |data| < 0x2000_0000_0000_0000
    ensures DigestBytes(digest) == DoubleSha(data)
  {
    hide *;
    var first := Sha256Words(data);
    digest := HashDigestWords(first);
    HashDigest(first);
    DoubleShaUnfold(data);
  }

  lemma DoubleShaUnfold(m: seq<byte>)
    ensures DoubleSha(m) == DigestBytes(F.Sha256(BitsOf(DigestBytes(F.Sha256(BitsOf(m))))))
  {
  }
}
