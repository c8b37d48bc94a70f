/** The SHA-256 function of FIPS 180-4, on bit strings. */
module Fips180 {
  import opened BitMath

  type Word = bv32
  type Block = m: seq<Word> | |m| == 16 witness seq(16, _ => 0)
  type Digest = h: seq<Word> | |h| == 8 witness seq(8, _ => 0)
  type Bits = seq<bool>
  type WordNumber = n: nat | n < 0x1_0000_0000

  // ----- section 2.2.2: operations on words, section 3.2: rotations and shifts -----

  function Not(x: Word): Word { !x }

  function And(x: Word, y: Word): Word { x & y }

  function Xor(x: Word, y: Word): Word { x ^ y }

  function Plus(x: Word, y: Word): Word { x + y }

  function RotR(n: nat, x: Word): Word
    requires n < 32
  {
    x.RotateRight(n)
  }

  function ShR(n: nat, x: Word): Word
    requires n < 32
  {
    x >> n
  }

  // ----- section 4.1.2: functions -----

  function Ch(x: Word, y: Word, z: Word): Word { Xor(And(x, y), And(Not(x), z)) }

  function Maj(x: Word, y: Word, z: Word): Word { Xor(Xor(And(x, y), And(x, z)), And(y, z)) }

  function BigSigma0(x: Word): Word { Xor(Xor(RotR(2, x), RotR(13, x)), RotR(22, x)) }

  function BigSigma1(x: Word): Word { Xor(Xor(RotR(6, x), RotR(11, x)), RotR(25, x)) }

  function SmallSigma0(x: Word): Word { Xor(Xor(RotR(7, x), RotR(18, x)), ShR(3, x)) }

  function SmallSigma1(x: Word): Word { Xor(Xor(RotR(17, x), RotR(19, x)), ShR(10, x)) }

  // ----- section 4.2.2: constants, section 5.3.3: initial hash value -----

  const K: seq<WordNumber> :=
      [0x428a2f98, 0x71374491, 0xb5c0fbcf, 0xe9b5dba5, 0x3956c25b, 0x59f111f1, 0x923f82a4, 0xab1c5ed5]
    + [0xd807aa98, 0x12835b01, 0x243185be, 0x550c7dc3, 0x72be5d74, 0x80deb1fe, 0x9bdc06a7, 0xc19bf174]
    + [0xe49b69c1, 0xefbe4786, 0x0fc19dc6, 0x240ca1cc, 0x2de92c6f, 0x4a7484aa, 0x5cb0a9dc, 0x76f988da]
    + [0x983e5152, 0xa831c66d, 0xb00327c8, 0xbf597fc7, 0xc6e00bf3, 0xd5a79147, 0x06ca6351, 0x14292967]
    + [0x27b70a85, 0x2e1b2138, 0x4d2c6dfc, 0x53380d13, 0x650a7354, 0x766a0abb, 0x81c2c92e, 0x92722c85]
    + [0xa2bfe8a1, 0xa81a664b, 0xc24b8b70, 0xc76c51a3, 0xd192e819, 0xd6990624, 0xf40e3585, 0x106aa070]
    + [0x19a4c116, 0x1e376c08, 0x2748774c, 0x34b0bcb5, 0x391c0cb3, 0x4ed8aa4a, 0x5b9cca4f, 0x682e6ff3]
    + [0x748f82ee, 0x78a5636f, 0x84c87814, 0x8cc70208, 0x90befffa, 0xa4506ceb, 0xbef9a3f7, 0xc67178f2]

  const H: seq<WordNumber> :=
    [0x6a09e667, 0xbb67ae85, 0x3c6ef372, 0xa54ff53a, 0x510e527f, 0x9b05688c, 0x1f83d9ab, 0x5be0cd19]

  const H0: Digest := WordsOf(H)

  function WordsOf(s: seq<WordNumber>): (w: seq<Word>)
    ensures |w| == |s|
  {
    if s == [] then [] else WordsOf(s[..|s| - 1]) + [WordOf(s[|s| - 1])]
  }

  function WordOf(n: WordNumber): Word { n as Word }

  function RoundConstant(t: nat): Word
    requires t < 64
  {
    WordOf(K[t])
  }

  // ----- section 6.2.2: hash computation -----

  /** Step 1: the message schedule. */
  function Schedule(m: Block, t: nat): Word
    requires t < 64
  {
    if t < 16 then m[t]
    else Plus(Plus(Plus(SmallSigma1(Schedule(m, t - 2)), Schedule(m, t - 7)), SmallSigma0(Schedule(m, t - 15))),
              Schedule(m, t - 16))
  }

  datatype Vars = Vars(a: Word, b: Word, c: Word, d: Word, e: Word, f: Word, g: Word, h: Word)

  function Start(s: Digest): Vars {
    Vars(s[0], s[1], s[2], s[3], s[4], s[5], s[6], s[7])
  }

  function Round(v: Vars, k: Word, w: Word): Vars {
    var t1 := Plus(Plus(Plus(Plus(v.h, BigSigma1(v.e)), Ch(v.e, v.f, v.g)), k), w);
    var t2 := Plus(BigSigma0(v.a), Maj(v.a, v.b, v.c));
    Vars(Plus(t1, t2), v.a, v.b, v.c, Plus(v.d, t1), v.e, v.f, v.g)
  }

  /** Steps 2 and 3: the working variables after t rounds. */
  function Rounds(s: Digest, m: Block, t: nat): Vars
    requires t <= 64
  {
    if t == 0 then Start(s) else Round(Rounds(s, m, t - 1), RoundConstant(t - 1), Schedule(m, t - 1))
  }

  /** Step 4: the next intermediate hash value. */
  function AddVars(s: Digest, v: Vars): Digest {
    [Plus(s[0], v.a), Plus(s[1], v.b), Plus(s[2], v.c), Plus(s[3], v.d),
     Plus(s[4], v.e), Plus(s[5], v.f), Plus(s[6], v.g), Plus(s[7], v.h)]
  }

  function Compress(s: Digest, m: Block): Digest {
    AddVars(s, Rounds(s, m, 64))
  }

  // ----- section 5.1.1: padding, section 5.2.1: parsing -----

  predicate FillsBlock(l: nat, k: nat) {
    (l + 1 + k) % 512 == 448
  }

  /** The smallest k >= 0 with l + 1 + k congruent to 448 modulo 512. */
  function ZeroBits(l: nat): (k: nat)
    ensures FillsBlock(l, k)
    ensures forall j :: 0 <= j < k ==> !FillsBlock(l, j)
  {
    (447 - l as int) % 512
  }

  /** The 64-bit block holding the number l. */
  function LengthBlock(l: nat): (b: Bits)
    ensures |b| == 64
  {
    seq(64, j requires 0 <= j < 64 => Shr(l, 63 - j) % 2 == 1)
  }

  function PadBits(m: Bits): (p: Bits)
    ensures |p| % 512 == 0
  {
    m + [true] + seq(ZeroBits(|m|), _ => false) + LengthBlock(|m|)
  }

  /** The word whose bits are b, the leftmost most significant. */
  function WordOfBits(b: Bits): Word
  {
    if b == [] then 0 else Push(WordOfBits(b[..|b| - 1]), b[|b| - 1])
  }

  /** One more bit at the least significant end. */
  function Push(w: Word, x: bool): Word {
    (w << 1) | BitWord(x)
  }

  function BitWord(x: bool): Word {
    if x then 1 else 0
  }

  function BlockOfBits(b: Bits): Block
    requires |b| == 512
  {
    seq(16, i requires 0 <= i < 16 => WordOfBits(b[32 * i..32 * i + 32]))
  }

  function HashBits(s: Digest, p: Bits): Digest
    requires |p| % 512 == 0
    decreases |p|
  {
    if p == [] then s else HashBits(Compress(s, BlockOfBits(p[..512])), p[512..])
  }

  /** SHA-256 of a message of fewer than 2^64 bits. */
  function Sha256(m: Bits): Digest {
    HashBits(H0, PadBits(m))
  }
}
