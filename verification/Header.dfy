/** The 80-byte block header, its cached midstate, and the per-nonce patch of one word. */
module Header {
  import opened BitMath
  import opened Bytes
  import opened Fips180
  import opened Sha256

  type Hash32 = p: seq<byte> | |p| == 32 witness seq(32, _ => 0)

  // ----- byte order -----

  /** Reverses the four bytes of a word. */
  function Bswap32(v: Word): Word {
    ((v & 0x000000ff) << 24) | ((v & 0x0000ff00) << 8) | ((v & 0x00ff0000) >> 8) | ((v & 0xff000000) >> 24)
  }

  function WriteLe32(v: Word): (p: seq<byte>)
    ensures |p| == 4
  {
    [(v & 0xff) as byte, ((v >> 8) & 0xff) as byte, ((v >> 16) & 0xff) as byte, ((v >> 24) & 0xff) as byte]
  }

  lemma LeIsReversedBe(v: Word)
    ensures WriteLe32(v) == Reversed(WriteBe32(v))
  {
  }

  /** The number of a word, by its bytes. */
  function WordValue(v: Word): (n: nat)
    ensures n < 0x1_0000_0000
  {
    LeValueBound(WriteLe32(v));
    Pow2Values();
    LeValue(WriteLe32(v))
  }

  /** A field written little-endian is read by SHA-256 as the byte-swapped word. */
  lemma LeFieldAsWord(v: Word)
    ensures ReadBe32(WriteLe32(v)) == Bswap32(v)
    ensures WriteLe32(v) == WriteBe32(Bswap32(v))
  {
  }

  function SwapFour(p: seq<byte>): seq<byte>
    requires |p| == 4
  {
    [p[3], p[2], p[1], p[0]]
  }

  lemma SwapFourIsBswap(v: Word)
    ensures SwapFour(WriteBe32(v)) == WriteLe32(v)
  {
  }

  /** The mirror position of i within its group of four. */
  function FlipIndex(i: nat): (j: nat)
    ensures j / 4 == i / 4 && j % 4 == 3 - i % 4
  {
    4 * (i / 4) + 3 - i % 4
  }

  lemma FlipIndexBelow(i: nat, w: nat)
    requires i < 4 * w
    ensures FlipIndex(i) < 4 * w
  {
  }

  lemma FlipIndexShift(i: nat, w: nat)
    ensures FlipIndex(i + 4 * w) == FlipIndex(i) + 4 * w
  {
    DivModShift(i, w, 4);
  }

  lemma FlipIndexTwice(i: nat)
    ensures FlipIndex(FlipIndex(i)) == i
  {
  }

  /** Reverses the bytes of every 32-bit word, keeping the order of the words. */
  function FlipWords(p: seq<byte>): (q: seq<byte>)
    requires |p| % 4 == 0
    ensures |q| == |p|
  {
    seq(|p|, i requires 0 <= i < |p| => FlipIndexBelow(i, |p| / 4); p[FlipIndex(i)])
  }

  lemma FlipTwice(p: seq<byte>)
    requires |p| % 4 == 0
    ensures FlipWords(FlipWords(p)) == p
  {
    hide FlipIndex;
    forall i | 0 <= i < |p|
      ensures FlipWords(FlipWords(p))[i] == p[i]
    {
      FlipIndexBelow(i, |p| / 4);
      FlipIndexTwice(i);
    }
  }

  lemma FlipConcat(p: seq<byte>, q: seq<byte>)
    requires |p| % 4 == 0 && |q| % 4 == 0
    ensures FlipWords(p + q) == FlipWords(p) + FlipWords(q)
  {
    hide FlipWords;
    forall i | 0 <= i < |p + q|
      ensures FlipWords(p + q)[i] == (FlipWords(p) + FlipWords(q))[i]
    {
      if i < |p| {
        FlipFront(p, q, i);
      } else {
        FlipBack(p, q, i - |p|);
      }
    }
  }

  lemma FlipFront(p: seq<byte>, q: seq<byte>, i: nat)
    requires |p| % 4 == 0 && |p + q| % 4 == 0 && i < |p|
    ensures FlipWords(p + q)[i] == FlipWords(p)[i]
  {
    hide FlipIndex;
    FlipIndexBelow(i, |p| / 4);
  }

  lemma FlipBack(p: seq<byte>, q: seq<byte>, j: nat)
    requires |p| % 4 == 0 && |q| % 4 == 0 && |p + q| % 4 == 0 && j < |q|
    ensures FlipWords(p + q)[|p| + j] == FlipWords(q)[j]
  {
    hide FlipIndex;
    FlipIndexShift(j, |p| / 4);
  }

  /** Swaps the bytes of each word of a 32-byte buffer in place. */
  method ByteswapEachU32(bytes: array<byte>)
    requires bytes.Length == 32
    modifies bytes
    ensures bytes[..] == FlipWords(old(bytes[..]))
  {
    hide FlipWords;
    ghost var start := bytes[..];
    var i := 0;
    while i < 32
      invariant 0 <= i <= 32 && i % 4 == 0
      invariant forall k :: 0 <= k < i ==> bytes[k] == FlipWords(start)[k]
      invariant forall k :: i <= k < 32 ==> bytes[k] == start[k]
    {
      bytes[i + 0], bytes[i + 3] := bytes[i + 3], bytes[i + 0];
      bytes[i + 1], bytes[i + 2] := bytes[i + 2], bytes[i + 1];
      FlipAt(start, i);
      i := i + 4;
    }
  }

  lemma FlipAt(p: seq<byte>, i: nat)
    requires |p| % 4 == 0 && i % 4 == 0 && i + 4 <= |p|
    ensures FlipWords(p)[i] == p[i + 3] && FlipWords(p)[i + 1] == p[i + 2]
    ensures FlipWords(p)[i + 2] == p[i + 1] && FlipWords(p)[i + 3] == p[i]
  {
  }

  // ----- the header bytes -----

  datatype Fields = Fields(version: Word, prevhash: Hash32, merkleRoot: Hash32, ntime: Word, nbits: Word)

  function HeaderBytes(f: Fields, nonce: Word): (h: seq<byte>)
    ensures |h| == 80
  {
    WriteLe32(f.version) + f.prevhash + f.merkleRoot + WriteLe32(f.ntime) + WriteLe32(f.nbits) + WriteLe32(nonce)
  }

  /** Writes a byte string into a buffer at an offset. */
  method WriteAt(buffer: array<byte>, offset: nat, bytes: seq<byte>)
    requires offset + |bytes| <= buffer.Length
    modifies buffer
    ensures buffer[..offset + |bytes|] == old(buffer[..offset]) + bytes
    ensures buffer[offset + |bytes|..] == old(buffer[offset + |bytes|..])
  {
    for i := 0 to |bytes|
      invariant buffer[..offset] == old(buffer[..offset])
      invariant buffer[offset + |bytes|..] == old(buffer[offset + |bytes|..])
      invariant forall k :: 0 <= k < i ==> buffer[offset + k] == bytes[k]
    {
      buffer[offset + i] := bytes[i];
    }
  }

  method MakeShaInputHeaderBytes(f: Fields, nonce: Word) returns (header: seq<byte>)
    ensures header == HeaderBytes(f, nonce)
  {
    hide WriteLe32;
    var buffer := new byte[80](_ => 0);
    var version, ntime, nbits, last := WriteLe32(f.version), WriteLe32(f.ntime), WriteLe32(f.nbits), WriteLe32(nonce);
    WriteAt(buffer, 0, version);
    assert buffer[..4] == version;
    WriteAt(buffer, 4, f.prevhash);
    assert buffer[..36] == version + f.prevhash;
    WriteAt(buffer, 36, f.merkleRoot);
    assert buffer[..68] == version + f.prevhash + f.merkleRoot;
    WriteAt(buffer, 68, ntime);
    assert buffer[..72] == version + f.prevhash + f.merkleRoot + ntime;
    WriteAt(buffer, 72, nbits);
    assert buffer[..76] == version + f.prevhash + f.merkleRoot + ntime + nbits;
    WriteAt(buffer, 76, last);
    assert buffer[..] == buffer[..80];
    header := buffer[..];
  }

  /** The last two fields of a header. */
  lemma LastFields(f: Fields, nonce: Word)
    ensures HeaderBytes(f, nonce)[72..76] == WriteLe32(f.nbits) && HeaderBytes(f, nonce)[76..80] == WriteLe32(nonce)
  {
    hide WriteLe32;
    var front := WriteLe32(f.version) + f.prevhash + f.merkleRoot + WriteLe32(f.ntime);
    assert HeaderBytes(f, nonce) == front + WriteLe32(f.nbits) + WriteLe32(nonce);
  }

  // ----- the template -----

  datatype Template = Template(block0: Block, block1: Block, midstate: Digest)

  /** The template of a header: its first block compressed, its second block padded. */
  function NewTemplate(f: Fields, nonce: Word): Template {
    var h := HeaderBytes(f, nonce);
    var block0 := BlockOf(h[..64]);
    Template(block0, Words4(h[64..]) + PaddingWords(10, 0x280), Compress(H0, block0))
  }

  function Words4(p: seq<byte>): (w: seq<Word>)
    requires |p| == 16
    ensures |w| == 4
  {
    [ReadBe32(p[0..4]), ReadBe32(p[4..8]), ReadBe32(p[8..12]), ReadBe32(p[12..16])]
  }

  /**
   Builds the template. Reading the second block as 64 bytes runs 48 bytes past the header;
   whatever is found there is overwritten by the padding.
   */
  method MakeShaHeaderTemplate(f: Fields, nonce: Word, beyond: seq<byte>) returns (t: Template)
    requires |beyond| >= 48
    ensures t == NewTemplate(f, nonce)
  {
    hide ReadBe32, Compress, HeaderBytes, WordsOf;
    var bytes := MakeShaInputHeaderBytes(f, nonce);
    var block0 := ReadBlock(bytes, 0);
    var block1 := ReadBlock(bytes + beyond, 64);
    assert bytes[0..64] == bytes[..64];
    FirstWords(bytes, beyond);
    Overwrite(block1);
    block1 := block1[4 := 0x80000000][5 := 0][6 := 0][7 := 0][8 := 0][9 := 0][10 := 0]
              [11 := 0][12 := 0][13 := 0][14 := 0][15 := 0x00000280];
    var midstate := CompressBlock(H0, block0);
    t := Template(block0, block1, midstate);
  }

  /** What stays of a block whose last twelve words are overwritten by the padding. */
  lemma Overwrite(block: Block)
    ensures block[4 := 0x80000000][5 := 0][6 := 0][7 := 0][8 := 0][9 := 0][10 := 0]
            [11 := 0][12 := 0][13 := 0][14 := 0][15 := 0x00000280] == block[..4] + PaddingWords(10, 0x280)
  {
  }

  lemma FirstWords(bytes: seq<byte>, beyond: seq<byte>)
    requires |bytes| == 80 && |beyond| >= 48
    ensures BlockOf((bytes + beyond)[64..128])[..4] == Words4(bytes[64..])
  {
    hide ReadBe32;
    var p := (bytes + beyond)[64..128];
    forall i | 0 <= i < 4
      ensures p[4 * i..4 * i + 4] == bytes[64..][4 * i..4 * i + 4]
    {
      SliceOfSlice(bytes + beyond, 64, 128, 4 * i, 4 * i + 4);
      SliceOfSlice(bytes, 64, 80, 4 * i, 4 * i + 4);
      assert bytes[64..80] == bytes[64..];
    }
  }

  function SetNonce(t: Template, nonce: Word): Template {
    t.(block1 := t.block1[3 := Bswap32(nonce)])
  }

  /** The template after a run of nonce patches. */
  function SetNonces(t: Template, nonces: seq<Word>): Template
  {
    if nonces == [] then t else SetNonce(SetNonces(t, nonces[..|nonces| - 1]), nonces[|nonces| - 1])
  }

  function HashTemplate(t: Template): (d: Digest) {
    Compress(H0, PaddedDigest(Compress(t.midstate, t.block1)))
  }

  /** A template as the miner keeps it: the nonce is patched in place. */
  class HeaderTemplate {
    var block0: Block
    var block1: Block
    var midstate: Digest

    function Content(): Template
      reads this
    {
      Template(block0, block1, midstate)
    }

    constructor (t: Template)
      ensures Content() == t
    {
      block0 := t.block0;
      block1 := t.block1;
      midstate := t.midstate;
    }

    method SetHeaderNonce(nonce: Word)
      modifies this`block1
      ensures Content() == SetNonce(old(Content()), nonce)
    {
      block1 := block1[3 := Bswap32(nonce)];
    }

    method HashHeaderTemplate() returns (digest: Digest)
      ensures digest == HashTemplate(Content())
    {
      hide Compress, PaddedDigest;
      var first := CompressBlock(midstate, block1);
      digest := HashDigestWords(first);
    }
  }

  // ----- the midstate path agrees with the plain one -----

  /** The header's second block with its padding is the template's second block. */
  lemma SecondBlock(f: Fields, nonce: Word)
    ensures BlockOf(PadBytes(HeaderBytes(f, nonce))[64..]) == NewTemplate(f, nonce).block1
    ensures PadBytes(HeaderBytes(f, nonce))[..64] == HeaderBytes(f, nonce)[..64]
  {
    hide ReadBe32, Compress, HeaderBytes, PaddingBytes, WordsBytes, WriteBe32;
    var h := HeaderBytes(f, nonce);
    var w := PaddingWords(10, 0x280);
    Padding640();
    var p := PadBytes(h)[64..];
    assert p == h[64..] + WordsBytes(w);
    forall i | 0 <= i < 16
      ensures BlockOf(p)[i] == (Words4(h[64..]) + w)[i]
    {
      SecondBlockAt(h[64..], w, p, i);
    }
  }

  lemma SecondBlockAt(h: seq<byte>, w: seq<Word>, p: seq<byte>, i: nat)
    requires |h| == 16 && |w| == 12 && p == h + WordsBytes(w) && |p| == 64 && i < 16
    ensures BlockOf(p)[i] == (Words4(h) + w)[i]
  {
    hide ReadBe32, WordsBytes, WriteBe32;
    if i < 4 {
      assert p[4 * i..4 * i + 4] == h[4 * i..4 * i + 4];
    } else {
      WordsBytesAt(w, i - 4);
      ReadWrite(w[i - 4]);
      assert p[4 * i..4 * i + 4] == WordsBytes(w)[4 * (i - 4)..4 * (i - 4) + 4];
    }
  }

  /** Hashing a fresh template is double SHA-256 of the header. */
  lemma TemplateHash(f: Fields, nonce: Word)
    ensures DigestBytes(HashTemplate(NewTemplate(f, nonce))) == DoubleSha(HeaderBytes(f, nonce))
  {
    hide *;
    var h := HeaderBytes(f, nonce);
    var t := NewTemplate(f, nonce);
    Sha256OfBytes(h);
    SecondBlock(f, nonce);
    PadLength(h);
    HashTwoBlocks(H0, PadBytes(h));
    TemplateParts(f, nonce);
    HashDigest(Compress(t.midstate, t.block1));
    DoubleShaUnfold(h);
  }

  lemma PadLength(h: seq<byte>)
    requires |h| == 80
    ensures |PadBytes(h)| == 128
  {
  }

  lemma TemplateParts(f: Fields, nonce: Word)
    ensures NewTemplate(f, nonce).midstate == Compress(H0, BlockOf(HeaderBytes(f, nonce)[..64]))
    ensures var t := NewTemplate(f, nonce);
            HashTemplate(t) == Compress(H0, PaddedDigest(Compress(t.midstate, t.block1)))
  {
    hide Compress, HeaderBytes, ReadBe32;
  }

  /** Patching the nonce of a template is building the template with that nonce. */
  lemma PatchIsRebuild(f: Fields, old_nonce: Word, nonce: Word)
    ensures SetNonce(NewTemplate(f, old_nonce), nonce) == NewTemplate(f, nonce)
  {
    hide ReadBe32, Compress, Bswap32, WriteLe32, WordsOf, PaddingWords;
    var h, h' := HeaderBytes(f, old_nonce), HeaderBytes(f, nonce);
    assert h[..64] == h'[..64];
    assert h[64..][0..4] == h'[64..][0..4];
    assert h[64..][4..8] == h'[64..][4..8];
    assert h[64..][8..12] == h'[64..][8..12];
    SliceOfSlice(h', 64, 80, 12, 16);
    assert h'[64..80] == h'[64..];
    assert h'[76..80] == WriteLe32(nonce);
    LeFieldAsWord(nonce);
  }

  lemma {:induction false} PatchesAreRebuild(f: Fields, first: Word, nonces: seq<Word>)
    ensures SetNonces(NewTemplate(f, first), nonces)
         == NewTemplate(f, if nonces == [] then first else nonces[|nonces| - 1])
  {
    hide NewTemplate, SetNonce;
    if nonces != [] {
      PatchesAreRebuild(f, first, nonces[..|nonces| - 1]);
      var before := nonces[..|nonces| - 1];
      PatchIsRebuild(f, if before == [] then first else before[|before| - 1], nonces[|nonces| - 1]);
    }
  }

  /**
   After any sequence of nonce patches the cached-midstate hash is the double SHA-256 of the
   full header carrying the last nonce.
   */
  lemma MidstateAgrees(f: Fields, first: Word, nonces: seq<Word>, nonce: Word)
    ensures DigestBytes(HashTemplate(SetNonces(NewTemplate(f, first), nonces + [nonce])))
        == DoubleSha(HeaderBytes(f, nonce))
  {
    hide *;
    PatchesAreRebuild(f, first, nonces + [nonce]);
    TemplateHash(f, nonce);
  }
}
