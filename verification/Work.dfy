/** From a job to hashable work: coinbase, merkle root, header template, share submission. */
module Work {
  import opened BitMath
  import opened Bytes
  import opened Fips180
  import opened Sha256
  import opened Header
  import opened Hex

  datatype MiningJob = MiningJob(
    jobId: string, prevhash: string, coinb1: string, coinb2: string, merkleBranch: seq<string>,
    version: string, nbits: string, ntime: string, cleanJobs: bool)

  datatype Subscription = Subscription(extranonce1: string, extranonce2Size: nat)

  datatype CoinbaseBuild = CoinbaseBuild(extranonce2Hex: string, hex: string, bytes: seq<byte>, hash: Hash32)

  datatype PreparedWork = PreparedWork(
    job: MiningJob, subscription: Subscription, counter: nat, extranonce2Hex: string, coinbase: CoinbaseBuild,
    merkleRootRawHex: string, prevhash: Hash32, merkleRoot: Hash32, template: Template)

  datatype ShareSubmission = ShareSubmission(jobId: string, extranonce2Hex: string, ntimeHex: string, nonceHex: string)

  datatype WorkResult<+T> = Done(value: T) | Failed(error: WorkError)

  datatype WorkError = ExtranonceTooLarge | ExtranonceOverflow | InvalidField

  // ----- extranonce2 -----

  /** The largest counter of the given byte size. */
  function MaxExtranonce2(size: nat): (m: nat)
    requires size <= 8
    ensures m == Pow2(8 * size) - 1
  {
    if size == 0 then 0
    else if size == 8 then
      Pow2Values();
      0xffff_ffff_ffff_ffff
    else Pow2(8 * size) - 1
  }

  method MaxExtranonce2Value(size: nat) returns (r: WorkResult<nat>)
    ensures size > 8 <==> r == Failed(ExtranonceTooLarge)
    ensures size <= 8 ==> r == Done(Pow2(8 * size) - 1) && r.value == MaxExtranonce2(size)
  {
    if size > 8 {
      return Failed(ExtranonceTooLarge);
    }
    r := Done(MaxExtranonce2(size));
  }

  function ExtranonceHex(counter: nat, size: nat): (s: string)
    ensures |s| == 2 * size
  {
    HexOf(BeBytes(counter, size))
  }

  lemma BeBytesInjective(n: nat, m: nat, k: nat)
    requires n < Pow2(8 * k) && m < Pow2(8 * k) && BeBytes(n, k) == BeBytes(m, k)
    ensures n == m
  {
    hide LowByte, Shr, Pow2, Reversed;
    BeBytesReversed(n, k);
    BeBytesReversed(m, k);
    ReversedTwice(LeBytes(n, k));
    ReversedTwice(LeBytes(m, k));
    LeBytesInjective(n, m, k);
  }

  /** Different counters within the size have different hexadecimal forms. */
  lemma ExtranonceInjective(a: nat, b: nat, size: nat)
    requires size <= 8 && a <= MaxExtranonce2(size) && b <= MaxExtranonce2(size)
    requires ExtranonceHex(a, size) == ExtranonceHex(b, size)
    ensures a == b
  {
    hide HexOf, BeBytes;
    HexOfInjective(BeBytes(a, size), BeBytes(b, size));
    BeBytesInjective(a, b, size);
  }

  // ----- coinbase -----

  predicate HexWithin(s: string, chars: nat) {
    |s| == chars && IsLowerHex(s)
  }

  function CoinbaseHex(job: MiningJob, sub: Subscription, extranonce2Hex: string): string {
    job.coinb1 + sub.extranonce1 + extranonce2Hex + job.coinb2
  }

  predicate CoinbaseParts(job: MiningJob, sub: Subscription) {
    IsLowerHex(job.coinb1) && IsLowerHex(job.coinb2) && IsLowerHex(sub.extranonce1)
  }

  /** The decoded coinbase is the concatenation of the decoded parts. */
  lemma CoinbaseDecodes(job: MiningJob, sub: Subscription, e: string)
    requires CoinbaseParts(job, sub) && IsLowerHex(e)
    ensures IsLowerHex(CoinbaseHex(job, sub, e))
    ensures BytesOfHex(CoinbaseHex(job, sub, e))
         == BytesOfHex(job.coinb1) + BytesOfHex(sub.extranonce1) + BytesOfHex(e) + BytesOfHex(job.coinb2)
  {
    hide IsLowerHex, BytesOfHex;
    BytesOfHexConcat(job.coinb1, sub.extranonce1);
    BytesOfHexConcat(job.coinb1 + sub.extranonce1, e);
    BytesOfHexConcat(job.coinb1 + sub.extranonce1 + e, job.coinb2);
  }

  /** The bound under which a message's bit length is a 64-bit number. */
  predicate Hashable(job: MiningJob, sub: Subscription) {
    |job.coinb1| + |sub.extranonce1| + |job.coinb2| < 0x2000_0000_0000_0000
  }

  method MakeCoinbaseHex(job: MiningJob, sub: Subscription, extranonce2Hex: string) returns (r: WorkResult<string>)
    ensures r.Done? <==> CoinbaseParts(job, sub) && HexWithin(extranonce2Hex, 2 * sub.extranonce2Size)
    ensures r.Done? ==> r.value == CoinbaseHex(job, sub, extranonce2Hex)
  {
    hide IsLowerHex;
    var ok := IsLowerHexString(job.coinb1);
    if !ok { return Failed(InvalidField); }
    ok := IsLowerHexString(job.coinb2);
    if !ok { return Failed(InvalidField); }
    ok := IsLowerHexString(sub.extranonce1);
    if !ok { return Failed(InvalidField); }
    ok := IsLowerHexString(extranonce2Hex);
    if !ok { return Failed(InvalidField); }
    if |extranonce2Hex| != sub.extranonce2Size * 2 {
      return Failed(InvalidField);
    }
    return Done(job.coinb1 + sub.extranonce1 + extranonce2Hex + job.coinb2);
  }

  function Coinbase(job: MiningJob, sub: Subscription, e: string): CoinbaseBuild
    requires IsLowerHex(CoinbaseHex(job, sub, e))
  {
    var bytes := BytesOfHex(CoinbaseHex(job, sub, e));
    CoinbaseBuild(e, CoinbaseHex(job, sub, e), bytes, DoubleSha(bytes))
  }

  method BuildCoinbase(job: MiningJob, sub: Subscription, extranonce2Hex: string) returns (r: WorkResult<CoinbaseBuild>)
    requires Hashable(job, sub) && |extranonce2Hex| <= 16
    ensures r.Done? <==> CoinbaseParts(job, sub) && HexWithin(extranonce2Hex, 2 * sub.extranonce2Size)
    ensures r.Done? ==>
        IsLowerHex(CoinbaseHex(job, sub, extranonce2Hex)) && r.value == Coinbase(job, sub, extranonce2Hex)
  {
    hide IsLowerHex, DoubleSha, DigestBytes;
    var hex := MakeCoinbaseHex(job, sub, extranonce2Hex);
    if hex.Failed? {
      return Failed(InvalidField);
    }
    CoinbaseDecodes(job, sub, extranonce2Hex);
    var bytes := HexToBytes(hex.value);
    var words := DblSha256Words(bytes.value);
    var hash := DigestWordsToBytesBe(words);
    return Done(CoinbaseBuild(extranonce2Hex, hex.value, bytes.value, hash));
  }

  // ----- merkle root -----

  predicate ValidBranch(branch: seq<string>) {
    forall i :: 0 <= i < |branch| ==> HexWithin(branch[i], 64)
  }

  /** Folds the branch into the hash, left to right, without reversing any byte. */
  function Fold(hash: Hash32, branch: seq<string>): Hash32
    requires ValidBranch(branch)
  {
    if branch == [] then hash
    else DoubleSha(Fold(hash, branch[..|branch| - 1]) + BytesOfHex(branch[|branch| - 1]))
  }

  method MerkleFold(hash: Hash32, branch: seq<string>) returns (r: WorkResult<Hash32>)
    ensures r.Done? <==> ValidBranch(branch)
    ensures r.Done? ==> r.value == Fold(hash, branch)
  {
    hide IsLowerHex, DoubleSha, DigestBytes, BytesOfHex;
    var current := hash;
    for i := 0 to |branch|
      invariant ValidBranch(branch[..i])
      invariant current == Fold(hash, branch[..i])
    {
      var decoded := HexToArray32(branch[i]);
      if decoded.Err? {
        return Failed(InvalidField);
      }
      var buffer := current + decoded.value;
      var folded := DblSha256Words(buffer);
      current := DigestWordsToBytesBe(folded);
      assert branch[..i + 1][..i] == branch[..i];
    }
    assert branch[..|branch|] == branch;
    return Done(current);
  }

  // ----- prepared work -----

  predicate WellFormed(job: MiningJob, sub: Subscription) {
    && sub.extranonce2Size <= 8
    && CoinbaseParts(job, sub) && ValidBranch(job.merkleBranch)
    && HexWithin(job.prevhash, 64)
    && HexWithin(job.version, 8) && HexWithin(job.ntime, 8) && HexWithin(job.nbits, 8)
  }

  predicate CanPrepare(job: MiningJob, sub: Subscription, counter: nat) {
    WellFormed(job, sub) && counter <= MaxExtranonce2(sub.extranonce2Size)
  }

  function HeaderFields(job: MiningJob, merkleRoot: Hash32): Fields
    requires HexWithin(job.prevhash, 64)
    requires HexWithin(job.version, 8) && HexWithin(job.ntime, 8) && HexWithin(job.nbits, 8)
  {
    Fields(ReadBe32(BytesOfHex(job.version)), FlipWords(BytesOfHex(job.prevhash)), merkleRoot,
           ReadBe32(BytesOfHex(job.ntime)), ReadBe32(BytesOfHex(job.nbits)))
  }

  function MerkleRoot(job: MiningJob, sub: Subscription, e: string): Hash32
    requires CoinbaseParts(job, sub) && IsLowerHex(e) && ValidBranch(job.merkleBranch)
  {
    CoinbaseDecodes(job, sub, e);
    Fold(DoubleSha(BytesOfHex(CoinbaseHex(job, sub, e))), job.merkleBranch)
  }

  function Prepared(job: MiningJob, sub: Subscription, counter: nat): (p: PreparedWork)
    requires CanPrepare(job, sub, counter)
  {
    var e := ExtranonceHex(counter, sub.extranonce2Size);
    HexOfIsLowerHex(BeBytes(counter, sub.extranonce2Size));
    CoinbaseDecodes(job, sub, e);
    var root := MerkleRoot(job, sub, e);
    PreparedWork(job, sub, counter, e, Coinbase(job, sub, e), HexOf(root), FlipWords(BytesOfHex(job.prevhash)), root,
                 NewTemplate(HeaderFields(job, root), 0))
  }

  lemma PreparedFields(job: MiningJob, sub: Subscription, counter: nat)
    requires CanPrepare(job, sub, counter)
    ensures var p := Prepared(job, sub, counter);
            && p.job == job && p.subscription == sub && p.counter == counter
            && p.extranonce2Hex == p.coinbase.extranonce2Hex == ExtranonceHex(counter, sub.extranonce2Size)
  {
    hide IsLowerHex, HexOf, BytesOfHex, BeBytes, DoubleSha, NewTemplate, MerkleRoot, HeaderFields, FlipWords,
         MaxExtranonce2;
  }

  method PrepareWork(job: MiningJob, sub: Subscription, counter: nat, beyond: seq<byte>)
    returns (r: WorkResult<PreparedWork>)
    requires counter < 0x1_0000_0000_0000_0000 && Hashable(job, sub) && |beyond| >= 48
    ensures r.Done? <==> CanPrepare(job, sub, counter)
    ensures r.Done? ==> r.value == Prepared(job, sub, counter)
    ensures r == Failed(ExtranonceTooLarge) <==> sub.extranonce2Size > 8
    ensures r == Failed(ExtranonceOverflow)
        <==> sub.extranonce2Size <= 8 && counter > MaxExtranonce2(sub.extranonce2Size)
  {
    hide IsLowerHex, BytesOfHex, HexOf, BeBytes, DoubleSha, Fold, NewTemplate, FlipWords, ReadBe32, CoinbaseHex;
    var maxValue := MaxExtranonce2Value(sub.extranonce2Size);
    if maxValue.Failed? {
      return Failed(maxValue.error);
    }
    if counter > maxValue.value {
      return Failed(ExtranonceOverflow);
    }
    var e := HexFromU64Be(counter, sub.extranonce2Size);
    HexOfIsLowerHex(BeBytes(counter, sub.extranonce2Size));
    var coinbase := BuildCoinbase(job, sub, e.value);
    if coinbase.Failed? {
      return Failed(InvalidField);
    }
    var root := MerkleFold(coinbase.value.hash, job.merkleBranch);
    if root.Failed? {
      return Failed(InvalidField);
    }
    var rawHex := BytesToHex(root.value);
    var prevhash := PrevhashShaInput(job);
    if prevhash.Failed? {
      return Failed(InvalidField);
    }
    HexRoundTrip(root.value);
    var rootInput := HexToArray32(rawHex);
    var version := U32FromHexBe(job.version);
    var ntime := U32FromHexBe(job.ntime);
    var nbits := U32FromHexBe(job.nbits);
    if version.Err? || ntime.Err? || nbits.Err? {
      return Failed(InvalidField);
    }
    var f := Fields(version.value, prevhash.value, rootInput.value, ntime.value, nbits.value);
    var template := MakeShaHeaderTemplate(f, 0, beyond);
    return Done(PreparedWork(job, sub, counter, e.value, coinbase.value, rawHex, prevhash.value, rootInput.value,
        template));
  }

  method PrevhashShaInput(job: MiningJob) returns (r: WorkResult<Hash32>)
    ensures r.Done? <==> HexWithin(job.prevhash, 64)
    ensures r.Done? ==> r.value == FlipWords(BytesOfHex(job.prevhash))
  {
    hide IsLowerHex, BytesOfHex, FlipWords;
    var decoded := HexToArray32(job.prevhash);
    if decoded.Err? {
      return Failed(InvalidField);
    }
    var buffer := new byte[32](i requires 0 <= i < 32 => decoded.value[i]);
    assert buffer[..] == decoded.value;
    ByteswapEachU32(buffer);
    return Done(buffer[..]);
  }

  // ----- hashing and submitting -----

  /** The digest of the prepared header with a nonce. */
  function HashOf(p: PreparedWork, nonce: Word): (d: seq<byte>)
    ensures |d| == 32
  {
    DigestBytes(HashTemplate(SetNonce(p.template, nonce)))
  }

  method HashPreparedWorkNonce(p: PreparedWork, nonce: Word) returns (d: seq<byte>)
    ensures d == HashOf(p, nonce)
  {
    hide HashTemplate, DigestBytes, SetNonce;
    var header := new HeaderTemplate(p.template);
    header.SetHeaderNonce(nonce);
    var words := header.HashHeaderTemplate();
    d := DigestWordsToBytesBe(words);
  }

  function Submission(p: PreparedWork, nonce: Word): ShareSubmission {
    ShareSubmission(p.job.jobId, p.coinbase.extranonce2Hex, p.job.ntime, HexOf(WriteBe32(nonce)))
  }

  method MakeShareSubmission(p: PreparedWork, nonce: Word) returns (s: ShareSubmission)
    ensures s == Submission(p, nonce)
  {
    var nonceHex := HexFromU32Be(nonce);
    s := ShareSubmission(p.job.jobId, p.coinbase.extranonce2Hex, p.job.ntime, nonceHex);
  }

  /** What the miner hashes is the double SHA-256 of the job's header with the nonce. */
  lemma HashOfPrepared(job: MiningJob, sub: Subscription, counter: nat, nonce: Word)
    requires CanPrepare(job, sub, counter)
    ensures var p := Prepared(job, sub, counter);
            HashOf(p, nonce) == DoubleSha(HeaderBytes(HeaderFields(job, p.merkleRoot), nonce))
  {
    hide HeaderBytes, NewTemplate, HashTemplate, SetNonce, DigestBytes, DoubleSha, MerkleRoot, HeaderFields, Coinbase,
         ExtranonceHex, IsLowerHex;
    var p := Prepared(job, sub, counter);
    PatchIsRebuild(HeaderFields(job, p.merkleRoot), 0, nonce);
    TemplateHash(HeaderFields(job, p.merkleRoot), nonce);
  }

  /** Distinct counters build distinct coinbases. */
  lemma DistinctCoinbases(job: MiningJob, sub: Subscription, a: nat, b: nat)
    requires CanPrepare(job, sub, a) && CanPrepare(job, sub, b) && a != b
    ensures Prepared(job, sub, a).coinbase.bytes != Prepared(job, sub, b).coinbase.bytes
  {
    hide IsLowerHex, BytesOfHex, BeBytes, DoubleSha, NewTemplate, MerkleRoot, HeaderFields, HexOf;
    var ea, eb := ExtranonceHex(a, sub.extranonce2Size), ExtranonceHex(b, sub.extranonce2Size);
    HexOfIsLowerHex(BeBytes(a, sub.extranonce2Size));
    HexOfIsLowerHex(BeBytes(b, sub.extranonce2Size));
    CoinbaseDecodes(job, sub, ea);
    CoinbaseDecodes(job, sub, eb);
    if Prepared(job, sub, a).coinbase.bytes == Prepared(job, sub, b).coinbase.bytes {
      SameMiddle(BytesOfHex(job.coinb1) + BytesOfHex(sub.extranonce1), BytesOfHex(ea), BytesOfHex(eb),
          BytesOfHex(job.coinb2));
      HexRoundTripText(ea);
      HexRoundTripText(eb);
      ExtranonceInjective(a, b, sub.extranonce2Size);
      assert false;
    }
  }

  lemma SameMiddle(a: seq<byte>, x: seq<byte>, y: seq<byte>, b: seq<byte>)
    requires |x| == |y| && a + x + b == a + y + b
    ensures x == y
  {
    assert (a + x + b)[|a|..|a| + |x|] == x;
    assert (a + y + b)[|a|..|a| + |x|] == y;
  }
}
