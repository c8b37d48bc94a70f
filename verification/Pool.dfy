/**
 The server's side of a share: rebuilding the header from the job, the session and the
 submitted strings through the intermediate header and flip_80, and the agreement of that
 reconstruction with the digest the miner computed.
 */
module Pool {
  import opened Bytes
  import opened Fips180
  import opened Sha256
  import opened Header
  import opened Hex
  import opened Work

  /** Overwrites part of a buffer. */
  function Insert(buffer: seq<byte>, offset: nat, bytes: seq<byte>): (r: seq<byte>)
    requires offset + |bytes| <= |buffer|
    ensures |r| == |buffer|
  {
    buffer[..offset] + bytes + buffer[offset + |bytes|..]
  }

  /** The fields a server checks before hashing. */
  predicate FieldsValid(job: MiningJob, sub: Subscription, s: ShareSubmission) {
    && HexWithin(s.extranonce2Hex, 2 * sub.extranonce2Size)
    && HexWithin(s.ntimeHex, 8) && HexWithin(s.nonceHex, 8)
    && s.jobId == job.jobId
  }

  /** The cached job template: version, prevhash, an empty merkle root, ntime, nbits, an empty nonce. */
  function JobTemplate(job: MiningJob): (t: seq<byte>)
    requires HexWithin(job.prevhash, 64)
    requires HexWithin(job.version, 8) && HexWithin(job.ntime, 8) && HexWithin(job.nbits, 8)
    ensures |t| == 80
  {
    BytesOfHex(job.version) + BytesOfHex(job.prevhash) + ZeroBytes(32) + BytesOfHex(job.ntime) + BytesOfHex(job.nbits)
    + ZeroBytes(4)
  }

  /** Hashes a node with its right-hand siblings, lowest first, up to the root. */
  function ServerRoot(node: Hash32, branch: seq<string>): Hash32
    requires ValidBranch(branch)
    decreases |branch|
  {
    if branch == [] then node else ServerRoot(DoubleSha(node + BytesOfHex(branch[0])), branch[1..])
  }

  /** The miner's fold, which goes over the branch from its other end, gives the same root. */
  lemma {:induction false} FoldIsServerRoot(node: Hash32, branch: seq<string>)
    requires ValidBranch(branch)
    ensures Fold(node, branch) == ServerRoot(node, branch)
    decreases |branch|
  {
    hide DoubleSha, BytesOfHex, IsLowerHex;
    if branch != [] {
      FoldFront(node, branch);
      FoldIsServerRoot(DoubleSha(node + BytesOfHex(branch[0])), branch[1..]);
    }
  }

  lemma {:induction false} FoldFront(node: Hash32, branch: seq<string>)
    requires ValidBranch(branch) && branch != []
    ensures Fold(node, branch) == Fold(DoubleSha(node + BytesOfHex(branch[0])), branch[1..])
    decreases |branch|
  {
    hide DoubleSha, BytesOfHex, IsLowerHex;
    if |branch| > 1 {
      var front := branch[..|branch| - 1];
      FoldFront(node, front);
      assert front[1..] == branch[1..][..|branch| - 2];
    }
  }

  function IntermediateHeader(job: MiningJob, sub: Subscription, s: ShareSubmission): (h: seq<byte>)
    requires WellFormed(job, sub) && FieldsValid(job, sub, s)
    ensures |h| == 80
  {
    var coinbase := BytesOfHex(job.coinb1) + BytesOfHex(sub.extranonce1) + BytesOfHex(s.extranonce2Hex)
        + BytesOfHex(job.coinb2);
    var root := ServerRoot(DoubleSha(coinbase), job.merkleBranch);
    var ntime32 := ReadBe32(BytesOfHex(s.ntimeHex));
    Insert(Insert(Insert(JobTemplate(job), 36, FlipWords(root)), 68, WriteBe32(ntime32)), 76, BytesOfHex(s.nonceHex))
  }

  /** dSHA256(flip_80(intermediate header)) */
  function ShareHash(job: MiningJob, sub: Subscription, s: ShareSubmission): (d: seq<byte>)
    requires WellFormed(job, sub) && FieldsValid(job, sub, s)
    ensures |d| == 32
  {
    DoubleSha(FlipWords(IntermediateHeader(job, sub, s)))
  }

  /** The intermediate header, part by part. */
  lemma IntermediateParts(v: seq<byte>, p: seq<byte>, m: seq<byte>, t: seq<byte>, b: seq<byte>, n: seq<byte>,
                          m': seq<byte>,
                          t': seq<byte>, n': seq<byte>)
    requires |v| == 4 && |p| == |m| == |m'| == 32 && |t| == |t'| == |b| == |n| == |n'| == 4
    ensures Insert(Insert(Insert(v + p + m + t + b + n, 36, m'), 68, t'), 76, n') == v + p + m' + t' + b + n'
  {
    var s0 := v + p + m + t + b + n;
    assert s0[..36] == v + p && s0[68..] == t + b + n;
    var s1 := Insert(s0, 36, m');
    assert s1 == v + p + m' + (t + b + n);
    assert s1[..68] == v + p + m' && s1[72..] == b + n;
    var s2 := Insert(s1, 68, t');
    assert s2 == v + p + m' + t' + (b + n);
    assert s2[..76] == v + p + m' + t' + b && s2[80..] == [];
  }

  lemma FlipParts(v: seq<byte>, p: seq<byte>, m: seq<byte>, t: seq<byte>, b: seq<byte>, n: seq<byte>)
    requires |v| == 4 && |p| == |m| == 32 && |t| == |b| == |n| == 4
    ensures FlipWords(v + p + m + t + b + n)
         == FlipWords(v) + FlipWords(p) + FlipWords(m) + FlipWords(t) + FlipWords(b) + FlipWords(n)
  {
    hide FlipWords;
    FlipConcat(v + p + m + t + b, n);
    FlipConcat(v + p + m + t, b);
    FlipConcat(v + p + m, t);
    FlipConcat(v + p, m);
    FlipConcat(v, p);
  }

  /** Flipping four big-endian bytes writes the word little-endian. */
  lemma FlipWord(p: seq<byte>)
    requires |p| == 4
    ensures FlipWords(p) == WriteLe32(ReadBe32(p))
  {
    FlipAt(p, 0);
    WriteRead(p);
    SwapFourIsBswap(ReadBe32(p));
    hide WriteLe32, ReadBe32, WriteBe32, FlipWords;
    assert FlipWords(p) == SwapFour(p);
  }

  /** flip_80 of the intermediate header is the miner's header. */
  lemma FlippedHeader(job: MiningJob, sub: Subscription, s: ShareSubmission, nonce: Word)
    requires WellFormed(job, sub) && FieldsValid(job, sub, s)
    requires s.ntimeHex == job.ntime && s.nonceHex == HexOf(WriteBe32(nonce))
    ensures FlipWords(IntermediateHeader(job, sub, s))
         == HeaderBytes(HeaderFields(job, MerkleRoot(job, sub, s.extranonce2Hex)), nonce)
  {
    hide IsLowerHex, BytesOfHex, HexOf, FlipWords, ReadBe32, WriteBe32, WriteLe32, DoubleSha, Fold, ServerRoot,
         Insert, CoinbaseHex;
    HexRoundTrip(WriteBe32(nonce));
    CoinbaseDecodes(job, sub, s.extranonce2Hex);
    FoldIsServerRoot(DoubleSha(BytesOfHex(CoinbaseHex(job, sub, s.extranonce2Hex))), job.merkleBranch);
    var root := MerkleRoot(job, sub, s.extranonce2Hex);
    var v, p, t, b, n := BytesOfHex(job.version), BytesOfHex(job.prevhash), BytesOfHex(job.ntime),
        BytesOfHex(job.nbits), WriteBe32(nonce);
    WriteRead(t);
    IntermediateParts(v, p, ZeroBytes(32), t, b, ZeroBytes(4), FlipWords(root), t, n);
    FlipParts(v, p, FlipWords(root), t, b, n);
    FlipTwice(root);
    FlipWord(v);
    FlipWord(t);
    FlipWord(b);
    FlipWord(n);
    ReadWrite(nonce);
  }

  /** The submitted strings pass the server's field checks. */
  lemma SubmissionValid(job: MiningJob, sub: Subscription, counter: nat, nonce: Word)
    requires CanPrepare(job, sub, counter)
    ensures FieldsValid(job, sub, Submission(Prepared(job, sub, counter), nonce))
  {
    hide IsLowerHex, HexOf, HashOf, MerkleRoot, HeaderFields, DoubleSha, FlipWords, NewTemplate, BytesOfHex, BeBytes,
         MaxExtranonce2, WriteBe32, CoinbaseHex;
    HexOfIsLowerHex(BeBytes(counter, sub.extranonce2Size));
    HexOfIsLowerHex(WriteBe32(nonce));
  }

  /**
   End to end: whenever work can be prepared, for every nonce the server's reconstruction
   from the job and the submitted strings hashes to exactly the digest the miner computed.
   */
  lemma EndToEnd(job: MiningJob, sub: Subscription, counter: nat, nonce: Word, s: ShareSubmission)
    requires CanPrepare(job, sub, counter) && s == Submission(Prepared(job, sub, counter), nonce)
    ensures FieldsValid(job, sub, s) && ShareHash(job, sub, s) == HashOf(Prepared(job, sub, counter), nonce)
  {
    hide IsLowerHex, HexOf, HashOf, HeaderBytes, IntermediateHeader, MerkleRoot, HeaderFields, DoubleSha, FlipWords,
         NewTemplate, BytesOfHex, BeBytes, MaxExtranonce2, WriteBe32, CoinbaseHex;
    SubmissionValid(job, sub, counter, nonce);
    FlippedHeader(job, sub, s, nonce);
    HashOfPrepared(job, sub, counter, nonce);
  }
}
