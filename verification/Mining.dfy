/** The CPU backend, the mining coordinator, and the worker's walk through the search space. */
module Mining {
  import opened Bytes
  import opened Uint256
  import opened Header
  import opened Work
  import opened Target
  import opened Scan
  import opened Pool
  import opened Wrappers

  // ----- backend and coordinator -----

  datatype ShareCandidate = ShareCandidate(work: WorkValue, nonce: nat, hash: seq<byte>, isBlock: bool, generation: nat)

  datatype FoundShare = FoundShare(submission: ShareSubmission, candidate: ShareCandidate)

  function CandidateOf(p: PreparedWork, expected: nat, r: Report): ShareCandidate
    requires r.nonce <= MAX_NONCE
  {
    ShareCandidate(WorkFrom(p, r.nonce), r.nonce, r.digest, r.block, expected)
  }

  function CandidatesOf(p: PreparedWork, expected: nat, rs: seq<Report>): (cs: seq<ShareCandidate>)
    requires forall i :: 0 <= i < |rs| ==> rs[i].nonce <= MAX_NONCE
    ensures |cs| == |rs|
  {
    seq(|rs|, i requires 0 <= i < |rs| => CandidateOf(p, expected, rs[i]))
  }

  function FoundOf(p: PreparedWork, expected: nat, rs: seq<Report>): (fs: seq<FoundShare>)
    requires forall i :: 0 <= i < |rs| ==> rs[i].nonce <= MAX_NONCE
    ensures |fs| == |rs|
  {
    seq(|rs|, i requires 0 <= i < |rs| =>
      FoundShare(Submission(p, NonceWord(rs[i].nonce)), CandidateOf(p, expected, rs[i])))
  }

  /** Scans with its own mutable work and turns every report into a candidate. */
  method BackendScan(p: PreparedWork, networkTarget: U256, shareTarget: U256, nonceBegin: nat, nonceEnd: nat,
                     c: ScanControl)
    returns (outcome: ScanOutcome, reports: seq<Report>, candidates: seq<ShareCandidate>)
    ensures outcome.Rejected? <==> nonceBegin > nonceEnd || nonceEnd > MAX_NONCE
    ensures outcome.Rejected? ==> reports == []
    ensures outcome.Scanned? ==>
        && StopsCorrectly(c, nonceEnd - nonceBegin + 1, outcome.result)
        && 0 <= Evaluated(outcome.result) <= nonceEnd - nonceBegin + 1
        && reports == ReportsOf(p, Value(networkTarget), Value(shareTarget), nonceBegin, Evaluated(outcome.result))
        && outcome.result.sharesFound == |reports|
    ensures forall i :: 0 <= i < |reports| ==> reports[i].nonce <= MAX_NONCE
    ensures candidates == CandidatesOf(p, c.expected, reports)
  {
    hide Value, ReportsOf, StopsCorrectly, SetNonce, NonceWord;
    var work := new WorkState.FromPrepared(p, nonceBegin % 0x1_0000_0000);
    var base := new WorkState.FromPrepared(p, 0);
    outcome, reports := ScanNonceRange(work, networkTarget, shareTarget, nonceBegin, nonceEnd, c);
    if outcome.Scanned? {
      ReportsExact(p, Value(networkTarget), Value(shareTarget), nonceBegin, Evaluated(outcome.result));
    }
    candidates := ToCandidates(base, reports, c.expected);
  }

  /** The candidates the backend's callback builds, each from a copy of the base work. */
  method ToCandidates(base: WorkState, reports: seq<Report>, expected: nat) returns (candidates: seq<ShareCandidate>)
    requires base.Valid() && forall i :: 0 <= i < |reports| ==> reports[i].nonce <= MAX_NONCE
    ensures candidates == CandidatesOf(base.source, expected, reports)
  {
    hide SetNonce, NonceWord;
    candidates := [];
    for i := 0 to |reports|
      invariant candidates == CandidatesOf(base.source, expected, reports)[..i]
    {
      var copy := base.WithNonce(reports[i].nonce);
      candidates := candidates + [ShareCandidate(copy, reports[i].nonce, reports[i].digest, reports[i].block,
          expected)];
    }
  }

  class MiningCoordinator {
    var prepared: Option<PreparedWork>
    var generation: nat

    constructor ()
      ensures prepared == None && generation == 0
    {
      prepared, generation := None, 0;
    }

    /** Prepares the work again from the job and the worker's counter. */
    method SetJob(job: MiningJob, sub: Subscription, counter: nat, beyond: seq<byte>) returns (r: WorkResult<()>)
      requires counter < 0x1_0000_0000_0000_0000 && Hashable(job, sub) && |beyond| >= 48
      modifies this
      ensures r.Done? <==> CanPrepare(job, sub, counter)
      ensures r.Done? ==> prepared == Some(Prepared(job, sub, counter)) && generation == old(generation) + 1
      ensures r.Failed? ==> prepared == old(prepared) && generation == old(generation)
    {
      hide CanPrepare, Prepared, MaxExtranonce2;
      var p := PrepareWork(job, sub, counter, beyond);
      if p.Failed? {
        return Failed(p.error);
      }
      prepared := Some(p.value);
      generation := generation + 1;
      return Done(());
    }

    /** Scans the prepared work and hands over each share with the submission built from it. */
    method ScanRange(nonceBegin: nat, nonceEnd: nat, networkTarget: U256, shareTarget: U256, c: ScanControl)
      returns (outcome: ScanOutcome, found: seq<FoundShare>)
      ensures outcome == Rejected(NoPreparedWork) <==> prepared.None?
      ensures outcome.Rejected? <==> prepared.None? || nonceBegin > nonceEnd || nonceEnd > MAX_NONCE
      ensures outcome.Rejected? ==> found == []
      ensures outcome.Scanned? ==>
          && StopsCorrectly(c, nonceEnd - nonceBegin + 1, outcome.result)
          && 0 <= Evaluated(outcome.result) <= nonceEnd - nonceBegin + 1
          && var rs := ReportsOf(prepared.value, Value(networkTarget), Value(shareTarget), nonceBegin,
              Evaluated(outcome.result));
             && (forall i :: 0 <= i < |rs| ==> rs[i].nonce <= MAX_NONCE)
             && found == FoundOf(prepared.value, c.expected, rs)
    {
      hide Value, ReportsOf, StopsCorrectly, NonceWord, Submission;
      found := [];
      if prepared.None? {
        return Rejected(NoPreparedWork), [];
      }
      var p := prepared.value;
      var requestGeneration := generation;
      var reports, candidates;
      outcome, reports, candidates := BackendScan(p, networkTarget, shareTarget, nonceBegin, nonceEnd, c);
      for i := 0 to |candidates|
        invariant found == FoundOf(p, c.expected, reports[..i])
      {
        if requestGeneration == generation {
          var submission := MakeShareSubmission(p, NonceWord(candidates[i].nonce));
          found := found + [FoundShare(submission, candidates[i])];
        }
      }
      assert reports[..|candidates|] == reports;
      if outcome.Rejected? {
        outcome := if nonceBegin > nonceEnd then Rejected(BeginAfterEnd) else Rejected(EndTooLarge);
      }
    }
  }

  /**
   Every share handed over carries the candidate's own nonce and coinbase: the server's
   reconstruction of its submission gives the candidate's hash, which meets the share target.
   */
  lemma FoundSharesAreGenuine(job: MiningJob, sub: Subscription, counter: nat, network: nat, share: nat, begin: nat,
                              m: nat,
                              expected: nat, i: nat)
    requires CanPrepare(job, sub, counter) && begin + m <= MAX_NONCE + 1
    requires i < |ReportsOf(Prepared(job, sub, counter), network, share, begin, m)|
    ensures var p := Prepared(job, sub, counter);
            var rs := ReportsOf(p, network, share, begin, m);
            && rs[i].nonce <= MAX_NONCE
            && FieldsValid(job, sub, Submission(p, NonceWord(rs[i].nonce)))
            && ShareHash(job, sub, Submission(p, NonceWord(rs[i].nonce))) == CandidateOf(p, expected, rs[i]).hash
            && MeetsTarget(CandidateOf(p, expected, rs[i]).hash, share)
  {
    hide CanPrepare, Prepared, NonceWord, HashOf, ShareHash, FieldsValid, MeetsTarget, ReportsOf, Submission;
    var p := Prepared(job, sub, counter);
    ReportsExact(p, network, share, begin, m);
    var n := ReportsOf(p, network, share, begin, m)[i].nonce;
    EndToEnd(job, sub, counter, NonceWord(n), Submission(p, NonceWord(n)));
  }

  // ----- chunks -----

  datatype ScanChunk = ScanChunk(begin: nat, end: nat, hashes: nat)

  const NONCE_CHUNK_SIZE: nat := 0x1_0000_0000

  /** The next chunk from a nonce: at most chunkSize nonces, never past the last one. */
  function MakeScanChunk(nonceBegin: nat, chunkSize: nat): (c: ScanChunk)
    requires nonceBegin <= MAX_NONCE && chunkSize >= 1
    ensures c.begin == nonceBegin <= c.end <= MAX_NONCE && c.end - c.begin + 1 == c.hashes <= chunkSize
    ensures c.hashes < chunkSize ==> c.end == MAX_NONCE
  {
    var remaining := (MAX_NONCE - nonceBegin) + 1;
    var hashes := if chunkSize < remaining then chunkSize else remaining;
    ScanChunk(nonceBegin, nonceBegin + hashes - 1, hashes)
  }

  datatype WorkerNextAction = AdoptNewWork | ExitThread | ContinueScanning | Throws(error: WorkError)

  /**
   Coordinator and worker agree on the work being scanned. The worker's own template may lag
   behind its nonce: only the coordinator's prepared work is hashed.
   */
  ghost predicate InStep(work: WorkState, coordinator: MiningCoordinator)
    reads work, coordinator
  {
    && work.nonce <= MAX_NONCE && work.source.counter < 0x1_0000_0000_0000_0000
    && Hashable(work.source.job, work.source.subscription)
    && CanPrepare(work.source.job, work.source.subscription, work.source.counter)
    && work.source == Prepared(work.source.job, work.source.subscription, work.source.counter)
    && coordinator.prepared == Some(work.source)
  }

  /** What the worker does when a chunk ends. */
  method HandleScanResult(stopReason: StopReason, work: WorkState, coordinator: MiningCoordinator, nonceEnd: nat,
                          beyond: seq<byte>)
    returns (action: WorkerNextAction)
    requires InStep(work, coordinator) && nonceEnd <= MAX_NONCE && |beyond| >= 48
    modifies work, coordinator
    ensures stopReason == Stale ==> action == AdoptNewWork && work.Content() == old(work.Content())
    ensures stopReason == StopRequested ==> action == ExitThread && work.Content() == old(work.Content())
    ensures stopReason == Exhausted && nonceEnd < MAX_NONCE ==>
        action == ContinueScanning && work.nonce == nonceEnd + 1 && work.source == old(work.source)
        && InStep(work, coordinator)
    ensures stopReason == Exhausted && nonceEnd == MAX_NONCE ==>
        var job, sub, next := old(work.source.job), old(work.source.subscription),
            NextCounter(old(work.source.counter));
        && (action == ContinueScanning <==> next <= MaxExtranonce2(sub.extranonce2Size))
        && (action != ContinueScanning ==>
              action == Throws(ExtranonceOverflow) && work.Content() == old(work.Content()))
        && (action == ContinueScanning ==>
              InStep(work, coordinator) && work.Content() == WorkFrom(Prepared(job, sub, next), 0))
  {
    hide Prepared, SetNonce, NonceWord, MaxExtranonce2, CoinbaseParts, ValidBranch, HexWithin, Hashable;
    if stopReason == Stale {
      return AdoptNewWork;
    }
    if stopReason == StopRequested {
      return ExitThread;
    }
    if nonceEnd == MAX_NONCE {
      var advanced := work.AdvanceExtranonce2(beyond);
      if advanced.Failed? {
        return Throws(advanced.error);
      }
      PreparedFields(old(work.source.job), old(work.source.subscription), NextCounter(old(work.source.counter)));
      var done := coordinator.SetJob(work.source.job, work.source.subscription, work.source.counter, beyond);
      return ContinueScanning;
    }
    work.nonce := nonceEnd + 1;
    return ContinueScanning;
  }
}
