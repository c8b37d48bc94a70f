/** The mutable work of a scan and the nonce loop over it. */
module Scan {
  import opened BitMath
  import opened Bytes
  import opened Uint256
  import opened Fips180
  import opened Sha256
  import opened Header
  import opened Work
  import opened Target

  const MAX_NONCE: nat := 0xffff_ffff

  /** static_cast<uint32_t>(n), as the word with the four bytes of n. */
  function NonceWord(n: nat): Word
    requires n <= MAX_NONCE
  {
    ReadBe32(BeBytes(n, 4))
  }

  /** The nonce is the number of its word. */
  lemma NonceValue(n: nat)
    requires n <= MAX_NONCE
    ensures LeValue(WriteLe32(NonceWord(n))) == n
  {
    hide ReadBe32, BeBytes, WriteBe32, LeBytes, WriteLe32, LeValue;
    WriteRead(BeBytes(n, 4));
    LeIsReversedBe(NonceWord(n));
    BeBytesReversed(n, 4);
    ReversedTwice(LeBytes(n, 4));
    LeRoundTrip(n, 4);
    Pow2Values();
    SmallMod(n, Pow2(32));
  }

  lemma NonceWordInjective(n: nat, m: nat)
    requires n <= MAX_NONCE && m <= MAX_NONCE && NonceWord(n) == NonceWord(m)
    ensures n == m
  {
    hide ReadBe32, BeBytes, WriteBe32;
    WriteRead(BeBytes(n, 4));
    WriteRead(BeBytes(m, 4));
    Pow2Values();
    hide Pow2;
    BeBytesInjective(n, m, 4);
  }

  // ----- work state -----

  datatype WorkValue = WorkValue(source: PreparedWork, nonce: nat, template: Template)

  function WorkFrom(p: PreparedWork, nonce: nat): WorkValue
    requires nonce <= MAX_NONCE
  {
    WorkValue(p, nonce, SetNonce(p.template, NonceWord(nonce)))
  }

  lemma SetNonceTwice(t: Template, a: Word, b: Word)
    ensures SetNonce(SetNonce(t, a), b) == SetNonce(t, b)
  {
    hide Bswap32;
  }

  /** Job, subscription, counter, coinbase and hashes come from source; nonce and template change. */
  class WorkState {
    var source: PreparedWork
    var nonce: nat
    var template: Template

    ghost predicate Valid()
      reads this
    {
      nonce <= MAX_NONCE && Content() == WorkFrom(source, nonce)
    }

    function Content(): WorkValue
      reads this
    {
      WorkValue(source, nonce, template)
    }

    constructor FromPrepared(p: PreparedWork, n: nat)
      requires n <= MAX_NONCE
      ensures Valid() && Content() == WorkFrom(p, n)
    {
      source := p;
      nonce := n;
      template := SetNonce(p.template, NonceWord(n));
    }

    method SetNonceTo(n: nat)
      requires Valid() && n <= MAX_NONCE
      modifies this`nonce, this`template
      ensures Valid() && Content() == WorkFrom(old(source), n)
    {
      SetNonceTwice(source.template, NonceWord(nonce), NonceWord(n));
      nonce := n;
      template := SetNonce(template, NonceWord(n));
    }

    /** A copy with another nonce; the original keeps its own. */
    method WithNonce(n: nat) returns (copy: WorkValue)
      requires Valid() && n <= MAX_NONCE
      ensures copy == WorkFrom(source, n)
    {
      SetNonceTwice(source.template, NonceWord(nonce), NonceWord(n));
      copy := WorkValue(source, n, SetNonce(template, NonceWord(n)));
    }

    /** Moves on to the next extranonce2; the 64-bit counter wraps before it is checked. */
    method AdvanceExtranonce2(beyond: seq<byte>) returns (r: WorkResult<()>)
      requires Hashable(source.job, source.subscription) && |beyond| >= 48
      modifies this
      ensures r.Done? <==> CanPrepare(old(source.job), old(source.subscription), NextCounter(old(source.counter)))
      ensures r.Done? ==>
          Valid() && Content() == WorkFrom(Prepared(old(source.job), old(source.subscription),
              NextCounter(old(source.counter))), 0)
      ensures r.Failed? ==> Content() == old(Content())
      ensures r == Failed(ExtranonceOverflow) <==>
          old(source.subscription).extranonce2Size <= 8
          && NextCounter(old(source.counter)) > MaxExtranonce2(old(source.subscription).extranonce2Size)
    {
      hide CanPrepare, Prepared, MaxExtranonce2;
      var next := NextCounter(source.counter);
      var prepared := PrepareWork(source.job, source.subscription, next, beyond);
      if prepared.Failed? {
        return Failed(prepared.error);
      }
      source := prepared.value;
      nonce := 0;
      template := SetNonce(source.template, NonceWord(0));
      return Done(());
    }
  }

  /** Unsigned 64-bit increment. */
  function NextCounter(counter: nat): (n: nat)
    ensures n < 0x1_0000_0000_0000_0000
  {
    (counter + 1) % 0x1_0000_0000_0000_0000
  }

  // ----- the scan -----

  datatype StopReason = Exhausted | Stale | StopRequested

  datatype ScanResult = ScanResult(hashesDone: nat, sharesFound: nat, blocksFound: nat, stopReason: StopReason)

  datatype ScanError = BeginAfterEnd | EndTooLarge | NoPreparedWork

  datatype ScanOutcome = Scanned(result: ScanResult) | Rejected(error: ScanError)

  datatype Report = Report(nonce: nat, digest: seq<byte>, block: bool)

  /**
   What the loop observes of the other threads: the stop token and the shared generation
   counter as they read once k nonces have been hashed. No counter models the null pointer.
   */
  datatype ScanControl = ScanControl(stop: nat -> bool, watched: bool, generation: nat -> nat, expected: nat,
      interval: nat)

  /** generation_changed */
  predicate GenerationChanged(c: ScanControl, hashesDone: nat) {
    c.watched && c.interval != 0 && hashesDone % c.interval == 0 && c.generation(hashesDone) != c.expected
  }

  function DigestAt(p: PreparedWork, n: nat): (d: seq<byte>)
    requires n <= MAX_NONCE
    ensures |d| == 32
  {
    HashOf(p, NonceWord(n))
  }

  /** The reports owed for the m nonces from begin, in ascending order. */
  function ReportsOf(p: PreparedWork, network: nat, share: nat, begin: nat, m: nat): seq<Report>
    requires begin + m <= MAX_NONCE + 1
  {
    if m == 0 then []
    else
      var d := DigestAt(p, begin + m - 1);
      ReportsOf(p, network, share, begin, m - 1)
      + if MeetsTarget(d, share) then [Report(begin + m - 1, d, MeetsTarget(d, network))] else []
  }

  function BlocksOf(p: PreparedWork, network: nat, begin: nat, m: nat): nat
    requires begin + m <= MAX_NONCE + 1
  {
    if m == 0 then 0
    else BlocksOf(p, network, begin, m - 1) + if MeetsTarget(DigestAt(p, begin + m - 1), network) then 1 else 0
  }

  function FlaggedReports(reports: seq<Report>): nat {
    if reports == [] then 0
    else FlaggedReports(reports[..|reports| - 1]) + if reports[|reports| - 1].block then 1 else 0
  }

  /** Nonces whose target tests were made: all hashed ones, except the last when the scan went stale. */
  function Evaluated(r: ScanResult): int {
    if r.stopReason == Stale then r.hashesDone - 1 else r.hashesDone
  }

  /** Why and when the loop ended. */
  ghost predicate StopsCorrectly(c: ScanControl, total: nat, r: ScanResult) {
    && r.hashesDone <= total
    && (forall k :: 0 <= k < r.hashesDone ==> !c.stop(k))
    && (forall k :: 0 < k < r.hashesDone ==> !GenerationChanged(c, k))
    && match r.stopReason
       case Exhausted => r.hashesDone == total && (total > 0 ==> !GenerationChanged(c, total))
       case Stale => r.hashesDone > 0 && GenerationChanged(c, r.hashesDone)
       case StopRequested => r.hashesDone < total && c.stop(r.hashesDone)
  }

  /**
   The counter is looked at once every interval nonces and at no other time: the scan goes stale at the first
   look that finds another generation.
   */
  lemma StaleAtFirstLook(c: ScanControl, total: nat, r: ScanResult)
    requires StopsCorrectly(c, total, r)
    ensures r.stopReason == Stale ==>
            c.watched && c.interval > 0 && r.hashesDone > 0 && r.hashesDone % c.interval == 0
            && c.generation(r.hashesDone) != c.expected
    ensures forall k :: c.watched && c.interval > 0 && 0 < k < r.hashesDone && k % c.interval == 0 ==>
                c.generation(k) == c.expected
    ensures r.stopReason == Exhausted && c.watched && c.interval > 0 && total > 0 && total % c.interval == 0 ==>
                c.generation(total) == c.expected
  {
    forall k | c.watched && c.interval > 0 && 0 < k < r.hashesDone && k % c.interval == 0
      ensures c.generation(k) == c.expected
    {
      assert !GenerationChanged(c, k);
    }
  }

  method HashTemplateBytes(t: Template) returns (d: seq<byte>)
    ensures d == DigestBytes(HashTemplate(t))
  {
    hide HashTemplate, DigestBytes;
    var header := new HeaderTemplate(t);
    var words := header.HashHeaderTemplate();
    d := DigestWordsToBytesBe(words);
  }

  method ScanNonceRange(work: WorkState, networkTarget: U256, shareTarget: U256, nonceBegin: nat, nonceEnd: nat,
                        c: ScanControl)
    returns (outcome: ScanOutcome, reports: seq<Report>)
    requires work.Valid()
    modifies work`nonce, work`template
    ensures work.Valid()
    ensures outcome.Rejected? <==> nonceBegin > nonceEnd || nonceEnd > MAX_NONCE
    ensures outcome.Rejected? ==> reports == [] && work.Content() == old(work.Content())
    ensures outcome.Scanned? ==>
        var r := outcome.result;
        && StopsCorrectly(c, nonceEnd - nonceBegin + 1, r)
        && 0 <= Evaluated(r) <= nonceEnd - nonceBegin + 1
        && reports == ReportsOf(work.source, Value(networkTarget), Value(shareTarget), nonceBegin, Evaluated(r))
        && r.sharesFound == |reports|
        && r.blocksFound == BlocksOf(work.source, Value(networkTarget), nonceBegin, Evaluated(r))
        && (r.hashesDone > 0 ==> work.nonce == nonceBegin + r.hashesDone - 1)
    ensures outcome.Scanned? && Value(networkTarget) <= Value(shareTarget)
        ==> outcome.result.blocksFound == FlaggedReports(reports)
  {
    hide Value, MeetsTarget, HashTemplate, SetNonce, DigestBytes, NonceWord;
    reports := [];
    if nonceBegin > nonceEnd {
      return Rejected(BeginAfterEnd), [];
    }
    if nonceEnd > MAX_NONCE {
      return Rejected(EndTooLarge), [];
    }
    var hashesDone, sharesFound, blocksFound, stopReason := 0, 0, 0, Exhausted;
    var scanNonce := nonceBegin;
    while scanNonce <= nonceEnd
      invariant scanNonce == nonceBegin + hashesDone <= nonceEnd + 1
      invariant work.Valid() && (hashesDone > 0 ==> work.nonce == scanNonce - 1)
      invariant forall k :: 0 <= k < hashesDone ==> !c.stop(k)
      invariant forall k :: 0 < k <= hashesDone ==> !GenerationChanged(c, k)
      invariant stopReason == Exhausted
      invariant sharesFound == |reports|
      invariant reports == ReportsOf(work.source, Value(networkTarget), Value(shareTarget), nonceBegin, hashesDone)
      invariant blocksFound == BlocksOf(work.source, Value(networkTarget), nonceBegin, hashesDone)
    {
      if c.stop(hashesDone) {
        stopReason := StopRequested;
        break;
      }
      work.SetNonceTo(scanNonce);
      var digest := HashTemplateBytes(work.template);
      hashesDone := hashesDone + 1;
      if GenerationChanged(c, hashesDone) {
        stopReason := Stale;
        break;
      }
      var meetsNetwork := HashMeetsTarget(digest, networkTarget);
      var meetsShare := HashMeetsTarget(digest, shareTarget);
      if meetsNetwork {
        blocksFound := blocksFound + 1;
      }
      if meetsShare {
        sharesFound := sharesFound + 1;
        reports := reports + [Report(scanNonce, digest, meetsNetwork)];
      }
      scanNonce := scanNonce + 1;
    }
    outcome := Scanned(ScanResult(hashesDone, sharesFound, blocksFound, stopReason));
    if Value(networkTarget) <= Value(shareTarget) {
      BlocksAreFlagged(work.source, Value(networkTarget), Value(shareTarget), nonceBegin, Evaluated(outcome.result));
    }
  }

  // ----- what the reports are -----

  ghost predicate Sound(p: PreparedWork, network: nat, share: nat, begin: nat, end: nat, r: Report) {
    && begin <= r.nonce < end <= MAX_NONCE + 1
    && r.digest == DigestAt(p, r.nonce)
    && MeetsTarget(r.digest, share)
    && r.block == MeetsTarget(r.digest, network)
  }

  /** Sound reports below end, in ascending order of nonce. */
  ghost predicate Ascending(p: PreparedWork, network: nat, share: nat, begin: nat, end: nat, rs: seq<Report>) {
    && (forall i :: 0 <= i < |rs| ==> Sound(p, network, share, begin, end, rs[i]))
    && (forall i, j :: 0 <= i < j < |rs| ==> rs[i].nonce < rs[j].nonce)
  }

  lemma AscendingAppend(p: PreparedWork, network: nat, share: nat, begin: nat, end: nat, rs: seq<Report>, last: Report)
    requires Ascending(p, network, share, begin, end, rs) && end <= MAX_NONCE
    ensures Ascending(p, network, share, begin, end + 1, rs)
    ensures last.nonce == end && Sound(p, network, share, begin, end + 1, last) ==>
        Ascending(p, network, share, begin, end + 1, rs + [last])
  {
    hide MeetsTarget, DigestAt;
  }

  lemma {:induction false} ReportsSound(p: PreparedWork, network: nat, share: nat, begin: nat, m: nat)
    requires begin + m <= MAX_NONCE + 1
    ensures Ascending(p, network, share, begin, begin + m, ReportsOf(p, network, share, begin, m))
  {
    hide MeetsTarget, DigestAt;
    if m > 0 {
      ReportsSound(p, network, share, begin, m - 1);
      var head, d := ReportsOf(p, network, share, begin, m - 1), DigestAt(p, begin + m - 1);
      AscendingAppend(p, network, share, begin, begin + m - 1, head, Report(begin + m - 1, d, MeetsTarget(d, network)));
      assert head + [] == head;
    }
  }

  lemma {:induction false} Reported(p: PreparedWork, network: nat, share: nat, begin: nat, m: nat, n: nat)
    returns (i: nat)
    requires begin <= n < begin + m <= MAX_NONCE + 1 && MeetsTarget(DigestAt(p, n), share)
    ensures var rs := ReportsOf(p, network, share, begin, m); i < |rs| && rs[i].nonce == n
  {
    hide MeetsTarget, DigestAt;
    if n == begin + m - 1 {
      i := |ReportsOf(p, network, share, begin, m - 1)|;
    } else {
      i := Reported(p, network, share, begin, m - 1, n);
    }
  }

  /** Exactly the evaluated nonces that meet the share target are reported, in ascending order. */
  lemma ReportsExact(p: PreparedWork, network: nat, share: nat, begin: nat, m: nat)
    requires begin + m <= MAX_NONCE + 1
    ensures var rs := ReportsOf(p, network, share, begin, m);
            && (forall i :: 0 <= i < |rs| ==> Sound(p, network, share, begin, begin + m, rs[i]))
            && (forall i, j :: 0 <= i < j < |rs| ==> rs[i].nonce < rs[j].nonce)
            && (forall n :: begin <= n < begin + m && MeetsTarget(DigestAt(p, n), share) ==>
                  exists i :: 0 <= i < |rs| && rs[i].nonce == n)
  {
    hide MeetsTarget, DigestAt, ReportsOf;
    ReportsSound(p, network, share, begin, m);
    forall n | begin <= n < begin + m && MeetsTarget(DigestAt(p, n), share)
      ensures var rs := ReportsOf(p, network, share, begin, m); exists i :: 0 <= i < |rs| && rs[i].nonce == n
    {
      var i := Reported(p, network, share, begin, m, n);
    }
  }

  /** When the network target is not above the share target, every block found is a flagged report. */
  lemma {:induction false} BlocksAreFlagged(p: PreparedWork, network: nat, share: nat, begin: nat, m: nat)
    requires begin + m <= MAX_NONCE + 1 && network <= share
    ensures BlocksOf(p, network, begin, m) == FlaggedReports(ReportsOf(p, network, share, begin, m))
  {
    hide DigestAt, MeetsTarget, FlaggedReports;
    if m == 0 {
      NoneFlagged();
    } else {
      BlocksAreFlagged(p, network, share, begin, m - 1);
      var d := DigestAt(p, begin + m - 1);
      var head := ReportsOf(p, network, share, begin, m - 1);
      if MeetsTarget(d, network) {
        MeetsBoth(d, network, share);
      }
      FlaggedAppend(head, Report(begin + m - 1, d, MeetsTarget(d, network)));
      assert head + [] == head;
    }
  }

  lemma NoneFlagged()
    ensures FlaggedReports([]) == 0
  {
  }

  lemma MeetsBoth(d: seq<byte>, network: nat, share: nat)
    requires network <= share && MeetsTarget(d, network)
    ensures MeetsTarget(d, share)
  {
  }

  lemma FlaggedAppend(head: seq<Report>, last: Report)
    ensures FlaggedReports(head + [last]) == FlaggedReports(head) + if last.block then 1 else 0
  {
    assert (head + [last])[..|head|] == head;
  }
}
