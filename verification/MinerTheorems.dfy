/** What holds of every run of the two threads: submitted shares, conservation, the staleness bound. */
module MinerTheorems {
  import opened Bytes
  import opened Uint256
  import opened Sha256
  import opened Hex
  import opened Header
  import opened Work
  import opened Scan
  import opened Mining
  import opened Target
  import opened Pool
  import opened Miner
  import opened MinerSafety

  // ----- submitted shares -----

  /** What an earned share is to the server: its submission rebuilds to its hash, which meets the target. */
  lemma EarnedMeans(pub: PublishedWork, g: nat, share: FoundShare)
    requires WellPublished(pub, g) && Earned(pub, share)
    ensures var job, sub, p := pub.source.job, pub.source.subscription, share.candidate.work.source;
            && share.submission.jobId == job.jobId && share.submission.ntimeHex == job.ntime
            && p.job == job && p.subscription == sub
            && share.submission.extranonce2Hex == p.coinbase.extranonce2Hex
            && FieldsValid(job, sub, share.submission)
            && WellFormed(job, sub)
            && ShareHash(job, sub, share.submission) == share.candidate.hash
            && NotAbove(share.candidate.hash, LeBytes(pub.shareTarget, 32))
            && (share.candidate.isBlock <==> NotAbove(share.candidate.hash, LeBytes(pub.networkTarget, 32)))
  {
    hide Prepared, CanPrepare, FieldsValid, ShareHash, HashOf, MeetsTarget, NonceWord, SetNonce, TargetFor,
         NetworkTarget, HexOf, NotAbove, LeBytes;
    TargetsFit(pub, g);
    MeetsExactly(share.candidate.hash, pub.shareTarget);
    MeetsExactly(share.candidate.hash, pub.networkTarget);
    var job, sub, p := pub.source.job, pub.source.subscription, share.candidate.work.source;
    PreparedFields(job, sub, p.counter);
    EndToEnd(job, sub, p.counter, NonceWord(share.candidate.nonce), share.submission);
    CanPrepareMeans(job, sub, p.counter);
  }

  lemma TargetsFit(pub: PublishedWork, g: nat)
    requires WellPublished(pub, g)
    ensures pub.shareTarget < MODULUS && pub.networkTarget < MODULUS
  {
    hide Prepare, CompactValue;
    NumeratorFits();
    TargetForFits(pub.difficulty);
  }

  lemma TargetForFits(difficulty: real)
    ensures TargetFor(difficulty).Some? ==> TargetFor(difficulty).value < MODULUS
  {
    hide ShareTargetValue;
    if TargetFor(difficulty).Some? {
      ShareTargetFits(Target.Round(difficulty * 4294967296.0));
    }
  }

  lemma CanPrepareMeans(job: MiningJob, sub: Subscription, counter: nat)
    requires CanPrepare(job, sub, counter)
    ensures WellFormed(job, sub)
  {
    hide WellFormed, MaxExtranonce2;
  }

  lemma PlacedIsFound(s: State, x: FoundShare)
    requires Conserved(s) && Placed(s, x) > 0
    ensures x in s.tally.found
  {
    hide Pending, Held, Copies;
    assert s.tally.found[x] == Placed(s, x);
  }

  /**
   In every interleaving, a share being submitted belongs to the work of the current generation,
   which is the one in the slot: it carries that job's id and ntime and the extranonce2 whose
   coinbase was hashed, and the server finds the same hash and sees it meet the target.
   */
  lemma SubmittedShares(actions: seq<Action>)
    requires InSubmission(Run(INITIAL, actions).control)
    ensures var s := Run(INITIAL, actions);
            var share := s.control.share;
            && share.candidate.generation == s.generation > 0
            && s.slot.Some? && s.slot.value.generation == s.generation
            && var pub := s.slot.value;
               && share.submission.jobId == pub.source.job.jobId && share.submission.ntimeHex == pub.source.job.ntime
               && share.submission.extranonce2Hex == share.candidate.work.source.coinbase.extranonce2Hex
               && WellFormed(pub.source.job, pub.source.subscription)
               && FieldsValid(pub.source.job, pub.source.subscription, share.submission)
               && ShareHash(pub.source.job, pub.source.subscription, share.submission) == share.candidate.hash
               && NotAbove(share.candidate.hash, LeBytes(pub.shareTarget, 32))
               && (share.candidate.isBlock <==> NotAbove(share.candidate.hash, LeBytes(pub.networkTarget, 32)))
  {
    hide Run, Earned, FieldsValid, ShareHash, NotAbove, LeBytes, WellPublished, WellFormed;
    var s := Run(INITIAL, actions);
    Reachable(actions);
    HeldIsFound(s);
    CurrentWork(s);
    EarnedMeans(s.slot.value, s.generation, s.control.share);
  }

  lemma HeldIsFound(s: State)
    requires Inv(s) && InSubmission(s.control)
    ensures EarnedIn(s.history, s.control.share)
  {
    hide HistoryInv, SlotInv, WorkerInv, SubmitInv, LostInv, EarnedIn, Pending;
    assert Held(s.control)[s.control.share] == 1;
    PlacedIsFound(s, s.control.share);
  }

  lemma CurrentWork(s: State)
    requires HistoryInv(s) && SlotInv(s) && SubmitInv(s) && InSubmission(s.control)
        && EarnedIn(s.history, s.control.share)
    ensures s.control.share.candidate.generation == s.generation > 0
    ensures s.slot.Some? && s.slot.value.generation == s.generation && WellPublished(s.slot.value, s.generation)
    ensures Earned(s.slot.value, s.control.share)
  {
    hide Earned, WellPublished;
  }

  /**
   The header behind an earned share: its hash is the share's, it carries the candidate's nonce, and
   the network target is the one its own nbits bytes stand for.
   */
  lemma EarnedHeader(pub: PublishedWork, g: nat, share: FoundShare)
    requires WellPublished(pub, g) && Earned(pub, share)
    ensures WellFormed(pub.source.job, pub.source.subscription) && share.candidate.nonce <= MAX_NONCE
    ensures var n := share.candidate.nonce;
            var header := HeaderBytes(HeaderFields(pub.source.job, share.candidate.work.source.merkleRoot),
                NonceWord(n));
            && share.candidate.hash == DoubleSha(header)
            && LeValue(header[76..80]) == n
            && pub.networkTarget == CompactValue(LeValue(header[72..76]))
  {
    hide Prepared, CanPrepare, HashOf, MeetsTarget, NonceWord, SetNonce, TargetFor, HexOf, HeaderBytes, CompactValue,
         IsLowerHex, BytesOfHex, DoubleSha;
    var job, sub, p := pub.source.job, pub.source.subscription, share.candidate.work.source;
    PreparedFields(job, sub, p.counter);
    PreparedFields(job, sub, 0);
    CanPrepareMeans(job, sub, p.counter);
    HashOfPrepared(job, sub, p.counter, NonceWord(share.candidate.nonce));
    LastFields(HeaderFields(job, p.merkleRoot), NonceWord(share.candidate.nonce));
    NonceValue(share.candidate.nonce);
  }

  /** Between publishes the slot holds the current generation; half way through one it is exactly one behind. */
  lemma PublishedGenerationLag(actions: seq<Action>)
    ensures var s := Run(INITIAL, actions);
            SlotGeneration(s) == s.generation - if s.control.Publishing? then 1 else 0
  {
    hide Run, HistoryInv, WorkerInv, Conserved, FoundInv, SubmitInv, LostInv;
    Reachable(actions);
  }

  // ----- conservation -----

  /** Work with nothing in it: the one kind that the idle wait does not give back. */
  predicate VacuousJob(job: MiningJob, sub: Subscription) {
    job.jobId == "" && sub.extranonce1 == "" && job.coinb1 == "" && job.coinb2 == "" && sub.extranonce2Size == 0
  }

  lemma EmptyWorkExactly(pub: PublishedWork, share: FoundShare)
    requires Earned(pub, share)
    ensures EmptyWork(share) <==> VacuousJob(pub.source.job, pub.source.subscription)
  {
    hide MeetsTarget, DigestAt, SetNonce, NonceWord, HexOf;
    var p := share.candidate.work.source;
    PrepareFields(pub.source.job, pub.source.subscription, p.counter);
    CoinbaseSize(pub.source.job, pub.source.subscription, p.counter);
  }

  lemma CoinbaseSize(job: MiningJob, sub: Subscription, counter: nat)
    requires CanPrepare(job, sub, counter)
    ensures Prepared(job, sub, counter).coinbase.bytes == [] <==>
              job.coinb1 == "" && sub.extranonce1 == "" && sub.extranonce2Size == 0 && job.coinb2 == ""
  {
    hide BytesOfHex, BeBytes, DoubleSha, NewTemplate, MerkleRoot, HeaderFields, MaxExtranonce2, FlipWords, HexOf;
    var e := ExtranonceHex(counter, sub.extranonce2Size);
    HexOfIsLowerHex(BeBytes(counter, sub.extranonce2Size));
    CoinbaseDecodes(job, sub, e);
    HexRoundTripText(CoinbaseHex(job, sub, e));
  }

  /**
   Conservation: every share counted as found is pending, queued, held, stale, accepted, rejected
   or lost, and none is lost while neither a stop request nor a failure has come and no published
   work is vacuous. So the counters agree.
   */
  lemma SharesConserved(actions: seq<Action>)
    ensures var s, t := Run(INITIAL, actions), Run(INITIAL, actions).tally;
            && t.found == Pending(s.worker) + multiset(s.queue) + Held(s.control) + t.stale + t.accepted
                + t.rejected + t.lost
            && |t.found| == |Pending(s.worker)| + |s.queue| + |Held(s.control)| + |t.stale| + |t.accepted|
                + |t.rejected| + |t.lost|
            && (!s.stopControl && !s.control.ControlFailed? && NoVacuousWork(s.history) ==> t.lost == multiset{})
  {
    hide Run, HistoryInv, SlotInv, WorkerInv, SubmitInv, EmptyWork, VacuousJob, EarnedIn, Pending, Held;
    Reachable(actions);
    var s := Run(INITIAL, actions);
    AsMultiset(s.tally, Pending(s.worker), s.queue, Held(s.control));
    if !s.stopControl && !s.control.ControlFailed? && NoVacuousWork(s.history) {
      forall x ensures x !in s.tally.lost {
        if x in s.tally.lost {
          assert Placed(s, x) >= s.tally.lost[x];
          PlacedIsFound(s, x);
          NotVacuous(s.history, x);
          assert false;
        }
      }
    }
  }

  ghost predicate NoVacuousWork(history: seq<PublishedWork>) {
    forall i :: 0 <= i < |history| ==> !VacuousJob(history[i].source.job, history[i].source.subscription)
  }

  lemma NotVacuous(history: seq<PublishedWork>, x: FoundShare)
    requires NoVacuousWork(history) && EarnedIn(history, x)
    ensures !EmptyWork(x)
  {
    hide Earned, VacuousJob, EmptyWork;
    EmptyWorkExactly(history[x.candidate.generation - 1], x);
  }

  lemma AsMultiset(t: Tally, pending: multiset<FoundShare>, queue: seq<FoundShare>, held: multiset<FoundShare>)
    requires forall x :: t.found[x] == Copies(pending, queue, held, t, x)
    ensures t.found == pending + multiset(queue) + held + t.stale + t.accepted + t.rejected + t.lost
  {
    var all := pending + multiset(queue) + held + t.stale + t.accepted + t.rejected + t.lost;
    forall x ensures t.found[x] == all[x] {
      assert t.found[x] == Copies(pending, queue, held, t, x);
    }
  }

  /** Exactly when a share that the idle wait took out is not put back. */
  lemma IdleLosesExactly(actions: seq<Action>, input: Input)
    requires Run(INITIAL, actions).control.Holding?
    ensures var s := Run(INITIAL, actions);
            var share := s.control.share;
            && 0 < share.candidate.generation <= |s.history|
            && var pub := s.history[share.candidate.generation - 1];
               Step(s, ControlMoves(input)).control.PushingBack? <==>
                 !s.stopControl && !VacuousJob(pub.source.job, pub.source.subscription)
  {
    hide Run, HistoryInv, SlotInv, WorkerInv, SubmitInv, LostInv, EmptyWork, VacuousJob, Earned, Pending;
    Reachable(actions);
    var s := Run(INITIAL, actions);
    assert Held(s.control)[s.control.share] == 1;
    PlacedIsFound(s, s.control.share);
    EmptyWorkExactly(s.history[s.control.share.candidate.generation - 1], s.control.share);
  }

  /** Vacuous work can be prepared, so the exception is a real one. */
  lemma VacuousWorkExists()
    ensures var zeros := seq(64, _ => '0');
            var job, sub := MiningJob("", zeros, "", "", [], zeros[..8], zeros[..8], zeros[..8], false),
                Subscription("", 0);
            VacuousJob(job, sub) && CanPrepare(job, sub, 0)
  {
  }

  // ----- staleness -----

  /** The worker is busy with work older than a generation. */
  predicate Behind(s: State, g: nat) {
    Scanning(s.worker) && s.worker.r.published.generation < g
  }

  /** The step hashes a nonce of work older than a generation. */
  predicate HashesOld(s: State, a: Action, g: nat) {
    a.WorkerMoves? && s.worker.Hashing? && !s.stopWorker && Behind(s, g)
  }

  /** How many nonces of work older than a generation a run hashes. */
  function OldHashes(s: State, actions: seq<Action>, g: nat): nat {
    if actions == [] then 0
    else
      var before := actions[..|actions| - 1];
      OldHashes(s, before, g) + if HashesOld(Run(s, before), actions[|actions| - 1], g) then 1 else 0
  }

  /** How many more hashes on older work are left before the generation is looked at again. */
  function Remaining(w: Worker, g: nat): nat {
    if !Scanning(w) || w.r.published.generation >= g then 0
    else if w.ChunkTop? then CHECK_INTERVAL
    else if w.Checking? && w.r.done % CHECK_INTERVAL == 0 then 0
    else CHECK_INTERVAL - w.r.done % CHECK_INTERVAL
  }

  lemma RemainingAfterWork(s: State, g: nat)
    requires HistoryInv(s) && SlotInv(s) && WorkerInv(s) && SlotGeneration(s) >= g
    ensures Remaining(WorkerStep(s).worker, g) + (if HashesOld(s, WorkerMoves,
        g) then 1 else 0) <= Remaining(s.worker, g)
  {
    hide Prepare, ShareAt, MeetsShareTarget, WellPublished;
  }

  lemma RemainingKept(s: State, a: Action, g: nat)
    requires Inv(s) && SlotGeneration(s) >= g
    ensures Remaining(Step(s, a).worker, g) + (if HashesOld(s, a, g) then 1 else 0) <= Remaining(s.worker, g)
    ensures SlotGeneration(Step(s, a)) >= g
  {
    SlotKept(s, a);
    if a.WorkerMoves? {
      RemainingAfterWork(s, g);
    } else {
      ControlLeaves(s, a);
    }
    hide ControlStep, NextWorker, Remaining, WorkerInv, SlotInv, HistoryInv;
  }

  lemma {:induction false} StalenessFrom(s: State, actions: seq<Action>, g: nat)
    requires Inv(s) && SlotGeneration(s) >= g
    ensures Inv(Run(s, actions)) && SlotGeneration(Run(s, actions)) >= g
    ensures OldHashes(s, actions, g) + Remaining(Run(s, actions).worker, g) <= Remaining(s.worker, g)
  {
    hide Step, Inv, Remaining, HashesOld, SlotGeneration;
    if actions != [] {
      var before := actions[..|actions| - 1];
      StalenessFrom(s, before, g);
      InvKept(Run(s, before), actions[|actions| - 1]);
      RemainingKept(Run(s, before), actions[|actions| - 1], g);
    }
  }

  /**
   Once the work of generation g is in the slot, however the run goes on the worker hashes at most
   16384 more nonces of older work, over all chunks and adoptions together.
   */
  lemma StalenessBound(earlier: seq<Action>, later: seq<Action>, g: nat)
    requires SlotGeneration(Run(INITIAL, earlier)) >= g
    ensures OldHashes(Run(INITIAL, earlier), later, g) <= 16384
  {
    hide Run, Inv, OldHashes, SlotGeneration;
    Reachable(earlier);
    StalenessFrom(Run(INITIAL, earlier), later, g);
  }
}
