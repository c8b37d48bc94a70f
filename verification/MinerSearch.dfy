/** The worker's steps as a search: they are the scan, and they miss nothing. */
module MinerSearch {
  import opened Work
  import opened Scan
  import opened Mining
  import opened Target
  import opened Walk
  import opened Miner
  import opened MinerSafety
  import opened MinerOnce

  // ----- runs -----

  lemma {:induction false} RunConcat(s: State, a: seq<Action>, b: seq<Action>)
    ensures Run(s, a + b) == Run(Run(s, a), b)
  {
    hide Step;
    if b == [] {
      assert a + b == a;
    } else {
      RunConcat(s, a, b[..|b| - 1]);
      assert (a + b)[..|a + b| - 1] == a + b[..|b| - 1];
    }
  }

  function Works(k: nat): seq<Action> {
    seq(k, _ => WorkerMoves)
  }

  lemma WorksSplit(s: State, j: nat, k: nat)
    ensures Run(s, Works(j + k)) == Run(Run(s, Works(j)), Works(k))
  {
    hide Run;
    RunConcat(s, Works(j), Works(k));
    assert Works(j + k) == Works(j) + Works(k);
  }

  lemma WorksOnce(s: State)
    ensures Run(s, Works(0)) == s && Run(s, Works(1)) == WorkerStep(s)
  {
    hide Step, WorkerStep;
    WorkerMovesStep(s);
    assert Works(1)[..0] == [];
  }

  // ----- the worker's steps are the scan -----

  lemma FoundOfAppend(p: PreparedWork, g: nat, rs: seq<Report>, r: Report)
    requires (forall i :: 0 <= i < |rs| ==> rs[i].nonce <= MAX_NONCE) && r.nonce <= MAX_NONCE
    ensures FoundOf(p, g, rs + [r])
        == FoundOf(p, g, rs) + [FoundShare(Submission(p, NonceWord(r.nonce)), CandidateOf(p, g, r))]
  {
    hide Submission, NonceWord, CandidateOf;
  }

  predicate NoncesFit(rs: seq<Report>) {
    forall i :: 0 <= i < |rs| ==> rs[i].nonce <= MAX_NONCE
  }

  lemma ReportNonces(p: PreparedWork, network: nat, share: nat, begin: nat, m: nat)
    requires begin + m <= MAX_NONCE + 1
    ensures NoncesFit(ReportsOf(p, network, share, begin, m))
  {
    ReportsExact(p, network, share, begin, m);
    hide ReportsOf, MeetsTarget, DigestAt;
  }

  /** The state after the worker has moved on and found some shares on the way. */
  function Advanced(s: State, w: Worker, found: seq<FoundShare>): State {
    s.(worker := w, queue := s.queue + found, tally := s.tally.(found := s.tally.found + multiset(found)))
  }

  /** The share that hashing a nonce yields, if any. */
  function SharesOf(pub: PublishedWork, p: PreparedWork, nonce: Nonce): seq<FoundShare> {
    if MeetsShareTarget(pub, p, nonce) then [ShareAt(pub, p, nonce)] else []
  }

  /** The steps for one nonce that is not found stale. */
  lemma WorkNonce(s: State) returns (k: nat)
    requires s.worker.Hashing? && !s.stopWorker
    requires var r := s.worker.r; (r.done + 1) % CHECK_INTERVAL != 0 || s.generation == r.published.generation
    ensures var r := s.worker.r;
            Run(s, Works(k)) == Advanced(s, AfterNonce(r.(done := r.done + 1)), SharesOf(r.published, r.prepared,
                r.nonce))
  {
    hide MeetsShareTarget, ShareAt, AfterNonce, Run;
    var r := s.worker.r.(done := s.worker.r.done + 1);
    WorksOnce(s);
    HashStep(s);
    var s1 := WorkerStep(s);
    WorksOnce(s1);
    WorksSplit(s, 1, 1);
    CheckStep(s1);
    var s2 := WorkerStep(s1);
    k := 2;
    if MeetsShareTarget(r.published, r.prepared, r.nonce) {
      WorksOnce(s2);
      WorksSplit(s, 2, 1);
      var s3 := WorkerStep(s2);
      WorksOnce(s3);
      WorksSplit(s, 3, 1);
      FoundSteps(s2, s);
      k := 4;
    } else {
      assert s2.queue == s.queue + [] && s2.tally.found == s.tally.found + multiset([]);
    }
  }

  lemma HashStep(s: State)
    requires s.worker.Hashing? && !s.stopWorker
    ensures WorkerStep(s) == s.(worker := Checking(s.worker.r.(done := s.worker.r.done + 1)))
  {
  }

  lemma CheckStep(s: State)
    requires s.worker.Checking?
    requires var r := s.worker.r; r.done % CHECK_INTERVAL != 0 || s.generation == r.published.generation
    ensures var r := s.worker.r;
            WorkerStep(s) == s.(worker := if MeetsShareTarget(r.published, r.prepared, r.nonce)
                                          then Counting(r, ShareAt(r.published, r.prepared,
                                              r.nonce)) else AfterNonce(r))
  {
    hide MeetsShareTarget, ShareAt, AfterNonce;
  }

  lemma FoundSteps(s: State, before: State)
    requires s.worker.Counting? && s == before.(worker := s.worker)
    ensures WorkerStep(WorkerStep(s)) == Advanced(before, AfterNonce(s.worker.r), [s.worker.share])
  {
    hide AfterNonce;
  }

  /** Where the worker is after m nonces of its chunk. */
  function WorkerAt(r: Registers, m: nat): Worker
    requires r.nonce + m <= r.end + 1
  {
    if m == 0 then Hashing(r) else AfterNonce(r.(nonce := r.nonce + m - 1, done := r.done + m))
  }

  /**
   The worker's steps through m nonces of a chunk hand over exactly what the coordinator's scan
   does, in the same order, while the work is current or the next check still ahead.
   */
  lemma {:induction false} StepsAreTheScan(s: State, m: nat) returns (k: nat)
    requires s.worker.Hashing? && !s.stopWorker && s.worker.r.nonce + m <= s.worker.r.end + 1
    requires s.generation == s.worker.r.published.generation || s.worker.r.done + m < CHECK_INTERVAL
    ensures var r := s.worker.r;
            var rs := ReportsOf(r.prepared, r.published.networkTarget, r.published.shareTarget, r.nonce, m);
            && (forall i :: 0 <= i < |rs| ==> rs[i].nonce <= MAX_NONCE)
            && Run(s, Works(k)) == Advanced(s, WorkerAt(r, m), FoundOf(r.prepared, r.published.generation, rs))
  {
    hide MeetsTarget, DigestAt, Submission, NonceWord, CandidateOf, Run, Prepare, Step, Advanced, WorkerAt, ReportsOf,
         FoundOf, SharesOf, AfterNonce, NoncesFit;
    var r := s.worker.r;
    ReportNonces(r.prepared, r.published.networkTarget, r.published.shareTarget, r.nonce, m);
    FitIs(ReportsOf(r.prepared, r.published.networkTarget, r.published.shareTarget, r.nonce, m));
    if m == 0 {
      k := 0;
      WorksOnce(s);
      NothingYet(s);
    } else {
      var j := StepsAreTheScan(s, m - 1);
      var t := Run(s, Works(j));
      LastReport(r.published, r.prepared, r.nonce, m);
      var head := FoundOf(r.prepared, r.published.generation,
                          ReportsOf(r.prepared, r.published.networkTarget, r.published.shareTarget, r.nonce, m - 1));
      StillHashing(r, m);
      AdvancedFields(s, WorkerAt(r, m - 1), head);
      var i := WorkNonce(t);
      k := j + i;
      WorksSplit(s, j, i);
      AdvancedTwice(s, t.worker, WorkerAt(r, m), head, SharesOf(r.published, r.prepared, r.nonce + m - 1));
    }
  }

  lemma FitIs(rs: seq<Report>)
    requires NoncesFit(rs)
    ensures forall i :: 0 <= i < |rs| ==> rs[i].nonce <= MAX_NONCE
  {
  }

  lemma NothingYet(s: State)
    requires s.worker.Hashing? && s.worker.r.nonce <= s.worker.r.end + 1
    ensures var r := s.worker.r;
            && ReportsOf(r.prepared, r.published.networkTarget, r.published.shareTarget, r.nonce, 0) == []
            && s == Advanced(s, WorkerAt(r, 0), FoundOf(r.prepared, r.published.generation, []))
  {
    assert s.queue + [] == s.queue && s.tally.found + multiset([]) == s.tally.found;
  }

  lemma AdvancedFields(s: State, w: Worker, found: seq<FoundShare>)
    ensures var t := Advanced(s, w, found);
            t.worker == w && t.stopWorker == s.stopWorker && t.generation == s.generation
  {
  }

  /** Between two nonces of a chunk the worker is about to hash the next one. */
  lemma StillHashing(r: Registers, m: nat)
    requires 0 < m && r.nonce + m <= r.end + 1
    ensures var next := r.(nonce := r.nonce + m - 1, done := r.done + m - 1);
            WorkerAt(r, m - 1) == Hashing(next) && WorkerAt(r, m) == AfterNonce(next.(done := next.done + 1))
  {
    hide Prepare;
  }

  lemma AdvancedTwice(s: State, w: Worker, w': Worker, a: seq<FoundShare>, b: seq<FoundShare>)
    ensures Advanced(Advanced(s, w, a), w', b) == Advanced(s, w', a + b)
  {
    assert s.queue + a + b == s.queue + (a + b);
  }

  lemma LastReport(pub: PublishedWork, p: PreparedWork, begin: nat, m: nat)
    requires 0 < m && begin + m <= MAX_NONCE + 1
    ensures var head := ReportsOf(p, pub.networkTarget, pub.shareTarget, begin, m - 1);
            var rs := ReportsOf(p, pub.networkTarget, pub.shareTarget, begin, m);
            && (forall i :: 0 <= i < |head| ==> head[i].nonce <= MAX_NONCE)
            && (forall i :: 0 <= i < |rs| ==> rs[i].nonce <= MAX_NONCE)
            && FoundOf(p, pub.generation, rs) == FoundOf(p, pub.generation, head) + SharesOf(pub, p, begin + m - 1)
  {
    hide MeetsTarget, DigestAt, Submission, NonceWord, CandidateOf;
    ReportNonces(p, pub.networkTarget, pub.shareTarget, begin, m - 1);
    ReportNonces(p, pub.networkTarget, pub.shareTarget, begin, m);
    var d := DigestAt(p, begin + m - 1);
    var head := ReportsOf(p, pub.networkTarget, pub.shareTarget, begin, m - 1);
    var last := Report(begin + m - 1, d, MeetsTarget(d, pub.networkTarget));
    FoundOfAppend(p, pub.generation, head, last);
    assert head + [] == head;
  }

  // ----- nothing is missed -----

  /** The pair can be prepared and its hash meets the share target. */
  predicate Due(pub: PublishedWork, c: nat, n: Nonce) {
    match Prepare(pub.source.job, pub.source.subscription, c)
    case None => false
    case Some(p) => MeetsShareTarget(pub, p, n)
  }

  function DueShare(pub: PublishedWork, c: nat, n: Nonce): FoundShare
    requires Due(pub, c, n)
  {
    ShareAt(pub, Prepare(pub.source.job, pub.source.subscription, c).value, n)
  }

  /** Every share due below the limit has been found. */
  ghost predicate Covered(pub: PublishedWork, found: multiset<FoundShare>, limit: nat) {
    forall c: nat, n: Nonce :: Due(pub, c, n) && Position(c, n).Linear() < limit ==> DueShare(pub, c, n) in found
  }

  ghost predicate Exhaustive(s: State) {
    Scanning(s.worker) ==> Covered(s.worker.r.published, s.tally.found, Limit(s.worker))
  }

  /** Covering one more place, when the share due there, if any, has been found too. */
  lemma CoverGrows(pub: PublishedWork, found: multiset<FoundShare>, found': multiset<FoundShare>, at: Position,
                   limit: nat)
    requires Covered(pub, found, at.Linear()) && found <= found' && at.nonce <= MAX_NONCE && limit <= at.Linear() + 1
    requires Due(pub, at.counter, at.nonce) ==> DueShare(pub, at.counter, at.nonce) in found'
    ensures Covered(pub, found', limit)
  {
    hide Due, DueShare, Position.Linear;
    forall c: nat, n: Nonce | Due(pub, c, n) && Position(c, n).Linear() < limit
      ensures DueShare(pub, c, n) in found'
    {
      LinearIsLexicographic(Position(c, n), at);
      if Position(c, n) != at {
        assert DueShare(pub, c, n) in found;
      }
    }
  }

  lemma CoverShrinks(pub: PublishedWork, found: multiset<FoundShare>, limit: nat, limit': nat)
    requires Covered(pub, found, limit) && limit' <= limit
    ensures Covered(pub, found, limit')
  {
    hide Due, DueShare, Position.Linear;
  }

  lemma ExhaustiveKept(s: State, a: Action)
    requires Inv(s) && Exhaustive(s)
    ensures Exhaustive(Step(s, a))
  {
    hide Step, WorkerStep, Inv, Covered, Limit;
    if a.WorkerMoves? {
      WorkerMovesStep(s);
      InvParts(s);
      WorkerExhaustive(s);
    } else {
      ControlLeaves(s, a);
    }
  }

  lemma InvParts(s: State)
    requires Inv(s)
    ensures HistoryInv(s) && SlotInv(s) && WorkerInv(s)
  {
    hide HistoryInv, SlotInv, WorkerInv, Conserved, FoundInv, SubmitInv, LostInv;
  }

  lemma WorkerExhaustive(s: State)
    requires HistoryInv(s) && SlotInv(s) && WorkerInv(s) && Exhaustive(s)
    ensures Exhaustive(WorkerStep(s))
  {
    hide WorkerStep, HistoryInv, SlotInv, WorkerInv, Exhaustive;
    if s.worker.Looking? {
      LookingExhaustive(s);
    } else if s.worker.Checking? {
      CheckingExhaustive(s);
    } else if s.worker.Counting? {
      CountingExhaustive(s);
    } else if s.worker.Pushing? {
      PushingExhaustive(s);
    } else {
      OtherExhaustive(s);
    }
  }

  lemma LookingExhaustive(s: State)
    requires HistoryInv(s) && SlotInv(s) && s.worker.Looking?
    ensures Exhaustive(WorkerStep(s))
  {
    hide Adopt, HistoryInv, SlotInv, Due, DueShare;
    if s.slot.Some? && Scanning(Adopt(s.slot.value)) {
      SlotStartsAtZero(s);
      AdoptProgress(s.slot.value);
      AdoptedLimit(Adopt(s.slot.value));
    }
  }

  lemma AdoptedLimit(w: Worker)
    requires !w.Pushing? && Scanning(w)
    ensures Limit(w) == Progress(w)
  {
  }

  /** The share found at the worker's own place is the one due there. */
  lemma OwnShare(s: State)
    requires WorkerInv(s) && Scanning(s.worker)
    ensures var r := s.worker.r;
            && Due(r.published, r.prepared.counter, r.nonce) == MeetsShareTarget(r.published, r.prepared, r.nonce)
            && (Due(r.published, r.prepared.counter, r.nonce) ==>
                  DueShare(r.published, r.prepared.counter, r.nonce) == ShareAt(r.published, r.prepared, r.nonce))
  {
    hide Prepare, MeetsShareTarget, ShareAt;
  }

  lemma NextCovered(s: State, found: multiset<FoundShare>)
    requires WorkerInv(s) && (s.worker.Checking? || s.worker.Pushing?)
    requires var r := s.worker.r; Covered(r.published, found, Position(r.prepared.counter, r.nonce).Linear() + 1)
    ensures var next := AfterNonce(s.worker.r); Scanning(next) ==> Covered(next.r.published, found, Limit(next))
  {
    hide Covered, AfterNonce, MeetsShareTarget, ShareAt, Prepare, Position.Linear;
    var r := s.worker.r;
    NonceProgress(r);
    SamePublished(r);
    var next := AfterNonce(r);
    if Scanning(next) {
      AdoptedLimit(next);
      CoverShrinks(r.published, found, Position(r.prepared.counter, r.nonce).Linear() + 1, Limit(next));
    }
  }

  lemma SamePublished(r: Registers)
    ensures Scanning(AfterNonce(r)) ==> AfterNonce(r).r.published == r.published
  {
    hide Prepare;
  }

  lemma CheckingExhaustive(s: State)
    requires WorkerInv(s) && Exhaustive(s) && s.worker.Checking?
    ensures Exhaustive(WorkerStep(s))
  {
    hide Covered, AfterNonce, MeetsShareTarget, ShareAt, Due, DueShare, Position.Linear, WorkerInv;
    var r := s.worker.r;
    OwnShare(s);
    if !MeetsShareTarget(r.published, r.prepared, r.nonce) {
      CoverGrows(r.published, s.tally.found, s.tally.found, Position(r.prepared.counter, r.nonce),
                 Position(r.prepared.counter, r.nonce).Linear() + 1);
      NextCovered(s, s.tally.found);
    }
  }

  lemma CountingExhaustive(s: State)
    requires WorkerInv(s) && Exhaustive(s) && s.worker.Counting?
    ensures Exhaustive(WorkerStep(s))
  {
    hide Covered, MeetsShareTarget, ShareAt, Due, DueShare, Position.Linear, Prepare;
    var r := s.worker.r;
    OwnShare(s);
    CoverGrows(r.published, s.tally.found, s.tally.found + multiset{s.worker.share}, Position(r.prepared.counter,
        r.nonce),
               Position(r.prepared.counter, r.nonce).Linear() + 1);
  }

  lemma PushingExhaustive(s: State)
    requires WorkerInv(s) && Exhaustive(s) && s.worker.Pushing?
    ensures Exhaustive(WorkerStep(s))
  {
    hide Covered, AfterNonce, Position.Linear, WorkerInv;
    NextCovered(s, s.tally.found);
  }

  lemma OtherExhaustive(s: State)
    requires Exhaustive(s) && !s.worker.Looking? && !s.worker.Checking? && !s.worker.Counting? && !s.worker.Pushing?
    ensures Exhaustive(WorkerStep(s))
  {
    hide Covered, Position.Linear;
  }

  lemma {:induction false} ExhaustiveReachable(actions: seq<Action>)
    ensures Exhaustive(Run(INITIAL, actions))
  {
    hide Step, Inv, Covered;
    if actions != [] {
      var before := actions[..|actions| - 1];
      ExhaustiveReachable(before);
      Reachable(before);
      ExhaustiveKept(Run(INITIAL, before), actions[|actions| - 1]);
    }
  }

  /**
   No share is missed: in every run, each pair the worker has passed in the work it scans, that can
   be prepared and whose hash meets the share target, has its share found; exactly once, when the
   work is the current one and no counter can have wrapped.
   */
  lemma NothingMissed(actions: seq<Action>, c: nat, n: Nonce)
    requires var s := Run(INITIAL, actions);
             Scanning(s.worker) && Due(s.worker.r.published, c, n) && Position(c, n).Linear() < Limit(s.worker)
    ensures var s := Run(INITIAL, actions);
            var share := DueShare(s.worker.r.published, c, n);
            && share in s.tally.found
            && ((Narrow(s.history) || |actions| < PAIRS) && s.worker.r.published.generation == s.generation ==>
                  s.tally.found[share] == 1)
  {
    hide Run, Due, DueShare, Limit, Position.Linear, Ahead, SubmittedOnce;
    var s := Run(INITIAL, actions);
    ExhaustiveReachable(actions);
    if Narrow(s.history) || |actions| < PAIRS {
      OnceReachable(actions);
      DueGeneration(s.worker.r.published, c, n);
    }
  }

  lemma DueGeneration(pub: PublishedWork, c: nat, n: Nonce)
    requires Due(pub, c, n)
    ensures DueShare(pub, c, n).candidate.generation == pub.generation
  {
    hide Prepare, MeetsShareTarget, DigestAt, Submission, NonceWord;
  }
}
