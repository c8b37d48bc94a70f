/** No share is found twice under the current generation, and none is submitted twice under any. */
module MinerOnce {
  import opened Sha256
  import opened Hex
  import opened Header
  import opened Work
  import opened Scan
  import opened Mining
  import opened Stratum
  import opened Target
  import opened Walk
  import opened Miner
  import opened MinerSafety
  import opened MinerTheorems

  // ----- invariants -----

  /** Extranonce2 sizes whose counter cannot wrap. */
  ghost predicate Narrow(history: seq<PublishedWork>) {
    forall i :: 0 <= i < |history| ==> history[i].source.subscription.extranonce2Size < 8
  }

  /** The counter is not about to wrap. */
  predicate Onward(w: Worker) {
    Scanning(w) ==> w.r.nonce < MAX_NONCE || w.r.prepared.counter + 1 < 0x1_0000_0000_0000_0000
  }

  /** Where in the search space the share lies. */
  function Place(x: FoundShare): nat {
    Position(x.candidate.work.source.counter, x.candidate.nonce).Linear()
  }

  /** Everything the worker has counted lies below this. */
  function Limit(w: Worker): nat
    requires Scanning(w)
  {
    Position(w.r.prepared.counter, w.r.nonce).Linear() + if w.Pushing? then 1 else 0
  }

  ghost predicate FoundOnce(found: multiset<FoundShare>, g: nat) {
    forall x :: x in found && x.candidate.generation == g ==> found[x] == 1
  }

  ghost predicate NoneOf(found: multiset<FoundShare>, g: nat) {
    forall x :: x in found ==> x.candidate.generation != g
  }

  ghost predicate Below(found: multiset<FoundShare>, g: nat, limit: nat) {
    forall x :: x in found && x.candidate.generation == g ==> Place(x) < limit
  }

  /** The shares of the current generation lie behind a worker scanning it; no other worker is yet to find any twice. */
  ghost predicate Ahead(found: multiset<FoundShare>, g: nat, w: Worker, stop: bool) {
    if Scanning(w) && w.r.published.generation == g then Below(found, g, Limit(w))
    else if Scanning(w) || w.Looking? || (w.Waiting? && !stop) then NoneOf(found, g)
    else true
  }

  function Submitted(s: State, x: FoundShare): nat {
    s.tally.accepted[x] + s.tally.rejected[x] + if InSubmission(s.control) && s.control.share == x then 1 else 0
  }

  ghost predicate SubmittedOnce(s: State) {
    forall x :: Submitted(s, x) <= 1
  }

  ghost predicate OnceInv(s: State) {
    FoundOnce(s.tally.found, s.generation) && Ahead(s.tally.found, s.generation, s.worker, s.stopWorker)
        && SubmittedOnce(s)
  }

  // ----- the worker -----

  /** Unless the counter wraps, the next nonce is also the next place. */
  lemma NextPlace(w: Worker)
    requires Scanning(w) && Onward(w) && w.r.end == MAX_NONCE
    ensures Scanning(AfterNonce(w.r)) ==>
        Limit(AfterNonce(w.r)) == Position(w.r.prepared.counter, w.r.nonce).Linear() + 1
        && AfterNonce(w.r).r.published == w.r.published
  {
    hide Prepare;
    PrepareFields(w.r.prepared.job, w.r.prepared.subscription, NextCounter(w.r.prepared.counter));
  }

  /** Below size 8 the counter never comes near wrapping. */
  lemma NarrowIsOnward(s: State)
    requires WorkerInv(s) && Narrow(s.history)
    ensures Onward(s.worker)
  {
    hide Prepared, WellFormed, MaxExtranonce2, ShareAt, MeetsShareTarget;
    if Scanning(s.worker) {
      MaxBounds(s.worker.r.published.source.subscription.extranonce2Size);
    }
  }

  lemma AheadMonotone(found: multiset<FoundShare>, g: nat, limit: nat, limit': nat)
    requires Below(found, g, limit) && limit <= limit'
    ensures Below(found, g, limit')
  {
    hide Place;
  }

  lemma NewFound(found: multiset<FoundShare>, g: nat, x: FoundShare)
    requires FoundOnce(found, g)
    ensures x.candidate.generation != g ==> FoundOnce(found + multiset{x}, g)
    ensures x.candidate.generation != g && NoneOf(found, g) ==> NoneOf(found + multiset{x}, g)
    ensures x.candidate.generation == g && Below(found, g, Place(x)) ==>
        FoundOnce(found + multiset{x}, g) && Below(found + multiset{x}, g, Place(x) + 1)
  {
    hide Place;
  }

  /** A worker on the current generation is never sent away from it, except to stop. */
  lemma WorkerAhead(s: State)
    requires Inv(s) && Onward(s.worker) && OnceInv(s)
    ensures var t := WorkerStep(s);
            FoundOnce(t.tally.found, t.generation) && Ahead(t.tally.found, t.generation, t.worker, t.stopWorker)
  {
    if s.worker.Counting? {
      CountingAhead(s);
    } else if s.worker.Checking? || s.worker.Pushing? {
      NonceAhead(s);
    } else if s.worker.Looking? {
      LookingAhead(s);
    } else {
      OtherAhead(s);
    }
  }

  lemma CountingAhead(s: State)
    requires WorkerInv(s) && OnceInv(s) && s.worker.Counting?
    ensures var t := WorkerStep(s);
            FoundOnce(t.tally.found, t.generation) && Ahead(t.tally.found, t.generation, t.worker, t.stopWorker)
  {
    hide Prepare, ShareAt, MeetsShareTarget, AfterNonce, Adopt, FoundOnce, NoneOf, Below, SubmittedOnce,
         Position.Linear;
    var r := s.worker.r;
    ShareAtIsEarned(r.published, r.prepared, r.nonce);
    NewFound(s.tally.found, s.generation, s.worker.share);
  }

  lemma NonceAhead(s: State)
    requires WorkerInv(s) && Onward(s.worker) && OnceInv(s) && (s.worker.Checking? || s.worker.Pushing?)
    ensures var t := WorkerStep(s);
            FoundOnce(t.tally.found, t.generation) && Ahead(t.tally.found, t.generation, t.worker, t.stopWorker)
  {
    hide Prepare, ShareAt, MeetsShareTarget, AfterNonce, Adopt, FoundOnce, NoneOf, Below, SubmittedOnce,
         Position.Linear;
    NextPlace(s.worker);
    var found, g, limit := s.tally.found, s.generation, Limit(s.worker);
    if Below(found, g, limit) {
      AheadMonotone(found, g, limit, Position(s.worker.r.prepared.counter, s.worker.r.nonce).Linear() + 1);
    }
  }

  lemma LookingAhead(s: State)
    requires OnceInv(s) && s.worker.Looking?
    ensures var t := WorkerStep(s);
            FoundOnce(t.tally.found, t.generation) && Ahead(t.tally.found, t.generation, t.worker, t.stopWorker)
  {
    hide Prepare, FoundOnce, SubmittedOnce, Place, Limit;
  }

  lemma OtherAhead(s: State)
    requires OnceInv(s) && !s.worker.Looking? && !s.worker.Counting? && !s.worker.Checking? && !s.worker.Pushing?
    ensures var t := WorkerStep(s);
            FoundOnce(t.tally.found, t.generation) && Ahead(t.tally.found, t.generation, t.worker, t.stopWorker)
  {
    hide FoundOnce, NoneOf, Below, SubmittedOnce, Position.Linear, AfterNonce, Adopt, ShareAt, MeetsShareTarget;
  }

  // ----- the control thread -----

  /** A new generation has no share yet, and no worker on it. */
  lemma NewGenerationAhead(s: State, t: State)
    requires SlotInv(s) && WorkerInv(s) && FoundInv(s) && OnceInv(s)
    requires t.tally.found == s.tally.found && t.worker == s.worker && t.generation == s.generation + 1
    ensures FoundOnce(t.tally.found, t.generation) && Ahead(t.tally.found, t.generation, t.worker, t.stopWorker)
  {
    hide Prepare, ShareAt, MeetsShareTarget, Earned, Position.Linear;
    assert NoneOf(t.tally.found, t.generation) by {
      forall x | x in t.tally.found ensures x.candidate.generation != t.generation {
        assert EarnedIn(s.history, x);
      }
    }
  }

  lemma ControlAhead(s: State, a: Action)
    requires Inv(s) && OnceInv(s) && !a.WorkerMoves?
    ensures var t := Step(s, a);
            FoundOnce(t.tally.found, t.generation) && Ahead(t.tally.found, t.generation, t.worker, t.stopWorker)
  {
    hide Step, Limit, FoundOnce, NoneOf, Below, SubmittedOnce, HistoryInv, SlotInv, WorkerInv, Conserved, FoundInv,
         SubmitInv, LostInv;
    StepShape(s, a);
    ControlLeaves(s, a);
    if Step(s, a).generation == s.generation + 1 {
      NewGenerationAhead(s, Step(s, a));
    }
  }

  // ----- submissions -----

  /** Submissions only begin with a popped share of the current generation. */
  lemma SubmittedShape(s: State, input: Input, x: FoundShare)
    ensures var t := ControlStep(s, input);
            Submitted(t, x) <= Submitted(s, x)
            || (s.control == Popped(x) && x.candidate.generation == s.generation
                && Submitted(t, x) == Submitted(s, x) + 1)
  {
    hide StartupRead, PrepareToPublish, TryPop, CheckPopped, AwaitAnswer, CountAnswer, Poll, WaitPop, LookAtHeld,
         PushBack, Submitted;
    match s.control
    case Popped(share) => CheckSubmits(s, share, x);
    case Submitting(share, id) => AwaitSubmits(s, share, id, input, x);
    case Answered(share, accepted) => AnswerSubmits(s, share, accepted, x);
    case _ => ElsewhereSubmits(s, input, x);
  }

  lemma CheckSubmits(s: State, share: FoundShare, x: FoundShare)
    requires s.control == Popped(share)
    ensures var t := CheckPopped(s, share);
            Submitted(t, x) <= Submitted(s, x)
            || (share == x && x.candidate.generation == s.generation && Submitted(t, x) == Submitted(s, x) + 1)
  {
  }

  lemma AwaitSubmits(s: State, share: FoundShare, id: int, input: Input, x: FoundShare)
    requires s.control == Submitting(share, id)
    ensures Submitted(AwaitAnswer(s, share, id, input), x) <= Submitted(s, x)
  {
    hide ApplyLine, Answers;
  }

  lemma AnswerSubmits(s: State, share: FoundShare, accepted: bool, x: FoundShare)
    requires s.control == Answered(share, accepted)
    ensures Submitted(CountAnswer(s, share, accepted), x) <= Submitted(s, x)
  {
  }

  lemma ElsewhereSubmits(s: State, input: Input, x: FoundShare)
    requires !s.control.Popped? && !InSubmission(s.control)
    ensures Submitted(ControlStep(s, input), x) <= Submitted(s, x)
  {
    NoSubmissionElsewhere(s, input);
    hide Publishable, ApplyLine, Invalidates, EmptyWork, CheckPopped, AwaitAnswer, CountAnswer;
  }

  lemma SubmittedKept(s: State, a: Action)
    requires Conserved(s) && FoundOnce(s.tally.found, s.generation) && SubmittedOnce(s)
    ensures SubmittedOnce(Step(s, a))
  {
    hide ControlStep, Submitted, FoundOnce, Conserved;
    forall x ensures Submitted(Step(s, a), x) <= 1 {
      assert Submitted(s, x) <= 1;
      if a.ControlMoves? {
        SubmittedShape(s, a.input, x);
        if s.control == Popped(x) && x.candidate.generation == s.generation {
          PoppedIsNew(s, x);
        }
      } else {
        SameSubmitted(s, a, x);
      }
    }
  }

  lemma SameSubmitted(s: State, a: Action, x: FoundShare)
    requires !a.ControlMoves?
    ensures Submitted(Step(s, a), x) == Submitted(s, x)
  {
    hide NextWorker;
  }

  lemma PoppedIsNew(s: State, x: FoundShare)
    requires Conserved(s) && FoundOnce(s.tally.found, s.generation)
    requires s.control == Popped(x) && x.candidate.generation == s.generation
    ensures Submitted(s, x) == 0
  {
    hide Pending;
    assert s.tally.found[x] == Placed(s, x);
  }

  lemma OnceKept(s: State, a: Action)
    requires Inv(s) && Onward(s.worker) && OnceInv(s)
    ensures OnceInv(Step(s, a))
  {
    hide Step, WorkerStep, ControlStep, Ahead, FoundOnce, SubmittedOnce, Onward, Inv;
    SubmittedFollows(s, a);
    if a.WorkerMoves? {
      WorkerMovesStep(s);
      WorkerAhead(s);
    } else {
      ControlAhead(s, a);
    }
  }

  lemma SubmittedFollows(s: State, a: Action)
    requires Inv(s) && OnceInv(s)
    ensures SubmittedOnce(Step(s, a))
  {
    hide Step, HistoryInv, SlotInv, WorkerInv, Conserved, FoundInv, SubmitInv, LostInv, Ahead, FoundOnce, SubmittedOnce;
    SubmittedKept(s, a);
  }

  /** How far the worker is in its work: never further than the steps taken. */
  function Progress(w: Worker): nat {
    if Scanning(w) then Position(w.r.prepared.counter, w.r.nonce).Linear() else 0
  }

  lemma ProgressStep(s: State, a: Action)
    requires Inv(s)
    ensures Progress(Step(s, a).worker) <= Progress(s.worker) + 1
  {
    hide ControlStep, WorkerStep, Progress, Inv;
    if a.WorkerMoves? {
      WorkerProgress(s);
    } else {
      ControlLeaves(s, a);
    }
  }

  lemma WorkerProgress(s: State)
    requires Inv(s)
    ensures Progress(WorkerStep(s).worker) <= Progress(s.worker) + 1
  {
    hide Prepare, ShareAt, MeetsShareTarget, AfterNonce, Adopt, HistoryInv, SlotInv, Conserved, FoundInv, SubmitInv,
         LostInv;
    if s.worker.Checking? || s.worker.Pushing? {
      NonceProgress(s.worker.r);
    }
    if s.worker.Looking? && s.slot.Some? {
      SlotStartsAtZero(s);
      AdoptProgress(s.slot.value);
    }
  }

  lemma SlotStartsAtZero(s: State)
    requires HistoryInv(s) && SlotInv(s) && s.slot.Some?
    ensures s.slot.value.source.counter == 0
  {
    hide Prepare, TargetFor, NetworkTarget;
    var source := s.slot.value.source;
    assert WellPublished(s.slot.value, s.slot.value.generation);
    PrepareFields(source.job, source.subscription, 0);
  }

  lemma NonceProgress(r: Registers)
    requires r.end == MAX_NONCE
    ensures var next := AfterNonce(r);
            Progress(next) <= Position(r.prepared.counter, r.nonce).Linear() + 1
  {
    hide Prepare;
    PrepareFields(r.prepared.job, r.prepared.subscription, NextCounter(r.prepared.counter));
  }

  lemma AdoptProgress(pub: PublishedWork)
    requires pub.source.counter == 0
    ensures Progress(Adopt(pub)) == 0
  {
    hide Prepare;
    PrepareFields(pub.source.job, pub.source.subscription, pub.source.counter);
  }

  lemma {:induction false} ProgressReachable(actions: seq<Action>)
    ensures Progress(Run(INITIAL, actions).worker) <= |actions|
  {
    hide Step, Inv;
    if actions != [] {
      var before := actions[..|actions| - 1];
      ProgressReachable(before);
      Reachable(before);
      ProgressStep(Run(INITIAL, before), actions[|actions| - 1]);
    }
  }

  lemma ShortIsOnward(w: Worker)
    requires Progress(w) < PAIRS - 1
    ensures Onward(w)
  {
  }

  lemma {:induction false} OnceReachable(actions: seq<Action>)
    requires Narrow(Run(INITIAL, actions).history) || |actions| < PAIRS
    ensures OnceInv(Run(INITIAL, actions))
  {
    hide Step, Inv, OnceInv, Onward, Progress, WorkerInv;
    if actions != [] {
      var before, a := actions[..|actions| - 1], actions[|actions| - 1];
      Reachable(before);
      InvKept(Run(INITIAL, before), a);
      OnceReachable(before);
      ProgressReachable(before);
      if |actions| < PAIRS {
        ShortIsOnward(Run(INITIAL, before).worker);
      } else {
        InvWorker(Run(INITIAL, before));
        NarrowIsOnward(Run(INITIAL, before));
      }
      OnceKept(Run(INITIAL, before), a);
    } else {
      InitialOnce();
    }
  }

  lemma InvWorker(s: State)
    requires Inv(s)
    ensures WorkerInv(s)
  {
    hide WorkerInv, HistoryInv, SlotInv, Conserved, FoundInv, SubmitInv, LostInv;
  }

  lemma InitialOnce()
    ensures OnceInv(INITIAL)
  {
  }

  /**
   No share is submitted twice: in any run with extranonce2 sizes below 8, and at size 8 in any run
   of fewer than 2^96 steps, before which its counter cannot have wrapped. This holds although a
   worker sent away in the middle of a publish adopts the old work again and finds its shares again.
   */
  lemma SubmittedAtMostOnce(actions: seq<Action>, x: FoundShare)
    requires Narrow(Run(INITIAL, actions).history) || |actions| < 0x1_0000_0000_0000_0000_0000_0000
    ensures Submitted(Run(INITIAL, actions), x) <= 1
  {
    hide Run, FoundOnce, Ahead, Submitted;
    OnceReachable(actions);
  }

  /** Nor are the same strings submitted twice for one generation: equal strings are equal shares. */
  lemma EqualSubmissionsAreOne(actions: seq<Action>, x: FoundShare, y: FoundShare)
    requires var s := Run(INITIAL, actions); Submitted(s, x) > 0 && Submitted(s, y) > 0
    requires x.candidate.generation == y.candidate.generation && x.submission == y.submission
    ensures x == y
  {
    hide Run, Earned, HistoryInv, SlotInv, WorkerInv, SubmitInv, LostInv, Pending;
    Reachable(actions);
    var s := Run(INITIAL, actions);
    assert Placed(s, x) >= Submitted(s, x) && Placed(s, y) >= Submitted(s, y);
    PlacedIsFound(s, x);
    PlacedIsFound(s, y);
    SameStringsSameShare(s.history[x.candidate.generation - 1], x, y);
  }

  lemma SameStringsSameShare(pub: PublishedWork, x: FoundShare, y: FoundShare)
    requires Earned(pub, x) && Earned(pub, y) && x.submission == y.submission
    ensures x == y
  {
    hide Prepared, MaxExtranonce2, ExtranonceHex, MeetsTarget, DigestAt, SetNonce, NonceWord, WellFormed, HexOf,
         WriteBe32;
    var job, sub := pub.source.job, pub.source.subscription;
    var p, q := x.candidate.work.source, y.candidate.work.source;
    PreparedFields(job, sub, p.counter);
    PreparedFields(job, sub, q.counter);
    SizeOf(job, sub, p.counter);
    ExtranonceInjective(p.counter, q.counter, sub.extranonce2Size);
    SameNonceText(x.candidate.nonce, y.candidate.nonce);
  }

  lemma SizeOf(job: MiningJob, sub: Subscription, counter: nat)
    requires CanPrepare(job, sub, counter)
    ensures sub.extranonce2Size <= 8
  {
    hide CoinbaseParts, ValidBranch, HexWithin, MaxExtranonce2;
  }

  lemma SameNonceText(n: nat, m: nat)
    requires n <= MAX_NONCE && m <= MAX_NONCE && HexOf(WriteBe32(NonceWord(n))) == HexOf(WriteBe32(NonceWord(m)))
    ensures n == m
  {
    hide HexOf, WriteBe32, ReadBe32, NonceWord;
    HexOfInjective(WriteBe32(NonceWord(n)), WriteBe32(NonceWord(m)));
    ReadWrite(NonceWord(n));
    ReadWrite(NonceWord(m));
    NonceWordInjective(n, m);
  }
}
