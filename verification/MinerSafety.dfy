/** What every interleaving of the control and worker threads keeps. */
module MinerSafety {
  import opened Wrappers
  import opened Hex
  import opened Header
  import opened Work
  import opened Target
  import opened Scan
  import opened Mining
  import opened Stratum
  import opened Miner

  // ----- invariants -----

  ghost predicate WellPublished(pub: PublishedWork, g: nat) {
    && pub.generation == g
    && Prepare(pub.source.job, pub.source.subscription, 0) == Some(pub.source)
    && TargetFor(pub.difficulty) == Some(pub.shareTarget)
    && pub.networkTarget == NetworkTarget(pub.source)
  }

  /** One work per generation. */
  ghost predicate HistoryInv(s: State) {
    && s.generation == |s.history|
    && forall i :: 0 <= i < |s.history| ==> WellPublished(s.history[i], i + 1)
  }

  function SlotGeneration(s: State): nat {
    if s.slot.None? then 0 else s.slot.value.generation
  }

  /** The slot holds the work of the current generation, or of the one before while a publish is half done. */
  ghost predicate SlotInv(s: State) {
    && SlotGeneration(s) <= |s.history| == s.generation
    && (s.slot.Some? ==> s.slot.value.generation > 0 && s.history[s.slot.value.generation - 1] == s.slot.value)
    && (s.control.Publishing? ==>
          s.generation > 0 && s.control.next == s.history[s.generation - 1] && SlotGeneration(s) == s.generation - 1)
    && (!s.control.Publishing? ==> SlotGeneration(s) == s.generation)
  }

  predicate Scanning(w: Worker) {
    w.ChunkTop? || w.Hashing? || w.Checking? || w.Counting? || w.Pushing?
  }

  /** The worker scans published work under a counter of its own, and its chunks span all the nonces. */
  ghost predicate RegistersInv(history: seq<PublishedWork>, slotGeneration: nat, w: Worker)
    requires Scanning(w)
  {
    var r := w.r;
    && 0 < r.published.generation <= slotGeneration <= |history|
    && history[r.published.generation - 1] == r.published
    && Prepare(r.published.source.job, r.published.source.subscription, r.prepared.counter) == Some(r.prepared)
    && (w.ChunkTop? ==> r.nonce == 0)
    && (!w.ChunkTop? ==> r.end == MAX_NONCE)
    && (w.Hashing? ==> r.done == r.nonce)
    && (w.Checking? || w.Counting? || w.Pushing? ==> r.done == r.nonce + 1)
    && (w.Counting? || w.Pushing? ==>
          w.share == ShareAt(r.published, r.prepared, r.nonce) && MeetsShareTarget(r.published, r.prepared, r.nonce))
  }

  ghost predicate WorkerInv(s: State) {
    Scanning(s.worker) ==> RegistersInv(s.history, SlotGeneration(s), s.worker)
  }

  /** The share was built from the work, and its hash meets the work's share target. */
  ghost predicate Earned(pub: PublishedWork, share: FoundShare) {
    var p, n := share.candidate.work.source, share.candidate.nonce;
    && n <= MAX_NONCE
    && Prepare(pub.source.job, pub.source.subscription, p.counter) == Some(p)
    && share == ShareAt(pub, p, n)
    && MeetsShareTarget(pub, p, n)
  }

  ghost predicate EarnedIn(history: seq<PublishedWork>, share: FoundShare) {
    0 < share.candidate.generation <= |history| && Earned(history[share.candidate.generation - 1], share)
  }

  /** Shares held by the control thread. */
  function Held(c: Control): multiset<FoundShare> {
    if c.Popped? || c.Submitting? || c.Answered? || c.Holding? || c.PushingBack? then multiset{c.share} else multiset{}
  }

  /** Shares counted as found but not yet pushed. */
  function Pending(w: Worker): multiset<FoundShare> {
    if w.Pushing? then multiset{w.share} else multiset{}
  }

  /** How many copies of a share the threads, the queue and the tally hold. */
  function Copies(pending: multiset<FoundShare>, queue: seq<FoundShare>, held: multiset<FoundShare>, t: Tally,
                  x: FoundShare): nat {
    pending[x] + multiset(queue)[x] + held[x] + t.stale[x] + t.accepted[x] + t.rejected[x] + t.lost[x]
  }

  function Placed(s: State, x: FoundShare): nat {
    Copies(Pending(s.worker), s.queue, Held(s.control), s.tally, x)
  }

  /** Every share found is in exactly one place. */
  ghost predicate Conserved(s: State) {
    forall x :: s.tally.found[x] == Placed(s, x)
  }

  ghost predicate FoundInv(s: State) {
    forall share :: share in s.tally.found ==> EarnedIn(s.history, share)
  }

  ghost predicate SubmitInv(s: State) {
    s.control.Submitting? || s.control.Answered? ==> s.control.share.candidate.generation == s.generation
  }

  ghost predicate LostInv(s: State) {
    forall share :: share in s.tally.lost ==> s.stopControl || s.control.ControlFailed? || EmptyWork(share)
  }

  ghost predicate Inv(s: State) {
    HistoryInv(s) && SlotInv(s) && WorkerInv(s) && Conserved(s) && FoundInv(s) && SubmitInv(s) && LostInv(s)
  }

  // ----- each is kept -----

  lemma PublishableIs(client: ClientState, g: nat)
    requires client.Ready()
    ensures Publishable(client, g).Some? ==>
        WellPublished(Publishable(client, g).value, g)
        && Publishable(client, g).value.source.job == client.job.value
        && Publishable(client, g).value.source.subscription == client.subscription.value
        && Publishable(client, g).value.difficulty == client.difficulty
  {
    hide Prepared, CanPrepare, NetworkTarget, TargetFor;
    if CanPrepare(client.job.value, client.subscription.value, 0) {
      PreparedFields(client.job.value, client.subscription.value, 0);
    }
  }

  lemma PrepareFields(job: MiningJob, sub: Subscription, counter: nat)
    ensures Prepare(job, sub, counter).Some? ==>
        var p := Prepare(job, sub, counter).value; p.job == job && p.subscription == sub && p.counter == counter
  {
    hide Prepared, CanPrepare;
    if CanPrepare(job, sub, counter) {
      PreparedFields(job, sub, counter);
    }
  }

  /** A step that publishes nothing. */
  ghost predicate Quiet(s: State, t: State) {
    && t.generation == s.generation && t.history == s.history && t.slot == s.slot
    && (t.control.Publishing? <==> s.control.Publishing?)
    && (t.control.Publishing? ==> t.control.next == s.control.next)
  }

  /** The first half of a publish. */
  ghost predicate Took(s: State, t: State) {
    && !s.control.Publishing? && t.control.Publishing?
    && t.generation == s.generation + 1 && t.history == s.history + [t.control.next] && t.slot == s.slot
    && WellPublished(t.control.next, t.generation) && t.control.next.generation == t.generation
  }

  /** The second half. */
  ghost predicate Wrote(s: State, t: State) {
    && s.control.Publishing? && !t.control.Publishing?
    && t.generation == s.generation && t.history == s.history && t.slot == Some(s.control.next)
  }

  /** Neither thread's part of the publication moves, nor the worker's own state and finds. */
  ghost predicate Calm(s: State, t: State) {
    && t.generation == s.generation && t.history == s.history && t.slot == s.slot && !t.control.Publishing?
    && t.worker == s.worker && t.tally.found == s.tally.found && t.stopWorker == s.stopWorker
        && t.stopControl == s.stopControl
  }

  lemma StartupCalm(s: State, input: Input)
    requires s.control.Starting?
    ensures Calm(s, StartupRead(s, input)) && !InSubmission(StartupRead(s, input).control)
  {
    hide ApplyLine;
  }

  lemma TryPopCalm(s: State, didWork: bool)
    requires s.control.Draining?
    ensures Calm(s, TryPop(s, didWork)) && !InSubmission(TryPop(s, didWork).control)
  {
  }

  lemma CheckCalm(s: State, share: FoundShare)
    requires s.control.Popped?
    ensures Calm(s, CheckPopped(s, share))
  {
  }

  lemma AwaitCalm(s: State, share: FoundShare, id: int, input: Input)
    requires s.control.Submitting?
    ensures Calm(s, AwaitAnswer(s, share, id, input))
  {
    hide ApplyLine, Answers;
  }

  lemma AnswerCalm(s: State, share: FoundShare, accepted: bool)
    requires s.control.Answered?
    ensures Calm(s, CountAnswer(s, share, accepted))
  {
  }

  lemma PollCalm(s: State, didWork: bool, input: Input)
    requires s.control.Polling?
    ensures Calm(s, Poll(s, didWork, input)) && !InSubmission(Poll(s, didWork, input).control)
  {
    hide ApplyLine, Invalidates;
  }

  lemma WaitPopCalm(s: State)
    requires s.control.Idle?
    ensures Calm(s, WaitPop(s)) && !InSubmission(WaitPop(s).control)
  {
  }

  lemma LookCalm(s: State, share: FoundShare)
    requires s.control.Holding?
    ensures Calm(s, LookAtHeld(s, share)) && !InSubmission(LookAtHeld(s, share).control)
  {
    hide EmptyWork;
  }

  lemma PushBackCalm(s: State, share: FoundShare)
    requires s.control.PushingBack?
    ensures Calm(s, PushBack(s, share)) && !InSubmission(PushBack(s, share).control)
  {
  }

  lemma ControlCalm(s: State, input: Input)
    requires !s.control.Preparing? && !s.control.Publishing?
    ensures Calm(s, ControlStep(s, input))
    ensures !s.control.Popped? && !InSubmission(s.control) ==> !InSubmission(ControlStep(s, input).control)
  {
    if s.control.LoopTop? || s.control.ControlExited? || s.control.ControlFailed? {
      EndsCalm(s, input);
    } else {
      ArmsCalm(s, input);
    }
  }

  lemma EndsCalm(s: State, input: Input)
    requires s.control.LoopTop? || s.control.ControlExited? || s.control.ControlFailed?
    ensures Calm(s, ControlStep(s, input)) && !InSubmission(ControlStep(s, input).control)
  {
    hide StartupRead, PrepareToPublish, TryPop, CheckPopped, AwaitAnswer, CountAnswer, Poll, WaitPop, LookAtHeld,
         PushBack;
  }

  lemma ArmsCalm(s: State, input: Input)
    requires !s.control.Preparing? && !s.control.Publishing?
    requires !s.control.LoopTop? && !s.control.ControlExited? && !s.control.ControlFailed?
    ensures Calm(s, ControlStep(s, input))
    ensures !s.control.Popped? && !InSubmission(s.control) ==> !InSubmission(ControlStep(s, input).control)
  {
    hide Calm, StartupRead, PrepareToPublish, TryPop, CheckPopped, AwaitAnswer, CountAnswer, Poll, WaitPop, LookAtHeld,
         PushBack;
    match s.control
    case Starting => StartupCalm(s, input);
    case Draining(didWork) => TryPopCalm(s, didWork);
    case Popped(share) => CheckCalm(s, share);
    case Submitting(share, id) => AwaitCalm(s, share, id, input);
    case Answered(share, accepted) => AnswerCalm(s, share, accepted);
    case Polling(didWork) => PollCalm(s, didWork, input);
    case Idle => WaitPopCalm(s);
    case Holding(share) => LookCalm(s, share);
    case PushingBack(share) => PushBackCalm(s, share);
  }

  lemma StepShape(s: State, a: Action)
    ensures Quiet(s, Step(s, a)) || Took(s, Step(s, a)) || Wrote(s, Step(s, a))
  {
    hide ControlStep, NextWorker, Took, Wrote;
    if a.ControlMoves? {
      ControlShape(s, a.input);
    }
  }

  lemma ControlShape(s: State, input: Input)
    ensures Quiet(s, ControlStep(s, input)) || Took(s, ControlStep(s, input)) || Wrote(s, ControlStep(s, input))
  {
    if s.control.Preparing? {
      PreparingStep(s, input);
      TakeShape(s);
    } else if s.control.Publishing? {
      WriteShape(s, input);
    } else {
      ControlCalm(s, input);
      CalmIsQuiet(s, ControlStep(s, input));
    }
  }

  lemma CalmIsQuiet(s: State, t: State)
    requires Calm(s, t) && !s.control.Publishing?
    ensures Quiet(s, t)
  {
  }

  lemma PreparingStep(s: State, input: Input)
    requires s.control.Preparing?
    ensures ControlStep(s, input) == PrepareToPublish(s)
  {
    hide StartupRead, PrepareToPublish, TryPop, CheckPopped, AwaitAnswer, CountAnswer, Poll, WaitPop, LookAtHeld,
         PushBack;
  }

  lemma WriteShape(s: State, input: Input)
    requires s.control.Publishing?
    ensures Wrote(s, ControlStep(s, input))
    ensures ControlStep(s, input) == s.(slot := Some(s.control.next), control := LoopTop)
  {
    hide StartupRead, PrepareToPublish, TryPop, CheckPopped, AwaitAnswer, CountAnswer, Poll, WaitPop, LookAtHeld,
         PushBack;
  }

  lemma TakeShape(s: State)
    requires s.control.Preparing?
    ensures Quiet(s, PrepareToPublish(s)) || Took(s, PrepareToPublish(s))
  {
    hide Publishable, WellPublished;
    if s.client.Ready() {
      PublishableIs(s.client, s.generation + 1);
      NextGeneration(Publishable(s.client, s.generation + 1), s.generation + 1);
    }
  }

  lemma HistoryKept(s: State, a: Action)
    requires HistoryInv(s)
    ensures HistoryInv(Step(s, a)) && s.history <= Step(s, a).history
  {
    hide Step, WellPublished;
    StepShape(s, a);
  }

  lemma SlotKept(s: State, a: Action)
    requires HistoryInv(s) && SlotInv(s)
    ensures SlotInv(Step(s, a)) && SlotGeneration(s) <= SlotGeneration(Step(s, a))
  {
    hide Step, WellPublished, HistoryInv, Quiet, Took, Wrote;
    StepShape(s, a);
    SlotFollows(s, Step(s, a));
  }

  lemma SlotFollows(s: State, t: State)
    requires HistoryInv(s) && SlotInv(s) && (Quiet(s, t) || Took(s, t) || Wrote(s, t))
    ensures SlotInv(t) && SlotGeneration(s) <= SlotGeneration(t)
  {
    hide WellPublished;
    if s.generation > 0 {
      LastGeneration(s);
    }
  }

  lemma NextGeneration(pub: Option<PublishedWork>, g: nat)
    requires pub.Some? ==> WellPublished(pub.value, g)
    ensures pub.Some? ==> pub.value.generation == g
  {
    hide Prepare, TargetFor, NetworkTarget;
  }

  lemma LastGeneration(s: State)
    requires HistoryInv(s) && s.generation > 0
    ensures s.history[s.generation - 1].generation == s.generation
  {
    hide Prepare, TargetFor, NetworkTarget;
  }

  lemma WorkerMovesStep(s: State)
    ensures Step(s, WorkerMoves) == WorkerStep(s)
  {
    hide WorkerStep, ControlStep;
  }

  lemma WorkerKept(s: State, a: Action)
    requires HistoryInv(s) && SlotInv(s) && WorkerInv(s)
    ensures WorkerInv(Step(s, a))
  {
    hide Step, WorkerStep, RegistersInv, HistoryInv, SlotInv, SlotGeneration;
    HistoryKept(s, a);
    SlotKept(s, a);
    if a.WorkerMoves? {
      WorkerMovesStep(s);
      WorkerMoveKept(s);
    } else {
      ControlLeaves(s, a);
      SlotBound(Step(s, a));
      if Scanning(s.worker) {
        RegistersStay(s.history, Step(s, a).history, SlotGeneration(s), SlotGeneration(Step(s, a)), s.worker);
      }
    }
  }

  lemma SlotBound(s: State)
    requires SlotInv(s)
    ensures SlotGeneration(s) <= |s.history|
  {
  }

  lemma RegistersStay(history: seq<PublishedWork>, history': seq<PublishedWork>, g: nat, g': nat, w: Worker)
    requires Scanning(w) && RegistersInv(history, g, w) && history <= history' && g <= g' <= |history'|
    ensures RegistersInv(history', g', w)
  {
    hide Prepare, ShareAt, MeetsShareTarget;
  }

  /** The control thread and the stop requests leave the worker's state and the found shares alone. */
  lemma ControlLeaves(s: State, a: Action)
    requires !a.WorkerMoves?
    ensures Step(s, a).worker == s.worker && Step(s, a).tally.found == s.tally.found
    ensures s.stopWorker ==> Step(s, a).stopWorker
    ensures a.ControlMoves? ==> Step(s, a).stopWorker == s.stopWorker
  {
    hide ControlStep;
    if a.ControlMoves? {
      ControlStepLeaves(s, a.input);
    }
  }

  lemma ControlStepLeaves(s: State, input: Input)
    ensures var t := ControlStep(s, input);
            t.worker == s.worker && t.tally.found == s.tally.found && t.stopWorker == s.stopWorker
  {
    hide ControlStep;
    if s.control.Preparing? {
      PreparingStep(s, input);
      TakeLeaves(s);
    } else if s.control.Publishing? {
      WriteShape(s, input);
    } else {
      ControlCalm(s, input);
    }
  }

  lemma TakeLeaves(s: State)
    ensures var t := PrepareToPublish(s);
            t.worker == s.worker && t.tally == s.tally && t.queue == s.queue && t.stopWorker == s.stopWorker
    ensures !InSubmission(s.control) ==> !InSubmission(PrepareToPublish(s).control)
  {
    hide Publishable;
  }

  lemma WorkerMoveKept(s: State)
    requires HistoryInv(s) && SlotInv(s) && WorkerInv(s)
    ensures WorkerInv(WorkerStep(s))
  {
    hide NextWorker, RegistersInv, HistoryInv, SlotInv, Adopt, AfterNonce;
    if s.worker.Looking? && s.slot.Some? {
      AdoptKept(s);
    } else if s.worker.Checking? || s.worker.Pushing? {
      AfterNonceKept(s.history, SlotGeneration(s), s.worker);
    }
    InnerKept(s.history, SlotGeneration(s), s.worker, s.stopWorker, s.generation, s.slot);
  }

  lemma InnerKept(history: seq<PublishedWork>, slotGeneration: nat, w: Worker, stop: bool, generation: nat,
                  slot: Option<PublishedWork>)
    requires Scanning(w) ==> RegistersInv(history, slotGeneration, w)
    requires w.Looking? && slot.Some? && Scanning(Adopt(slot.value))
        ==> RegistersInv(history, slotGeneration, Adopt(slot.value))
    requires (w.Checking? || w.Pushing?) && Scanning(AfterNonce(w.r))
        ==> RegistersInv(history, slotGeneration, AfterNonce(w.r))
    ensures var next := NextWorker(w, stop, generation, slot);
            Scanning(next) ==> RegistersInv(history, slotGeneration, next)
  {
    hide Prepare, ShareAt, MeetsShareTarget, Adopt, AfterNonce;
  }

  lemma AdoptKept(s: State)
    requires HistoryInv(s) && SlotInv(s) && s.slot.Some?
    ensures Scanning(Adopt(s.slot.value)) ==> RegistersInv(s.history, SlotGeneration(s), Adopt(s.slot.value))
  {
    hide Prepare, ShareAt, MeetsShareTarget, TargetFor, NetworkTarget;
    var source := s.slot.value.source;
    assert WellPublished(s.slot.value, s.slot.value.generation);
    PrepareFields(source.job, source.subscription, 0);
    PrepareFields(source.job, source.subscription, source.counter);
  }

  lemma AfterNonceKept(history: seq<PublishedWork>, slotGeneration: nat, w: Worker)
    requires w.Checking? || w.Pushing?
    requires RegistersInv(history, slotGeneration, w)
    ensures var next := AfterNonce(w.r); Scanning(next) ==> RegistersInv(history, slotGeneration, next)
  {
    hide Prepare, ShareAt, MeetsShareTarget;
    var r := w.r;
    PrepareFields(r.published.source.job, r.published.source.subscription, r.prepared.counter);
    PrepareFields(r.prepared.job, r.prepared.subscription, NextCounter(r.prepared.counter));
  }

  // ----- conservation -----

  /** Zero when the share is conserved. */
  function Balance(s: State, x: FoundShare): int {
    s.tally.found[x] - Placed(s, x)
  }

  lemma ConservedKept(s: State, a: Action)
    requires Conserved(s)
    ensures Conserved(Step(s, a))
  {
    forall x ensures Step(s, a).tally.found[x] == Placed(Step(s, a), x) {
      assert s.tally.found[x] == Placed(s, x);
      BalanceKept(s, a, x);
    }
  }

  lemma BalanceKept(s: State, a: Action, x: FoundShare)
    ensures Balance(Step(s, a), x) == Balance(s, x)
  {
    hide WorkerStep, ControlStep, Pending, Held;
    match a
    case StopControl =>
    case StopWorker =>
    case ControlMoves(input) => ControlConserves(s, input, x);
    case WorkerMoves => WorkerConserves(s, x);
  }

  lemma WorkerConserves(s: State, x: FoundShare)
    ensures Balance(WorkerStep(s), x) == Balance(s, x)
  {
    hide WorkerStep, Balance;
    if s.worker.Counting? {
      CountingConserves(s, x);
    } else if s.worker.Pushing? {
      PushingConserves(s, x);
    } else {
      OtherConserves(s, x);
    }
  }

  lemma CountingConserves(s: State, x: FoundShare)
    requires s.worker.Counting?
    ensures Balance(WorkerStep(s), x) == Balance(s, x)
  {
    hide Held;
  }

  lemma PushingConserves(s: State, x: FoundShare)
    requires s.worker.Pushing?
    ensures Balance(WorkerStep(s), x) == Balance(s, x)
  {
    hide Held, AfterNonce;
  }

  lemma OtherConserves(s: State, x: FoundShare)
    requires !s.worker.Counting? && !s.worker.Pushing?
    ensures Balance(WorkerStep(s), x) == Balance(s, x)
  {
    hide Adopt, BeginChunk, ShareAt, MeetsShareTarget, Held, AfterNonce, Copies;
  }

  /** The control thread only moves shares between the queue, its hand and the tally. */
  lemma ControlConserves(s: State, input: Input, x: FoundShare)
    ensures Balance(ControlStep(s, input), x) == Balance(s, x)
  {
    hide ControlStep, Balance, Held;
    if s.control.Popped? || s.control.Submitting? || s.control.Answered? || s.control.Holding?
        || s.control.PushingBack? {
      HandConserves(s, input, x);
    } else if s.control.Starting? || s.control.Preparing? || s.control.Polling? || s.control.Draining?
        || s.control.Idle? {
      EmptyHandConserves(s, input, x);
    } else {
      RestConserves(s, input, x);
    }
  }

  lemma HandConserves(s: State, input: Input, x: FoundShare)
    requires s.control.Popped? || s.control.Submitting? || s.control.Answered? || s.control.Holding?
        || s.control.PushingBack?
    ensures Balance(ControlStep(s, input), x) == Balance(s, x)
  {
    hide Balance, StartupRead, PrepareToPublish, TryPop, CheckPopped, AwaitAnswer, CountAnswer, Poll, WaitPop,
         LookAtHeld, PushBack;
    match s.control
    case Popped(share) => CheckConserves(s, share, x);
    case Submitting(share, id) => AwaitConserves(s, share, id, input, x);
    case Answered(share, accepted) => AnswerConserves(s, share, accepted, x);
    case Holding(share) => HoldingConserves(s, share, x);
    case PushingBack(share) => PushBackConserves(s, share, x);
  }

  lemma EmptyHandConserves(s: State, input: Input, x: FoundShare)
    requires s.control.Starting? || s.control.Preparing? || s.control.Polling? || s.control.Draining? || s.control.Idle?
    ensures Balance(ControlStep(s, input), x) == Balance(s, x)
  {
    hide Balance, StartupRead, PrepareToPublish, TryPop, CheckPopped, AwaitAnswer, CountAnswer, Poll, WaitPop,
         LookAtHeld, PushBack;
    match s.control
    case Starting => StartupConserves(s, input, x);
    case Preparing => PrepareConserves(s, x);
    case Polling(didWork) => PollConserves(s, didWork, input, x);
    case Draining(didWork) => TryPopConserves(s, didWork, x);
    case Idle => WaitPopConserves(s, x);
  }

  lemma RestConserves(s: State, input: Input, x: FoundShare)
    requires s.control.Publishing? || s.control.LoopTop? || s.control.ControlExited? || s.control.ControlFailed?
    ensures Balance(ControlStep(s, input), x) == Balance(s, x)
  {
    hide Balance, StartupRead, PrepareToPublish, TryPop, CheckPopped, AwaitAnswer, CountAnswer, Poll, WaitPop,
         LookAtHeld, PushBack;
    EmptyHanded(s, ControlStep(s, input), x);
  }

  lemma EmptyHanded(s: State, t: State, x: FoundShare)
    requires t.worker == s.worker && t.queue == s.queue && t.tally == s.tally && Held(s.control) == Held(t.control)
    ensures Balance(t, x) == Balance(s, x)
  {
  }

  lemma StartupConserves(s: State, input: Input, x: FoundShare)
    requires s.control.Starting?
    ensures Balance(StartupRead(s, input), x) == Balance(s, x)
  {
    hide Balance, ApplyLine;
    EmptyHanded(s, StartupRead(s, input), x);
  }

  lemma PrepareConserves(s: State, x: FoundShare)
    requires s.control.Preparing?
    ensures Balance(PrepareToPublish(s), x) == Balance(s, x)
  {
    hide Balance, Publishable;
    EmptyHanded(s, PrepareToPublish(s), x);
  }

  lemma PollConserves(s: State, didWork: bool, input: Input, x: FoundShare)
    requires s.control.Polling?
    ensures Balance(Poll(s, didWork, input), x) == Balance(s, x)
  {
    hide Balance, ApplyLine, Invalidates;
    EmptyHanded(s, Poll(s, didWork, input), x);
  }

  lemma TryPopConserves(s: State, didWork: bool, x: FoundShare)
    requires s.control.Draining?
    ensures Balance(TryPop(s, didWork), x) == Balance(s, x)
  {
    PopConserves(s, TryPop(s, didWork), x);
  }

  /** A pop moves the oldest share from the queue to the hand, or finds none. */
  lemma PopConserves(s: State, t: State, x: FoundShare)
    requires t.worker == s.worker && t.tally == s.tally && Held(s.control) == multiset{}
    requires if s.queue == [] then t.queue == [] && Held(t.control) == multiset{}
             else (t.queue == s.queue[1..] && Held(t.control) == multiset{s.queue[0]})
                  || (t.queue == s.queue && Held(t.control) == multiset{})
    ensures Balance(t, x) == Balance(s, x)
  {
    hide Held, Pending;
    if s.queue != [] {
      assert s.queue == [s.queue[0]] + s.queue[1..];
      assert multiset(s.queue)[x] == multiset{s.queue[0]}[x] + multiset(s.queue[1..])[x];
    }
  }

  lemma CheckConserves(s: State, share: FoundShare, x: FoundShare)
    requires s.control == Popped(share)
    ensures Balance(CheckPopped(s, share), x) == Balance(s, x)
  {
  }

  lemma AwaitConserves(s: State, share: FoundShare, id: int, input: Input, x: FoundShare)
    requires s.control == Submitting(share, id)
    ensures Balance(AwaitAnswer(s, share, id, input), x) == Balance(s, x)
  {
    hide Balance, ApplyLine, Answers;
    if input.Broken? {
      LoseConserves(s, share, x);
    } else {
      EmptyHanded(s, AwaitAnswer(s, share, id, input), x);
    }
  }

  lemma LoseConserves(s: State, share: FoundShare, x: FoundShare)
    requires s.control.Submitting? && s.control.share == share
    ensures Balance(Lose(s, share, ControlFailed), x) == Balance(s, x)
  {
    hide Pending;
  }

  lemma AnswerConserves(s: State, share: FoundShare, accepted: bool, x: FoundShare)
    requires s.control == Answered(share, accepted)
    ensures Balance(CountAnswer(s, share, accepted), x) == Balance(s, x)
  {
  }

  lemma WaitPopConserves(s: State, x: FoundShare)
    requires s.control.Idle?
    ensures Balance(WaitPop(s), x) == Balance(s, x)
  {
    PopConserves(s, WaitPop(s), x);
  }

  lemma HoldingConserves(s: State, share: FoundShare, x: FoundShare)
    requires s.control == Holding(share)
    ensures Balance(LookAtHeld(s, share), x) == Balance(s, x)
  {
    hide EmptyWork;
  }

  lemma PushBackConserves(s: State, share: FoundShare, x: FoundShare)
    requires s.control == PushingBack(share)
    ensures Balance(PushBack(s, share), x) == Balance(s, x)
  {
  }

  // ----- found, submitted and lost shares -----

  lemma ShareAtIsEarned(pub: PublishedWork, p: PreparedWork, nonce: Nonce)
    requires Prepare(pub.source.job, pub.source.subscription, p.counter) == Some(p) && MeetsShareTarget(pub, p, nonce)
    ensures ShareAt(pub, p, nonce).candidate.generation == pub.generation && Earned(pub, ShareAt(pub, p, nonce))
    ensures ShareAt(pub, p, nonce).candidate.work.source == p && ShareAt(pub, p, nonce).candidate.nonce == nonce
  {
    hide Prepare, MeetsShareTarget, MeetsTarget, DigestAt, SetNonce, NonceWord, HexOf;
  }

  lemma NewFoundIsEarned(s: State)
    requires WorkerInv(s) && s.worker.Counting?
    ensures EarnedIn(s.history, s.worker.share)
  {
    hide Earned, Prepare, ShareAt, MeetsShareTarget;
    var r := s.worker.r;
    ShareAtIsEarned(r.published, r.prepared, r.nonce);
  }

  lemma EarnedStays(history: seq<PublishedWork>, history': seq<PublishedWork>, share: FoundShare)
    requires history <= history' && EarnedIn(history, share)
    ensures EarnedIn(history', share)
  {
    hide Earned;
  }

  lemma FoundKept(s: State, a: Action)
    requires HistoryInv(s) && WorkerInv(s) && FoundInv(s)
    ensures FoundInv(Step(s, a))
  {
    hide Step, EarnedIn, HistoryInv, WorkerInv;
    HistoryKept(s, a);
    FoundGrows(s, a);
    if s.worker.Counting? {
      NewFoundIsEarned(s);
    }
    var t := Step(s, a);
    forall share | share in t.tally.found ensures EarnedIn(t.history, share) {
      EarnedStays(s.history, t.history, share);
    }
  }

  lemma FoundGrows(s: State, a: Action)
    ensures Step(s, a).tally.found
         == if a.WorkerMoves? && s.worker.Counting? then s.tally.found + multiset{s.worker.share} else s.tally.found
  {
    if !a.WorkerMoves? {
      ControlLeaves(s, a);
    }
    hide ControlStep, NextWorker;
  }

  predicate InSubmission(c: Control) {
    c.Submitting? || c.Answered?
  }

  lemma NoSubmissionElsewhere(s: State, input: Input)
    requires !s.control.Popped? && !InSubmission(s.control)
    ensures !InSubmission(ControlStep(s, input).control)
  {
    hide ControlStep;
    if s.control.Preparing? {
      PreparingStep(s, input);
      TakeLeaves(s);
    } else if s.control.Publishing? {
      WriteShape(s, input);
    } else {
      ControlCalm(s, input);
    }
  }

  /**
   A share enters its submission from the hand that checked its generation, and leaves it only when
   answered or failed.
   */
  ghost predicate SubmitStep(s: State, t: State)
    requires InSubmission(t.control)
  {
    && t.generation == s.generation
    && t.tally.accepted == s.tally.accepted && t.tally.rejected == s.tally.rejected
    && ((InSubmission(s.control) && t.control.share == s.control.share)
        || (s.control == Popped(t.control.share) && t.control.share.candidate.generation == s.generation))
  }

  lemma ControlSubmitShape(s: State, input: Input)
    ensures var t := ControlStep(s, input);
            InSubmission(t.control) ==> SubmitStep(s, t)
  {
    if !s.control.Popped? && !InSubmission(s.control) {
      NoSubmissionElsewhere(s, input);
    }
    hide ApplyLine, Answers, StartupRead, PrepareToPublish, TryPop, Poll, WaitPop, LookAtHeld, PushBack;
  }

  lemma SubmitShape(s: State, a: Action)
    ensures InSubmission(Step(s, a).control) ==> SubmitStep(s, Step(s, a))
  {
    if a.ControlMoves? {
      ControlSubmitShape(s, a.input);
    }
    hide ControlStep, NextWorker;
  }

  lemma SubmitKept(s: State, a: Action)
    requires SubmitInv(s)
    ensures SubmitInv(Step(s, a))
  {
    hide Step;
    SubmitShape(s, a);
  }

  lemma LostShape(s: State, a: Action)
    ensures var t := Step(s, a);
            && (s.stopControl ==> t.stopControl) && (s.control.ControlFailed? ==> t.control.ControlFailed?)
            && (t.tally.lost == s.tally.lost
                || (Held(s.control) != multiset{} && t.tally.lost == s.tally.lost + multiset{s.control.share}
                    && (t.stopControl || t.control.ControlFailed? || EmptyWork(s.control.share))))
  {
    hide Publishable, ApplyLine, Invalidates, Answers, EmptyWork, NextWorker;
  }

  lemma LostKept(s: State, a: Action)
    requires LostInv(s)
    ensures LostInv(Step(s, a))
  {
    hide Step, EmptyWork;
    LostShape(s, a);
  }

  lemma InvKept(s: State, a: Action)
    requires Inv(s)
    ensures Inv(Step(s, a)) && s.history <= Step(s, a).history
  {
    hide Step, HistoryInv, SlotInv, WorkerInv, Conserved, FoundInv, SubmitInv, LostInv;
    HistoryKept(s, a);
    SlotKept(s, a);
    WorkerKept(s, a);
    ConservedKept(s, a);
    FoundKept(s, a);
    SubmitKept(s, a);
    LostKept(s, a);
  }

  /** Every state that any interleaving reaches satisfies the invariants. */
  lemma {:induction false} Reachable(actions: seq<Action>)
    ensures Inv(Run(INITIAL, actions))
  {
    if actions != [] {
      hide Step, Inv;
      Reachable(actions[..|actions| - 1]);
      InvKept(Run(INITIAL, actions[..|actions| - 1]), actions[|actions| - 1]);
    } else {
      InitialInv();
    }
  }

  lemma InitialInv()
    ensures Inv(INITIAL)
  {
  }
}
