/**
 After a stop request each thread comes to its end: what it may still do, and in how many steps. And where each
 thread leaves its loops, exactly.
 */
module MinerStop {
  import opened Work
  import opened Scan
  import opened Mining
  import opened Stratum
  import opened Miner
  import opened MinerSafety

  // ----- runs -----

  /** How many of the actions are the worker's. */
  function WorkerMovesIn(actions: seq<Action>): nat {
    if actions == [] then 0
    else WorkerMovesIn(actions[..|actions| - 1]) + if actions[|actions| - 1].WorkerMoves? then 1 else 0
  }

  function ControlMovesIn(actions: seq<Action>): nat {
    if actions == [] then 0
    else ControlMovesIn(actions[..|actions| - 1]) + if actions[|actions| - 1].ControlMoves? then 1 else 0
  }

  /** A stop request raises its own flag and does nothing else; nothing else touches the flags. */
  lemma StopRaises(s: State, a: Action)
    ensures Step(s, a).stopWorker <==> s.stopWorker || a.StopWorker?
    ensures Step(s, a).stopControl <==> s.stopControl || a.StopControl?
    ensures a.StopWorker? || a.StopControl? ==>
            Step(s, a) == s.(stopWorker := Step(s, a).stopWorker, stopControl := Step(s, a).stopControl)
  {
    hide Publishable, ApplyLine, Invalidates, Answers, EmptyWork, NextWorker;
  }

  // ----- the worker -----

  /** The worker has hashed a nonce: only there does it go on to the check of the generation. */
  predicate HasHashed(before: Worker, after: Worker) {
    before.Hashing? && after.Checking?
  }

  predicate Ended(w: Worker) {
    w.WorkerExited? || w.WorkerFailed?
  }

  /** At most so many moves of a stopped worker are left. */
  function Left(w: Worker): nat {
    match w
    case WorkerExited => 0
    case WorkerFailed => 0
    case Waiting => 1
    case Hashing(_) => 1
    case ChunkTop(_) => 2
    case Looking => 3
    case Pushing(_, _) => 3
    case Counting(_, _) => 4
    case Checking(_) => 5
  }

  /** The share a worker is about to count. */
  function Due1(w: Worker): multiset<FoundShare> {
    match w
    case Checking(r) =>
      if MeetsShareTarget(r.published, r.prepared, r.nonce) then multiset{ShareAt(r.published, r.prepared, r.nonce)}
      else multiset{}
    case Counting(_, share) => multiset{share}
    case _ => multiset{}
  }

  lemma StoppedMove(s: State)
    requires s.stopWorker
    ensures var t := WorkerStep(s);
            && !HasHashed(s.worker, t.worker)
            && (Ended(s.worker) ==> t.worker == s.worker) && (!Ended(s.worker) ==> Left(t.worker) < Left(s.worker))
            && t.tally.found + Due1(t.worker) <= s.tally.found + Due1(s.worker)
  {
    hide Adopt, AfterNonce, BeginChunk, MeetsShareTarget, ShareAt;
  }

  lemma StoppedStep(s: State, a: Action)
    requires s.stopWorker
    ensures var t := Step(s, a);
            && !HasHashed(s.worker, t.worker)
            && Left(t.worker) + (if a.WorkerMoves? && !Ended(s.worker) then 1 else 0) <= Left(s.worker)
            && t.tally.found + Due1(t.worker) <= s.tally.found + Due1(s.worker)
  {
    hide Step, WorkerStep, Due1;
    if a.WorkerMoves? {
      WorkerMovesStep(s);
      StoppedMove(s);
    } else {
      ControlLeaves(s, a);
    }
  }

  lemma {:induction false} StoppedRun(s: State, actions: seq<Action>)
    requires s.stopWorker
    ensures var t := Run(s, actions);
            && t.stopWorker
            && t.tally.found + Due1(t.worker) <= s.tally.found + Due1(s.worker)
            && (Ended(t.worker) || Left(t.worker) + WorkerMovesIn(actions) <= Left(s.worker))
  {
    hide Step, Due1, Left;
    if actions != [] {
      var before, a := actions[..|actions| - 1], actions[|actions| - 1];
      StoppedRun(s, before);
      StopRaises(Run(s, before), a);
      StoppedStep(Run(s, before), a);
      EndedIsZero(Run(s, before).worker);
      EndedIsZero(Run(s, actions).worker);
    }
  }

  lemma EndedIsZero(w: Worker)
    ensures Ended(w) <==> Left(w) == 0
    ensures Left(w) <= 5
  {
  }

  /**
   After a stop request to the worker, in every continuation: no nonce is hashed; nothing is found
   but the one share that was being counted or checked; and once the worker has moved five times it
   has ended.
   */
  lemma StoppedWorkerEnds(s: State, actions: seq<Action>, k: nat)
    requires s.stopWorker && k < |actions|
    ensures !HasHashed(Run(s, actions[..k]).worker, Run(s, actions[..k + 1]).worker)
    ensures Run(s, actions).tally.found <= s.tally.found + Due1(s.worker) && |Due1(s.worker)| <= 1
    ensures WorkerMovesIn(actions) >= 5 ==> Ended(Run(s, actions).worker)
  {
    hide Step, Due1, Left;
    StoppedRun(s, actions);
    StoppedRun(s, actions[..k]);
    assert actions[..k + 1][..k] == actions[..k];
    StoppedStep(Run(s, actions[..k]), actions[k]);
    EndedIsZero(s.worker);
    EndedIsZero(Run(s, actions).worker);
    OneDue(s.worker);
  }

  lemma OneDue(w: Worker)
    ensures |Due1(w)| <= 1
  {
  }

  // ----- the control thread -----

  /** Taking shares out of the queue to submit them. */
  predicate InDrain(c: Control) {
    c.Draining? || c.Popped? || c.Submitting? || c.Answered?
  }

  predicate ControlEnded(c: Control) {
    c.ControlExited? || c.ControlFailed?
  }

  /** At most so many moves are left of a stopped control thread that is past its last drain. */
  function ControlLeft(c: Control): nat {
    match c
    case LoopTop => 1
    case Publishing(_) => 2
    case PushingBack(_) => 2
    case Idle => 2
    case Holding(_) => 2
    case Preparing => 3
    case Polling(_) => 4
    case _ => 0
  }

  /** No share was answered or discarded in between. */
  predicate SameOutcomes(before: Tally, after: Tally) {
    after.accepted == before.accepted && after.rejected == before.rejected && after.stale == before.stale
  }

  /** What a move of a stopped control thread past its last drain may do. */
  ghost predicate WindsDown(s: State, t: State) {
    && !InDrain(t.control) && !t.control.Starting?
    && SameOutcomes(s.tally, t.tally)
    && if ControlEnded(s.control) then t.control == s.control else ControlLeft(t.control) < ControlLeft(s.control)
  }

  lemma PollWindsDown(s: State, didWork: bool, input: Input)
    requires s.control == Polling(didWork)
    ensures WindsDown(s, Poll(s, didWork, input))
  {
    hide ApplyLine, Invalidates;
  }

  lemma PrepareWindsDown(s: State)
    requires s.control.Preparing?
    ensures WindsDown(s, PrepareToPublish(s))
  {
    hide Publishable;
  }

  lemma IdleWindsDown(s: State)
    requires s.stopControl
    ensures s.control.Idle? ==> WindsDown(s, WaitPop(s))
    ensures s.control.Holding? ==> WindsDown(s, LookAtHeld(s, s.control.share))
    ensures s.control.PushingBack? ==> WindsDown(s, PushBack(s, s.control.share))
  {
    hide EmptyWork;
  }

  lemma StoppedControlMove(s: State, input: Input)
    requires s.stopControl && !InDrain(s.control) && !s.control.Starting?
    ensures WindsDown(s, ControlStep(s, input))
  {
    hide StartupRead, PrepareToPublish, TryPop, CheckPopped, AwaitAnswer, CountAnswer, Poll, WaitPop, LookAtHeld,
         PushBack;
    IdleWindsDown(s);
    match s.control
    case Polling(didWork) => PollWindsDown(s, didWork, input);
    case Preparing => PrepareWindsDown(s);
    case _ =>
  }

  lemma StoppedControlStep(s: State, a: Action)
    requires s.stopControl && !InDrain(s.control) && !s.control.Starting?
    ensures var t := Step(s, a);
            && !InDrain(t.control) && !t.control.Starting?
            && SameOutcomes(s.tally, t.tally)
            && ControlLeft(t.control) + (if a.ControlMoves? && !ControlEnded(s.control) then 1 else 0)
               <= ControlLeft(s.control)
  {
    hide ControlStep, NextWorker;
    if a.ControlMoves? {
      StoppedControlMove(s, a.input);
    }
  }

  lemma ControlEndedIsZero(c: Control)
    requires !InDrain(c) && !c.Starting?
    ensures ControlEnded(c) <==> ControlLeft(c) == 0
    ensures ControlLeft(c) <= 4
  {
  }

  lemma {:induction false} StoppedControlRun(s: State, actions: seq<Action>)
    requires s.stopControl && !InDrain(s.control) && !s.control.Starting?
    ensures var t := Run(s, actions);
            && t.stopControl && !InDrain(t.control) && !t.control.Starting?
            && SameOutcomes(s.tally, t.tally)
            && (ControlEnded(t.control) || ControlLeft(t.control) + ControlMovesIn(actions) <= ControlLeft(s.control))
  {
    hide Step, ControlLeft;
    if actions != [] {
      var before, a := actions[..|actions| - 1], actions[|actions| - 1];
      StoppedControlRun(s, before);
      StopRaises(Run(s, before), a);
      StoppedControlStep(Run(s, before), a);
      ControlEndedIsZero(Run(s, before).control);
      ControlEndedIsZero(Run(s, actions).control);
    }
  }

  /**
   After a stop request to the control thread, once it is past the drain it was in: in every
   continuation no share is taken out for submission again, none is answered or discarded, and
   after four moves the thread has ended.
   */
  lemma StoppedControlEnds(s: State, actions: seq<Action>)
    requires s.stopControl && !InDrain(s.control) && !s.control.Starting?
    ensures var t := Run(s, actions);
            && !InDrain(t.control)
            && SameOutcomes(s.tally, t.tally)
            && (ControlMovesIn(actions) >= 4 ==> ControlEnded(t.control))
  {
    hide Run, ControlLeft;
    StoppedControlRun(s, actions);
    ControlEndedIsZero(s.control);
    ControlEndedIsZero(Run(s, actions).control);
  }

  // ----- where a reading step leads -----

  /** The idle wait follows exactly a pass that popped nothing and whose poll got no message. */
  lemma IdleExactly(s: State, input: Input)
    requires s.control.Polling?
    ensures ControlStep(s, input).control.Idle?
        <==> !s.control.didWork && !input.Broken? && (input.Received? ==> !input.line.Parsed?)
  {
    hide StartupRead, PrepareToPublish, TryPop, CheckPopped, AwaitAnswer, CountAnswer, WaitPop, LookAtHeld, PushBack,
         ApplyLine;
  }

  /** A submission ends exactly with the response to its own id, and is counted as that response says. */
  lemma AnsweredExactly(s: State, input: Input)
    requires s.control.Submitting?
    ensures var t := ControlStep(s, input).control;
            && (t.Answered? <==>
                  input.Received? && input.line.Parsed? && input.line.message.SubmitResponse?
                  && input.line.message.id == s.control.id)
            && (t.Answered? ==> t.share == s.control.share && t.accepted == input.line.message.accepted)
            && (t == s.control || t.Answered? || t.ControlFailed?)
  {
    hide StartupRead, PrepareToPublish, TryPop, CheckPopped, CountAnswer, Poll, WaitPop, LookAtHeld, PushBack,
         ApplyLine;
  }

  /** The first publish follows exactly the line that completes subscription and job. */
  lemma StartedExactly(s: State, input: Input)
    requires s.control.Starting?
    ensures var t := ControlStep(s, input);
            t.control.Preparing? <==> input.Received? && t.client.subscription.Some? && t.client.job.Some?
  {
    hide PrepareToPublish, TryPop, CheckPopped, AwaitAnswer, CountAnswer, Poll, WaitPop, LookAtHeld, PushBack,
         ApplyLine;
  }

  /** The control thread fails exactly on a broken connection while it reads, and on work that cannot be published. */
  lemma FailsExactly(s: State, input: Input)
    requires !s.control.ControlFailed?
    ensures ControlStep(s, input).control.ControlFailed? <==>
            (input.Broken? && (s.control.Starting? || s.control.Submitting? || s.control.Polling?))
            || (s.control.Preparing? && s.client.Ready() && Publishable(s.client, s.generation + 1).None?)
  {
    hide Publishable, ApplyLine, Invalidates, Answers, EmptyWork;
  }

  /** It exits exactly at the top of its loop, when stopped. */
  lemma ExitsExactly(s: State, input: Input)
    requires !s.control.ControlExited?
    ensures ControlStep(s, input).control.ControlExited? <==> s.control.LoopTop? && s.stopControl
  {
    hide Publishable, ApplyLine, Invalidates, Answers, EmptyWork;
  }

  /** It takes a generation exactly when it has work to publish; without subscription or job it goes on. */
  lemma TakesExactly(s: State, input: Input)
    ensures var t := ControlStep(s, input);
            && (t.generation != s.generation <==>
                  s.control.Preparing? && s.client.Ready() && Publishable(s.client, s.generation + 1).Some?)
            && (t.generation != s.generation ==> t.generation == s.generation + 1 && t.control.Publishing?)
            && (s.control.Preparing? && !s.client.Ready() ==> t == s.(control := LoopTop))
  {
    hide Publishable, ApplyLine, Invalidates, Answers, EmptyWork;
  }

  // ----- where the worker leaves its loops -----

  /** The worker exits exactly when it sees the stop while it waits or before a hash. */
  lemma WorkerExitsExactly(s: State)
    requires !s.worker.WorkerExited?
    ensures WorkerStep(s).worker.WorkerExited? <==> s.stopWorker && (s.worker.Waiting? || s.worker.Hashing?)
  {
    hide Adopt, AfterNonce, BeginChunk, MeetsShareTarget, ShareAt;
  }

  /**
   It goes back to wait for work exactly when nothing has been published yet, when it is stopped between chunks,
   or when it finds another generation: after every 16384 hashes of a chunk, and at no other time.
   */
  lemma WorkerWaitsExactly(s: State)
    ensures WorkerStep(s).worker.Waiting? <==>
            (s.worker.Looking? && s.slot.None?) || (s.worker.ChunkTop? && s.stopWorker)
            || (s.worker.Checking? && s.worker.r.done % 16384 == 0
                && s.generation != s.worker.r.published.generation)
  {
    hide Adopt, AfterNonce, BeginChunk, MeetsShareTarget, ShareAt;
  }

  /** It fails exactly on work that cannot be prepared: the work in the slot, or that of the next extranonce2. */
  lemma WorkerFailsExactly(s: State)
    requires !s.worker.WorkerFailed?
    ensures WorkerStep(s).worker.WorkerFailed? <==>
            match s.worker
            case Looking =>
              s.slot.Some?
              && !CanPrepare(s.slot.value.source.job, s.slot.value.source.subscription, s.slot.value.source.counter)
            case Checking(r) =>
              !(r.done % 16384 == 0 && s.generation != r.published.generation)
              && !MeetsShareTarget(r.published, r.prepared, r.nonce) && LastOfUnpreparable(r)
            case Pushing(r, _) => LastOfUnpreparable(r)
            case _ => false
  {
    hide CanPrepare, Prepared, MeetsShareTarget, ShareAt, BeginChunk;
  }

  /** All nonces of the chunk are done, it was the last one, and there is no next extranonce2. */
  predicate LastOfUnpreparable(r: Registers) {
    && r.nonce >= r.end && r.end >= MAX_NONCE
    && !CanPrepare(r.prepared.job, r.prepared.subscription, NextCounter(r.prepared.counter))
  }
}
