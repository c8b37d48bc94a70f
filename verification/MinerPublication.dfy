/** When the work published last is the work of the client's state, and exactly how the two come apart. */
module MinerPublication {
  import opened Wrappers
  import opened Work
  import opened Stratum
  import opened Miner
  import opened MinerSafety

  /** The work that took the newest generation is that of the client's job, subscription and difficulty. */
  ghost predicate InTouch(s: State) {
    s.history != [] && s.client.Ready()
    && var pub := s.history[|s.history| - 1];
       && pub.source.job == s.client.job.value && pub.source.subscription == s.client.subscription.value
       && pub.difficulty == s.client.difficulty
  }

  /** The line a step of the control thread takes into the client's state. */
  function Consumed(s: State, a: Action): Option<Line> {
    match a
    case ControlMoves(Received(line)) =>
      if s.control.Starting? || s.control.Polling? then Some(line)
      else if s.control.Submitting? && !Answers(line, s.control.id) then Some(line)
      else None
    case _ => None
  }

  /**
   The steps that leave the published work behind: a line read while a share is being submitted
   that changes the client's state at all, or a new subscription read by a poll.
   */
  predicate Drift(s: State, a: Action) {
    match Consumed(s, a)
    case None => false
    case Some(line) =>
      (s.control.Submitting? && ApplyLine(s.client, line) != s.client)
      || (s.control.Polling? && ApplyLine(s.client, line).subscription != s.client.subscription)
  }

  /** A step starts a publish when a poll reads a line that invalidates the work. */
  lemma PreparingExactly(s: State, a: Action)
    requires !s.control.Starting? && !s.control.Preparing?
    ensures Step(s, a).control.Preparing? <==>
              s.control.Polling? && Consumed(s, a).Some? && Invalidates(s.client, Consumed(s, a).value)
  {
  }

  lemma ReadyStays(c: ClientState, line: Line)
    requires c.Ready()
    ensures ApplyLine(c, line).Ready()
  {
  }

  function ClientAfter(s: State, a: Action): ClientState {
    match Consumed(s, a)
    case None => s.client
    case Some(line) => ApplyLine(s.client, line)
  }

  /** Only the lines consumed change the client's state, and only a take adds to the history. */
  lemma ClientFollows(s: State, a: Action)
    ensures Step(s, a).client == ClientAfter(s, a)
    ensures !s.control.Preparing? ==> Step(s, a).history == s.history
  {
    hide ControlStep, WorkerStep, ApplyLine, Answers;
    if a.ControlMoves? {
      ControlClient(s, a.input);
    } else if a.WorkerMoves? {
      WorkerMovesStep(s);
      WorkerClient(s);
    }
  }

  lemma WorkerClient(s: State)
    ensures WorkerStep(s).client == s.client && WorkerStep(s).history == s.history && WorkerStep(s).control == s.control
  {
    hide NextWorker;
  }

  lemma ControlClient(s: State, input: Input)
    ensures var t := ControlStep(s, input);
            && t.client == ClientAfter(s, ControlMoves(input))
            && (!s.control.Preparing? ==> t.history == s.history)
  {
    if s.control.Preparing? {
      PreparingStep(s, input);
      TakeClient(s);
    } else if s.control.Starting? || s.control.Polling? || s.control.Submitting? {
      ReadingClient(s, input);
    } else {
      OtherClient(s, input);
    }
  }

  lemma TakeClient(s: State)
    ensures PrepareToPublish(s).client == s.client
  {
    hide Publishable;
  }

  lemma ReadingClient(s: State, input: Input)
    requires s.control.Starting? || s.control.Polling? || s.control.Submitting?
    ensures var t := ControlStep(s, input);
            && t.client == ClientAfter(s, ControlMoves(input))
            && t.history == s.history
  {
    hide ApplyLine, Answers, Invalidates, PrepareToPublish, TryPop, CheckPopped, CountAnswer, WaitPop, LookAtHeld,
         PushBack;
  }

  lemma OtherClient(s: State, input: Input)
    requires !s.control.Preparing? && !s.control.Starting? && !s.control.Polling? && !s.control.Submitting?
    ensures ControlStep(s, input).client == s.client && ControlStep(s, input).history == s.history
  {
    hide PrepareToPublish, StartupRead, AwaitAnswer, Poll, EmptyWork;
  }

  // ----- one step -----

  lemma TouchFollows(s: State, t: State)
    requires InTouch(s) && t.history == s.history && t.client.Ready()
    ensures InTouch(t) <==> t.client == s.client
  {
  }

  /**
   From a state in touch, a step either starts a publish, or stays in touch exactly when it is not
   a drift.
   */
  lemma TouchExactly(s: State, a: Action)
    requires InTouch(s) && !s.control.Starting? && !s.control.Preparing?
    ensures Step(s, a).control.Preparing? || (InTouch(Step(s, a)) <==> !Drift(s, a))
  {
    hide Step, ApplyLine, Invalidates, Answers, InTouch;
    var t := Step(s, a);
    ClientFollows(s, a);
    PreparingExactly(s, a);
    TouchedIsReady(s);
    match Consumed(s, a)
    case None => TouchFollows(s, t);
    case Some(line) =>
      ReadyStays(s.client, line);
      TouchFollows(s, t);
      if s.control.Polling? && !t.control.Preparing? {
        QuietLine(s.client, line);
      }
  }

  lemma TouchedIsReady(s: State)
    requires InTouch(s)
    ensures s.client.Ready()
  {
  }

  /** A line that does not invalidate the work changes at most the subscription. */
  lemma QuietLine(c: ClientState, line: Line)
    requires !Invalidates(c, line)
    ensures ApplyLine(c, line) == c <==> ApplyLine(c, line).subscription == c.subscription
  {
  }

  /** The first half of a publish brings the two together. */
  lemma TakeInTouch(s: State, input: Input)
    requires s.control.Preparing? && Step(s, ControlMoves(input)).control.Publishing?
    ensures InTouch(Step(s, ControlMoves(input)))
  {
    hide Step, ControlStep, InTouch, PrepareToPublish;
    ControlMovesStep(s, input);
    PreparingStep(s, input);
    TakeTouches(s);
  }

  lemma ControlMovesStep(s: State, input: Input)
    ensures Step(s, ControlMoves(input)) == ControlStep(s, input)
  {
    hide ControlStep, WorkerStep;
  }

  lemma TakeTouches(s: State)
    requires s.control.Preparing?
    ensures PrepareToPublish(s).control.Publishing? ==> InTouch(PrepareToPublish(s))
    ensures PrepareToPublish(s).control.LoopTop? ==> !s.client.Ready()
  {
    hide Publishable, WellPublished;
    if s.client.Ready() {
      PublishableIs(s.client, s.generation + 1);
    }
  }

  // ----- whole runs -----

  /** The client's state at the last take of a run. */
  function AtTake(actions: seq<Action>): Option<ClientState> {
    if actions == [] then None
    else
      var before := actions[..|actions| - 1];
      var s := Run(INITIAL, before);
      if Step(s, actions[|actions| - 1]).history != s.history then Some(s.client) else AtTake(before)
  }

  /** The history ends in the work of a client state. */
  ghost predicate EndsIn(s: State, at: Option<ClientState>) {
    match at
    case None => s.history == []
    case Some(c) =>
      && s.history != [] && c.Ready()
      && s.history[|s.history| - 1].source.job == c.job.value
      && s.history[|s.history| - 1].source.subscription == c.subscription.value
      && s.history[|s.history| - 1].difficulty == c.difficulty
  }

  lemma TakeEnds(s: State, a: Action)
    requires Step(s, a).history != s.history
    ensures EndsIn(Step(s, a), Some(s.client)) && a.ControlMoves? && s.control.Preparing?
        && Step(s, a).control.Publishing?
  {
    hide Step, ControlStep, PrepareToPublish;
    ClientFollows(s, a);
    if a.ControlMoves? {
      ControlMovesStep(s, a.input);
      PreparingStep(s, a.input);
      TakesOrNot(s);
    } else {
      NotTheWorker(s, a);
    }
  }

  lemma NotTheWorker(s: State, a: Action)
    requires !a.ControlMoves?
    ensures Step(s, a).history == s.history && Step(s, a).control == s.control
  {
    hide WorkerStep, ControlStep;
    if a.WorkerMoves? {
      WorkerClient(s);
    }
  }

  lemma TakesOrNot(s: State)
    requires PrepareToPublish(s).history != s.history
    ensures PrepareToPublish(s).control.Publishing? && EndsIn(PrepareToPublish(s), Some(s.client))
  {
    hide Publishable, WellPublished;
    if s.client.Ready() {
      PublishableIs(s.client, s.generation + 1);
    }
  }

  lemma {:induction false} HistoryEnds(actions: seq<Action>)
    ensures EndsIn(Run(INITIAL, actions), AtTake(actions))
  {
    hide Step;
    if actions != [] {
      var before, a := actions[..|actions| - 1], actions[|actions| - 1];
      HistoryEnds(before);
      if Step(Run(INITIAL, before), a).history != Run(INITIAL, before).history {
        TakeEnds(Run(INITIAL, before), a);
      }
    }
  }

  /** In every run, the published work is the client's if and only if the client's state is that of the last take. */
  lemma InTouchExactly(actions: seq<Action>)
    ensures InTouch(Run(INITIAL, actions)) <==> AtTake(actions) == Some(Run(INITIAL, actions).client)
  {
    hide Run, AtTake;
    HistoryEnds(actions);
  }

  /** Outside startup and the moments of a publish. */
  predicate Settled(c: Control) {
    !c.Starting? && !c.Preparing? && !c.ControlFailed?
  }

  lemma {:induction false} ReadyReachable(actions: seq<Action>)
    ensures var s := Run(INITIAL, actions); !s.control.Starting? && !s.control.ControlFailed? ==> s.client.Ready()
  {
    hide Step, ApplyLine;
    if actions != [] {
      var before, a := actions[..|actions| - 1], actions[|actions| - 1];
      ReadyReachable(before);
      ReadyStep(Run(INITIAL, before), a);
    }
  }

  lemma ReadyStep(s: State, a: Action)
    requires !s.control.Starting? && !s.control.ControlFailed? ==> s.client.Ready()
    ensures !Step(s, a).control.Starting? && !Step(s, a).control.ControlFailed? ==> Step(s, a).client.Ready()
  {
    hide Step, ApplyLine, EmptyWork;
    ClientFollows(s, a);
    LostShape(s, a);
    if s.control.Starting? {
      StartupStep(s, a);
    } else if Consumed(s, a).Some? {
      ReadyStays(s.client, Consumed(s, a).value);
    }
  }

  lemma StartupStep(s: State, a: Action)
    requires s.control.Starting?
    ensures Step(s, a).control.Starting? || Step(s, a).control.ControlFailed?
            || (Step(s, a).control.Preparing? && Step(s, a).client.Ready())
  {
  }

  /** The state reached by the first k steps. */
  function At(actions: seq<Action>, k: nat): State
    requires k <= |actions|
  {
    Run(INITIAL, actions[..k])
  }

  lemma NextAt(actions: seq<Action>, k: nat)
    requires k < |actions|
    ensures At(actions, k + 1) == Step(At(actions, k), actions[k])
  {
    hide Step;
    assert actions[..k + 1][..k] == actions[..k];
  }

  lemma AtPrefix(actions: seq<Action>, k: nat, n: nat)
    requires k <= n <= |actions|
    ensures At(actions[..n], k) == At(actions, k)
  {
    hide Run;
    assert actions[..n][..k] == actions[..k];
  }

  /**
   Whenever a settled run is out of touch, the cause is a drift from a state in touch since the last
   take: i is that step, and no generation is taken after it.
   */
  lemma {:induction false} DriftFound(actions: seq<Action>) returns (i: nat)
    requires Settled(Run(INITIAL, actions).control) && !InTouch(Run(INITIAL, actions))
    ensures i < |actions| && InTouch(At(actions, i)) && Drift(At(actions, i), actions[i])
    ensures !InTouch(At(actions, i + 1)) && At(actions, i).history == Run(INITIAL, actions).history
  {
    hide Step, InTouch, Drift, Run, At;
    RunEnds(actions);
    var n := |actions| - 1;
    var before, a := actions[..n], actions[n];
    var s := Run(INITIAL, before);
    ReadyReachable(before);
    LastStep(s, a);
    TouchFacts(s, a);
    i := n;
    AtIs(actions, n);
    NextAt(actions, n);
    AtIs(actions, n + 1);
    assert actions[..n + 1] == actions;
    if !InTouch(s) {
      i := DriftFound(before);
      AtPrefix(actions, i, n);
      AtPrefix(actions, i + 1, n);
    }
  }

  lemma AtIs(actions: seq<Action>, k: nat)
    requires k <= |actions|
    ensures At(actions, k) == Run(INITIAL, actions[..k])
  {
    hide Run;
  }

  lemma RunEnds(actions: seq<Action>)
    requires Settled(Run(INITIAL, actions).control)
    ensures actions != []
    ensures Run(INITIAL, actions) == Step(Run(INITIAL, actions[..|actions| - 1]), actions[|actions| - 1])
  {
    hide Step;
  }

  lemma TouchFacts(s: State, a: Action)
    ensures InTouch(s) && Settled(s.control) ==>
        Step(s, a).control.Preparing? || (InTouch(Step(s, a)) <==> !Drift(s, a))
    ensures !s.control.Preparing? ==> Step(s, a).history == s.history
  {
    hide Step, InTouch, Drift;
    ClientFollows(s, a);
    if InTouch(s) && Settled(s.control) {
      TouchExactly(s, a);
    }
  }

  /** A step into a settled state that is out of touch comes from a settled state. */
  lemma LastStep(s: State, a: Action)
    requires !s.control.Starting? && !s.control.ControlFailed? ==> s.client.Ready()
    requires Settled(Step(s, a).control) && !InTouch(Step(s, a))
    ensures Settled(s.control)
  {
    hide Step, InTouch, EmptyWork;
    LostShape(s, a);
    if s.control.Starting? {
      StartupStep(s, a);
    } else if s.control.Preparing? {
      PreparingEnds(s, a);
    }
  }

  lemma PreparingEnds(s: State, a: Action)
    requires s.control.Preparing? && s.client.Ready()
    ensures var t := Step(s, a); t.control.Preparing? || t.control.ControlFailed? || InTouch(t)
  {
    hide Step, ControlStep, InTouch, PrepareToPublish;
    if a.ControlMoves? {
      ControlMovesStep(s, a.input);
      PreparingStep(s, a.input);
      TakeTouches(s);
      PrepareOutcome(s);
    } else {
      NotTheWorker(s, a);
    }
  }

  lemma PrepareOutcome(s: State)
    ensures var c := PrepareToPublish(s).control; c.LoopTop? || c.ControlFailed? || c.Publishing?
  {
    hide Publishable;
  }

  /** Both kinds of drift happen: a notification during a submission, and a new subscription read by a poll. */
  lemma DriftsHappen(s: State, raw: string, job: MiningJob, e: string, size: nat)
    requires InTouch(s)
    ensures s.control.Submitting? && Some(job) != s.client.job ==>
        var t := Step(s, ControlMoves(Received(Parsed(raw, Notify(job)))));
        !InTouch(t) && t.control == s.control && t.slot == s.slot
    ensures s.control.Polling? && Some(Subscription(e, size)) != s.client.subscription ==>
        var t := Step(s, ControlMoves(Received(Parsed(raw, SubscribeResponse(0, e, size)))));
        !InTouch(t) && t.control.LoopTop? && t.slot == s.slot
  {
  }
}
