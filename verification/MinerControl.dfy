/** The control thread's operations as runs of its steps, undisturbed by the worker. */
module MinerControl {
  import opened Wrappers
  import opened Mining
  import opened Stratum
  import opened ControlThread
  import opened Miner
  import opened MinerSafety
  import opened MinerPublication
  import opened MinerSearch

  // ----- starting -----

  /** The three requests before the first line is read; what they leave is where the transition system starts. */
  method Connect(lines: seq<Line>, user: string, password: string) returns (client: StratumClient)
    ensures fresh(client) && client.Valid() && client.incoming == lines && client.consumed == 0
    ensures client.sent ==
            [SubscribeRequest(1), SuggestDifficultyRequest(2, 1.0), AuthorizeRequest(3, user, password)]
    ensures client.State() == INITIAL.client && client.nextId == INITIAL.nextId && client.workerName == user
  {
    client := new StratumClient(lines);
    client.Subscribe();
    var suggested := client.SuggestDifficulty(1.0);
    client.Authorize(user, password);
  }

  // ----- publishing -----

  /** The two halves of a publish end where the publishing method does. */
  lemma PublishIsARun(s: State)
    requires s.control.Preparing? && s.client.Ready() && Publishable(s.client, s.generation + 1).Some?
    ensures var next := Publishable(s.client, s.generation + 1).value;
            Run(s, [ControlMoves(Quiet), ControlMoves(Quiet)])
            == s.(generation := s.generation + 1, history := s.history + [next], slot := Some(next), control := LoopTop)
  {
    hide Publishable, Step, ControlStep;
    ControlTwice(s, Quiet, Quiet);
    PreparingStep(s, Quiet);
    TakeStep(s);
    WriteShape(ControlStep(s, Quiet), Quiet);
  }

  lemma TakeStep(s: State)
    requires s.client.Ready() && Publishable(s.client, s.generation + 1).Some?
    ensures var next := Publishable(s.client, s.generation + 1).value;
            PrepareToPublish(s)
            == s.(generation := s.generation + 1, history := s.history + [next], control := Publishing(next))
  {
    hide Publishable;
  }

  lemma ControlOnce(s: State, input: Input)
    ensures Run(s, [ControlMoves(input)]) == ControlStep(s, input)
  {
    hide Step, ControlStep;
    ControlMovesStep(s, input);
    assert [ControlMoves(input)][..0] == [];
  }

  lemma ControlTwice(s: State, i: Input, j: Input)
    ensures Run(s, [ControlMoves(i), ControlMoves(j)]) == ControlStep(ControlStep(s, i), j)
  {
    hide Run, ControlStep;
    RunConcat(s, [ControlMoves(i)], [ControlMoves(j)]);
    assert [ControlMoves(i)] + [ControlMoves(j)] == [ControlMoves(i), ControlMoves(j)];
    ControlOnce(s, i);
    ControlOnce(ControlStep(s, i), j);
  }

  // ----- draining -----

  /** The shares that are not of the generation, in their order. */
  function Stale(items: seq<FoundShare>, generation: nat): seq<FoundShare> {
    if items == [] then []
    else (if items[0].candidate.generation != generation then [items[0]] else []) + Stale(items[1..], generation)
  }

  /** The shares with the wanted verdict. */
  function Chosen(items: seq<FoundShare>, verdict: FoundShare -> bool, wanted: bool): seq<FoundShare> {
    if items == [] then []
    else (if verdict(items[0]) == wanted then [items[0]] else []) + Chosen(items[1..], verdict, wanted)
  }

  /** Where a drain puts the shares of the queue. */
  function TallyAfter(t: Tally, items: seq<FoundShare>, generation: nat, verdict: FoundShare -> bool): Tally {
    var current := Current(items, generation);
    t.(stale := t.stale + multiset(Stale(items, generation)),
       accepted := t.accepted + multiset(Chosen(current, verdict, true)),
       rejected := t.rejected + multiset(Chosen(current, verdict, false)))
  }

  /** The state after the queue was drained, the server answering each share by the verdict. */
  function Drained(s: State, didWork: bool, verdict: FoundShare -> bool): State {
    s.(queue := [], control := Polling(didWork || s.queue != []), nextId := s.nextId + |Current(s.queue, s.generation)|,
       tally := TallyAfter(s.tally, s.queue, s.generation, verdict))
  }

  function SettledTally(t: Tally, x: FoundShare, generation: nat, verdict: bool): Tally {
    if x.candidate.generation != generation then t.(stale := t.stale + multiset{x})
    else if verdict then t.(accepted := t.accepted + multiset{x})
    else t.(rejected := t.rejected + multiset{x})
  }

  /** The state after the oldest share was settled. */
  function Settled1(s: State, verdict: FoundShare -> bool): State
    requires s.queue != []
  {
    var x := s.queue[0];
    s.(queue := s.queue[1..], control := Draining(true),
       nextId := s.nextId + (if x.candidate.generation == s.generation then 1 else 0),
       tally := SettledTally(s.tally, x, s.generation, verdict(x)))
  }

  function Answer(id: int, verdict: bool): Input {
    Received(Parsed("", SubmitResponse(id, verdict, "")))
  }

  lemma SettleIsARun(s: State, verdict: FoundShare -> bool) returns (actions: seq<Action>)
    requires s.control.Draining? && s.queue != []
    ensures Run(s, actions) == Settled1(s, verdict)
  {
    hide Run, ControlStep;
    var x := s.queue[0];
    PopStep(s);
    var popped := s.(queue := s.queue[1..], control := Popped(x));
    CheckedStep(popped, x);
    actions := [ControlMoves(Quiet), ControlMoves(Quiet)];
    ControlTwice(s, Quiet, Quiet);
    if x.candidate.generation == s.generation {
      var asked := popped.(nextId := s.nextId + 1, control := Submitting(x, s.nextId));
      AnsweredSteps(asked, x, s.nextId, verdict(x));
      ControlTwice(asked, Answer(s.nextId, verdict(x)), Quiet);
      RunConcat(s, actions, [ControlMoves(Answer(s.nextId, verdict(x))), ControlMoves(Quiet)]);
      actions := actions + [ControlMoves(Answer(s.nextId, verdict(x))), ControlMoves(Quiet)];
    }
  }

  lemma PopStep(s: State)
    requires s.control.Draining? && s.queue != []
    ensures ControlStep(s, Quiet) == s.(queue := s.queue[1..], control := Popped(s.queue[0]))
  {
    hide StartupRead, PrepareToPublish, CheckPopped, AwaitAnswer, CountAnswer, Poll, WaitPop, LookAtHeld, PushBack;
  }

  lemma CheckedStep(s: State, x: FoundShare)
    requires s.control == Popped(x)
    ensures ControlStep(s, Quiet)
         == if x.candidate.generation != s.generation
            then s.(tally := s.tally.(stale := s.tally.stale + multiset{x}), control := Draining(true))
            else s.(nextId := s.nextId + 1, control := Submitting(x, s.nextId))
  {
    hide StartupRead, PrepareToPublish, TryPop, AwaitAnswer, CountAnswer, Poll, WaitPop, LookAtHeld, PushBack;
  }

  lemma AnsweredSteps(s: State, x: FoundShare, id: int, verdict: bool)
    requires s.control == Submitting(x, id)
    ensures ControlStep(ControlStep(s, Answer(id, verdict)), Quiet)
         == s.(control := Draining(true),
               tally := if verdict then s.tally.(accepted := s.tally.accepted + multiset{x})
                        else s.tally.(rejected := s.tally.rejected + multiset{x}))
  {
    hide ControlStep;
    AwaitedStep(s, x, id, verdict);
    CountedStep(s.(control := Answered(x, verdict)), x, verdict);
  }

  lemma AwaitedStep(s: State, x: FoundShare, id: int, verdict: bool)
    requires s.control == Submitting(x, id)
    ensures ControlStep(s, Answer(id, verdict)) == s.(control := Answered(x, verdict))
  {
    hide StartupRead, PrepareToPublish, TryPop, CheckPopped, CountAnswer, Poll, WaitPop, LookAtHeld, PushBack;
  }

  lemma CountedStep(s: State, x: FoundShare, verdict: bool)
    requires s.control == Answered(x, verdict)
    ensures ControlStep(s, Quiet)
         == s.(control := Draining(true),
               tally := if verdict then s.tally.(accepted := s.tally.accepted + multiset{x})
                        else s.tally.(rejected := s.tally.rejected + multiset{x}))
  {
    hide StartupRead, PrepareToPublish, TryPop, CheckPopped, AwaitAnswer, Poll, WaitPop, LookAtHeld, PushBack;
  }

  lemma EmptyStep(s: State, didWork: bool)
    requires s.control == Draining(didWork) && s.queue == []
    ensures ControlStep(s, Quiet) == s.(control := Polling(didWork))
  {
    hide StartupRead, PrepareToPublish, CheckPopped, AwaitAnswer, CountAnswer, Poll, WaitPop, LookAtHeld, PushBack;
  }

  /**
   Draining, undisturbed, is a run of the control thread's steps: exactly the shares that the drain
   method submits are answered, each by its verdict, and exactly the others are discarded.
   */
  lemma {:induction false} DrainIsARun(s: State, didWork: bool, verdict: FoundShare -> bool)
    returns (actions: seq<Action>)
    requires s.control == Draining(didWork)
    ensures Run(s, actions) == Drained(s, didWork, verdict)
    decreases |s.queue|
  {
    hide Run, ControlStep, Drained, Settled1;
    if s.queue == [] {
      actions := [ControlMoves(Quiet)];
      ControlOnce(s, Quiet);
      EmptyStep(s, didWork);
      NothingToDrain(s, didWork, verdict);
    } else {
      var first := SettleIsARun(s, verdict);
      SettledQueue(s, verdict);
      var rest := DrainIsARun(Settled1(s, verdict), true, verdict);
      actions := first + rest;
      RunConcat(s, first, rest);
      DrainedStep(s, didWork, verdict);
    }
  }

  lemma SettledQueue(s: State, verdict: FoundShare -> bool)
    requires s.queue != []
    ensures Settled1(s, verdict).queue == s.queue[1..] && Settled1(s, verdict).control == Draining(true)
  {
  }

  lemma NothingToDrain(s: State, didWork: bool, verdict: FoundShare -> bool)
    requires s.queue == []
    ensures Drained(s, didWork, verdict) == s.(control := Polling(didWork))
  {
    var t := s.tally;
    assert t.stale + multiset([]) == t.stale && t.accepted + multiset([]) == t.accepted
        && t.rejected + multiset([]) == t.rejected;
  }

  lemma DrainedStep(s: State, didWork: bool, verdict: FoundShare -> bool)
    requires s.queue != []
    ensures Drained(Settled1(s, verdict), true, verdict) == Drained(s, didWork, verdict)
  {
    hide TallyAfter, SettledTally, Current;
    TallyStep(s.tally, s.queue, s.generation, verdict);
    CurrentStep(s.queue, s.generation);
  }

  lemma CurrentStep(items: seq<FoundShare>, g: nat)
    requires items != []
    ensures |Current(items, g)| == |Current(items[1..], g)| + if items[0].candidate.generation == g then 1 else 0
  {
  }

  lemma TallyStep(t: Tally, items: seq<FoundShare>, g: nat, verdict: FoundShare -> bool)
    requires items != []
    ensures TallyAfter(SettledTally(t, items[0], g, verdict(items[0])), items[1..], g, verdict)
        == TallyAfter(t, items, g, verdict)
  {
    if items[0].candidate.generation != g {
      StaleStep(t, items, g, verdict);
    } else {
      CurrentTally(t, items, g, verdict);
    }
  }

  lemma StaleStep(t: Tally, items: seq<FoundShare>, g: nat, verdict: FoundShare -> bool)
    requires items != [] && items[0].candidate.generation != g
    ensures TallyAfter(SettledTally(t, items[0], g, verdict(items[0])), items[1..], g, verdict)
        == TallyAfter(t, items, g, verdict)
  {
    hide Chosen;
    PutFirst(items[0], Stale(items[1..], g));
    assert Current(items, g) == Current(items[1..], g);
  }

  lemma CurrentTally(t: Tally, items: seq<FoundShare>, g: nat, verdict: FoundShare -> bool)
    requires items != [] && items[0].candidate.generation == g
    ensures TallyAfter(SettledTally(t, items[0], g, verdict(items[0])), items[1..], g, verdict)
        == TallyAfter(t, items, g, verdict)
  {
    hide Chosen, Stale, Current;
    var x, rest := items[0], Current(items[1..], g);
    CurrentFirst(items, g);
    StaleRest(items, g);
    ChosenFirst(x, rest, verdict, true);
    ChosenFirst(x, rest, verdict, false);
    PutFirst(x, Chosen(rest, verdict, verdict(x)));
  }

  lemma CurrentFirst(items: seq<FoundShare>, g: nat)
    requires items != [] && items[0].candidate.generation == g
    ensures Current(items, g) == [items[0]] + Current(items[1..], g)
  {
  }

  lemma StaleRest(items: seq<FoundShare>, g: nat)
    requires items != [] && items[0].candidate.generation == g
    ensures Stale(items, g) == Stale(items[1..], g)
  {
  }

  lemma ChosenFirst(x: FoundShare, rest: seq<FoundShare>, verdict: FoundShare -> bool, wanted: bool)
    ensures Chosen([x] + rest, verdict, wanted)
         == if verdict(x) == wanted then [x] + Chosen(rest, verdict, wanted) else Chosen(rest, verdict, wanted)
  {
    assert ([x] + rest)[1..] == rest;
  }

  lemma PutFirst(x: FoundShare, items: seq<FoundShare>)
    ensures multiset([x] + items) == multiset{x} + multiset(items)
  {
  }

  // ----- the queue -----

  /** The shares a step appends to the queue. */
  function PushedBy(s: State, a: Action): seq<FoundShare> {
    if a.WorkerMoves? && s.worker.Pushing? then [s.worker.share]
    else if a.ControlMoves? && s.control.PushingBack? then [s.control.share]
    else []
  }

  /** Whether a step takes a share out of the queue. */
  predicate Takes(s: State, a: Action) {
    a.ControlMoves? && s.queue != [] && (s.control.Draining? || (s.control.Idle? && !s.stopControl))
  }

  /** A step takes the share at the front, appends at the back, or leaves the queue alone. */
  lemma QueueStep(s: State, a: Action)
    ensures Step(s, a).queue == s.queue[if Takes(s, a) then 1 else 0..] + PushedBy(s, a)
    ensures Takes(s, a) ==> Step(s, a).control == if s.control.Idle? then Holding(s.queue[0]) else Popped(s.queue[0])
  {
    hide Publishable, ApplyLine, Invalidates, Answers, EmptyWork, NextWorker;
  }

  function Pushed(s: State, actions: seq<Action>): seq<FoundShare> {
    if actions == [] then []
    else
      var before, a := actions[..|actions| - 1], actions[|actions| - 1];
      Pushed(s, before) + PushedBy(Run(s, before), a)
  }

  function Taken(s: State, actions: seq<Action>): nat {
    if actions == [] then 0
    else
      var before, a := actions[..|actions| - 1], actions[|actions| - 1];
      Taken(s, before) + if Takes(Run(s, before), a) then 1 else 0
  }

  /**
   Over every run the queue is first in, first out: what is in it is what was in it and all that was pushed since,
   in that order, without as many at the front as were taken.
   */
  lemma {:induction false} FirstInFirstOut(s: State, actions: seq<Action>)
    ensures Taken(s, actions) <= |s.queue + Pushed(s, actions)|
    ensures Run(s, actions).queue == (s.queue + Pushed(s, actions))[Taken(s, actions)..]
  {
    hide Step, Takes, PushedBy;
    if actions != [] {
      var before, a := actions[..|actions| - 1], actions[|actions| - 1];
      FirstInFirstOut(s, before);
      QueueStep(Run(s, before), a);
      TakesOne(Run(s, before), a);
      SliceOn(s.queue + Pushed(s, before), Taken(s, before), if Takes(Run(s, before), a) then 1 else 0,
              PushedBy(Run(s, before), a));
      assert s.queue + Pushed(s, actions) == s.queue + Pushed(s, before) + PushedBy(Run(s, before), a);
    }
  }

  lemma TakesOne(s: State, a: Action)
    ensures Takes(s, a) ==> |s.queue| >= 1
  {
  }

  lemma SliceOn(q: seq<FoundShare>, k: nat, n: nat, more: seq<FoundShare>)
    requires k + n <= |q|
    ensures q[k..][n..] + more == (q + more)[k + n..]
  {
  }
}
