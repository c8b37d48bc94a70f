/** The control thread's operations, each run on its own: the share queue, publishing, draining, the idle wait. */
module ControlThread {
  import opened Wrappers
  import opened Bytes
  import opened Uint256
  import opened Sha256
  import opened Header
  import opened Hex
  import opened Work
  import opened Target
  import opened Mining
  import opened Stratum
  import opened Miner

  class ShareQueue {
    var items: seq<FoundShare>

    constructor ()
      ensures items == []
    {
      items := [];
    }

    method Push(item: FoundShare)
      modifies this
      ensures items == old(items) + [item]
    {
      items := items + [item];
    }

    method TryPop() returns (item: Option<FoundShare>)
      modifies this
      ensures item == if old(items) == [] then None else Some(old(items)[0])
      ensures items == if old(items) == [] then [] else old(items)[1..]
    {
      if items == [] {
        return None;
      }
      item := Some(items[0]);
      items := items[1..];
    }

    /** The wait as it ends: woken by a share or a stop request, or timed out with neither. */
    method WaitPopFor(stopRequested: bool) returns (item: Option<FoundShare>)
      modifies this
      ensures item == if stopRequested || old(items) == [] then None else Some(old(items)[0])
      ensures items == if item == None then old(items) else old(items)[1..]
    {
      if stopRequested || items == [] {
        return None;
      }
      item := Some(items[0]);
      items := items[1..];
    }
  }

  class Counters {
    var sharesFound: nat
    var blocksFound: nat
    var sharesAccepted: nat
    var sharesRejected: nat
    /** Counts the events of discarded shares. */
    var staleEvents: nat

    constructor ()
      ensures sharesFound == blocksFound == sharesAccepted == sharesRejected == staleEvents == 0
    {
      sharesFound, blocksFound, sharesAccepted, sharesRejected, staleEvents := 0, 0, 0, 0, 0;
    }
  }

  class SharedWork {
    var generation: nat
    var published: Option<PublishedWork>

    constructor ()
      ensures generation == 0 && published == None
    {
      generation, published := 0, None;
    }
  }

  method HandleFoundShare(share: FoundShare, queue: ShareQueue, counters: Counters)
    modifies queue, counters
    ensures queue.items == old(queue.items) + [share]
    ensures counters.sharesFound == old(counters.sharesFound) + 1
    ensures counters.blocksFound == old(counters.blocksFound) + if share.candidate.isBlock then 1 else 0
    ensures counters.sharesAccepted == old(counters.sharesAccepted)
        && counters.sharesRejected == old(counters.sharesRejected)
    ensures counters.staleEvents == old(counters.staleEvents)
  {
    counters.sharesFound := counters.sharesFound + 1;
    if share.candidate.isBlock {
      counters.blocksFound := counters.blocksFound + 1;
    }
    queue.Push(share);
  }

  // ----- draining -----

  /** The queued shares that are not stale, in their order. */
  function Current(items: seq<FoundShare>, generation: nat): seq<FoundShare> {
    if items == [] then []
    else
      (if items[0].candidate.generation == generation then [items[0]] else []) + Current(items[1..], generation)
  }

  /** The submissions among the requests. */
  function Submissions(requests: seq<Request>): seq<ShareSubmission> {
    if requests == [] then []
    else
      Submissions(requests[..|requests| - 1])
      + if requests[|requests| - 1].SubmitRequest? then [requests[|requests| - 1].share] else []
  }

  function SubmissionsOf(shares: seq<FoundShare>): (s: seq<ShareSubmission>)
    ensures |s| == |shares|
  {
    seq(|shares|, i requires 0 <= i < |shares| => shares[i].submission)
  }

  /** One popped share: discarded when stale, otherwise submitted and its answer counted. */
  method HandlePopped(client: StratumClient, counters: Counters, share: FoundShare, generation: nat)
    returns (r: ClientResult<()>)
    requires client.Valid()
    modifies client, counters
    ensures client.Valid()
    ensures counters.sharesFound == old(counters.sharesFound) && counters.blocksFound == old(counters.blocksFound)
    ensures share.candidate.generation != generation ==>
        && r.Success? && client.sent == old(client.sent) && client.State() == old(client.State())
        && counters.staleEvents == old(counters.staleEvents) + 1
        && counters.sharesAccepted == old(counters.sharesAccepted)
        && counters.sharesRejected == old(counters.sharesRejected)
    ensures share.candidate.generation == generation && r.Success? ==>
        && Submissions(client.sent) == Submissions(old(client.sent)) + [share.submission]
        && counters.staleEvents == old(counters.staleEvents)
        && client.consumed > 0 && Answers(client.incoming[client.consumed - 1], old(client.nextId))
        && var accepted := client.incoming[client.consumed - 1].message.accepted;
           && counters.sharesAccepted == old(counters.sharesAccepted) + (if accepted then 1 else 0)
           && counters.sharesRejected == old(counters.sharesRejected) + (if accepted then 0 else 1)
    ensures r.Failure? ==>
        && share.candidate.generation == generation
        && counters.staleEvents == old(counters.staleEvents)
        && counters.sharesAccepted == old(counters.sharesAccepted)
        && counters.sharesRejected == old(counters.sharesRejected)
  {
    if share.candidate.generation != generation {
      counters.staleEvents := counters.staleEvents + 1;
      return Success(());
    }
    ghost var sent := client.sent;
    var answer := client.SubmitShare(share.submission);
    if answer.Failure? {
      return Failure(answer.error);
    }
    SubmissionsAppend(sent, client.sent[|sent|]);
    if answer.value.accepted {
      counters.sharesAccepted := counters.sharesAccepted + 1;
    } else {
      counters.sharesRejected := counters.sharesRejected + 1;
    }
    r := Success(());
  }

  /**
   What an error in the middle of a drain leaves: the shares before the one it ended at have been answered or
   discarded, the ones behind it are still queued, and it is in no place any more.
   */
  predicate BrokenOff(items: seq<FoundShare>, left: seq<FoundShare>, generation: nat, answered: nat, answered': nat,
                      stale: nat, stale': nat) {
    var k := |items| - |left| - 1;
    && 0 <= k < |items| && items[k].candidate.generation == generation && left == items[k + 1..]
    && answered' == answered + |Current(items[..k], generation)|
    && stale' == stale + k - |Current(items[..k], generation)|
  }

  /**
   Empties the queue: exactly the shares of the generation are submitted, in their order and each
   answered once; all others are discarded.
   */
  method DrainShareQueue(client: StratumClient, queue: ShareQueue, counters: Counters, generation: nat)
    returns (r: ClientResult<bool>)
    requires client.Valid()
    modifies client, queue, counters
    ensures client.Valid()
    ensures r.Success? ==>
        && queue.items == [] && r.value == (old(queue.items) != [])
        && Submissions(client.sent)
            == Submissions(old(client.sent)) + SubmissionsOf(Current(old(queue.items), generation))
        && counters.sharesAccepted + counters.sharesRejected
           == old(counters.sharesAccepted + counters.sharesRejected) + |Current(old(queue.items), generation)|
        && counters.staleEvents
            == old(counters.staleEvents) + |old(queue.items)| - |Current(old(queue.items), generation)|
    ensures r.Failure? ==>
        BrokenOff(old(queue.items), queue.items, generation, old(counters.sharesAccepted + counters.sharesRejected),
                  counters.sharesAccepted + counters.sharesRejected, old(counters.staleEvents), counters.staleEvents)
    ensures counters.sharesFound == old(counters.sharesFound) && counters.blocksFound == old(counters.blocksFound)
  {
    hide SubmissionsOf, Submissions, Current, StratumClient.Valid, Answers, BrokenOff;
    var didWork := false;
    ghost var done: seq<FoundShare> := [];
    CurrentEmpty(generation);
    while true
      invariant client.Valid()
      invariant old(queue.items) == done + queue.items && didWork == (done != [])
      invariant Submissions(client.sent) == Submissions(old(client.sent)) + SubmissionsOf(Current(done, generation))
      invariant counters.sharesAccepted + counters.sharesRejected
             == old(counters.sharesAccepted + counters.sharesRejected) + |Current(done, generation)|
      invariant counters.staleEvents == old(counters.staleEvents) + |done| - |Current(done, generation)|
      invariant counters.sharesFound == old(counters.sharesFound) && counters.blocksFound == old(counters.blocksFound)
      decreases |queue.items|
    {
      var popped := queue.TryPop();
      if popped == None {
        break;
      }
      didWork := true;
      CurrentAppend(done, popped.value, generation);
      SubmissionsOfAppend(Current(done, generation), popped.value);
      ghost var before := done;
      done := done + [popped.value];
      var handled := HandlePopped(client, counters, popped.value, generation);
      if handled.Failure? {
        assert before + [popped.value] + queue.items == old(queue.items);
        BreakOff(before, popped.value, queue.items, generation, old(counters.sharesAccepted + counters.sharesRejected),
                 counters.sharesAccepted + counters.sharesRejected, old(counters.staleEvents), counters.staleEvents);
        return Failure(handled.error);
      }
    }
    assert done == old(queue.items);
    r := Success(didWork);
  }

  lemma BreakOff(done: seq<FoundShare>, x: FoundShare, left: seq<FoundShare>, generation: nat, answered: nat,
                 answered': nat, stale: nat, stale': nat)
    requires x.candidate.generation == generation && answered' == answered + |Current(done, generation)|
    requires stale' == stale + |done| - |Current(done, generation)|
    ensures BrokenOff(done + [x] + left, left, generation, answered, answered', stale, stale')
  {
    hide Current;
    var items := done + [x] + left;
    assert items[..|done|] == done && items[|done|] == x && items[|done| + 1..] == left;
  }

  lemma CurrentEmpty(g: nat)
    ensures Current([], g) == [] && SubmissionsOf([]) == []
  {
  }

  lemma {:induction false} CurrentAppend(items: seq<FoundShare>, x: FoundShare, g: nat)
    ensures Current(items + [x], g)
         == if x.candidate.generation == g then Current(items, g) + [x] else Current(items, g)
  {
    hide Current;
    CurrentEmpty(g);
    if items == [] {
      CurrentFront(x, [], g);
      assert [] + [x] == [x] + [];
    } else {
      CurrentAppend(items[1..], x, g);
      CurrentFront(items[0], items[1..], g);
      CurrentFront(items[0], items[1..] + [x], g);
      assert items == [items[0]] + items[1..] && items + [x] == [items[0]] + (items[1..] + [x]);
    }
  }

  lemma CurrentFront(x: FoundShare, rest: seq<FoundShare>, g: nat)
    ensures Current([x] + rest, g)
         == if x.candidate.generation == g then [x] + Current(rest, g) else Current(rest, g)
  {
    assert ([x] + rest)[1..] == rest;
  }

  lemma SubmissionsOfAppend(shares: seq<FoundShare>, x: FoundShare)
    ensures SubmissionsOf(shares + [x]) == SubmissionsOf(shares) + [x.submission]
  {
  }

  lemma SubmissionsAppend(requests: seq<Request>, r: Request)
    ensures Submissions(requests + [r]) == Submissions(requests) + if r.SubmitRequest? then [r.share] else []
  {
    assert (requests + [r])[..|requests|] == requests;
  }

  // ----- publishing and waiting -----

  datatype PublishOutcome = Published | NotReady | Raised

  /** Publishes the work of the client's state, or raises an error before the generation moves. */
  method PublishLatestWork(shared: SharedWork, client: StratumClient, beyond: seq<byte>) returns (r: PublishOutcome)
    requires client.currentJob.Some? && client.subscription.Some?
        ==> Hashable(client.currentJob.value, client.subscription.value)
    requires |beyond| >= 48
    modifies shared
    ensures r == NotReady <==> !client.State().Ready()
    ensures r == Published <==> client.State().Ready() && Publishable(client.State(), old(shared.generation) + 1).Some?
    ensures r != Published ==> shared.generation == old(shared.generation) && shared.published == old(shared.published)
    ensures r == Published ==>
        && shared.generation == old(shared.generation) + 1
        && shared.published == Publishable(client.State(), shared.generation)
  {
    hide Publishable;
    if !(client.subscription.Some? && client.currentJob.Some?) {
      return NotReady;
    }
    var next := NextWork(client.State(), shared.generation + 1, beyond);
    if next.None? {
      return Raised;
    }
    shared.generation := shared.generation + 1;
    shared.published := next;
    r := Published;
  }

  /** Builds the work of a client state; None where one of the conversions raises an error. */
  method NextWork(state: ClientState, generation: nat, beyond: seq<byte>) returns (next: Option<PublishedWork>)
    requires state.Ready() && Hashable(state.job.value, state.subscription.value) && |beyond| >= 48
    ensures next == Publishable(state, generation)
  {
    hide Prepared, CanPrepare, Value, CompactValue, ReadBe32, BytesOfHex, IsLowerHex, ShareTargetValue, InRange, Scaled,
         TargetFor;
    var job, sub := state.job.value, state.subscription.value;
    var prepared := PrepareWork(job, sub, 0, beyond);
    if prepared.Failed? {
      return None;
    }
    PreparedFields(job, sub, 0);
    NbitsWithin(job, sub);
    var nbits := U32FromHexBe(job.nbits);
    var network := ExpandCompactTarget(WordValue(nbits.value));
    var target := ShareTarget(state.difficulty);
    if target.None? {
      return None;
    }
    next := Some(PublishedWork(prepared.value, Value(network), Value(target.value), generation, state.difficulty));
  }

  method ShareTarget(difficulty: real) returns (r: Option<U256>)
    ensures r.Some? <==> TargetFor(difficulty).Some?
    ensures r.Some? ==> TargetFor(difficulty) == Some(Value(r.value))
  {
    hide Value, ShareTargetValue;
    var target := ShareTargetFromDifficulty(difficulty, 0);
    if target.Err? {
      TargetForRefuses(difficulty, target.error);
      return None;
    }
    TakenExactly(difficulty);
    r := Some(target.value);
  }

  lemma TargetForRefuses(d: real, e: TargetError)
    requires e == NotPositive ==> d <= 0.0
    requires e == OutOfRange ==> !InRange(d)
    requires e == Underflow ==> InRange(d) && Scaled(d * 4294967296.0, 0) == 0
    ensures TargetFor(d) == None
  {
    TakenExactly(d);
    hide ShareTargetValue;
  }

  lemma NbitsWithin(job: MiningJob, sub: Subscription)
    requires CanPrepare(job, sub, 0)
    ensures HexWithin(job.nbits, 8)
  {
    hide HexWithin, MaxExtranonce2;
  }

  /** Takes at most one share out and, unless stopped or of empty work, puts it back at the end. */
  method ControlIdleWait(queue: ShareQueue, stopDuringWait: bool, stopAfterWait: bool)
    requires stopDuringWait ==> stopAfterWait
    modifies queue
    ensures stopDuringWait || old(queue.items) == [] ==> queue.items == old(queue.items)
    ensures !stopDuringWait && old(queue.items) != [] ==>
        queue.items == old(queue.items)[1..]
                       + if stopAfterWait || EmptyWork(old(queue.items)[0]) then [] else [old(queue.items)[0]]
    ensures !stopAfterWait && (old(queue.items) == [] || !EmptyWork(old(queue.items)[0])) ==>
        multiset(queue.items) == multiset(old(queue.items))
  {
    hide EmptyWork;
    if queue.items != [] {
      assert queue.items == [queue.items[0]] + queue.items[1..];
    }
    var queued := queue.WaitPopFor(stopDuringWait);
    if !stopAfterWait {
      if queued.Some? && !EmptyWork(queued.value) {
        queue.Push(queued.value);
      }
    }
  }
}
