/** The Stratum client over a stream of lines: what it knows is a fold of the messages it has consumed. */
module Stratum {
  import opened Wrappers
  import opened Work

  datatype Message =
    | UnknownMessage
    | SetDifficulty(difficulty: real)
    | Notify(job: MiningJob)
    | SubscribeResponse(id: int, extranonce1: string, extranonce2Size: nat)
    | AuthorizeResponse(id: int, accepted: bool)
    | SubmitResponse(id: int, accepted: bool, errorText: string)

  /** A received line: empty, or text in which the message parser found a message or nothing. */
  datatype Line = Blank | Unparsed(raw: string) | Parsed(raw: string, message: Message)

  datatype ClientState = ClientState(subscription: Option<Subscription>, job: Option<MiningJob>, difficulty: real) {
    predicate Ready() {
      subscription.Some? && job.Some?
    }
  }

  const FRESH := ClientState(None, None, 1.0)

  datatype PollResult = PollResult(gotMessage: bool, workInvalidated: bool)

  datatype Request =
    | SubscribeRequest(id: int)
    | SuggestDifficultyRequest(id: int, difficulty: real)
    | AuthorizeRequest(id: int, user: string, password: string)
    | SubmitRequest(id: int, workerName: string, share: ShareSubmission)

  datatype SubmitShareResult = SubmitShareResult(accepted: bool, errorText: string, request: Request, response: string)

  datatype ClientResult<+T> = Success(value: T) | Failure(error: ClientError)

  datatype ClientError = ConnectionClosed | WorkerNameMissing | BadDifficulty

  // ----- the state as a fold -----

  function Apply(s: ClientState, m: Message): ClientState {
    match m
    case SetDifficulty(d) => s.(difficulty := d)
    case Notify(job) => s.(job := Some(job))
    case SubscribeResponse(_, e, size) => s.(subscription := Some(Subscription(e, size)))
    case _ => s
  }

  function ApplyLine(s: ClientState, line: Line): ClientState {
    if line.Parsed? then Apply(s, line.message) else s
  }

  function FoldLines(s: ClientState, lines: seq<Line>): ClientState {
    if lines == [] then s else ApplyLine(FoldLines(s, lines[..|lines| - 1]), lines[|lines| - 1])
  }

  lemma {:induction false} FoldSplit(s: ClientState, a: seq<Line>, b: seq<Line>)
    ensures FoldLines(s, a + b) == FoldLines(FoldLines(s, a), b)
  {
    if b == [] {
      assert a + b == a;
    } else {
      FoldSplit(s, a, b[..|b| - 1]);
      assert (a + b)[..|a + b| - 1] == a + b[..|b| - 1];
    }
  }

  lemma FoldNext(s: ClientState, lines: seq<Line>, k: nat)
    requires k < |lines|
    ensures FoldLines(s, lines[..k + 1]) == ApplyLine(FoldLines(s, lines[..k]), lines[k])
  {
    assert lines[..k + 1][..k] == lines[..k];
  }

  /** The raw text of the last notification among the lines. */
  function LastNotify(lines: seq<Line>): string {
    if lines == [] then ""
    else
      var last := lines[|lines| - 1];
      if last.Parsed? && last.message.Notify? then last.raw else LastNotify(lines[..|lines| - 1])
  }

  lemma LastNotifyNext(lines: seq<Line>, k: nat)
    requires k < |lines|
    ensures LastNotify(lines[..k + 1])
         == if lines[k].Parsed? && lines[k].message.Notify? then lines[k].raw else LastNotify(lines[..k])
  {
    assert lines[..k + 1][..k] == lines[..k];
  }

  // ----- the last of each kind decides -----

  predicate Subscribes(line: Line) {
    line.Parsed? && line.message.SubscribeResponse?
  }

  predicate Notifies(line: Line) {
    line.Parsed? && line.message.Notify?
  }

  predicate SetsDifficulty(line: Line) {
    line.Parsed? && line.message.SetDifficulty?
  }

  /** Line k is the last of its kind; -1 when there is none. */
  ghost predicate IsLast(kind: Line -> bool, lines: seq<Line>, k: int) {
    && -1 <= k < |lines|
    && (k >= 0 ==> kind(lines[k]))
    && forall j :: k < j < |lines| ==> !kind(lines[j])
  }

  lemma IsLastBefore(kind: Line -> bool, lines: seq<Line>, k: int)
    requires IsLast(kind, lines, k) && k < |lines| - 1
    ensures IsLast(kind, lines[..|lines| - 1], k) && !kind(lines[|lines| - 1])
  {
  }

  lemma {:induction false} LastSubscription(s: ClientState, lines: seq<Line>, k: int)
    requires IsLast(Subscribes, lines, k)
    ensures FoldLines(s, lines).subscription ==
            if k < 0 then s.subscription
            else Some(Subscription(lines[k].message.extranonce1, lines[k].message.extranonce2Size))
  {
    if k < |lines| - 1 {
      IsLastBefore(Subscribes, lines, k);
      LastSubscription(s, lines[..|lines| - 1], k);
    }
  }

  lemma {:induction false} LastJob(s: ClientState, lines: seq<Line>, k: int)
    requires IsLast(Notifies, lines, k)
    ensures FoldLines(s, lines).job == if k < 0 then s.job else Some(lines[k].message.job)
    ensures LastNotify(lines) == if k < 0 then "" else lines[k].raw
  {
    if k < |lines| - 1 {
      IsLastBefore(Notifies, lines, k);
      LastJob(s, lines[..|lines| - 1], k);
    }
  }

  lemma {:induction false} LastDifficulty(s: ClientState, lines: seq<Line>, k: int)
    requires IsLast(SetsDifficulty, lines, k)
    ensures FoldLines(s, lines).difficulty == if k < 0 then s.difficulty else lines[k].message.difficulty
  {
    if k < |lines| - 1 {
      IsLastBefore(SetsDifficulty, lines, k);
      LastDifficulty(s, lines[..|lines| - 1], k);
    }
  }

  /** What a client knows is the last subscription, job and difficulty among the lines it has consumed. */
  lemma KnownIsLast(lines: seq<Line>, subscribed: int, notified: int, adjusted: int)
    requires IsLast(Subscribes, lines, subscribed) && IsLast(Notifies, lines, notified)
    requires IsLast(SetsDifficulty, lines, adjusted)
    ensures FoldLines(FRESH, lines) ==
            ClientState(
              if subscribed < 0 then None
              else Some(Subscription(lines[subscribed].message.extranonce1,
                                     lines[subscribed].message.extranonce2Size)),
              if notified < 0 then None else Some(lines[notified].message.job),
              if adjusted < 0 then 1.0 else lines[adjusted].message.difficulty)
    ensures FoldLines(FRESH, lines).Ready() <==> subscribed >= 0 && notified >= 0
  {
    hide FoldLines, IsLast;
    LastSubscription(FRESH, lines, subscribed);
    LastJob(FRESH, lines, notified);
    LastDifficulty(FRESH, lines, adjusted);
  }

  function RawOf(line: Line): string {
    if line == Blank then "" else line.raw
  }

  /** What the summary describes after a line was handled. */
  function SummaryOf(line: Line): Option<Message> {
    if line.Parsed? then Some(line.message) else None
  }

  /** Empty lines are skipped before they are handled. */
  function SummaryAfter(before: Option<Message>, lines: seq<Line>): Option<Message> {
    if lines == [] then before
    else if lines[|lines| - 1] == Blank then SummaryAfter(before, lines[..|lines| - 1])
    else SummaryOf(lines[|lines| - 1])
  }

  lemma NoSummary(before: Option<Message>, lines: seq<Line>, k: nat)
    requires k <= |lines|
    ensures SummaryAfter(before, lines[k..k]) == before
  {
  }

  lemma SummaryNext(before: Option<Message>, lines: seq<Line>, from: nat, k: nat)
    requires from <= k < |lines|
    ensures SummaryAfter(before, lines[from..k + 1])
         == if lines[k] == Blank then SummaryAfter(before, lines[from..k]) else SummaryOf(lines[k])
  {
    assert lines[from..k + 1][..k - from] == lines[from..k];
  }

  /** What the poll result reports of a line met in a state. */
  predicate Invalidates(s: ClientState, line: Line) {
    line.Parsed?
    && match line.message
       case Notify(_) => true
       case SetDifficulty(d) => d != s.difficulty
       case _ => false
  }

  /**
   The flag is raised by every notification and by nothing that leaves job and difficulty alone. What
   it passes over is exactly a changed subscription.
   */
  lemma InvalidatesExactly(s: ClientState, line: Line)
    ensures ApplyLine(s, line) != s && !Invalidates(s, line) <==> ApplyLine(s, line).subscription != s.subscription
    ensures ApplyLine(s, line).job != s.job || ApplyLine(s, line).difficulty != s.difficulty ==> Invalidates(s, line)
    ensures Invalidates(s, line) && !(line.message.Notify? && s.job == Some(line.message.job)) ==>
        ApplyLine(s, line).job != s.job || ApplyLine(s, line).difficulty != s.difficulty
  {
  }

  /** The answer to the request with this id. */
  predicate Answers(line: Line, id: int) {
    line.Parsed? && line.message.SubmitResponse? && line.message.id == id
  }

  predicate Numbered(sent: seq<Request>) {
    forall i :: 0 <= i < |sent| ==> sent[i].id == i + 1
  }

  // ----- the client -----

  class StratumClient {
    const incoming: seq<Line>
    var consumed: nat
    var sent: seq<Request>
    var nextId: int
    var subscription: Option<Subscription>
    var currentJob: Option<MiningJob>
    var difficulty: real
    var workerName: string
    var lastRawNotify: string
    var lastRawIncoming: string
    var lastRawOutgoing: Option<Request>
    /** The message the parsed summary describes. */
    var lastParsed: Option<Message>

    function State(): ClientState
      reads this
    {
      ClientState(subscription, currentJob, difficulty)
    }

    /** However the lines were consumed, the state is the fold of them, and every id sent is new. */
    ghost predicate Valid()
      reads this
    {
      && consumed <= |incoming|
      && State() == FoldLines(FRESH, incoming[..consumed])
      && lastRawNotify == LastNotify(incoming[..consumed])
      && lastRawIncoming == (if consumed == 0 then "" else RawOf(incoming[consumed - 1]))
      && lastRawOutgoing == (if sent == [] then None else Some(sent[|sent| - 1]))
      && nextId == |sent| + 1 && Numbered(sent)
    }

    constructor (lines: seq<Line>)
      ensures Valid() && incoming == lines && consumed == 0 && sent == [] && workerName == "" && State() == FRESH
    {
      incoming, consumed, sent, nextId := lines, 0, [], 1;
      subscription, currentJob, difficulty := None, None, 1.0;
      workerName, lastRawNotify, lastRawIncoming, lastRawOutgoing, lastParsed := "", "", "", None, None;
    }

    method Subscribe()
      requires Valid()
      modifies this`nextId, this`sent, this`lastRawOutgoing
      ensures Valid() && sent == old(sent) + [SubscribeRequest(old(nextId))]
    {
      Send(SubscribeRequest(nextId));
    }

    /** Sends a request under the next id. */
    method Send(request: Request)
      modifies this`nextId, this`sent, this`lastRawOutgoing
      ensures sent == old(sent) + [request] && nextId == old(nextId) + 1 && lastRawOutgoing == Some(request)
    {
      nextId := nextId + 1;
      lastRawOutgoing := Some(request);
      sent := sent + [request];
    }

    method SuggestDifficulty(d: real) returns (r: ClientResult<()>)
      requires Valid()
      modifies this`nextId, this`sent, this`lastRawOutgoing
      ensures Valid() && (r.Success? <==> d > 0.0)
      ensures r.Success? ==> sent == old(sent) + [SuggestDifficultyRequest(old(nextId), d)]
      ensures r.Failure? ==> r.error == BadDifficulty && sent == old(sent)
    {
      if !(d > 0.0) {
        return Failure(BadDifficulty);
      }
      Send(SuggestDifficultyRequest(nextId, d));
      return Success(());
    }

    method Authorize(user: string, password: string)
      requires Valid()
      modifies this`nextId, this`sent, this`lastRawOutgoing, this`workerName
      ensures Valid() && workerName == user
      ensures sent == old(sent) + [AuthorizeRequest(old(nextId), user, password)]
    {
      workerName := user;
      Send(AuthorizeRequest(nextId, user, password));
    }

    /** Takes the next line off the stream; the end of the stream is an error. */
    method ReadLine() returns (r: ClientResult<Line>)
      requires consumed <= |incoming|
      modifies this`consumed, this`lastRawIncoming
      ensures r.Failure? <==> old(consumed) == |incoming|
      ensures r.Failure? ==>
          r.error == ConnectionClosed && consumed == old(consumed) && lastRawIncoming == old(lastRawIncoming)
      ensures r.Success? ==>
          consumed == old(consumed) + 1 && r.value == incoming[old(consumed)] && lastRawIncoming == RawOf(r.value)
    {
      if consumed == |incoming| {
        return Failure(ConnectionClosed);
      }
      r := Success(incoming[consumed]);
      lastRawIncoming := RawOf(incoming[consumed]);
      consumed := consumed + 1;
    }

    method ApplyParsedMessage(m: Message) returns (r: PollResult)
      modifies this`subscription, this`currentJob, this`difficulty
      ensures State() == Apply(old(State()), m)
      ensures forall raw :: r == PollResult(true, Invalidates(old(State()), Parsed(raw, m)))
    {
      r := PollResult(true, false);
      match m
      case SetDifficulty(d) =>
        if difficulty != d {
          difficulty := d;
          r := PollResult(true, true);
        }
      case Notify(job) =>
        currentJob := Some(job);
        r := PollResult(true, true);
      case SubscribeResponse(_, e, size) =>
        subscription := Some(Subscription(e, size));
      case _ =>
    }

    /** Handles a line that ReadLine has just returned. */
    method HandleMessage(line: Line) returns (r: PollResult)
      modifies this`subscription, this`currentJob, this`difficulty, this`lastRawNotify, this`lastParsed
      ensures State() == ApplyLine(old(State()), line)
      ensures r == PollResult(line.Parsed?, Invalidates(old(State()), line))
      ensures lastRawNotify == if line.Parsed? && line.message.Notify? then line.raw else old(lastRawNotify)
      ensures lastParsed == SummaryOf(line)
    {
      if !line.Parsed? {
        lastParsed := None;
        return PollResult(false, false);
      }
      lastParsed := Some(line.message);
      if line.message.Notify? {
        lastRawNotify := line.raw;
      }
      r := ApplyParsedMessage(line.message);
      assert line == Parsed(line.raw, line.message);
    }

    /** Reads until both a subscription and a job are known, and no further. */
    method RunUntilReady() returns (r: ClientResult<()>)
      requires Valid()
      modifies this`consumed, this`lastRawIncoming, this`subscription, this`currentJob, this`difficulty,
          this`lastRawNotify,
               this`lastParsed
      ensures Valid() && consumed >= old(consumed)
      ensures forall k :: old(consumed) <= k < consumed ==> !FoldLines(FRESH, incoming[..k]).Ready()
      ensures r.Success? <==> State().Ready()
      ensures r.Failure? ==> r.error == ConnectionClosed && consumed == |incoming|
      ensures lastParsed == SummaryAfter(old(lastParsed), incoming[old(consumed)..consumed])
    {
      hide FoldLines, LastNotify, SummaryAfter, SummaryOf, Invalidates, Numbered, Apply;
      NoSummary(lastParsed, incoming, consumed);
      while !(subscription.Some? && currentJob.Some?)
        invariant Valid() && consumed >= old(consumed)
        invariant forall k :: old(consumed) <= k < consumed ==> !FoldLines(FRESH, incoming[..k]).Ready()
        invariant lastParsed == SummaryAfter(old(lastParsed), incoming[old(consumed)..consumed])
        decreases |incoming| - consumed
      {
        if consumed < |incoming| {
          SummaryNext(old(lastParsed), incoming, old(consumed), consumed);
        }
        var handled := ReadAndHandle();
        if handled.Failure? {
          return Failure(handled.error);
        }
      }
      return Success(());
    }

    /** Takes one line and handles it unless it is empty. */
    method ReadAndHandle() returns (r: ClientResult<PollResult>)
      requires Valid()
      modifies this`consumed, this`lastRawIncoming, this`subscription, this`currentJob, this`difficulty,
          this`lastRawNotify,
               this`lastParsed
      ensures Valid()
      ensures r.Failure? <==> old(consumed) == |incoming|
      ensures r.Failure? ==> r.error == ConnectionClosed && consumed == old(consumed) && lastParsed == old(lastParsed)
      ensures r.Success? ==>
          var line := incoming[old(consumed)];
          && consumed == old(consumed) + 1 && r.value == PollResult(line.Parsed?, Invalidates(old(State()), line))
          && lastParsed == if line == Blank then old(lastParsed) else SummaryOf(line)
    {
      hide FoldLines, LastNotify, SummaryOf, Numbered, Apply;
      FoldNextHere();
      var line := ReadLine();
      if line.Failure? {
        return Failure(line.error);
      }
      if line.value == Blank {
        return Success(PollResult(false, false));
      }
      var handled := HandleMessage(line.value);
      return Success(handled);
    }

    lemma FoldNextHere()
      requires consumed <= |incoming|
      ensures consumed < |incoming| ==>
          && FoldLines(FRESH, incoming[..consumed + 1])
              == ApplyLine(FoldLines(FRESH, incoming[..consumed]), incoming[consumed])
          && LastNotify(incoming[..consumed + 1])
             == if incoming[consumed].Parsed? && incoming[consumed].message.Notify? then incoming[consumed].raw
                else LastNotify(incoming[..consumed])
    {
      if consumed < |incoming| {
        FoldNext(FRESH, incoming, consumed);
        LastNotifyNext(incoming, consumed);
      }
    }

    /** At most one line, and only when the socket reports bytes; lines already buffered do not count. */
    method Poll(available: bool) returns (r: ClientResult<PollResult>)
      requires Valid()
      modifies this`consumed, this`lastRawIncoming, this`subscription, this`currentJob, this`difficulty,
          this`lastRawNotify,
               this`lastParsed
      ensures Valid()
      ensures r.Failure? <==> available && old(consumed) == |incoming|
      ensures consumed == if available && r.Success? then old(consumed) + 1 else old(consumed)
      ensures r.Success? ==>
          r.value == if available
                     then PollResult(incoming[old(consumed)].Parsed?, Invalidates(old(State()),
                         incoming[old(consumed)]))
                     else PollResult(false, false)
      ensures lastParsed == SummaryAfter(old(lastParsed), incoming[old(consumed)..consumed])
    {
      hide FoldLines, LastNotify, SummaryAfter, SummaryOf, Numbered, Apply;
      NoSummary(lastParsed, incoming, consumed);
      if !available {
        return Success(PollResult(false, false));
      }
      if consumed < |incoming| {
        SummaryNext(lastParsed, incoming, consumed, consumed);
      }
      r := ReadAndHandle();
    }

    /** Sends the share under a new id and waits for the first answer to that id. */
    method SubmitShare(share: ShareSubmission) returns (r: ClientResult<SubmitShareResult>)
      requires Valid()
      modifies this`consumed, this`lastRawIncoming, this`sent, this`nextId, this`lastRawOutgoing, this`subscription,
               this`currentJob, this`difficulty, this`lastRawNotify, this`lastParsed
      ensures Valid() && old(consumed) <= consumed
      ensures r == Failure(WorkerNameMissing) <==> workerName == ""
      ensures workerName == "" ==> sent == old(sent) && consumed == old(consumed)
      ensures workerName != "" ==> sent == old(sent) + [SubmitRequest(old(nextId), workerName, share)]
      ensures r.Success? ==>
          && consumed > old(consumed)
          && incoming[consumed - 1].Parsed? && incoming[consumed - 1].message.SubmitResponse?
          && incoming[consumed - 1].message.id == old(nextId)
          && (forall k :: old(consumed) <= k < consumed - 1 ==> !Answers(incoming[k], old(nextId)))
          && var m := incoming[consumed - 1];
             r.value == SubmitShareResult(m.message.accepted, m.message.errorText,
                                          SubmitRequest(old(nextId), workerName, share), m.raw)
      ensures r.Success? ==> lastParsed == Some(incoming[consumed - 1].message)
      ensures r == Failure(ConnectionClosed) ==>
          consumed == |incoming| && forall k :: old(consumed) <= k < consumed ==> !Answers(incoming[k], old(nextId))
      ensures r.Failure? ==> r.error == WorkerNameMissing || r.error == ConnectionClosed
    {
      hide FoldLines, LastNotify;
      if workerName == "" {
        return Failure(WorkerNameMissing);
      }
      var submitId := nextId;
      var request := SubmitRequest(submitId, workerName, share);
      Send(request);
      while true
        invariant Valid() && old(consumed) <= consumed
        invariant sent == old(sent) + [request]
        invariant forall k :: old(consumed) <= k < consumed ==> !Answers(incoming[k], submitId)
        decreases |incoming| - consumed
      {
        var line := ReadTowardsAnswer(submitId);
        if line.Failure? {
          return Failure(line.error);
        }
        if Answers(line.value, submitId) {
          var m := line.value.message;
          return Success(SubmitShareResult(m.accepted, m.errorText, request, line.value.raw));
        }
      }
    }

    /** One turn of the wait for an answer: everything but the answer enters the state. */
    method ReadTowardsAnswer(submitId: int) returns (r: ClientResult<Line>)
      requires Valid()
      modifies this`consumed, this`lastRawIncoming, this`subscription, this`currentJob, this`difficulty,
          this`lastRawNotify,
               this`lastParsed
      ensures Valid()
      ensures r.Failure? <==> old(consumed) == |incoming|
      ensures r.Failure? ==> r.error == ConnectionClosed && consumed == old(consumed)
      ensures r.Success? ==> consumed == old(consumed) + 1 && r.value == incoming[old(consumed)]
      ensures r.Success? && r.value.Parsed? ==> lastParsed == Some(r.value.message)
      ensures r.Success? && !r.value.Parsed? ==> lastParsed == old(lastParsed)
    {
      hide FoldLines, LastNotify, Invalidates, Numbered;
      FoldNextHere();
      r := ReadLine();
      if r.Failure? || !r.value.Parsed? {
        return;
      }
      var m := r.value.message;
      lastParsed := Some(m);
      if m.Notify? {
        lastRawNotify := r.value.raw;
      }
      if m.SubmitResponse? && m.id == submitId {
        return;
      }
      var applied := ApplyParsedMessage(m);
    }
  }
}
