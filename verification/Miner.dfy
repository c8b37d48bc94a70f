/**
 The control and worker threads as one transition system. Every step is one atomic operation of
 one thread on what they share: the generation counter, the published slot, the share queue, the
 stop flags. What a thread does with its own data in between is part of the neighbouring step.
 */
module Miner {
  import opened Wrappers
  import opened Sha256
  import opened Header
  import opened Hex
  import opened Work
  import opened Target
  import opened Scan
  import opened Mining
  import opened Stratum

  type Nonce = n: nat | n <= MAX_NONCE

  const CHECK_INTERVAL: nat := 16384

  datatype PublishedWork = PublishedWork(source: PreparedWork, networkTarget: nat, shareTarget: nat, generation: nat,
      difficulty: real)

  // ----- the parts computed from a thread's own data -----

  function Prepare(job: MiningJob, sub: Subscription, counter: nat): Option<PreparedWork> {
    if CanPrepare(job, sub, counter) then Some(Prepared(job, sub, counter)) else None
  }

  /** The share target for a difficulty; None where the conversion is refused. */
  function TargetFor(difficulty: real): Option<nat> {
    var scaled := difficulty * 4294967296.0;
    if difficulty > 0.0 && scaled >= 1.0 && Target.Round(scaled) < 0x8000_0000_0000_0000
    then Some(ShareTargetValue(Target.Round(scaled)))
    else None
  }

  /** The work the client's state stands for; None where preparing it raises an error. */
  function Publishable(client: ClientState, generation: nat): Option<PublishedWork>
    requires client.Ready()
  {
    var job := client.job.value;
    match (Prepare(job, client.subscription.value, 0), TargetFor(client.difficulty))
    case (Some(source), Some(target)) =>
      Some(PublishedWork(source, NetworkTarget(source), target, generation, client.difficulty))
    case _ => None
  }

  function NetworkTarget(source: PreparedWork): nat {
    if HexWithin(source.job.nbits, 8) then CompactValue(WordValue(ReadBe32(BytesOfHex(source.job.nbits)))) else 0
  }

  /** The share the worker builds for a nonce of the prepared work. */
  function ShareAt(pub: PublishedWork, p: PreparedWork, nonce: Nonce): FoundShare {
    var digest := DigestAt(p, nonce);
    FoundShare(Submission(p, NonceWord(nonce)),
               CandidateOf(p, pub.generation, Report(nonce, digest, MeetsTarget(digest, pub.networkTarget))))
  }

  predicate MeetsShareTarget(pub: PublishedWork, p: PreparedWork, nonce: Nonce) {
    MeetsTarget(DigestAt(p, nonce), pub.shareTarget)
  }

  /** WorkState::empty */
  predicate EmptyWork(share: FoundShare) {
    var w := share.candidate.work.source;
    w.job.jobId == "" && w.subscription.extranonce1 == "" && w.coinbase.bytes == []
  }

  // ----- states -----

  datatype Control =
    | Starting
    | Preparing
    | Publishing(next: PublishedWork)
    | LoopTop
    | Draining(didWork: bool)
    | Popped(share: FoundShare)
    | Submitting(share: FoundShare, id: int)
    | Answered(share: FoundShare, accepted: bool)
    | Polling(didWork: bool)
    | Idle
    | Holding(share: FoundShare)
    | PushingBack(share: FoundShare)
    | ControlExited
    | ControlFailed

  datatype Registers = Registers(published: PublishedWork, prepared: PreparedWork, nonce: Nonce, end: Nonce, done: nat)

  datatype Worker =
    | Waiting
    | Looking
    | ChunkTop(r: Registers)
    | Hashing(r: Registers)
    | Checking(r: Registers)
    | Counting(r: Registers, share: FoundShare)
    | Pushing(r: Registers, share: FoundShare)
    | WorkerExited
    | WorkerFailed

  /** The shares counted as found, and where those went that have left the threads and the queue. */
  datatype Tally = Tally(found: multiset<FoundShare>, stale: multiset<FoundShare>, accepted: multiset<FoundShare>,
                         rejected: multiset<FoundShare>, lost: multiset<FoundShare>)

  /** history[g - 1] is the work that was given generation g. */
  datatype State = State(client: ClientState, nextId: int, generation: nat, history: seq<PublishedWork>,
                         slot: Option<PublishedWork>, queue: seq<FoundShare>, control: Control, worker: Worker,
                         stopControl: bool, stopWorker: bool, tally: Tally)

  /** The ids 1 to 3 are used by the messages sent before the first line is read. */
  const INITIAL := State(FRESH, 4, 0, [], None, [], Starting, Waiting, false, false,
                         Tally(multiset{}, multiset{}, multiset{}, multiset{}, multiset{}))

  // ----- steps -----

  /** What the control thread gets from the socket, where it looks at it. */
  datatype Input = Quiet | Received(line: Line) | Broken

  datatype Action = StopControl | StopWorker | ControlMoves(input: Input) | WorkerMoves

  function Step(s: State, a: Action): State {
    match a
    case StopControl => s.(stopControl := true)
    case StopWorker => s.(stopWorker := true)
    case ControlMoves(input) => ControlStep(s, input)
    case WorkerMoves => WorkerStep(s)
  }

  function ControlStep(s: State, input: Input): State {
    match s.control
    case Starting => StartupRead(s, input)
    case Preparing => PrepareToPublish(s)
    case Publishing(next) => s.(slot := Some(next), control := LoopTop)
    case LoopTop => s.(control := if s.stopControl then ControlExited else Draining(false))
    case Draining(didWork) => TryPop(s, didWork)
    case Popped(share) => CheckPopped(s, share)
    case Submitting(share, id) => AwaitAnswer(s, share, id, input)
    case Answered(share, accepted) => CountAnswer(s, share, accepted)
    case Polling(didWork) => Poll(s, didWork, input)
    case Idle => WaitPop(s)
    case Holding(share) => LookAtHeld(s, share)
    case PushingBack(share) => PushBack(s, share)
    case ControlExited => s
    case ControlFailed => s
  }

  function TryPop(s: State, didWork: bool): State {
    if s.queue == [] then s.(control := Polling(didWork)) else s.(queue := s.queue[1..], control := Popped(s.queue[0]))
  }

  /** The idle wait takes a share only to look at it; a stop request or a timeout takes none. */
  function WaitPop(s: State): State {
    if s.stopControl || s.queue == [] then s.(control := LoopTop)
    else s.(queue := s.queue[1..], control := Holding(s.queue[0]))
  }

  function LookAtHeld(s: State, share: FoundShare): State {
    if s.stopControl || EmptyWork(share) then Lose(s, share, LoopTop) else s.(control := PushingBack(share))
  }

  function PushBack(s: State, share: FoundShare): State {
    s.(queue := s.queue + [share], control := LoopTop)
  }

  function CountAnswer(s: State, share: FoundShare, accepted: bool): State {
    var t := s.tally;
    s.(tally := if accepted then t.(accepted := t.accepted + multiset{share})
                else t.(rejected := t.rejected + multiset{share}),
       control := Draining(true))
  }

  function Lose(s: State, share: FoundShare, next: Control): State {
    s.(tally := s.tally.(lost := s.tally.lost + multiset{share}), control := next)
  }

  function StartupRead(s: State, input: Input): State {
    match input
    case Quiet => s
    case Broken => s.(control := ControlFailed)
    case Received(line) =>
      var client := ApplyLine(s.client, line);
      s.(client := client, control := if client.Ready() then Preparing else Starting)
  }

  /** Builds the work and takes the next generation; the slot is written in a later step. */
  function PrepareToPublish(s: State): State {
    if !s.client.Ready() then s.(control := LoopTop)
    else
      match Publishable(s.client, s.generation + 1)
      case None => s.(control := ControlFailed)
      case Some(next) => s.(generation := s.generation + 1, history := s.history + [next], control := Publishing(next))
  }

  function CheckPopped(s: State, share: FoundShare): State {
    if share.candidate.generation != s.generation then
      s.(tally := s.tally.(stale := s.tally.stale + multiset{share}), control := Draining(true))
    else s.(nextId := s.nextId + 1, control := Submitting(share, s.nextId))
  }

  function AwaitAnswer(s: State, share: FoundShare, id: int, input: Input): State {
    match input
    case Quiet => s
    case Broken => Lose(s, share, ControlFailed)
    case Received(line) =>
      if Answers(line, id) then s.(control := Answered(share, line.message.accepted))
      else s.(client := ApplyLine(s.client, line))
  }

  function Poll(s: State, didWork: bool, input: Input): State {
    match input
    case Quiet => s.(control := if didWork then LoopTop else Idle)
    case Broken => s.(control := ControlFailed)
    case Received(line) =>
      s.(client := ApplyLine(s.client, line),
         control := if Invalidates(s.client, line) then Preparing
                    else if line.Parsed? || didWork then LoopTop
                    else Idle)
  }

  function WorkerStep(s: State): State {
    s.(worker := NextWorker(s.worker, s.stopWorker, s.generation, s.slot),
       tally := if s.worker.Counting? then s.tally.(found := s.tally.found + multiset{s.worker.share}) else s.tally,
       queue := if s.worker.Pushing? then s.queue + [s.worker.share] else s.queue)
  }

  /** The worker's own state after a step that sees this stop flag, generation counter and slot. */
  function NextWorker(w: Worker, stop: bool, generation: nat, slot: Option<PublishedWork>): Worker {
    match w
    case Waiting => if stop then WorkerExited else Looking
    case Looking => if slot.None? then Waiting else Adopt(slot.value)
    case ChunkTop(r) => if stop then Waiting else Hashing(BeginChunk(r))
    case Hashing(r) => if stop then WorkerExited else Checking(r.(done := r.done + 1))
    case Checking(r) =>
      if r.done % CHECK_INTERVAL == 0 && generation != r.published.generation then Waiting
      else if MeetsShareTarget(r.published, r.prepared, r.nonce)
      then Counting(r, ShareAt(r.published, r.prepared, r.nonce))
      else AfterNonce(r)
    case Counting(r, share) => Pushing(r, share)
    case Pushing(r, share) => AfterNonce(r)
    case WorkerExited => w
    case WorkerFailed => w
  }

  /** The coordinator prepares the adopted work again from its job and counter. */
  function Adopt(pub: PublishedWork): (w: Worker)
    ensures w.ChunkTop? || w.WorkerFailed?
  {
    match Prepare(pub.source.job, pub.source.subscription, pub.source.counter)
    case None => WorkerFailed
    case Some(p) => ChunkTop(Registers(pub, p, 0, 0, 0))
  }

  function BeginChunk(r: Registers): Registers {
    r.(end := MakeScanChunk(r.nonce, NONCE_CHUNK_SIZE).end, done := 0)
  }

  /** On to the next nonce, the next chunk, or the next extranonce2. */
  function AfterNonce(r: Registers): (w: Worker)
    ensures w.Hashing? || w.ChunkTop? || w.WorkerFailed?
  {
    if r.nonce < r.end then Hashing(r.(nonce := r.nonce + 1))
    else if r.end < MAX_NONCE then ChunkTop(r.(nonce := r.end + 1))
    else
      match Prepare(r.prepared.job, r.prepared.subscription, NextCounter(r.prepared.counter))
      case None => WorkerFailed
      case Some(p) => ChunkTop(r.(prepared := p, nonce := 0))
  }

  /** The states reached by a list of actions. */
  function Run(s: State, actions: seq<Action>): State {
    if actions == [] then s else Step(Run(s, actions[..|actions| - 1]), actions[|actions| - 1])
  }
}
