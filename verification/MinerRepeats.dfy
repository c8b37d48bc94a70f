/** How a share can be found twice, and the same strings submitted twice: exactly when. */
module MinerRepeats {
  import opened Wrappers
  import opened Hex
  import opened Sha256
  import opened Work
  import opened Scan
  import opened Mining
  import opened Target
  import opened Stratum
  import opened Walk
  import opened Miner
  import opened MinerSafety
  import opened MinerTheorems
  import opened MinerOnce
  import opened MinerPublication
  import opened MinerSearch
  import opened MinerControl
  import opened ControlThread

  // ----- from one place of the search space to another -----

  lemma Preparable(job: MiningJob, sub: Subscription, c: nat, c': nat)
    requires Prepare(job, sub, c).Some? && c' <= c
    ensures Prepare(job, sub, c').Some? && Prepare(job, sub, c').value.counter == c' && c <= 0xffff_ffff_ffff_ffff
  {
    hide Prepared, WellFormed, MaxExtranonce2;
    PrepareFields(job, sub, c');
    CounterBound(job, sub, c);
  }

  lemma CounterBound(job: MiningJob, sub: Subscription, c: nat)
    requires CanPrepare(job, sub, c)
    ensures c <= 0xffff_ffff_ffff_ffff
  {
    hide WellFormed, MaxExtranonce2;
    SizeOf(job, sub, c);
    MaxBounds(sub.extranonce2Size);
  }

  lemma StartChunk(s: State)
    requires s.worker.ChunkTop? && s.worker.r.nonce == 0 && !s.stopWorker
    ensures WorkerStep(s) == s.(worker := Hashing(s.worker.r.(end := MAX_NONCE, done := 0)))
  {
  }

  /** From the start of a chunk to one of its nonces. */
  lemma WithinChunk(s: State, n: Nonce) returns (k: nat, found: seq<FoundShare>)
    requires s.worker.ChunkTop? && s.worker.r.nonce == 0 && !s.stopWorker
    requires s.generation == s.worker.r.published.generation || n < CHECK_INTERVAL
    ensures Run(s, Works(k)) == Advanced(s, Hashing(s.worker.r.(nonce := n, end := MAX_NONCE, done := n)), found)
  {
    hide Run, WorkerStep, ReportsOf, FoundOf, Advanced;
    WorksOnce(s);
    StartChunk(s);
    var t := WorkerStep(s);
    var j := StepsAreTheScan(t, n);
    k := 1 + j;
    WorksSplit(s, 1, j);
    found := FoundOf(t.worker.r.prepared, t.worker.r.published.generation,
                     ReportsOf(t.worker.r.prepared, t.worker.r.published.networkTarget,
                               t.worker.r.published.shareTarget, 0, n));
    PlaceInChunk(t.worker.r, n);
    AdvancedFrom(s, t.worker, WorkerAt(t.worker.r, n), found);
  }

  lemma PlaceInChunk(r: Registers, n: Nonce)
    requires r.nonce == 0 && r.end == MAX_NONCE && r.done == 0
    ensures WorkerAt(r, n) == Hashing(r.(nonce := n, done := n))
  {
    hide Prepare;
  }

  lemma AdvancedFrom(s: State, w: Worker, w': Worker, found: seq<FoundShare>)
    ensures Advanced(s.(worker := w), w', found) == Advanced(s, w', found)
  {
  }

  /** Through a whole chunk to the next counter. */
  lemma WholeChunk(s: State) returns (k: nat, found: seq<FoundShare>)
    requires s.worker.ChunkTop? && s.worker.r.nonce == 0 && !s.stopWorker
    requires s.generation == s.worker.r.published.generation
    requires var p := s.worker.r.prepared; Prepare(p.job, p.subscription, NextCounter(p.counter)).Some?
    ensures var r := s.worker.r;
            var p := Prepare(r.prepared.job, r.prepared.subscription, NextCounter(r.prepared.counter)).value;
            Run(s, Works(k))
            == Advanced(s, ChunkTop(r.(prepared := p, nonce := 0, end := MAX_NONCE, done := MAX_NONCE + 1)), found)
  {
    hide Run, WorkerStep, ReportsOf, FoundOf, Advanced, Prepare;
    WorksOnce(s);
    StartChunk(s);
    var t := WorkerStep(s);
    var j := StepsAreTheScan(t, MAX_NONCE + 1);
    k := 1 + j;
    WorksSplit(s, 1, j);
    var r := t.worker.r;
    found := FoundOf(r.prepared, r.published.generation,
                     ReportsOf(r.prepared, r.published.networkTarget, r.published.shareTarget, 0, MAX_NONCE + 1));
    AdvancedFrom(s, t.worker, WorkerAt(r, MAX_NONCE + 1), found);
  }

  /** While its work is current the worker reaches every pair that can be prepared. */
  lemma {:induction false} WorkerReaches(s: State, c: nat, n: Nonce) returns (k: nat, found: seq<FoundShare>, done: nat)
    requires s.worker.ChunkTop? && s.worker.r.nonce == 0 && !s.stopWorker
    requires s.generation == s.worker.r.published.generation
    requires var r := s.worker.r;
             && Prepare(r.prepared.job, r.prepared.subscription, r.prepared.counter) == Some(r.prepared)
             && Prepare(r.prepared.job, r.prepared.subscription, c).Some? && r.prepared.counter <= c
    ensures var r := s.worker.r;
            var p := Prepare(r.prepared.job, r.prepared.subscription, c).value;
            Run(s, Works(k)) == Advanced(s, Hashing(Registers(r.published, p, n, MAX_NONCE, done)), found)
    decreases c - s.worker.r.prepared.counter
  {
    hide Run, WorkerStep, Prepare, Advanced;
    var p := s.worker.r.prepared;
    if p.counter == c {
      k, found := WithinChunk(s, n);
      done := n;
    } else {
      Preparable(p.job, p.subscription, c, p.counter + 1);
      PrepareFields(p.job, p.subscription, p.counter + 1);
      NextIs(p.counter);
      var j, head := WholeChunk(s);
      var t := Run(s, Works(j));
      var next := Prepare(p.job, p.subscription, p.counter + 1).value;
      var start := ChunkTop(s.worker.r.(prepared := next, nonce := 0, end := MAX_NONCE, done := MAX_NONCE + 1));
      AdvancedFields(s, start, head);
      var i, tail, last := WorkerReaches(t, c, n);
      k, found, done := j + i, head + tail, last;
      WorksSplit(s, j, i);
      var end := Hashing(Registers(s.worker.r.published, Prepare(p.job, p.subscription, c).value, n, MAX_NONCE, last));
      AdvancedTwice(s, start, end, head, tail);
    }
  }

  lemma NextIs(c: nat)
    requires c < 0xffff_ffff_ffff_ffff
    ensures NextCounter(c) == c + 1
  {
  }

  // ----- a share found twice -----

  /** A stale worker that looks at the slot between the two halves of a publish. */
  ghost predicate Readopting(s: State) {
    && s.control.Publishing? && s.slot.Some? && !s.stopWorker
    && s.worker.Checking? && s.worker.r.published == s.slot.value && s.worker.r.done % CHECK_INTERVAL == 0
  }

  /** Finding the share that is due at the nonce about to be hashed. */
  lemma FindDue(s: State)
    requires s.worker.Hashing? && !s.stopWorker
    requires var r := s.worker.r;
             && MeetsShareTarget(r.published, r.prepared, r.nonce)
             && ((r.done + 1) % CHECK_INTERVAL != 0 || s.generation == r.published.generation)
    ensures var share := ShareAt(s.worker.r.published, s.worker.r.prepared, s.worker.r.nonce);
            Run(s, Works(3)).tally.found == s.tally.found + multiset{share}
  {
    hide MeetsShareTarget, ShareAt, AfterNonce, Run;
    WorksOnce(s);
    HashStep(s);
    var s1 := WorkerStep(s);
    WorksOnce(s1);
    WorksSplit(s, 1, 1);
    CheckStep(s1);
    var s2 := WorkerStep(s1);
    WorksOnce(s2);
    WorksSplit(s, 2, 1);
  }

  lemma EarnedAt(pub: PublishedWork, x: FoundShare)
    requires Earned(pub, x) && WellPublished(pub, pub.generation) && x.candidate.work.source.counter == 0
    ensures x == ShareAt(pub, pub.source, x.candidate.nonce) && MeetsShareTarget(pub, pub.source, x.candidate.nonce)
  {
    hide Prepare, ShareAt, MeetsShareTarget, TargetFor, NetworkTarget;
    PrepareFields(pub.source.job, pub.source.subscription, 0);
  }

  /** The readopted work is scanned again up to the next check, so an early share is found once more. */
  lemma FoundAgain(s: State, x: FoundShare) returns (k: nat)
    requires HistoryInv(s) && SlotInv(s) && Readopting(s) && Earned(s.slot.value, x) && Place(x) < CHECK_INTERVAL - 1
    ensures Run(s, Works(k)).tally.found[x] > s.tally.found[x]
  {
    hide Run, WorkerStep, Earned, ShareAt, MeetsShareTarget, Prepare, Advanced, HistoryInv, SlotInv, WellPublished,
         Place;
    var pub, n := s.slot.value, x.candidate.nonce;
    PlaceIs(x);
    EarnedNonce(pub, x);
    SlotWell(s);
    EarnedAt(pub, x);
    ReadoptingIsStale(s);
    StaleWorkerAdopts(s);
    var t := Run(s, Works(3));
    var j, found := WithinChunk(t, n);
    WorksSplit(s, 3, j);
    var u, w := Run(t, Works(j)), Hashing(Registers(pub, pub.source, n, MAX_NONCE, n));
    AdvancedFields(t, w, found);
    AdvancedFinds(t, w, found, x);
    FindDue(u);
    WorksSplit(s, 3 + j, 3);
    k := 3 + j + 3;
  }

  lemma PlaceIs(x: FoundShare)
    requires Place(x) < CHECK_INTERVAL - 1
    ensures x.candidate.work.source.counter == 0 && x.candidate.nonce < CHECK_INTERVAL - 1
  {
  }

  lemma EarnedNonce(pub: PublishedWork, x: FoundShare)
    requires Earned(pub, x)
    ensures x.candidate.nonce <= MAX_NONCE
  {
    hide Prepare, ShareAt, MeetsShareTarget;
  }

  lemma SlotWell(s: State)
    requires HistoryInv(s) && SlotInv(s) && s.slot.Some?
    ensures WellPublished(s.slot.value, s.slot.value.generation)
  {
    hide WellPublished;
  }

  lemma AdvancedFinds(s: State, w: Worker, found: seq<FoundShare>, x: FoundShare)
    ensures Advanced(s, w, found).tally.found[x] >= s.tally.found[x]
  {
  }

  /** A worker past its check on work that is no longer current, and not stopped. */
  ghost predicate FoundStale(s: State) {
    && s.slot.Some? && !s.stopWorker && s.worker.Checking?
    && s.worker.r.done % CHECK_INTERVAL == 0 && s.generation != s.worker.r.published.generation
  }

  /**
   When the hashes left are used up: a worker found stale takes the work in the slot in its next
   three steps, from the first pair on, so work of every generation published by then is left behind.
   */
  lemma StaleWorkerAdopts(s: State)
    requires HistoryInv(s) && SlotInv(s) && FoundStale(s)
    ensures Run(s, Works(3)) == s.(worker := ChunkTop(Registers(s.slot.value, s.slot.value.source, 0, 0, 0)))
    ensures Run(s, Works(3)).worker.r.published.generation == SlotGeneration(s)
  {
    hide Run, HistoryInv, SlotInv, WorkerStep;
    WorksOnce(s);
    StaleStep(s);
    SameSlot(s, Waiting);
    SameSlot(s, Looking);
    var s1 := s.(worker := Waiting);
    WorksOnce(s1);
    WorksSplit(s, 1, 1);
    LookStep(s1);
    var s2 := s.(worker := Looking);
    WorksOnce(s2);
    WorksSplit(s, 2, 1);
    AdoptStep(s2);
  }

  lemma ReadoptingIsStale(s: State)
    requires SlotInv(s) && Readopting(s)
    ensures FoundStale(s)
  {
  }

  lemma SameSlot(s: State, w: Worker)
    requires HistoryInv(s) && SlotInv(s)
    ensures HistoryInv(s.(worker := w)) && SlotInv(s.(worker := w))
  {
    hide WellPublished;
  }

  lemma StaleStep(s: State)
    requires FoundStale(s)
    ensures WorkerStep(s) == s.(worker := Waiting)
  {
    hide MeetsShareTarget, ShareAt, AfterNonce;
  }

  lemma LookStep(s: State)
    requires s.worker.Waiting? && !s.stopWorker
    ensures WorkerStep(s) == s.(worker := Looking)
  {
  }

  lemma AdoptStep(s: State)
    requires HistoryInv(s) && SlotInv(s) && s.slot.Some? && s.worker.Looking?
    ensures WorkerStep(s) == s.(worker := ChunkTop(Registers(s.slot.value, s.slot.value.source, 0, 0, 0)))
  {
    hide Prepare, HistoryInv, SlotInv, TargetFor, NetworkTarget;
    SlotWell(s);
    PrepareFields(s.slot.value.source.job, s.slot.value.source.subscription, 0);
  }

  /** A worker on the work of an older generation does not get past its next check. */
  ghost predicate Confined(s: State, g: nat) {
    s.generation > g
    && (Scanning(s.worker) && s.worker.r.published.generation == g ==>
          || (s.worker.Checking? && s.worker.r.done % CHECK_INTERVAL == 0)
          || (s.worker.r.prepared.counter == 0
              && if s.worker.Counting? || s.worker.Pushing? then s.worker.r.nonce < CHECK_INTERVAL - 1
                 else s.worker.r.nonce < CHECK_INTERVAL))
  }

  lemma ConfinedKept(s: State, a: Action, g: nat)
    requires Inv(s) && Confined(s, g)
    ensures Confined(Step(s, a), g)
  {
    hide Step, WorkerStep, Inv, Confined, HistoryInv, SlotInv, WorkerInv;
    InvParts(s);
    if a.WorkerMoves? {
      WorkerMovesStep(s);
      WorkerConfined(s, g);
    } else {
      ControlLeaves(s, a);
      GenerationGrows(s, a);
      SameWorkerConfined(s, Step(s, a), g);
    }
  }

  lemma SameWorkerConfined(s: State, t: State, g: nat)
    requires Confined(s, g) && t.worker == s.worker && t.generation >= s.generation
    ensures Confined(t, g)
  {
  }

  lemma GenerationGrows(s: State, a: Action)
    ensures Step(s, a).generation >= s.generation
  {
    hide Step, WellPublished;
    StepShape(s, a);
  }

  lemma WorkerConfined(s: State, g: nat)
    requires HistoryInv(s) && SlotInv(s) && WorkerInv(s) && Confined(s, g)
    ensures Confined(WorkerStep(s), g)
  {
    hide HistoryInv, SlotInv, Prepare, ShareAt, MeetsShareTarget, AfterNonce;
    if s.worker.Looking? && s.slot.Some? {
      AdoptStep(s);
      SlotStartsAtZero(s);
    } else if s.worker.Checking? || s.worker.Pushing? {
      SamePublished(s.worker.r);
      if s.worker.r.nonce < CHECK_INTERVAL - 1 {
        NonceConfined(s.worker.r);
      }
    }
  }

  lemma NonceConfined(r: Registers)
    requires r.nonce < CHECK_INTERVAL - 1 && r.end == MAX_NONCE
    ensures AfterNonce(r) == Hashing(r.(nonce := r.nonce + 1))
  {
  }

  /** A confined worker finds no share that lies further on. */
  lemma ConfinedFinds(s: State, a: Action, g: nat, x: FoundShare)
    requires Inv(s) && Confined(s, g) && x.candidate.generation == g && Place(x) >= CHECK_INTERVAL - 1
    ensures Step(s, a).tally.found[x] == s.tally.found[x]
  {
    hide Step, Inv, Confined, Place, WorkerInv, SlotInv, HistoryInv;
    FoundGrows(s, a);
    InvParts(s);
    if a.WorkerMoves? && s.worker.Counting? && s.worker.share == x {
      OwnPlace(s, g, x);
    }
  }

  lemma OwnPlace(s: State, g: nat, x: FoundShare)
    requires WorkerInv(s) && Confined(s, g) && s.worker.Counting? && s.worker.share == x && x.candidate.generation == g
    ensures Place(x) < CHECK_INTERVAL - 1
  {
    hide Prepare, ShareAt, MeetsShareTarget;
    var r := s.worker.r;
    ShareAtIsEarned(r.published, r.prepared, r.nonce);
  }

  lemma {:induction false} StaysConfined(s: State, actions: seq<Action>, g: nat, x: FoundShare)
    requires Inv(s) && Confined(s, g) && x.candidate.generation == g && Place(x) >= CHECK_INTERVAL - 1
    ensures Inv(Run(s, actions)) && Confined(Run(s, actions), g) && Run(s, actions).tally.found[x] == s.tally.found[x]
  {
    hide Step, Inv, Confined, Place;
    if actions != [] {
      var before, a := actions[..|actions| - 1], actions[|actions| - 1];
      StaysConfined(s, before, g, x);
      InvKept(Run(s, before), a);
      ConfinedKept(Run(s, before), a, g);
      ConfinedFinds(Run(s, before), a, g, x);
    }
  }

  /**
   From a state in which the worker readopts, a share of the readopted work can be found again if
   and only if it lies before the first check: at the first counter, among the first 16383 nonces.
   */
  lemma FoundAgainExactly(s: State, x: FoundShare)
    requires Inv(s) && Readopting(s) && Earned(s.slot.value, x)
    ensures (exists actions :: Run(s, actions).tally.found[x] > s.tally.found[x]) <==> Place(x) < CHECK_INTERVAL - 1
  {
    hide Run, Inv, Earned, Place;
    InvParts(s);
    if Place(x) < CHECK_INTERVAL - 1 {
      var k := FoundAgain(s, x);
    } else {
      EarnedGeneration(s.slot.value, x);
      ReadoptingConfined(s);
      forall actions ensures Run(s, actions).tally.found[x] <= s.tally.found[x] {
        StaysConfined(s, actions, s.slot.value.generation, x);
      }
    }
  }

  lemma EarnedGeneration(pub: PublishedWork, x: FoundShare)
    requires Earned(pub, x)
    ensures x.candidate.generation == pub.generation
  {
    hide Prepare, ShareAt, MeetsShareTarget;
    ShareAtIsEarned(pub, x.candidate.work.source, x.candidate.nonce);
  }

  lemma ReadoptingConfined(s: State)
    requires SlotInv(s) && Readopting(s)
    ensures Confined(s, s.slot.value.generation)
  {
  }

  /** The worker is on readopted work, before its next check. */
  predicate Early(s: State) {
    && Scanning(s.worker) && s.generation > s.worker.r.published.generation
    && s.worker.r.prepared.counter == 0
    && if s.worker.Counting? || s.worker.Pushing? then s.worker.r.nonce < CHECK_INTERVAL - 1
       else s.worker.r.nonce < CHECK_INTERVAL
  }

  /** What has been found of the worker's own work lies behind it, unless that work is readopted. */
  ghost predicate BehindOrEarly(s: State) {
    Scanning(s.worker) ==> Below(s.tally.found, s.worker.r.published.generation, Limit(s.worker)) || Early(s)
  }

  ghost predicate TwiceIsEarly(found: multiset<FoundShare>) {
    forall x :: found[x] > 1 ==> Place(x) < CHECK_INTERVAL - 1
  }

  lemma BelowGrows(found: multiset<FoundShare>, x: FoundShare)
    requires Below(found, x.candidate.generation, Place(x))
    ensures Below(found + multiset{x}, x.candidate.generation, Place(x) + 1) && found[x] == 0
  {
    hide Place;
  }

  lemma TwiceGrows(found: multiset<FoundShare>, x: FoundShare)
    requires TwiceIsEarly(found) && (found[x] == 0 || Place(x) < CHECK_INTERVAL - 1)
    ensures TwiceIsEarly(found + multiset{x})
  {
    hide Place;
  }

  lemma NoneIsBelow(found: multiset<FoundShare>, g: nat, limit: nat)
    requires NoneOf(found, g)
    ensures Below(found, g, limit)
  {
    hide Place;
  }

  lemma CountingEarly(s: State)
    requires WorkerInv(s) && BehindOrEarly(s) && TwiceIsEarly(s.tally.found) && s.worker.Counting?
    ensures BehindOrEarly(WorkerStep(s)) && TwiceIsEarly(WorkerStep(s).tally.found)
  {
    hide Prepare, ShareAt, MeetsShareTarget, Below, TwiceIsEarly, Position.Linear;
    var r, x := s.worker.r, s.worker.share;
    ShareAtIsEarned(r.published, r.prepared, r.nonce);
    if Below(s.tally.found, r.published.generation, Limit(s.worker)) {
      BelowGrows(s.tally.found, x);
    } else {
      EarlyPlace(r.nonce, x);
    }
    TwiceGrows(s.tally.found, x);
  }

  lemma EarlyPlace(n: nat, x: FoundShare)
    requires n < CHECK_INTERVAL - 1 && x.candidate.work.source.counter == 0 && x.candidate.nonce == n
    ensures Place(x) < CHECK_INTERVAL - 1
  {
  }

  lemma NonceEarly(s: State)
    requires WorkerInv(s) && BehindOrEarly(s) && Onward(s.worker) && (s.worker.Checking? || s.worker.Pushing?)
    ensures BehindOrEarly(WorkerStep(s)) && WorkerStep(s).tally.found == s.tally.found
  {
    hide Prepare, ShareAt, MeetsShareTarget, AfterNonce, Below, Position.Linear;
    var r, found, g := s.worker.r, s.tally.found, s.worker.r.published.generation;
    NextPlace(s.worker);
    if Below(found, g, Limit(s.worker)) {
      AheadMonotone(found, g, Limit(s.worker), Position(r.prepared.counter, r.nonce).Linear() + 1);
    } else if r.nonce < CHECK_INTERVAL - 1 {
      NonceConfined(r);
    }
  }

  lemma LookingEarly(s: State)
    requires HistoryInv(s) && SlotInv(s) && OnceInv(s) && s.worker.Looking?
    ensures BehindOrEarly(WorkerStep(s)) && WorkerStep(s).tally.found == s.tally.found
  {
    hide HistoryInv, SlotInv, FoundOnce, SubmittedOnce, NoneOf, Below, Adopt, Prepare;
    if s.slot.Some? {
      AdoptStep(s);
      SlotStartsAtZero(s);
      SlotAge(s);
      if s.slot.value.generation == s.generation {
        NoneIsBelow(s.tally.found, s.generation, Limit(WorkerStep(s).worker));
      }
    } else {
      NothingThere(s);
    }
  }

  lemma NothingThere(s: State)
    requires s.worker.Looking? && s.slot.None?
    ensures WorkerStep(s) == s.(worker := Waiting)
  {
  }

  lemma SlotAge(s: State)
    requires SlotInv(s) && s.slot.Some?
    ensures s.slot.value.generation <= s.generation
  {
  }

  lemma OtherEarly(s: State)
    requires BehindOrEarly(s)
    requires !s.worker.Looking? && !s.worker.Counting? && !s.worker.Checking? && !s.worker.Pushing?
    ensures WorkerInv(s) ==> BehindOrEarly(WorkerStep(s))
    ensures WorkerStep(s).tally.found == s.tally.found
  {
    hide Below, Position.Linear, Prepare, ShareAt, MeetsShareTarget;
  }

  lemma EarlyKept(s: State, a: Action)
    requires Inv(s) && OnceInv(s) && Onward(s.worker) && BehindOrEarly(s) && TwiceIsEarly(s.tally.found)
    ensures BehindOrEarly(Step(s, a)) && TwiceIsEarly(Step(s, a).tally.found)
  {
    hide Step, WorkerStep, Inv, OnceInv, BehindOrEarly, TwiceIsEarly, Onward;
    InvParts(s);
    if a.WorkerMoves? {
      WorkerMovesStep(s);
      WorkerEarly(s);
    } else {
      ControlLeaves(s, a);
      GenerationGrows(s, a);
      SameWorkerEarly(s, Step(s, a));
    }
  }

  lemma SameWorkerEarly(s: State, t: State)
    requires BehindOrEarly(s) && t.worker == s.worker && t.tally.found == s.tally.found && t.generation >= s.generation
    ensures BehindOrEarly(t)
  {
    hide Below, Limit;
  }

  lemma WorkerEarly(s: State)
    requires HistoryInv(s) && SlotInv(s) && WorkerInv(s) && OnceInv(s) && Onward(s.worker)
    requires BehindOrEarly(s) && TwiceIsEarly(s.tally.found)
    ensures BehindOrEarly(WorkerStep(s)) && TwiceIsEarly(WorkerStep(s).tally.found)
  {
    hide WorkerStep, HistoryInv, SlotInv, WorkerInv, OnceInv, Onward, BehindOrEarly, TwiceIsEarly;
    if s.worker.Looking? {
      LookingEarly(s);
    } else if s.worker.Counting? {
      CountingEarly(s);
    } else if s.worker.Checking? || s.worker.Pushing? {
      NonceEarly(s);
    } else {
      OtherEarly(s);
    }
  }

  lemma {:induction false} EarlyReachable(actions: seq<Action>)
    requires Narrow(Run(INITIAL, actions).history) || |actions| < PAIRS
    ensures BehindOrEarly(Run(INITIAL, actions)) && TwiceIsEarly(Run(INITIAL, actions).tally.found)
  {
    hide Step, Inv, OnceInv, Onward, BehindOrEarly, TwiceIsEarly, Narrow;
    if actions != [] {
      var before, a := actions[..|actions| - 1], actions[|actions| - 1];
      var s := Run(INITIAL, before);
      Reachable(before);
      InvKept(s, a);
      NarrowBefore(s, Run(INITIAL, actions));
      OnceReachable(before);
      OnwardBefore(before);
      EarlyReachable(before);
      EarlyKept(s, a);
    } else {
      InitialEarly();
    }
  }

  lemma NarrowBefore(s: State, t: State)
    requires s.history <= t.history
    ensures Narrow(t.history) ==> Narrow(s.history)
  {
  }

  lemma InitialEarly()
    ensures BehindOrEarly(INITIAL) && TwiceIsEarly(INITIAL.tally.found)
  {
  }

  lemma OnwardBefore(actions: seq<Action>)
    requires Narrow(Run(INITIAL, actions).history) || |actions| + 1 < PAIRS
    ensures Onward(Run(INITIAL, actions).worker)
  {
    hide Run, Inv, Onward, Progress, Narrow;
    Reachable(actions);
    InvParts(Run(INITIAL, actions));
    ProgressReachable(actions);
    if |actions| + 1 < PAIRS {
      ShortIsOnward(Run(INITIAL, actions).worker);
    } else {
      NarrowIsOnward(Run(INITIAL, actions));
    }
  }

  /**
   In every run, a share is found more than once only under a generation no longer current, and only
   from before the first check of its work: at the first counter, among the first 16383 nonces.
   */
  lemma FoundTwiceIsEarly(actions: seq<Action>, x: FoundShare)
    requires Narrow(Run(INITIAL, actions).history) || |actions| < PAIRS
    requires Run(INITIAL, actions).tally.found[x] > 1
    ensures 0 < x.candidate.generation < Run(INITIAL, actions).generation && Place(x) < CHECK_INTERVAL - 1
  {
    hide Run, Ahead, SubmittedOnce, HistoryInv, SlotInv, WorkerInv, Conserved, SubmitInv, LostInv, Earned, Place,
         Narrow, BehindOrEarly;
    Reachable(actions);
    OnceReachable(actions);
    EarlyReachable(actions);
    HistoryLength(Run(INITIAL, actions));
  }

  lemma HistoryLength(s: State)
    requires HistoryInv(s)
    ensures s.generation == |s.history|
  {
    hide WellPublished;
  }

  /** Such a state arises when a generation is taken just before the worker's check. */
  lemma ReadoptingArises(s: State)
    requires SlotInv(s) && s.control.Preparing? && s.client.Ready() && Publishable(s.client, s.generation + 1).Some?
    requires s.slot.Some? && !s.stopWorker
    requires s.worker.Hashing? && s.worker.r.published == s.slot.value && (s.worker.r.done + 1) % CHECK_INTERVAL == 0
    ensures Readopting(WorkerStep(ControlStep(s, Quiet)))
  {
    hide Publishable, WorkerStep, ControlStep;
    PreparingStep(s, Quiet);
    HashStep(ControlStep(s, Quiet));
  }

  // ----- the same strings under two generations -----

  /** The strings of two earned shares are equal exactly when these four parts are. */
  lemma SameStringsExactly(pub: PublishedWork, again: PublishedWork, x: FoundShare, y: FoundShare)
    requires Earned(pub, x) && Earned(again, y)
    ensures x.submission == y.submission <==>
              && pub.source.job.jobId == again.source.job.jobId && pub.source.job.ntime == again.source.job.ntime
              && x.candidate.work.source.extranonce2Hex == y.candidate.work.source.extranonce2Hex
              && x.candidate.nonce == y.candidate.nonce
  {
    hide Prepared, MaxExtranonce2, ExtranonceHex, MeetsTarget, DigestAt, NonceWord, WellFormed, HexOf, WriteBe32;
    var p, q := x.candidate.work.source, y.candidate.work.source;
    PreparedFields(pub.source.job, pub.source.subscription, p.counter);
    PreparedFields(again.source.job, again.source.subscription, q.counter);
    if HexOf(WriteBe32(NonceWord(x.candidate.nonce))) == HexOf(WriteBe32(NonceWord(y.candidate.nonce))) {
      SameNonceText(x.candidate.nonce, y.candidate.nonce);
    }
  }

  lemma PlacedIsEarned(s: State, x: FoundShare)
    requires Inv(s) && Submitted(s, x) > 0
    ensures EarnedIn(s.history, x)
  {
    hide HistoryInv, SlotInv, WorkerInv, SubmitInv, LostInv, EarnedIn, Pending;
    assert Placed(s, x) >= Submitted(s, x);
    PlacedIsFound(s, x);
  }

  /**
   Exactly when two different submitted shares of a run carry the same strings: they are of different
   generations, whose jobs share id and ntime, and agree in extranonce2 and nonce.
   */
  lemma RepeatedStringsExactly(actions: seq<Action>, x: FoundShare, y: FoundShare)
    requires var s := Run(INITIAL, actions); Submitted(s, x) > 0 && Submitted(s, y) > 0 && x != y
    ensures var h, g, g' := Run(INITIAL, actions).history, x.candidate.generation, y.candidate.generation;
            && 0 < g <= |h| && 0 < g' <= |h|
            && (x.submission == y.submission <==>
                  && g != g'
                  && h[g - 1].source.job.jobId == h[g' - 1].source.job.jobId
                  && h[g - 1].source.job.ntime == h[g' - 1].source.job.ntime
                  && x.candidate.work.source.extranonce2Hex == y.candidate.work.source.extranonce2Hex
                  && x.candidate.nonce == y.candidate.nonce)
  {
    hide Run, Earned, Inv, Submitted;
    Reachable(actions);
    var s := Run(INITIAL, actions);
    PlacedIsEarned(s, x);
    PlacedIsEarned(s, y);
    SameStringsExactly(s.history[x.candidate.generation - 1], s.history[y.candidate.generation - 1], x, y);
    if x.submission == y.submission && x.candidate.generation == y.candidate.generation {
      SameStringsSameShare(s.history[x.candidate.generation - 1], x, y);
    }
  }

  // ----- submitted twice -----

  /** A message with another difficulty, read by a poll, is published with the same job. */
  lemma Republish(s: State, d: real) returns (actions: seq<Action>)
    requires HistoryInv(s) && InTouch(s) && s.control.Polling? && d != s.client.difficulty && TargetFor(d).Some?
    ensures var pub := s.history[|s.history| - 1];
            var again := PublishedWork(pub.source, pub.networkTarget, TargetFor(d).value, s.generation + 1, d);
            Run(s, actions) == s.(client := s.client.(difficulty := d), generation := s.generation + 1,
                                  history := s.history + [again], slot := Some(again), control := LoopTop)
  {
    hide Run, ControlStep, TargetFor, Publishable, HistoryInv, NetworkTarget;
    var line := Parsed("", SetDifficulty(d));
    PollStep(s, line);
    var t := s.(client := s.client.(difficulty := d), control := Preparing);
    ControlOnce(s, Received(line));
    SamePublishable(s, d);
    PublishIsARun(t);
    RunConcat(s, [ControlMoves(Received(line))], [ControlMoves(Quiet), ControlMoves(Quiet)]);
    actions := [ControlMoves(Received(line))] + [ControlMoves(Quiet), ControlMoves(Quiet)];
  }

  lemma PollStep(s: State, line: Line)
    requires s.control.Polling? && line.Parsed? && line.message.SetDifficulty?
        && line.message.difficulty != s.client.difficulty
    ensures ControlStep(s, Received(line))
         == s.(client := s.client.(difficulty := line.message.difficulty), control := Preparing)
  {
    hide StartupRead, PrepareToPublish, TryPop, CheckPopped, AwaitAnswer, CountAnswer, WaitPop, LookAtHeld, PushBack;
  }

  lemma SamePublishable(s: State, d: real)
    requires HistoryInv(s) && InTouch(s) && TargetFor(d).Some?
    ensures var pub := s.history[|s.history| - 1];
            && s.client.Ready()
            && Publishable(s.client.(difficulty := d), s.generation + 1)
               == Some(PublishedWork(pub.source, pub.networkTarget, TargetFor(d).value, s.generation + 1, d))
  {
    hide Prepare, NetworkTarget, TargetFor;
    var pub := s.history[|s.history| - 1];
    assert WellPublished(pub, |s.history|);
  }

  /** A waiting worker takes the work in the slot. */
  lemma TakesSlot(s: State) returns (k: nat)
    requires s.worker.Waiting? && !s.stopWorker && s.slot.Some?
    requires var source := s.slot.value.source; Prepare(source.job, source.subscription, 0) == Some(source)
    ensures Run(s, Works(k)) == s.(worker := ChunkTop(Registers(s.slot.value, s.slot.value.source, 0, 0, 0)))
  {
    hide Run, WorkerStep, Prepare;
    WorksOnce(s);
    LookStep(s);
    var t := s.(worker := Looking);
    WorksOnce(t);
    WorksSplit(s, 1, 1);
    TakeStepOf(t);
    k := 2;
  }

  lemma TakeStepOf(s: State)
    requires s.worker.Looking? && s.slot.Some?
    requires var source := s.slot.value.source; Prepare(source.job, source.subscription, 0) == Some(source)
    ensures WorkerStep(s) == s.(worker := ChunkTop(Registers(s.slot.value, s.slot.value.source, 0, 0, 0)))
  {
    hide Prepare;
    PrepareFields(s.slot.value.source.job, s.slot.value.source.subscription, 0);
  }

  /** A share that can be prepared and meets the target of current work gets into the queue. */
  lemma GetsQueued(s: State, x: FoundShare) returns (k: nat, w: Worker, found: seq<FoundShare>)
    requires s.worker.Waiting? && !s.stopWorker && s.slot.Some? && s.slot.value.generation == s.generation
    requires var source := s.slot.value.source; Prepare(source.job, source.subscription, 0) == Some(source)
    requires Earned(s.slot.value, x)
    ensures Run(s, Works(k)) == Advanced(s, w, found) && x in found
  {
    hide Run, Prepare, Advanced, ShareAt, MeetsShareTarget, AfterNonce;
    var pub, c, n := s.slot.value, x.candidate.work.source.counter, x.candidate.nonce;
    PrepareFields(pub.source.job, pub.source.subscription, 0);
    var k1 := TakesSlot(s);
    var start := ChunkTop(Registers(pub, pub.source, 0, 0, 0));
    var t := s.(worker := start);
    var k2, head, done := WorkerReaches(t, c, n);
    WorksSplit(s, k1, k2);
    var at := Hashing(Registers(pub, x.candidate.work.source, n, MAX_NONCE, done));
    AdvancedFields(t, at, head);
    var u := Advanced(t, at, head);
    var k3 := WorkNonce(u);
    WorksSplit(s, k1 + k2, k3);
    k := k1 + k2 + k3;
    w := AfterNonce(at.r.(done := done + 1));
    found := head + [x];
    AdvancedTwice(t, at, w, head, [x]);
    AdvancedFrom(s, start, w, found);
  }

  /** Under the same job with another target, a share that meets it too is earned with the same strings. */
  lemma EarnedAgain(pub: PublishedWork, again: PublishedWork, x: FoundShare)
    requires Earned(pub, x) && again.source == pub.source && MeetsTarget(x.candidate.hash, again.shareTarget)
    ensures var y := ShareAt(again, x.candidate.work.source, x.candidate.nonce);
            && Earned(again, y) && y.candidate.generation == again.generation && y.submission == x.submission
  {
    hide Prepared, CanPrepare, MeetsTarget, DigestAt, NonceWord, HexOf;
    ShareAtIsEarned(again, x.candidate.work.source, x.candidate.nonce);
  }

  lemma {:induction false} CurrentHolds(items: seq<FoundShare>, x: FoundShare)
    requires x in items
    ensures x in Current(items, x.candidate.generation)
  {
    if items[0] != x {
      CurrentHolds(items[1..], x);
    }
  }

  lemma {:induction false} AllChosen(items: seq<FoundShare>, verdict: FoundShare -> bool, x: FoundShare)
    requires x in items && verdict(x)
    ensures x in Chosen(items, verdict, true)
  {
    if items[0] != x {
      AllChosen(items[1..], verdict, x);
    }
  }

  lemma TopStep(s: State)
    requires s.control.LoopTop? && !s.stopControl
    ensures ControlStep(s, Quiet) == s.(control := Draining(false))
  {
    hide StartupRead, PrepareToPublish, TryPop, CheckPopped, AwaitAnswer, CountAnswer, Poll, WaitPop, LookAtHeld,
         PushBack;
  }

  /** From the top of the control loop, a queued share of the current generation gets submitted. */
  lemma GetsSubmitted(s: State, y: FoundShare) returns (actions: seq<Action>)
    requires s.control.LoopTop? && !s.stopControl && y in s.queue && y.candidate.generation == s.generation
    ensures var t := Run(s, actions);
            Submitted(t, y) > 0 && t.tally.accepted >= s.tally.accepted && t.tally.rejected >= s.tally.rejected
  {
    hide Run, ControlStep;
    var verdict := (x: FoundShare) => true;
    var t := s.(control := Draining(false));
    TopStep(s);
    ControlOnce(s, Quiet);
    var drain := DrainIsARun(t, false, verdict);
    RunConcat(s, [ControlMoves(Quiet)], drain);
    actions := [ControlMoves(Quiet)] + drain;
    CurrentHolds(s.queue, y);
    AllChosen(Current(s.queue, s.generation), verdict, y);
  }

  /**
   The same strings do get submitted twice: from any state in touch with a waiting worker, a share of
   the current work whose hash meets the target of another difficulty too is found and submitted
   under the next generation when the server sends that difficulty.
   */
  lemma SubmittedAgain(s: State, d: real, x: FoundShare) returns (actions: seq<Action>, y: FoundShare)
    requires HistoryInv(s) && InTouch(s) && s.control.Polling? && s.worker.Waiting? && !s.stopControl && !s.stopWorker
    requires Earned(s.history[|s.history| - 1], x)
    requires d != s.client.difficulty && TargetFor(d).Some? && MeetsTarget(x.candidate.hash, TargetFor(d).value)
    ensures var t := Run(s, actions);
            && Submitted(t, y) > 0 && Submitted(t, x) >= Submitted(s, x)
            && y.submission == x.submission && y.candidate.generation == x.candidate.generation + 1
  {
    hide Run, TargetFor, MeetsTarget, Earned, ShareAt, MeetsShareTarget, Prepare, Drained;
    var pub := s.history[|s.history| - 1];
    var again := PublishedWork(pub.source, pub.networkTarget, TargetFor(d).value, s.generation + 1, d);
    LastWell(s);
    EarnedNonce(pub, x);
    EarnedGeneration(pub, x);
    EarnedAgain(pub, again, x);
    y := ShareAt(again, x.candidate.work.source, x.candidate.nonce);
    var a1 := Republish(s, d);
    var s1 := Run(s, a1);
    var k, w, found := GetsQueued(s1, y);
    RunConcat(s, a1, Works(k));
    var s2 := Run(s1, Works(k));
    var a3 := GetsSubmitted(s2, y);
    RunConcat(s, a1 + Works(k), a3);
    actions := a1 + Works(k) + a3;
    EarlierStay(s, Run(s, actions), x);
  }

  lemma LastWell(s: State)
    requires HistoryInv(s) && s.history != []
    ensures var pub := s.history[|s.history| - 1];
            pub.generation == s.generation && Prepare(pub.source.job, pub.source.subscription, 0) == Some(pub.source)
  {
    hide Prepare, TargetFor, NetworkTarget;
    assert WellPublished(s.history[|s.history| - 1], |s.history|);
  }

  lemma EarlierStay(s: State, t: State, x: FoundShare)
    requires !InSubmission(s.control) && t.tally.accepted >= s.tally.accepted && t.tally.rejected >= s.tally.rejected
    ensures Submitted(t, x) >= Submitted(s, x)
  {
  }
}
