/** The worker's walk through the search space: which (extranonce2, nonce) pairs it scans, and in what order. */
module Walk {
  import opened Wrappers
  import opened BitMath
  import opened Bytes
  import opened Uint256
  import opened Header
  import opened Work
  import opened Scan
  import opened Mining

  const NONCES: nat := 0x1_0000_0000
  const PAIRS: nat := 0x1_0000_0000_0000_0000_0000_0000

  datatype Position = Position(counter: nat, nonce: nat) {
    predicate Valid(size: nat)
      requires size <= 8
    {
      counter <= MaxExtranonce2(size) && nonce <= MAX_NONCE
    }

    /** The pair as one number: nonces run fastest. */
    function Linear(): nat {
      counter * NONCES + nonce
    }
  }

  lemma LinearIsLexicographic(p: Position, q: Position)
    requires p.nonce <= MAX_NONCE && q.nonce <= MAX_NONCE
    ensures p.Linear() < q.Linear() <==> p.counter < q.counter || (p.counter == q.counter && p.nonce < q.nonce)
    ensures p.Linear() == q.Linear() <==> p == q
  {
  }

  // ----- one chunk -----

  /** The position after an exhausted chunk; None stands for the overflow error. */
  function Next(size: nat, p: Position, chunkSize: nat): Option<Position>
    requires size <= 8 && p.nonce <= MAX_NONCE && chunkSize >= 1
  {
    var c := MakeScanChunk(p.nonce, chunkSize);
    if c.end < MAX_NONCE then Some(Position(p.counter, c.end + 1))
    else if NextCounter(p.counter) > MaxExtranonce2(size) then None
    else Some(Position(NextCounter(p.counter), 0))
  }

  /** The pairs a chunk scans when it is exhausted. */
  function ChunkPairs(p: Position, chunkSize: nat): seq<Position>
    requires p.nonce <= MAX_NONCE && chunkSize >= 1
  {
    var c := MakeScanChunk(p.nonce, chunkSize);
    seq(c.hashes, i requires 0 <= i < c.hashes => Position(p.counter, c.begin + i))
  }

  /** What a scan of the chunk hands over: the submissions for exactly the reports owed. */
  ghost predicate ChunkScanned(p: PreparedWork, network: nat, share: nat, chunk: ScanChunk, c: ScanControl,
                               result: ScanResult, found: seq<FoundShare>) {
    && chunk.begin + chunk.hashes <= NONCES
    && StopsCorrectly(c, chunk.hashes, result)
    && 0 <= Evaluated(result) <= chunk.hashes
    && var rs := ReportsOf(p, network, share, chunk.begin, Evaluated(result));
       && (forall i :: 0 <= i < |rs| ==> rs[i].nonce <= MAX_NONCE)
       && found == FoundOf(p, c.expected, rs)
  }

  /** After an exhausted chunk the worker is at the next position, or has raised the overflow. */
  ghost predicate Moved(size: nat, before: Position, chunkSize: nat, action: WorkerNextAction, after: Position) {
    && size <= 8 && before.nonce <= MAX_NONCE && chunkSize >= 1
    && match Next(size, before, chunkSize)
       case None => action == Throws(ExtranonceOverflow)
       case Some(next) => action == ContinueScanning && after == next
  }

  /** One turn of the worker's inner loop: the next chunk is scanned and its result handled. */
  method ScanNextChunk(work: WorkState, coordinator: MiningCoordinator, network: U256, share: U256, chunkSize: nat,
                       c: ScanControl, beyond: seq<byte>)
    returns (result: ScanResult, action: WorkerNextAction, found: seq<FoundShare>)
    requires InStep(work, coordinator) && chunkSize >= 1 && |beyond| >= 48
    modifies work, coordinator
    ensures action.ContinueScanning? ==> InStep(work, coordinator)
    ensures ChunkScanned(old(work.source), Value(network), Value(share), MakeScanChunk(old(work.nonce), chunkSize), c,
        result, found)
    ensures result.stopReason.Stale? <==> action == AdoptNewWork
    ensures result.stopReason.StopRequested? <==> action == ExitThread
    ensures result.stopReason.Exhausted? ==>
        Moved(old(work.source.subscription.extranonce2Size), Position(old(work.source.counter), old(work.nonce)),
            chunkSize, action,
              Position(work.source.counter, work.nonce))
  {
    hide StopsCorrectly, ReportsOf, FoundOf, Value, Prepared, SetNonce, NonceWord, MaxExtranonce2, CoinbaseParts,
         ValidBranch, HexWithin, Hashable, MakeScanChunk;
    var chunk := MakeScanChunk(work.nonce, chunkSize);
    ghost var job, sub, next := work.source.job, work.source.subscription, NextCounter(work.source.counter);
    var outcome;
    outcome, found := coordinator.ScanRange(chunk.begin, chunk.end, network, share, c);
    result := outcome.result;
    action := HandleScanResult(result.stopReason, work, coordinator, chunk.end, beyond);
    if action.ContinueScanning? && chunk.end == MAX_NONCE {
      PreparedFields(job, sub, next);
    }
  }

  // ----- many chunks -----

  /** The pairs scanned by k chunks in turn, and where the walk then is: None once the overflow was raised. */
  function Pairs(size: nat, p: Position, chunkSize: nat, k: nat): (r: (seq<Position>, Option<Position>))
    requires size <= 8 && p.Valid(size) && chunkSize >= 1
    ensures r.1.Some? ==> r.1.value.Valid(size)
    decreases k
  {
    if k == 0 then ([], Some(p))
    else
      var (pairs, at) := Pairs(size, p, chunkSize, k - 1);
      if at.None? then (pairs, None)
      else
        StaysValid(size, at.value, chunkSize);
        (pairs + ChunkPairs(at.value, chunkSize), Next(size, at.value, chunkSize))
  }

  lemma StaysValid(size: nat, p: Position, chunkSize: nat)
    requires size <= 8 && p.Valid(size) && chunkSize >= 1
    ensures Next(size, p, chunkSize).Some? ==> Next(size, p, chunkSize).value.Valid(size)
  {
    hide MaxExtranonce2;
  }

  lemma MaxBounds(size: nat)
    requires size <= 8
    ensures MaxExtranonce2(size) <= 0xffff_ffff_ffff_ffff
    ensures MaxExtranonce2(size) == 0xffff_ffff_ffff_ffff <==> size == 8
  {
    Pow2Values();
    if size < 8 {
      Pow2Add(56, 8);
      Pow2Monotone(8 * size, 56);
    }
  }

  /** Sums of pairs, modulo the number of pairs of a 64-bit counter. */
  function Wrapped(n: nat): nat {
    n % PAIRS
  }

  /** The number of pairs of counters of the size. */
  function Space(size: nat): nat
    requires size <= 8
  {
    (MaxExtranonce2(size) + 1) * NONCES
  }

  lemma WrapAdd(from: nat, x: nat, h: nat)
    requires x == Wrapped(from) && x + h <= PAIRS
    ensures Wrapped(from + h) == if x + h == PAIRS then 0 else x + h
  {
    assert from == (from / PAIRS) * PAIRS + x;
  }

  /** Where one exhausted chunk leads, and exactly when it overflows. */
  lemma NextLinear(size: nat, from: nat, p: Position, chunkSize: nat)
    requires size <= 8 && p.Valid(size) && chunkSize >= 1 && p.Linear() == Wrapped(from)
    ensures var hashes, next := MakeScanChunk(p.nonce, chunkSize).hashes, Next(size, p, chunkSize);
            && hashes >= 1
            && (next.Some? ==> next.value.Linear() == Wrapped(from + hashes))
            && (size == 8 ==> next.Some?)
            && (size < 8 && from < PAIRS ==>
                  && from + hashes <= Space(size)
                  && (next == None <==> from + hashes == Space(size)))
  {
    hide MaxExtranonce2, Wrapped, MakeScanChunk;
    MaxBounds(size);
    WrapAdd(from, p.Linear(), MakeScanChunk(p.nonce, chunkSize).hashes);
    WrapSmall(from);
  }

  lemma WrapSmall(n: nat)
    ensures n < PAIRS ==> Wrapped(n) == n
  {
  }

  /**
   The walk tiles the pairs. Sizes below 8: the pairs scanned are consecutive, so strictly
   ascending without gap or overlap, and the overflow comes exactly when none is left. Size 8: the
   same modulo 2^96, because the counter wraps and the overflow is never raised.
   */
  lemma {:induction false} WalkTiles(size: nat, p: Position, chunkSize: nat, k: nat)
    requires size <= 8 && p.Valid(size) && chunkSize >= 1
    ensures var (pairs, at) := Pairs(size, p, chunkSize, k);
            && Consecutive(size, p.Linear(), pairs)
            && (at.Some? ==> at.value.Linear() == Wrapped(p.Linear() + |pairs|) && |pairs| >= k)
            && (size < 8 ==> p.Linear() + |pairs| <= Space(size) < PAIRS)
            && (at.None? <==> size < 8 && p.Linear() + |pairs| == Space(size))
    decreases k
  {
    hide Space, Next, ChunkPairs, Wrapped, Position.Linear, Position.Valid, MakeScanChunk, Consecutive, MaxExtranonce2;
    WalkStart(size, p);
    if k > 0 {
      WalkTiles(size, p, chunkSize, k - 1);
      var (before, at) := Pairs(size, p, chunkSize, k - 1);
      if at.Some? {
        NextLinear(size, p.Linear() + |before|, at.value, chunkSize);
        ChunkTiles(size, p.Linear(), before, at.value, chunkSize);
        assert Pairs(size, p, chunkSize, k).0 == before + ChunkPairs(at.value, chunkSize);
      }
    } else {
      assert Consecutive(size, p.Linear(), []) by { EmptyTiles(size, p.Linear()); }
    }
  }

  lemma EmptyTiles(size: nat, from: nat)
    requires size <= 8
    ensures Consecutive(size, from, [])
  {
  }

  ghost predicate Consecutive(size: nat, from: nat, pairs: seq<Position>)
    requires size <= 8
  {
    forall i :: 0 <= i < |pairs| ==> pairs[i].Valid(size) && pairs[i].Linear() == Wrapped(from + i)
  }

  lemma WalkStart(size: nat, p: Position)
    requires size <= 8 && p.Valid(size)
    ensures p.Linear() == Wrapped(p.Linear()) && p.Linear() < Space(size) <= PAIRS && (size < 8 ==> Space(size) < PAIRS)
  {
    MaxBounds(size);
    hide MaxExtranonce2;
  }

  lemma ChunkTiles(size: nat, from: nat, before: seq<Position>, p: Position, chunkSize: nat)
    requires size <= 8 && p.Valid(size) && chunkSize >= 1 && p.Linear() == Wrapped(from + |before|)
    requires Consecutive(size, from, before)
    ensures |ChunkPairs(p, chunkSize)| == MakeScanChunk(p.nonce, chunkSize).hashes
    ensures Consecutive(size, from, before + ChunkPairs(p, chunkSize))
  {
    MaxBounds(size);
    hide MaxExtranonce2, Wrapped;
    var pairs := ChunkPairs(p, chunkSize);
    forall i | 0 <= i < |pairs| ensures pairs[i].Valid(size) && pairs[i].Linear() == Wrapped(from + (|before| + i)) {
      WrapAdd(from + |before|, p.Linear(), i);
    }
  }

  /** Below size 8 every walk scans the whole rest of the space, each pair once, and then overflows. */
  lemma WalkCompletes(size: nat, p: Position, chunkSize: nat, k: nat)
    requires size < 8 && p.Valid(size) && chunkSize >= 1 && k >= Space(size)
    ensures var (pairs, at) := Pairs(size, p, chunkSize, k);
            && at == None
            && forall q: Position :: q.Valid(size) && p.Linear() <= q.Linear() ==>
                 q.Linear() - p.Linear() < |pairs| && pairs[q.Linear() - p.Linear()] == q
  {
    hide MaxExtranonce2, Pairs;
    WalkTiles(size, p, chunkSize, k);
    MaxBounds(size);
    var (pairs, at) := Pairs(size, p, chunkSize, k);
    assert at.Some? ==> p.Linear() + |pairs| < k;
    forall q: Position | q.Valid(size) && p.Linear() <= q.Linear()
      ensures q.Linear() - p.Linear() < |pairs| && pairs[q.Linear() - p.Linear()] == q
    {
      assert q.Linear() <= MaxExtranonce2(size) * NONCES + MAX_NONCE;
      LinearIsLexicographic(pairs[q.Linear() - p.Linear()], q);
    }
  }

  /** Two different steps of a walk below size 8 never hash the same coinbase with the same nonce. */
  lemma WalkNeverRepeats(job: MiningJob, sub: Subscription, p: Position, chunkSize: nat, k: nat, i: nat, j: nat)
    requires WellFormed(job, sub) && sub.extranonce2Size < 8 && p.Valid(sub.extranonce2Size) && chunkSize >= 1
    requires i < j < |Pairs(sub.extranonce2Size, p, chunkSize, k).0|
    ensures var pairs := Pairs(sub.extranonce2Size, p, chunkSize, k).0;
            && CanPrepare(job, sub, pairs[i].counter) && CanPrepare(job, sub, pairs[j].counter)
            && (Prepared(job, sub, pairs[i].counter).coinbase.bytes != Prepared(job, sub,
                pairs[j].counter).coinbase.bytes
                || pairs[i].nonce < pairs[j].nonce)
  {
    hide *;
    var size := sub.extranonce2Size;
    WalkTiles(size, p, chunkSize, k);
    var pairs := Pairs(size, p, chunkSize, k).0;
    PairAt(size, p.Linear(), pairs, i);
    PairAt(size, p.Linear(), pairs, j);
    Preparable(job, sub, pairs[i]);
    Preparable(job, sub, pairs[j]);
    WrapFree(size, p, |pairs|, i, j);
    LinearIsLexicographic(pairs[i], pairs[j]);
    if pairs[i].counter != pairs[j].counter {
      DistinctCoinbases(job, sub, pairs[i].counter, pairs[j].counter);
    }
  }

  lemma Preparable(job: MiningJob, sub: Subscription, p: Position)
    requires WellFormed(job, sub) && sub.extranonce2Size <= 8 && p.Valid(sub.extranonce2Size)
    ensures CanPrepare(job, sub, p.counter) && p.nonce <= MAX_NONCE
  {
    hide WellFormed, MaxExtranonce2;
  }

  lemma PairAt(size: nat, from: nat, pairs: seq<Position>, i: nat)
    requires size <= 8 && i < |pairs| && Consecutive(size, from, pairs)
    ensures pairs[i].Valid(size) && pairs[i].Linear() == Wrapped(from + i)
  {
  }

  lemma WrapFree(size: nat, p: Position, n: nat, i: nat, j: nat)
    requires size < 8 && i < j < n && p.Linear() + n <= Space(size) < PAIRS
    ensures Wrapped(p.Linear() + i) < Wrapped(p.Linear() + j)
  {
    hide MaxExtranonce2, Position.Linear;
  }

  /** Size 8 does repeat: after the last pair the walk is back at the first one. */
  lemma WidestCounterWraps(chunkSize: nat)
    requires chunkSize >= 1
    ensures var last := Position(0xffff_ffff_ffff_ffff, MAX_NONCE);
            last.Valid(8) && Next(8, last, chunkSize) == Some(Position(0, 0))
  {
    MaxBounds(8);
  }
}
