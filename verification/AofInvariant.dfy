/** What every step of the append-only file keeps, whatever the interleaving. */
module AofInvariant {
  import opened Bytes
  import opened Replay
  import opened AofProtocol

  /** The base of a file recovers to the state the file claims, at its place in the history. */
  predicate Anchored<Db(==)>(e: Env<Db>, hist: seq<Command>, l: Log<Db>) {
    && l.from <= |hist|
    && Recover(e.m, e.empty, l.base) == Some(Recovered(l.state, |l.base|))
    && Database(e, hist[..l.from]) == Some(l.state)
  }

  /** Everything the file should hold once all queues are written out. */
  function Target<Db>(e: Env<Db>, hist: seq<Command>, l: Log<Db>): bytes
    requires l.from <= |hist|
  {
    l.base + EncodeAll(e.m, hist[l.from..])
  }

  /** The base is on disk, and so is every acknowledged command. */
  predicate Durable<Db>(e: Env<Db>, hist: seq<Command>, acked: nat, l: Log<Db>) {
    && l.from <= |hist| && acked <= |hist|
    && |l.base| <= l.file.synced <= |l.file.data|
    && (l.from <= acked ==> |l.base| + |EncodeAll(e.m, hist[l.from..acked])| <= l.file.synced)
  }

  /** A file the path may name: it holds a prefix of its target, and the durable part of it. */
  predicate LogOk<Db(==)>(e: Env<Db>, hist: seq<Command>, acked: nat, l: Log<Db>) {
    Anchored(e, hist, l) && Durable(e, hist, acked, l) && l.file.data <= Target(e, hist, l)
  }

  function MainRest(main: Main): bytes {
    if main.Writing? then main.rest else []
  }

  function WorkerRest(worker: Worker): bytes {
    if worker.WorkerWriting? then worker.rest else []
  }

  /** What is on its way to the current file, in order. */
  function InFlight(main: Main, worker: Worker): bytes {
    MainRest(main) + WorkerRest(worker)
  }

  predicate CurOk<Db(==)>(e: Env<Db>, hist: seq<Command>, acked: nat, cur: Log<Db>, inFlight: bytes,
      pending: seq<bytes>, healthy: bool) {
    && LogOk(e, hist, acked, cur)
    && cur.file.data + inFlight <= Target(e, hist, cur)
    && (healthy ==> cur.file.data + inFlight + Flatten(pending) == Target(e, hist, cur))
  }

  function ToQueue(main: Main): seq<bytes> {
    if main.Building? then main.blocks else []
  }

  /** The rewrite file and everything still on its way to it make up its target. */
  predicate SnapshotPhase<Db(==)>(e: Env<Db>, hist: seq<Command>, rw: Log<Db>, rest: bytes, queue: seq<bytes>,
      toQueue: seq<bytes>, delta: seq<bytes>) {
    && rw.from <= |hist|
    && rw.file.data + rest + Flatten(queue) + Flatten(toQueue) == rw.base
    && Flatten(delta) == EncodeAll(e.m, hist[rw.from..])
  }

  /** The same once the snapshot is written; blocks left in the queue are lost. */
  predicate DeltaPhase<Db(==)>(e: Env<Db>, hist: seq<Command>, rw: Log<Db>, rest: bytes, lost: bytes,
      delta: seq<bytes>) {
    && rw.from <= |hist|
    && |lost| <= |rw.base| && rw.base[|rw.base| - |lost|..] == lost
    && rw.file.data + rest + Flatten(delta) == rw.base[..|rw.base| - |lost|] + EncodeAll(e.m, hist[rw.from..])
  }

  /** A rewrite that can still succeed. */
  predicate Live<Db>(s: State<Db>) {
    s.healthy && s.rewriting && !s.rewriteFailed
  }

  predicate RewriteOk<Db(==)>(e: Env<Db>, live: bool, rewriter: Rewriter, hist: seq<Command>, rw: Log<Db>,
      queue: seq<bytes>, main: Main, delta: seq<bytes>) {
    live ==>
      match rewriter
      case Snapshot(rest) => SnapshotPhase(e, hist, rw, rest, queue, ToQueue(main), delta)
      case Delta(rest) => DeltaPhase(e, hist, rw, rest, Flatten(queue), delta)
      case SwapSync => DeltaPhase(e, hist, rw, [], Flatten(queue), [])
      case SwapRename => DeltaPhase(e, hist, rw, [], Flatten(queue), []) && rw.file.synced == |rw.file.data|
      case SwapDirectory => true
      case Cleanup => true
      case NoRewriter => false
  }

  /** Who is active when: at most one thread in a locked section, and no swap under a writer's feet. */
  predicate FlagsOk<Db>(e: Env<Db>, s: State<Db>) {
    && (e.config.always ==> s.pending == [] && !s.worker.WorkerWriting? && !s.worker.WorkerSyncing? && !s.writing)
    && ((s.main.Writing? || s.main.Syncing?) ==> e.config.always && s.healthy && !Swapping(s.rewriter))
    && (s.worker.WorkerWriting? && s.healthy ==> s.writing)
    && (s.worker.WorkerSyncing? && s.healthy ==> s.syncing)
    && (Swapping(s.rewriter) ==> Live(s) && !s.writing && !s.syncing && s.pending == [] && !s.main.Building?)
    && (s.rewriting <==> !s.rewriter.NoRewriter?)
    && (s.main.Building? ==> !s.snapshotComplete && (s.rewriting && !s.rewriteFailed ==> !s.stopping))
    && (s.rewriter.Snapshot? ==> (s.snapshotComplete || s.main.Building?))
    && (s.rewriter.Delta? && Live(s) ==> !s.main.Building?)
    && (s.healthy && s.replaced.Some? ==> s.rewriter.SwapDirectory?)
    && (e.config.always && s.healthy && s.main != Syncing && !s.main.Writing? ==> s.acked == |s.hist|)
    && (e.config.always ==> OnlyLast(s.hist, s.acked, s.last))
  }

  /** All commands are acknowledged but, at most, those of the last append. */
  predicate OnlyLast(hist: seq<Command>, acked: nat, last: seq<Command>) {
    acked <= |hist| && (acked == |hist| || hist[acked..] == last)
  }

  predicate Swapping(r: Rewriter) {
    r.SwapSync? || r.SwapRename? || r.SwapDirectory?
  }

  predicate ReplacedOk<Db(==)>(e: Env<Db>, hist: seq<Command>, acked: nat, replaced: Option<Log<Db>>) {
    replaced.Some? ==> LogOk(e, hist, acked, replaced.value)
  }

  /** A live rewrite's snapshot replays to the database it was taken of exactly if it is not lossy. */
  predicate AnchorOk<Db(==)>(e: Env<Db>, live: bool, hist: seq<Command>, rw: Log<Db>, lossy: bool) {
    live ==> rw.from <= |hist| && (Anchored(e, hist, rw) <==> !lossy)
  }

  /** The invariant; it says nothing once a rewrite has swapped in a truncated or lossy snapshot. */
  ghost predicate Inv<Db>(e: Env<Db>, s: State<Db>) {
    && Sound(e.m)
    && (!s.truncated ==>
         && Admissible(e, s.hist)
         && FlagsOk(e, s)
         && CurOk(e, s.hist, s.acked, s.cur, InFlight(s.main, s.worker), s.pending, s.healthy)
         && ReplacedOk(e, s.hist, s.acked, s.replaced)
         && RewriteOk(e, Live(s), s.rewriter, s.hist, s.rw, s.snapshotPending, s.main, s.rewritePending)
         && AnchorOk(e, Live(s), s.hist, s.rw, s.lossy))
  }

  // ----- the history only grows -----

  lemma GrowTail<Db>(e: Env<Db>, hist: seq<Command>, cs: seq<Command>, from: nat)
    requires from <= |hist|
    ensures EncodeAll(e.m, (hist + cs)[from..]) == EncodeAll(e.m, hist[from..]) + EncodeAll(e.m, cs)
  {
    assert (hist + cs)[from..] == hist[from..] + cs;
    EncodeAllConcat(e.m, hist[from..], cs);
  }

  lemma GrowTarget<Db>(e: Env<Db>, hist: seq<Command>, cs: seq<Command>, l: Log<Db>)
    requires l.from <= |hist|
    ensures Target(e, hist + cs, l) == Target(e, hist, l) + EncodeAll(e.m, cs)
  {
    GrowTail(e, hist, cs, l.from);
  }

  lemma GrowAnchored<Db>(e: Env<Db>, hist: seq<Command>, cs: seq<Command>, l: Log<Db>)
    requires Anchored(e, hist, l)
    ensures Anchored(e, hist + cs, l)
  {
    assert (hist + cs)[..l.from] == hist[..l.from];
  }

  lemma GrowAnchor<Db>(e: Env<Db>, hist: seq<Command>, cs: seq<Command>, rw: Log<Db>, lossy: bool)
    requires AnchorOk(e, true, hist, rw, lossy)
    ensures AnchorOk(e, true, hist + cs, rw, lossy)
  {
    assert (hist + cs)[..rw.from] == hist[..rw.from];
  }

  lemma GrowDurable<Db>(e: Env<Db>, hist: seq<Command>, cs: seq<Command>, acked: nat, l: Log<Db>)
    requires Durable(e, hist, acked, l)
    ensures Durable(e, hist + cs, acked, l)
  {
    if l.from <= acked {
      assert (hist + cs)[l.from..acked] == hist[l.from..acked];
    }
  }

  lemma GrowLog<Db>(e: Env<Db>, hist: seq<Command>, cs: seq<Command>, acked: nat, l: Log<Db>)
    requires LogOk(e, hist, acked, l)
    ensures LogOk(e, hist + cs, acked, l)
  {
    GrowAnchored(e, hist, cs, l);
    GrowDurable(e, hist, cs, acked, l);
    GrowTarget(e, hist, cs, l);
  }

  // Equations between byte strings, kept apart from the predicates they are used in.

  lemma GrowBoth(written: bytes, queued: bytes, kept: bytes, log: bytes, record: bytes)
    requires written + queued == kept + log
    ensures written + (queued + record) == kept + (log + record)
  {
    assert written + (queued + record) == (written + queued) + record;
    assert (kept + log) + record == kept + (log + record);
  }

  lemma SplitRest(data: bytes, rest: bytes, n: nat)
    requires n <= |rest|
    ensures (data + rest[..n]) + rest[n..] == data + rest
  {
  }

  lemma CutBack(data: bytes, lost: bytes, base: bytes)
    requires data + [] + lost + [] == base
    ensures |lost| <= |base| && base[|base| - |lost|..] == lost && base[..|base| - |lost|] == data
  {
    assert data + [] + lost + [] == data + lost;
  }

  lemma TakeAll(data: bytes, queued: bytes)
    ensures data + [] + queued == data + queued + []
  {
  }

  lemma Requeue(before: bytes, queued: bytes, block: bytes, more: bytes)
    ensures before + queued + (block + more) == before + (queued + block) + more
  {
  }

  lemma AppendBoth(written: bytes, queued: bytes, target: bytes, record: bytes)
    requires written + queued == target
    ensures written + (queued + record) == target + record && written <= target + record
  {
  }

  /** A new record goes to the end of the queue. */
  lemma GrowQueued<Db>(e: Env<Db>, hist: seq<Command>, cs: seq<Command>, acked: nat, cur: Log<Db>, inFlight: bytes,
      pending: seq<bytes>)
    requires CurOk(e, hist, acked, cur, inFlight, pending, true)
    ensures CurOk(e, hist + cs, acked, cur, inFlight, pending + [EncodeAll(e.m, cs)], true)
  {
    var record, written := EncodeAll(e.m, cs), cur.file.data + inFlight;
    GrowLog(e, hist, cs, acked, cur);
    GrowTarget(e, hist, cs, cur);
    FlattenAppend(pending, record);
    AppendBoth(written, Flatten(pending), Target(e, hist, cur), record);
  }

  /** A record that finds the queue full is dropped with the rest of the queue. */
  lemma GrowDropped<Db>(e: Env<Db>, hist: seq<Command>, cs: seq<Command>, acked: nat, cur: Log<Db>, inFlight: bytes,
      pending: seq<bytes>)
    requires CurOk(e, hist, acked, cur, inFlight, pending, true)
    ensures CurOk(e, hist + cs, acked, cur, inFlight, [], false)
  {
    GrowLog(e, hist, cs, acked, cur);
    GrowTarget(e, hist, cs, cur);
  }

  /** Under kAlways there is no queue: the record is written at once. */
  lemma GrowInFlight<Db>(e: Env<Db>, hist: seq<Command>, cs: seq<Command>, acked: nat, cur: Log<Db>)
    requires CurOk(e, hist, acked, cur, [], [], true)
    ensures CurOk(e, hist + cs, acked, cur, EncodeAll(e.m, cs), [], true)
  {
    var record := EncodeAll(e.m, cs);
    GrowLog(e, hist, cs, acked, cur);
    GrowTarget(e, hist, cs, cur);
    assert cur.file.data + [] + Flatten([]) == cur.file.data;
    assert cur.file.data + record + Flatten([]) == cur.file.data + record;
  }

  // ----- bytes move from a queue into flight, and from there into the file -----

  lemma WriteMoves<Db>(e: Env<Db>, hist: seq<Command>, acked: nat, cur: Log<Db>, rest: bytes, n: nat,
      pending: seq<bytes>, healthy: bool)
    requires n <= |rest| && CurOk(e, hist, acked, cur, rest, pending, healthy)
    ensures CurOk(e, hist, acked, Write(cur, rest[..n]), rest[n..], pending, healthy)
  {
    SplitRest(cur.file.data, rest, n);
  }

  lemma TakeMoves<Db>(e: Env<Db>, hist: seq<Command>, acked: nat, cur: Log<Db>, pending: seq<bytes>)
    requires CurOk(e, hist, acked, cur, [], pending, true)
    ensures CurOk(e, hist, acked, cur, Flatten(pending), [], true)
  {
    TakeAll(cur.file.data, Flatten(pending));
  }

  /** A failure keeps what is already in the file and may drop what is in flight or queued. */
  lemma FailKeeps<Db>(e: Env<Db>, hist: seq<Command>, acked: nat, cur: Log<Db>, inFlight: bytes, pending: seq<bytes>,
      healthy: bool)
    requires CurOk(e, hist, acked, cur, inFlight, pending, healthy)
    ensures CurOk(e, hist, acked, cur, inFlight, [], false) && CurOk(e, hist, acked, cur, [], [], false)
  {
    assert cur.file.data + [] == cur.file.data;
  }

  /** After an fsync of a file with nothing in flight or queued, the whole history is on disk. */
  lemma SyncAll<Db>(e: Env<Db>, hist: seq<Command>, acked: nat, cur: Log<Db>)
    requires CurOk(e, hist, acked, cur, [], [], true)
    ensures CurOk(e, hist, |hist|, Sync(cur), [], [], true)
  {
    assert cur.file.data + [] + Flatten([]) == cur.file.data;
    assert hist[cur.from..|hist|] == hist[cur.from..];
  }

  lemma SyncSome<Db>(e: Env<Db>, hist: seq<Command>, acked: nat, cur: Log<Db>, inFlight: bytes, pending: seq<bytes>,
      healthy: bool)
    requires CurOk(e, hist, acked, cur, inFlight, pending, healthy)
    ensures CurOk(e, hist, acked, Sync(cur), inFlight, pending, healthy)
  {
  }

  // ----- the rewrite file -----

  lemma GrowSnapshotPhase<Db>(e: Env<Db>, hist: seq<Command>, cs: seq<Command>, rw: Log<Db>, rest: bytes,
      queue: seq<bytes>, toQueue: seq<bytes>, delta: seq<bytes>)
    requires SnapshotPhase(e, hist, rw, rest, queue, toQueue, delta)
    ensures SnapshotPhase(e, hist + cs, rw, rest, queue, toQueue, delta + [EncodeAll(e.m, cs)])
  {
    GrowTail(e, hist, cs, rw.from);
    FlattenAppend(delta, EncodeAll(e.m, cs));
  }

  lemma GrowDeltaPhase<Db>(e: Env<Db>, hist: seq<Command>, cs: seq<Command>, rw: Log<Db>, rest: bytes, lost: bytes,
      delta: seq<bytes>)
    requires DeltaPhase(e, hist, rw, rest, lost, delta)
    ensures DeltaPhase(e, hist + cs, rw, rest, lost, delta + [EncodeAll(e.m, cs)])
  {
    var record, kept := EncodeAll(e.m, cs), rw.base[..|rw.base| - |lost|];
    GrowTail(e, hist, cs, rw.from);
    FlattenAppend(delta, record);
    GrowBoth(rw.file.data + rest, Flatten(delta), kept, EncodeAll(e.m, hist[rw.from..]), record);
  }

  lemma SnapshotWrite<Db>(e: Env<Db>, hist: seq<Command>, rw: Log<Db>, rest: bytes, n: nat, queue: seq<bytes>,
      toQueue: seq<bytes>, delta: seq<bytes>)
    requires n <= |rest| && SnapshotPhase(e, hist, rw, rest, queue, toQueue, delta)
    ensures SnapshotPhase(e, hist, Write(rw, rest[..n]), rest[n..], queue, toQueue, delta)
  {
    SplitRest(rw.file.data, rest, n);
  }

  lemma DeltaWrite<Db>(e: Env<Db>, hist: seq<Command>, rw: Log<Db>, rest: bytes, n: nat, lost: bytes, delta: seq<bytes>)
    requires n <= |rest| && DeltaPhase(e, hist, rw, rest, lost, delta)
    ensures DeltaPhase(e, hist, Write(rw, rest[..n]), rest[n..], lost, delta)
  {
    SplitRest(rw.file.data, rest, n);
  }

  lemma QueueMoves<Db>(e: Env<Db>, hist: seq<Command>, rw: Log<Db>, rest: bytes, queue: seq<bytes>, toQueue: seq<bytes>,
      delta: seq<bytes>)
    requires toQueue != [] && SnapshotPhase(e, hist, rw, rest, queue, toQueue, delta)
    ensures SnapshotPhase(e, hist, rw, rest, queue + [toQueue[0]], toQueue[1..], delta)
    ensures toQueue[0] == [] ==> SnapshotPhase(e, hist, rw, rest, queue, toQueue[1..], delta)
  {
    var before := rw.file.data + rest;
    FlattenAppend(queue, toQueue[0]);
    Requeue(before, Flatten(queue), toQueue[0], Flatten(toQueue[1..]));
    if toQueue[0] == [] {
      assert Flatten(toQueue) == Flatten(toQueue[1..]);
    }
  }

  lemma SnapshotTake<Db>(e: Env<Db>, hist: seq<Command>, rw: Log<Db>, queue: seq<bytes>, toQueue: seq<bytes>,
      delta: seq<bytes>)
    requires SnapshotPhase(e, hist, rw, [], queue, toQueue, delta)
    ensures SnapshotPhase(e, hist, rw, Flatten(queue), [], toQueue, delta)
  {
    TakeAll(rw.file.data, Flatten(queue));
  }

  /** Leaving the first loop: what is still queued is what the new file will lack. */
  lemma SnapshotEnds<Db>(e: Env<Db>, hist: seq<Command>, rw: Log<Db>, queue: seq<bytes>, delta: seq<bytes>)
    requires SnapshotPhase(e, hist, rw, [], queue, [], delta)
    ensures DeltaPhase(e, hist, rw, [], Flatten(queue), delta)
  {
    CutBack(rw.file.data, Flatten(queue), rw.base);
    assert rw.file.data + [] == rw.file.data;
  }

  lemma DeltaTake<Db>(e: Env<Db>, hist: seq<Command>, rw: Log<Db>, lost: bytes, delta: seq<bytes>)
    requires DeltaPhase(e, hist, rw, [], lost, delta)
    ensures DeltaPhase(e, hist, rw, Flatten(delta), lost, [])
  {
    TakeAll(rw.file.data, Flatten(delta));
  }

  /** The swap: the new file, all of it on disk, stands for the whole history unless it lost blocks. */
  lemma SwapInstalls<Db>(e: Env<Db>, hist: seq<Command>, acked: nat, rw: Log<Db>)
    requires DeltaPhase(e, hist, rw, [], [], []) && Anchored(e, hist, rw)
    requires rw.file.synced == |rw.file.data| && acked <= |hist|
    ensures CurOk(e, hist, acked, rw, [], [], true)
  {
    var data := rw.file.data;
    assert rw.base[..|rw.base| - 0] == rw.base;
    assert data + [] + Flatten([]) == data && data + [] == data;
    if rw.from <= acked {
      assert hist[rw.from..] == hist[rw.from..acked] + hist[acked..];
      EncodeAllConcat(e.m, hist[rw.from..acked], hist[acked..]);
    }
  }
}
