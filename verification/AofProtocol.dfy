/**
 * The append-only file of server/aof.cpp as a step system: the main thread appends commands and builds
 * snapshots, a background worker writes the pending queue, and a rewrite worker writes a new file and
 * swaps it in. Every section under the mutex is one step; writes made outside it, and the system calls
 * made while it is held, are steps of their own, so that other threads and crashes can come between.
 */
module AofProtocol {
  import opened Bytes
  import opened Replay

  /** The limits of `Limits` that steer the protocol, and the fsync policy. */
  datatype Config = Config(always: bool, maxPendingBytes: nat, maxPendingCommands: nat, maxSnapshotQueueBytes: nat)

  /** A file: the bytes written to it and how many of them are known to be on disk. */
  datatype File = File(data: bytes, synced: nat)

  /**
   * A file and what it stands for: `base` recovers to `state`, the state after the first `from` commands
   * of the history; the commands after those are appended to it.
   */
  datatype Log<Db> = Log(file: File, base: bytes, from: nat, state: Db)

  /** Where the main thread is: inside an `Append` under kAlways (holding the mutex), or in `StartRewrite`. */
  datatype Main = Idle | Writing(rest: bytes) | Syncing | Building(blocks: seq<bytes>) | Waiting

  datatype Worker = WorkerIdle | WorkerWriting(rest: bytes) | WorkerSyncing | WorkerDone

  /** Where the rewrite worker is; the mutex is held from `SwapSync` to the end of the swap. */
  datatype Rewriter =
    NoRewriter | Snapshot(rest: bytes) | Delta(rest: bytes) | SwapSync | SwapRename | SwapDirectory | Cleanup

  datatype State<Db> = State(
    cur: Log<Db>,                 // the file `fd_` writes to
    replaced: Option<Log<Db>>,    // a replaced file the path may still name after a crash
    rw: Log<Db>,                  // the file under construction
    pending: seq<bytes>,
    snapshotPending: seq<bytes>,
    rewritePending: seq<bytes>,
    writing: bool,
    syncing: bool,
    dirty: bool,
    stopping: bool,
    healthy: bool,
    rewriting: bool,
    rewriteFailed: bool,
    snapshotComplete: bool,
    main: Main,
    worker: Worker,
    rewriter: Rewriter,
    hist: seq<Command>,           // every command handed to the file so far
    acked: nat,                   // how many of them were acknowledged after an fsync (kAlways)
    last: seq<Command>,           // the commands of the last `Append` (kAlways)
    lossy: bool,                  // the snapshot of the last rewrite does not replay to the database
    truncated: bool)              // a rewrite swapped in a file without its whole snapshot, or with a lossy one

  /** The database at opening (replayed from the file), and the commands' effect. */
  datatype Env<!Db> = Env(m: Machine<Db>, empty: Db, start: Db, config: Config)

  /** The database: every command of the history executed on the one replayed at opening. */
  function Database<Db>(e: Env<Db>, hist: seq<Command>): Option<Db> {
    Run(e.m, e.start, hist)
  }

  /** A history the main thread can have handed over: every command executed, and has a text. */
  predicate Admissible<Db>(e: Env<Db>, hist: seq<Command>) {
    Database(e, hist).Some? && AllLoggable(e.m, hist)
  }

  /** Commands that make an append: they have a text, and the history can go on with them. */
  predicate Appendable<Db>(e: Env<Db>, hist: seq<Command>, cs: seq<Command>) {
    EncodeAll(e.m, cs) != [] && Admissible(e, hist + cs)
  }

  predicate LockFree<Db>(s: State<Db>) {
    !s.main.Writing? && !s.main.Syncing? && !s.rewriter.SwapSync? && !s.rewriter.SwapRename?
      && !s.rewriter.SwapDirectory?
  }

  // ----- sections shared by several steps -----

  function Fail<Db>(s: State<Db>): (t: State<Db>)
    ensures !t.healthy && t.hist == s.hist && t.rewriter == s.rewriter && SameRewrite(s, t)
    ensures t.truncated == s.truncated && t.last == s.last && t.stopping == s.stopping
    ensures SameBases(s, t)
  {
    s.(healthy := false, pending := [], writing := false, syncing := false, dirty := false)
  }

  /** The delta queue after a command is offered to it, and whether the rewrite has failed by then. */
  function BufferRewriteCommand(c: Config, rewriting: bool, failed: bool, delta: seq<bytes>, record: bytes)
      : (r: (bool, seq<bytes>))
    ensures failed ==> r.0
  {
    if !rewriting || failed then (failed, delta)
    else if |record| + |Flatten(delta)| > c.maxPendingBytes || |delta| >= c.maxPendingCommands then (true, [])
    else (false, delta + [record])
  }

  function FinishRewrite<Db>(s: State<Db>, succeeded: bool): (t: State<Db>)
    ensures !t.rewriting && t.rewriter.NoRewriter? && t.rewriteFailed == !succeeded
    ensures SameBases(s, t)
  {
    s.(snapshotPending := [], rewritePending := [], snapshotComplete := false, rewriting := false,
       rewriteFailed := !succeeded, rewriter := NoRewriter)
  }

  /** A snapshot whose bytes replay, on an empty database, to the current one. */
  predicate Snapshots<Db(==)>(e: Env<Db>, hist: seq<Command>, blocks: seq<bytes>) {
    Database(e, hist).Some? &&
    Recover(e.m, e.empty, Flatten(blocks)) == Some(Recovered(Database(e, hist).value, |Flatten(blocks)|))
  }

  predicate QueueHasRoom(c: Config, queue: seq<bytes>, block: bytes) {
    queue == [] || |Flatten(queue)| + |block| <= c.maxSnapshotQueueBytes
  }

  function Write<Db>(log: Log<Db>, data: bytes): Log<Db> {
    log.(file := File(log.file.data + data, log.file.synced))
  }

  function Sync<Db>(log: Log<Db>): Log<Db> {
    log.(file := File(log.file.data, |log.file.data|))
  }

  /** Offers a record to the delta queue. */
  function Offer<Db>(e: Env<Db>, s: State<Db>, record: bytes): (t: State<Db>)
    ensures t.truncated == s.truncated && t.last == s.last && t.stopping == s.stopping && t.rewriter == s.rewriter
    ensures FileApart(s, t) && t.rewriting == s.rewriting
    ensures SameBases(s, t)
  {
    var b := BufferRewriteCommand(e.config, s.rewriting, s.rewriteFailed, s.rewritePending, record);
    s.(rewriteFailed := b.0, rewritePending := b.1)
  }

  /** A record that has found room in the queue, offered to a rewrite as well. */
  function Enqueue<Db>(e: Env<Db>, s: State<Db>, record: bytes): (t: State<Db>)
    ensures t.truncated == s.truncated && t.last == s.last && t.stopping == s.stopping && t.rewriter == s.rewriter
    ensures t.hist == s.hist && t.rewriting == s.rewriting && t.pending == s.pending + [record] && SameBases(s, t)
  {
    Offer(e, s, record).(pending := s.pending + [record])
  }

  function DoAppendQueued<Db>(e: Env<Db>, s: State<Db>, cs: seq<Command>): (t: State<Db>)
    ensures t.truncated == s.truncated && t.last == s.last && t.stopping == s.stopping && t.rewriter == s.rewriter
    ensures t.hist == s.hist + cs && t.rewriting == s.rewriting && SameBases(s, t)
    ensures t.healthy ==> t.pending == s.pending + [EncodeAll(e.m, cs)]
  {
    var record, handed := EncodeAll(e.m, cs), s.(hist := s.hist + cs);
    if |record| + |Flatten(s.pending)| > e.config.maxPendingBytes || |s.pending| >= e.config.maxPendingCommands then
      Fail(handed)
    else
      Enqueue(e, handed, record)
  }

  function DoAppendAlways<Db>(e: Env<Db>, s: State<Db>, cs: seq<Command>): State<Db> {
    var record := EncodeAll(e.m, cs);
    Offer(e, s, record).(hist := s.hist + cs, main := Writing(record), last := cs)
  }

  function DoStartRewrite<Db>(s: State<Db>, blocks: seq<bytes>, db: Db, lossy: bool): (t: State<Db>)
    ensures t.truncated == s.truncated && t.last == s.last && t.stopping == s.stopping
    ensures WorkerApart(s, t) && FileApart(s, t)
  {
    s.(rewriting := true, rewriteFailed := false, snapshotComplete := false, snapshotPending := [],
       rewritePending := [], lossy := lossy, main := Building(blocks), rewriter := Snapshot([]),
       rw := Log(File([], 0), Flatten(blocks), |s.hist|, db))
  }

  /** A failed snapshot ends the rewrite, if the rewrite worker has not already given up. */
  function DoSnapshotFails<Db>(s: State<Db>): (t: State<Db>)
    ensures t.truncated == s.truncated && t.last == s.last && t.stopping == s.stopping
    ensures WorkerApart(s, t) && FileApart(s, t)
    ensures t.rewriter == s.rewriter && t.rewriting == s.rewriting && t.rewritePending == s.rewritePending
    ensures t.rewriteFailed == (s.rewriting || s.rewriteFailed)
    ensures SameBases(s, t)
  {
    s.(main := Waiting, snapshotComplete := s.rewriting || s.snapshotComplete, rewriteFailed := s.rewriting
      || s.rewriteFailed)
  }

  function DoQueueSnapshotBlock<Db>(s: State<Db>): (t: State<Db>)
    requires s.main.Building? && s.main.blocks != []
    ensures t.truncated == s.truncated && t.last == s.last && t.stopping == s.stopping
    ensures WorkerApart(s, t) && FileApart(s, t)
    ensures t.rewriter == s.rewriter && (s.stopping || SameRewrite(s, t))
    ensures SameBases(s, t)
  {
    var block := s.main.blocks[0];
    if block == [] then s.(main := Building(s.main.blocks[1..]))
    else if !s.rewriting || s.rewriteFailed || s.stopping then DoSnapshotFails(s)
    else s.(snapshotPending := s.snapshotPending + [block], main := Building(s.main.blocks[1..]))
  }

  /** The first loop of the rewrite worker; being asked to stop leads on to the second loop, not out. */
  function DoTakeSnapshot<Db>(s: State<Db>): (t: State<Db>)
    ensures t.last == s.last
    ensures WorkerApart(s, t) && FileApart(s, t)
    ensures t.main == s.main && t.stopping == s.stopping && (t.rewriter.Snapshot? ==> !s.stopping)
    ensures SameRewrite(s, t) && (t.rewriter.Delta? || t.rewriter.Snapshot?)
    ensures SameBases(s, t)
  {
    if !s.healthy || s.rewriteFailed || s.stopping then s.(rewriter := Delta([]))
    else if s.snapshotPending == [] then s.(rewriter := Delta([]))
    else s.(rewriter := Snapshot(Flatten(s.snapshotPending)), snapshotPending := [])
  }

  /** The second loop of the rewrite worker. */
  function DoTakeDelta<Db>(s: State<Db>): (t: State<Db>)
    ensures t.last == s.last
    ensures WorkerApart(s, t) && FileApart(s, t)
    ensures t.main == s.main && t.stopping == s.stopping && !t.rewriter.Snapshot?
    ensures t.rewriting == s.rewriting && t.rewriteFailed == s.rewriteFailed && !t.rewriter.NoRewriter?
    ensures s.healthy && s.rewriteFailed ==> t.rewriter.Cleanup?
    ensures s.healthy && !s.rewriteFailed ==> !t.rewriter.Cleanup? && t.rewritePending == []
    ensures SameBases(s, t)
  {
    if !s.healthy || s.rewriteFailed then s.(rewriter := Cleanup)
    else if s.rewritePending != [] then s.(rewriter := Delta(Flatten(s.rewritePending)), rewritePending := [])
    else s.(rewriter := SwapSync)
  }

  function DoRewriteWrite<Db>(s: State<Db>, n: nat): (t: State<Db>)
    requires (s.rewriter.Snapshot? || s.rewriter.Delta?) && n <= |s.rewriter.rest|
    ensures t.last == s.last && t.stopping == s.stopping
    ensures WorkerApart(s, t) && FileApart(s, t)
    ensures SameRewrite(s, t) && (t.rewriter.Delta? || t.rewriter.Snapshot?)
    ensures SameBases(s, t)
  {
    var t := s.(rw := Write(s.rw, s.rewriter.rest[..n]));
    if s.rewriter.Snapshot? then t.(rewriter := Snapshot(s.rewriter.rest[n..]))
    else t.(rewriter := Delta(s.rewriter.rest[n..]))
  }

  function DoRename<Db>(s: State<Db>): (t: State<Db>)
    ensures SameRewrite(s, t)
  {
    s.(replaced := Some(s.cur), cur := s.rw, dirty := false, rewriter := SwapDirectory,
       truncated := s.truncated || s.lossy || Flatten(s.snapshotPending) != [])
  }

  /** The background worker and its queue are as before, unless the file has failed. */
  predicate WorkerApart<Db>(s: State<Db>, t: State<Db>) {
    && t.worker == s.worker && (s.stopping ==> t.stopping)
    && (t.healthy ==> s.healthy && t.writing == s.writing && t.syncing == s.syncing && t.pending == s.pending)
  }

  /** The file's health, queue and history are as before. */
  predicate FileApart<Db>(s: State<Db>, t: State<Db>) {
    t.healthy == s.healthy && t.pending == s.pending && t.hist == s.hist
  }

  /** Both files stand for the same part of the history as before. */
  predicate SameBases<Db>(s: State<Db>, t: State<Db>) {
    t.cur.from == s.cur.from && t.rw.from == s.rw.from
  }

  /** The rewrite, its verdict and its queue of commands are as before. */
  predicate SameRewrite<Db>(s: State<Db>, t: State<Db>) {
    t.rewriting == s.rewriting && t.rewriteFailed == s.rewriteFailed && t.rewritePending == s.rewritePending
  }

  /** The rewrite is as before, but may have failed. */
  predicate RewriteApart<Db>(s: State<Db>, t: State<Db>) {
    && t.rewriter == s.rewriter && t.lossy == s.lossy && t.snapshotPending == s.snapshotPending
    && t.truncated == s.truncated && t.stopping == s.stopping && t.rewriting == s.rewriting
    && (s.rewriteFailed ==> t.rewriteFailed) && (t.healthy ==> s.healthy)
  }

  // ----- the steps of each thread -----

  /** The main thread outside `Append` under kAlways. Commands it hands over have been executed. */
  datatype MainStep =
    | AppendQueued(commands: seq<Command>)
    | StartRewrite(blocks: seq<bytes>)
    | QueueSnapshotBlock
    | SnapshotFails
    | SnapshotBuilt
    | WaitOver
    | Stop

  predicate MainEnabled<Db(==)>(e: Env<Db>, s: State<Db>, step: MainStep) {
    LockFree(s) &&
    match step
    case AppendQueued(cs) => s.main.Idle? && !e.config.always && s.healthy && !s.stopping && Appendable(e, s.hist, cs)
    case StartRewrite(blocks) =>
      s.main.Idle? && s.healthy && !s.stopping && s.rewriter.NoRewriter? && !s.rewriting && Database(e, s.hist).Some?
    case QueueSnapshotBlock =>
      s.main.Building? && s.main.blocks != [] &&
      (s.main.blocks[0] == [] || !s.rewriting || s.rewriteFailed || s.stopping
       || QueueHasRoom(e.config, s.snapshotPending, s.main.blocks[0]))
    case SnapshotFails => s.main.Building?
    case SnapshotBuilt => s.main == Building([])
    case WaitOver => s.main.Waiting? && !s.rewriting
    case Stop => s.main.Idle?
  }

  function MainApply<Db(==)>(e: Env<Db>, s: State<Db>, step: MainStep): (t: State<Db>)
    requires MainEnabled(e, s, step)
    ensures (s.truncated ==> t.truncated) && t.last == s.last && t.stopping == (s.stopping || step.Stop?)
    ensures step.AppendQueued? || (WorkerApart(s, t) && FileApart(s, t))
    ensures step.StartRewrite? || t.rewriter == s.rewriter
    ensures step.AppendQueued? || step.StartRewrite? || step.SnapshotFails? || s.stopping || SameRewrite(s, t)
    ensures step.StartRewrite? || SameBases(s, t)
  {
    match step
    case AppendQueued(cs) => DoAppendQueued(e, s, cs)
    case StartRewrite(blocks) =>
      DoStartRewrite(s, blocks, Database(e, s.hist).value, !Snapshots(e, s.hist, blocks))
    case QueueSnapshotBlock => DoQueueSnapshotBlock(s)
    case SnapshotFails => DoSnapshotFails(s)
    case SnapshotBuilt => s.(main := Idle, snapshotComplete := s.rewriting || s.snapshotComplete)
    case WaitOver => s.(main := Idle)
    case Stop => s.(stopping := true)
  }

  /** `Append` under kAlways, which writes and syncs while it holds the mutex. */
  datatype AlwaysStep =
    | AppendAlways(commands: seq<Command>)
    | AlwaysWrite(n: nat)
    | AlwaysWriteFails
    | AlwaysWritten
    | AlwaysSync(ok: bool)

  predicate AlwaysEnabled<Db>(e: Env<Db>, s: State<Db>, step: AlwaysStep) {
    match step
    case AppendAlways(cs) =>
      LockFree(s) && s.main.Idle? && e.config.always && s.healthy && !s.stopping && Appendable(e, s.hist, cs)
    case AlwaysWrite(n) => s.main.Writing? && 0 < n <= |s.main.rest|
    case AlwaysWriteFails => s.main.Writing? && s.main.rest != []
    case AlwaysWritten => s.main == Writing([])
    case AlwaysSync(ok) => s.main.Syncing?
  }

  predicate AlwaysBreaks(step: AlwaysStep) {
    step.AlwaysWriteFails? || (step.AlwaysSync? && !step.ok)
  }

  function AlwaysApply<Db>(e: Env<Db>, s: State<Db>, step: AlwaysStep): (t: State<Db>)
    requires AlwaysEnabled(e, s, step)
    ensures (s.truncated ==> t.truncated) && t.last == if step.AppendAlways? then step.commands else s.last
    ensures WorkerApart(s, t)
    ensures RewriteApart(s, t)
    ensures (t.healthy <==> s.healthy && !AlwaysBreaks(step))
      && t.hist == s.hist + if step.AppendAlways? then step.commands else []
    ensures step.AppendAlways? || SameRewrite(s, t)
    ensures SameBases(s, t)
  {
    match step
    case AppendAlways(cs) => DoAppendAlways(e, s, cs)
    case AlwaysWrite(n) => s.(cur := Write(s.cur, s.main.rest[..n]), main := Writing(s.main.rest[n..]))
    case AlwaysWriteFails => Fail(s).(main := Idle)
    case AlwaysWritten => s.(main := Syncing)
    case AlwaysSync(ok) =>
      if ok then s.(cur := Sync(s.cur), acked := |s.hist|, main := Idle) else Fail(s).(main := Idle)
  }

  /** `Run`, the background worker; it writes and syncs without the mutex. */
  datatype WorkerStep =
    | TakeBatch
    | WorkerWrite(n: nat)
    | WorkerWriteDone(ok: bool)
    | WorkerSyncStart
    | WorkerSyncDone(ok: bool)
    | WorkerExit

  predicate WorkerEnabled<Db>(e: Env<Db>, s: State<Db>, step: WorkerStep) {
    match step
    case TakeBatch => LockFree(s) && !e.config.always && s.worker.WorkerIdle? && s.healthy && s.pending != []
    case WorkerWrite(n) => s.worker.WorkerWriting? && 0 < n <= |s.worker.rest|
    case WorkerWriteDone(ok) => LockFree(s) && s.worker.WorkerWriting? && (ok ==> s.worker.rest == [])
    case WorkerSyncStart =>
      LockFree(s) && !e.config.always && s.worker.WorkerIdle? && s.healthy && s.pending == [] && s.dirty
    case WorkerSyncDone(ok) => LockFree(s) && s.worker.WorkerSyncing?
    case WorkerExit =>
      LockFree(s) && s.worker.WorkerIdle? && (!s.healthy || (s.stopping && s.pending == [] && !s.dirty))
  }

  predicate WorkerBreaks(step: WorkerStep) {
    (step.WorkerWriteDone? || step.WorkerSyncDone?) && !step.ok
  }

  function WorkerApply<Db>(e: Env<Db>, s: State<Db>, step: WorkerStep): (t: State<Db>)
    requires WorkerEnabled(e, s, step)
    ensures (s.truncated ==> t.truncated) && t.last == s.last
    ensures RewriteApart(s, t) && t.main == s.main
    ensures (t.healthy <==> s.healthy && !WorkerBreaks(step)) && t.hist == s.hist && SameRewrite(s, t)
    ensures t.healthy ==> t.pending == if step.TakeBatch? then [] else s.pending
    ensures SameBases(s, t)
  {
    match step
    case TakeBatch => s.(worker := WorkerWriting(Flatten(s.pending)), pending := [], writing := true)
    case WorkerWrite(n) => s.(cur := Write(s.cur, s.worker.rest[..n]), worker := WorkerWriting(s.worker.rest[n..]))
    case WorkerWriteDone(ok) =>
      if ok then s.(worker := WorkerIdle, writing := false, dirty := true) else Fail(s).(worker := WorkerDone)
    case WorkerSyncStart => s.(worker := WorkerSyncing, syncing := true)
    case WorkerSyncDone(ok) =>
      if ok then s.(worker := WorkerIdle, cur := Sync(s.cur), syncing := false, dirty := false)
      else Fail(s).(worker := WorkerDone)
    case WorkerExit => s.(worker := WorkerDone)
  }

  /** `RunRewrite` up to the swap. */
  datatype RewriteStep =
    | TakeSnapshot
    | RewriteWrite(n: nat)
    | RewriteWriteFails
    | TakeDelta
    | RewriteCleanup

  predicate RewriteEnabled<Db>(s: State<Db>, step: RewriteStep) {
    match step
    case TakeSnapshot =>
      LockFree(s) && s.rewriter == Snapshot([]) &&
      (!s.healthy || s.rewriteFailed || s.stopping || s.snapshotPending != [] || s.snapshotComplete)
    case RewriteWrite(n) => (s.rewriter.Snapshot? || s.rewriter.Delta?) && 0 < n <= |s.rewriter.rest|
    case RewriteWriteFails => (s.rewriter.Snapshot? || s.rewriter.Delta?) && s.rewriter.rest != []
    case TakeDelta =>
      LockFree(s) && s.rewriter == Delta([]) &&
      (!s.healthy || s.rewriteFailed || s.rewritePending != [] || (!s.writing && !s.syncing && s.pending == []))
    case RewriteCleanup => LockFree(s) && s.rewriter.Cleanup?
  }

  function RewriteApply<Db>(s: State<Db>, step: RewriteStep): (t: State<Db>)
    requires RewriteEnabled(s, step)
    ensures (s.truncated ==> t.truncated) && t.last == s.last
    ensures WorkerApart(s, t) && FileApart(s, t)
    ensures t.stopping == s.stopping && (step.TakeDelta? || step.RewriteCleanup? || SameRewrite(s, t))
    ensures step.TakeSnapshot? || step.RewriteWrite? ==> t.rewriter.Delta? || t.rewriter.Snapshot?
    ensures SameBases(s, t)
  {
    match step
    case TakeSnapshot => DoTakeSnapshot(s)
    case RewriteWrite(n) => DoRewriteWrite(s, n)
    case RewriteWriteFails => s.(rewriter := Cleanup)
    case TakeDelta => DoTakeDelta(s)
    case RewriteCleanup => FinishRewrite(s, false)
  }

  /** The swap, made while the mutex is held: sync the new file, rename it over the old, sync the directory. */
  datatype SwapStep =
    | SwapSyncDone(ok: bool)
    | SwapRenameDone(ok: bool)
    | SwapDirectoryDone(ok: bool)

  predicate SwapEnabled<Db>(s: State<Db>, step: SwapStep) {
    match step
    case SwapSyncDone(ok) => s.rewriter.SwapSync?
    case SwapRenameDone(ok) => s.rewriter.SwapRename?
    case SwapDirectoryDone(ok) => s.rewriter.SwapDirectory?
  }

  predicate SwapBreaks(step: SwapStep) {
    step.SwapDirectoryDone? && !step.ok
  }

  function SwapApply<Db>(s: State<Db>, step: SwapStep): (t: State<Db>)
    requires SwapEnabled(s, step)
    ensures (s.truncated ==> t.truncated) && t.last == s.last
    ensures WorkerApart(s, t)
    ensures (t.healthy <==> s.healthy && !SwapBreaks(step)) && t.hist == s.hist
    ensures (step.SwapRenameDone? && step.ok) || SameBases(s, t)
  {
    match step
    case SwapSyncDone(ok) => if ok then s.(rw := Sync(s.rw), rewriter := SwapRename) else FinishRewrite(s, false)
    case SwapRenameDone(ok) => if ok then DoRename(s) else FinishRewrite(s, false)
    case SwapDirectoryDone(ok) =>
      if ok then FinishRewrite(s.(replaced := None), true) else FinishRewrite(Fail(s), false)
  }

  datatype Step =
    | OfMain(m: MainStep)
    | OfAlways(a: AlwaysStep)
    | OfWorker(w: WorkerStep)
    | OfRewrite(r: RewriteStep)
    | OfSwap(x: SwapStep)

  predicate Enabled<Db(==)>(e: Env<Db>, s: State<Db>, step: Step) {
    match step
    case OfMain(m) => MainEnabled(e, s, m)
    case OfAlways(a) => AlwaysEnabled(e, s, a)
    case OfWorker(w) => WorkerEnabled(e, s, w)
    case OfRewrite(r) => RewriteEnabled(s, r)
    case OfSwap(x) => SwapEnabled(s, x)
  }

  function Apply<Db(==)>(e: Env<Db>, s: State<Db>, step: Step): (t: State<Db>)
    requires Enabled(e, s, step)
    ensures (s.truncated ==> t.truncated) && t.last == if step.OfAlways? && step.a.AppendAlways? then step.a.commands
      else s.last
  {
    match step
    case OfMain(m) => MainApply(e, s, m)
    case OfAlways(a) => AlwaysApply(e, s, a)
    case OfWorker(w) => WorkerApply(e, s, w)
    case OfRewrite(r) => RewriteApply(s, r)
    case OfSwap(x) => SwapApply(s, x)
  }
}
