/** The invariant of the append-only file holds in every reachable state. */
module AofSafety {
  import opened Bytes
  import opened Replay
  import opened AofProtocol
  import opened AofInvariant

  // ----- main thread -----

  /** A record buffered for the rewrite keeps the rewrite file on target. */
  lemma BufferKeeps<Db>(e: Env<Db>, rewriter: Rewriter, hist: seq<Command>, rw: Log<Db>, queue: seq<bytes>, main: Main,
      delta: seq<bytes>, cs: seq<Command>)
    requires RewriteOk(e, true, rewriter, hist, rw, queue, main, delta) && !Swapping(rewriter)
    ensures RewriteOk(e, true, rewriter, hist + cs, rw, queue, main, delta + [EncodeAll(e.m, cs)])
  {
    if rewriter.Snapshot? {
      GrowSnapshotPhase(e, hist, cs, rw, rewriter.rest, queue, ToQueue(main), delta);
    } else if rewriter.Delta? {
      GrowDeltaPhase(e, hist, cs, rw, rewriter.rest, Flatten(queue), delta);
    }
  }

  lemma KeepQueueFull<Db>(e: Env<Db>, s: State<Db>, cs: seq<Command>)
    requires Inv(e, s) && !s.truncated && LockFree(s) && s.main.Idle? && !e.config.always && s.healthy
    requires Admissible(e, s.hist + cs)
    ensures Inv(e, Fail(s.(hist := s.hist + cs)))
  {
    GrowDropped(e, s.hist, cs, s.acked, s.cur, InFlight(s.main, s.worker), s.pending);
  }

  lemma KeepQueued<Db>(e: Env<Db>, s: State<Db>, cs: seq<Command>, failed: bool, delta: seq<bytes>)
    requires Inv(e, s) && !s.truncated && LockFree(s) && s.main.Idle? && !e.config.always && s.healthy
    requires Admissible(e, s.hist + cs)
    requires Live(s) && !failed ==> delta == s.rewritePending + [EncodeAll(e.m, cs)]
    requires failed == s.rewriteFailed || (failed && s.rewriting)
    ensures Inv(e, s.(hist := s.hist + cs, rewriteFailed := failed, rewritePending := delta,
      pending := s.pending + [EncodeAll(e.m, cs)]))
  {
    GrowQueued(e, s.hist, cs, s.acked, s.cur, InFlight(s.main, s.worker), s.pending);
    if Live(s) && !failed {
      BufferKeeps(e, s.rewriter, s.hist, s.rw, s.snapshotPending, s.main, s.rewritePending, cs);
      GrowAnchor(e, s.hist, cs, s.rw, s.lossy);
    }
  }

  lemma KeepEnqueue<Db>(e: Env<Db>, s: State<Db>, cs: seq<Command>)
    requires Inv(e, s) && !s.truncated && LockFree(s) && s.main.Idle? && !e.config.always && s.healthy
    requires Admissible(e, s.hist + cs)
    ensures Inv(e, Enqueue(e, s.(hist := s.hist + cs), EncodeAll(e.m, cs)))
  {
    var b := BufferRewriteCommand(e.config, s.rewriting, s.rewriteFailed, s.rewritePending, EncodeAll(e.m, cs));
    KeepQueued(e, s, cs, b.0, b.1);
    assert Enqueue(e, s.(hist := s.hist + cs), EncodeAll(e.m, cs)) == s.(hist := s.hist + cs, rewriteFailed := b.0,
      rewritePending := b.1, pending := s.pending + [EncodeAll(e.m, cs)]);
  }

  lemma KeepAppendQueued<Db>(e: Env<Db>, s: State<Db>, cs: seq<Command>)
    requires Inv(e, s) && !s.truncated && LockFree(s) && s.main.Idle? && !e.config.always && s.healthy
    requires Admissible(e, s.hist + cs)
    ensures Inv(e, DoAppendQueued(e, s, cs))
  {
    KeepQueueFull(e, s, cs);
    KeepEnqueue(e, s, cs);
  }

  lemma KeepStartRewrite<Db>(e: Env<Db>, s: State<Db>, blocks: seq<bytes>)
    requires Inv(e, s) && !s.truncated && s.main.Idle? && s.healthy && !s.stopping && s.rewriter.NoRewriter?
    ensures Inv(e, DoStartRewrite(s, blocks, Database(e, s.hist).value, !Snapshots(e, s.hist, blocks)))
  {
    assert s.hist[..|s.hist|] == s.hist;
    assert [] + [] + Flatten([]) + Flatten(blocks) == Flatten(blocks);
  }

  lemma KeepBlock<Db>(e: Env<Db>, s: State<Db>, queue: seq<bytes>)
    requires Inv(e, s) && !s.truncated && s.main.Building? && s.main.blocks != []
    requires (s.main.blocks[0] == [] && queue == s.snapshotPending) || queue == s.snapshotPending + [s.main.blocks[0]]
    ensures Inv(e, s.(snapshotPending := queue, main := Building(s.main.blocks[1..])))
  {
    if Live(s) && s.rewriter.Snapshot? {
      QueueMoves(e, s.hist, s.rw, s.rewriter.rest, s.snapshotPending, s.main.blocks, s.rewritePending);
    }
  }

  lemma KeepSnapshotFails<Db>(e: Env<Db>, s: State<Db>)
    requires Inv(e, s) && !s.truncated && s.main.Building?
    ensures Inv(e, DoSnapshotFails(s))
  {
  }

  lemma KeepQueueSnapshotBlock<Db>(e: Env<Db>, s: State<Db>)
    requires Inv(e, s) && !s.truncated && s.main.Building? && s.main.blocks != []
    ensures Inv(e, DoQueueSnapshotBlock(s))
  {
    if s.main.blocks[0] == [] {
      KeepBlock(e, s, s.snapshotPending);
    } else if !s.rewriting || s.rewriteFailed || s.stopping {
      KeepSnapshotFails(e, s);
    } else {
      KeepBlock(e, s, s.snapshotPending + [s.main.blocks[0]]);
    }
  }

  lemma MainKeeps<Db>(e: Env<Db>, s: State<Db>, step: MainStep)
    requires Inv(e, s) && !s.truncated && MainEnabled(e, s, step)
    ensures Inv(e, MainApply(e, s, step))
  {
    match step {
      case AppendQueued(cs) => KeepAppendQueued(e, s, cs);
      case StartRewrite(blocks) => KeepStartRewrite(e, s, blocks);
      case QueueSnapshotBlock => KeepQueueSnapshotBlock(e, s);
      case SnapshotFails => KeepSnapshotFails(e, s);
      case SnapshotBuilt =>
      case WaitOver =>
      case Stop =>
    }
  }

  // ----- append under kAlways -----

  lemma KeepStartWriting<Db>(e: Env<Db>, s: State<Db>, cs: seq<Command>, failed: bool, delta: seq<bytes>)
    requires Inv(e, s) && !s.truncated && LockFree(s) && s.main.Idle? && e.config.always && s.healthy
    requires Admissible(e, s.hist + cs)
    requires Live(s) && !failed ==> delta == s.rewritePending + [EncodeAll(e.m, cs)]
    requires failed == s.rewriteFailed || (failed && s.rewriting)
    ensures Inv(e, s.(hist := s.hist + cs, rewriteFailed := failed, rewritePending := delta,
      main := Writing(EncodeAll(e.m, cs)), last := cs))
  {
    assert (s.hist + cs)[s.acked..] == cs;
    var record := EncodeAll(e.m, cs);
    assert record + [] == record;
    GrowInFlight(e, s.hist, cs, s.acked, s.cur);
    if Live(s) && !failed {
      BufferKeeps(e, s.rewriter, s.hist, s.rw, s.snapshotPending, s.main, s.rewritePending, cs);
      GrowAnchor(e, s.hist, cs, s.rw, s.lossy);
    }
  }

  lemma KeepAppendAlways<Db>(e: Env<Db>, s: State<Db>, cs: seq<Command>)
    requires Inv(e, s) && !s.truncated && LockFree(s) && s.main.Idle? && e.config.always && s.healthy
    requires Admissible(e, s.hist + cs)
    ensures Inv(e, DoAppendAlways(e, s, cs))
  {
    var (failed, delta) := BufferRewriteCommand(e.config, s.rewriting, s.rewriteFailed, s.rewritePending,
      EncodeAll(e.m, cs));
    KeepStartWriting(e, s, cs, failed, delta);
  }

  lemma KeepAlwaysWrite<Db>(e: Env<Db>, s: State<Db>, n: nat)
    requires Inv(e, s) && !s.truncated && s.main.Writing? && n <= |s.main.rest|
    ensures Inv(e, s.(cur := Write(s.cur, s.main.rest[..n]), main := Writing(s.main.rest[n..])))
  {
    assert s.main.rest + [] == s.main.rest && s.main.rest[n..] + [] == s.main.rest[n..];
    WriteMoves(e, s.hist, s.acked, s.cur, s.main.rest, n, s.pending, s.healthy);
  }

  lemma KeepAlwaysSync<Db>(e: Env<Db>, s: State<Db>)
    requires Inv(e, s) && !s.truncated && s.main.Syncing?
    ensures Inv(e, s.(cur := Sync(s.cur), acked := |s.hist|, main := Idle))
  {
    SyncAll(e, s.hist, s.acked, s.cur);
  }

  lemma KeepAlwaysFail<Db>(e: Env<Db>, s: State<Db>)
    requires Inv(e, s) && !s.truncated && (s.main.Writing? || s.main.Syncing?)
    ensures Inv(e, Fail(s).(main := Idle))
  {
    FailKeeps(e, s.hist, s.acked, s.cur, InFlight(s.main, s.worker), s.pending, s.healthy);
  }

  lemma AlwaysKeeps<Db>(e: Env<Db>, s: State<Db>, step: AlwaysStep)
    requires Inv(e, s) && !s.truncated && AlwaysEnabled(e, s, step)
    ensures Inv(e, AlwaysApply(e, s, step))
  {
    match step {
      case AppendAlways(cs) => KeepAppendAlways(e, s, cs);
      case AlwaysWrite(n) => KeepAlwaysWrite(e, s, n);
      case AlwaysWriteFails => KeepAlwaysFail(e, s);
      case AlwaysWritten =>
      case AlwaysSync(ok) => if ok { KeepAlwaysSync(e, s); } else { KeepAlwaysFail(e, s); }
    }
  }

  // ----- background worker -----

  lemma KeepTakeBatch<Db>(e: Env<Db>, s: State<Db>)
    requires Inv(e, s) && !s.truncated && LockFree(s) && !e.config.always && s.worker.WorkerIdle? && s.healthy
    ensures Inv(e, s.(worker := WorkerWriting(Flatten(s.pending)), pending := [], writing := true))
  {
    assert [] + Flatten(s.pending) == Flatten(s.pending);
    TakeMoves(e, s.hist, s.acked, s.cur, s.pending);
    TakeBatchFlags(e, s);
  }

  lemma TakeBatchFlags<Db>(e: Env<Db>, s: State<Db>)
    requires FlagsOk(e, s) && LockFree(s) && !e.config.always && s.worker.WorkerIdle? && s.healthy
    ensures FlagsOk(e, s.(worker := WorkerWriting(Flatten(s.pending)), pending := [], writing := true))
  {
  }

  lemma KeepWorkerWrite<Db>(e: Env<Db>, s: State<Db>, n: nat)
    requires Inv(e, s) && !s.truncated && s.worker.WorkerWriting? && n <= |s.worker.rest|
    ensures Inv(e, s.(cur := Write(s.cur, s.worker.rest[..n]), worker := WorkerWriting(s.worker.rest[n..])))
  {
    assert [] + s.worker.rest == s.worker.rest && [] + s.worker.rest[n..] == s.worker.rest[n..];
    WriteMoves(e, s.hist, s.acked, s.cur, s.worker.rest, n, s.pending, s.healthy);
  }

  lemma KeepWorkerFail<Db>(e: Env<Db>, s: State<Db>)
    requires Inv(e, s) && !s.truncated && LockFree(s) && !s.worker.WorkerIdle?
    ensures Inv(e, Fail(s).(worker := WorkerDone))
  {
    FailKeeps(e, s.hist, s.acked, s.cur, InFlight(s.main, s.worker), s.pending, s.healthy);
  }

  lemma KeepWorkerSync<Db>(e: Env<Db>, s: State<Db>)
    requires Inv(e, s) && !s.truncated && LockFree(s) && s.worker.WorkerSyncing?
    ensures Inv(e, s.(worker := WorkerIdle, cur := Sync(s.cur), syncing := false, dirty := false))
  {
    SyncSome(e, s.hist, s.acked, s.cur, InFlight(s.main, s.worker), s.pending, s.healthy);
  }

  lemma WorkerKeeps<Db>(e: Env<Db>, s: State<Db>, step: WorkerStep)
    requires Inv(e, s) && !s.truncated && WorkerEnabled(e, s, step)
    ensures Inv(e, WorkerApply(e, s, step))
  {
    match step {
      case TakeBatch => KeepTakeBatch(e, s);
      case WorkerWrite(n) => KeepWorkerWrite(e, s, n);
      case WorkerWriteDone(ok) => if !ok { KeepWorkerFail(e, s); }
      case WorkerSyncStart =>
      case WorkerSyncDone(ok) => if ok { KeepWorkerSync(e, s); } else { KeepWorkerFail(e, s); }
      case WorkerExit =>
    }
  }

  // ----- rewrite worker -----

  lemma KeepTakeSnapshot<Db>(e: Env<Db>, s: State<Db>)
    requires Inv(e, s) && !s.truncated && s.rewriter == Snapshot([])
    requires !s.healthy || s.rewriteFailed || s.stopping || s.snapshotPending != [] || s.snapshotComplete
    ensures Inv(e, DoTakeSnapshot(s))
  {
    if Live(s) {
      if s.stopping || s.snapshotPending == [] {
        SnapshotEnds(e, s.hist, s.rw, s.snapshotPending, s.rewritePending);
      } else {
        SnapshotTake(e, s.hist, s.rw, s.snapshotPending, ToQueue(s.main), s.rewritePending);
      }
    }
  }

  lemma KeepRewriteWrite<Db>(e: Env<Db>, s: State<Db>, n: nat)
    requires Inv(e, s) && !s.truncated && (s.rewriter.Snapshot? || s.rewriter.Delta?) && n <= |s.rewriter.rest|
    ensures Inv(e, DoRewriteWrite(s, n))
  {
    if Live(s) {
      if s.rewriter.Snapshot? {
        SnapshotWrite(e, s.hist, s.rw, s.rewriter.rest, n, s.snapshotPending, ToQueue(s.main), s.rewritePending);
      } else {
        DeltaWrite(e, s.hist, s.rw, s.rewriter.rest, n, Flatten(s.snapshotPending), s.rewritePending);
      }
    }
  }

  lemma KeepTakeDelta<Db>(e: Env<Db>, s: State<Db>)
    requires Inv(e, s) && !s.truncated && LockFree(s) && s.rewriter == Delta([])
    requires !s.healthy || s.rewriteFailed || s.rewritePending != [] || (!s.writing && !s.syncing && s.pending == [])
    ensures Inv(e, DoTakeDelta(s))
  {
    if Live(s) {
      DeltaTake(e, s.hist, s.rw, Flatten(s.snapshotPending), s.rewritePending);
    }
  }

  lemma RewriteKeeps<Db>(e: Env<Db>, s: State<Db>, step: RewriteStep)
    requires Inv(e, s) && !s.truncated && RewriteEnabled(s, step)
    ensures Inv(e, RewriteApply(s, step))
  {
    match step {
      case TakeSnapshot => KeepTakeSnapshot(e, s);
      case RewriteWrite(n) => KeepRewriteWrite(e, s, n);
      case RewriteWriteFails =>
      case TakeDelta => KeepTakeDelta(e, s);
      case RewriteCleanup =>
    }
  }

  // ----- swap -----

  lemma KeepSwapSync<Db>(e: Env<Db>, s: State<Db>)
    requires Inv(e, s) && !s.truncated && s.rewriter.SwapSync?
    ensures Inv(e, s.(rw := Sync(s.rw), rewriter := SwapRename))
  {
  }

  lemma KeepRename<Db>(e: Env<Db>, s: State<Db>)
    requires Inv(e, s) && !s.truncated && s.rewriter.SwapRename?
    ensures Inv(e, DoRename(s))
  {
    if Flatten(s.snapshotPending) == [] && !s.lossy {
      SwapInstalls(e, s.hist, s.acked, s.rw);
    }
  }

  lemma KeepSwapFail<Db>(e: Env<Db>, s: State<Db>)
    requires Inv(e, s) && !s.truncated && s.rewriter.SwapDirectory?
    ensures Inv(e, FinishRewrite(Fail(s), false))
  {
    FailKeeps(e, s.hist, s.acked, s.cur, InFlight(s.main, s.worker), s.pending, s.healthy);
  }

  lemma KeepSwapDone<Db>(e: Env<Db>, s: State<Db>)
    requires Inv(e, s) && !s.truncated && s.rewriter.SwapDirectory?
    ensures Inv(e, FinishRewrite(s.(replaced := None), true))
  {
  }

  lemma KeepSwapGivenUp<Db>(e: Env<Db>, s: State<Db>)
    requires Inv(e, s) && !s.truncated && (s.rewriter.SwapSync? || s.rewriter.SwapRename?)
    ensures Inv(e, FinishRewrite(s, false))
  {
  }

  lemma SwapKeeps<Db>(e: Env<Db>, s: State<Db>, step: SwapStep)
    requires Inv(e, s) && !s.truncated && SwapEnabled(s, step)
    ensures Inv(e, SwapApply(s, step))
  {
    match step {
      case SwapSyncDone(ok) => if ok { KeepSwapSync(e, s); } else { KeepSwapGivenUp(e, s); }
      case SwapRenameDone(ok) => if ok { KeepRename(e, s); } else { KeepSwapGivenUp(e, s); }
      case SwapDirectoryDone(ok) => if ok { KeepSwapDone(e, s); } else { KeepSwapFail(e, s); }
    }
  }

  // ----- every step, every run -----

  /** Every step keeps the invariant. */
  lemma StepKeeps<Db>(e: Env<Db>, s: State<Db>, step: Step)
    requires Inv(e, s) && Enabled(e, s, step)
    ensures Inv(e, Apply(e, s, step))
  {
    if !s.truncated {
      match step {
        case OfMain(m) => MainKeeps(e, s, m);
        case OfAlways(a) => AlwaysKeeps(e, s, a);
        case OfWorker(w) => WorkerKeeps(e, s, w);
        case OfRewrite(r) => RewriteKeeps(e, s, r);
        case OfSwap(x) => SwapKeeps(e, s, x);
      }
    }
  }
}
