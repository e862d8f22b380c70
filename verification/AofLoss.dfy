/** Runs of the append-only file that lose data, and from where they can be taken. */
module AofLoss {
  import opened Bytes
  import opened Replay
  import opened AofProtocol
  import opened AofInvariant
  import opened AofRuns
  import opened AofStops

  // ----- what the background worker is doing -----

  /** While the file is healthy the flags say what the worker does, and it does not leave records behind. */
  predicate WorkerOk<Db>(e: Env<Db>, s: State<Db>) {
    s.healthy ==> WorkerFlags(e.config.always, s.stopping, s.worker, s.writing, s.syncing, s.pending)
  }

  predicate WorkerFlags(always: bool, stopping: bool, worker: Worker, writing: bool, syncing: bool,
                        pending: seq<bytes>) {
    && (writing ==> worker.WorkerWriting?) && (syncing ==> worker.WorkerSyncing?)
    && (worker.WorkerDone? ==> stopping && pending == []) && (always ==> pending == [])
  }

  lemma ApartKeepsWorker<Db>(e: Env<Db>, s: State<Db>, t: State<Db>)
    requires WorkerOk(e, s) && WorkerApart(s, t)
    ensures WorkerOk(e, t)
  {
  }

  lemma AppendKeepsWorker<Db>(e: Env<Db>, s: State<Db>, cs: seq<Command>)
    requires WorkerOk(e, s) && !e.config.always && s.healthy && !s.stopping
    ensures WorkerOk(e, DoAppendQueued(e, s, cs))
  {
  }

  lemma WorkerKeepsWorker<Db>(e: Env<Db>, s: State<Db>, step: WorkerStep)
    requires WorkerOk(e, s) && WorkerEnabled(e, s, step)
    ensures WorkerOk(e, WorkerApply(e, s, step))
  {
    var t := WorkerApply(e, s, step);
    match step {
      case TakeBatch => assert t == s.(worker := WorkerWriting(Flatten(s.pending)), pending := [], writing := true);
      case WorkerWrite(n) =>
      case WorkerWriteDone(ok) =>
      case WorkerSyncStart =>
      case WorkerSyncDone(ok) =>
      case WorkerExit =>
    }
  }

  lemma StepKeepsWorker<Db>(e: Env<Db>, s: State<Db>, step: Step)
    requires WorkerOk(e, s) && Enabled(e, s, step)
    ensures WorkerOk(e, Apply(e, s, step))
  {
    match step {
      case OfMain(m) =>
        if m.AppendQueued? {
          AppendKeepsWorker(e, s, m.commands);
        } else {
          ApartKeepsWorker(e, s, MainApply(e, s, m));
        }
      case OfAlways(a) => ApartKeepsWorker(e, s, AlwaysApply(e, s, a));
      case OfWorker(w) => WorkerKeepsWorker(e, s, w);
      case OfRewrite(r) => ApartKeepsWorker(e, s, RewriteApply(s, r));
      case OfSwap(x) => ApartKeepsWorker(e, s, SwapApply(s, x));
    }
  }

  lemma {:induction false} RunKeepsWorker<Db>(e: Env<Db>, s: State<Db>, steps: seq<Step>)
    requires WorkerOk(e, s) && After(e, s, steps).Some?
    ensures WorkerOk(e, After(e, s, steps).value)
    decreases |steps|
  {
    if steps != [] {
      StepKeepsWorker(e, s, steps[0]);
      RunKeepsWorker(e, Apply(e, s, steps[0]), steps[1..]);
    }
  }

  /** In every reachable state. */
  lemma ReachableWorker<Db>(e: Env<Db>, s: State<Db>, steps: seq<Step>)
    requires Init(e, s) && After(e, s, steps).Some?
    ensures WorkerOk(e, After(e, s, steps).value)
  {
    RunKeepsWorker(e, s, steps);
  }

  // ----- a stop that truncates the file -----

  lemma OneStep<Db>(e: Env<Db>, s: State<Db>, step: Step)
    requires Enabled(e, s, step)
    ensures After(e, s, [step]) == Some(Apply(e, s, step))
  {
    AfterOne(e, s, step, []);
    assert [step] + [] == [step];
  }

  lemma Then<Db>(e: Env<Db>, s: State<Db>, a: seq<Step>, t: State<Db>, b: seq<Step>, u: State<Db>)
    requires After(e, s, a) == Some(t) && After(e, t, b) == Some(u)
    ensures After(e, s, a + b) == Some(u)
  {
    AfterConcat(e, s, a, b);
  }

  /** The rewrite worker is in its second loop with blocks of the snapshot still queued. */
  predicate Doomed<Db>(s: State<Db>) {
    s.main.Idle? && Live(s) && s.rewriter == Delta([]) && Flatten(s.snapshotPending) != []
  }

  lemma WroteAll<Db>(s: State<Db>)
    requires s.rewriter.Snapshot? || s.rewriter.Delta?
    ensures var t := DoRewriteWrite(s, |s.rewriter.rest|);
      t == s.(rw := t.rw, rewriter := if s.rewriter.Snapshot? then Snapshot([]) else Delta([]))
  {
    assert s.rewriter.rest[|s.rewriter.rest|..] == [];
  }

  lemma WriteSnapshot<Db>(e: Env<Db>, s: State<Db>) returns (steps: seq<Step>, t: State<Db>)
    requires s.rewriter.Snapshot?
    ensures After(e, s, steps) == Some(t) && t == s.(rw := t.rw, rewriter := Snapshot([]))
  {
    if s.rewriter == Snapshot([]) {
      steps, t := [], s;
    } else {
      steps, t := [OfRewrite(RewriteWrite(|s.rewriter.rest|))], DoRewriteWrite(s, |s.rewriter.rest|);
      OneStep(e, s, OfRewrite(RewriteWrite(|s.rewriter.rest|)));
      WroteAll(s);
    }
  }

  lemma LeaveSnapshot<Db>(e: Env<Db>, s: State<Db>)
    requires s.rewriter == Snapshot([]) && LockFree(s) && s.stopping
    ensures After(e, s, [OfRewrite(TakeSnapshot)]) == Some(s.(rewriter := Delta([])))
  {
    OneStep(e, s, OfRewrite(TakeSnapshot));
  }

  /** The worker writes what it has taken of the snapshot, and leaves the rest. */
  lemma DropRest<Db>(e: Env<Db>, s: State<Db>) returns (steps: seq<Step>, t: State<Db>)
    requires s.stopping && s.main.Idle? && StopDrops(s)
    ensures After(e, s, steps) == Some(t) && Doomed(t) && t == s.(rw := t.rw, rewriter := Delta([]))
  {
    var u;
    steps, u := WriteSnapshot(e, s);
    t := u.(rewriter := Delta([]));
    LeaveSnapshot(e, u);
    Then(e, s, steps, u, [OfRewrite(TakeSnapshot)], t);
    steps := steps + [OfRewrite(TakeSnapshot)];
  }

  /** What the background worker does leaves the rewrite and the main thread as they are. */
  ghost predicate OnlyWorker<Db>(s: State<Db>, t: State<Db>) {
    t == s.(cur := t.cur, worker := t.worker, pending := t.pending, writing := t.writing, syncing := t.syncing,
            dirty := t.dirty)
  }

  lemma WriteRest<Db>(e: Env<Db>, s: State<Db>) returns (t: State<Db>)
    requires s.worker.WorkerWriting? && s.worker.rest != []
    ensures After(e, s, [OfWorker(WorkerWrite(|s.worker.rest|))]) == Some(t)
    ensures t == s.(cur := t.cur, worker := WorkerWriting([]))
  {
    var rest := s.worker.rest;
    assert rest[|rest|..] == [];
    t := s.(cur := Write(s.cur, rest[..|rest|]), worker := WorkerWriting([]));
    OneStep(e, s, OfWorker(WorkerWrite(|rest|)));
  }

  lemma WriteBatchOut<Db>(e: Env<Db>, s: State<Db>) returns (steps: seq<Step>, t: State<Db>)
    requires s.worker.WorkerWriting?
    ensures After(e, s, steps) == Some(t) && t == s.(cur := t.cur, worker := WorkerWriting([]))
  {
    if s.worker == WorkerWriting([]) {
      steps, t := [], s;
    } else {
      t := WriteRest(e, s);
      steps := [OfWorker(WorkerWrite(|s.worker.rest|))];
    }
  }

  lemma BatchWritten<Db>(e: Env<Db>, s: State<Db>)
    requires s.worker == WorkerWriting([]) && LockFree(s)
    ensures
      After(e, s, [OfWorker(WorkerWriteDone(true))]) == Some(s.(worker := WorkerIdle, writing := false, dirty := true))
  {
    OneStep(e, s, OfWorker(WorkerWriteDone(true)));
  }

  lemma FinishWriting<Db>(e: Env<Db>, s: State<Db>) returns (steps: seq<Step>, t: State<Db>)
    requires s.worker.WorkerWriting? && LockFree(s)
    ensures After(e, s, steps) == Some(t) && OnlyWorker(s, t)
    ensures t.worker.WorkerIdle? && !t.writing && t.syncing == s.syncing && t.pending == s.pending
  {
    var u;
    steps, u := WriteBatchOut(e, s);
    BatchWritten(e, u);
    t := u.(worker := WorkerIdle, writing := false, dirty := true);
    Then(e, s, steps, u, [OfWorker(WorkerWriteDone(true))], t);
    steps := steps + [OfWorker(WorkerWriteDone(true))];
  }

  lemma FinishSyncing<Db>(e: Env<Db>, s: State<Db>) returns (steps: seq<Step>, t: State<Db>)
    requires s.worker.WorkerSyncing? && LockFree(s)
    ensures After(e, s, steps) == Some(t) && OnlyWorker(s, t)
    ensures t.worker.WorkerIdle? && !t.syncing && t.writing == s.writing && t.pending == s.pending
  {
    steps := [OfWorker(WorkerSyncDone(true))];
    t := s.(worker := WorkerIdle, cur := Sync(s.cur), syncing := false, dirty := false);
    OneStep(e, s, OfWorker(WorkerSyncDone(true)));
  }

  /** The worker has nothing in hand. */
  predicate AtRest<Db>(s: State<Db>) {
    (s.worker.WorkerIdle? || (s.worker.WorkerDone? && s.pending == [])) && !s.writing && !s.syncing
  }

  lemma FinishWork<Db>(e: Env<Db>, s: State<Db>) returns (steps: seq<Step>, t: State<Db>)
    requires s.healthy && LockFree(s) && WorkerOk(e, s)
    ensures After(e, s, steps) == Some(t) && OnlyWorker(s, t) && AtRest(t) && t.pending == s.pending
  {
    if s.worker.WorkerWriting? {
      steps, t := FinishWriting(e, s);
    } else if s.worker.WorkerSyncing? {
      steps, t := FinishSyncing(e, s);
    } else {
      steps, t := [], s;
    }
  }

  lemma TakeAndWrite<Db>(e: Env<Db>, s: State<Db>) returns (steps: seq<Step>, t: State<Db>)
    requires s.healthy && LockFree(s) && s.worker.WorkerIdle? && s.pending != [] && !e.config.always && !s.syncing
    ensures After(e, s, steps) == Some(t) && OnlyWorker(s, t) && AtRest(t) && t.pending == []
  {
    var u := s.(worker := WorkerWriting(Flatten(s.pending)), pending := [], writing := true);
    OneStep(e, s, OfWorker(TakeBatch));
    steps, t := FinishWriting(e, u);
    Then(e, s, [OfWorker(TakeBatch)], u, steps, t);
    steps := [OfWorker(TakeBatch)] + steps;
  }

  /** The worker can always write out its queue. */
  lemma EmptyQueue<Db>(e: Env<Db>, s: State<Db>) returns (steps: seq<Step>, t: State<Db>)
    requires s.healthy && LockFree(s) && WorkerOk(e, s)
    ensures After(e, s, steps) == Some(t) && OnlyWorker(s, t) && !t.writing && !t.syncing && t.pending == []
  {
    var u;
    steps, u := FinishWork(e, s);
    if u.pending == [] {
      t := u;
    } else {
      var more;
      more, t := TakeAndWrite(e, u);
      Then(e, s, steps, u, more, t);
      steps := steps + more;
    }
  }

  lemma WriteDelta<Db>(e: Env<Db>, s: State<Db>) returns (steps: seq<Step>, t: State<Db>)
    requires s.rewriter.Delta?
    ensures After(e, s, steps) == Some(t) && t == s.(rw := t.rw, rewriter := Delta([]))
  {
    if s.rewriter == Delta([]) {
      steps, t := [], s;
    } else {
      steps, t := [OfRewrite(RewriteWrite(|s.rewriter.rest|))], DoRewriteWrite(s, |s.rewriter.rest|);
      OneStep(e, s, OfRewrite(RewriteWrite(|s.rewriter.rest|)));
      WroteAll(s);
    }
  }

  /** And the rewrite worker its delta. */
  lemma EmptyDelta<Db>(e: Env<Db>, s: State<Db>) returns (steps: seq<Step>, t: State<Db>)
    requires s.rewriter == Delta([]) && Live(s) && LockFree(s)
    ensures After(e, s, steps) == Some(t) && t == s.(rw := t.rw, rewritePending := [])
  {
    if s.rewritePending == [] {
      steps, t := [], s;
    } else {
      var u := s.(rewriter := Delta(Flatten(s.rewritePending)), rewritePending := []);
      OneStep(e, s, OfRewrite(TakeDelta));
      steps, t := WriteDelta(e, u);
      Then(e, s, [OfRewrite(TakeDelta)], u, steps, t);
      steps := [OfRewrite(TakeDelta)] + steps;
    }
  }

  lemma SyncNew<Db>(e: Env<Db>, s: State<Db>) returns (steps: seq<Step>, t: State<Db>)
    requires s.rewriter == Delta([]) && Live(s) && LockFree(s) && s.rewritePending == []
    requires !s.writing && !s.syncing && s.pending == []
    ensures After(e, s, steps) == Some(t) && t == s.(rw := Sync(s.rw), rewriter := SwapRename)
  {
    var u := s.(rewriter := SwapSync);
    OneStep(e, s, OfRewrite(TakeDelta));
    t := u.(rw := Sync(u.rw), rewriter := SwapRename);
    OneStep(e, u, OfSwap(SwapSyncDone(true)));
    steps := [OfRewrite(TakeDelta)] + [OfSwap(SwapSyncDone(true))];
    Then(e, s, [OfRewrite(TakeDelta)], u, [OfSwap(SwapSyncDone(true))], t);
  }

  /** So a doomed rewrite can go on to the rename. */
  lemma ReachRename<Db>(e: Env<Db>, s: State<Db>) returns (steps: seq<Step>, t: State<Db>)
    requires Doomed(s) && WorkerOk(e, s)
    ensures After(e, s, steps) == Some(t) && t.rewriter.SwapRename? && t.hist == s.hist
    ensures t.snapshotPending == s.snapshotPending && t.truncated == s.truncated && t.healthy
  {
    var u, v;
    steps, u := EmptyQueue(e, s);
    var more;
    more, v := EmptyDelta(e, u);
    Then(e, s, steps, u, more, v);
    var last;
    last, t := SyncNew(e, v);
    Then(e, s, steps + more, v, last, t);
    steps := steps + more + last;
  }

  lemma RenameAndFinish<Db>(e: Env<Db>, s: State<Db>) returns (steps: seq<Step>, t: State<Db>)
    requires s.rewriter.SwapRename?
    ensures After(e, s, steps) == Some(t)
    ensures t.cur == s.rw && t.hist == s.hist && t.healthy == s.healthy && !t.rewriting && t.replaced.None?
    ensures t.truncated == DoRename(s).truncated
  {
    var u := DoRename(s);
    OneStep(e, s, OfSwap(SwapRenameDone(true)));
    t := FinishRewrite(u.(replaced := None), true);
    OneStep(e, u, OfSwap(SwapDirectoryDone(true)));
    steps := [OfSwap(SwapRenameDone(true))] + [OfSwap(SwapDirectoryDone(true))];
    Then(e, s, [OfSwap(SwapRenameDone(true))], u, [OfSwap(SwapDirectoryDone(true))], t);
  }

  /** A stop that finds blocks of a live rewrite queued can be followed by a swap that loses them. */
  lemma StopCanTruncate<Db>(e: Env<Db>, s: State<Db>) returns (steps: seq<Step>, t: State<Db>)
    requires Inv(e, s) && !s.truncated && WorkerOk(e, s) && MainEnabled(e, s, Stop) && StopDrops(s)
    ensures After(e, s, [OfMain(Stop)] + steps) == Some(t) && t.hist == s.hist && t.healthy && !t.rewriting
    ensures t.replaced.None? && t.truncated && t.cur.from <= |t.hist| && t.cur.file.data != Target(e, t.hist, t.cur)
  {
    var stop, a := [OfMain(Stop)], s.(stopping := true);
    OneStep(e, s, OfMain(Stop));
    var one, b := DropRest(e, a);
    Then(e, s, stop, a, one, b);
    RunKeepsWorker(e, s, stop + one);
    var two, c := ReachRename(e, b);
    Then(e, s, stop + one, b, two, c);
    RunKeeps(e, s, stop + one + two);
    SwapExact(e, c);
    var three;
    three, t := RenameAndFinish(e, c);
    Then(e, s, stop + one + two, c, three, t);
    steps := one + two + three;
    Regroup(stop, one, two, three);
  }

  lemma Regroup<T>(a: seq<T>, b: seq<T>, c: seq<T>, d: seq<T>)
    ensures a + (b + c + d) == a + b + c + d
  {
  }

  // ----- a run that loses everything -----

  predicate Quiet<Db>(s: State<Db>) {
    && s.main.Idle? && s.worker.WorkerIdle? && s.rewriter.NoRewriter? && s.healthy && !s.stopping && !s.rewriting
    && s.pending == [] && !s.writing && !s.syncing
  }

  /** The rewrite worker has not woken up since the snapshot was queued. */
  predicate Queued<Db>(s: State<Db>, block: bytes) {
    && s.main == Building([]) && s.rewriter == Snapshot([]) && Live(s) && LockFree(s)
    && s.pending == [] && !s.writing && !s.syncing && !s.stopping
    && s.snapshotPending == [block] && s.rewritePending == [] && s.rw.file == File([], 0)
  }

  lemma QueueOneBlock<Db>(e: Env<Db>, s: State<Db>, block: bytes, rest: seq<Step>) returns (t: State<Db>)
    requires Quiet(s) && block != [] && Snapshots(e, s.hist, [block])
    ensures Queued(t, block) && t.hist == s.hist
    ensures After(e, s, [OfMain(StartRewrite([block]))] + ([OfMain(QueueSnapshotBlock)] + rest)) == After(e, t, rest)
  {
    AfterOne(e, s, OfMain(StartRewrite([block])), [OfMain(QueueSnapshotBlock)] + rest);
    var u := DoStartRewrite(s, [block], Database(e, s.hist).value, false);
    assert MainApply(e, s, StartRewrite([block])) == u;
    AfterOne(e, u, OfMain(QueueSnapshotBlock), rest);
    t := DoQueueSnapshotBlock(u);
    assert MainApply(e, u, QueueSnapshotBlock) == t;
  }

  /** The swap goes through with the block still in the queue and nothing in the file. */
  lemma SwapEmpty<Db>(e: Env<Db>, s: State<Db>, rest: seq<Step>) returns (t: State<Db>)
    requires s.rewriter == Delta([]) && Live(s) && LockFree(s) && s.pending == [] && !s.writing && !s.syncing
    requires s.rewritePending == [] && s.rw.file == File([], 0)
    ensures t.cur.file == File([], 0) && t.healthy && !t.rewriting && t.replaced.None? && t.hist == s.hist
    ensures After(e, s, [OfRewrite(TakeDelta)] + ([OfSwap(SwapSyncDone(true))]
              + ([OfSwap(SwapRenameDone(true))] + ([OfSwap(SwapDirectoryDone(true))] + rest))))
         == After(e, t, rest)
  {
    var r3 := [OfSwap(SwapDirectoryDone(true))] + rest;
    var r2 := [OfSwap(SwapRenameDone(true))] + r3;
    AfterOne(e, s, OfRewrite(TakeDelta), [OfSwap(SwapSyncDone(true))] + r2);
    var a := s.(rewriter := SwapSync);
    AfterOne(e, a, OfSwap(SwapSyncDone(true)), r2);
    var b := a.(rw := Sync(a.rw), rewriter := SwapRename);
    AfterOne(e, b, OfSwap(SwapRenameDone(true)), r3);
    AfterOne(e, DoRename(b), OfSwap(SwapDirectoryDone(true)), rest);
    t := FinishRewrite(DoRename(b).(replaced := None), true);
  }

  lemma StopWhileQueued<Db>(e: Env<Db>, s: State<Db>, block: bytes, rest: seq<Step>) returns (t: State<Db>)
    requires Queued(s, block)
    ensures t.rewriter == Delta([]) && Live(t) && LockFree(t) && t.pending == [] && !t.writing && !t.syncing
    ensures t.rewritePending == [] && t.rw.file == File([], 0) && t.hist == s.hist
    ensures After(e, s, [OfMain(SnapshotBuilt)] + ([OfMain(Stop)] + ([OfRewrite(TakeSnapshot)] + rest))) == After(e, t,
      rest)
  {
    var r2 := [OfRewrite(TakeSnapshot)] + rest;
    AfterOne(e, s, OfMain(SnapshotBuilt), [OfMain(Stop)] + r2);
    var a := s.(main := Idle, snapshotComplete := true);
    AfterOne(e, a, OfMain(Stop), r2);
    var b := a.(stopping := true);
    AfterOne(e, b, OfRewrite(TakeSnapshot), rest);
    t := b.(rewriter := Delta([]));
  }

  /**
   * From every quiet state, shutting down right after `StartRewrite` returns can leave an empty file in
   * place of the whole database, with every step of the swap reported as a success.
   */
  lemma StopDuringRewriteLosesAll<Db>(e: Env<Db>, s: State<Db>, block: bytes) returns (steps: seq<Step>)
    requires Quiet(s) && block != [] && Snapshots(e, s.hist, [block]) && e.m.parse([]).Incomplete?
    ensures After(e, s, steps).Some? && After(e, s, steps).value.healthy
    ensures var t := After(e, s, steps).value;
      t.hist == s.hist && t.replaced.None? && Recover(e.m, e.empty, t.cur.file.data) == Some(Recovered(e.empty, 0))
  {
    var swap := [OfRewrite(TakeDelta)] + ([OfSwap(SwapSyncDone(true))]
      + ([OfSwap(SwapRenameDone(true))] + ([OfSwap(SwapDirectoryDone(true))] + [])));
    var stop := [OfMain(SnapshotBuilt)] + ([OfMain(Stop)] + ([OfRewrite(TakeSnapshot)] + swap));
    steps := [OfMain(StartRewrite([block]))] + ([OfMain(QueueSnapshotBlock)] + stop);
    var a := QueueOneBlock(e, s, block, stop);
    var b := StopWhileQueued(e, a, block, swap);
    var c := SwapEmpty(e, b, []);
  }

  // ----- a rewrite of nothing -----

  /** From every quiet state, a rewrite whose snapshot has no block leaves an empty file, whatever the database. */
  lemma RewriteOfNothing<Db>(e: Env<Db>, s: State<Db>) returns (steps: seq<Step>, t: State<Db>)
    requires Quiet(s) && Database(e, s.hist).Some?
    ensures After(e, s, steps) == Some(t) && t.healthy && t.hist == s.hist && t.replaced.None? && t.cur.file.data == []
  {
    var a := DoStartRewrite(s, [], Database(e, s.hist).value, !Snapshots(e, s.hist, []));
    OneStep(e, s, OfMain(StartRewrite([])));
    var b := a.(main := Idle, snapshotComplete := true);
    OneStep(e, a, OfMain(SnapshotBuilt));
    Then(e, s, [OfMain(StartRewrite([]))], a, [OfMain(SnapshotBuilt)], b);
    var more;
    more, t := SwapNothing(e, b);
    steps := [OfMain(StartRewrite([]))] + [OfMain(SnapshotBuilt)];
    Then(e, s, steps, b, more, t);
    steps := steps + more;
  }

  lemma SwapNothing<Db>(e: Env<Db>, s: State<Db>) returns (steps: seq<Step>, t: State<Db>)
    requires s.rewriter == Snapshot([]) && Live(s) && LockFree(s) && s.snapshotPending == [] && s.snapshotComplete
    requires s.pending == [] && !s.writing && !s.syncing && s.rewritePending == [] && s.rw.file == File([], 0)
    ensures After(e, s, steps) == Some(t) && t.healthy && t.hist == s.hist && t.replaced.None? && t.cur.file.data == []
  {
    var a := s.(rewriter := Delta([]));
    OneStep(e, s, OfRewrite(TakeSnapshot));
    var one, b := SyncNew(e, a);
    Then(e, s, [OfRewrite(TakeSnapshot)], a, one, b);
    var two;
    two, t := RenameAndFinish(e, b);
    Then(e, s, [OfRewrite(TakeSnapshot)] + one, b, two, t);
    steps := [OfRewrite(TakeSnapshot)] + one + two;
  }
}
