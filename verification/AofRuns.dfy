/** What a run of the append-only file guarantees: live replay, crash recovery, and the one way it fails. */
module AofRuns {
  import opened Bytes
  import opened Replay
  import opened AofProtocol
  import opened AofInvariant
  import opened AofSafety

  /** A freshly opened file: its content replays in full to the starting database. */
  predicate Init<Db(==)>(e: Env<Db>, s: State<Db>) {
    var base := s.cur.base;
    && s.cur == Log(File(base, |base|), base, 0, e.start) && s.replaced.None?
    && Recover(e.m, e.empty, base) == Some(Recovered(e.start, |base|))
    && s.pending == [] && s.snapshotPending == [] && s.rewritePending == []
    && !s.writing && !s.syncing && !s.dirty && !s.stopping && s.healthy
    && !s.rewriting && !s.rewriteFailed && !s.snapshotComplete
    && s.main.Idle? && s.worker.WorkerIdle? && s.rewriter.NoRewriter?
    && s.hist == [] && s.acked == 0 && !s.truncated
  }

  /** The state after a run of steps, if every one of them was enabled. */
  function After<Db(==)>(e: Env<Db>, s: State<Db>, steps: seq<Step>): Option<State<Db>>
    decreases |steps|
  {
    if steps == [] then Some(s)
    else if !Enabled(e, s, steps[0]) then None
    else After(e, Apply(e, s, steps[0]), steps[1..])
  }

  lemma AfterOne<Db>(e: Env<Db>, s: State<Db>, step: Step, rest: seq<Step>)
    requires Enabled(e, s, step)
    ensures After(e, s, [step] + rest) == After(e, Apply(e, s, step), rest)
  {
    assert ([step] + rest)[1..] == rest;
  }

  lemma {:induction false} AfterConcat<Db>(e: Env<Db>, s: State<Db>, a: seq<Step>, b: seq<Step>)
    requires After(e, s, a).Some?
    ensures After(e, s, a + b) == After(e, After(e, s, a).value, b)
    decreases |a|
  {
    if a == [] {
      assert a + b == b;
    } else {
      assert (a + b)[0] == a[0] && (a + b)[1..] == a[1..] + b;
      AfterConcat(e, Apply(e, s, a[0]), a[1..], b);
    }
  }

  lemma InitInv<Db>(e: Env<Db>, s: State<Db>)
    requires Sound(e.m) && Init(e, s)
    ensures Inv(e, s)
  {
    var base := s.cur.base;
    assert s.hist[..0] == [] && s.hist[0..] == [];
    assert base + [] == base && base + [] + Flatten([]) == base;
  }

  lemma {:induction false} RunKeeps<Db>(e: Env<Db>, s: State<Db>, steps: seq<Step>)
    requires Inv(e, s) && After(e, s, steps).Some?
    ensures Inv(e, After(e, s, steps).value)
    decreases |steps|
  {
    if steps != [] {
      StepKeeps(e, s, steps[0]);
      RunKeeps(e, Apply(e, s, steps[0]), steps[1..]);
    }
  }

  /** The invariant holds at the end of every run of every interleaving. */
  lemma ReachableInv<Db>(e: Env<Db>, s: State<Db>, steps: seq<Step>)
    requires Sound(e.m) && Init(e, s) && After(e, s, steps).Some?
    ensures Inv(e, After(e, s, steps).value)
  {
    InitInv(e, s);
    RunKeeps(e, s, steps);
  }

  // ----- what the invariant means -----

  /** The commands after a file's base take the base's state to the state they end in. */
  lemma TailRuns<Db>(e: Env<Db>, hist: seq<Command>, l: Log<Db>, k: nat)
    requires Anchored(e, hist, l) && l.from <= k <= |hist|
    ensures Database(e, hist[..k]) == Run(e.m, l.state, hist[l.from..][..k - l.from])
  {
    assert hist[..k] == hist[..l.from] + hist[l.from..][..k - l.from];
    RunConcat(e.m, e.start, hist[..l.from], hist[l.from..][..k - l.from]);
  }

  lemma WholeTail<Db>(e: Env<Db>, hist: seq<Command>, l: Log<Db>)
    requires Anchored(e, hist, l)
    ensures Database(e, hist) == Run(e.m, l.state, hist[l.from..])
  {
    TailRuns(e, hist, l, |hist|);
    assert hist[..|hist|] == hist && hist[l.from..][..|hist| - l.from] == hist[l.from..];
  }

  /** A file holding all of its target replays to the database exactly when the commands after its base fit. */
  lemma TargetReplays<Db>(e: Env<Db>, hist: seq<Command>, l: Log<Db>)
    requires Sound(e.m) && Anchored(e, hist, l) && Admissible(e, hist)
    ensures Recover(e.m, e.empty, Target(e, hist, l)) ==
      if AllFit(e.m, hist[l.from..]) then Some(Recovered(Database(e, hist).value, |Target(e, hist, l)|)) else None
  {
    WholeTail(e, hist, l);
    RecoverLog(e.m, e.empty, l.base, l.state, hist[l.from..]);
  }

  /**
   * In every healthy state, replaying the current file with everything on its way to it gives the
   * database: no command is lost or doubled by queues, batches, short writes or a swap of files. It fails
   * exactly when a command appended since the file's base is over the limits of replay.
   */
  lemma LiveReplay<Db>(e: Env<Db>, s: State<Db>)
    requires Inv(e, s) && !s.truncated && s.healthy
    ensures s.cur.from <= |s.hist| && Database(e, s.hist).Some?
    ensures var all := s.cur.file.data + InFlight(s.main, s.worker) + Flatten(s.pending);
      Recover(e.m, e.empty, all) ==
        if AllFit(e.m, s.hist[s.cur.from..]) then Some(Recovered(Database(e, s.hist).value, |all|)) else None
  {
    TargetReplays(e, s.hist, s.cur);
  }

  /** Everything written to, or on its way to, the file of a rewrite that can still succeed. */
  function RewriteContent<Db>(s: State<Db>): bytes {
    match s.rewriter
    case Snapshot(rest) =>
      s.rw.file.data + rest + Flatten(s.snapshotPending) + Flatten(ToQueue(s.main)) + Flatten(s.rewritePending)
    case Delta(rest) => s.rw.file.data + rest + Flatten(s.rewritePending)
    case _ => s.rw.file.data
  }

  lemma SnapshotContent<Db>(e: Env<Db>, hist: seq<Command>, rw: Log<Db>, rest: bytes, queue: seq<bytes>,
      toQueue: seq<bytes>, delta: seq<bytes>)
    requires SnapshotPhase(e, hist, rw, rest, queue, toQueue, delta)
    ensures rw.file.data + rest + Flatten(queue) + Flatten(toQueue) + Flatten(delta) == Target(e, hist, rw)
  {
  }

  lemma DeltaContent<Db>(e: Env<Db>, hist: seq<Command>, rw: Log<Db>, rest: bytes, delta: seq<bytes>)
    requires DeltaPhase(e, hist, rw, rest, [], delta)
    ensures rw.file.data + rest + Flatten(delta) == Target(e, hist, rw)
  {
    assert rw.base[..|rw.base| - 0] == rw.base;
  }

  /**
   * While a rewrite is live, with a snapshot that is not lossy and no block dropped, its file in the making
   * replays to the database too, unless a command appended since the snapshot is over the limits of replay.
   */
  lemma RewriteReplay<Db>(e: Env<Db>, s: State<Db>)
    requires Inv(e, s) && !s.truncated && Live(s) && !s.lossy
    requires s.rewriter.Snapshot? || (s.rewriter.Delta? && Flatten(s.snapshotPending) == [])
    ensures s.rw.from <= |s.hist| && Database(e, s.hist).Some?
    ensures var all := RewriteContent(s);
      Recover(e.m, e.empty, all) ==
        if AllFit(e.m, s.hist[s.rw.from..]) then Some(Recovered(Database(e, s.hist).value, |all|)) else None
  {
    TargetReplays(e, s.hist, s.rw);
    if s.rewriter.Snapshot? {
      SnapshotContent(e, s.hist, s.rw, s.rewriter.rest, s.snapshotPending, ToQueue(s.main), s.rewritePending);
    } else {
      DeltaContent(e, s.hist, s.rw, s.rewriter.rest, s.rewritePending);
    }
  }

  /** A file cut anywhere past its base: the whole commands left in it and the part of the next decide. */
  lemma CutReplays<Db>(e: Env<Db>, hist: seq<Command>, l: Log<Db>, tail: seq<Command>, n: nat)
    requires Sound(e.m) && Anchored(e, hist, l) && tail == hist[l.from..] && AllLoggable(e.m, tail)
      && Run(e.m, l.state, tail).Some?
    requires |l.base| <= n <= |l.file.data| && l.file.data <= l.base + EncodeAll(e.m, tail)
    ensures n - |l.base| <= |EncodeAll(e.m, tail)| && Run(e.m, l.state,
      tail[..WholeCommands(e.m, tail, n - |l.base|)]).Some?
    ensures Recover(e.m, e.empty, l.file.data[..n]) == Shift(|l.base|, PrefixOutcome(e.m, l.state, tail, n - |l.base|))
    ensures AllFit(e.m, tail) ==> CutReadable(e, tail, n - |l.base|)
  {
    CutIsPrefix(l.base, EncodeAll(e.m, tail), l.file.data, n);
    RecoverPrefix(e.m, l.state, tail, n - |l.base|);
    RecoverAppend(e.m, e.empty, l.base, EncodeAll(e.m, tail)[..n - |l.base|]);
  }

  /** A durable command is whole in every cut at or after the synced length. */
  lemma DurableSurvives<Db>(e: Env<Db>, hist: seq<Command>, acked: nat, l: Log<Db>, n: nat)
    requires Durable(e, hist, acked, l) && l.file.synced <= n
    ensures acked <= l.from + WholeCommands(e.m, hist[l.from..], n - |l.base|)
  {
    if l.from <= acked {
      assert hist[l.from..][..acked - l.from] == hist[l.from..acked];
      WholeCommandsCover(e.m, hist[l.from..], acked - l.from, n - |l.base|);
    }
  }

  /** How many commands of the history a file cut to `n` bytes stands for. */
  function CommandsIn<Db>(e: Env<Db>, hist: seq<Command>, l: Log<Db>, n: nat): nat
    requires l.from <= |hist| && |l.base| <= n
  {
    l.from + WholeCommands(e.m, hist[l.from..], n - |l.base|)
  }

  /** Replay accepts what a cut leaves: the whole commands fit, and the part of the next is not already refused. */
  predicate CutReadable<Db>(e: Env<Db>, tail: seq<Command>, n: nat)
    requires n <= |EncodeAll(e.m, tail)|
  {
    AllFit(e.m, tail[..WholeCommands(e.m, tail, n)]) && Tolerated(e.m, PartCommand(e.m, tail, n))
  }

  /** The database after the first `k` commands is recovered, exactly when the cut is readable. */
  ghost predicate RecoversTo<Db>(e: Env<Db>, hist: seq<Command>, k: nat, readable: bool, r: Option<Recovered<Db>>) {
    && k <= |hist| && Database(e, hist[..k]).Some?
    && (r.Some? <==> readable) && (r.Some? ==> r.value.db == Database(e, hist[..k]).value)
  }

  /** What a file cut to `n` bytes recovers to, with `k` commands whole in it. */
  ghost predicate Recovers<Db>(e: Env<Db>, hist: seq<Command>, l: Log<Db>, n: nat, k: nat) {
    && l.from <= |hist| && n <= |l.file.data| && |l.base| <= n <= |l.base| + |EncodeAll(e.m, hist[l.from..])|
    && k == CommandsIn(e, hist, l, n)
    && RecoversTo(e, hist, k, CutReadable(e, hist[l.from..], n - |l.base|), Recover(e.m, e.empty, l.file.data[..n]))
    && (AllFit(e.m, hist[l.from..]) ==> CutReadable(e, hist[l.from..], n - |l.base|))
  }

  lemma CutOutcome<Db>(e: Env<Db>, hist: seq<Command>, l: Log<Db>, n: nat, k: nat, r: Option<Recovered<Db>>)
    requires Anchored(e, hist, l) && |l.base| <= n <= |l.base| + |EncodeAll(e.m, hist[l.from..])|
      && k == CommandsIn(e, hist, l, n)
    requires Run(e.m, l.state, hist[l.from..][..WholeCommands(e.m, hist[l.from..], n - |l.base|)]).Some?
    requires r == Shift(|l.base|, PrefixOutcome(e.m, l.state, hist[l.from..], n - |l.base|))
    ensures RecoversTo(e, hist, k, CutReadable(e, hist[l.from..], n - |l.base|), r)
  {
    TailRuns(e, hist, l, k);
  }

  /** A cut of a file at or after its synced length recovers a state at or after every durable command. */
  lemma CutRecovers<Db>(e: Env<Db>, hist: seq<Command>, acked: nat, l: Log<Db>, n: nat) returns (k: nat)
    requires Sound(e.m) && LogOk(e, hist, acked, l) && Admissible(e, hist)
    requires l.file.synced <= n <= |l.file.data|
    ensures acked <= k <= |hist| && Recovers(e, hist, l, n, k)
  {
    k := CommandsIn(e, hist, l, n);
    WholeTail(e, hist, l);
    CutReplays(e, hist, l, hist[l.from..], n);
    CutOutcome(e, hist, l, n, k, Recover(e.m, e.empty, l.file.data[..n]));
    DurableSurvives(e, hist, acked, l, n);
  }

  lemma CutIsPrefix(base: bytes, log: bytes, data: bytes, n: nat)
    requires data <= base + log && |base| <= n <= |data|
    ensures n - |base| <= |log| && data[..n] == base + log[..n - |base|]
  {
    assert data == (base + log)[..|data|];
  }

  /** The files a crash can leave under the path: the current one, or one whose renaming is not yet on disk. */
  predicate MayBeNamed<Db(==)>(s: State<Db>, l: Log<Db>) {
    l == s.cur || s.replaced == Some(l)
  }

  /**
   * Crash recovery. At any point of any run, whichever file the path then names and wherever past its
   * synced length it is cut, replay gives the state after the commands up to some `k`-th: none that was
   * acknowledged is missing, and under kAlways those not acknowledged are at most the commands of the last
   * append. Replay fails exactly when a command left in the file is over its limits.
   */
  lemma CrashRecovery<Db>(e: Env<Db>, s: State<Db>, l: Log<Db>, n: nat) returns (k: nat)
    requires Inv(e, s) && !s.truncated
    requires MayBeNamed(s, l) && l.file.synced <= n <= |l.file.data|
    ensures s.acked <= k <= |s.hist| && Recovers(e, s.hist, l, n, k)
    ensures e.config.always ==> s.acked == |s.hist| || s.hist == s.hist[..s.acked] + s.last
  {
    k := CutRecovers(e, s.hist, s.acked, l, n);
  }

  // ----- the rewrite that loses its snapshot -----

  /**
   * The step that breaks a rewrite: its worker, asked to stop while snapshot blocks are still queued,
   * leaves the snapshot loop without them but goes on to the swap.
   */
  predicate DropsBlocks<Db>(s: State<Db>, step: Step) {
    step == OfRewrite(TakeSnapshot) && Live(s) && s.stopping && Flatten(s.snapshotPending) != []
  }

  /** A rewrite that starts from a snapshot which does not replay to the database. */
  predicate Forgets<Db(==)>(e: Env<Db>, s: State<Db>, step: Step) {
    step.OfMain? && step.m.StartRewrite? && !Snapshots(e, s.hist, step.m.blocks)
  }

  /** No swapped-in file, and none about to be swapped in, lacks a part of its snapshot or has a lossy one. */
  predicate Clean<Db>(s: State<Db>) {
    !s.truncated && RightSoFar(Live(s), s.rewriter, s.lossy, s.snapshotPending)
  }

  predicate RightSoFar(live: bool, rewriter: Rewriter, lossy: bool, queue: seq<bytes>) {
    live ==> !lossy && (rewriter.Delta? || rewriter.SwapSync? || rewriter.SwapRename? ==> Flatten(queue) == [])
  }

  lemma ShorterBase(base: bytes, lost: bytes, log: bytes)
    requires |lost| <= |base|
    ensures base[..|base| - |lost|] + log == base + log <==> lost == []
  {
    assert |base[..|base| - |lost|] + log| == |base + log| - |lost|;
    if lost == [] {
      assert base[..|base| - |lost|] == base;
    }
  }

  /**
   * The new file is right, at the moment it is renamed, exactly when the snapshot was and no block of it was
   * left behind.
   */
  lemma SwapExact<Db>(e: Env<Db>, s: State<Db>)
    requires Inv(e, s) && !s.truncated && s.rewriter.SwapRename?
    ensures s.rw.from <= |s.hist|
    ensures s.rw.file.data == Target(e, s.hist, s.rw) <==> Flatten(s.snapshotPending) == []
    ensures Anchored(e, s.hist, s.rw) && s.rw.file.data == Target(e, s.hist, s.rw) <==> Clean(s)
    ensures DoRename(s).truncated <==> !Clean(s)
  {
    assert s.rw.file.data + [] + Flatten([]) == s.rw.file.data;
    ShorterBase(s.rw.base, Flatten(s.snapshotPending), EncodeAll(e.m, s.hist[s.rw.from..]));
  }

  lemma ApartStaysClean<Db>(s: State<Db>, t: State<Db>)
    requires Clean(s) && RewriteApart(s, t)
    ensures Clean(t)
  {
  }

  lemma AppendQueuedClean<Db>(e: Env<Db>, s: State<Db>, cs: seq<Command>)
    requires Clean(s)
    ensures Clean(DoAppendQueued(e, s, cs))
  {
  }

  lemma QueueSnapshotBlockClean<Db>(e: Env<Db>, s: State<Db>)
    requires FlagsOk(e, s) && Clean(s) && s.main.Building? && s.main.blocks != []
    ensures Clean(DoQueueSnapshotBlock(s))
  {
  }

  lemma MainStaysClean<Db>(e: Env<Db>, s: State<Db>, step: MainStep)
    requires FlagsOk(e, s) && Clean(s) && MainEnabled(e, s, step) && !Forgets(e, s, OfMain(step))
    ensures Clean(MainApply(e, s, step))
  {
    match step {
      case AppendQueued(cs) => AppendQueuedClean(e, s, cs);
      case StartRewrite(blocks) =>
      case QueueSnapshotBlock => QueueSnapshotBlockClean(e, s);
      case SnapshotFails =>
      case SnapshotBuilt =>
      case WaitOver =>
      case Stop =>
    }
  }

  lemma TakeSnapshotClean<Db>(s: State<Db>)
    requires Clean(s) && s.rewriter.Snapshot? && !DropsBlocks(s, OfRewrite(TakeSnapshot))
    ensures Clean(DoTakeSnapshot(s))
  {
  }

  lemma TakeDeltaClean<Db>(s: State<Db>)
    requires Clean(s) && s.rewriter == Delta([])
    ensures Clean(DoTakeDelta(s))
  {
    if !s.healthy || s.rewriteFailed {
    } else if s.rewritePending != [] {
    } else {
    }
  }

  lemma RewriteWriteClean<Db>(s: State<Db>, n: nat)
    requires Clean(s) && (s.rewriter.Snapshot? || s.rewriter.Delta?) && n <= |s.rewriter.rest|
    ensures Clean(DoRewriteWrite(s, n))
  {
  }

  lemma RewriteStaysClean<Db>(s: State<Db>, step: RewriteStep)
    requires Clean(s) && RewriteEnabled(s, step) && !DropsBlocks(s, OfRewrite(step))
    ensures Clean(RewriteApply(s, step))
  {
    match step {
      case TakeSnapshot => TakeSnapshotClean(s);
      case RewriteWrite(n) => RewriteWriteClean(s, n);
      case RewriteWriteFails =>
      case TakeDelta => TakeDeltaClean(s);
      case RewriteCleanup =>
    }
  }

  lemma SwapStaysClean<Db>(e: Env<Db>, s: State<Db>, step: SwapStep)
    requires FlagsOk(e, s) && Clean(s) && SwapEnabled(s, step)
    ensures Clean(SwapApply(s, step))
  {
  }

  lemma StaysClean<Db>(e: Env<Db>, s: State<Db>, step: Step)
    requires FlagsOk(e, s) && Clean(s) && Enabled(e, s, step) && !DropsBlocks(s, step) && !Forgets(e, s, step)
    ensures Clean(Apply(e, s, step))
  {
    match step {
      case OfMain(m) => MainStaysClean(e, s, m);
      case OfAlways(a) => ApartStaysClean(s, AlwaysApply(e, s, a));
      case OfWorker(w) => ApartStaysClean(s, WorkerApply(e, s, w));
      case OfRewrite(r) => RewriteStaysClean(s, r);
      case OfSwap(x) => SwapStaysClean(e, s, x);
    }
  }

  /** No rewrite of the run starts from a lossy snapshot. */
  predicate NeverForgets<Db(==)>(e: Env<Db>, s: State<Db>, steps: seq<Step>)
    decreases |steps|
  {
    steps == [] ||
    (!Forgets(e, s, steps[0]) && (Enabled(e, s, steps[0]) ==> NeverForgets(e, Apply(e, s, steps[0]), steps[1..])))
  }

  /** No rewrite of the run leaves blocks of its snapshot behind. */
  predicate NeverDrops<Db(==)>(e: Env<Db>, s: State<Db>, steps: seq<Step>)
    decreases |steps|
  {
    steps == [] || (!DropsBlocks(s, steps[0]) && (Enabled(e, s, steps[0]) ==>
      NeverDrops(e, Apply(e, s, steps[0]), steps[1..])))
  }

  lemma {:induction false} RunStaysClean<Db>(e: Env<Db>, s: State<Db>, steps: seq<Step>)
    requires Inv(e, s) && Clean(s) && After(e, s, steps).Some? && NeverDrops(e, s, steps) && NeverForgets(e, s, steps)
    ensures Clean(After(e, s, steps).value)
    decreases |steps|
  {
    if steps != [] {
      StaysClean(e, s, steps[0]);
      StepKeeps(e, s, steps[0]);
      RunStaysClean(e, Apply(e, s, steps[0]), steps[1..]);
    }
  }

  /** The commands of the last append of a run under kAlways. */
  function LastAppend(steps: seq<Step>, before: seq<Command>): seq<Command> {
    if steps == [] then before
    else LastAppend(steps[1..], if steps[0].OfAlways? && steps[0].a.AppendAlways? then steps[0].a.commands else before)
  }

  lemma {:induction false} LastOfRun<Db>(e: Env<Db>, s: State<Db>, steps: seq<Step>)
    requires After(e, s, steps).Some?
    ensures After(e, s, steps).value.last == LastAppend(steps, s.last)
    decreases |steps|
  {
    if steps != [] {
      LastOfRun(e, Apply(e, s, steps[0]), steps[1..]);
    }
  }

  /**
   * Every run from a freshly opened file in which no rewrite is stopped with snapshot blocks queued, and none
   * starts from a lossy snapshot, can crash anywhere and recover every acknowledged command; under
   * kAlways only the commands of the last append of the run can be missing.
   */
  lemma RunsRecover<Db>(e: Env<Db>, start: State<Db>, steps: seq<Step>, l: Log<Db>, n: nat) returns (k: nat)
    requires Sound(e.m) && Init(e, start) && After(e, start, steps).Some?
    requires NeverDrops(e, start, steps) && NeverForgets(e, start, steps)
    requires MayBeNamed(After(e, start, steps).value, l) && l.file.synced <= n <= |l.file.data|
    ensures var s := After(e, start, steps).value;
      && s.acked <= k <= |s.hist| && Recovers(e, s.hist, l, n, k)
      && (e.config.always ==> s.acked == |s.hist| || s.hist == s.hist[..s.acked] + LastAppend(steps, start.last))
  {
    ReachableInv(e, start, steps);
    InitInv(e, start);
    RunStaysClean(e, start, steps);
    LastOfRun(e, start, steps);
    k := CrashRecovery(e, After(e, start, steps).value, l, n);
  }
}
