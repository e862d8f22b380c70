/** When it is safe to stop the append-only file. */
module AofStops {
  import opened Bytes
  import opened Replay
  import opened AofProtocol
  import opened AofInvariant
  import opened AofSafety
  import opened AofRuns

  // ----- when it is safe to stop -----

  /** Stopping here lets the rewrite worker leave snapshot blocks behind. */
  predicate StopDrops<Db>(s: State<Db>) {
    WouldDrop(s.rewriter, Live(s), s.snapshotPending)
  }

  predicate WouldDrop(rewriter: Rewriter, live: bool, queue: seq<bytes>) {
    rewriter.Snapshot? && live && Flatten(queue) != []
  }

  /** A stop, if there was one, was made from rest with nothing to drop. */
  predicate SafeSoFar<Db>(s: State<Db>) {
    s.stopping ==> s.main.Idle? && !StopDrops(s)
  }

  predicate SafeStep<Db>(s: State<Db>, step: Step) {
    step == OfMain(Stop) ==> !StopDrops(s)
  }

  lemma MainStaysSafe<Db>(e: Env<Db>, s: State<Db>, step: MainStep)
    requires SafeSoFar(s) && MainEnabled(e, s, step) && SafeStep(s, OfMain(step))
    ensures SafeSoFar(MainApply(e, s, step))
  {
    if step != Stop {
      StoppedMain(e, s, step);
    }
  }

  /** The main thread takes no further step once it has stopped from rest. */
  lemma StoppedMain<Db>(e: Env<Db>, s: State<Db>, step: MainStep)
    requires MainEnabled(e, s, step) && step != Stop
    ensures s.stopping ==> !s.main.Idle?
  {
  }

  lemma ApartStaysSafe<Db>(s: State<Db>, t: State<Db>)
    requires SafeSoFar(s) && RewriteApart(s, t) && (s.stopping ==> t.main == s.main)
    ensures SafeSoFar(t)
  {
  }

  /** Under kAlways nothing is appended once the file has been stopped from rest. */
  lemma AlwaysStaysSafe<Db>(e: Env<Db>, s: State<Db>, step: AlwaysStep)
    requires SafeSoFar(s) && AlwaysEnabled(e, s, step)
    ensures SafeSoFar(AlwaysApply(e, s, step))
  {
    assert s.stopping ==> !s.main.Idle?;
    ApartStaysSafe(s, AlwaysApply(e, s, step));
  }

  lemma TakeSnapshotSafe<Db>(s: State<Db>)
    requires SafeSoFar(s) && s.rewriter.Snapshot?
    ensures SafeSoFar(DoTakeSnapshot(s))
  {
  }

  lemma TakeDeltaSafe<Db>(s: State<Db>)
    requires SafeSoFar(s) && s.rewriter == Delta([])
    ensures SafeSoFar(DoTakeDelta(s))
  {
  }

  lemma RewriteWriteSafe<Db>(s: State<Db>, n: nat)
    requires SafeSoFar(s) && (s.rewriter.Snapshot? || s.rewriter.Delta?) && n <= |s.rewriter.rest|
    ensures SafeSoFar(DoRewriteWrite(s, n))
  {
  }

  lemma RewriteStaysSafe<Db>(s: State<Db>, step: RewriteStep)
    requires SafeSoFar(s) && RewriteEnabled(s, step)
    ensures SafeSoFar(RewriteApply(s, step))
  {
    match step {
      case TakeSnapshot => TakeSnapshotSafe(s);
      case RewriteWrite(n) => RewriteWriteSafe(s, n);
      case RewriteWriteFails =>
      case TakeDelta => TakeDeltaSafe(s);
      case RewriteCleanup =>
    }
  }

  lemma SwapStaysSafe<Db>(e: Env<Db>, s: State<Db>, step: SwapStep)
    requires FlagsOk(e, s) && SafeSoFar(s) && SwapEnabled(s, step)
    ensures SafeSoFar(SwapApply(s, step))
  {
  }

  lemma StaysSafe<Db>(e: Env<Db>, s: State<Db>, step: Step)
    requires FlagsOk(e, s) && SafeSoFar(s) && Enabled(e, s, step) && SafeStep(s, step)
    ensures !DropsBlocks(s, step) && SafeSoFar(Apply(e, s, step))
  {
    match step {
      case OfMain(m) => MainStaysSafe(e, s, m);
      case OfAlways(a) => AlwaysStaysSafe(e, s, a);
      case OfWorker(w) => ApartStaysSafe(s, WorkerApply(e, s, w));
      case OfRewrite(r) => RewriteStaysSafe(s, r);
      case OfSwap(x) => SwapStaysSafe(e, s, x);
    }
  }

  /** Every stop of the run comes when no snapshot block is queued for a rewrite that may yet succeed. */
  predicate StopsSafely<Db(==)>(e: Env<Db>, s: State<Db>, steps: seq<Step>)
    decreases |steps|
  {
    steps == [] || (SafeStep(s, steps[0]) && (Enabled(e, s, steps[0]) ==>
      StopsSafely(e, Apply(e, s, steps[0]), steps[1..])))
  }

  lemma {:induction false} SafeStopsNeverDrop<Db>(e: Env<Db>, s: State<Db>, steps: seq<Step>)
    requires Inv(e, s) && Clean(s) && SafeSoFar(s) && After(e, s, steps).Some? && StopsSafely(e, s, steps)
    requires NeverForgets(e, s, steps)
    ensures NeverDrops(e, s, steps)
    decreases |steps|
  {
    if steps != [] {
      StaysSafe(e, s, steps[0]);
      StaysClean(e, s, steps[0]);
      StepKeeps(e, s, steps[0]);
      SafeStopsNeverDrop(e, Apply(e, s, steps[0]), steps[1..]);
    }
  }

  /** Every stop of the run comes when no rewrite is reported to be in progress. */
  predicate StopsAtRest<Db(==)>(e: Env<Db>, s: State<Db>, steps: seq<Step>)
    decreases |steps|
  {
    steps == [] ||
    ((steps[0] == OfMain(Stop) ==> !s.rewriting) && (Enabled(e, s, steps[0]) ==>
      StopsAtRest(e, Apply(e, s, steps[0]), steps[1..])))
  }

  lemma {:induction false} AtRestIsSafe<Db>(e: Env<Db>, s: State<Db>, steps: seq<Step>)
    requires StopsAtRest(e, s, steps)
    ensures StopsSafely(e, s, steps)
    decreases |steps|
  {
    if steps != [] && Enabled(e, s, steps[0]) {
      AtRestIsSafe(e, Apply(e, s, steps[0]), steps[1..]);
    }
  }

  /** A caller who stops only while no rewrite is in progress recovers every acknowledged command from any crash. */
  lemma StoppedAtRestRecovers<Db>(e: Env<Db>, start: State<Db>, steps: seq<Step>, l: Log<Db>, n: nat) returns (k: nat)
    requires Sound(e.m) && Init(e, start) && After(e, start, steps).Some? && StopsAtRest(e, start, steps)
      && NeverForgets(e, start, steps)
    requires MayBeNamed(After(e, start, steps).value, l) && l.file.synced <= n <= |l.file.data|
    ensures var s := After(e, start, steps).value; !s.truncated && s.acked <= k <= |s.hist| && Recovers(e, s.hist, l, n,
      k)
  {
    InitInv(e, start);
    AtRestIsSafe(e, start, steps);
    SafeStopsNeverDrop(e, start, steps);
    RunStaysClean(e, start, steps);
    k := RunsRecover(e, start, steps, l, n);
  }
}
