/**
 * When the append-only file and its rewrites fail, read off the steps of a run: a system call that fails, or
 * an append that finds its queue at a limit.
 */
module AofLimits {
  import opened Bytes
  import opened Replay
  import opened AofProtocol
  import opened AofInvariant
  import opened AofRuns

  // ----- what the steps of a run say -----

  predicate IsQueuedAppend(step: Step) {
    step.OfMain? && step.m.AppendQueued?
  }

  predicate IsAlwaysAppend(step: Step) {
    step.OfAlways? && step.a.AppendAlways?
  }

  predicate StartsRewrite(step: Step) {
    step.OfMain? && step.m.StartRewrite?
  }

  /** The commands a step hands over to the file. */
  function CommandsOf(step: Step): seq<Command> {
    if IsQueuedAppend(step) then step.m.commands else if IsAlwaysAppend(step) then step.a.commands else []
  }

  /** The bytes of the record a step hands over. */
  function RecordSize<Db>(e: Env<Db>, step: Step): nat {
    |EncodeAll(e.m, CommandsOf(step))|
  }

  /** Every command handed over, in order. */
  function Appended(steps: seq<Step>): seq<Command> {
    if steps == [] then [] else Appended(steps[..|steps| - 1]) + CommandsOf(steps[|steps| - 1])
  }

  /** The sizes of the records appended since the background worker last took a batch. */
  function Queued<Db>(e: Env<Db>, steps: seq<Step>): seq<nat> {
    if steps == [] then []
    else
      var front, last := steps[..|steps| - 1], steps[|steps| - 1];
      if last == OfWorker(TakeBatch) then []
      else if IsQueuedAppend(last) then Queued(e, front) + [RecordSize(e, last)]
      else Queued(e, front)
  }

  function Sum(sizes: seq<nat>): nat {
    if sizes == [] then 0 else Sum(sizes[..|sizes| - 1]) + sizes[|sizes| - 1]
  }

  /** A queue of records of these sizes can take one more. */
  predicate HasRoom(c: Config, sizes: seq<nat>, size: nat) {
    Sum(sizes) + size <= c.maxPendingBytes && |sizes| < c.maxPendingCommands
  }

  /** Every append of the run finds room in the queue. */
  predicate AppendsFit<Db>(e: Env<Db>, steps: seq<Step>) {
    forall i :: 0 <= i < |steps| && IsQueuedAppend(steps[i]) ==>
      HasRoom(e.config, Queued(e, steps[..i]), RecordSize(e, steps[i]))
  }

  /** A system call on the current file or its directory that fails. */
  predicate BreaksFile(step: Step) {
    match step
    case OfMain(m) => false
    case OfAlways(a) => AlwaysBreaks(a)
    case OfWorker(w) => WorkerBreaks(w)
    case OfRewrite(r) => false
    case OfSwap(x) => SwapBreaks(x)
  }

  predicate NoneBreaks(steps: seq<Step>) {
    forall i :: 0 <= i < |steps| ==> !BreaksFile(steps[i])
  }

  // ----- the queue and its sizes -----

  function Sizes(queue: seq<bytes>): seq<nat> {
    seq(|queue|, i requires 0 <= i < |queue| => |queue[i]|)
  }

  lemma SizesMore(queue: seq<bytes>, record: bytes)
    ensures Sizes(queue + [record]) == Sizes(queue) + [|record|]
  {
  }

  lemma {:induction false} SumOfSizes(queue: seq<bytes>)
    ensures Sum(Sizes(queue)) == |Flatten(queue)|
  {
    if queue != [] {
      var front, last := queue[..|queue| - 1], queue[|queue| - 1];
      assert queue == front + [last];
      SumOfSizes(front);
      SizesMore(front, last);
      assert Sizes(queue)[..|front|] == Sizes(front);
      FlattenAppend(front, last);
    }
  }

  // ----- runs by their last step -----

  lemma {:induction false} PartRuns<Db>(e: Env<Db>, s: State<Db>, a: seq<Step>, b: seq<Step>)
    requires After(e, s, a + b).Some?
    ensures After(e, s, a).Some?
    decreases |a|
  {
    if a != [] {
      assert (a + b)[0] == a[0] && (a + b)[1..] == a[1..] + b;
      PartRuns(e, Apply(e, s, a[0]), a[1..], b);
    }
  }

  /** The state before the last step of a run. */
  lemma BackOne<Db>(e: Env<Db>, start: State<Db>, steps: seq<Step>) returns (s: State<Db>)
    requires steps != [] && After(e, start, steps).Some?
    ensures After(e, start, steps[..|steps| - 1]) == Some(s) && Enabled(e, s, steps[|steps| - 1])
    ensures After(e, start, steps) == Some(Apply(e, s, steps[|steps| - 1]))
  {
    var front, last := steps[..|steps| - 1], steps[|steps| - 1];
    assert steps == front + [last];
    PartRuns(e, start, front, [last]);
    s := After(e, start, front).value;
    AfterConcat(e, start, front, [last]);
    LastStep(e, s, last);
  }

  lemma LastStep<Db>(e: Env<Db>, s: State<Db>, step: Step)
    requires After(e, s, [step]).Some?
    ensures Enabled(e, s, step) && After(e, s, [step]) == Some(Apply(e, s, step))
  {
    assert [step][1..] == [];
  }

  lemma FitLast<Db>(e: Env<Db>, steps: seq<Step>)
    requires steps != []
    ensures var front, last := steps[..|steps| - 1], steps[|steps| - 1];
      AppendsFit(e, steps) <==> AppendsFit(e, front) && (IsQueuedAppend(last) ==>
        HasRoom(e.config, Queued(e, front), RecordSize(e, last)))
  {
    var front := steps[..|steps| - 1];
    assert forall i :: 0 <= i < |front| ==> steps[i] == front[i] && steps[..i] == front[..i];
  }

  lemma NoneLast(steps: seq<Step>)
    requires steps != []
    ensures NoneBreaks(steps) <==> NoneBreaks(steps[..|steps| - 1]) && !BreaksFile(steps[|steps| - 1])
  {
    var front := steps[..|steps| - 1];
    assert forall i :: 0 <= i < |front| ==> steps[i] == front[i];
  }

  // ----- the file -----

  /** An append keeps the file healthy exactly when the queue has room for its record. */
  lemma AppendHealth<Db>(e: Env<Db>, s: State<Db>, cs: seq<Command>)
    requires s.healthy
    ensures var t, record := DoAppendQueued(e, s, cs), EncodeAll(e.m, cs);
      && (t.healthy <==> HasRoom(e.config, Sizes(s.pending), |record|))
      && (t.healthy ==> Sizes(t.pending) == Sizes(s.pending) + [|record|])
  {
    SumOfSizes(s.pending);
    SizesMore(s.pending, EncodeAll(e.m, cs));
  }

  /** A step other than a queued append fails a healthy file exactly when it is a system call that fails. */
  lemma OtherHealth<Db>(e: Env<Db>, s: State<Db>, step: Step)
    requires Enabled(e, s, step) && !IsQueuedAppend(step)
    ensures var t := Apply(e, s, step);
      && (t.healthy <==> s.healthy && !BreaksFile(step))
      && (t.healthy ==> t.pending == if step == OfWorker(TakeBatch) then [] else s.pending)
  {
    match step {
      case OfMain(m) =>
      case OfAlways(a) =>
      case OfWorker(w) =>
      case OfRewrite(r) =>
      case OfSwap(x) =>
    }
  }

  /**
   * A file is healthy at the end of a run exactly when no system call on it has failed and every append has
   * found room in the queue; the queue then holds the records appended since the last batch.
   */
  lemma {:induction false} HealthExact<Db>(e: Env<Db>, start: State<Db>, steps: seq<Step>)
    requires Init(e, start) && After(e, start, steps).Some?
    ensures var t := After(e, start, steps).value;
      && (t.healthy <==> NoneBreaks(steps) && AppendsFit(e, steps))
      && (t.healthy ==> Sizes(t.pending) == Queued(e, steps))
    decreases |steps|
  {
    if steps != [] {
      var front, last := steps[..|steps| - 1], steps[|steps| - 1];
      var s := BackOne(e, start, steps);
      HealthExact(e, start, front);
      FitLast(e, steps);
      NoneLast(steps);
      if IsQueuedAppend(last) {
        AppendHealth(e, s, last.m.commands);
      } else {
        OtherHealth(e, s, last);
      }
    }
  }

  /** The history is what the appends of the run handed over. */
  lemma {:induction false} HistoryOfRun<Db>(e: Env<Db>, start: State<Db>, steps: seq<Step>)
    requires Init(e, start) && After(e, start, steps).Some?
    ensures After(e, start, steps).value.hist == Appended(steps)
    decreases |steps|
  {
    if steps != [] {
      var s := BackOne(e, start, steps);
      HistoryOfRun(e, start, steps[..|steps| - 1]);
      StepHistory(e, s, steps[|steps| - 1]);
    }
  }

  lemma StepHistory<Db>(e: Env<Db>, s: State<Db>, step: Step)
    requires Enabled(e, s, step)
    ensures Apply(e, s, step).hist == s.hist + CommandsOf(step)
  {
    match step {
      case OfMain(m) =>
      case OfAlways(a) =>
      case OfWorker(w) =>
      case OfRewrite(r) =>
      case OfSwap(x) =>
    }
  }

  // ----- rewrites -----

  predicate IsAppend(step: Step) {
    IsQueuedAppend(step) || IsAlwaysAppend(step)
  }

  predicate EndsRewrite(step: Step) {
    step == OfRewrite(RewriteCleanup) || (step.OfSwap? && (step.x.SwapDirectoryDone? || !step.x.ok))
  }

  /** A rewrite has been started and has not ended. */
  predicate Underway(steps: seq<Step>) {
    steps != [] &&
    var front, last := steps[..|steps| - 1], steps[|steps| - 1];
    if StartsRewrite(last) then true else if EndsRewrite(last) then false else Underway(front)
  }

  /** The sizes of the records appended since the rewrite started, or since its worker last took them. */
  function Buffered<Db>(e: Env<Db>, steps: seq<Step>): seq<nat> {
    if steps == [] then []
    else
      var front, last := steps[..|steps| - 1], steps[|steps| - 1];
      if StartsRewrite(last) || last == OfRewrite(TakeDelta) then []
      else if IsAppend(last) then Buffered(e, front) + [RecordSize(e, last)]
      else Buffered(e, front)
  }

  /** An append during the latest rewrite has found no room in its queue. */
  predicate Overrun<Db>(e: Env<Db>, steps: seq<Step>) {
    steps != [] &&
    var front, last := steps[..|steps| - 1], steps[|steps| - 1];
    !StartsRewrite(last) && (Overrun(e, front) ||
      (IsAppend(last) && Underway(front) && !HasRoom(e.config, Buffered(e, front), RecordSize(e, last))))
  }

  /** A stop, a failing snapshot, or a system call on the file in the making that fails. */
  predicate BreaksRewrite(step: Step) {
    match step
    case OfMain(m) => m.Stop? || m.SnapshotFails?
    case OfAlways(a) => false
    case OfWorker(w) => false
    case OfRewrite(r) => r.RewriteWriteFails?
    case OfSwap(x) => !x.ok
  }

  predicate Undisturbed(steps: seq<Step>) {
    forall i :: 0 <= i < |steps| ==> !BreaksFile(steps[i]) && !BreaksRewrite(steps[i])
  }

  /** The rewrite worker gives up only a failed rewrite, and swaps only one that has not failed. */
  predicate OnCourse<Db>(s: State<Db>) {
    && !s.stopping && (s.rewriting <==> !s.rewriter.NoRewriter?)
    && (s.rewriter.Cleanup? ==> s.rewriteFailed) && (Swapping(s.rewriter) ==> !s.rewriteFailed)
  }

  /** What an append does to a rewrite, by the size of its record. */
  predicate AppendSeen<Db>(e: Env<Db>, s: State<Db>, t: State<Db>, size: nat) {
    && t.rewriting == s.rewriting && t.rewriter == s.rewriter && t.stopping == s.stopping
    && (t.rewriteFailed <==> s.rewriteFailed || (s.rewriting && !HasRoom(e.config, Sizes(s.rewritePending), size)))
    && (s.rewriting && !t.rewriteFailed ==> Sizes(t.rewritePending) == Sizes(s.rewritePending) + [size])
  }

  lemma OfferSeen<Db>(e: Env<Db>, s: State<Db>, record: bytes)
    ensures AppendSeen(e, s, Offer(e, s, record), |record|)
  {
    SumOfSizes(s.rewritePending);
    SizesMore(s.rewritePending, record);
  }

  lemma QueuedSeen<Db>(e: Env<Db>, s: State<Db>, cs: seq<Command>)
    requires DoAppendQueued(e, s, cs).healthy
    ensures AppendSeen(e, s, DoAppendQueued(e, s, cs), |EncodeAll(e.m, cs)|)
  {
    OfferSeen(e, s, EncodeAll(e.m, cs));
  }

  lemma AlwaysSeen<Db>(e: Env<Db>, s: State<Db>, cs: seq<Command>)
    ensures AppendSeen(e, s, DoAppendAlways(e, s, cs), |EncodeAll(e.m, cs)|)
  {
    OfferSeen(e, s, EncodeAll(e.m, cs));
  }

  /** What any other step does. */
  predicate OtherSeen<Db>(s: State<Db>, t: State<Db>, step: Step) {
    if StartsRewrite(step) then t.rewriting && !t.rewriteFailed && t.rewritePending == []
    else if EndsRewrite(step) then !t.rewriting && t.rewriteFailed == s.rewriteFailed
    else if step == OfRewrite(TakeDelta) then
      t.rewriting == s.rewriting && t.rewriteFailed == s.rewriteFailed && (t.rewriteFailed || t.rewritePending == [])
    else SameRewrite(s, t)
  }

  lemma MainSeen<Db>(e: Env<Db>, s: State<Db>, step: MainStep)
    requires MainEnabled(e, s, step) && !step.AppendQueued? && !BreaksRewrite(OfMain(step)) && OnCourse(s)
    ensures OtherSeen(s, MainApply(e, s, step), OfMain(step)) && OnCourse(MainApply(e, s, step))
  {
  }

  lemma CleanupSeen<Db>(s: State<Db>)
    requires s.rewriter.Cleanup? && OnCourse(s)
    ensures OtherSeen(s, FinishRewrite(s, false), OfRewrite(RewriteCleanup)) && OnCourse(FinishRewrite(s, false))
  {
  }

  lemma TakeDeltaSeen<Db>(s: State<Db>)
    requires s.rewriter == Delta([]) && s.healthy && OnCourse(s)
    ensures OtherSeen(s, DoTakeDelta(s), OfRewrite(TakeDelta)) && OnCourse(DoTakeDelta(s))
  {
  }

  lemma RewriteSeen<Db>(s: State<Db>, step: RewriteStep)
    requires RewriteEnabled(s, step) && !BreaksRewrite(OfRewrite(step)) && s.healthy && OnCourse(s)
    ensures OtherSeen(s, RewriteApply(s, step), OfRewrite(step)) && OnCourse(RewriteApply(s, step))
  {
    match step {
      case TakeSnapshot =>
      case RewriteWrite(n) =>
      case TakeDelta => TakeDeltaSeen(s);
      case RewriteCleanup => CleanupSeen(s);
      case RewriteWriteFails =>
    }
  }

  lemma SwapSeen<Db>(s: State<Db>, step: SwapStep)
    requires SwapEnabled(s, step) && step.ok && OnCourse(s)
    ensures OtherSeen(s, SwapApply(s, step), OfSwap(step)) && OnCourse(SwapApply(s, step))
  {
  }

  lemma StepSeen<Db>(e: Env<Db>, s: State<Db>, step: Step)
    requires Enabled(e, s, step) && s.healthy && OnCourse(s) && Apply(e, s, step).healthy && !BreaksRewrite(step)
    ensures var t := Apply(e, s, step);
      OnCourse(t) && if IsAppend(step) then AppendSeen(e, s, t, RecordSize(e, step)) else OtherSeen(s, t, step)
  {
    match step {
      case OfMain(m) => if m.AppendQueued? { QueuedSeen(e, s, m.commands); } else { MainSeen(e, s, m); }
      case OfAlways(a) => if a.AppendAlways? { AlwaysSeen(e, s, a.commands); }
      case OfWorker(w) =>
      case OfRewrite(r) => RewriteSeen(s, r);
      case OfSwap(x) => SwapSeen(s, x);
    }
  }

  lemma UndisturbedLast(steps: seq<Step>)
    requires steps != [] && Undisturbed(steps)
    ensures Undisturbed(steps[..|steps| - 1]) && !BreaksRewrite(steps[|steps| - 1]) && NoneBreaks(steps)
  {
  }

  /** The steps of a run tell whether a rewrite is underway, whether it has failed, and what its queue holds. */
  predicate Told<Db>(e: Env<Db>, s: State<Db>, steps: seq<Step>) {
    && (s.rewriting <==> Underway(steps)) && (s.rewriteFailed <==> Overrun(e, steps))
    && (s.rewriting && !s.rewriteFailed ==> Sizes(s.rewritePending) == Buffered(e, steps))
  }

  lemma ToldOn<Db>(e: Env<Db>, s: State<Db>, t: State<Db>, steps: seq<Step>)
    requires steps != [] && Told(e, s, steps[..|steps| - 1])
    requires var last := steps[|steps| - 1];
      if IsAppend(last) then AppendSeen(e, s, t, RecordSize(e, last)) else OtherSeen(s, t, last)
    ensures Told(e, t, steps)
  {
  }

  /**
   * In an undisturbed run whose appends fit the queue, a rewrite has failed exactly when an append during it
   * has found no room in the rewrite's own queue.
   */
  lemma {:induction false} RewriteFailsExact<Db>(e: Env<Db>, start: State<Db>, steps: seq<Step>)
    requires Init(e, start) && After(e, start, steps).Some? && Undisturbed(steps) && AppendsFit(e, steps)
    ensures OnCourse(After(e, start, steps).value) && Told(e, After(e, start, steps).value, steps)
    decreases |steps|
  {
    if steps != [] {
      var s := BackOne(e, start, steps);
      UndisturbedLast(steps);
      FitLast(e, steps);
      HealthyBefore(e, start, steps);
      RewriteFailsExact(e, start, steps[..|steps| - 1]);
      StepSeen(e, s, steps[|steps| - 1]);
      ToldOn(e, s, Apply(e, s, steps[|steps| - 1]), steps);
    }
  }

  /** In such a run the rewrite worker gives up only after an append has found no room. */
  lemma GivesUpOverrun<Db>(e: Env<Db>, start: State<Db>, steps: seq<Step>)
    requires Init(e, start) && After(e, start, steps + [OfRewrite(RewriteCleanup)]).Some?
    requires Undisturbed(steps) && AppendsFit(e, steps)
    ensures Overrun(e, steps)
  {
    PartRuns(e, start, steps, [OfRewrite(RewriteCleanup)]);
    AfterConcat(e, start, steps, [OfRewrite(RewriteCleanup)]);
    RewriteFailsExact(e, start, steps);
    LastStep(e, After(e, start, steps).value, OfRewrite(RewriteCleanup));
  }

  // ----- rewrites that succeed -----

  predicate Started(steps: seq<Step>) {
    exists i :: 0 <= i < |steps| && StartsRewrite(steps[i])
  }

  /** How many commands had been handed over when the latest rewrite started. */
  function SnapshotAt(steps: seq<Step>): nat {
    if steps == [] then 0
    else
      var front, last := steps[..|steps| - 1], steps[|steps| - 1];
      if StartsRewrite(last) then |Appended(front)| else SnapshotAt(front)
  }

  /** Where the file of the latest rewrite is, once it has started: in the making, swapped in, or dropped. */
  predicate Placed<Db>(s: State<Db>, at: nat) {
    if s.rewriting && !s.rewriter.SwapDirectory? then s.rw.from == at else s.rewriteFailed || s.cur.from == at
  }

  lemma MainPlaced<Db>(e: Env<Db>, s: State<Db>, step: MainStep, at: nat)
    requires MainEnabled(e, s, step) && OnCourse(s) && Placed(s, at) && !step.StartRewrite?
    requires !BreaksRewrite(OfMain(step)) && MainApply(e, s, step).healthy
    ensures Placed(MainApply(e, s, step), at)
  {
    if step.AppendQueued? {
      QueuedSeen(e, s, step.commands);
    }
  }

  lemma AlwaysPlaced<Db>(e: Env<Db>, s: State<Db>, step: AlwaysStep, at: nat)
    requires AlwaysEnabled(e, s, step) && OnCourse(s) && Placed(s, at)
    ensures Placed(AlwaysApply(e, s, step), at)
  {
  }

  lemma RewritePlaced<Db>(s: State<Db>, step: RewriteStep, at: nat)
    requires RewriteEnabled(s, step) && OnCourse(s) && s.healthy && Placed(s, at) && !BreaksRewrite(OfRewrite(step))
    ensures Placed(RewriteApply(s, step), at)
  {
    RewriteSeen(s, step);
  }

  lemma SwapPlaced<Db>(s: State<Db>, step: SwapStep, at: nat)
    requires SwapEnabled(s, step) && OnCourse(s) && Placed(s, at) && step.ok
    ensures Placed(SwapApply(s, step), at)
  {
    SwapSeen(s, step);
  }

  lemma StepPlaced<Db>(e: Env<Db>, s: State<Db>, step: Step, at: nat)
    requires Enabled(e, s, step) && OnCourse(s) && s.healthy && Placed(s, at) && !StartsRewrite(step)
    requires !BreaksRewrite(step) && Apply(e, s, step).healthy
    ensures Placed(Apply(e, s, step), at)
  {
    match step {
      case OfMain(m) => MainPlaced(e, s, m, at);
      case OfAlways(a) => AlwaysPlaced(e, s, a, at);
      case OfWorker(w) =>
      case OfRewrite(r) => RewritePlaced(s, r, at);
      case OfSwap(x) => SwapPlaced(s, x, at);
    }
  }

  lemma StartPlaced<Db>(e: Env<Db>, s: State<Db>, step: MainStep)
    requires MainEnabled(e, s, step) && step.StartRewrite?
    ensures Placed(MainApply(e, s, step), |s.hist|)
  {
  }

  lemma StartedBefore(steps: seq<Step>)
    requires Started(steps) && !StartsRewrite(steps[|steps| - 1])
    ensures Started(steps[..|steps| - 1])
  {
    var i :| 0 <= i < |steps| && StartsRewrite(steps[i]);
    assert StartsRewrite(steps[..|steps| - 1][i]);
  }

  lemma HealthyBefore<Db>(e: Env<Db>, start: State<Db>, steps: seq<Step>)
    requires Init(e, start) && After(e, start, steps).Some? && Undisturbed(steps) && AppendsFit(e, steps)
    requires steps != [] && After(e, start, steps[..|steps| - 1]).Some?
    ensures After(e, start, steps).value.healthy && After(e, start, steps[..|steps| - 1]).value.healthy
  {
    UndisturbedLast(steps);
    HealthExact(e, start, steps);
    FitLast(e, steps);
    HealthExact(e, start, steps[..|steps| - 1]);
  }

  lemma {:induction false} RunPlaced<Db>(e: Env<Db>, start: State<Db>, steps: seq<Step>)
    requires Init(e, start) && After(e, start, steps).Some? && Undisturbed(steps) && AppendsFit(e, steps)
    requires Started(steps)
    ensures Placed(After(e, start, steps).value, SnapshotAt(steps))
    decreases |steps|
  {
    var front, last := steps[..|steps| - 1], steps[|steps| - 1];
    var s := BackOne(e, start, steps);
    if StartsRewrite(last) {
      HistoryOfRun(e, start, front);
      StartPlaced(e, s, last.m);
    } else {
      HealthyBefore(e, start, steps);
      UndisturbedLast(steps);
      FitLast(e, steps);
      StartedBefore(steps);
      RunPlaced(e, start, front);
      RewriteFailsExact(e, start, front);
      StepPlaced(e, s, last, SnapshotAt(front));
    }
  }

  /**
   * In an undisturbed run whose appends fit both queues, every rewrite that has ended has been swapped in: the
   * current file stands on the snapshot taken when the latest one started.
   */
  lemma RewriteSucceeds<Db>(e: Env<Db>, start: State<Db>, steps: seq<Step>)
    requires Init(e, start) && After(e, start, steps).Some? && Undisturbed(steps) && AppendsFit(e, steps)
    requires Started(steps) && !Underway(steps) && !Overrun(e, steps)
    ensures var t := After(e, start, steps).value;
      !t.rewriting && !t.rewriteFailed && t.cur.from == SnapshotAt(steps)
  {
    RunPlaced(e, start, steps);
    RewriteFailsExact(e, start, steps);
  }

  // ----- every append is replayed -----

  /**
   * A run in which no system call on the file fails and every append fits the queue ends healthy, and the
   * file with what is on its way to it replays to the effect of all commands handed over, as long as they
   * are within the limits of replay and the rewrites were right.
   */
  lemma AppendsReplayed<Db>(e: Env<Db>, start: State<Db>, steps: seq<Step>)
    requires Sound(e.m) && Init(e, start) && After(e, start, steps).Some?
    requires NoneBreaks(steps) && AppendsFit(e, steps)
    requires NeverDrops(e, start, steps) && NeverForgets(e, start, steps)
    ensures After(e, start, steps).value.healthy && Run(e.m, e.start, Appended(steps)).Some?
    ensures var t := After(e, start, steps).value;
      var all := t.cur.file.data + InFlight(t.main, t.worker) + Flatten(t.pending);
      && t.cur.from <= |Appended(steps)|
      && Recover(e.m, e.empty, all) == if AllFit(e.m, Appended(steps)[t.cur.from..])
        then Some(Recovered(Run(e.m, e.start, Appended(steps)).value, |all|)) else None
  {
    HealthExact(e, start, steps);
    HistoryOfRun(e, start, steps);
    ReachableInv(e, start, steps);
    InitInv(e, start);
    RunStaysClean(e, start, steps);
    LiveReplay(e, After(e, start, steps).value);
  }
}
