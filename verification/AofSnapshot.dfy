/**
 * The append-only file of the server's own requests: its snapshots are those the rewrite counts on, and what
 * oversized commands do.
 */
module AofSnapshot {
  import opened Bytes
  import opened Decimal
  import opened Resp
  import opened Replay
  import opened Keyspace
  import opened Snapshot
  import opened SnapshotBuild
  import opened AofProtocol
  import opened AofInvariant
  import opened AofRuns
  import opened AofLoss

  // ----- the snapshot of a rewrite -----

  /** The append-only file with the server's wire format, opened on a database. */
  function Server(exec: (Db, Command) -> Option<Db>, limits: Limits, start: Db, config: Config): Env<Db> {
    Env(RespMachine(exec, limits.maxReplayCommandBytes), map[], start, config)
  }

  /**
   * The blocks the emitter makes of the database's records are what `StartRewrite` of the protocol asks for,
   * that they replay to the database, exactly when the database holds no empty collection.
   */
  method SnapshotForRewrite(limits: Limits, records: seq<Record>, ghost exec: (Db, Command) -> Option<Db>,
                            ghost e: Env<Db>, ghost hist: seq<Command>)
    returns (blocks: Option<seq<bytes>>)
    requires limits.maxReplayCommandBytes <= SIZE_MAX && Extends(exec) && e == Server(exec, limits, e.start, e.config)
    requires Distinct(records) && forall i :: 0 <= i < |records| ==> RecordOk(records[i])
    requires Database(e, hist) == Some(Walked(records))
    ensures blocks.Some? ==> (Snapshots(e, hist, blocks.value) <==> NoneEmpty(records))
    ensures AllHaveRoom(limits, records) && AllFitIn(limits, records) ==> blocks.Some?
  {
    ghost var parts;
    blocks, parts := SnapshotBuild.TakeSnapshot(limits, records, exec);
    SnapshotExact(records);
  }

  // ----- a set that was emptied -----

  const SREM: bytes := [83, 82, 69, 77]

  /** The commands of a snapshot, and `SREM`, which leaves an emptied set in place. */
  function WithSrem(db: Db, c: Command): Option<Db> {
    if c.name != SREM then Exec(db, c)
    else if |c.args| < 2 then None
    else if c.args[0] !in db then Some(db)
    else if !db[c.args[0]].value.Members? then None
    else
      Some(db[c.args[0] := Entry(Members(db[c.args[0]].value.members - SetOf(c.args[1..])), db[c.args[0]].expire)])
  }

  function SetOf(s: seq<bytes>): set<bytes> {
    set m | m in s
  }

  lemma WithSremExtends()
    ensures Extends(WithSrem)
  {
    forall db: Db, c: Command ensures Agrees(WithSrem, db, c) {
    }
  }

  lemma SremTakesAll(key: bytes, member: bytes)
    ensures WithSrem(map[key := Entry(Members({member}), None)], Command(SREM, [key, member]))
      == Some(map[key := Entry(Members({}), None)])
  {
    var was, now := map[key := Entry(Members({member}), None)], map[key := Entry(Members({}), None)];
    assert [key, member][1..] == [member] && {member} - SetOf([member]) == {};
    assert was[key := Entry(Members({}), None)] == now;
  }

  lemma SaddFirst(key: bytes, member: bytes)
    ensures
      WithSrem(map[], Command(Name(Add(SAdd)), [key] + [member])) == Some(map[key := Entry(Members({member}), None)])
  {
    ExecAdd(map[], SAdd, key, [member]);
    assert [member][1..] == [] && {} + {member} == {member};
    assert Name(Add(SAdd))[1] != SREM[1];
  }

  /** A member is added to a set and removed again. */
  function Emptied(key: bytes, member: bytes): seq<Command> {
    [Command(Name(Add(SAdd)), [key] + [member]), Command(SREM, [key, member])]
  }

  /** The one record then walked. */
  function EmptySet(key: bytes): seq<Record> {
    [Record(key, SetWalk([]), None)]
  }

  lemma EmptiedRun(m: Machine<Db>, key: bytes, member: bytes)
    requires m.exec == WithSrem
    ensures Run(m, map[], Emptied(key, member)) == Some(map[key := Entry(Members({}), None)])
  {
    var cs := Emptied(key, member);
    SaddFirst(key, member);
    SremTakesAll(key, member);
    assert cs[1..][1..] == [] && cs[1..][0] == cs[1];
    assert Run(m, map[key := Entry(Members({member}), None)], cs[1..]) == Some(map[key := Entry(Members({}), None)]);
  }

  lemma EmptySetWalked(key: bytes)
    ensures Walked(EmptySet(key)) == map[key := Entry(Members({}), None)] && !NoneEmpty(EmptySet(key))
  {
    var records := EmptySet(key);
    assert records[..0] == [] && EmptyCollection(records[0].content);
    assert EntryOf(records[0]).value.members == {};
  }

  /** For every key short enough, a rewrite of such a database is accepted, and its snapshot does not replay to it. */
  method EmptiedSetIsLost(limits: Limits, key: bytes, member: bytes, ghost e: Env<Db>)
      returns (blocks: Option<seq<bytes>>)
    requires limits.maxReplayCommandBytes <= SIZE_MAX && e == Server(WithSrem, limits, map[], e.config)
    requires AllHaveRoom(limits, EmptySet(key))
    ensures blocks.Some? && Database(e, Emptied(key, member)).Some? && !Snapshots(e, Emptied(key, member), blocks.value)
  {
    WithSremExtends();
    EmptiedRun(e.m, key, member);
    EmptySetWalked(key);
    blocks := SnapshotForRewrite(limits, EmptySet(key), WithSrem, e, Emptied(key, member));
  }

  // ----- commands over the limits of replay -----

  lemma TextIsNotEmpty<Db>(m: Machine<Db>, c: Command)
    requires Sound(m) && Loggable(m, c)
    ensures m.encode(c) != []
  {
  }

  lemma OneRecord<Db>(m: Machine<Db>, c: Command)
    ensures EncodeAll(m, [c]) == m.encode(c)
  {
    assert EncodeAll(m, [c][1..]) == [];
  }

  /** What stays as it is while a record is appended, and what the append leaves behind. */
  predicate Appended<Db>(s: State<Db>, t: State<Db>, c: Command) {
    && t.hist == s.hist + [c] && t.healthy && t.truncated == s.truncated && t.cur.from == s.cur.from
    && t.worker == s.worker && t.pending == s.pending && t.stopping == s.stopping && t.writing == s.writing
    && t.syncing == s.syncing && t.rewriting == s.rewriting && t.rewriter == s.rewriter
  }

  lemma WriteRecord<Db>(e: Env<Db>, s: State<Db>, c: Command, rest: seq<Step>) returns (t: State<Db>)
    requires Quiet(s) && e.config.always && Admissible(e, s.hist + [c]) && e.m.encode(c) != []
    ensures Appended(s, t, c) && t.main == Writing([])
    ensures After(e, s, [OfAlways(AppendAlways([c]))] + ([OfAlways(AlwaysWrite(|e.m.encode(c)|))] + rest)) == After(e,
      t, rest)
  {
    var record := e.m.encode(c);
    OneRecord(e.m, c);
    var a := DoAppendAlways(e, s, [c]);
    AfterOne(e, s, OfAlways(AppendAlways([c])), [OfAlways(AlwaysWrite(|record|))] + rest);
    assert record[|record|..] == [];
    t := a.(cur := Write(a.cur, record[..|record|]), main := Writing([]));
    AfterOne(e, a, OfAlways(AlwaysWrite(|record|)), rest);
  }

  lemma SyncRecord<Db>(e: Env<Db>, s: State<Db>) returns (t: State<Db>)
    requires s.main == Writing([])
    ensures t == s.(cur := Sync(s.cur), acked := |s.hist|, main := Idle)
    ensures After(e, s, [OfAlways(AlwaysWritten)] + ([OfAlways(AlwaysSync(true))] + [])) == Some(t)
  {
    AfterOne(e, s, OfAlways(AlwaysWritten), [OfAlways(AlwaysSync(true))] + []);
    var a := s.(main := Syncing);
    AfterOne(e, a, OfAlways(AlwaysSync(true)), []);
    t := s.(cur := Sync(s.cur), acked := |s.hist|, main := Idle);
  }

  /** An append under kAlways that meets no error is acknowledged. */
  lemma WriteAll<Db>(e: Env<Db>, s: State<Db>, c: Command) returns (steps: seq<Step>)
    requires Quiet(s) && e.config.always && Admissible(e, s.hist + [c]) && e.m.encode(c) != []
    ensures After(e, s, steps).Some?
    ensures var t := After(e, s, steps).value; Appended(s, t, c) && t.acked == |t.hist| && Quiet(t)
  {
    var sync := [OfAlways(AlwaysWritten)] + ([OfAlways(AlwaysSync(true))] + []);
    steps := [OfAlways(AppendAlways([c]))] + ([OfAlways(AlwaysWrite(|e.m.encode(c)|))] + sync);
    var a := WriteRecord(e, s, c, sync);
    var t := SyncRecord(e, a);
  }

  /**
   * From every quiet state, appending a command over the limits of replay is acknowledged under kAlways,
   * and leaves a file that replay refuses as a whole.
   */
  lemma OversizedIsFatal<Db>(e: Env<Db>, s: State<Db>, c: Command) returns (steps: seq<Step>)
    requires Inv(e, s) && !s.truncated && Quiet(s) && e.config.always && Admissible(e, s.hist + [c]) && !Fits(e.m, c)
    ensures After(e, s, steps).Some?
    ensures var t := After(e, s, steps).value;
      t.hist == s.hist + [c] && t.acked == |t.hist| && t.healthy && Recover(e.m, e.empty, t.cur.file.data) == None
  {
    var hist := s.hist + [c];
    assert hist[|s.hist|] == c && Loggable(e.m, hist[|s.hist|]);
    TextIsNotEmpty(e.m, c);
    steps := WriteAll(e, s, c);
    var t := After(e, s, steps).value;
    RunKeeps(e, s, steps);
    LiveReplay(e, t);
    var tail := t.hist[t.cur.from..];
    assert tail[|tail| - 1] == c;
    assert t.cur.file.data + [] + Flatten([]) == t.cur.file.data;
  }

  // ----- one such command -----

  lemma LongerThanItsValue(name: bytes, key: bytes, value: bytes)
    ensures |Encode(Command(name, [key, value]))| > |value|
  {
    assert Elements(Command(name, [key, value])) == [name, key] + [value];
    BulkStringsConcat([name, key], [value]);
    OneBulk(value);
  }

  /** The append-only file just opened on an empty file. */
  function Opened<Db>(e: Env<Db>): State<Db> {
    var log := Log(File([], 0), [], 0, e.start);
    State(log, None, log, [], [], [], false, false, false, false, true, false, false, false, Idle, WorkerIdle,
      NoRewriter, [], 0, [], false, false)
  }

  /** A `SET` of a value as long as the largest command replay accepts. */
  function LargeSet(limits: Limits): Command {
    Command(Name(Set), [[107], seq(limits.maxReplayCommandBytes, i => 65)])
  }

  lemma LargeSetIsLogged(limits: Limits, e: Env<Db>)
    requires e == Server(Exec, limits, map[], e.config) && limits.maxReplayCommandBytes <= SIZE_MAX - 100
    ensures Admissible(e, [] + [LargeSet(limits)]) && !Fits(e.m, LargeSet(limits))
  {
    var c, value := LargeSet(limits), LargeSet(limits).args[1];
    PairSize(Name(Set), [107], value);
    LongerThanItsValue(Name(Set), [107], value);
    DigitCountBound(1);
    RespLoggable(Exec, limits.maxReplayCommandBytes, c);
    ExecSet(map[], [107], value);
    assert [] + [c] == [c] && Run(e.m, e.start, [c]) == Exec(map[], c) by {
      assert [c][1..] == [];
    }
  }

  /** A single `SET`, acknowledged under kAlways, after which the server cannot load its file. */
  lemma LargeSetIsFatal(limits: Limits, e: Env<Db>) returns (steps: seq<Step>)
    requires e == Server(Exec, limits, map[], e.config) && limits.maxReplayCommandBytes <= SIZE_MAX - 100
      && e.config.always
    ensures Init(e, Opened(e)) && After(e, Opened(e), steps).Some?
    ensures var t := After(e, Opened(e), steps).value;
      t.hist == [LargeSet(limits)] && t.acked == 1 && t.healthy && Recover(e.m, e.empty, t.cur.file.data) == None
  {
    RespSound(Exec, limits.maxReplayCommandBytes);
    InitInv(e, Opened(e));
    LargeSetIsLogged(limits, e);
    steps := OversizedIsFatal(e, Opened(e), LargeSet(limits));
  }

  // ----- a rewrite that forgets a key -----

  lemma PairIsLogged(limits: Limits, name: bytes, key: bytes, member: bytes)
    requires |name| <= 6 && |key| + |member| <= SIZE_MAX - 200
    ensures Encode(Command(name, [key, member])) != []
    ensures Loggable(RespMachine(WithSrem, limits.maxReplayCommandBytes), Command(name, [key, member]))
  {
    ShortEnough(name, key, member);
    RespLoggable(WithSrem, limits.maxReplayCommandBytes, Command(name, [key, member]));
  }

  lemma TwoAdmissible<Db>(e: Env<Db>, cs: seq<Command>)
    requires |cs| == 2 && Database(e, cs).Some? && Loggable(e.m, cs[0]) && Loggable(e.m, cs[1])
    ensures Admissible(e, cs) && Admissible(e, [cs[0]])
  {
    RunTake(e.m, e.start, cs, 1);
    assert cs[..1] == [cs[0]];
  }

  lemma EmptiedIsLogged(limits: Limits, key: bytes, member: bytes, m: Machine<Db>)
    requires |key| + |member| <= SIZE_MAX - 200 && m == RespMachine(WithSrem, limits.maxReplayCommandBytes)
    ensures Loggable(m, Emptied(key, member)[0]) && m.encode(Emptied(key, member)[0]) != []
    ensures Loggable(m, Emptied(key, member)[1]) && m.encode(Emptied(key, member)[1]) != []
  {
    assert [key] + [member] == [key, member];
    PairIsLogged(limits, Name(Add(SAdd)), key, member);
    PairIsLogged(limits, SREM, key, member);
  }

  lemma ShortEnough(name: bytes, key: bytes, member: bytes)
    requires |name| <= 6 && |key| + |member| <= SIZE_MAX - 200
    ensures 0 < |Encode(Command(name, [key, member]))| <= SIZE_MAX
  {
    PairSize(name, key, member);
    DigitCountBound(|key|);
  }

  /**
   * From an empty file: a member is added to a set and removed again, both acknowledged, and the file is
   * rewritten. The key of the emptied set is in the database, and not in the one the file replays to.
   */
  lemma EmptiedSetForgotten(limits: Limits, e: Env<Db>, key: bytes, member: bytes)
      returns (steps: seq<Step>, t: State<Db>)
    requires e == Server(WithSrem, limits, map[], e.config) && e.config.always && |key| + |member| <= SIZE_MAX - 200
    ensures Init(e, Opened(e)) && After(e, Opened(e), steps) == Some(t) && t.healthy && t.replaced.None?
    ensures t.hist == Emptied(key, member) && Database(e, t.hist) == Some(map[key := Entry(Members({}), None)])
    ensures Recover(e.m, e.empty, t.cur.file.data) == Some(Recovered(map[], 0))
  {
    var cs := Emptied(key, member);
    EmptiedIsLogged(limits, key, member, e.m);
    EmptiedRun(e.m, key, member);
    TwoAdmissible(e, cs);
    RespSound(WithSrem, limits.maxReplayCommandBytes);
    var appends, a := TwoAppends(e, Opened(e), cs);
    var rewrite;
    rewrite, t := RewriteOfNothing(e, a);
    Then(e, Opened(e), appends, a, rewrite, t);
    steps := appends + rewrite;
  }

  lemma TwoAppends<Db>(e: Env<Db>, s: State<Db>, cs: seq<Command>) returns (steps: seq<Step>, t: State<Db>)
    requires Quiet(s) && e.config.always && s.hist == [] && |cs| == 2 && Admissible(e, cs) && Admissible(e, [cs[0]])
    requires e.m.encode(cs[0]) != [] && e.m.encode(cs[1]) != []
    ensures After(e, s, steps) == Some(t) && Quiet(t) && t.hist == cs
  {
    assert [] + [cs[0]] == [cs[0]] && [cs[0]] + [cs[1]] == cs;
    var one := WriteAll(e, s, cs[0]);
    var a := After(e, s, one).value;
    var two := WriteAll(e, a, cs[1]);
    t := After(e, a, two).value;
    Then(e, s, one, a, two, t);
    steps := one + two;
  }
}
