/** Building a snapshot of the database: lines 105 to 125 and 252 to 450 of server/aof.cpp. */
module Snapshot {
  import opened Bytes
  import opened Decimal
  import opened Resp
  import opened Replay
  import opened Keyspace

  const BATCH_SIZE: nat := 64

  datatype Limits = Limits(maxReplayCommandBytes: nat, snapshotBlockBytes: nat)

  // ----- size predictors -----

  /** The digit loop of the size predictors. */
  method CountDigits(n: nat) returns (digits: nat)
    ensures digits == |Digits(n)|
  {
    digits := 1;
    var size := n;
    while size >= 10
      invariant size >= 0 && digits + |Digits(size)| - 1 == |Digits(n)|
    {
      size := size / 10;
      digits := digits + 1;
    }
  }

  method RespBulkSize(value: bytes) returns (size: nat)
    ensures size == |BulkString(value)|
  {
    var digits := CountDigits(|value|);
    size := |value| + digits + 5;
  }

  method RespArrayHeaderSize(elements: nat) returns (size: nat)
    ensures size == |ArrayHeader(elements)|
  {
    var digits := CountDigits(elements);
    size := digits + 3;
  }

  lemma {:induction false} BulkStringsConcat(a: seq<bytes>, b: seq<bytes>)
    ensures BulkStrings(a + b) == BulkStrings(a) + BulkStrings(b)
  {
    if a == [] {
      assert a + b == b;
    } else {
      assert (a + b)[0] == a[0] && (a + b)[1..] == a[1..] + b;
      BulkStringsConcat(a[1..], b);
    }
  }

  // ----- where blocks go -----

  /** The bytes of several commands in a row. */
  function EncodeCommands(cs: seq<Command>): bytes {
    if cs == [] then [] else Encode(cs[0]) + EncodeCommands(cs[1..])
  }

  lemma {:induction false} EncodeOneMore(cs: seq<Command>, c: Command)
    ensures EncodeCommands(cs + [c]) == EncodeCommands(cs) + Encode(c)
  {
    if cs == [] {
      assert [c][1..] == [] && cs + [c] == [c];
    } else {
      assert (cs + [c])[0] == cs[0] && (cs + [c])[1..] == cs[1..] + [c];
      EncodeOneMore(cs[1..], c);
    }
  }

  /** A command replay accepts under the given limits. */
  predicate Replayable(limits: Limits, c: Command) {
    Parsable(c) && |Encode(c)| <= limits.maxReplayCommandBytes
  }

  predicate AllReplayable(limits: Limits, cs: seq<Command>) {
    forall i :: 0 <= i < |cs| ==> Replayable(limits, cs[i])
  }

  /** The receiver of snapshot blocks, with the commands the blocks make up so far. */
  class Sink {
    var blocks: seq<bytes>
    ghost var commands: seq<Command>
    const limits: Limits

    ghost predicate Valid()
      reads this
    {
      Flatten(blocks) == EncodeCommands(commands) && AllReplayable(limits, commands)
    }

    constructor (limits: Limits)
      ensures Valid() && blocks == [] && commands == [] && this.limits == limits
    {
      this.limits := limits;
      blocks, commands := [], [];
    }

    /** Takes the blocks of one whole command. */
    method Put(parts: seq<bytes>, ghost c: Command)
      requires Valid() && Flatten(parts) == Encode(c) && Replayable(limits, c)
      modifies this
      ensures Valid() && commands == old(commands) + [c]
    {
      FlattenConcat(blocks, parts);
      EncodeOneMore(commands, c);
      blocks := blocks + parts;
      commands := commands + [c];
    }
  }

  // ----- strings -----

  /** A short command in one block; refused when replay would refuse it. */
  method EmitFixedCommand(sink: Sink, c: Command) returns (ok: bool)
    requires sink.Valid() && |c.args| < MAX_COMMAND_ELEMENTS && sink.limits.maxReplayCommandBytes <= SIZE_MAX
    modifies sink
    ensures sink.Valid() && ok == (|Encode(c)| <= sink.limits.maxReplayCommandBytes)
    ensures sink.commands == if ok then old(sink.commands) + [c] else old(sink.commands)
  {
    var record := AppendCommand(c.name, c.args, []);
    assert [] + Encode(c) == Encode(c);
    ok := |record| <= sink.limits.maxReplayCommandBytes;
    if ok {
      FlattenOne(record);
      sink.Put([record], c);
    }
  }

  /** Bytes reserved in every chunk for the command around it. */
  function Overhead(key: bytes): nat {
    |BulkString(Name(Append))| + |BulkString(key)| + 64
  }

  function ChunkSize(limits: Limits, overhead: nat): (size: nat)
    requires overhead < limits.maxReplayCommandBytes
    ensures 0 < size <= limits.maxReplayCommandBytes - overhead
  {
    var target := Min(limits.snapshotBlockBytes, limits.maxReplayCommandBytes);
    Max(1, if target > overhead then target - overhead else limits.maxReplayCommandBytes - overhead)
  }

  lemma PairSize(name: bytes, key: bytes, value: bytes)
    requires |name| <= 6 && |value| <= SIZE_MAX
    ensures |Encode(Command(name, [key, value]))| <= 41 + |BulkString(key)| + |value|
  {
    assert Elements(Command(name, [key, value])) == [name] + ([key] + [value]);
    BulkStringsConcat([name], [key] + [value]);
    BulkStringsConcat([key], [value]);
    OneBulk(name);
    OneBulk(key);
    OneBulk(value);
    DigitCountBound(|value|);
    assert |Digits(|name|)| == 1 && |Digits(3)| == 1;
  }

  lemma OneBulk(v: bytes)
    ensures BulkStrings([v]) == BulkString(v)
  {
    assert [v][1..] == [];
  }

  /** A chunk of the chosen size always fits into a replayable command. */
  lemma ChunkFits(limits: Limits, name: bytes, key: bytes, value: bytes)
    requires |name| <= 6 && Overhead(key) < limits.maxReplayCommandBytes <= SIZE_MAX
    requires |value| <= ChunkSize(limits, Overhead(key))
    ensures |Encode(Command(name, [key, value]))| <= limits.maxReplayCommandBytes
  {
    PairSize(name, key, value);
  }

  function Chunks(key: bytes, value: bytes, offset: nat, size: nat): seq<Command>
    requires offset <= |value| && size > 0
    decreases |value| - offset
  {
    if offset == |value| then []
    else
      var end := Min(offset + size, |value|);
      [Command(Name(Append), [key, value[offset..end]])] + Chunks(key, value, end, size)
  }

  /** One SET, or an empty SET and the value in chunks. */
  function StringCommands(key: bytes, value: bytes, size: nat): seq<Command>
    requires size > 0
  {
    if |value| <= size then [Command(Name(Set), [key, value])]
    else [Command(Name(Set), [key, []])] + Chunks(key, value, 0, size)
  }

  lemma {:induction false} ChunkCount(key: bytes, value: bytes, offset: nat, size: nat)
    requires offset <= |value| && size > 0
    ensures var n := |Chunks(key, value, offset, size)|;
      (offset < |value| ==> n > 0) && (n > 0 ==> (n - 1) * size < |value| - offset) && |value| - offset <= n * size
    decreases |value| - offset
  {
    if offset < |value| {
      var end := Min(offset + size, |value|);
      ChunkCount(key, value, end, size);
      var rest := |Chunks(key, value, end, size)|;
      assert (rest + 1) * size == rest * size + size && (end < |value| ==> rest * size == (rest - 1) * size + size);
    }
  }

  lemma StringCount(key: bytes, value: bytes, size: nat)
    requires size > 0
    ensures var n := |StringCommands(key, value, size)|;
      (n == 1 <==> |value| <= size) && (n > 1 ==> (n - 2) * size < |value| <= (n - 1) * size)
  {
    ChunkCount(key, value, 0, size);
  }

  lemma OverheadIs(key: bytes)
    ensures Overhead(key) == |key| + |Digits(|key|)| + 81
  {
    assert |Digits(6)| == 1;
  }

  /** How much of a value fits beside its key: into a block, or else into a command replay accepts. */
  function BesideKey(limits: Limits, key: bytes): int {
    var target, around := Min(limits.snapshotBlockBytes, limits.maxReplayCommandBytes), |key| + |Digits(|key|)| + 81;
    (if around < target then target else limits.maxReplayCommandBytes) - around
  }

  /**
   * No more commands than a string needs: one if it fits beside its key, and otherwise a first one and as many
   * as hold it when all but the last are full.
   */
  lemma FewCommands(limits: Limits, key: bytes, value: bytes)
    requires Overhead(key) < limits.maxReplayCommandBytes
    ensures var n, room := |StringCommands(key, value, ChunkSize(limits, Overhead(key)))|, BesideKey(limits, key);
      (n == 1 <==> |value| <= room) && (n > 1 ==> (n - 2) * room < |value| <= (n - 1) * room)
  {
    OverheadIs(key);
    StringCount(key, value, BesideKey(limits, key));
  }

  lemma Snoc(before: seq<Command>, c: Command, after: seq<Command>)
    ensures (before + [c]) + after == before + ([c] + after)
  {
  }

  /** One command of a string; its size is never the problem. */
  method EmitChunk(sink: Sink, verb: Verb, key: bytes, value: bytes)
    requires sink.Valid() && Overhead(key) < sink.limits.maxReplayCommandBytes <= SIZE_MAX
    requires |value| <= ChunkSize(sink.limits, Overhead(key)) && (verb == Set || verb == Append)
    modifies sink
    ensures sink.Valid() && sink.commands == old(sink.commands) + [Command(Name(verb), [key, value])]
  {
    ChunkFits(sink.limits, Name(verb), key, value);
    var ok := EmitFixedCommand(sink, Command(Name(verb), [key, value]));
  }

  method EmitChunks(sink: Sink, key: bytes, value: bytes, size: nat)
    requires sink.Valid() && Overhead(key) < sink.limits.maxReplayCommandBytes <= SIZE_MAX
    requires size == ChunkSize(sink.limits, Overhead(key))
    modifies sink
    ensures sink.Valid() && sink.commands == old(sink.commands) + Chunks(key, value, 0, size)
  {
    var offset := 0;
    ghost var goal := sink.commands + Chunks(key, value, 0, size);
    while offset < |value|
      invariant offset <= |value| && sink.Valid()
      invariant sink.commands + Chunks(key, value, offset, size) == goal
    {
      var end := offset + Min(size, |value| - offset);
      Snoc(sink.commands, Command(Name(Append), [key, value[offset..end]]), Chunks(key, value, end, size));
      EmitChunk(sink, Append, key, value[offset..end]);
      offset := end;
    }
  }

  method EmitValue(sink: Sink, key: bytes, value: bytes, size: nat)
    requires sink.Valid() && Overhead(key) < sink.limits.maxReplayCommandBytes <= SIZE_MAX
    requires size == ChunkSize(sink.limits, Overhead(key))
    modifies sink
    ensures sink.Valid() && sink.commands == old(sink.commands) + StringCommands(key, value, size)
  {
    if |value| <= size {
      EmitChunk(sink, Set, key, value);
    } else {
      EmitChunk(sink, Set, key, []);
      Snoc(old(sink.commands), Command(Name(Set), [key, []]), Chunks(key, value, 0, size));
      EmitChunks(sink, key, value, size);
    }
  }

  /**
   * Emits a string value. It is refused only when the key alone leaves no room; every chunk then passes
   * its own size check.
   */
  method EmitString(sink: Sink, key: bytes, value: bytes) returns (ok: bool)
    requires sink.Valid() && sink.limits.maxReplayCommandBytes <= SIZE_MAX
    modifies sink
    ensures sink.Valid() && ok == (Overhead(key) < sink.limits.maxReplayCommandBytes)
    ensures ok ==> sink.commands == old(sink.commands) + StringCommands(key, value,
      ChunkSize(sink.limits, Overhead(key)))
    ensures !ok ==> sink.commands == old(sink.commands)
  {
    var command := RespBulkSize(Name(Append));
    var name := RespBulkSize(key);
    var overhead := command + name + 64;
    if overhead >= sink.limits.maxReplayCommandBytes {
      return false;
    }
    EmitValue(sink, key, value, ChunkSize(sink.limits, overhead));
    ok := true;
  }

  // ----- what the commands do -----

  function RunCommands(db: Db, cs: seq<Command>): Option<Db>
    decreases |cs|
  {
    if cs == [] then Some(db)
    else
      match Exec(db, cs[0])
      case None => None
      case Some(next) => RunCommands(next, cs[1..])
  }

  lemma {:induction false} RunSnoc(db: Db, cs: seq<Command>, c: Command)
    ensures RunCommands(db, cs + [c]) == if RunCommands(db, cs).None? then None else Exec(RunCommands(db, cs).value, c)
    decreases |cs|
  {
    if cs == [] {
      assert cs + [c] == [c] && [c][1..] == [];
    } else {
      assert (cs + [c])[0] == cs[0] && (cs + [c])[1..] == cs[1..] + [c];
      if Exec(db, cs[0]).Some? {
        RunSnoc(Exec(db, cs[0]).value, cs[1..], c);
      }
    }
  }

  lemma {:induction false} RunChunks(db: Db, key: bytes, value: bytes, offset: nat, size: nat)
    requires offset <= |value| && size > 0 && key in db && db[key] == Entry(Str(value[..offset]), None)
    ensures RunCommands(db, Chunks(key, value, offset, size)) == Some(db[key := Entry(Str(value), None)])
    decreases |value| - offset
  {
    if offset == |value| {
      assert value[..offset] == value;
      assert db[key := db[key]] == db;
    } else {
      var end := Min(offset + size, |value|);
      ExecAppend(db, key, value[offset..end]);
      assert value[..offset] + value[offset..end] == value[..end];
      var next := db[key := Entry(Str(value[..end]), None)];
      RunChunks(next, key, value, end, size);
      assert next[key := Entry(Str(value), None)] == db[key := Entry(Str(value), None)];
      ConsRun(db, Command(Name(Append), [key, value[offset..end]]), Chunks(key, value, end, size));
    }
  }

  lemma ConsRun(db: Db, c: Command, cs: seq<Command>)
    requires Exec(db, c).Some?
    ensures RunCommands(db, [c] + cs) == RunCommands(Exec(db, c).value, cs)
  {
    assert ([c] + cs)[1..] == cs;
  }

  /** The chunks of a string put it together again, whatever the key held before. */
  lemma RunString(db: Db, key: bytes, value: bytes, size: nat)
    requires size > 0
    ensures RunCommands(db, StringCommands(key, value, size)) == Some(db[key := Entry(Str(value), None)])
  {
    if |value| <= size {
      ExecSet(db, key, value);
      ConsRun(db, Command(Name(Set), [key, value]), []);
      assert [Command(Name(Set), [key, value])] + [] == StringCommands(key, value, size);
    } else {
      ExecSet(db, key, []);
      var next := db[key := Entry(Str([]), None)];
      assert value[..0] == [];
      RunChunks(next, key, value, 0, size);
      ConsRun(db, Command(Name(Set), [key, []]), Chunks(key, value, 0, size));
      assert next[key := Entry(Str(value), None)] == db[key := Entry(Str(value), None)];
    }
  }
}
