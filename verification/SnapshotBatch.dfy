/** Collections in a snapshot: class SnapshotBatch of server/aof.cpp, lines 252 to 331. */
module SnapshotBatches {
  import opened Bytes
  import opened Decimal
  import opened Resp
  import opened Snapshot

  /** `cs` add exactly `elements` to `key`, in order, no more than a batch of items at a time. */
  ghost predicate Batches(name: bytes, key: bytes, per: nat, cs: seq<Command>, elements: seq<bytes>)
    requires per > 0
    decreases |cs|
  {
    if cs == [] then elements == []
    else
      var last := cs[|cs| - 1];
      var n := |last.args| - 1;
      && last.name == name && 0 < n <= BATCH_SIZE * per && n % per == 0 && last.args[0] == key
      && n <= |elements| && elements[|elements| - n..] == last.args[1..]
      && Batches(name, key, per, cs[..|cs| - 1], elements[..|elements| - n])
  }

  lemma BatchesSnoc(name: bytes, key: bytes, per: nat, cs: seq<Command>, elements: seq<bytes>, items: seq<bytes>)
    requires per > 0 && Batches(name, key, per, cs, elements)
    requires 0 < |items| <= BATCH_SIZE * per && |items| % per == 0
    ensures Batches(name, key, per, cs + [Command(name, [key] + items)], elements + items)
  {
    var c := Command(name, [key] + items);
    assert (cs + [c])[..|cs|] == cs && c.args[1..] == items;
    assert (elements + items)[|elements|..] == items && (elements + items)[..|elements|] == elements;
  }

  /** The bytes before the items of a batch. */
  function Header(command: bytes, key: bytes, elements: nat): bytes {
    ArrayHeader(2 + elements) + BulkString(command) + BulkString(key)
  }

  lemma Reassociate4(a: bytes, b: bytes, c: bytes, d: bytes)
    ensures a + (b + (c + d)) == (a + b + c) + d
  {
  }

  lemma BatchEncoding(command: bytes, key: bytes, items: seq<bytes>)
    ensures Encode(Command(command, [key] + items)) == Header(command, key, |items|) + BulkStrings(items)
  {
    assert Elements(Command(command, [key] + items)) == [command] + ([key] + items);
    BulkStringsConcat([command], [key] + items);
    BulkStringsConcat([key], items);
    OneBulk(command);
    OneBulk(key);
    Reassociate4(ArrayHeader(2 + |items|), BulkString(command), BulkString(key), BulkStrings(items));
  }

  lemma HeaderSize(command: bytes, key: bytes, elements: nat)
    requires elements <= 128
    ensures |Header(command, key, elements)| <= 6 + |BulkString(command)| + |BulkString(key)|
  {
    var n := 2 + elements;
    if n >= 10 {
      assert Digits(n) == Digits(n / 10) + [ZERO + n % 10];
      if n / 10 >= 10 {
        assert Digits(n / 10) == Digits(n / 100) + [ZERO + n / 10 % 10];
      }
    }
  }

  /** What a batch has emitted and what it still collects. */
  ghost predicate Collected(name: bytes, key: bytes, per: nat, max: nat, flushed: seq<Command>, done: seq<bytes>,
      pending: seq<bytes>, count: nat) {
    && (per == 1 || per == 2) && Batches(name, key, per, flushed, done) && |pending| == count * per
      && count <= BATCH_SIZE
    && (count > 0 ==> |Encode(Command(name, [key] + pending))| <= max)
  }

  lemma FlushKeeps(name: bytes, key: bytes, per: nat, max: nat, flushed: seq<Command>, done: seq<bytes>,
      pending: seq<bytes>, count: nat)
    requires count > 0 && Collected(name, key, per, max, flushed, done, pending, count)
    ensures Collected(name, key, per, max, flushed + [Command(name, [key] + pending)], done + pending, [], 0)
  {
    BatchesSnoc(name, key, per, flushed, done, pending);
  }

  // ----- no command is emitted early -----

  /** A command that could not take one more item: it has all items of a batch, or the item passes the block size. */
  predicate FullFor(block: nat, per: nat, c: Command, item: nat) {
    |c.args| == 1 + BATCH_SIZE * per || (c.args != [] && |BulkStrings(c.args[1..])| + item > block)
  }

  /** The size of the first item of a command. */
  function FirstItem(per: nat, c: Command): nat
    requires |c.args| > per
  {
    |BulkStrings(c.args[1..1 + per])|
  }

  /** Each command was full for the first item of the next. */
  ghost predicate Packed(block: nat, per: nat, cs: seq<Command>) {
    forall i :: 0 < i < |cs| ==> |cs[i].args| > per && FullFor(block, per, cs[i - 1], FirstItem(per, cs[i]))
  }

  /** The last command was full for an item of this size. */
  ghost predicate LastFull(block: nat, per: nat, cs: seq<Command>, item: nat) {
    cs != [] ==> FullFor(block, per, cs[|cs| - 1], item)
  }

  /** Commands have been emitted only when they were full for what came next, and something came next. */
  ghost predicate TightAt(block: nat, per: nat, flushed: seq<Command>, pending: seq<bytes>) {
    if pending == [] then flushed == []
    else |pending| >= per && Ready(block, per, flushed, |BulkStrings(pending[..per])|)
  }

  /** An item of this size may come next. */
  ghost predicate Ready(block: nat, per: nat, flushed: seq<Command>, item: nat) {
    Packed(block, per, flushed) && LastFull(block, per, flushed, item)
  }

  lemma PackedMore(block: nat, per: nat, cs: seq<Command>, name: bytes, key: bytes, items: seq<bytes>)
    requires items != [] && TightAt(block, per, cs, items)
    ensures Packed(block, per, cs + [Command(name, [key] + items)])
  {
    var c := Command(name, [key] + items);
    assert c.args[1..1 + per] == items[..per];
  }

  /** A full batch, once emitted, leaves room for the item it was full for. */
  lemma FlushTight(block: nat, per: nat, cs: seq<Command>, name: bytes, key: bytes, items: seq<bytes>, item: nat)
    requires items != [] && TightAt(block, per, cs, items)
    requires |items| == BATCH_SIZE * per || |BulkStrings(items)| + item > block
    ensures Ready(block, per, cs + [Command(name, [key] + items)], item)
  {
    PackedMore(block, per, cs, name, key, items);
    assert Command(name, [key] + items).args[1..] == items;
  }

  lemma CollectTight(block: nat, per: nat, cs: seq<Command>, before: seq<bytes>, elements: seq<bytes>)
    requires |elements| == per > 0
    requires if before == [] then Ready(block, per, cs, |BulkStrings(elements)|) else TightAt(block, per, cs, before)
    ensures TightAt(block, per, cs, before + elements)
  {
    assert (before + elements)[..per] == if before == [] then elements else before[..per];
  }

  class Batch {
    const command: bytes
    const key: bytes
    const per: nat
    const sink: Sink
    var body: bytes
    var itemCount: nat
    ghost const start: seq<Command>       // what the sink held before
    ghost var flushed: seq<Command>
    ghost var done: seq<bytes>            // elements in `flushed`
    ghost var pending: seq<bytes>         // elements in `body`

    ghost predicate Valid()
      reads this, sink
    {
      && sink.Valid() && sink.limits.maxReplayCommandBytes <= SIZE_MAX
      && sink.commands == start + flushed && body == BulkStrings(pending)
      && Collected(command, key, per, sink.limits.maxReplayCommandBytes, flushed, done, pending, itemCount)
    }

    ghost predicate Tight()
      reads this, sink
    {
      TightAt(sink.limits.snapshotBlockBytes, per, flushed, pending)
    }

    ghost function Added(): seq<bytes>
      reads this
    {
      done + pending
    }

    constructor (command: bytes, key: bytes, per: nat, sink: Sink)
      requires (per == 1 || per == 2) && sink.Valid() && sink.limits.maxReplayCommandBytes <= SIZE_MAX
      ensures Valid() && Added() == [] && this.sink == sink && start == sink.commands && flushed == []
      ensures this.command == command && this.key == key && this.per == per && Tight()
    {
      this.command, this.key, this.per, this.sink := command, key, per, sink;
      body, itemCount := [], 0;
      start, flushed, done, pending := sink.commands, [], [], [];
      new;
      assert sink.commands == start + [];
    }

    /** Emits the collected items as one command; after an accepted item this cannot fail. */
    method Flush() returns (ok: bool)
      requires Valid()
      modifies this, sink
      ensures ok && Valid() && itemCount == 0 && pending == [] && Added() == old(Added())
      ensures flushed == old(flushed) + if old(itemCount) == 0 then [] else [Command(command, [key] + old(pending))]
    {
      if itemCount == 0 {
        return true;
      }
      BatchEncoding(command, key, pending);
      var header := Header(command, key, itemCount * per);
      if |body| > sink.limits.maxReplayCommandBytes || |header| > sink.limits.maxReplayCommandBytes - |body| {
        return false;
      }
      ghost var c := Command(command, [key] + pending);
      FlushKeeps(command, key, per, sink.limits.maxReplayCommandBytes, flushed, done, pending, itemCount);
      TwoParts(header, body);
      sink.Put([header, body], c);
      flushed, done, pending := flushed + [c], done + pending, [];
      body, itemCount := [], 0;
      ok := true;
    }

    /** The size of the command the collected items would make. */
    method CommandSize() returns (size: nat)
      requires body == BulkStrings(pending) && |pending| == itemCount * per
      ensures size == |Encode(Command(command, [key] + pending))|
    {
      BatchEncoding(command, key, pending);
      var header := RespArrayHeaderSize(2 + itemCount * per);
      var name := RespBulkSize(command);
      var keySize := RespBulkSize(key);
      size := header + name + keySize + |body|;
    }

    /** Makes room: a full batch, or one the item would push over the block size, is emitted first. */
    method MakeRoom(itemSize: nat)
      requires Valid() && Tight()
      modifies this, sink
      ensures Valid() && Added() == old(Added()) && itemCount < BATCH_SIZE
      ensures itemCount > 0 ==> |body| + itemSize <= sink.limits.snapshotBlockBytes
      ensures if pending == [] then Ready(sink.limits.snapshotBlockBytes, per, flushed, itemSize) else Tight()
    {
      var block := sink.limits.snapshotBlockBytes;
      if itemCount > 0 && (itemCount == BATCH_SIZE || |body| > block - Min(itemSize, block)) {
        FlushTight(block, per, flushed, command, key, pending, itemSize);
        var flushed := Flush();
      } else if itemCount > 0 {
        BodyNotEmpty(pending);
      }
    }

    /** Adds the bytes of one item to the batch and checks the size of the command so far. */
    method Collect(elements: seq<bytes>, item: bytes) returns (ok: bool)
      requires Valid() && itemCount < BATCH_SIZE && item == BulkStrings(elements) && |elements| == per
      modifies this
      ensures ok == (|Encode(Command(command, [key] + (old(pending) + elements)))| <= sink.limits.maxReplayCommandBytes)
      ensures ok ==> Valid() && done == old(done) && flushed == old(flushed) && pending == old(pending) + elements
    {
      BulkStringsConcat(pending, elements);
      CollectKeeps(command, key, per, sink.limits.maxReplayCommandBytes, flushed, done, pending, itemCount, elements);
      body, itemCount := body + item, itemCount + 1;
      pending := pending + elements;
      var size := CommandSize();
      ok := size <= sink.limits.maxReplayCommandBytes;
    }

    /**
     * Adds one item. It is refused when the command it would end in is too large to replay; where the
     * block size leaves room for the command around it, that is only when the item alone is too large.
     */
    method Append(elements: seq<bytes>) returns (ok: bool)
      requires Valid() && Tight()
      modifies this, sink
      ensures sink.Valid()
      ensures ok ==> |elements| == per && Valid() && Tight() && Added() == old(Added()) + elements
      ensures ok ==> ItemFits(sink.limits, command, key, elements)
      ensures !ok && |elements| == per && RoomForBlock(sink.limits, command, key) ==>
        !ItemFits(sink.limits, command, key, elements)
    {
      if |elements| != per {
        return false;
      }
      var item := EncodeElements(elements);
      MakeRoom(|item|);
      ghost var before := pending;
      Verdict(sink.limits, command, key, per, before, itemCount, elements);
      CollectTight(sink.limits.snapshotBlockBytes, per, flushed, before, elements);
      ok := Collect(elements, item);
      assert done + (before + elements) == (done + before) + elements;
    }
  }

  /** A block of snapshot data leaves room for the command around it. */
  predicate RoomForBlock(limits: Limits, command: bytes, key: bytes) {
    limits.snapshotBlockBytes + 6 + |BulkString(command)| + |BulkString(key)| <= limits.maxReplayCommandBytes
  }

  /** A command with this item alone is not too large to replay. */
  predicate ItemFits(limits: Limits, command: bytes, key: bytes, elements: seq<bytes>) {
    |Encode(Command(command, [key] + elements))| <= limits.maxReplayCommandBytes
  }

  lemma {:induction false} DigitsGrow(a: nat, b: nat)
    requires a <= b
    ensures |Digits(a)| <= |Digits(b)|
    decreases b
  {
    if a >= 10 {
      DigitsGrow(a / 10, b / 10);
    }
  }

  /** What an item is added to makes the command no smaller. */
  lemma AloneIsSmaller(command: bytes, key: bytes, pending: seq<bytes>, elements: seq<bytes>)
    ensures |Encode(Command(command, [key] + elements))| <= |Encode(Command(command, [key] + (pending + elements)))|
  {
    BatchEncoding(command, key, elements);
    BatchEncoding(command, key, pending + elements);
    BulkStringsConcat(pending, elements);
    DigitsGrow(2 + |elements|, 2 + |pending + elements|);
  }

  lemma CollectKeeps(name: bytes, key: bytes, per: nat, max: nat, flushed: seq<Command>, done: seq<bytes>,
      pending: seq<bytes>, count: nat, elements: seq<bytes>)
    requires Collected(name, key, per, max, flushed, done, pending, count) && count < BATCH_SIZE && |elements| == per
    ensures |pending + elements| == (count + 1) * per
    ensures |Encode(Command(name, [key] + (pending + elements)))| <= max ==>
      Collected(name, key, per, max, flushed, done, pending + elements, count + 1)
  {
  }

  /** An item added to others within the block size is never too much. */
  lemma OnlyAlone(limits: Limits, name: bytes, key: bytes, per: nat, pending: seq<bytes>, count: nat,
      elements: seq<bytes>)
    requires (per == 1 || per == 2) && |pending| == count * per && count < BATCH_SIZE && |elements| == per
    requires count > 0 ==> |BulkStrings(pending)| + |BulkStrings(elements)| <= limits.snapshotBlockBytes
    ensures RoomForBlock(limits, name, key) && |Encode(Command(name,
      [key] + (pending + elements)))| > limits.maxReplayCommandBytes ==>
      |Encode(Command(name, [key] + elements))| > limits.maxReplayCommandBytes
  {
    if count == 0 {
      assert pending + elements == elements;
    } else {
      BatchEncoding(name, key, pending + elements);
      BulkStringsConcat(pending, elements);
      HeaderSize(name, key, |pending + elements|);
    }
  }

  /** An accepted item fits alone; where the block leaves room, a refused one does not. */
  lemma Verdict(limits: Limits, name: bytes, key: bytes, per: nat, pending: seq<bytes>, count: nat,
      elements: seq<bytes>)
    requires (per == 1 || per == 2) && |pending| == count * per && count < BATCH_SIZE && |elements| == per
    requires count > 0 ==> |BulkStrings(pending)| + |BulkStrings(elements)| <= limits.snapshotBlockBytes
    ensures var ok := |Encode(Command(name, [key] + (pending + elements)))| <= limits.maxReplayCommandBytes;
      && (ok ==> ItemFits(limits, name, key, elements))
      && (!ok && RoomForBlock(limits, name, key) ==> !ItemFits(limits, name, key, elements))
  {
    OnlyAlone(limits, name, key, per, pending, count, elements);
    AloneIsSmaller(name, key, pending, elements);
  }

  lemma BodyNotEmpty(pending: seq<bytes>)
    requires pending != []
    ensures |BulkStrings(pending)| > 0
  {
  }

  /** The bulk strings of one item. */
  method EncodeElements(elements: seq<bytes>) returns (item: bytes)
    ensures item == BulkStrings(elements)
  {
    item := [];
    assert elements[0..] == elements;
    for i := 0 to |elements|
      invariant item + BulkStrings(elements[i..]) == BulkStrings(elements)
    {
      assert elements[i..][1..] == elements[i + 1..];
      item := item + BulkString(elements[i]);
    }
  }

  lemma TwoParts(a: bytes, b: bytes)
    ensures Flatten([a, b]) == a + b
  {
    assert [a, b][1..] == [b];
    FlattenOne(b);
  }
}
