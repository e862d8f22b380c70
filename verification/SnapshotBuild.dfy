/** Whole snapshots: AppendSnapshotRecord and BuildSnapshotRecords of server/aof.cpp, lines 377 to 450. */
module SnapshotBuild {
  import opened Bytes
  import opened Decimal
  import opened Resp
  import opened Replay
  import opened Keyspace
  import opened Snapshot
  import opened SnapshotBatches

  // ----- values as the snapshot walks them -----

  /** A member of a sorted set, with the text of its score. */
  datatype Scored = Scored(member: bytes, score: bytes)

  datatype Field = Field(name: bytes, value: bytes)

  /** A value: a string, or the elements of a collection in the order they are visited. */
  datatype Object =
    | Text(text: bytes)
    | SetWalk(members: seq<bytes>)
    | ListWalk(elements: seq<bytes>)
    | ZSetWalk(entries: seq<Scored>)
    | HashWalk(fields: seq<Field>)

  datatype Record = Record(key: bytes, content: Object, expire: Option<int>)

  predicate RecordOk(r: Record) {
    r.expire.Some? ==> IsInt64(r.expire.value)
  }

  function ScoresOf(entries: seq<Scored>): map<bytes, bytes> {
    if entries == [] then map[]
    else
      var last := entries[|entries| - 1];
      ScoresOf(entries[..|entries| - 1])[last.member := last.score]
  }

  function FieldsOf(fields: seq<Field>): map<bytes, bytes> {
    if fields == [] then map[]
    else
      var last := fields[|fields| - 1];
      FieldsOf(fields[..|fields| - 1])[last.name := last.value]
  }

  /** The value a walk describes. */
  function ValueOf(o: Object): Value {
    match o
    case Text(text) => Str(text)
    case SetWalk(members) => Members(set m | m in members)
    case ListWalk(elements) => Items(elements)
    case ZSetWalk(entries) => Scores(ScoresOf(entries))
    case HashWalk(fields) => Fields(FieldsOf(fields))
  }

  // ----- what goes into the batches -----

  predicate ItemsOk(kind: Kind, items: seq<seq<bytes>>) {
    forall i :: 0 <= i < |items| ==> |items[i]| == Arity(kind)
  }

  function KindOf(o: Object): Kind
    requires !o.Text?
  {
    match o
    case SetWalk(_) => SAdd
    case ListWalk(_) => RPush
    case ZSetWalk(_) => ZAdd
    case HashWalk(_) => HSet
  }

  /** What the visitors append to the batch, one item for each element. */
  function Batched(o: Object): (items: seq<seq<bytes>>)
    requires !o.Text?
    ensures ItemsOk(KindOf(o), items)
  {
    match o
    case SetWalk(members) => seq(|members|, i requires 0 <= i < |members| => [members[i]])
    case ListWalk(elements) => seq(|elements|, i requires 0 <= i < |elements| => [elements[i]])
    case ZSetWalk(entries) => seq(|entries|, i requires 0 <= i < |entries| => [entries[i].score, entries[i].member])
    case HashWalk(fields) => seq(|fields|, i requires 0 <= i < |fields| => [fields[i].name, fields[i].value])
  }

  /** The elements of the items, one after the other. */
  function Concat(items: seq<seq<bytes>>): seq<bytes> {
    if items == [] then [] else Concat(items[..|items| - 1]) + items[|items| - 1]
  }

  lemma {:induction false} ConcatLength(kind: Kind, items: seq<seq<bytes>>)
    requires ItemsOk(kind, items)
    ensures |Concat(items)| % Arity(kind) == 0
    decreases |items|
  {
    if items != [] {
      ConcatLength(kind, items[..|items| - 1]);
    }
  }

  lemma OneItem(kind: Kind, v: Value, item: seq<bytes>)
    requires Holds(kind, v) && |item| == Arity(kind)
    ensures AddAll(kind, v, item) == AddItem(kind, v, item[0], if Arity(kind) == 1 then [] else item[1])
  {
    assert Arity(kind) == 1 ==> item[1..] == [];
    assert Arity(kind) == 2 ==> item[2..] == [];
  }

  /** The walk without its last element. */
  function Front(o: Object): (f: Object)
    requires !o.Text? && Batched(o) != []
    ensures !f.Text? && KindOf(f) == KindOf(o) && |Batched(f)| == |Batched(o)| - 1
  {
    match o
    case SetWalk(members) => SetWalk(members[..|members| - 1])
    case ListWalk(elements) => ListWalk(elements[..|elements| - 1])
    case ZSetWalk(entries) => ZSetWalk(entries[..|entries| - 1])
    case HashWalk(fields) => HashWalk(fields[..|fields| - 1])
  }

  lemma FrontBatched(o: Object)
    requires !o.Text? && Batched(o) != []
    ensures Batched(Front(o)) == Batched(o)[..|Batched(o)| - 1]
  {
  }

  lemma FrontValue(o: Object)
    requires !o.Text? && Batched(o) != []
    ensures var last := Batched(o)[|Batched(o)| - 1];
      Holds(KindOf(o), ValueOf(Front(o))) && ValueOf(o) ==
        AddItem(KindOf(o), ValueOf(Front(o)), last[0], if Arity(KindOf(o)) == 1 then [] else last[1])
  {
    match o {
      case SetWalk(members) => assert members == members[..|members| - 1] + [members[|members| - 1]];
      case ListWalk(elements) => assert elements == elements[..|elements| - 1] + [elements[|elements| - 1]];
      case ZSetWalk(entries) =>
      case HashWalk(fields) =>
    }
  }

  /** Adding the walked elements to an empty collection gives the walked collection. */
  lemma {:induction false} WalkBuilds(o: Object)
    requires !o.Text?
    ensures |Concat(Batched(o))| % Arity(KindOf(o)) == 0
    ensures AddAll(KindOf(o), Empty(KindOf(o)), Concat(Batched(o))) == ValueOf(o)
    decreases |Batched(o)|
  {
    var kind, items := KindOf(o), Batched(o);
    ConcatLength(kind, items);
    if items == [] {
      EmptyWalk(o);
    } else {
      var last := items[|items| - 1];
      WalkBuilds(Front(o));
      FrontBatched(o);
      AddAllConcat(kind, Empty(kind), Concat(Batched(Front(o))), last);
      OneItem(kind, ValueOf(Front(o)), last);
      FrontValue(o);
    }
  }

  lemma EmptyWalk(o: Object)
    requires !o.Text? && Batched(o) == []
    ensures ValueOf(o) == Empty(KindOf(o))
  {
  }

  // ----- what the emitted commands do -----

  predicate EmptyCollection(o: Object) {
    !o.Text? && Batched(o) == []
  }

  /** A record's effect on a database that lacks its key; an empty collection leaves no trace. */
  function PutRecord(db: Db, r: Record): Db {
    if EmptyCollection(r.content) then db else db[r.key := Entry(ValueOf(r.content), r.expire)]
  }

  lemma {:induction false} BatchesLength(name: bytes, key: bytes, per: nat, cs: seq<Command>, elements: seq<bytes>)
    requires (per == 1 || per == 2) && Batches(name, key, per, cs, elements)
    ensures |elements| % per == 0 && (cs == [] <==> elements == [])
    decreases |cs|
  {
    if cs != [] {
      var n := |cs[|cs| - 1].args| - 1;
      BatchesLength(name, key, per, cs[..|cs| - 1], elements[..|elements| - n]);
    }
  }

  /** The last of some batches, and what the others add. */
  lemma LastBatch(name: bytes, key: bytes, per: nat, cs: seq<Command>, elements: seq<bytes>)
      returns (front: seq<Command>, before: seq<bytes>, items: seq<bytes>)
    requires (per == 1 || per == 2) && cs != [] && Batches(name, key, per, cs, elements)
    ensures cs == front + [Command(name, [key] + items)] && elements == before + items
    ensures Batches(name, key, per, front, before) && items != [] && |items| % per == 0
  {
    var last := cs[|cs| - 1];
    front, before, items := cs[..|cs| - 1], elements[..|elements| - (|last.args| - 1)], last.args[1..];
    assert last.args == [key] + items;
  }

  /** The batches of a collection, executed on a database without the key, build the collection. */
  lemma {:induction false} RunBatches(db: Db, kind: Kind, key: bytes, cs: seq<Command>, elements: seq<bytes>)
    requires key !in db && Batches(Name(Add(kind)), key, Arity(kind), cs, elements)
    ensures |elements| % Arity(kind) == 0
    ensures RunCommands(db, cs) == Some(if cs == [] then db else db[key := Entry(AddAll(kind, Empty(kind), elements),
      None)])
    decreases |cs|
  {
    BatchesLength(Name(Add(kind)), key, Arity(kind), cs, elements);
    if cs != [] {
      var front, before, items := LastBatch(Name(Add(kind)), key, Arity(kind), cs, elements);
      RunBatches(db, kind, key, front, before);
      RunSnoc(db, front, Command(Name(Add(kind)), [key] + items));
      BatchesLength(Name(Add(kind)), key, Arity(kind), front, before);
      if front == [] {
        FirstBatch(db, kind, key, items);
        assert before + items == items;
      } else {
        NextBatch(db, kind, key, before, items);
      }
    }
  }

  lemma Overwrite(db: Db, key: bytes, a: Entry, b: Entry)
    ensures db[key := a][key := b] == db[key := b]
  {
  }

  lemma FirstBatch(db: Db, kind: Kind, key: bytes, items: seq<bytes>)
    requires key !in db && items != [] && |items| % Arity(kind) == 0
    ensures Exec(db, Command(Name(Add(kind)), [key] + items))
      == Some(db[key := Entry(AddAll(kind, Empty(kind), items), None)])
  {
    ExecAdd(db, kind, key, items);
  }

  lemma NextBatch(db: Db, kind: Kind, key: bytes, before: seq<bytes>, items: seq<bytes>)
    requires key !in db && items != [] && |items| % Arity(kind) == 0 && |before| % Arity(kind) == 0
    ensures |before + items| % Arity(kind) == 0
    ensures Exec(db[key := Entry(AddAll(kind, Empty(kind), before), None)], Command(Name(Add(kind)), [key] + items))
         == Some(db[key := Entry(AddAll(kind, Empty(kind), before + items), None)])
  {
    var so := AddAll(kind, Empty(kind), before);
    AddAllConcat(kind, Empty(kind), before, items);
    ExecAdd(db[key := Entry(so, None)], kind, key, items);
    Overwrite(db, key, Entry(so, None), Entry(AddAll(kind, so, items), None));
  }

  /** Executed on any database without the record's key, `cs` put the record there. */
  ghost predicate Puts(r: Record, cs: seq<Command>) {
    forall db: Db :: r.key !in db ==> RunCommands(db, cs) == Some(PutRecord(db, r))
  }

  lemma StringPuts(key: bytes, text: bytes, size: nat)
    requires size > 0
    ensures Puts(Record(key, Text(text), None), StringCommands(key, text, size))
  {
    forall db: Db | key !in db
      ensures RunCommands(db, StringCommands(key, text, size)) == Some(PutRecord(db, Record(key, Text(text), None)))
    {
      RunString(db, key, text, size);
    }
  }

  lemma BatchesPut(key: bytes, o: Object, cs: seq<Command>)
    requires !o.Text? && Batches(Name(Add(KindOf(o))), key, Arity(KindOf(o)), cs, Concat(Batched(o)))
    ensures Puts(Record(key, o, None), cs)
  {
    var kind, items := KindOf(o), Batched(o);
    WalkBuilds(o);
    BatchesLength(Name(Add(kind)), key, Arity(kind), cs, Concat(items));
    assert items != [] ==> |Concat(items)| >= |items[|items| - 1]| > 0;
    forall db: Db | key !in db ensures RunCommands(db, cs) == Some(PutRecord(db, Record(key, o, None))) {
      RunBatches(db, kind, key, cs, Concat(items));
    }
  }

  /** An expiry command after a record's own commands; on an empty collection's missing key it does nothing. */
  lemma ExpirePuts(r: Record, cs: seq<Command>, at: int)
    requires r.expire.None? && Puts(r, cs) && IsInt64(at)
    ensures Puts(r.(expire := Some(at)), cs + [Command(Name(ExpireAt), [r.key, Decimal.Text(at)])])
  {
    var t, c := r.(expire := Some(at)), Command(Name(ExpireAt), [r.key, Decimal.Text(at)]);
    forall db: Db | t.key !in db ensures RunCommands(db, cs + [c]) == Some(PutRecord(db, t)) {
      RunSnoc(db, cs, c);
      ExecExpireAt(PutRecord(db, r), r.key, at);
      PutExpire(db, r, at);
    }
  }

  lemma PutExpire(db: Db, r: Record, at: int)
    requires r.expire.None? && r.key !in db
    ensures var so := PutRecord(db, r);
      PutRecord(db, r.(expire := Some(at))) == if r.key in so then so[r.key := Entry(so[r.key].value, Some(at))] else so
  {
    var so := PutRecord(db, r);
    if r.key in so {
      Overwrite(db, r.key, so[r.key], Entry(so[r.key].value, Some(at)));
    }
  }

  // ----- the commands as the server reads them -----

  /** Commands of one name for one key, each with whole items of `per` elements. */
  predicate Named(cs: seq<Command>, name: bytes, key: bytes, per: nat)
    requires per > 0
  {
    forall i :: 0 <= i < |cs| ==>
      cs[i].name == name && |cs[i].args| > 1 && cs[i].args[0] == key && (|cs[i].args| - 1) % per == 0
  }

  /** What the commands give to their key, in order. */
  function Given(cs: seq<Command>): seq<bytes> {
    if cs == [] then []
    else
      var args := cs[|cs| - 1].args;
      Given(cs[..|cs| - 1]) + if args == [] then [] else args[1..]
  }

  function ScoreThenMember(entries: seq<Scored>): seq<bytes> {
    seq(2 * |entries|, i requires 0 <= i < 2 * |entries| =>
      if i % 2 == 0 then entries[i / 2].score else entries[i / 2].member)
  }

  function NameThenValue(fields: seq<Field>): seq<bytes> {
    seq(2 * |fields|, i requires 0 <= i < 2 * |fields| =>
      if i % 2 == 0 then fields[i / 2].name else fields[i / 2].value)
  }

  ghost predicate SaysText(text: bytes, key: bytes, cs: seq<Command>) {
    && cs != [] && Named(cs[..1], Ascii("SET"), key, 1) && Named(cs[1..], Ascii("APPEND"), key, 1)
    && Flatten(Given(cs)) == text && |Given(cs)| == |cs|
  }

  ghost predicate SaysSet(members: seq<bytes>, key: bytes, cs: seq<Command>) {
    Named(cs, Ascii("SADD"), key, 1) && Given(cs) == members
  }

  ghost predicate SaysList(elements: seq<bytes>, key: bytes, cs: seq<Command>) {
    Named(cs, Ascii("RPUSH"), key, 1) && Given(cs) == elements
  }

  ghost predicate SaysZSet(entries: seq<Scored>, key: bytes, cs: seq<Command>) {
    Named(cs, Ascii("ZADD"), key, 2) && Given(cs) == ScoreThenMember(entries)
  }

  ghost predicate SaysHash(fields: seq<Field>, key: bytes, cs: seq<Command>) {
    Named(cs, Ascii("HSET"), key, 2) && Given(cs) == NameThenValue(fields)
  }

  /** A value in the server's own commands. */
  ghost predicate Says(o: Object, key: bytes, cs: seq<Command>) {
    match o
    case Text(text) => SaysText(text, key, cs)
    case SetWalk(members) => SaysSet(members, key, cs)
    case ListWalk(elements) => SaysList(elements, key, cs)
    case ZSetWalk(entries) => SaysZSet(entries, key, cs)
    case HashWalk(fields) => SaysHash(fields, key, cs)
  }

  /** A record in the server's own commands: its value, then its expiry. */
  ghost predicate Said(r: Record, cs: seq<Command>) {
    if r.expire.None? then Says(r.content, r.key, cs)
    else
      && cs != [] && cs[|cs| - 1] == Command(Ascii("PEXPIREAT"), [r.key, Decimal.Text(r.expire.value)])
      && Says(r.content, r.key, cs[..|cs| - 1])
  }

  lemma {:induction false} BatchesGive(name: bytes, key: bytes, per: nat, cs: seq<Command>, elements: seq<bytes>)
    requires per > 0 && Batches(name, key, per, cs, elements)
    ensures Named(cs, name, key, per) && Given(cs) == elements
    decreases |cs|
  {
    if cs != [] {
      var front, last := cs[..|cs| - 1], cs[|cs| - 1];
      var n := |last.args| - 1;
      BatchesGive(name, key, per, front, elements[..|elements| - n]);
      assert forall i :: 0 <= i < |front| ==> cs[i] == front[i];
    }
  }

  lemma {:induction false} ConcatOnes(items: seq<seq<bytes>>, elements: seq<bytes>)
    requires |items| == |elements| && forall i :: 0 <= i < |items| ==> items[i] == [elements[i]]
    ensures Concat(items) == elements
    decreases |items|
  {
    if items != [] {
      var n := |items| - 1;
      ConcatOnes(items[..n], elements[..n]);
      assert elements == elements[..n] + [elements[n]];
    }
  }

  lemma {:induction false} ConcatPairs(items: seq<seq<bytes>>, elements: seq<bytes>)
    requires |elements| == 2 * |items|
    requires forall i :: 0 <= i < |items| ==> items[i] == [elements[2 * i], elements[2 * i + 1]]
    ensures Concat(items) == elements
    decreases |items|
  {
    if items != [] {
      var n := |items| - 1;
      ConcatPairs(items[..n], elements[..2 * n]);
      assert elements == elements[..2 * n] + [elements[2 * n], elements[2 * n + 1]];
    }
  }

  lemma SAddName()
    ensures Name(Add(SAdd)) == Ascii("SADD")
  {
  }

  lemma RPushName()
    ensures Name(Add(RPush)) == Ascii("RPUSH")
  {
  }

  lemma ZAddName()
    ensures Name(Add(ZAdd)) == Ascii("ZADD")
  {
  }

  lemma HSetName()
    ensures Name(Add(HSet)) == Ascii("HSET")
  {
  }

  lemma SetSaid(members: seq<bytes>, key: bytes, cs: seq<Command>)
    requires Batches(Name(Add(SAdd)), key, 1, cs, Concat(Batched(SetWalk(members))))
    ensures SaysSet(members, key, cs)
  {
    SAddName();
    BatchesGive(Name(Add(SAdd)), key, 1, cs, Concat(Batched(SetWalk(members))));
    ConcatOnes(Batched(SetWalk(members)), members);
  }

  lemma ListSaid(elements: seq<bytes>, key: bytes, cs: seq<Command>)
    requires Batches(Name(Add(RPush)), key, 1, cs, Concat(Batched(ListWalk(elements))))
    ensures SaysList(elements, key, cs)
  {
    RPushName();
    BatchesGive(Name(Add(RPush)), key, 1, cs, Concat(Batched(ListWalk(elements))));
    ConcatOnes(Batched(ListWalk(elements)), elements);
  }

  lemma ZSetGiven(entries: seq<Scored>)
    ensures Concat(Batched(ZSetWalk(entries))) == ScoreThenMember(entries)
  {
    ConcatPairs(Batched(ZSetWalk(entries)), ScoreThenMember(entries));
  }

  lemma ZSetSaid(entries: seq<Scored>, key: bytes, cs: seq<Command>)
    requires Batches(Name(Add(ZAdd)), key, 2, cs, Concat(Batched(ZSetWalk(entries))))
    ensures SaysZSet(entries, key, cs)
  {
    ZAddName();
    BatchesGive(Name(Add(ZAdd)), key, 2, cs, Concat(Batched(ZSetWalk(entries))));
    ZSetGiven(entries);
  }

  lemma HashGiven(fields: seq<Field>)
    ensures Concat(Batched(HashWalk(fields))) == NameThenValue(fields)
  {
    ConcatPairs(Batched(HashWalk(fields)), NameThenValue(fields));
  }

  lemma HashSaid(fields: seq<Field>, key: bytes, cs: seq<Command>)
    requires Batches(Name(Add(HSet)), key, 2, cs, Concat(Batched(HashWalk(fields))))
    ensures SaysHash(fields, key, cs)
  {
    HSetName();
    BatchesGive(Name(Add(HSet)), key, 2, cs, Concat(Batched(HashWalk(fields))));
    HashGiven(fields);
  }

  lemma BatchesSay(o: Object, key: bytes, cs: seq<Command>)
    requires !o.Text? && Batches(Name(Add(KindOf(o))), key, Arity(KindOf(o)), cs, Concat(Batched(o)))
    ensures Says(o, key, cs)
  {
    match o {
      case SetWalk(members) => SetSaid(members, key, cs);
      case ListWalk(elements) => ListSaid(elements, key, cs);
      case ZSetWalk(entries) => ZSetSaid(entries, key, cs);
      case HashWalk(fields) => HashSaid(fields, key, cs);
    }
  }

  lemma {:induction false} GivenFirst(c: Command, cs: seq<Command>)
    requires |c.args| == 2
    ensures Given([c] + cs) == [c.args[1]] + Given(cs)
    decreases |cs|
  {
    var all := [c] + cs;
    if cs == [] {
      assert all[..0] == [] && c.args[1..] == [c.args[1]];
    } else {
      assert all[..|all| - 1] == [c] + cs[..|cs| - 1];
      GivenFirst(c, cs[..|cs| - 1]);
    }
  }

  lemma {:induction false} ChunksSay(key: bytes, value: bytes, offset: nat, size: nat)
    requires offset <= |value| && size > 0
    ensures var cs := Chunks(key, value, offset, size);
      Named(cs, Name(Append), key, 1) && Flatten(Given(cs)) == value[offset..] && |Given(cs)| == |cs|
    decreases |value| - offset
  {
    if offset < |value| {
      var end := Min(offset + size, |value|);
      ChunksSay(key, value, end, size);
      GivenFirst(Command(Name(Append), [key, value[offset..end]]), Chunks(key, value, end, size));
      assert value[offset..] == value[offset..end] + value[end..];
    }
  }

  lemma StringNames()
    ensures Name(Set) == Ascii("SET") && Name(Append) == Ascii("APPEND")
  {
  }

  lemma StringSays(key: bytes, value: bytes, size: nat)
    requires size > 0
    ensures SaysText(value, key, StringCommands(key, value, size))
  {
    StringNames();
    if |value| <= size {
      OneSays(Name(Set), key, value);
    } else {
      var c, rest := Command(Name(Set), [key, []]), Chunks(key, value, 0, size);
      ChunksSay(key, value, 0, size);
      GivenFirst(c, rest);
      assert ([c] + rest)[1..] == rest && ([c] + rest)[..1] == [c];
      assert value[0..] == value && [] + value == value;
    }
  }

  lemma OneSays(name: bytes, key: bytes, value: bytes)
    ensures var cs := [Command(name, [key, value])]; cs[..1] == cs && cs[1..] == [] && Given(cs) == [value]
    ensures Flatten([value]) == value
  {
    var c := Command(name, [key, value]);
    GivenFirst(c, []);
    assert [c] + [] == [c];
    FlattenOne(value);
  }

  // ----- what can be emitted -----

  predicate ItemsFit(limits: Limits, key: bytes, kind: Kind, items: seq<seq<bytes>>) {
    forall i :: 0 <= i < |items| ==> ItemFits(limits, Name(Add(kind)), key, items[i])
  }

  function ExpireCommand(key: bytes, at: int): Command {
    Command(Name(ExpireAt), [key, Decimal.Text(at)])
  }

  /** The key leaves room for a chunk, or every item and the expiry fit in a command replay accepts. */
  predicate RecordFits(limits: Limits, r: Record) {
    && (if r.content.Text? then Overhead(r.key) < limits.maxReplayCommandBytes
        else ItemsFit(limits, r.key, KindOf(r.content), Batched(r.content)))
    && (r.expire.Some? ==> |Encode(ExpireCommand(r.key, r.expire.value))| <= limits.maxReplayCommandBytes)
  }

  /** A block of the collection's items leaves room for the command around it. */
  predicate RecordRoom(limits: Limits, r: Record) {
    r.content.Text? || RoomForBlock(limits, Name(Add(KindOf(r.content))), r.key)
  }

  predicate AllFitIn(limits: Limits, records: seq<Record>) {
    forall i :: 0 <= i < |records| ==> RecordFits(limits, records[i])
  }

  predicate AllHaveRoom(limits: Limits, records: seq<Record>) {
    forall i :: 0 <= i < |records| ==> RecordRoom(limits, records[i])
  }

  // ----- building -----

  lemma FitMore(limits: Limits, key: bytes, kind: Kind, items: seq<seq<bytes>>, i: nat)
    requires i < |items| && ItemsFit(limits, key, kind, items[..i])
    ensures ItemFits(limits, Name(Add(kind)), key, items[i]) ==> ItemsFit(limits, key, kind, items[..i + 1])
    ensures !ItemFits(limits, Name(Add(kind)), key, items[i]) ==> !ItemsFit(limits, key, kind, items)
  {
    assert forall j :: 0 <= j < i ==> items[..i + 1][j] == items[..i][j];
  }

  /** Appends the items of a collection to a new batch, up to one that is refused. */
  method FillBatch(batch: Batch, kind: Kind, items: seq<seq<bytes>>) returns (ok: bool)
    requires batch.Valid() && batch.Tight() && batch.Added() == [] && ItemsOk(kind, items)
    requires batch.command == Name(Add(kind)) && batch.per == Arity(kind)
    modifies batch, batch.sink
    ensures batch.sink.Valid() && (ok ==> batch.Valid() && batch.Tight() && batch.Added() == Concat(items))
    ensures ok ==> ItemsFit(batch.sink.limits, batch.key, kind, items)
    ensures !ok && RoomForBlock(batch.sink.limits, batch.command, batch.key) ==>
      !ItemsFit(batch.sink.limits, batch.key, kind, items)
  {
    ghost var limits, key := batch.sink.limits, batch.key;
    for i := 0 to |items|
      invariant batch.Valid() && batch.Tight() && batch.Added() == Concat(items[..i])
      invariant ItemsFit(limits, key, kind, items[..i])
    {
      assert items[..i + 1][..i] == items[..i];
      FitMore(limits, key, kind, items, i);
      ok := batch.Append(items[i]);
      if !ok {
        return;
      }
    }
    assert items[..|items|] == items;
    ok := true;
  }

  /** Walks a collection through a batch. Where blocks leave room, it is refused only for an item too large. */
  method EmitCollection(sink: Sink, key: bytes, kind: Kind, items: seq<seq<bytes>>)
      returns (ok: bool, ghost cs: seq<Command>)
    requires sink.Valid() && sink.limits.maxReplayCommandBytes <= SIZE_MAX && ItemsOk(kind, items)
    modifies sink
    ensures sink.Valid()
    ensures ok ==> sink.commands == old(sink.commands) + cs
    ensures ok ==> Batches(Name(Add(kind)), key, Arity(kind), cs, Concat(items))
    ensures ok ==> Packed(sink.limits.snapshotBlockBytes, Arity(kind), cs)
    ensures ok ==> ItemsFit(sink.limits, key, kind, items)
    ensures RoomForBlock(sink.limits, Name(Add(kind)), key) && ItemsFit(sink.limits, key, kind, items) ==> ok
  {
    cs := [];
    var batch := new Batch(Name(Add(kind)), key, Arity(kind), sink);
    ok := FillBatch(batch, kind, items);
    if !ok {
      return;
    }
    if batch.pending != [] {
      PackedMore(sink.limits.snapshotBlockBytes, batch.per, batch.flushed, batch.command, key, batch.pending);
    }
    ok := batch.Flush();
    cs := batch.flushed;
    assert batch.done + [] == batch.done;
  }

  method EmitContent(sink: Sink, key: bytes, o: Object) returns (ok: bool, ghost cs: seq<Command>)
    requires sink.Valid() && sink.limits.maxReplayCommandBytes <= SIZE_MAX
    modifies sink
    ensures sink.Valid()
    ensures ok ==> sink.commands == old(sink.commands) + cs && Puts(Record(key, o, None), cs) && Says(o, key, cs)
    ensures ok ==> RecordFits(sink.limits, Record(key, o, None))
    ensures RecordRoom(sink.limits, Record(key, o, None)) && RecordFits(sink.limits, Record(key, o, None)) ==> ok
  {
    if o.Text? {
      ok := EmitString(sink, key, o.text);
      cs := if ok then StringCommands(key, o.text, ChunkSize(sink.limits, Overhead(key))) else [];
      if ok {
        StringPuts(key, o.text, ChunkSize(sink.limits, Overhead(key)));
        StringSays(key, o.text, ChunkSize(sink.limits, Overhead(key)));
      }
    } else {
      ok, cs := EmitCollection(sink, key, KindOf(o), Batched(o));
      if ok {
        BatchesPut(key, o, cs);
        BatchesSay(o, key, cs);
      }
    }
  }

  /** The expiry, after the commands of the value. */
  method EmitExpiry(sink: Sink, r: Record, ghost start: seq<Command>, ghost cs: seq<Command>)
      returns (ok: bool, ghost all: seq<Command>)
    requires sink.Valid() && sink.limits.maxReplayCommandBytes <= SIZE_MAX && RecordOk(r) && r.expire.Some?
    requires sink.commands == start + cs && Puts(r.(expire := None), cs) && Says(r.content, r.key, cs)
    modifies sink
    ensures sink.Valid() && ok == (|Encode(ExpireCommand(r.key, r.expire.value))| <= sink.limits.maxReplayCommandBytes)
    ensures ok ==> sink.commands == start + all && Puts(r, all) && Said(r, all)
  {
    var c := ExpireCommand(r.key, r.expire.value);
    ExpirePuts(r.(expire := None), cs, r.expire.value);
    ExpireSaid(r, cs);
    ok := EmitFixedCommand(sink, c);
    assert (start + cs) + [c] == start + (cs + [c]);
    all := cs + [c];
  }

  /** One record: its value, then its expiry. Where blocks leave room, refused exactly when a part is too large. */
  method EmitRecord(sink: Sink, r: Record) returns (ok: bool, ghost cs: seq<Command>)
    requires sink.Valid() && sink.limits.maxReplayCommandBytes <= SIZE_MAX && RecordOk(r)
    modifies sink
    ensures sink.Valid()
    ensures ok ==> sink.commands == old(sink.commands) + cs && Puts(r, cs) && Said(r, cs) && RecordFits(sink.limits, r)
    ensures RecordRoom(sink.limits, r) && RecordFits(sink.limits, r) ==> ok
  {
    ok, cs := EmitContent(sink, r.key, r.content);
    if ok && r.expire.Some? {
      ok, cs := EmitExpiry(sink, r, old(sink.commands), cs);
    }
  }

  lemma ExpireSaid(r: Record, cs: seq<Command>)
    requires r.expire.Some? && Says(r.content, r.key, cs)
    ensures Said(r, cs + [ExpireCommand(r.key, r.expire.value)])
  {
    assert Name(ExpireAt) == Ascii("PEXPIREAT");
    var all := cs + [ExpireCommand(r.key, r.expire.value)];
    assert all[..|all| - 1] == cs;
  }

  /** The database a walk over the keyspace describes, without its empty collections. */
  function DbOf(records: seq<Record>): Db {
    if records == [] then map[] else PutRecord(DbOf(records[..|records| - 1]), records[|records| - 1])
  }

  predicate Distinct(records: seq<Record>) {
    forall i, j :: 0 <= i < j < |records| ==> records[i].key != records[j].key
  }

  lemma {:induction false} KeysOf(records: seq<Record>, key: bytes)
    requires key in DbOf(records)
    ensures exists i :: 0 <= i < |records| && records[i].key == key
    decreases |records|
  {
    if records != [] && records[|records| - 1].key != key {
      KeysOf(records[..|records| - 1], key);
      var i :| 0 <= i < |records| - 1 && records[..|records| - 1][i].key == key;
      assert records[i].key == key;
    }
  }

  lemma {:induction false} RunTwo(db: Db, a: seq<Command>, b: seq<Command>)
    requires RunCommands(db, a).Some?
    ensures RunCommands(db, a + b) == RunCommands(RunCommands(db, a).value, b)
    decreases |a|
  {
    if a == [] {
      assert a + b == b;
    } else {
      assert (a + b)[0] == a[0] && (a + b)[1..] == a[1..] + b;
      RunTwo(Exec(db, a[0]).value, a[1..], b);
    }
  }

  /** The commands of several records, in order. */
  function Joined(parts: seq<seq<Command>>): seq<Command> {
    if parts == [] then [] else Joined(parts[..|parts| - 1]) + parts[|parts| - 1]
  }

  /** Each record is said in the server's own commands. */
  ghost predicate AllSaid(records: seq<Record>, parts: seq<seq<Command>>) {
    |parts| == |records| && forall i :: 0 <= i < |records| ==> Said(records[i], parts[i])
  }

  lemma SaidMore(records: seq<Record>, i: nat, parts: seq<seq<Command>>, cs: seq<Command>)
    requires i < |records| && AllSaid(records[..i], parts) && Said(records[i], cs)
    ensures AllSaid(records[..i + 1], parts + [cs]) && Joined(parts + [cs]) == Joined(parts) + cs
  {
    assert (parts + [cs])[..|parts|] == parts;
    forall j | 0 <= j <= i ensures Said(records[..i + 1][j], (parts + [cs])[j]) {
      assert j < i ==> records[..i + 1][j] == records[..i][j];
    }
  }

  /** Walks the keyspace. */
  method BuildSnapshot(sink: Sink, records: seq<Record>) returns (ok: bool, ghost parts: seq<seq<Command>>)
    requires sink.Valid() && sink.commands == [] && sink.limits.maxReplayCommandBytes <= SIZE_MAX
    requires Distinct(records) && forall i :: 0 <= i < |records| ==> RecordOk(records[i])
    modifies sink
    ensures sink.Valid()
    ensures ok ==> RunCommands(map[], sink.commands) == Some(DbOf(records)) && AllFitIn(sink.limits, records)
    ensures ok ==> sink.commands == Joined(parts) && AllSaid(records, parts)
    ensures AllHaveRoom(sink.limits, records) && AllFitIn(sink.limits, records) ==> ok
  {
    parts := [];
    for i := 0 to |records|
      invariant sink.Valid() && RunCommands(map[], sink.commands) == Some(DbOf(records[..i]))
      invariant sink.commands == Joined(parts) && AllSaid(records[..i], parts)
      invariant forall j :: 0 <= j < i ==> RecordFits(sink.limits, records[j])
    {
      ghost var before := sink.commands;
      ghost var cs;
      ok, cs := EmitRecord(sink, records[i]);
      if !ok {
        return;
      }
      OneRecordMore(records, i, before, cs);
      SaidMore(records, i, parts, cs);
      parts := parts + [cs];
    }
    assert records[..|records|] == records;
    ok := true;
  }

  lemma OneRecordMore(records: seq<Record>, i: nat, before: seq<Command>, cs: seq<Command>)
    requires Distinct(records) && i < |records| && RunCommands(map[], before) == Some(DbOf(records[..i]))
    requires Puts(records[i], cs)
    ensures RunCommands(map[], before + cs) == Some(DbOf(records[..i + 1]))
  {
    assert records[..i + 1][..i] == records[..i];
    if records[i].key in DbOf(records[..i]) {
      KeysOf(records[..i], records[i].key);
    }
    RunTwo(map[], before, cs);
  }

  // ----- and back -----

  lemma {:induction false} SameBytes(m: Machine<Db>, cs: seq<Command>)
    requires m.encode == Encode
    ensures EncodeAll(m, cs) == EncodeCommands(cs)
  {
    if cs != [] {
      SameBytes(m, cs[1..]);
    }
  }

  ghost predicate Agrees(exec: (Db, Command) -> Option<Db>, db: Db, c: Command) {
    Exec(db, c).Some? ==> exec(db, c) == Exec(db, c)
  }

  /** A server whose commands include those of a snapshot, with their effect. */
  ghost predicate Extends(exec: (Db, Command) -> Option<Db>) {
    forall db: Db, c: Command :: Agrees(exec, db, c)
  }

  lemma {:induction false} SameRun(m: Machine<Db>, db: Db, cs: seq<Command>)
    requires Extends(m.exec) && RunCommands(db, cs).Some?
    ensures Run(m, db, cs) == RunCommands(db, cs)
    decreases |cs|
  {
    if cs != [] {
      assert Agrees(m.exec, db, cs[0]);
      SameRun(m, Exec(db, cs[0]).value, cs[1..]);
    }
  }

  lemma AllReplayableFit(limits: Limits, cs: seq<Command>, m: Machine<Db>)
    requires m.encode == Encode && m.readable == Parsable && m.limit == limits.maxReplayCommandBytes
      && AllReplayable(limits, cs)
    ensures AllFit(m, cs) && AllLoggable(m, cs)
  {
    forall i | 0 <= i < |cs| ensures Fits(m, cs[i]) && Loggable(m, cs[i]) {
      assert Replayable(limits, cs[i]);
    }
  }

  /**
   * A finished snapshot, read back by replay on an empty database, gives the database it was taken of.
   * `blocks` and `cs` are the sink's after `BuildSnapshot`.
   */
  lemma SnapshotReplays(limits: Limits, records: seq<Record>, blocks: seq<bytes>, cs: seq<Command>,
      exec: (Db, Command) -> Option<Db>)
    requires Extends(exec)
    requires Flatten(blocks) == EncodeCommands(cs) && AllReplayable(limits, cs)
    requires RunCommands(map[], cs) == Some(DbOf(records))
    ensures Recover(RespMachine(exec, limits.maxReplayCommandBytes), map[], Flatten(blocks))
      == Some(Recovered(DbOf(records), |Flatten(blocks)|))
  {
    var m := RespMachine(exec, limits.maxReplayCommandBytes);
    RespSound(exec, limits.maxReplayCommandBytes);
    SameBytes(m, cs);
    SameRun(m, map[], cs);
    AllReplayableFit(limits, cs, m);
    RecoverExact(m, map[], cs);
  }

  /** A snapshot from start to end: blocks that replay to the database, or a refusal. */
  method TakeSnapshot(limits: Limits, records: seq<Record>, ghost exec: (Db, Command) -> Option<Db>)
      returns (blocks: Option<seq<bytes>>, ghost parts: seq<seq<Command>>)
    requires limits.maxReplayCommandBytes <= SIZE_MAX && Extends(exec)
    requires Distinct(records) && forall i :: 0 <= i < |records| ==> RecordOk(records[i])
    ensures blocks.Some? ==>
      Recover(RespMachine(exec, limits.maxReplayCommandBytes), map[], Flatten(blocks.value))
        == Some(Recovered(DbOf(records), |Flatten(blocks.value)|))
    ensures blocks.Some? ==> Flatten(blocks.value) == EncodeCommands(Joined(parts)) && AllSaid(records, parts)
    ensures blocks.Some? ==> AllFitIn(limits, records)
    ensures AllHaveRoom(limits, records) && AllFitIn(limits, records) ==> blocks.Some?
  {
    var sink := new Sink(limits);
    var ok;
    ok, parts := BuildSnapshot(sink, records);
    if !ok {
      return None, parts;
    }
    SnapshotReplays(limits, records, sink.blocks, sink.commands, exec);
    blocks := Some(sink.blocks);
  }

  // ----- what a snapshot leaves out -----

  function EntryOf(r: Record): Entry {
    Entry(ValueOf(r.content), r.expire)
  }

  /** A record is in the replayed database, with its value and expiry, exactly when it is not an empty collection. */
  lemma {:induction false} DbOfEntry(records: seq<Record>, i: nat)
    requires Distinct(records) && i < |records|
    ensures records[i].key in DbOf(records) <==> !EmptyCollection(records[i].content)
    ensures !EmptyCollection(records[i].content) ==> DbOf(records)[records[i].key] == EntryOf(records[i])
    decreases |records|
  {
    var front := records[..|records| - 1];
    if i < |front| {
      DbOfEntry(front, i);
    } else if records[i].key in DbOf(front) {
      KeysOf(front, records[i].key);
    }
  }

  /** The database walked, empty collections included. */
  function Walked(records: seq<Record>): Db {
    if records == [] then map[]
    else
      var r := records[|records| - 1];
      Walked(records[..|records| - 1])[r.key := EntryOf(r)]
  }

  lemma {:induction false} WalkedEntry(records: seq<Record>, i: nat)
    requires Distinct(records) && i < |records|
    ensures records[i].key in Walked(records) && Walked(records)[records[i].key] == EntryOf(records[i])
    decreases |records|
  {
    if i < |records| - 1 {
      WalkedEntry(records[..|records| - 1], i);
    }
  }

  lemma {:induction false} WalkedKeys(records: seq<Record>, key: bytes)
    requires key in Walked(records)
    ensures exists i :: 0 <= i < |records| && records[i].key == key
    decreases |records|
  {
    var last := |records| - 1;
    if records[last].key != key {
      WalkedKeys(records[..last], key);
      var i :| 0 <= i < last && records[..last][i].key == key;
      assert records[i].key == key;
    }
  }

  predicate NoneEmpty(records: seq<Record>) {
    forall i :: 0 <= i < |records| ==> !EmptyCollection(records[i].content)
  }

  /** The snapshot replays to the database walked if and only if that holds no empty collection. */
  lemma SnapshotExact(records: seq<Record>)
    requires Distinct(records)
    ensures DbOf(records) == Walked(records) <==> NoneEmpty(records)
  {
    if NoneEmpty(records) {
      forall k | k in DbOf(records) || k in Walked(records)
        ensures k in DbOf(records) && k in Walked(records) && DbOf(records)[k] == Walked(records)[k]
      {
        var i := IndexOf(records, k);
        DbOfEntry(records, i);
        WalkedEntry(records, i);
      }
    } else {
      var i :| 0 <= i < |records| && EmptyCollection(records[i].content);
      DbOfEntry(records, i);
      WalkedEntry(records, i);
    }
  }

  lemma IndexOf(records: seq<Record>, k: bytes) returns (i: nat)
    requires k in DbOf(records) || k in Walked(records)
    ensures i < |records| && records[i].key == k
  {
    if k in DbOf(records) {
      KeysOf(records, k);
    } else {
      WalkedKeys(records, k);
    }
    i :| 0 <= i < |records| && records[i].key == k;
  }
}
