/** The effect of the commands a snapshot consists of, while a file is being loaded. */
module Keyspace {
  import opened Bytes
  import opened Decimal
  import opened Resp

  datatype Value =
    | Str(text: bytes)
    | Members(members: set<bytes>)
    | Items(items: seq<bytes>)
    | Scores(scores: map<bytes, bytes>)      // member to the text of its score
    | Fields(fields: map<bytes, bytes>)

  datatype Entry = Entry(value: Value, expire: Option<int>)

  type Db = map<bytes, Entry>

  /** The collections, by the command that adds to them. */
  datatype Kind = SAdd | RPush | ZAdd | HSet

  datatype Verb = Set | Append | Add(kind: Kind) | ExpireAt

  function Name(v: Verb): bytes {
    match v
    case Set => [83, 69, 84]
    case Append => [65, 80, 80, 69, 78, 68]
    case Add(SAdd) => [83, 65, 68, 68]
    case Add(RPush) => [82, 80, 85, 83, 72]
    case Add(ZAdd) => [90, 65, 68, 68]
    case Add(HSet) => [72, 83, 69, 84]
    case ExpireAt => [80, 69, 88, 80, 73, 82, 69, 65, 84]
  }

  function VerbOf(name: bytes): Option<Verb> {
    if name == Name(Set) then Some(Set)
    else if name == Name(Append) then Some(Append)
    else if name == Name(Add(SAdd)) then Some(Add(SAdd))
    else if name == Name(Add(RPush)) then Some(Add(RPush))
    else if name == Name(Add(ZAdd)) then Some(Add(ZAdd))
    else if name == Name(Add(HSet)) then Some(Add(HSet))
    else if name == Name(ExpireAt) then Some(ExpireAt)
    else None
  }

  lemma VerbOfName(v: Verb)
    ensures VerbOf(Name(v)) == Some(v)
  {
    assert Name(Set)[0] == 83 && Name(Add(SAdd))[0] == 83 && Name(Add(RPush))[0] == 82 && Name(Add(ZAdd))[0] == 90;
    assert Name(Add(HSet))[0] == 72 && Name(Append)[0] == 65 && Name(ExpireAt)[0] == 80;
  }

  /** Elements per item: a score or a field comes with its member or value. */
  function Arity(k: Kind): nat {
    if k == SAdd || k == RPush then 1 else 2
  }

  function Empty(k: Kind): Value {
    match k
    case SAdd => Members({})
    case RPush => Items([])
    case ZAdd => Scores(map[])
    case HSet => Fields(map[])
  }

  predicate Holds(k: Kind, v: Value) {
    match k
    case SAdd => v.Members?
    case RPush => v.Items?
    case ZAdd => v.Scores?
    case HSet => v.Fields?
  }

  function AddItem(k: Kind, v: Value, first: bytes, second: bytes): (r: Value)
    requires Holds(k, v)
    ensures Holds(k, r)
  {
    match k
    case SAdd => Members(v.members + {first})
    case RPush => Items(v.items + [first])
    case ZAdd => Scores(v.scores[second := first])
    case HSet => Fields(v.fields[first := second])
  }

  /** Adds the items of a command, in order. */
  function AddAll(k: Kind, v: Value, elements: seq<bytes>): (r: Value)
    requires Holds(k, v) && |elements| % Arity(k) == 0
    ensures Holds(k, r)
    decreases |elements|
  {
    if elements == [] then v
    else if Arity(k) == 1 then AddAll(k, AddItem(k, v, elements[0], []), elements[1..])
    else AddAll(k, AddItem(k, v, elements[0], elements[1]), elements[2..])
  }

  function Exec(db: Db, c: Command): Option<Db> {
    match VerbOf(c.name)
    case None => None
    case Some(Set) =>
      if |c.args| != 2 then None else Some(db[c.args[0] := Entry(Str(c.args[1]), None)])
    case Some(Append) =>
      if |c.args| != 2 then None
      else if c.args[0] !in db then Some(db[c.args[0] := Entry(Str(c.args[1]), None)])
      else if !db[c.args[0]].value.Str? then None
      else Some(db[c.args[0] := Entry(Str(db[c.args[0]].value.text + c.args[1]), db[c.args[0]].expire)])
    case Some(Add(k)) =>
      if |c.args| < 1 + Arity(k) || (|c.args| - 1) % Arity(k) != 0 then None
      else if c.args[0] !in db then Some(db[c.args[0] := Entry(AddAll(k, Empty(k), c.args[1..]), None)])
      else if !Holds(k, db[c.args[0]].value) then None
      else Some(db[c.args[0] := Entry(AddAll(k, db[c.args[0]].value, c.args[1..]), db[c.args[0]].expire)])
    case Some(ExpireAt) =>
      if |c.args| != 2 || Numeral(c.args[1]).None? then None
      else if c.args[0] !in db then Some(db)
      else Some(db[c.args[0] := Entry(db[c.args[0]].value, Numeral(c.args[1]))])
  }

  lemma ExecAdd(db: Db, k: Kind, key: bytes, elements: seq<bytes>)
    requires elements != [] && |elements| % Arity(k) == 0
    requires key in db ==> Holds(k, db[key].value)
    ensures Exec(db, Command(Name(Add(k)), [key] + elements)) == Some(db[key :=
      if key in db then Entry(AddAll(k, db[key].value, elements), db[key].expire)
        else Entry(AddAll(k, Empty(k), elements), None)])
  {
    VerbOfName(Add(k));
    assert ([key] + elements)[1..] == elements;
  }

  lemma ExecSet(db: Db, key: bytes, value: bytes)
    ensures Exec(db, Command(Name(Set), [key, value])) == Some(db[key := Entry(Str(value), None)])
  {
    VerbOfName(Set);
  }

  lemma ExecAppend(db: Db, key: bytes, value: bytes)
    requires key in db && db[key].value.Str?
    ensures Exec(db, Command(Name(Append), [key, value])) == Some(db[key := Entry(Str(db[key].value.text + value),
      db[key].expire)])
  {
    VerbOfName(Append);
  }

  lemma ExecExpireAt(db: Db, key: bytes, at: int)
    requires IsInt64(at)
    ensures Exec(db, Command(Name(ExpireAt), [key, Text(at)]))
         == Some(if key in db then db[key := Entry(db[key].value, Some(at))] else db)
  {
    VerbOfName(ExpireAt);
    NumeralExact(Text(at), at);
  }

  lemma {:induction false} AddAllConcat(k: Kind, v: Value, a: seq<bytes>, b: seq<bytes>)
    requires Holds(k, v) && |a| % Arity(k) == 0 && |b| % Arity(k) == 0
    ensures |a + b| % Arity(k) == 0 && AddAll(k, v, a + b) == AddAll(k, AddAll(k, v, a), b)
    decreases |a|
  {
    if a == [] {
      assert a + b == b;
    } else if Arity(k) == 1 {
      assert (a + b)[1..] == a[1..] + b;
      AddAllConcat(k, AddItem(k, v, a[0], []), a[1..], b);
    } else {
      assert (a + b)[2..] == a[2..] + b;
      AddAllConcat(k, AddItem(k, v, a[0], a[1]), a[2..], b);
    }
  }
}
