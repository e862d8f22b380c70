/** Pairs of a key and a score kept in a listpack, one element each (data_types/zset/zset_listpack.cpp). */
module PairPack {
  import opened Bytes
  import opened ListPackCodec
  import opened ListPackLayout
  import opened ListPack
  import D = Decimal
  import Z = ZSetOrder

  type Pair = Z.Entry

  const LONGEST_SCORE: nat := 64

  // ----- scores as text -----

  ghost predicate ReadsBack(text: Z.Score -> Item, parse: Item -> Option<Z.Score>, x: Z.Score) {
    parse(text(x)) == Some(x) && |text(x)| <= LONGEST_SCORE
  }

  /** The text of a score is short, and reads back as the score. */
  ghost predicate Faithful(text: Z.Score -> Item, parse: Item -> Option<Z.Score>) {
    forall x :: ReadsBack(text, parse, x)
  }

  // Such texts exist: the decimal digits of the score's place.

  function ScoreText(x: Z.Score): (t: Item)
    ensures |t| <= LONGEST_SCORE
  {
    var v: int := x;
    D.DigitCountBound(if v < 0 then -v else v);
    D.Text(v)
  }

  function ScoreOfText(t: Item): Option<Z.Score> {
    var v := D.Integer(t);
    if v.Some? && D.IsInt64(v.value) then Some(v.value) else None
  }

  lemma DecimalScores()
    ensures Faithful(ScoreText, ScoreOfText)
  {
    forall x: Z.Score ensures ReadsBack(ScoreText, ScoreOfText, x) {
      D.IntegerExact(D.Text(x), x);
    }
  }

  // ----- the layout -----

  ghost predicate PairAt(items: seq<Item>, text: Z.Score -> Item, pairs: seq<Pair>, i: nat)
    requires |items| == 2 * |pairs|
  {
    i < |pairs| ==> items[2 * i] == pairs[i].key && items[2 * i + 1] == text(pairs[i].score)
  }

  /** Every pair is a key followed by the text of its score. */
  ghost predicate Laid(items: seq<Item>, text: Z.Score -> Item, pairs: seq<Pair>) {
    |items| == 2 * |pairs| && forall i: nat :: PairAt(items, text, pairs, i)
  }

  function Insert2<T>(s: seq<T>, i: nat, x: T, y: T): seq<T>
    requires i <= |s|
  {
    s[..i] + [x, y] + s[i..]
  }

  lemma Insert2At<T>(s: seq<T>, i: nat, x: T, y: T, k: nat)
    requires i <= |s| && k < |s| + 2
    ensures Insert2(s, i, x, y)[k] == if k < i then s[k] else if k == i then x else if k == i + 1 then y else s[k - 2]
  {
  }

  lemma LaidPut(items: seq<Item>, text: Z.Score -> Item, pairs: seq<Pair>, i: nat, key: Item, score: Z.Score)
    requires Laid(items, text, pairs) && i <= |pairs|
    ensures Laid(Insert2<Item>(items, 2 * i, key, text(score)), text, pairs[..i] + [Z.Entry(key, score)] + pairs[i..])
  {
    var items', pairs' := Insert2<Item>(items, 2 * i, key, text(score)),
      pairs[..i] + [Z.Entry(key, score)] + pairs[i..];
    forall k: nat ensures PairAt(items', text, pairs', k) {
      if k < |pairs'| {
        Insert2At<Item>(items, 2 * i, key, text(score), 2 * k);
        Insert2At<Item>(items, 2 * i, key, text(score), 2 * k + 1);
        assert PairAt(items, text, pairs, if k < i then k else if k == i then 0 else k - 1);
      }
    }
  }

  lemma Cut2At<T>(s: seq<T>, i: nat, k: nat)
    requires i + 2 <= |s| && k < |s| - 2
    ensures (s[..i] + s[i + 2..])[k] == if k < i then s[k] else s[k + 2]
  {
  }

  lemma LaidCut(items: seq<Item>, text: Z.Score -> Item, pairs: seq<Pair>, i: nat)
    requires Laid(items, text, pairs) && i < |pairs|
    ensures Laid(items[..2 * i] + items[2 * i + 2..], text, pairs[..i] + pairs[i + 1..])
  {
    var items', pairs' := items[..2 * i] + items[2 * i + 2..], pairs[..i] + pairs[i + 1..];
    forall k: nat ensures PairAt(items', text, pairs', k) {
      if k < |pairs'| {
        Cut2At<Item>(items, 2 * i, 2 * k);
        Cut2At<Item>(items, 2 * i, 2 * k + 1);
        assert PairAt(items, text, pairs, if k < i then k else k + 1);
      }
    }
  }

  // ----- finding a key -----

  /** The first pair from `i` on with a key. */
  function FindPair(pairs: seq<Pair>, key: bytes, i: nat): (at: Option<nat>)
    requires i <= |pairs|
    ensures at.Some? ==> i <= at.value < |pairs| && pairs[at.value].key == key
    ensures at.None? ==> forall j :: i <= j < |pairs| ==> pairs[j].key != key
    decreases |pairs| - i
  {
    if i == |pairs| then None else if pairs[i].key == key then Some(i) else FindPair(pairs, key, i + 1)
  }

  /** Looking at every second element finds the keys. */
  lemma {:induction false} FindsKeys(items: seq<Item>, text: Z.Score -> Item, pairs: seq<Pair>, key: bytes, i: nat)
    requires Laid(items, text, pairs) && i <= |pairs|
    ensures FindEvery(items, key, 1, 2 * i, 0) == var at := FindPair(pairs, key, i); if at.Some? then Some(2 * at.value)
      else None
    decreases |pairs| - i
  {
    if i < |pairs| {
      assert PairAt(items, text, pairs, i);
      FindsKeys(items, text, pairs, key, i + 1);
      assert FindEvery(items, key, 1, 2 * i + 1, 1) == FindEvery(items, key, 1, 2 * i + 2, 0);
    }
  }

  class PairPack {
    const text: Z.Score -> Item
    const parse: Item -> Option<Z.Score>
    const list: ListPack
    ghost var pairs: seq<Pair>

    ghost predicate Valid()
      reads this, list, list.lp
    {
      list.Valid() && Faithful(text, parse) && Laid(list.items, text, pairs)
    }

    /** Where the key of a pair stands. */
    ghost function Cursor(i: int): Option<nat>
      requires i < 0 || 2 * i <= |list.items|
      reads this, list
    {
      if 0 <= i < |pairs| then Some(list.Position(2 * i)) else None
    }

    constructor (text: Z.Score -> Item, parse: Item -> Option<Z.Score>)
      requires Faithful(text, parse)
      ensures Valid() && pairs == [] && fresh(list) && fresh(list.lp) && this.text == text && this.parse == parse
    {
      this.text, this.parse := text, parse;
      list := new ListPack();
      pairs := [];
    }

    method FirstKey() returns (idx: Option<nat>)
      requires Valid()
      ensures idx == Cursor(0)
    {
      idx := list.First();
    }

    /** The pair whose key is at an index: its score is read first. */
    method EntryAt(idx: nat, ghost i: nat) returns (e: Pair, score: nat)
      requires Valid() && i < |pairs| && idx == list.Position(2 * i)
      ensures e == pairs[i] && score == list.Position(2 * i + 1)
    {
      assert PairAt(list.items, text, pairs, i) && ReadsBack(text, parse, pairs[i].score);
      var next := list.Next(idx, 2 * i);
      score := next.value;
      var t := list.Get(score, 2 * i + 1);
      var x := parse(t);
      var key := list.Get(idx, 2 * i);
      e := Z.Entry(key, x.value);
    }

    method NextKeyAfterScore(score: nat, ghost i: nat) returns (idx: Option<nat>)
      requires Valid() && i < |pairs| && score == list.Position(2 * i + 1)
      ensures idx == Cursor(i + 1)
    {
      idx := list.Next(score, 2 * i + 1);
    }

    /** The key of the last pair. */
    method LastKey() returns (idx: Option<nat>)
      requires Valid()
      ensures idx == Cursor(|pairs| - 1)
    {
      var score := list.Last();
      if score.None? {
        return None;
      }
      idx := list.Prev(score.value, 2 * |pairs| - 1);
    }

    method PrevKeyBeforeKey(idx: nat, ghost i: nat) returns (prev: Option<nat>)
      requires Valid() && i < |pairs| && idx == list.Position(2 * i)
      ensures prev == Cursor(i - 1)
    {
      var score := list.Prev(idx, 2 * i);
      if score.None? {
        return None;
      }
      prev := list.Prev(score.value, 2 * i - 1);
    }

    /** The first pair with a key. */
    method FindKey(key: bytes) returns (idx: Option<nat>, ghost at: Option<nat>)
      requires Valid()
      ensures at == FindPair(pairs, key, 0) && idx == if at.Some? then Cursor(at.value) else None
    {
      FindsKeys(list.items, text, pairs, key, 0);
      at := FindPair(pairs, key, 0);
      idx := list.FindAndSkip(key, 1);
    }

    /** Half of the number of elements. */
    method Size() returns (n: nat)
      requires Valid()
      modifies list, list.lp
      ensures Valid() && list.lp == old(list.lp) && list.items == old(list.items) && n == |pairs|
    {
      var elements := list.Size();
      n := elements / 2;
    }

    // ----- changing pairs -----

    /** The bytes of a pair. */
    ghost function PairBytes(i: nat): nat
      requires 2 * i + 1 < |list.items|
      reads this, list
    {
      |Entry(list.items[2 * i])| + |Entry(list.items[2 * i + 1])|
    }

    lemma PairSpan(i: nat)
      requires Valid() && i < |pairs|
      ensures list.Position(2 * i + 2) == list.Position(2 * i) + PairBytes(i)
    {
      ListPackLayout.EntryAt(list.entry, list.items, 2 * i);
      ListPackLayout.EntryAt(list.entry, list.items, 2 * i + 1);
      assert SameEntry(list.entry, list.items[2 * i]) && SameEntry(list.entry, list.items[2 * i + 1]);
    }

    /** The bytes of a key's pair, if it has one. */
    ghost function Freed(key: bytes): nat
      requires |list.items| == 2 * |pairs|
      reads this, list
    {
      var at := FindPair(pairs, key, 0);
      if at.Some? then PairBytes(at.value) else 0
    }

    /** The bytes without the key's pair, if it has one, leave room for a new one. */
    ghost predicate RoomInstead(key: Item, score: Z.Score)
      requires |list.items| == 2 * |pairs|
      reads this, list, list.lp
    {
      list.lp.Length - Freed(key) + |Entry(key)| + |Entry(text(score))| <= MAX_BYTES
    }

    method RemovePair(idx: nat, ghost i: nat)
      requires Valid() && i < |pairs| && idx == list.Position(2 * i)
      modifies this, list, list.lp
      ensures Valid() && (list.lp == old(list.lp) || fresh(list.lp)) && pairs == old(pairs)[..i] + old(pairs)[i + 1..]
        && list.lp.Length == old(list.lp.Length - PairBytes(i))
    {
      PairSpan(i);
      LaidCut(list.items, text, pairs, i);
      var deleted := list.DeleteRange(idx, 2 * i, 2);
      pairs := pairs[..i] + pairs[i + 1..];
    }

    /** Room for a further pair. */
    ghost predicate Room(key: Item, score: Z.Score)
      reads list, list.lp
    {
      list.lp.Length + |Entry(key)| + |Entry(text(score))| <= MAX_BYTES
    }

    /** Puts a pair before the one at an index, or leaves everything as it was. */
    method InsertPair(idx: nat, ghost i: nat, key: Item, score: Z.Score) returns (ok: bool)
      requires Valid() && i < |pairs| && idx == list.Position(2 * i)
      modifies this, list, list.lp
      ensures Valid() && (list.lp == old(list.lp) || fresh(list.lp)) && ok == old(Room(key, score))
      ensures pairs == if ok then old(pairs)[..i] + [Z.Entry(key, score)] + old(pairs)[i..] else old(pairs)
    {
      LaidPut(list.items, text, pairs, i, key, score);
      ok := InsertTwo(list, idx, 2 * i, key, text(score));
      if ok {
        pairs := pairs[..i] + [Z.Entry(key, score)] + pairs[i..];
      }
    }

    /** The same at the end. */
    method AppendPair(key: Item, score: Z.Score) returns (ok: bool)
      requires Valid()
      modifies this, list, list.lp
      ensures Valid() && (list.lp == old(list.lp) || fresh(list.lp)) && ok == old(Room(key, score))
      ensures pairs == if ok then old(pairs) + [Z.Entry(key, score)] else old(pairs)
    {
      LaidPut(list.items, text, pairs, |pairs|, key, score);
      assert pairs[..|pairs|] + [Z.Entry(key, score)] + pairs[|pairs|..] == pairs + [Z.Entry(key, score)];
      ok := AppendTwo(list, key, text(score));
      if ok {
        pairs := pairs + [Z.Entry(key, score)];
      }
    }
  }

  /** The elements determine the size. */
  lemma LengthOf(l: ListPack)
    requires l.Valid()
    ensures l.lp.Length == HEADER + |Core(l.entry, l.items)|
  {
  }

  /** Two elements in a row before an index; if the second has no room the first is taken out again. */
  method InsertTwo(l: ListPack, idx: nat, ghost i: nat, x: Item, y: Item) returns (ok: bool)
    requires l.Valid() && i < |l.items| && idx == l.Position(i)
    modifies l, l.lp
    ensures l.Valid() && (l.lp == old(l.lp) || fresh(l.lp)) && ok
      == (old(l.lp.Length) + |Entry(x)| + |Entry(y)| <= MAX_BYTES)
    ensures l.items == if ok then Insert2<Item>(old(l.items), i, x, y) else old(l.items)
  {
    ghost var was := l.items;
    ok := l.Insert(idx, i, x);
    if !ok {
      return;
    }
    InsertedOne<Item>(was, i, x, l.items);
    SamePlace(l, was, idx, i);
    var next := l.Next(idx, i);
    ok := l.Insert(next.value, i + 1, y);
    if ok {
      InsertedTwo<Item>(was, i, x, y);
    } else {
      var deleted := l.DeleteRange(idx, i, 1);
      TakenOut<Item>(was, i, x);
    }
  }

  lemma InsertedOne<T>(was: seq<T>, i: nat, x: T, now: seq<T>)
    requires i <= |was| && now == was[..i] + [x] + was[i..]
    ensures |now| == |was| + 1 && now[..i] == was[..i]
  {
  }

  lemma SamePlace(l: ListPack, was: seq<Item>, idx: nat, i: nat)
    requires i <= |was| && i <= |l.items| && l.items[..i] == was[..i] && idx == HEADER + Offset(l.entry, was, i)
    ensures idx == l.Position(i)
  {
  }

  lemma InsertedTwo<T>(was: seq<T>, i: nat, x: T, y: T)
    requires i <= |was|
    ensures var one := was[..i] + [x] + was[i..]; one[..i + 1] + [y] + one[i + 1..] == Insert2(was, i, x, y)
  {
    var one := was[..i] + [x] + was[i..];
    assert one[..i + 1] == was[..i] + [x] && one[i + 1..] == was[i..];
  }

  lemma TakenOut<T>(was: seq<T>, i: nat, x: T)
    requires i <= |was|
    ensures var one := was[..i] + [x] + was[i..]; one[..i] + one[i + 1..] == was
  {
    var one := was[..i] + [x] + was[i..];
    assert one[..i] == was[..i] && one[i + 1..] == was[i..];
  }

  method AppendTwo(l: ListPack, x: Item, y: Item) returns (ok: bool)
    requires l.Valid()
    modifies l, l.lp
    ensures l.Valid() && (l.lp == old(l.lp) || fresh(l.lp)) && ok
      == (old(l.lp.Length) + |Entry(x)| + |Entry(y)| <= MAX_BYTES)
    ensures l.items == if ok then Insert2<Item>(old(l.items), |old(l.items)|, x, y) else old(l.items)
  {
    ghost var was := l.items;
    ok := l.Append(x);
    if !ok {
      return;
    }
    var key := l.Last();
    ok := l.Append(y);
    if ok {
      AppendedTwo<Item>(was, x, y);
    } else {
      var deleted := l.DeleteRange(key.value, |was|, 1);
      AppendedOut<Item>(was, x);
    }
  }

  lemma AppendedTwo<T>(was: seq<T>, x: T, y: T)
    ensures was + [x] + [y] == Insert2(was, |was|, x, y)
  {
  }

  lemma AppendedOut<T>(was: seq<T>, x: T)
    ensures (was + [x])[..|was|] + (was + [x])[|was| + 1..] == was
  {
  }

  // ----- small lists have room -----

  predicate AllShort(items: seq<Item>, n: nat) {
    forall i :: 0 <= i < |items| ==> |items[i]| <= n
  }

  lemma EntryShort(s: Item)
    requires |s| <= LONGEST_SCORE
    ensures |Entry(s)| <= 80
  {
    EncodeSize(s);
  }

  lemma {:induction false} BodyShort(entry: Item -> bytes, items: seq<Item>)
    requires Standard(entry) && AllShort(items, LONGEST_SCORE)
    ensures |Body(entry, items)| <= 80 * |items|
  {
    if items != [] {
      assert SameEntry(entry, items[0]);
      EntryShort(items[0]);
      BodyShort(entry, items[1..]);
    }
  }

  predicate ShortKeys(pairs: seq<Pair>) {
    forall i :: 0 <= i < |pairs| ==> |pairs[i].key| <= LONGEST_SCORE
  }

  lemma ShortItems(items: seq<Item>, text: Z.Score -> Item, parse: Item -> Option<Z.Score>, pairs: seq<Pair>)
    requires Faithful(text, parse) && Laid(items, text, pairs) && ShortKeys(pairs)
    ensures AllShort(items, LONGEST_SCORE)
  {
    forall k | 0 <= k < |items| ensures |items[k]| <= LONGEST_SCORE {
      assert PairAt(items, text, pairs, k / 2) && ReadsBack(text, parse, pairs[k / 2].score);
      assert k == 2 * (k / 2) || k == 2 * (k / 2) + 1;
    }
  }

  /** A few pairs with short keys leave room for another. */
  lemma SmallHasRoom(pack: PairPack, key: Item, score: Z.Score)
    requires pack.Valid() && |pack.pairs| <= 1000 && ShortKeys(pack.pairs) && |key| <= LONGEST_SCORE
    ensures pack.Room(key, score) && pack.RoomInstead(key, score)
  {
    ShortItems(pack.list.items, pack.text, pack.parse, pack.pairs);
    BodyShort(pack.list.entry, pack.list.items);
    LengthOf(pack.list);
    EntryShort(key);
    assert ReadsBack(pack.text, pack.parse, score);
    EntryShort(pack.text(score));
  }
}
