/** Sorted sets (data_types/zset/zset.cpp): a listpack while small, a skiplist once large, the same set either way. */
module ZSet {
  import opened Bytes
  import opened ListPackLayout
  import opened PairPack
  import opened ZSetOrder
  import opened ZSetRanges
  import Links = SkiplistLinks
  import Skiplist
  import ZSetListPack
  import ZSetSkiplist

  const MAX_ENTRIES: nat := 128
  const MAX_ELEMENT: nat := 64

  /** Entries put in in order come one after the other. */
  lemma PutLast(s: seq<Entry>, i: nat)
    requires Listed(s) && i < |s|
    ensures Scored(s[..i], s[i].key, s[i].score) == s[..i + 1] && !Has(s[..i], s[i].key)
  {
    var front, e := s[..i], s[i];
    assert forall j :: 0 <= j < i ==> front[j].key != e.key;
    ScoreOfNone(front, e.key);
    DropNone(front, e.key);
    forall j | 0 <= j < i ensures !Before(e, front[j]) {
      BeforeOneWay(e, front[j]);
      assert Before(s[j], s[i]);
    }
    PutAt(front, e, i);
    assert front[..i] + [e] + front[i..] == s[..i + 1];
    assert Entry(e.key, e.score) == e;
  }

  /** Builds a skiplist storage by putting the entries of the listpack in, one by one. */
  method Expand(pairs: seq<Entry>, levels: nat -> nat) returns (z: ZSetSkiplist.ZSetSkiplist)
    requires Listed(pairs) && forall i :: 1 <= levels(i) <= Skiplist.MAX_LEVEL
    ensures fresh(z) && fresh(z.list) && fresh(z.list.nodes) && z.Valid() && z.list.keys == pairs
  {
    z := new ZSetSkiplist.ZSetSkiplist();
    for i := 0 to |pairs|
      invariant fresh(z) && fresh(z.list) && z.Valid() && z.list.keys == pairs[..i]
      invariant forall a :: 0 <= a < |z.list.nodes| ==> fresh(z.list.nodes[a])
    {
      PutLast(pairs, i);
      ghost var was := z.list.nodes;
      var inserted := z.InsertOrUpdate(pairs[i].key, pairs[i].score, levels(i));
      ghost var now := z.list.nodes;
      forall a | 0 <= a < |now| ensures fresh(now[a]) {
        assert now[a] in now && (now[a] in was ==> fresh(now[a]));
      }
    }
    assert pairs[..|pairs|] == pairs;
  }

  method Converted(c: ZSetListPack.ZSetListPack, levels: nat -> nat) returns (z: ZSetSkiplist.ZSetSkiplist)
    requires c.Valid() && forall i :: 1 <= levels(i) <= Skiplist.MAX_LEVEL
    ensures fresh(z) && fresh(z.list) && fresh(z.list.nodes) && z.Valid() && z.list.keys == c.pack.pairs
  {
    var pairs := c.Entries();
    z := Expand(pairs, levels);
  }

  // ----- what keeps a listpack small -----

  lemma {:induction false} DropSmall(s: seq<Entry>, key: bytes)
    requires ShortKeys(s)
    ensures ShortKeys(Drop(s, key)) && |Drop(s, key)| <= |s|
  {
    if s != [] {
      DropSmall(s[1..], key);
    }
  }

  lemma {:induction false} PutSmall(s: seq<Entry>, e: Entry)
    requires ShortKeys(s) && |e.key| <= MAX_ELEMENT
    ensures ShortKeys(Put(s, e)) && |Put(s, e)| == |s| + 1
  {
    if s != [] && !Before(e, s[0]) {
      PutSmall(s[1..], e);
    }
  }

  lemma {:induction false} DropShorter(s: seq<Entry>, key: bytes)
    requires Has(s, key)
    ensures |Drop(s, key)| == |s| - 1
  {
    var i :| 0 <= i < |s| && s[i].key == key;
    if s[0].key != key {
      assert s[1..][i - 1].key == key;
      DropShorter(s[1..], key);
    }
  }

  /** A score for a key adds at most one entry, and none if the key has one. */
  lemma ScoredSmall(s: seq<Entry>, key: bytes, score: Score)
    requires ShortKeys(s) && |key| <= MAX_ELEMENT
    ensures ShortKeys(Scored(s, key, score)) && |Scored(s, key, score)| <= |s| + if Has(s, key) then 0 else 1
  {
    DropSmall(s, key);
    PutSmall(Drop(s, key), Entry(key, score));
    if Has(s, key) {
      DropShorter(s, key);
    }
  }

  class ZSet {
    const text: Score -> Item
    const parse: Item -> Option<Score>
    var compact: ZSetListPack.ZSetListPack?
    var large: ZSetSkiplist.ZSetSkiplist?
    ghost var entries: seq<Entry>

    /** The objects of the listpack storage. */
    ghost function Compact(): set<object?>
      reads this, compact, if compact == null then {} else {compact.pack, compact.pack.list}
    {
      if compact == null then {} else {compact, compact.pack, compact.pack.list, compact.pack.list.lp}
    }

    /** The objects of the skiplist storage but for the nodes, and the nodes. */
    ghost function Large(): set<object?>
      reads this, large
    {
      if large == null then {} else {large, large.list}
    }

    ghost function Nodes(): seq<Links.Node<Entry>>
      reads this, large, if large == null then {} else {large.list}
    {
      if large == null then [] else large.list.nodes
    }

    /** Exactly one storage is in use and holds the entries; a listpack holds few and short ones. */
    ghost predicate Valid()
      reads this, compact, if compact == null then {} else {compact.pack, compact.pack.list}, Compact()
      reads large, Large(), Nodes()
    {
      && Faithful(text, parse) && (compact == null <==> large != null)
      && (compact != null ==> compact.Valid() && compact.pack.pairs == entries && |entries| <= MAX_ENTRIES && ShortKeys(entries))
      && (large != null ==> large.Valid() && large.list.keys == entries)
    }

    constructor (text: Score -> Item, parse: Item -> Option<Score>)
      requires Faithful(text, parse)
      ensures Valid() && entries == [] && fresh(Compact()) && large == null
    {
      this.text, this.parse := text, parse;
      compact := new ZSetListPack.ZSetListPack(text, parse);
      large, entries := null, [];
    }

    /** Turns the listpack into a skiplist. */
    method ConvertAndExpand(levels: nat -> nat)
      requires compact != null && large == null && compact.Valid() && Faithful(text, parse)
      requires forall i :: 1 <= levels(i) <= Skiplist.MAX_LEVEL
      modifies this
      ensures Valid() && entries == old(compact.pack.pairs) && compact == null && fresh(Large()) && fresh(Nodes())
    {
      var z := Converted(compact, levels);
      entries := compact.pack.pairs;
      compact, large := null, z;
    }

    /** The listpack's part of `InsertOrUpdate`. */
    method InsertCompact(key: bytes, score: Score, levels: nat -> nat) returns (inserted: bool)
      requires Valid() && compact != null && |key| <= MAX_ELEMENT && forall i :: 1 <= levels(i) <= Skiplist.MAX_LEVEL
      modifies this, Compact()
      ensures Valid() && entries == Scored(old(entries), key, score) && inserted == !Has(old(entries), key)
      ensures fresh(Compact() - old(Compact())) && fresh(Large()) && fresh(Nodes())
      ensures compact != null <==> |entries| <= 128
    {
      SmallHasRoom(compact.pack, key, score);
      ScoredSmall(entries, key, score);
      inserted := compact.InsertOrUpdate(key, score);
      entries := compact.pack.pairs;
      var n := compact.pack.Size();
      if inserted && n > MAX_ENTRIES {
        ConvertAndExpand(levels);
      }
    }

    /**
     * Gives a key a score. A long key or the 129th entry turns the listpack into a skiplist, which does not
     * show: the entries become what the score makes of them, whichever storage holds them.
     */
    method InsertOrUpdate(key: bytes, score: Score, levels: nat -> nat, level: nat) returns (inserted: bool)
      requires Valid() && 1 <= level <= Skiplist.MAX_LEVEL && forall i :: 1 <= levels(i) <= Skiplist.MAX_LEVEL
      modifies this, Compact(), Large(), Nodes()
      ensures Valid() && entries == Scored(old(entries), key, score) && inserted == !Has(old(entries), key)
      ensures fresh(Compact() - old(Compact())) && fresh(Large() - old(Large()))
      ensures forall n :: n in Nodes() ==> n in old(Nodes()) || fresh(n)
      ensures compact != null <==> old(compact) != null && |key| <= 64 && |entries| <= 128
    {
      if compact != null && |key| > MAX_ELEMENT {
        inserted := InsertLong(key, score, levels, level);
      } else if compact != null {
        inserted := InsertCompact(key, score, levels);
      } else {
        inserted := InsertLarge(key, score, level);
      }
    }

    /** The skiplist's part. */
    method InsertLarge(key: bytes, score: Score, level: nat) returns (inserted: bool)
      requires Valid() && large != null && 1 <= level <= Skiplist.MAX_LEVEL
      modifies this, Large(), Nodes()
      ensures Valid() && entries == Scored(old(entries), key, score) && inserted == !Has(old(entries), key)
      ensures compact == null && Large() == old(Large()) && forall n :: n in Nodes() ==> n in old(Nodes()) || fresh(n)
    {
      inserted := Rescore(key, score, level);
    }

    method Rescore(key: bytes, score: Score, level: nat) returns (inserted: bool)
      requires large != null && large.Valid() && large.list.keys == entries && 1 <= level <= Skiplist.MAX_LEVEL
      modifies `entries, Large(), Nodes()
      ensures compact == old(compact) && large == old(large)
      ensures large.Valid() && large.list.keys == entries && large.list == old(large.list)
      ensures entries == Scored(old(entries), key, score) && inserted == !Has(old(entries), key)
      ensures forall n :: n in large.list.nodes ==> n in old(large.list.nodes) || fresh(n)
    {
      inserted := large.InsertOrUpdate(key, score, level);
      entries := large.list.keys;
    }

    /** A long key: the listpack is converted first. */
    method InsertLong(key: bytes, score: Score, levels: nat -> nat, level: nat) returns (inserted: bool)
      requires Valid() && compact != null && 1 <= level <= Skiplist.MAX_LEVEL
      requires forall i :: 1 <= levels(i) <= Skiplist.MAX_LEVEL
      modifies this
      ensures Valid() && entries == Scored(old(entries), key, score) && inserted == !Has(old(entries), key)
      ensures compact == null && fresh(Large()) && forall n :: n in Nodes() ==> fresh(n)
    {
      ConvertAndExpand(levels);
      inserted := InsertLarge(key, score, level);
    }

    method Delete(key: bytes) returns (deleted: bool)
      requires Valid()
      modifies this, Compact(), Large(), Nodes()
      ensures Valid() && entries == Drop(old(entries), key) && deleted == Has(old(entries), key)
      ensures fresh(Compact() - old(Compact())) && Large() == old(Large())
        && forall n :: n in Nodes() ==> n in old(Nodes())
      ensures compact != null <==> old(compact) != null
    {
      if compact != null {
        deleted := DeleteCompact(key);
      } else {
        deleted := DeleteLarge(key);
      }
    }

    method DeleteCompact(key: bytes) returns (deleted: bool)
      requires Valid() && compact != null
      modifies this, Compact()
      ensures Valid() && entries == Drop(old(entries), key) && deleted == Has(old(entries), key)
      ensures fresh(Compact() - old(Compact())) && large == null
    {
      DropSmall(entries, key);
      deleted := compact.Delete(key);
      entries := compact.pack.pairs;
    }

    method DeleteLarge(key: bytes) returns (deleted: bool)
      requires large != null && large.Valid() && large.list.keys == entries
      modifies `entries, Large(), Nodes()
      ensures compact == old(compact) && large == old(large)
      ensures large.Valid() && large.list.keys == entries && large.list == old(large.list)
      ensures entries == Drop(old(entries), key) && deleted == Has(old(entries), key)
      ensures forall n :: n in large.list.nodes ==> n in old(large.list.nodes)
    {
      deleted := large.Delete(key);
      entries := large.list.keys;
    }

    /** The same ranks from either storage. */
    method Rank(key: bytes) returns (rank: Option<nat>)
      requires Valid()
      ensures rank.Some? ==> rank.value < |entries| && entries[rank.value].key == key
      ensures rank.None? ==> !Has(entries, key)
      ensures rank.Some? ==> RankOf(entries, rank.value)
    {
      RanksOf(entries);
      if compact != null {
        rank := compact.Rank(key);
      } else {
        rank := large.Rank(key);
      }
    }

    method Score(key: bytes) returns (score: Option<Score>)
      requires Valid()
      ensures score == ScoreOf(entries, key)
    {
      if compact != null {
        score := compact.Score(key);
      } else {
        score := large.Score(key);
      }
    }

    method RangeByRank(r: RankRange, reverse: bool, offset: nat, count: Option<nat>) returns (out: seq<Entry>)
      requires Valid()
      modifies Compact()
      ensures Valid() && entries == old(entries) && out == RankAnswer(entries, r, reverse, offset, count)
      ensures Ordered(out, reverse)
    {
      RankAnswerOrdered(entries, r, reverse, offset, count);
      if compact != null {
        out := compact.RangeByRank(r, reverse, offset, count);
      } else {
        out := large.RangeByRank(r, reverse, offset, count);
      }
    }

    /** The storages differ in one case: the skiplist has no answer where it would read its head's key. */
    method RangeByScore(r: ScoreRange, reverse: bool, offset: nat, count: Option<nat>) returns (out: Option<seq<Entry>>)
      requires Valid()
      ensures out.None? <==> large != null && reverse && count != Some(0) && ZSetSkiplist.AboveExcluded(entries, r,
        large.minKey)
      ensures out.Some? ==> out.value == ScoreAnswer(entries, r, reverse, offset, count) && Ordered(out.value, reverse)
    {
      ScoreAnswerOrdered(entries, r, reverse, offset, count);
      if compact != null {
        var keys := compact.RangeByScore(r, reverse, offset, count);
        out := Some(keys);
      } else {
        out := large.RangeByScore(r, reverse, offset, count);
      }
    }

    method Count(r: ScoreRange) returns (n: nat)
      requires Valid()
      ensures n == |ByScore(entries, r)|
    {
      if compact != null {
        n := compact.Count(r);
      } else {
        n := large.Count(r);
      }
    }
  }

  // ----- whole runs -----

  /** An operation, with the levels its skiplist nodes are given. */
  datatype Op = Add(key: bytes, score: Score, levels: nat -> nat, level: nat) | Remove(key: bytes)

  predicate LevelOk(n: nat) {
    1 <= n <= Skiplist.MAX_LEVEL
  }

  ghost predicate OpOk(op: Op) {
    op.Add? ==> LevelOk(op.level) && forall i :: LevelOk(op.levels(i))
  }

  /** What an operation makes of the entries; neither storage nor levels matter. */
  function Apply(s: seq<Entry>, op: Op): seq<Entry> {
    match op
    case Add(key, score, _, _) => Scored(s, key, score)
    case Remove(key) => Drop(s, key)
  }

  function ApplyAll(s: seq<Entry>, ops: seq<Op>): seq<Entry>
    decreases |ops|
  {
    if ops == [] then s else ApplyAll(Apply(s, ops[0]), ops[1..])
  }

  /** After this operation a listpack still holds the entries. */
  predicate KeepsListPack(s: seq<Entry>, op: Op) {
    op.Add? ==> |op.key| <= 64 && |Apply(s, op)| <= 128
  }

  predicate AllKeepListPack(s: seq<Entry>, ops: seq<Op>)
    decreases |ops|
  {
    ops == [] || (KeepsListPack(s, ops[0]) && AllKeepListPack(Apply(s, ops[0]), ops[1..]))
  }

  method Do(z: ZSet, op: Op)
    requires z.Valid() && OpOk(op)
    modifies z, z.Compact(), z.Large(), z.Nodes()
    ensures z.Valid() && z.entries == Apply(old(z.entries), op)
    ensures fresh(z.Compact() - old(z.Compact())) && fresh(z.Large() - old(z.Large()))
    ensures forall n :: n in z.Nodes() ==> n in old(z.Nodes()) || fresh(n)
    ensures z.compact != null <==> old(z.compact) != null && KeepsListPack(old(z.entries), op)
  {
    match op
    case Add(key, score, levels, level) =>
      assert forall i :: LevelOk(levels(i));
      var inserted := z.InsertOrUpdate(key, score, levels, level);
    case Remove(key) =>
      var deleted := z.Delete(key);
  }

  /** The objects of a sorted set are among these. */
  ghost predicate Within(z: ZSet, repr: set<object?>)
    reads z, z.compact, if z.compact == null then {} else {z.compact.pack, z.compact.pack.list}
    reads z.large, z.Large()
  {
    z.Compact() <= repr && z.Large() <= repr && forall n :: n in z.Nodes() ==> n in repr
  }

  method DoWithin(z: ZSet, op: Op, ghost repr: set<object?>) returns (ghost now: set<object?>)
    requires z.Valid() && OpOk(op) && Within(z, repr)
    modifies z, repr
    ensures z.Valid() && z.entries == Apply(old(z.entries), op) && Within(z, now) && fresh(now - repr)
    ensures z.compact != null <==> old(z.compact) != null && KeepsListPack(old(z.entries), op)
  {
    Do(z, op);
    ghost var nodes: set<object?> := set n | n in z.Nodes();
    forall o | o in nodes ensures o in repr || fresh(o) {
    }
    now := repr + (z.Compact() + z.Large() + nodes);
  }

  /** After any operations the entries, and so every answer, and the storage depend on the operations alone. */
  method Run(z: ZSet, ops: seq<Op>, ghost repr: set<object?>)
    requires z.Valid() && Within(z, repr) && forall i :: 0 <= i < |ops| ==> OpOk(ops[i])
    modifies z, repr
    ensures z.Valid() && z.entries == ApplyAll(old(z.entries), ops)
    ensures z.compact != null <==> old(z.compact) != null && AllKeepListPack(old(z.entries), ops)
    decreases |ops|
  {
    if ops != [] {
      ghost var now := DoWithin(z, ops[0], repr);
      Run(z, ops[1..], now);
    }
  }
}
