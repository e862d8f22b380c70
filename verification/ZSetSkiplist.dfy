/**
 * The skiplist storage of sorted sets (data_types/zset/zset_skiplist.cpp): a dictionary of scores, a skiplist
 * of entries, and the least and greatest key.
 */
module ZSetSkiplist {
  import opened Bytes
  import opened Order
  import opened Ranges
  import opened ZSetOrder
  import opened ZSetRanges
  import Skiplist
  import Links = SkiplistLinks

  ghost predicate Scores(dict: map<bytes, Score>, s: seq<Entry>, k: bytes) {
    ScoreOf(s, k) == if k in dict then Some(dict[k]) else None
  }

  /** The dictionary gives every key's score. */
  ghost predicate Agrees(dict: map<bytes, Score>, s: seq<Entry>) {
    forall k :: Scores(dict, s, k)
  }

  /** The dictionary and the bounds fit the list. */
  ghost predicate Kept(dict: map<bytes, Score>, s: seq<Entry>, low: Option<bytes>, high: Option<bytes>) {
    OneEach(s) && Agrees(dict, s) && Bound(s, low, high)
  }

  lemma Rescored(s: seq<Entry>, c: nat, e: Entry, now: seq<Entry>)
    requires Listed(s) && c < |s| && s[c].key == e.key && Sorted(Before, now) && Skiplist.Replaced(s, now, c, e)
    ensures now == Put(Drop(s, e.key), e)
  {
    var others := Skiplist.Without(s, c);
    RescoredIsNew(s, c, e);
    DropAt(s, c);
    var d: nat :| d <= |others| && now == others[..d] + [e] + others[d..];
    InsertedIsPut(others, e, d, now);
  }

  lemma AgreesPut(dict: map<bytes, Score>, s: seq<Entry>, e: Entry)
    requires Agrees(dict, s) && e.key !in dict
    ensures !Has(s, e.key) && Agrees(dict[e.key := e.score], Put(s, e))
  {
    assert Scores(dict, s, e.key);
    ScoreOfNone(s, e.key);
    var d, t := dict[e.key := e.score], Put(s, e);
    forall k ensures Scores(d, t, k) {
      assert Scores(dict, s, k);
      ScoreOfPut(s, e, k);
    }
  }

  lemma AgreesDrop(dict: map<bytes, Score>, s: seq<Entry>, c: nat)
    requires Agrees(dict, s) && OneEach(s) && c < |s|
    ensures Agrees(dict - {s[c].key}, Drop(s, s[c].key))
  {
    var d, t := dict - {s[c].key}, Drop(s, s[c].key);
    forall k ensures Scores(d, t, k) {
      assert Scores(dict, s, k);
      ScoreOfDrop(s, c, k);
    }
  }

  lemma DropThenSet(dict: map<bytes, Score>, key: bytes, score: Score)
    ensures (dict - {key})[key := score] == dict[key := score]
  {
  }

  /** Where the dictionary says a key is, the list has it with that score. */
  lemma HeldAt(dict: map<bytes, Score>, s: seq<Entry>, key: bytes) returns (c: nat)
    requires Agrees(dict, s) && OneEach(s) && key in dict
    ensures c < |s| && s[c] == Entry(key, dict[key])
  {
    assert Scores(dict, s, key);
    ScoreOfNone(s, key);
    c :| c < |s| && s[c].key == key;
    ScoreOfAt(s, c);
  }

  /** Everything a new score changes. */
  lemma RescoreAll(dict: map<bytes, Score>, s: seq<Entry>, e: Entry, low: Option<bytes>, high: Option<bytes>)
    requires Sorted(Before, s) && Kept(dict, s, low, high) && e.key in dict
    ensures Kept(dict[e.key := e.score], Put(Drop(s, e.key), e), Lower(low, e.key), Higher(high, e.key))
  {
    var c := HeldAt(dict, s, e.key);
    DropAt(s, c);
    CutListed(s, c);
    AgreesDrop(dict, s, c);
    PutListed(Drop(s, e.key), e);
    AgreesPut(dict - {e.key}, Drop(s, e.key), e);
    DropThenSet(dict, e.key, e.score);
    RescoreKeys(s, c, e);
    assert Has(s, s[c].key);
    SameBound(s, Put(Drop(s, e.key), e), e.key, low, high);
  }

  /** Everything a new key changes. */
  lemma AddAll(dict: map<bytes, Score>, s: seq<Entry>, e: Entry, low: Option<bytes>, high: Option<bytes>)
    requires Sorted(Before, s) && Kept(dict, s, low, high) && e.key !in dict
    ensures Kept(dict[e.key := e.score], Put(s, e), Lower(low, e.key), Higher(high, e.key)) && e !in s
      && Drop(s, e.key) == s
  {
    AgreesPut(dict, s, e);
    PutListed(s, e);
    WidenBound(s, e, low, high);
    DropNone(s, e.key);
    assert forall i :: 0 <= i < |s| ==> s[i].key != e.key;
  }

  /** What the dictionary tells about the list. */
  lemma DictTells(dict: map<bytes, Score>, s: seq<Entry>, low: Option<bytes>, high: Option<bytes>, key: bytes)
    requires Kept(dict, s, low, high)
    ensures (key in dict <==> Has(s, key)) && ScoreOf(s, key) == (if key in dict then Some(dict[key]) else None)
    ensures key in dict ==> Entry(key, dict[key]) in s
  {
    assert Scores(dict, s, key);
    ScoreOfNone(s, key);
    if key in dict {
      var c := HeldAt(dict, s, key);
    }
  }

  /** Whose keys the bounds are, if the list has any. */
  lemma BoundsOfDict(dict: map<bytes, Score>, s: seq<Entry>, low: Option<bytes>, high: Option<bytes>)
    requires Agrees(dict, s) && Extremes(dict.Keys, low, high)
    ensures Bound(s, low, high)
  {
    forall k ensures k in dict <==> Has(s, k) {
      assert Scores(dict, s, k);
      ScoreOfNone(s, k);
    }
    if s != [] {
      assert Has(s, s[0].key);
    }
  }

  /** The least and the greatest of some keys. */
  ghost predicate Extremes(keys: set<bytes>, low: Option<bytes>, high: Option<bytes>) {
    if keys == {} then low.None? && high.None?
    else
      && low.Some? && high.Some? && low.value in keys && high.value in keys
      && forall k :: k in keys ==> !Lex(k, low.value) && !Lex(high.value, k)
  }

  lemma ExtremesMore(keys: set<bytes>, low: Option<bytes>, high: Option<bytes>, k: bytes)
    requires Extremes(keys, low, high)
    ensures Extremes(keys + {k}, Lower(low, k), Higher(high, k))
  {
    forall j | j in keys + {k} ensures !Lex(j, Lower(low, k).value) && !Lex(Higher(high, k).value, j) {
      LowerBounds(low, k, j);
      HigherBounds(high, k, j);
    }
  }

  /** Every entry has a score above an excluded maximum, or that score and another key than the least. */
  ghost predicate AboveExcluded(s: seq<Entry>, r: ScoreRange, low: Option<bytes>) {
    && s != [] && r.maxex && ValidScores(r)
    && forall e :: e in s ==> e.score > r.max || (e.score == r.max && Some(e.key) != low)
  }

  /** What a descending query of the skiplist returns, in terms of scores. */
  lemma DescendingAnswer(s: seq<Entry>, r: ScoreRange, low: Option<bytes>, high: Option<bytes>, offset: nat,
      count: Option<nat>)
    requires s != [] && Bound(s, low, high) && ValidScores(r)
    ensures RevSelect(Before, EntryBounds(r, low.value, high.value), s, offset, count) ==
      if count != Some(0) && AboveExcluded(s, r, low) then None else Some(ScoreAnswer(s, r, true, offset, count))
  {
    SelectIsByScore(s, r, low, high);
    BoundsValid(r, low.value, high.value);
    if r.maxex {
      AllAbove(s, r, low, high);
    }
  }

  lemma OneNew(was: seq<Links.Node<Entry>>, c: nat, node: Links.Node<Entry>, now: seq<Links.Node<Entry>>)
    requires c <= |was| && now == Links.InsertNode(was, c, node)
    ensures forall n :: n in now ==> n in was || n == node
  {
  }

  lemma CutIsDrop(s: seq<Entry>, e: Entry, now: seq<Entry>, ns: seq<Links.Node<Entry>>, nodes: seq<Links.Node<Entry>>)
    requires OneEach(s)
    requires exists c: nat :: Cut(s, e, now, ns, nodes, c)
    ensures now == Drop(s, e.key) && forall n :: n in nodes ==> n in ns
  {
    var c: nat :| Cut(s, e, now, ns, nodes, c);
    DropAt(s, c);
  }

  /** An entry and its node are gone from list and nodes. */
  ghost predicate Cut(s: seq<Entry>, e: Entry, now: seq<Entry>, ns: seq<Links.Node<Entry>>,
      nodes: seq<Links.Node<Entry>>, c: nat) {
    && c < |s| && s[c] == e && now == Skiplist.Without(s, c) && c + 1 < |ns| && nodes == Skiplist.Without(ns, c + 1)
  }

  lemma AddedIsPut(s: seq<Entry>, e: Entry, now: seq<Entry>, ns: seq<Links.Node<Entry>>, node: Links.Node<Entry>,
      nodes: seq<Links.Node<Entry>>)
    requires Sorted(Before, now)
    requires exists c: nat :: c <= |s| && now == s[..c] + [e] + s[c..] && c + 1 <= |ns| && nodes == Links.InsertNode(ns,
      c + 1, node)
    ensures now == Put(s, e) && forall n :: n in nodes ==> n in ns || n == node
  {
    var c: nat :| c <= |s| && now == s[..c] + [e] + s[c..] && c + 1 <= |ns| && nodes == Links.InsertNode(ns, c + 1,
      node);
    InsertedIsPut(s, e, c, now);
    OneNew(ns, c + 1, node, nodes);
  }

  class ZSetSkiplist {
    var dict: map<bytes, Score>
    var list: Skiplist.Skiplist<Entry>
    var minKey: Option<bytes>
    var maxKey: Option<bytes>

    ghost predicate Valid()
      reads this, list, list.nodes
    {
      list.Valid() && list.less == Before && Kept(dict, list.keys, minKey, maxKey)
    }

    constructor ()
      ensures Valid() && list.keys == [] && fresh(list) && fresh(list.nodes)
    {
      BeforeIsOrder();
      list := new Skiplist.Skiplist<Entry>(Before, 1);
      dict, minKey, maxKey := map[], None, None;
    }

    /** Gives an entry of the skiplist another score. */
    method Rescore(was: Entry, e: Entry, level: nat)
      requires list.Valid() && list.less == Before && OneEach(list.keys) && was in list.keys && was.key == e.key
        && 1 <= level <= Skiplist.MAX_LEVEL
      modifies list, list.nodes
      ensures list.Valid() && list.keys == Put(Drop(old(list.keys), e.key), e)
        && forall n :: n in list.nodes ==> n in old(list.nodes) || fresh(n)
    {
      ghost var s := list.keys;
      var found, c := list.Update(was, e, level);
      RescoredIsNew(s, c, e);
      if Skiplist.InPlace(Before, s, c, e) {
        ChangedIsPut(s, c, e);
      } else {
        Rescored(s, c, e, list.keys);
      }
    }

    method Add(e: Entry, level: nat)
      requires list.Valid() && list.less == Before && e !in list.keys && 1 <= level <= Skiplist.MAX_LEVEL
      modifies list, list.nodes
      ensures list.Valid() && list.keys == Put(old(list.keys), e)
        && forall n :: n in list.nodes ==> n in old(list.nodes) || fresh(n)
    {
      ghost var s, ns := list.keys, list.nodes;
      var node := list.Insert(e, level);
      AddedIsPut(s, e, list.keys, ns, node, list.nodes);
    }

    /** Puts an entry in, in place of one with its key if there is one. */
    method Change(e: Entry, level: nat)
      requires Valid() && 1 <= level <= Skiplist.MAX_LEVEL
      modifies list, list.nodes
      ensures list.Valid() && list.keys == Put(Drop(old(list.keys), e.key), e)
        && forall n :: n in list.nodes ==> n in old(list.nodes) || fresh(n)
      ensures Kept(dict[e.key := e.score], list.keys, Lower(minKey, e.key), Higher(maxKey, e.key))
    {
      if e.key in dict {
        DictTells(dict, list.keys, minKey, maxKey, e.key);
        RescoreAll(dict, list.keys, e, minKey, maxKey);
        Rescore(Entry(e.key, dict[e.key]), e, level);
      } else {
        AddAll(dict, list.keys, e, minKey, maxKey);
        Add(e, level);
      }
    }

    /** Gives a key a score: a new entry, a changed one, or nothing to do. */
    method InsertOrUpdate(key: bytes, score: Score, level: nat) returns (inserted: bool)
      requires Valid() && 1 <= level <= Skiplist.MAX_LEVEL
      modifies this, list, list.nodes
      ensures Valid() && list == old(list) && inserted == !Has(old(list.keys), key)
        && list.keys == Scored(old(list.keys), key, score)
      ensures forall n :: n in list.nodes ==> n in old(list.nodes) || fresh(n)
    {
      DictTells(dict, list.keys, minKey, maxKey, key);
      if key in dict && dict[key] == score {
        return false;
      }
      inserted := key !in dict;
      Change(Entry(key, score), level);
      Note(key, score);
    }

    /** Sets a key's score in the dictionary and widens the bounds. */
    method Note(key: bytes, score: Score)
      requires list.Valid() && list.less == Before && Kept(dict[key := score], list.keys, Lower(minKey, key),
        Higher(maxKey, key))
      modifies `dict, `minKey, `maxKey
      ensures Valid()
    {
      dict := dict[key := score];
      minKey, maxKey := Lower(minKey, key), Higher(maxKey, key);
    }

    /** Takes the entry at a rank out of the skiplist. */
    method Remove(e: Entry)
      requires list.Valid() && list.less == Before && OneEach(list.keys) && e in list.keys
      modifies list, list.nodes
      ensures list.Valid() && list.keys == Drop(old(list.keys), e.key)
      ensures forall n :: n in list.nodes ==> n in old(list.nodes)
    {
      ghost var s, ns := list.keys, list.nodes;
      var found := list.Delete(e);
      ghost var c: nat :| c < |s| && s[c] == e && list.keys == Skiplist.Without(s, c)
        && list.nodes == Skiplist.Without(ns, c + 1);
      assert Cut(s, e, list.keys, ns, list.nodes, c);
      CutIsDrop(s, e, list.keys, ns, list.nodes);
    }

    /** Finds the least and greatest key by going over the dictionary. */
    method RecomputeMinMaxKeys()
      requires list.Valid() && list.less == Before && OneEach(list.keys) && Agrees(dict, list.keys)
      modifies `minKey, `maxKey
      ensures Valid()
    {
      var low: Option<bytes>, high: Option<bytes> := None, None;
      var left := dict.Keys;
      while left != {}
        invariant left <= dict.Keys && Extremes(dict.Keys - left, low, high)
        decreases left
      {
        var k :| k in left;
        ExtremesMore(dict.Keys - left, low, high, k);
        assert dict.Keys - (left - {k}) == (dict.Keys - left) + {k};
        low, high := Lower(low, k), Higher(high, k);
        left := left - {k};
      }
      assert dict.Keys - left == dict.Keys;
      BoundsOfDict(dict, list.keys, low, high);
      minKey, maxKey := low, high;
    }

    /** Forgets a key in the dictionary. */
    method Forget(key: bytes)
      requires list.Valid() && list.less == Before && OneEach(list.keys) && Agrees(dict - {key}, list.keys)
      requires minKey != Some(key) && maxKey != Some(key) ==> Bound(list.keys, minKey, maxKey)
      modifies `dict, `minKey, `maxKey
      ensures Valid()
    {
      dict := dict - {key};
      if minKey == Some(key) || maxKey == Some(key) {
        RecomputeMinMaxKeys();
      }
    }

    lemma WithoutKey(key: bytes)
      requires Valid() && key in dict
      ensures OneEach(Drop(list.keys, key)) && Agrees(dict - {key}, Drop(list.keys, key))
      ensures minKey != Some(key) && maxKey != Some(key) ==> Bound(Drop(list.keys, key), minKey, maxKey)
    {
      var s := list.keys;
      var c := HeldAt(dict, s, key);
      AgreesDrop(dict, s, c);
      DropAt(s, c);
      CutListed(s, c);
      if minKey != Some(key) && maxKey != Some(key) {
        NarrowBound(s, c, minKey, maxKey);
      }
    }

    method Delete(key: bytes) returns (deleted: bool)
      requires Valid()
      modifies this, list, list.nodes
      ensures Valid() && list == old(list) && deleted == Has(old(list.keys), key)
        && list.keys == Drop(old(list.keys), key)
      ensures forall n :: n in list.nodes ==> n in old(list.nodes)
    {
      DictTells(dict, list.keys, minKey, maxKey, key);
      if key !in dict {
        DropNone(list.keys, key);
        return false;
      }
      WithoutKey(key);
      Remove(Entry(key, dict[key]));
      Forget(key);
      return true;
    }

    method Score(key: bytes) returns (score: Option<Score>)
      requires Valid()
      ensures score == ScoreOf(list.keys, key)
    {
      DictTells(dict, list.keys, minKey, maxKey, key);
      score := if key in dict then Some(dict[key]) else None;
    }

    /** The rank of a key: the number of entries before its own. */
    method Rank(key: bytes) returns (rank: Option<nat>)
      requires Valid()
      ensures rank.Some? ==> rank.value < |list.keys| && list.keys[rank.value].key == key
      ensures rank.None? ==> !Has(list.keys, key)
    {
      DictTells(dict, list.keys, minKey, maxKey, key);
      if key !in dict {
        return None;
      }
      rank := list.FindRankOfKey(Entry(key, dict[key]));
    }

    method RangeByRank(r: RankRange, reverse: bool, offset: nat, count: Option<nat>) returns (out: seq<Entry>)
      requires Valid()
      ensures out == RankAnswer(list.keys, r, reverse, offset, count)
    {
      var n := Normalize(r, list.size);
      if n.None? {
        return [];
      }
      if reverse {
        HeadHidden(list.keys, list.head.key, n.value);
        out := list.RevRangeByRank(n.value, offset, count);
      } else {
        out := list.RangeByRank(n.value, offset, count);
      }
    }

    /** The entries that stand for a score range's bounds, and what they select. */
    method ToBounds(r: ScoreRange) returns (bounds: Bounds<Entry>)
      requires Valid() && list.keys != [] && ValidScores(r)
      ensures bounds == EntryBounds(r, minKey.value, maxKey.value) && ValidBounds(Before, bounds)
        && Select(Before, bounds, list.keys) == ByScore(list.keys, r)
    {
      SelectIsByScore(list.keys, r, minKey, maxKey);
      BoundsValid(r, minKey.value, maxKey.value);
      bounds := EntryBounds(r, minKey.value, maxKey.value);
    }

    /**
     * The entries with a score in a range. There is no answer to a descending query with an excluded maximum
     * when every entry has a higher score, or that score and another key than the least.
     */
    method RangeByScore(r: ScoreRange, reverse: bool, offset: nat, count: Option<nat>) returns (out: Option<seq<Entry>>)
      requires Valid()
      ensures out.None? <==> reverse && count != Some(0) && AboveExcluded(list.keys, r, minKey)
      ensures out.Some? ==> out.value == ScoreAnswer(list.keys, r, reverse, offset, count)
    {
      if list.size == 0 || r.min > r.max || (r.min == r.max && (r.minex || r.maxex)) {
        NoScores(r);
        return Some([]);
      }
      var bounds := ToBounds(r);
      if reverse {
        DescendingAnswer(list.keys, r, minKey, maxKey, offset, count);
        out := list.RevRangeByKey(bounds, offset, count);
      } else {
        var keys := list.RangeByKey(bounds, offset, count);
        out := Some(keys);
      }
    }

    lemma NoScores(r: ScoreRange)
      requires list.keys == [] || !ValidScores(r)
      ensures ByScore(list.keys, r) == []
    {
      if list.keys != [] {
        InvalidScores(list.keys, r);
      }
    }

    method Count(r: ScoreRange) returns (n: nat)
      requires Valid()
      ensures n == |ByScore(list.keys, r)|
    {
      if list.size == 0 || r.min > r.max || (r.min == r.max && (r.minex || r.maxex)) {
        NoScores(r);
        return 0;
      }
      var bounds := ToBounds(r);
      n := list.Count(bounds);
    }
  }
}
