/**
 * Concrete runs in which the skiplist of memory/skiplist.h, and a sorted set kept in one, do not do what is
 * expected of them.
 */
module SkiplistCases {
  import opened Bytes
  import opened Order
  import opened Ranges
  import opened Skiplist
  import opened ZSetOrder
  import opened ZSetRanges
  import ZSetSkiplist

  predicate Smaller(a: int, b: int) {
    a < b
  }

  /** Changing 1 to 2 beside a 2 is done in place, and leaves 2 twice. */
  lemma UpdateDuplicates()
    ensures StrictOrder(Smaller) && Sorted(Smaller, [1, 2])
    ensures InPlace(Smaller, [1, 2], 0, 2) && [1, 2][0 := 2] == [2, 2] && !Sorted(Smaller, [2, 2])
  {
    var keys := [2, 2];
    assert !Smaller(keys[0], keys[1]);
  }

  method OneKey() returns (list: Skiplist<int>)
    ensures list.Valid() && list.less == Smaller && list.keys == [1] && fresh(list) && fresh(list.nodes)
  {
    UpdateDuplicates();
    list := new Skiplist<int>(Smaller, 1);
    var node := list.Insert(1, 1);
  }

  method TwoKeys() returns (list: Skiplist<int>)
    ensures list.Valid() && list.less == Smaller && list.keys == [1, 2] && fresh(list) && fresh(list.nodes)
  {
    list := OneKey();
    var node := list.Insert(2, 1);
    assert Smaller(list.keys[0], list.keys[1]);
  }

  /** The same with the list itself: it is no longer sorted, and holds a key twice. */
  method UpdateStoresTwice() returns (list: Skiplist<int>)
    ensures list.keys == [2, 2] && !list.Valid()
  {
    list := TwoKeys();
    var found, c := list.Update(1, 2, 1);
    assert !Smaller(list.keys[0], list.keys[1]);
  }

  /** The three highest of two keys: the third that is returned is the head's. */
  method DescendingPastEnd() returns (list: Skiplist<int>, out: seq<int>)
    ensures list.Valid() && list.keys == [1, 2] && out == [2, 1, list.head.key]
  {
    list := TwoKeys();
    var ks := [list.head.key] + list.keys;
    assert Reverse(ks) == [2, 1, list.head.key];
    out := list.RevRangeByRank(Ranks(0, 2, false, false), 0, None);
    assert Reverse(ks)[0..3] == Reverse(ks);
  }

  const HIGH := Entry([97], 5)

  /** Scores up to 3, but not 3. */
  const LOW := ScoreRange(0, 3, false, true)

  /** No entry has a score in the range, so the answer should be empty; the descending query has none. */
  lemma NothingBelowExcluded()
    ensures ZSetSkiplist.AboveExcluded([HIGH], LOW, Some([97])) && ScoreAnswer([HIGH], LOW, true, 0, None) == []
  {
    assert Filter([HIGH], e => InScores(LOW, e)) == [];
  }

  method DescendingReadsHead() returns (out: Option<seq<Entry>>)
    ensures out.None?
  {
    var z := new ZSetSkiplist.ZSetSkiplist();
    var inserted := z.InsertOrUpdate([97], 5, 1);
    assert z.list.keys == [HIGH];
    out := z.RangeByScore(LOW, true, 0, None);
  }
}
