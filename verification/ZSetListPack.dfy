/** The listpack storage of sorted sets (data_types/zset/zset_listpack.cpp): key and score pairs kept in order. */
module ZSetListPack {
  import opened Bytes
  import opened ListPackLayout
  import opened PairPack
  import opened Order
  import opened Ranges
  import opened ZSetOrder
  import opened ZSetRanges

  lemma Gone(s: seq<Entry>, c: nat)
    requires Listed(s) && c < |s|
    ensures Listed(Drop(s, s[c].key)) && !Has(Drop(s, s[c].key), s[c].key) && Drop(s, s[c].key) == s[..c] + s[c + 1..]
  {
    DropAt(s, c);
    CutListed(s, c);
  }

  // ----- score ranges of a sorted list -----

  /** In a sorted list the entries below a minimum come first. */
  lemma TooLowFirst(s: seq<Entry>, r: ScoreRange, c: nat)
    requires Sorted(Before, s) && c <= |s| && (forall i :: 0 <= i < c ==> !AtLeast(r, s[i]))
      && (c < |s| ==> AtLeast(r, s[c]))
    ensures forall i :: c <= i < |s| ==> AtLeast(r, s[i])
  {
    forall i | c <= i < |s| ensures AtLeast(r, s[i]) {
      assert i == c || Before(s[c], s[i]);
    }
  }

  /** In a sorted list the entries above a maximum come last. */
  lemma TooHighLast(s: seq<Entry>, r: ScoreRange, c: nat)
    requires Sorted(Before, s) && c < |s| && !AtMost(r, s[c])
    ensures forall i :: c <= i < |s| ==> !AtMost(r, s[i])
  {
    forall i | c <= i < |s| ensures !AtMost(r, s[i]) {
      assert i == c || Before(s[c], s[i]);
    }
  }

  lemma LowEnough(s: seq<Entry>, r: ScoreRange, c: nat)
    requires Sorted(Before, s) && c < |s| && AtMost(r, s[c])
    ensures forall i :: 0 <= i <= c ==> AtMost(r, s[i])
  {
    forall i | 0 <= i <= c ensures AtMost(r, s[i]) {
      assert i == c || Before(s[i], s[c]);
    }
  }

  /** The entries `lo` to `hi` are those of a score range. */
  lemma SliceIsByScore(s: seq<Entry>, r: ScoreRange, lo: nat, hi: nat)
    requires lo <= hi <= |s| && (forall i :: 0 <= i < |s| ==> (InScores(r, s[i]) <==> lo <= i < hi))
    ensures ByScore(s, r) == s[lo..hi]
  {
    FilterSlice(s, e => InScores(r, e), lo, hi);
  }

  lemma NoCross(s: seq<Entry>, r: ScoreRange, lo: nat, hi: nat)
    requires ValidScores(r) && lo <= |s| && hi <= |s|
    requires forall i :: 0 <= i < |s| ==> (AtLeast(r, s[i]) <==> lo <= i) && (AtMost(r, s[i]) <==> i < hi)
    ensures lo <= hi
  {
    assert hi < |s| ==> !AtMost(r, s[hi]);
  }

  class ZSetListPack {
    const pack: PairPack

    ghost predicate Valid()
      reads this, pack, pack.list, pack.list.lp
    {
      pack.Valid() && Listed(pack.pairs)
    }

    constructor (text: Score -> Item, parse: Item -> Option<Score>)
      requires Faithful(text, parse)
      ensures Valid() && pack.pairs == [] && fresh(pack) && fresh(pack.list) && fresh(pack.list.lp) && pack.text == text
        && pack.parse == parse
    {
      pack := new PairPack(text, parse);
    }

    /** Puts an entry before the first one that comes after it, else at the end. */
    method InsertInOrder(key: Item, score: Score) returns (ok: bool)
      requires Valid() && !Has(pack.pairs, key)
      modifies pack, pack.list, pack.list.lp
      ensures Valid() && (pack.list.lp == old(pack.list.lp) || fresh(pack.list.lp)) && ok == old(pack.Room(key, score))
      ensures pack.pairs == if ok then Put(old(pack.pairs), Entry(key, score)) else old(pack.pairs)
    {
      PutListed(pack.pairs, Entry(key, score));
      var idx;
      ghost var i;
      idx, i := FindPlace(pack, Entry(key, score));
      PutAt(pack.pairs, Entry(key, score), i);
      if idx.Some? {
        ok := pack.InsertPair(idx.value, i, key, score);
      } else {
        assert pack.pairs[..i] + [Entry(key, score)] + pack.pairs[i..] == pack.pairs + [Entry(key, score)];
        ok := pack.AppendPair(key, score);
      }
    }

    /** Takes a key's pair out, unless its score is the given one. */
    method RemoveOther(key: Item, score: Score) returns (had: bool, same: bool)
      requires Valid()
      modifies pack, pack.list, pack.list.lp
      ensures Valid() && (pack.list.lp == old(pack.list.lp) || fresh(pack.list.lp)) && had == Has(old(pack.pairs), key)
      ensures same == (ScoreOf(old(pack.pairs), key) == Some(score))
      ensures pack.pairs == if same then old(pack.pairs) else Drop(old(pack.pairs), key)
      ensures if same then had else !Has(pack.pairs, key)
      ensures !same ==> pack.list.lp.Length == old(pack.list.lp.Length - pack.Freed(key))
    {
      ghost var was := pack.pairs;
      var idx;
      ghost var at;
      idx, at := pack.FindKey(key);
      ScoreOfNone(was, key);
      if idx.None? {
        DropNone(was, key);
        return false, false;
      }
      ScoreOfAt(was, at.value);
      Gone(was, at.value);
      var e, next := pack.EntryAt(idx.value, at.value);
      had, same := true, e.score == score;
      if !same {
        pack.RemovePair(idx.value, at.value);
      }
    }

    /** The key has the score already, or there is room for the new pair in place of the old one. */
    ghost predicate Accepts(key: Item, score: Score)
      requires pack.Valid()
      reads this, pack, pack.list, pack.list.lp
    {
      ScoreOf(pack.pairs, key) == Some(score) || pack.RoomInstead(key, score)
    }

    /**
     * Gives a key a score: its old pair goes, unless the score is the same. Where the new pair has no room
     * in its place, and only there, the key loses its score.
     */
    method InsertOrUpdate(key: Item, score: Score) returns (inserted: bool)
      requires Valid()
      modifies pack, pack.list, pack.list.lp
      ensures Valid() && (pack.list.lp == old(pack.list.lp) || fresh(pack.list.lp))
      ensures inserted == old(Accepts(key, score) && !Has(pack.pairs, key))
      ensures pack.pairs == if old(Accepts(key, score)) then Scored(old(pack.pairs), key, score)
        else Drop(old(pack.pairs), key)
    {
      var had, same := RemoveOther(key, score);
      if same {
        return false;
      }
      var done := InsertInOrder(key, score);
      inserted := !had && done;
    }

    method Delete(key: bytes) returns (deleted: bool)
      requires Valid()
      modifies pack, pack.list, pack.list.lp
      ensures Valid() && (pack.list.lp == old(pack.list.lp) || fresh(pack.list.lp))
      ensures deleted == Has(old(pack.pairs), key) && pack.pairs == Drop(old(pack.pairs), key)
    {
      var idx;
      ghost var at;
      idx, at := pack.FindKey(key);
      deleted := idx.Some?;
      if idx.Some? {
        Gone(pack.pairs, at.value);
        pack.RemovePair(idx.value, at.value);
      } else {
        DropNone(pack.pairs, key);
      }
    }

    /** Visits every pair. */
    method Entries() returns (out: seq<Entry>)
      requires Valid()
      ensures out == pack.pairs
    {
      out := AllPairs(pack);
    }

    method Score(key: bytes) returns (score: Option<Score>)
      requires Valid()
      ensures score == ScoreOf(pack.pairs, key)
    {
      var idx;
      ghost var at;
      idx, at := pack.FindKey(key);
      ScoreOfNone(pack.pairs, key);
      if idx.None? {
        return None;
      }
      ScoreOfAt(pack.pairs, at.value);
      var e, next := pack.EntryAt(idx.value, at.value);
      score := Some(e.score);
    }

    /** Counts the pairs before a key's. */
    method Rank(key: bytes) returns (rank: Option<nat>)
      requires Valid()
      ensures rank.Some? ==> rank.value < |pack.pairs| && pack.pairs[rank.value].key == key
      ensures rank.None? ==> !Has(pack.pairs, key)
    {
      var to;
      ghost var at;
      to, at := pack.FindKey(key);
      if to.None? {
        return None;
      }
      var n := CountTo(pack, to.value, at.value);
      rank := Some(n);
    }

    /** The pairs between two ranks, from the front or from the back. */
    method RangeByRank(r: RankRange, reverse: bool, offset: nat, count: Option<nat>) returns (out: seq<Entry>)
      requires Valid()
      modifies pack.list, pack.list.lp
      ensures Valid() && pack.list.lp == old(pack.list.lp) && out == RankAnswer(pack.pairs, r, reverse, offset, count)
    {
      var size := pack.Size();
      var n := Normalize(r, size);
      if n.None? {
        return [];
      }
      out := Ranked(pack, size, n.value, reverse, offset, count);
    }

    method RangeByScore(r: ScoreRange, reverse: bool, offset: nat, count: Option<nat>) returns (out: seq<Entry>)
      requires Valid()
      ensures out == ScoreAnswer(pack.pairs, r, reverse, offset, count)
    {
      if !ValidScores(r) || count == Some(0) {
        NoAnswer(pack.pairs, r, reverse, offset, count);
        return [];
      }
      if reverse {
        out := Descend(pack, r, offset, count);
      } else {
        out := Ascend(pack, r, offset, count);
      }
    }

    /** Counts the pairs in a range, up to the first above it. */
    method Count(r: ScoreRange) returns (n: nat)
      requires Valid()
      ensures n == |ByScore(pack.pairs, r)|
    {
      if !ValidScores(r) {
        InvalidScores(pack.pairs, r);
        return 0;
      }
      n := CountScores(pack, r);
    }
  }

  lemma NoAnswer(s: seq<Entry>, r: ScoreRange, reverse: bool, offset: nat, count: Option<nat>)
    requires !ValidScores(r) || count == Some(0)
    ensures ScoreAnswer(s, r, reverse, offset, count) == []
  {
    if !ValidScores(r) {
      InvalidScores(s, r);
    }
  }

  // ----- walks over the pairs -----

  /** The first pair that an entry comes before. */
  method FindPlace(pack: PairPack, e: Entry) returns (idx: Option<nat>, ghost i: nat)
    requires pack.Valid()
    ensures i <= |pack.pairs| && idx == pack.Cursor(i) && (forall j :: 0 <= j < i ==> !Before(e, pack.pairs[j]))
    ensures i < |pack.pairs| ==> Before(e, pack.pairs[i])
  {
    i := 0;
    idx := pack.FirstKey();
    while idx.Some?
      invariant i <= |pack.pairs| && idx == pack.Cursor(i) && forall j :: 0 <= j < i ==> !Before(e, pack.pairs[j])
      decreases |pack.pairs| - i
    {
      var x, score := pack.EntryAt(idx.value, i);
      if Before(e, x) {
        return;
      }
      idx := pack.NextKeyAfterScore(score, i);
      i := i + 1;
    }
  }

  method AllPairs(pack: PairPack) returns (out: seq<Entry>)
    requires pack.Valid()
    ensures out == pack.pairs
  {
    out := [];
    ghost var i := 0;
    var idx := pack.FirstKey();
    while idx.Some?
      invariant i <= |pack.pairs| && idx == pack.Cursor(i) && out == pack.pairs[..i]
      decreases |pack.pairs| - i
    {
      var e, score := pack.EntryAt(idx.value, i);
      out := out + [e];
      idx := pack.NextKeyAfterScore(score, i);
      i := i + 1;
    }
  }

  method CountTo(pack: PairPack, to: nat, ghost at: nat) returns (rank: nat)
    requires pack.Valid() && at < |pack.pairs| && to == pack.list.Position(2 * at)
    ensures rank == at
  {
    var idx := pack.FirstKey();
    rank := 0;
    while idx.Some? && idx != Some(to)
      invariant rank <= at && idx == pack.Cursor(rank)
      decreases at - rank
    {
      if rank < at {
        pack.list.PositionsGrow(2 * rank, 2 * at);
      }
      var e, score := pack.EntryAt(idx.value, rank);
      idx := pack.NextKeyAfterScore(score, rank);
      rank := rank + 1;
    }
    if rank < at {
      pack.list.PositionsGrow(2 * rank, 2 * at);
    }
  }

  method Ranked(pack: PairPack, size: nat, n: Ranks, reverse: bool, offset: nat, count: Option<nat>)
      returns (out: seq<Entry>)
    requires pack.Valid() && n.min <= n.max < size == |pack.pairs|
    ensures out == Window(RankSlice(Turned(pack.pairs, reverse), n), offset, count)
  {
    if !ValidRanks(n) || count == Some(0) || FirstRank(n) >= size {
      NoSlice(Turned(pack.pairs, reverse), n, offset, count);
      return [];
    }
    SliceFrom(Turned(pack.pairs, reverse), n);
    if reverse {
      out := WalkRanksBack(pack, FirstRank(n), EndRank(n), offset, count);
    } else {
      out := WalkRanks(pack, FirstRank(n), EndRank(n), offset, count);
    }
  }

  /** Steps over all pairs up to a rank and keeps those in the window. */
  method WalkRanks(pack: PairPack, start: nat, end: nat, offset: nat, count: Option<nat>) returns (out: seq<Entry>)
    requires pack.Valid() && start <= end <= |pack.pairs| && count != Some(0)
    ensures out == Window(pack.pairs[start..end], offset, count)
  {
    ghost var s := pack.pairs;
    ghost var all := Walk(s[start..end], 0, offset, count, []);
    out := [];
    var rank := 0;
    var idx := pack.FirstKey();
    while idx.Some? && rank < end && !Full(out, count)
      invariant rank <= end && idx == pack.Cursor(rank) && Walked(s, start, end, rank, offset, count, out, all)
      decreases end - rank
    {
      var e, score := pack.EntryAt(idx.value, rank);
      WalkedOn(s, start, end, rank, offset, count, out, all);
      if rank >= start && rank - start >= offset {
        out := out + [e];
      }
      idx := pack.NextKeyAfterScore(score, rank);
      rank := rank + 1;
    }
    WalkedAll(s, start, end, rank, offset, count, out, all);
  }

  /** The pair of a rank counted from the end. */
  method EntryBack(pack: PairPack, idx: nat, ghost rank: nat) returns (e: Entry)
    requires pack.Valid() && rank < |pack.pairs| && Some(idx) == pack.Cursor(|pack.pairs| - 1 - rank)
    ensures e == Reverse(pack.pairs)[rank]
  {
    var score;
    e, score := pack.EntryAt(idx, |pack.pairs| - 1 - rank);
  }

  method PrevBack(pack: PairPack, idx: nat, ghost rank: nat) returns (prev: Option<nat>)
    requires pack.Valid() && rank < |pack.pairs| && Some(idx) == pack.Cursor(|pack.pairs| - 1 - rank)
    ensures prev == pack.Cursor(|pack.pairs| - 1 - (rank + 1))
  {
    prev := pack.PrevKeyBeforeKey(idx, |pack.pairs| - 1 - rank);
  }

  /** The same from the back. */
  method WalkRanksBack(pack: PairPack, start: nat, end: nat, offset: nat, count: Option<nat>) returns (out: seq<Entry>)
    requires pack.Valid() && start <= end <= |pack.pairs| && count != Some(0)
    ensures out == Window(Reverse(pack.pairs)[start..end], offset, count)
  {
    ghost var s := Reverse(pack.pairs);
    ghost var all := Walk(s[start..end], 0, offset, count, []);
    out := [];
    var rank := 0;
    var idx := pack.LastKey();
    while idx.Some? && rank < end && !Full(out, count)
      invariant rank <= end && idx == pack.Cursor(|pack.pairs| - 1 - rank)
        && Walked(s, start, end, rank, offset, count, out, all)
      decreases end - rank
    {
      var e := EntryBack(pack, idx.value, rank);
      WalkedOn(s, start, end, rank, offset, count, out, all);
      if rank >= start && rank - start >= offset {
        out := out + [e];
      }
      idx := PrevBack(pack, idx.value, rank);
      rank := rank + 1;
    }
    WalkedAll(s, start, end, rank, offset, count, out, all);
  }

  /** The walk so far: nothing kept before `start`, and from there on the rest will complete the answer. */
  ghost predicate Walked(s: seq<Entry>, start: nat, end: nat, rank: nat, offset: nat, count: Option<nat>,
      out: seq<Entry>, all: seq<Entry>) {
    && start <= end <= |s| && rank <= end && all == Walk(s[start..end], 0, offset, count, [])
    && (rank < start ==> out == []) && (rank >= start ==> Walk(s[rank..end], rank - start, offset, count, out) == all)
  }

  lemma WalkedOn(s: seq<Entry>, start: nat, end: nat, rank: nat, offset: nat, count: Option<nat>, out: seq<Entry>,
      all: seq<Entry>)
    requires Walked(s, start, end, rank, offset, count, out, all) && rank < end && !Full(out, count)
    ensures Walked(s, start, end, rank + 1, offset, count, if rank >= start && rank - start >= offset
      then out + [s[rank]] else out, all)
  {
    if rank >= start {
      WalkStep(s, rank, end, rank - start, offset, count, out);
    }
  }

  lemma WalkedAll(s: seq<Entry>, start: nat, end: nat, rank: nat, offset: nat, count: Option<nat>, out: seq<Entry>,
      all: seq<Entry>)
    requires Walked(s, start, end, rank, offset, count, out, all) && (rank == end || Full(out, count))
      && count != Some(0)
    ensures out == Window(s[start..end], offset, count)
  {
    WalkIsWindow(s[start..end], offset, count);
    if rank >= start {
      WalkEnds(s[rank..end], rank - start, offset, count, out);
    }
  }

  /** The entries from `lo` on are high enough, and those before `hi` are low enough. */
  ghost predicate Cuts(s: seq<Entry>, r: ScoreRange, lo: nat, hi: nat) {
    && lo <= |s| && hi <= |s|
    && forall i :: 0 <= i < |s| ==> (AtLeast(r, s[i]) <==> lo <= i) && (AtMost(r, s[i]) <==> i < hi)
  }

  /** The first pair with a score of at least the minimum. */
  method FindKeyGreaterOrEqual(pack: PairPack, r: ScoreRange) returns (idx: Option<nat>, ghost lo: nat)
    requires pack.Valid() && Listed(pack.pairs)
    ensures lo <= |pack.pairs| && idx == pack.Cursor(lo) && forall i :: 0 <= i < |pack.pairs| ==> (AtLeast(r,
      pack.pairs[i]) <==> lo <= i)
  {
    lo := 0;
    idx := pack.FirstKey();
    while idx.Some?
      invariant lo <= |pack.pairs| && idx == pack.Cursor(lo) && forall i :: 0 <= i < lo ==> !AtLeast(r, pack.pairs[i])
      decreases |pack.pairs| - lo
    {
      var e, score := pack.EntryAt(idx.value, lo);
      if AtLeast(r, e) {
        TooLowFirst(pack.pairs, r, lo);
        return;
      }
      idx := pack.NextKeyAfterScore(score, lo);
      lo := lo + 1;
    }
  }

  /** The last pair with a score of at most the maximum, before the `hi`-th. */
  method FindKeyLessOrEqual(pack: PairPack, r: ScoreRange) returns (idx: Option<nat>, ghost hi: nat)
    requires pack.Valid() && Listed(pack.pairs)
    ensures hi <= |pack.pairs| && idx == pack.Cursor(hi - 1)
      && forall i :: 0 <= i < |pack.pairs| ==> (AtMost(r, pack.pairs[i]) <==> i < hi)
  {
    hi := |pack.pairs|;
    idx := pack.LastKey();
    while idx.Some?
      invariant hi <= |pack.pairs| && idx == pack.Cursor(hi - 1)
        && forall i :: hi <= i < |pack.pairs| ==> !AtMost(r, pack.pairs[i])
      decreases hi
    {
      var e, score := pack.EntryAt(idx.value, hi - 1);
      if AtMost(r, e) {
        LowEnough(pack.pairs, r, hi - 1);
        return;
      }
      idx := pack.PrevKeyBeforeKey(idx.value, hi - 1);
      hi := hi - 1;
    }
  }

  /** Where a valid range begins and ends in a list. */
  lemma CutsExist(s: seq<Entry>, r: ScoreRange) returns (lo: nat, hi: nat)
    requires Listed(s) && ValidScores(r)
    ensures Cuts(s, r, lo, hi) && lo <= hi && ByScore(s, r) == s[lo..hi]
  {
    lo := 0;
    while lo < |s| && !AtLeast(r, s[lo])
      invariant lo <= |s| && forall i :: 0 <= i < lo ==> !AtLeast(r, s[i])
    {
      lo := lo + 1;
    }
    TooLowFirst(s, r, lo);
    hi := |s|;
    while hi > 0 && !AtMost(r, s[hi - 1])
      invariant hi <= |s| && forall i :: hi <= i < |s| ==> !AtMost(r, s[i])
    {
      hi := hi - 1;
    }
    if hi > 0 {
      LowEnough(s, r, hi - 1);
    }
    NoCross(s, r, lo, hi);
    SliceIsByScore(s, r, lo, hi);
  }

  lemma SameLow(s: seq<Entry>, r: ScoreRange, lo: nat, hi: nat, a: nat)
    requires Cuts(s, r, lo, hi) && a <= |s| && forall i :: 0 <= i < |s| ==> (AtLeast(r, s[i]) <==> a <= i)
    ensures a == lo
  {
    var i := Min(a, lo);
    if i < |s| {
      assert AtLeast(r, s[i]) <==> a <= i;
    }
  }

  lemma SameHigh(s: seq<Entry>, r: ScoreRange, lo: nat, hi: nat, a: nat)
    requires Cuts(s, r, lo, hi) && a <= |s| && forall i :: 0 <= i < |s| ==> (AtMost(r, s[i]) <==> i < a)
    ensures a == hi
  {
    var i := Min(a, hi);
    if i < |s| {
      assert AtMost(r, s[i]) <==> i < a;
    }
  }

  /** From the first pair that is high enough up to the last that is low enough. */
  method Ascend(pack: PairPack, r: ScoreRange, offset: nat, count: Option<nat>) returns (out: seq<Entry>)
    requires pack.Valid() && Listed(pack.pairs) && ValidScores(r) && count != Some(0)
    ensures out == Window(ByScore(pack.pairs, r), offset, count)
  {
    ghost var lo, hi := CutsExist(pack.pairs, r);
    var idx;
    ghost var at;
    idx, at := FindKeyGreaterOrEqual(pack, r);
    SameLow(pack.pairs, r, lo, hi, at);
    out := AscendFrom(pack, r, idx, lo, hi, offset, count);
  }

  method AscendFrom(pack: PairPack, r: ScoreRange, from: Option<nat>, ghost lo: nat, ghost hi: nat, offset: nat,
      count: Option<nat>) returns (out: seq<Entry>)
    requires pack.Valid() && Cuts(pack.pairs, r, lo, hi) && lo <= hi && from == pack.Cursor(lo) && count != Some(0)
    ensures out == Window(pack.pairs[lo..hi], offset, count)
  {
    ghost var s, at := pack.pairs, lo;
    ghost var all := Walk(s[lo..hi], 0, offset, count, []);
    var idx, i := from, 0;
    out := [];
    while idx.Some? && !Full(out, count)
      invariant lo <= at <= hi && i == at - lo && idx == pack.Cursor(at)
        && Walked(s, lo, hi, at, offset, count, out, all)
      decreases |s| - at
    {
      var e, score := pack.EntryAt(idx.value, at);
      if !AtMost(r, e) {
        break;
      }
      WalkedOn(s, lo, hi, at, offset, count, out, all);
      if InScores(r, e) && i >= offset {
        out := out + [e];
      }
      idx := pack.NextKeyAfterScore(score, at);
      at, i := at + 1, i + 1;
    }
    WalkedAll(s, lo, hi, at, offset, count, out, all);
  }

  /** The same from the back. */
  method Descend(pack: PairPack, r: ScoreRange, offset: nat, count: Option<nat>) returns (out: seq<Entry>)
    requires pack.Valid() && Listed(pack.pairs) && ValidScores(r) && count != Some(0)
    ensures out == Window(Reverse(ByScore(pack.pairs, r)), offset, count)
  {
    var idx;
    ghost var hi;
    idx, hi := FindKeyLessOrEqual(pack, r);
    ghost var start, end := CutsBack(pack.pairs, r, hi);
    out := DescendFrom(pack, r, idx, start, end, offset, count);
  }

  /** Counted from the end, the entries from `start` on are low enough and those before `end` high enough. */
  ghost predicate TurnedCuts(s: seq<Entry>, r: ScoreRange, start: nat, end: nat) {
    && start <= end <= |s|
    && forall i :: start <= i < |s| ==> AtMost(r, s[i]) && (AtLeast(r, s[i]) <==> i < end)
  }

  /** Where a valid range begins and ends, counted from the end. */
  lemma CutsBack(s: seq<Entry>, r: ScoreRange, at: nat) returns (start: nat, end: nat)
    requires Listed(s) && ValidScores(r) && at <= |s| && forall i :: 0 <= i < |s| ==> (AtMost(r, s[i]) <==> i < at)
    ensures start == |s| - at && TurnedCuts(Reverse(s), r, start, end)
      && Reverse(s)[start..end] == Reverse(ByScore(s, r))
  {
    var lo, hi := CutsExist(s, r);
    SameHigh(s, r, lo, hi, at);
    start, end := |s| - hi, |s| - lo;
    ReverseSlice(s, start, end);
    var t := Reverse(s);
    forall i | start <= i < |t| ensures AtMost(r, t[i]) && (AtLeast(r, t[i]) <==> i < end) {
      assert t[i] == s[|s| - 1 - i];
    }
  }

  method DescendFrom(pack: PairPack, r: ScoreRange, from: Option<nat>, ghost start: nat, ghost end: nat, offset: nat,
      count: Option<nat>) returns (out: seq<Entry>)
    requires pack.Valid() && TurnedCuts(Reverse(pack.pairs), r, start, end)
      && from == pack.Cursor(|pack.pairs| - 1 - start) && count != Some(0)
    ensures out == Window(Reverse(pack.pairs)[start..end], offset, count)
  {
    ghost var s, rank := Reverse(pack.pairs), start;
    ghost var all := Walk(s[start..end], 0, offset, count, []);
    var idx, i := from, 0;
    out := [];
    while idx.Some? && !Full(out, count)
      invariant start <= rank <= end && i == rank - start && idx == pack.Cursor(|pack.pairs| - 1 - rank)
      invariant Walked(s, start, end, rank, offset, count, out, all)
      decreases |s| - rank
    {
      var e := EntryBack(pack, idx.value, rank);
      if !AtLeast(r, e) {
        break;
      }
      WalkedOn(s, start, end, rank, offset, count, out, all);
      if InScores(r, e) && i >= offset {
        out := out + [e];
      }
      idx := PrevBack(pack, idx.value, rank);
      rank, i := rank + 1, i + 1;
    }
    WalkedAll(s, start, end, rank, offset, count, out, all);
  }

  method CountScores(pack: PairPack, r: ScoreRange) returns (n: nat)
    requires pack.Valid() && Listed(pack.pairs)
    ensures n == |ByScore(pack.pairs, r)|
  {
    ghost var s := pack.pairs;
    n := 0;
    ghost var i := 0;
    var idx := pack.FirstKey();
    assert s[..0] == [];
    while idx.Some?
      invariant i <= |s| && idx == pack.Cursor(i) && n == |ByScore(s[..i], r)|
      decreases |s| - i
    {
      var e, score := pack.EntryAt(idx.value, i);
      ByScoreNext(s, r, i);
      if InScores(r, e) {
        n := n + 1;
      } else if !AtMost(r, e) {
        TooHighLast(s, r, i);
        ByScoreRest(s, r, i);
        return;
      }
      idx := pack.NextKeyAfterScore(score, i);
      i := i + 1;
    }
    assert s[..i] == s;
  }

  lemma Regroup<K>(a: seq<K>, b: seq<K>, c: seq<K>)
    ensures (a + b) + c == a + (b + c)
  {
  }

  lemma {:induction false} FilterConcat<K>(a: seq<K>, b: seq<K>, p: K -> bool)
    ensures Filter(a + b, p) == Filter(a, p) + Filter(b, p)
  {
    if a == [] {
      assert a + b == b;
    } else {
      var all, tail := a + b, a[1..];
      assert all[1..] == tail + b && all[0] == a[0];
      FilterConcat(tail, b, p);
      Regroup(if p(a[0]) then [a[0]] else [], Filter(tail, p), Filter(b, p));
    }
  }

  lemma ByScoreNext(s: seq<Entry>, r: ScoreRange, i: nat)
    requires i < |s|
    ensures ByScore(s[..i + 1], r) == ByScore(s[..i], r) + if InScores(r, s[i]) then [s[i]] else []
  {
    assert s[..i + 1] == s[..i] + [s[i]];
    FilterConcat(s[..i], [s[i]], e => InScores(r, e));
    assert [s[i]][1..] == [];
  }

  lemma ByScoreRest(s: seq<Entry>, r: ScoreRange, i: nat)
    requires i <= |s| && forall j :: i <= j < |s| ==> !AtMost(r, s[j])
    ensures ByScore(s, r) == ByScore(s[..i], r)
  {
    assert s == s[..i] + s[i..];
    FilterConcat(s[..i], s[i..], e => InScores(r, e));
    FilterNone(s[i..], e => InScores(r, e));
  }
}
