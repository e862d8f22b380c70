/** What the range queries of sorted sets return, whichever storage answers. */
module ZSetRanges {
  import opened Bytes
  import opened Ranges
  import opened ZSetOrder

  /** A range of scores; `minex` and `maxex` exclude the bound itself. */
  datatype ScoreRange = ScoreRange(min: Score, max: Score, minex: bool, maxex: bool)

  predicate AtLeast(r: ScoreRange, e: Entry) {
    if r.minex then e.score > r.min else e.score >= r.min
  }

  predicate AtMost(r: ScoreRange, e: Entry) {
    if r.maxex then e.score < r.max else e.score <= r.max
  }

  predicate InScores(r: ScoreRange, e: Entry) {
    AtLeast(r, e) && AtMost(r, e)
  }

  predicate ValidScores(r: ScoreRange) {
    if r.minex || r.maxex then r.min < r.max else r.min <= r.max
  }

  /** The entries with a score in a range. */
  function ByScore(s: seq<Entry>, r: ScoreRange): seq<Entry> {
    Filter(s, e => InScores(r, e))
  }

  function Turned<T>(s: seq<T>, reverse: bool): seq<T> {
    if reverse then Reverse(s) else s
  }

  /** The answer to a range of scores. */
  function ScoreAnswer(s: seq<Entry>, r: ScoreRange, reverse: bool, offset: nat, count: Option<nat>): seq<Entry> {
    Window(Turned(ByScore(s, r), reverse), offset, count)
  }

  lemma InvalidScores(s: seq<Entry>, r: ScoreRange)
    requires !ValidScores(r)
    ensures ByScore(s, r) == []
  {
    FilterNone(s, e => InScores(r, e));
  }

  /** Bounds of ranks as given: negative ones count from the end. */
  datatype RankRange = RankRange(min: int, max: int, minex: bool, maxex: bool)

  /** A rank as given, counted from the front. */
  function FromFront(rank: int, size: nat): int {
    if rank < 0 then rank + size else rank
  }

  /** Ranks within a list of `size`, if the range selects any of them. */
  function Normalize(r: RankRange, size: nat): (n: Option<Ranks>)
    ensures n.Some? ==> n.value.min <= n.value.max < size && n.value.minex == r.minex && n.value.maxex == r.maxex
  {
    if size == 0 then None
    else
      var start := if r.min < 0 then (if r.min + size < 0 then 0 else r.min + size) else r.min;
      if r.max + size < 0 then None
      else
        var stop := if r.max < 0 then r.max + size else r.max;
        if start >= size || start > stop then None
        else Some(Ranks(start, Min(stop, size - 1), r.minex, r.maxex))
  }

  predicate RankWithin(n: Option<Ranks>, i: nat) {
    n.Some? && n.value.min <= i <= n.value.max
  }

  /** The normalized ranks are exactly those of the list between the bounds as given. */
  lemma NormalizeExact(r: RankRange, size: nat, i: nat)
    requires i < size
    ensures RankWithin(Normalize(r, size), i) <==> FromFront(r.min, size) <= i <= FromFront(r.max, size)
  {
  }

  /** The answer to a range of ranks. */
  function RankAnswer(s: seq<Entry>, r: RankRange, reverse: bool, offset: nat, count: Option<nat>): seq<Entry> {
    var n := Normalize(r, |s|);
    if n.None? then [] else Window(RankSlice(Turned(s, reverse), n.value), offset, count)
  }

  // ----- the answers, entry by entry -----

  /** A rank between the bounds as given; an excluded bound excludes the rank nearest to it. */
  predicate Selected(r: RankRange, size: nat, i: nat) {
    && FromFront(r.min, size) <= i <= FromFront(r.max, size)
    && !(r.minex && i == Max(0, FromFront(r.min, size))) && !(r.maxex && i == Min(size - 1, FromFront(r.max, size)))
  }

  /** The ranks selected are those from `a` to `b`. */
  ghost predicate SelectsFrom(r: RankRange, size: nat, a: nat, b: nat) {
    a <= b <= size && forall i :: 0 <= i < size ==> (Selected(r, size, i) <==> a <= i < b)
  }

  /** The answer to a range of ranks is a window on the entries with the ranks selected, counted from either end. */
  lemma RankAnswerExact(s: seq<Entry>, r: RankRange, reverse: bool, offset: nat, count: Option<nat>)
      returns (a: nat, b: nat)
    ensures SelectsFrom(r, |s|, a, b)
    ensures RankAnswer(s, r, reverse, offset, count) == Window(Turned(s, reverse)[a..b], offset, count)
  {
    var n := Normalize(r, |s|);
    a, b := 0, 0;
    if n.Some? {
      NormalizedExact(r, |s|);
      a := FirstRank(n.value);
      b := Max(a, EndRank(n.value));
    } else {
      forall i | 0 <= i < |s| ensures !Selected(r, |s|, i) {
        NormalizeExact(r, |s|, i);
      }
    }
  }

  lemma NormalizedExact(r: RankRange, size: nat)
    requires Normalize(r, size).Some?
    ensures var n := Normalize(r, size).value;
      var a := FirstRank(n);
      SelectsFrom(r, size, a, Max(a, EndRank(n))) && (ValidRanks(n) || a >= EndRank(n))
  {
    var n := Normalize(r, size).value;
    assert n.min == Max(0, FromFront(r.min, size)) && n.max == Min(size - 1, FromFront(r.max, size));
  }

  /** At most `count` elements, those from `offset` on. */
  lemma WindowExact<T>(s: seq<T>, offset: nat, count: Option<nat>)
    ensures var out := Window(s, offset, count);
      && |out| == Min(if count.Some? then count.value else |s|, Max(0, |s| - offset))
      && forall i :: 0 <= i < |out| ==> out[i] == s[offset + i]
  {
  }

  /** The entries with a score between the bounds. */
  lemma {:induction false} ByScoreExact(s: seq<Entry>, r: ScoreRange, e: Entry)
    ensures e in ByScore(s, r) <==>
      e in s && (r.min < e.score || (!r.minex && r.min == e.score)) && (e.score < r.max || (!r.maxex && e.score == r.max))
  {
    if s != [] {
      ByScoreExact(s[1..], r, e);
      assert s == [s[0]] + s[1..];
    }
  }

  lemma TurnedOrdered(s: seq<Entry>, reverse: bool)
    requires Ordered(s, false)
    ensures Ordered(Turned(s, reverse), reverse)
  {
    if reverse {
      var back := Turned(s, reverse);
      forall i, j | 0 <= i < j < |back| ensures Precedes(back[j], back[i]) {
        assert back[i] == s[|s| - 1 - i] && back[j] == s[|s| - 1 - j];
      }
    }
  }

  lemma PartOrdered(s: seq<Entry>, a: nat, b: nat, reverse: bool)
    requires Ordered(s, reverse) && a <= b <= |s|
    ensures Ordered(s[a..b], reverse)
  {
  }

  lemma WindowOrdered(s: seq<Entry>, offset: nat, count: Option<nat>, reverse: bool)
    requires Ordered(s, reverse)
    ensures Ordered(Window(s, offset, count), reverse)
  {
    WindowExact(s, offset, count);
  }

  /** Entries come in order, whichever end they are counted from. */
  lemma RankAnswerOrdered(s: seq<Entry>, r: RankRange, reverse: bool, offset: nat, count: Option<nat>)
    requires Listed(s)
    ensures Ordered(RankAnswer(s, r, reverse, offset, count), reverse)
  {
    var a, b := RankAnswerExact(s, r, reverse, offset, count);
    ListedOrdered(s);
    TurnedOrdered(s, reverse);
    PartOrdered(Turned(s, reverse), a, b, reverse);
    WindowOrdered(Turned(s, reverse)[a..b], offset, count, reverse);
  }

  lemma {:induction false} FilterOrdered(s: seq<Entry>, p: Entry -> bool)
    requires Ordered(s, false)
    ensures Ordered(Filter(s, p), false) && forall e :: e in Filter(s, p) ==> e in s
  {
    if s != [] {
      FilterOrdered(s[1..], p);
      var rest := Filter(s[1..], p);
      forall i | 0 <= i < |rest| ensures Precedes(s[0], rest[i]) {
        assert rest[i] in s[1..];
      }
    }
  }

  lemma ScoreAnswerOrdered(s: seq<Entry>, r: ScoreRange, reverse: bool, offset: nat, count: Option<nat>)
    requires Listed(s)
    ensures Ordered(ScoreAnswer(s, r, reverse, offset, count), reverse)
  {
    ListedOrdered(s);
    FilterOrdered(s, e => InScores(r, e));
    TurnedOrdered(ByScore(s, r), reverse);
    WindowOrdered(Turned(ByScore(s, r), reverse), offset, count, reverse);
  }

  // ----- score bounds as entries -----

  /** `low` and `high` are keys of the list and bound its keys. */
  ghost predicate Bound(s: seq<Entry>, low: Option<bytes>, high: Option<bytes>) {
    if s == [] then low.None? && high.None?
    else low.Some? && high.Some? && Has(s, low.value) && Has(s, high.value) && KeyBounds(s, low.value, high.value)
  }

  ghost predicate KeyBounds(s: seq<Entry>, low: bytes, high: bytes) {
    forall k :: Has(s, k) ==> !Lex(k, low) && !Lex(high, k)
  }

  /**
   * The entries that stand for the bounds of a score range: an excluded bound takes the key at the far end of
   * its score.
   */
  function EntryBounds(r: ScoreRange, low: bytes, high: bytes): Bounds<Entry> {
    Bounds(Entry(if r.minex then high else low, r.min), r.minex, Entry(if r.maxex then low else high, r.max), r.maxex)
  }

  /** Between keys that bound the list these entries cut exactly at the scores. */
  lemma BoundsCut(r: ScoreRange, low: bytes, high: bytes, e: Entry)
    requires !Lex(e.key, low) && !Lex(high, e.key)
    ensures Inside(Before, EntryBounds(r, low, high), e) <==> InScores(r, e)
  {
    LexTotal(e.key, low);
    LexTotal(e.key, high);
    LexIrreflexive(e.key);
  }

  lemma BoundsValid(r: ScoreRange, low: bytes, high: bytes)
    requires !Lex(high, low) && ValidScores(r)
    ensures ValidBounds(Before, EntryBounds(r, low, high))
  {
  }

  lemma {:induction false} FilterSame<K>(s: seq<K>, p: K -> bool, q: K -> bool)
    requires forall i :: 0 <= i < |s| ==> p(s[i]) == q(s[i])
    ensures Filter(s, p) == Filter(s, q)
  {
    if s != [] {
      FilterSame(s[1..], p, q);
    }
  }

  /** The skiplist's range of entries is the range of scores. */
  lemma SelectIsByScore(s: seq<Entry>, r: ScoreRange, low: Option<bytes>, high: Option<bytes>)
    requires s != [] && Bound(s, low, high)
    ensures Select(Before, EntryBounds(r, low.value, high.value), s) == ByScore(s, r)
  {
    var bounds := EntryBounds(r, low.value, high.value);
    forall i | 0 <= i < |s| ensures Inside(Before, bounds, s[i]) == InScores(r, s[i]) {
      assert Has(s, s[i].key);
      BoundsCut(r, low.value, high.value, s[i]);
    }
    FilterSame(s, e => Inside(Before, bounds, e), e => InScores(r, e));
  }

  /**
   * When every entry lies above an excluded maximum's entry: above its score, or at it with another key than
   * the least.
   */
  lemma AllAbove(s: seq<Entry>, r: ScoreRange, low: Option<bytes>, high: Option<bytes>)
    requires s != [] && Bound(s, low, high) && r.maxex
    ensures (forall e :: e in s ==> Before(EntryBounds(r, low.value, high.value).max, e))
       <==> forall e :: e in s ==> e.score > r.max || (e.score == r.max && e.key != low.value)
  {
    forall e | e in s ensures Before(Entry(low.value, r.max), e) <==> e.score > r.max || (e.score == r.max && e.key != low.value) {
      assert Has(s, e.key);
      LexTotal(low.value, e.key);
      LexIrreflexive(e.key);
    }
  }

  // ----- keeping the bounds -----

  lemma HasPut(s: seq<Entry>, e: Entry, k: bytes)
    requires !Has(s, e.key)
    ensures Has(Put(s, e), k) <==> k == e.key || Has(s, k)
  {
    ScoreOfPut(s, e, k);
    ScoreOfNone(s, k);
    ScoreOfNone(Put(s, e), k);
  }

  /** A key that comes in widens the bounds. */
  function Lower(low: Option<bytes>, k: bytes): Option<bytes> {
    if low.None? || Lex(k, low.value) then Some(k) else low
  }

  function Higher(high: Option<bytes>, k: bytes): Option<bytes> {
    if high.None? || Lex(high.value, k) then Some(k) else high
  }

  lemma LowerBounds(low: Option<bytes>, k: bytes, j: bytes)
    requires j == k || (low.Some? && !Lex(j, low.value))
    ensures !Lex(j, Lower(low, k).value)
  {
    LexIrreflexive(k);
    if low.Some? && Lex(k, low.value) && j != k {
      if Lex(j, k) {
        LexTransitive(j, k, low.value);
      }
    }
  }

  lemma HigherBounds(high: Option<bytes>, k: bytes, j: bytes)
    requires j == k || (high.Some? && !Lex(high.value, j))
    ensures !Lex(Higher(high, k).value, j)
  {
    LexIrreflexive(k);
    if high.Some? && Lex(high.value, k) && j != k {
      if Lex(k, j) {
        LexTransitive(high.value, k, j);
      }
    }
  }

  /** A new key widens the bounds. */
  lemma WidenBound(s: seq<Entry>, e: Entry, low: Option<bytes>, high: Option<bytes>)
    requires Bound(s, low, high) && !Has(s, e.key)
    ensures Bound(Put(s, e), Lower(low, e.key), Higher(high, e.key))
  {
    var t := Put(s, e);
    HasPut(s, e, e.key);
    if low.Some? {
      HasPut(s, e, low.value);
      HasPut(s, e, high.value);
    }
    forall k | Has(t, k) ensures !Lex(k, Lower(low, e.key).value) && !Lex(Higher(high, e.key).value, k) {
      HasPut(s, e, k);
      LowerBounds(low, e.key, k);
      HigherBounds(high, e.key, k);
    }
  }

  ghost predicate SameKeys(s: seq<Entry>, t: seq<Entry>) {
    forall k :: Has(s, k) <==> Has(t, k)
  }

  /** A new score does not change the bounds. */
  lemma SameBound(s: seq<Entry>, t: seq<Entry>, key: bytes, low: Option<bytes>, high: Option<bytes>)
    requires Bound(s, low, high) && SameKeys(s, t) && Has(s, key)
    ensures Bound(t, Lower(low, key), Higher(high, key))
  {
    assert Has(t, key);
  }

  lemma RescoreKeys(s: seq<Entry>, c: nat, e: Entry)
    requires OneEach(s) && c < |s| && s[c].key == e.key && !Has(Drop(s, e.key), e.key)
    ensures SameKeys(s, Put(Drop(s, e.key), e))
  {
    forall k ensures Has(s, k) <==> Has(Put(Drop(s, e.key), e), k) {
      HasPut(Drop(s, e.key), e, k);
      ScoreOfDrop(s, c, k);
      ScoreOfNone(s, k);
      ScoreOfNone(Drop(s, e.key), k);
      assert Has(s, s[c].key);
    }
  }

  /** Without a key that is not a bound the bounds stay. */
  lemma NarrowBound(s: seq<Entry>, c: nat, low: Option<bytes>, high: Option<bytes>)
    requires OneEach(s) && c < |s| && Bound(s, low, high) && s[c].key != low.value && s[c].key != high.value
    ensures Bound(Drop(s, s[c].key), low, high)
  {
    var t := Drop(s, s[c].key);
    DropKeys(s, c, low.value);
    DropKeys(s, c, high.value);
    forall k | Has(t, k) ensures !Lex(k, low.value) && !Lex(high.value, k) {
      DropKeys(s, c, k);
    }
  }

  lemma DropKeys(s: seq<Entry>, c: nat, k: bytes)
    requires OneEach(s) && c < |s|
    ensures Has(Drop(s, s[c].key), k) <==> Has(s, k) && k != s[c].key
  {
    ScoreOfDrop(s, c, k);
    ScoreOfNone(s, k);
    ScoreOfNone(Drop(s, s[c].key), k);
  }
}
