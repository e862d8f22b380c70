/** What a range query over a sorted list of keys returns. */
module Ranges {
  import opened Bytes
  import opened Order

  function Filter<K>(keys: seq<K>, inside: K -> bool): seq<K> {
    if keys == [] then []
    else (if inside(keys[0]) then [keys[0]] else []) + Filter(keys[1..], inside)
  }

  function Reverse<T>(s: seq<T>): (r: seq<T>)
    ensures |r| == |s|
  {
    seq(|s|, i requires 0 <= i < |s| => s[|s| - 1 - i])
  }

  /** At most `count` elements after the first `offset`. */
  function Window<T>(s: seq<T>, offset: nat, count: Option<nat>): seq<T> {
    var rest := s[Min(offset, |s|)..];
    if count.Some? then rest[..Min(count.value, |rest|)] else rest
  }

  predicate Full<T>(s: seq<T>, count: Option<nat>) {
    count.Some? && |s| >= count.value
  }

  /** What a walk over `rest` returns that has passed `i` keys and kept `out`. */
  function Walk<T>(rest: seq<T>, i: nat, offset: nat, count: Option<nat>, out: seq<T>): seq<T> {
    if rest == [] || Full(out, count) then out
    else Walk(rest[1..], i + 1, offset, count, if i >= offset then out + [rest[0]] else out)
  }

  lemma {:induction false} WalkKeeps<T>(rest: seq<T>, i: nat, offset: nat, count: Option<nat>, out: seq<T>)
    requires i >= offset
    ensures Walk(rest, i, offset, count, out) == out + if count.Some?
      then rest[..Min(Max(count.value, |out|) - |out|, |rest|)] else rest
  {
    if rest != [] && !Full(out, count) {
      WalkKeeps(rest[1..], i + 1, offset, count, out + [rest[0]]);
      assert out + [rest[0]] + rest[1..] == out + rest;
    }
  }

  lemma {:induction false} WalkSkips<T>(rest: seq<T>, i: nat, offset: nat, count: Option<nat>)
    requires i <= offset && !Full<T>([], count)
    ensures Walk(rest, i, offset, count, []) == Window(rest, offset - i, count)
  {
    if i == offset {
      WalkKeeps(rest, i, offset, count, []);
    } else if rest != [] {
      WalkSkips(rest[1..], i + 1, offset, count);
    }
  }

  /** The walk that skips `offset` keys and stops once it has kept `count` returns the window. */
  lemma WalkIsWindow<T>(s: seq<T>, offset: nat, count: Option<nat>)
    ensures Walk(s, 0, offset, count, []) == Window(s, offset, count)
  {
    if !Full<T>([], count) {
      WalkSkips(s, 0, offset, count);
    }
  }

  lemma WalkStep<T>(s: seq<T>, a: nat, hi: nat, i: nat, offset: nat, count: Option<nat>, out: seq<T>)
    requires a < hi <= |s| && !Full(out, count)
    ensures Walk(s[a..hi], i, offset, count, out) == Walk(s[a + 1..hi], i + 1, offset, count,
      if i >= offset then out + [s[a]] else out)
  {
    assert s[a..hi][1..] == s[a + 1..hi];
  }

  lemma WalkBackStep<T>(s: seq<T>, lo: nat, a: nat, i: nat, offset: nat, count: Option<nat>, out: seq<T>)
    requires lo < a <= |s| && !Full(out, count)
    ensures Walk(Reverse(s[lo..a]), i, offset, count, out) == Walk(Reverse(s[lo..a - 1]), i + 1, offset, count,
      if i >= offset then out + [s[a - 1]] else out)
  {
    var part := s[lo..a];
    assert part[..|part| - 1] == s[lo..a - 1];
    ReverseTail(part);
  }

  lemma ReverseTail<T>(s: seq<T>)
    requires s != []
    ensures Reverse(s)[0] == s[|s| - 1] && Reverse(s)[1..] == Reverse(s[..|s| - 1])
  {
    var back, front := Reverse(s), Reverse(s[..|s| - 1]);
    forall i | 0 <= i < |front| ensures back[1..][i] == front[i] {
      assert back[i + 1] == s[|s| - 1 - (i + 1)];
    }
  }

  lemma WalkEnds<T>(rest: seq<T>, i: nat, offset: nat, count: Option<nat>, out: seq<T>)
    requires rest == [] || Full(out, count)
    ensures Walk(rest, i, offset, count, out) == out
  {
  }

  /** The bounds of a range of keys; `minex` and `maxex` exclude the bound itself. */
  datatype Bounds<K> = Bounds(min: K, minex: bool, max: K, maxex: bool)

  /** The keys before the range. */
  predicate BeforeRange<K>(less: (K, K) -> bool, bounds: Bounds<K>, key: K) {
    if bounds.minex then !less(bounds.min, key) else less(key, bounds.min)
  }

  /** The keys not after the range. */
  predicate WithinMax<K>(less: (K, K) -> bool, bounds: Bounds<K>, key: K) {
    if bounds.maxex then less(key, bounds.max) else !less(bounds.max, key)
  }

  predicate Inside<K>(less: (K, K) -> bool, bounds: Bounds<K>, key: K) {
    !BeforeRange(less, bounds, key) && WithinMax(less, bounds, key)
  }

  predicate ValidBounds<K>(less: (K, K) -> bool, bounds: Bounds<K>) {
    if bounds.minex || bounds.maxex then less(bounds.min, bounds.max) else !less(bounds.max, bounds.min)
  }

  /** `c` keys satisfy `before`, and they come first. */
  ghost predicate Below<K>(keys: seq<K>, before: K -> bool, c: nat) {
    c <= |keys| && (forall i :: 0 <= i < c ==> before(keys[i])) && (forall i :: c <= i < |keys| ==> !before(keys[i]))
  }

  lemma {:induction false} FilterNone<K>(keys: seq<K>, inside: K -> bool)
    requires forall i :: 0 <= i < |keys| ==> !inside(keys[i])
    ensures Filter(keys, inside) == []
  {
    if keys != [] {
      FilterNone(keys[1..], inside);
    }
  }

  lemma {:induction false} FilterPrefix<K>(keys: seq<K>, inside: K -> bool, hi: nat)
    requires Below(keys, inside, hi)
    ensures Filter(keys, inside) == keys[..hi]
  {
    if hi == 0 {
      FilterNone(keys, inside);
    } else {
      FilterPrefix(keys[1..], inside, hi - 1);
      assert keys[..hi] == [keys[0]] + keys[1..][..hi - 1];
    }
  }

  lemma TailSlice<K>(keys: seq<K>, lo: nat, hi: nat)
    requires 0 < lo <= hi <= |keys|
    ensures keys[1..][lo - 1..hi - 1] == keys[lo..hi]
  {
  }

  lemma {:induction false} FilterSlice<K>(keys: seq<K>, inside: K -> bool, lo: nat, hi: nat)
    requires lo <= hi <= |keys|
    requires forall i :: 0 <= i < |keys| ==> (inside(keys[i]) <==> lo <= i < hi)
    ensures Filter(keys, inside) == keys[lo..hi]
  {
    if lo == 0 {
      FilterPrefix(keys, inside, hi);
    } else {
      FilterSlice(keys[1..], inside, lo - 1, hi - 1);
      TailSlice(keys, lo, hi);
    }
  }

  /** The keys in a range, in order. */
  function Select<K>(less: (K, K) -> bool, bounds: Bounds<K>, keys: seq<K>): seq<K> {
    Filter(keys, k => Inside(less, bounds, k))
  }

  /** The number of keys at the front that satisfy `p`. */
  ghost function Front<K>(keys: seq<K>, p: K -> bool): (c: nat)
    ensures c <= |keys| && (forall i :: 0 <= i < c ==> p(keys[i])) && (c < |keys| ==> !p(keys[c]))
  {
    if keys == [] || !p(keys[0]) then 0 else 1 + Front(keys[1..], p)
  }

  /** Bounds that fail the test select nothing. */
  lemma InvalidBounds<K(!new)>(less: (K, K) -> bool, bounds: Bounds<K>, keys: seq<K>)
    requires StrictOrder(less) && !ValidBounds(less, bounds)
    ensures Select(less, bounds, keys) == []
  {
    FilterNone(keys, k => Inside(less, bounds, k));
  }

  lemma NoGap<K>(keys: seq<K>, before: K -> bool, within: K -> bool, lo: nat, hi: nat)
    requires Below(keys, before, lo) && Below(keys, within, hi)
      && forall i :: 0 <= i < |keys| && before(keys[i]) ==> within(keys[i])
    ensures lo <= hi
  {
    assert hi < |keys| ==> !within(keys[hi]);
  }

  lemma WithinIsFront<K(!new)>(less: (K, K) -> bool, bounds: Bounds<K>, keys: seq<K>, within: K -> bool)
    requires StrictOrder(less) && Sorted(less, keys) && forall k :: within(k) == WithinMax(less, bounds, k)
    ensures Below(keys, within, Front(keys, within))
  {
    var c := Front(keys, within);
    forall i | c <= i < |keys| ensures !within(keys[i]) {
      assert i == c || less(keys[c], keys[i]);
    }
  }

  lemma BeforeIsFront<K(!new)>(less: (K, K) -> bool, bounds: Bounds<K>, keys: seq<K>, before: K -> bool)
    requires StrictOrder(less) && Sorted(less, keys) && forall k :: before(k) == BeforeRange(less, bounds, k)
    ensures Below(keys, before, Front(keys, before))
  {
    var c := Front(keys, before);
    forall i | c <= i < |keys| ensures !before(keys[i]) {
      assert i == c || less(keys[c], keys[i]);
    }
  }

  /** In a sorted list the selected keys are those between the ones before the range and the ones past it. */
  lemma SelectSlice<K(!new)>(less: (K, K) -> bool, bounds: Bounds<K>, keys: seq<K>, before: K -> bool,
      within: K -> bool, lo: nat, hi: nat)
    requires StrictOrder(less) && Sorted(less, keys) && ValidBounds(less, bounds)
    requires (forall k :: before(k) == BeforeRange(less, bounds, k))
      && forall k :: within(k) == WithinMax(less, bounds, k)
    requires Below(keys, before, lo) && Below(keys, within, hi)
    ensures lo <= hi && Select(less, bounds, keys) == keys[lo..hi]
  {
    NoGap(keys, before, within, lo, hi);
    FilterSlice(keys, k => Inside(less, bounds, k), lo, hi);
  }

  /**
   * What a descending query returns: nothing at all when the maximum is excluded and every key lies above it,
   * for then a key is read that was never set.
   */
  ghost function RevSelect<K(!new)>(less: (K, K) -> bool, bounds: Bounds<K>, keys: seq<K>, offset: nat,
      count: Option<nat>): Option<seq<K>> {
    if ValidBounds(less, bounds) && count != Some(0) && bounds.maxex && forall k :: k in keys ==> less(bounds.max, k)
      then None
    else Some(Window(Reverse(Select(less, bounds, keys)), offset, count))
  }

  // ----- ranges of ranks -----

  datatype Ranks = Ranks(min: nat, max: nat, minex: bool, maxex: bool)

  predicate ValidRanks(r: Ranks) {
    if r.minex || r.maxex then r.min < r.max else r.min <= r.max
  }

  function FirstRank(r: Ranks): nat {
    if r.minex then r.min + 1 else r.min
  }

  /** One past the last rank. */
  function EndRank(r: Ranks): nat {
    if r.maxex then r.max else r.max + 1
  }

  /** The elements between two ranks. */
  function RankSlice<K>(keys: seq<K>, r: Ranks): seq<K> {
    if ValidRanks(r) && FirstRank(r) < |keys| then keys[FirstRank(r)..Max(FirstRank(r), Min(EndRank(r), |keys|))]
      else []
  }

  /** Ranks counted from the end select the reverse of a slice counted from the front. */
  lemma ReverseSlice<K>(keys: seq<K>, a: nat, b: nat)
    requires a <= b <= |keys|
    ensures Reverse(keys)[a..b] == Reverse(keys[|keys| - b..|keys| - a])
  {
    var back, part := Reverse(keys), keys[|keys| - b..|keys| - a];
    var turned := Reverse(part);
    forall i | 0 <= i < b - a ensures back[a..b][i] == turned[i] {
      assert back[a + i] == keys[|keys| - 1 - (a + i)];
      assert turned[i] == part[|part| - 1 - i];
    }
  }

  /** An element more at the end does not show in ranks below it. */
  lemma SliceBelow<K>(keys: seq<K>, x: K, r: Ranks)
    requires EndRank(r) <= |keys|
    ensures RankSlice(keys + [x], r) == RankSlice(keys, r)
  {
    var a, b := FirstRank(r), EndRank(r);
    if ValidRanks(r) {
      assert a <= b;
      assert (keys + [x])[a..b] == keys[a..b];
    }
  }

  lemma NoSlice<K>(keys: seq<K>, r: Ranks, offset: nat, count: Option<nat>)
    requires !ValidRanks(r) || FirstRank(r) >= |keys| || count == Some(0)
    ensures Window(RankSlice(keys, r), offset, count) == []
  {
  }

  /** A valid range of ranks that begins within the list. */
  lemma SliceFrom<K>(keys: seq<K>, r: Ranks)
    requires ValidRanks(r) && FirstRank(r) <= |keys|
    ensures FirstRank(r) < EndRank(r) || r.minex
    ensures FirstRank(r) <= EndRank(r) && RankSlice(keys, r) == keys[FirstRank(r)..Min(EndRank(r), |keys|)]
  {
  }

  // ----- ranks from the end -----

  /** Ranks from the end as a slice from the front. */
  lemma TurnedSlice<K>(keys: seq<K>, r: Ranks)
    requires ValidRanks(r) && FirstRank(r) <= |keys|
    ensures FirstRank(r) <= Min(EndRank(r), |keys|)
    ensures RankSlice(Reverse(keys), r) == Reverse(keys[|keys| - Min(EndRank(r), |keys|)..|keys| - FirstRank(r)])
  {
    SliceFrom(Reverse(keys), r);
    ReverseSlice(keys, FirstRank(r), Min(EndRank(r), |keys|));
  }

  /** The skiplist's extra element shows exactly when the ranks reach from within the list past its end. */
  lemma HeadHidden<K>(keys: seq<K>, h: K, r: Ranks)
    ensures RankSlice(Reverse([h] + keys), r) == RankSlice(Reverse(keys), r)
       <==> !(ValidRanks(r) && FirstRank(r) <= |keys| < EndRank(r))
  {
    var back := Reverse(keys);
    assert Reverse([h] + keys) == back + [h];
    if EndRank(r) <= |keys| {
      SliceBelow(back, h, r);
    } else if ValidRanks(r) && FirstRank(r) <= |keys| {
      SliceFrom(back, r);
      SliceFrom(back + [h], r);
      assert |RankSlice(back + [h], r)| == |RankSlice(back, r)| + 1;
    }
  }
}
