/**
 * Deleting the elements equal to a value from a listpack (memory/listpack.cpp): the matches are collected first
 * and cut out from the last to the first.
 */
module ListPackMatching {
  import opened Bytes
  import opened ListPackLayout
  import opened ListPack
  import opened Removal

  // ----- collecting the matches -----

  /** The collected indices and lengths are those of the ranges. */
  ghost predicate Located(l: ListPack, starts: seq<nat>, lens: seq<nat>, rs: seq<Range>)
    reads l
  {
    && |starts| == |lens| == |rs| && Ordered(rs, |l.items|)
    && forall k :: 0 <= k < |rs| ==> rs[k].q <= |l.items| && starts[k] == l.Position(rs[k].q) && lens[k] == rs[k].n
  }

  ghost predicate EndsAt(l: ListPack, rs: seq<Range>, previous: Option<nat>)
    reads l
  {
    if previous.None? then rs == []
    else
      && rs != [] && rs[|rs| - 1].n >= 1 && rs[|rs| - 1].q + rs[|rs| - 1].n <= |l.items|
      && previous.value == l.Position(rs[|rs| - 1].q + rs[|rs| - 1].n - 1)
  }

  /** The state of the first pass after `i` items. */
  ghost predicate Collected(l: ListPack, i: nat, value: bytes, n: nat, starts: seq<nat>, lens: seq<nat>,
      previous: Option<nat>, rs: seq<Range>, found: nat)
    reads l
  {
    Scanned<bytes>(l.items, i, value, n, rs, found) && Located(l, starts, lens, rs) && EndsAt(l, rs, previous)
  }

  /** Whether a match comes right after the last range. */
  method Adjacent(l: ListPack, previous: Option<nat>, idx: nat, ghost i: nat, ghost rs: seq<Range>)
      returns (longer: bool)
    requires l.Valid() && i < |l.items| && idx == l.Position(i) && Ordered(rs, i) && EndsAt(l, rs, previous)
    ensures longer == (rs != [] && rs[|rs| - 1].q + rs[|rs| - 1].n == i)
  {
    if previous.None? {
      return false;
    }
    ghost var m := rs[|rs| - 1].q + rs[|rs| - 1].n;
    var next := l.Next(previous.value, m - 1);
    if m < i {
      l.PositionsGrow(m, i);
    }
    longer := next == Some(idx);
  }

  /** Adds a match: to the last range if it comes right after it, else as a range of its own. */
  method AddMatch(l: ListPack, starts: seq<nat>, lens: seq<nat>, previous: Option<nat>, idx: nat, ghost i: nat,
      ghost rs: seq<Range>, value: bytes, ghost n: nat, ghost found: nat)
    returns (starts': seq<nat>, lens': seq<nat>, ghost more: seq<Range>)
    requires l.Valid() && i < |l.items| && idx == l.Position(i) && l.items[i] == value && (found < n || n == |l.items|)
    requires Collected(l, i, value, n, starts, lens, previous, rs, found)
    ensures Collected(l, i + 1, value, n, starts', lens', Some(idx), more, found + 1) && found < n
  {
    MatchesBound<bytes>(l.items[..i], value);
    var longer := Adjacent(l, previous, idx, i, rs);
    more := if longer then rs[|rs| - 1 := Range(rs[|rs| - 1].q, rs[|rs| - 1].n + 1)] else rs + [Range(i, 1)];
    ScanMatch<bytes>(l.items, i, value, n, rs, found, longer, more);
    OrderedLater(more, i + 1, |l.items|);
    if longer {
      starts', lens' := starts, lens[|lens| - 1 := lens[|lens| - 1] + 1];
      LocatedLonger(l, starts, lens, rs, idx, i);
    } else {
      starts', lens' := starts + [idx], lens + [1];
      LocatedMore(l, starts, lens, rs, idx, i);
    }
  }

  lemma LocatedLonger(l: ListPack, starts: seq<nat>, lens: seq<nat>, rs: seq<Range>, idx: nat, i: nat)
    requires Located(l, starts, lens, rs) && i < |l.items| && idx == l.Position(i) && rs != []
      && rs[|rs| - 1].q + rs[|rs| - 1].n == i
    requires Ordered(rs[|rs| - 1 := Range(rs[|rs| - 1].q, rs[|rs| - 1].n + 1)], |l.items|)
    ensures var more := rs[|rs| - 1 := Range(rs[|rs| - 1].q, rs[|rs| - 1].n + 1)];
            Located(l, starts, lens[|lens| - 1 := lens[|lens| - 1] + 1], more) && EndsAt(l, more, Some(idx))
  {
  }

  lemma LocatedMore(l: ListPack, starts: seq<nat>, lens: seq<nat>, rs: seq<Range>, idx: nat, i: nat)
    requires Located(l, starts, lens, rs) && i < |l.items| && idx == l.Position(i)
      && Ordered(rs + [Range(i, 1)], |l.items|)
    ensures Located(l, starts + [idx], lens + [1], rs + [Range(i, 1)]) && EndsAt(l, rs + [Range(i, 1)], Some(idx))
  {
  }

  lemma PassOver(l: ListPack, i: nat, value: bytes, n: nat, starts: seq<nat>, lens: seq<nat>, previous: Option<nat>,
      rs: seq<Range>, found: nat)
    requires Collected(l, i, value, n, starts, lens, previous, rs, found) && i < |l.items| && l.items[i] != value
    ensures Collected(l, i + 1, value, n, starts, lens, previous, rs, found)
  {
    ScanPast<bytes>(l.items, i, value, n, rs, found);
  }

  lemma CollectedAll(l: ListPack, i: nat, value: bytes, n: nat, starts: seq<nat>, lens: seq<nat>, previous: Option<nat>,
      rs: seq<Range>, found: nat)
    requires Collected(l, i, value, n, starts, lens, previous, rs, found) && found <= n
      && (i == |l.items| || found >= n)
    ensures Ordered(rs, |l.items|) && CutAll<bytes>(l.items, rs) == DropFirst<bytes>(l.items, value, n)
    ensures found == |l.items| - |CutAll<bytes>(l.items, rs)|
  {
    ScanCounts<bytes>(l.items, i, value, n, rs, found);
    ScanEnds<bytes>(l.items, i, value, n, rs, found);
  }

  /** The first pass from the front: the ranges of the matches, at most `limit` of them unless it is zero. */
  method CollectForward(l: ListPack, value: bytes, limit: nat)
      returns (starts: seq<nat>, lens: seq<nat>, found: nat, ghost rs: seq<Range>)
    requires l.Valid()
    ensures Located(l, starts, lens, rs) && CutAll<bytes>(l.items, rs) == DropFirst<bytes>(l.items, value,
      if limit == 0 then |l.items| else limit)
    ensures found == |l.items| - |CutAll<bytes>(l.items, rs)|
  {
    starts, lens, found, rs := [], [], 0, [];
    var previous: Option<nat> := None;
    var idx := l.First();
    ghost var i, n := 0, if limit == 0 then |l.items| else limit;
    while idx.Some? && (limit == 0 || found < limit)
      invariant 0 <= i <= |l.items| && idx == if i < |l.items| then Some(l.Position(i)) else None
      invariant Collected(l, i, value, n, starts, lens, previous, rs, found) && found <= n
      decreases |l.items| - i
    {
      var s := l.Get(idx.value, i);
      if s == value {
        starts, lens, rs := AddMatch(l, starts, lens, previous, idx.value, i, rs, value, n, found);
        previous, found := idx, found + 1;
      } else {
        PassOver(l, i, value, n, starts, lens, previous, rs, found);
      }
      idx := l.Next(idx.value, i);
      i := i + 1;
    }
    CollectedAll(l, i, value, n, starts, lens, previous, rs, found);
  }

  // ----- cutting from the last range to the first -----

  /** What is cut behind `bound` does not move what lies before it. */
  lemma StillThere(l: ListPack, was: seq<Item>, bound: nat, q: nat)
    requires bound <= |l.items| && bound <= |was| && l.items[..bound] == was[..bound] && q <= bound
    ensures l.Position(q) == HEADER + Offset(l.entry, was, q)
  {
    assert l.items[..q] == l.items[..bound][..q] && was[..q] == was[..bound][..q];
  }

  /** The second pass. */
  method DeleteRanges(l: ListPack, starts: seq<nat>, lens: seq<nat>, ghost rs: seq<Range>)
    requires l.Valid() && Located(l, starts, lens, rs)
    modifies l, l.lp
    ensures l.Valid() && (l.lp == old(l.lp) || fresh(l.lp)) && l.items == CutAll<bytes>(old(l.items), rs)
      && l.lp.Length <= old(l.lp.Length)
  {
    ghost var was, bound: nat := l.items, |l.items|;
    assert rs[..|rs|] == rs;
    for k := |starts| downto 0
      invariant l.Valid() && (l.lp == old(l.lp) || fresh(l.lp)) && l.lp.Length <= old(l.lp.Length)
        && Halfway<bytes>(l.items, was, rs, k, bound)
    {
      ghost var s := l.items;
      LastWithin(rs, k, bound);
      StillThere(l, was, bound, rs[k].q);
      var deleted := l.DeleteRange(starts[k], rs[k].q, lens[k]);
      CutNext<bytes>(s, was, rs, k, bound, l.items);
      bound := rs[k].q;
    }
  }

  // ----- from the back -----

  lemma LocatedCons(l: ListPack, starts: seq<nat>, lens: seq<nat>, rs: seq<Range>, idx: nat, q: nat)
    requires Located(l, starts, lens, rs) && q < |l.items| && idx == l.Position(q)
      && Ordered([Range(q, 1)] + rs, |l.items|)
    ensures Located(l, [idx] + starts, [1] + lens, [Range(q, 1)] + rs)
  {
    var starts', lens', rs' := [idx] + starts, [1] + lens, [Range(q, 1)] + rs;
    forall k | 0 <= k < |rs'| ensures rs'[k].q <= |l.items| && starts'[k] == l.Position(rs'[k].q) && lens'[k]
      == rs'[k].n {
      assert k > 0 ==> rs'[k] == rs[k - 1] && starts'[k] == starts[k - 1] && lens'[k] == lens[k - 1];
    }
  }

  ghost predicate CollectedBack(l: ListPack, i: nat, value: bytes, n: nat, starts: seq<nat>, lens: seq<nat>,
      rs: seq<Range>, kept: seq<bytes>)
    reads l
  {
    ScannedBack<bytes>(l.items, i, value, n, rs, kept) && Located(l, starts, lens, rs)
  }

  lemma AddBack(l: ListPack, i: nat, value: bytes, n: nat, starts: seq<nat>, lens: seq<nat>, rs: seq<Range>,
      kept: seq<bytes>, idx: nat)
    requires CollectedBack(l, i, value, n, starts, lens, rs, kept) && 0 < i <= |l.items| && l.items[i - 1] == value
      && |rs| < n && idx == l.Position(i - 1)
    ensures CollectedBack(l, i - 1, value, n, [idx] + starts, [1] + lens, [Range(i - 1, 1)] + rs, kept)
  {
    BackMatch<bytes>(l.items, i, value, n, rs, kept);
    LocatedCons(l, starts, lens, rs, idx, i - 1);
  }

  lemma PassBack(l: ListPack, i: nat, value: bytes, n: nat, starts: seq<nat>, lens: seq<nat>, rs: seq<Range>,
      kept: seq<bytes>)
    requires CollectedBack(l, i, value, n, starts, lens, rs, kept) && 0 < i <= |l.items| && l.items[i - 1] != value
      && |rs| < n
    ensures CollectedBack(l, i - 1, value, n, starts, lens, rs, [l.items[i - 1]] + kept)
  {
    BackPast<bytes>(l.items, i, value, n, rs, kept);
  }

  lemma StartBack(l: ListPack, value: bytes, n: nat)
    ensures CollectedBack(l, |l.items|, value, n, [], [], [], [])
  {
    assert l.items[..|l.items|] == l.items;
  }

  lemma CollectedBackAll(l: ListPack, i: nat, value: bytes, n: nat, starts: seq<nat>, lens: seq<nat>, rs: seq<Range>,
      kept: seq<bytes>)
    requires CollectedBack(l, i, value, n, starts, lens, rs, kept) && (i == 0 || |rs| == n)
    ensures CutAll<bytes>(l.items, rs) == DropLast<bytes>(l.items, value, n)
      && |starts| == |l.items| - |CutAll<bytes>(l.items, rs)|
  {
    CutAllOnes<bytes>(l.items, rs);
    BackEnds<bytes>(l.items, i, value, n, rs, kept);
  }

  /** The pass from the back: the last `limit` matches. */
  method CollectBackward(l: ListPack, value: bytes, limit: nat)
      returns (starts: seq<nat>, lens: seq<nat>, ghost rs: seq<Range>)
    requires l.Valid()
    ensures Located(l, starts, lens, rs) && CutAll<bytes>(l.items, rs) == DropLast<bytes>(l.items, value, limit)
    ensures |starts| == |l.items| - |CutAll<bytes>(l.items, rs)|
  {
    starts, lens, rs := [], [], [];
    ghost var i, kept: seq<bytes> := |l.items|, [];
    StartBack(l, value, limit);
    var idx := l.Last();
    while idx.Some? && |starts| < limit
      invariant 0 <= i <= |l.items| && idx == if i > 0 then Some(l.Position(i - 1)) else None
      invariant CollectedBack(l, i, value, limit, starts, lens, rs, kept)
      decreases i
    {
      var at := idx.value;
      var s := l.Get(at, i - 1);
      idx := l.Prev(at, i - 1);
      if s == value {
        AddBack(l, i, value, limit, starts, lens, rs, kept, at);
        starts, lens, rs := [at] + starts, [1] + lens, [Range(i - 1, 1)] + rs;
      } else {
        PassBack(l, i, value, limit, starts, lens, rs, kept);
        kept := [l.items[i - 1]] + kept;
      }
      i := i - 1;
    }
    CollectedBackAll(l, i, value, limit, starts, lens, rs, kept);
  }

  /**
   * Deletes the elements equal to a value: all of them, or the first or last `limit`. From the back the
   * matches are deleted one by one, from the front in runs; both from the last to the first.
   */
  method DeleteMatching(l: ListPack, value: bytes, limit: nat, fromTail: bool) returns (removed: nat)
    requires l.Valid()
    modifies l, l.lp
    ensures l.Valid() && (l.lp == old(l.lp) || fresh(l.lp)) && removed == |old(l.items)| - |l.items|
      && l.lp.Length <= old(l.lp.Length)
    ensures l.items == if fromTail && limit != 0 then DropLast<bytes>(old(l.items), value, limit)
      else DropFirst<bytes>(old(l.items), value, if limit == 0 then |old(l.items)| else limit)
  {
    var starts, lens;
    ghost var rs;
    if fromTail && limit != 0 {
      starts, lens, rs := CollectBackward(l, value, limit);
      removed := |starts|;
    } else {
      starts, lens, removed, rs := CollectForward(l, value, limit);
    }
    DeleteRanges(l, starts, lens, rs);
  }
}
