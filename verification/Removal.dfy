/** Removing elements equal to a value from a list: which remain, and cutting them out range by range. */
module Removal {

  // ----- what is to remain -----

  /** Without the first `n` elements equal to `value`. */
  function DropFirst<T(==)>(s: seq<T>, value: T, n: nat): seq<T> {
    if s == [] || n == 0 then s
    else if s[0] == value then DropFirst(s[1..], value, n - 1)
    else [s[0]] + DropFirst(s[1..], value, n)
  }

  /** Without the last `n` elements equal to `value`. */
  function DropLast<T(==)>(s: seq<T>, value: T, n: nat): seq<T> {
    if s == [] || n == 0 then s
    else
      var front, x := s[..|s| - 1], s[|s| - 1];
      if x == value then DropLast(front, value, n - 1) else DropLast(front, value, n) + [x]
  }

  function Matches<T(==)>(s: seq<T>, value: T): nat {
    if s == [] then 0 else (if s[0] == value then 1 else 0) + Matches(s[1..], value)
  }

  lemma {:induction false} MatchesSnoc<T>(s: seq<T>, x: T, value: T)
    ensures Matches(s + [x], value) == Matches(s, value) + if x == value then 1 else 0
  {
    if s == [] {
      assert (s + [x])[1..] == [];
    } else {
      MatchesSnoc(s[1..], x, value);
      assert (s + [x])[1..] == s[1..] + [x];
    }
  }

  lemma {:induction false} DropFirstSnoc<T>(s: seq<T>, x: T, value: T, n: nat)
    ensures DropFirst(s + [x], value, n) == DropFirst(s, value, n) + if x == value && Matches(s, value) < n then []
      else [x]
  {
    var all := s + [x];
    if s == [] {
      assert all[1..] == [];
    } else if n > 0 {
      assert all[1..] == s[1..] + [x];
      DropFirstSnoc(s[1..], x, value, if s[0] == value then n - 1 else n);
    }
  }

  /** The elements other than `value`. */
  function Others<T(==)>(s: seq<T>, value: T): seq<T> {
    if s == [] then [] else (if s[0] == value then [] else [s[0]]) + Others(s[1..], value)
  }

  lemma {:induction false} OthersSnoc<T>(s: seq<T>, x: T, value: T)
    ensures Others(s + [x], value) == Others(s, value) + if x == value then [] else [x]
  {
    if s == [] {
      assert (s + [x])[1..] == [];
    } else {
      OthersSnoc(s[1..], x, value);
      assert (s + [x])[1..] == s[1..] + [x];
    }
  }

  /** Up to some place the equal elements are gone and after it all are left; `n` are gone, or all there were. */
  lemma {:induction false} DropFirstExact<T>(s: seq<T>, value: T, n: nat) returns (c: nat)
    ensures c <= |s| && DropFirst(s, value, n) == Others(s[..c], value) + s[c..]
    ensures Matches(s[..c], value) == n || (c == |s| && Matches(s, value) < n)
  {
    if s == [] || n == 0 {
      c := 0;
      assert s[..0] == [] && s[0..] == s;
    } else {
      var d := DropFirstExact(s[1..], value, if s[0] == value then n - 1 else n);
      c := d + 1;
      assert s[..c][1..] == s[1..][..d] && s[c..] == s[1..][d..];
      assert s[..|s|] == s;
    }
  }

  lemma TailSnoc<T>(front: seq<T>, x: T, value: T, c: nat)
    requires c <= |front|
    ensures (front + [x])[..c] == front[..c]
    ensures Others((front + [x])[c..], value) == Others(front[c..], value) + if x == value then [] else [x]
    ensures Matches((front + [x])[c..], value) == Matches(front[c..], value) + if x == value then 1 else 0
  {
    assert (front + [x])[c..] == front[c..] + [x];
    OthersSnoc(front[c..], x, value);
    MatchesSnoc(front[c..], x, value);
  }

  /** The same from the other end. */
  lemma {:induction false} DropLastExact<T>(s: seq<T>, value: T, n: nat) returns (c: nat)
    ensures c <= |s| && DropLast(s, value, n) == s[..c] + Others(s[c..], value)
    ensures Matches(s[c..], value) == n || (c == 0 && Matches(s, value) < n)
  {
    if s == [] || n == 0 {
      c := |s|;
      assert s[..c] == s && s[c..] == [];
    } else {
      var front, x := s[..|s| - 1], s[|s| - 1];
      c := DropLastExact(front, value, if x == value then n - 1 else n);
      assert s == front + [x];
      TailSnoc(front, x, value, c);
      MatchesSnoc(front, x, value);
    }
  }

  // ----- cutting out ranges -----

  /** Items `q` to `q + n`. */
  datatype Range = Range(q: nat, n: nat)

  function Cut<T>(s: seq<T>, r: Range): seq<T>
    requires r.q + r.n <= |s|
  {
    s[..r.q] + s[r.q + r.n..]
  }

  /** Ascending and apart, all before `end`. */
  ghost predicate Ordered(rs: seq<Range>, end: nat) {
    if rs == [] then true
    else
      var r := rs[|rs| - 1];
      r.q + r.n <= end && Ordered(rs[..|rs| - 1], r.q)
  }

  lemma {:induction false} OrderedLater(rs: seq<Range>, end: nat, later: nat)
    requires Ordered(rs, end) && end <= later
    ensures Ordered(rs, later)
  {
  }

  /** The ranges cut out, the last first. */
  function CutAll<T>(s: seq<T>, rs: seq<Range>): seq<T>
    requires Ordered(rs, |s|)
    decreases |rs|
  {
    if rs == [] then s
    else
      var r, front := rs[|rs| - 1], rs[..|rs| - 1];
      OrderedLater(front, r.q, |Cut(s, r)|);
      CutAll(Cut(s, r), front)
  }

  lemma {:induction false} CutAllSnoc<T>(s: seq<T>, x: T, rs: seq<Range>)
    requires Ordered(rs, |s|)
    ensures Ordered(rs, |s + [x]|) && CutAll(s + [x], rs) == CutAll(s, rs) + [x]
    decreases |rs|
  {
    OrderedLater(rs, |s|, |s + [x]|);
    if rs != [] {
      var r, front := rs[|rs| - 1], rs[..|rs| - 1];
      OrderedLater(front, r.q, |Cut(s, r)|);
      assert Cut(s + [x], r) == Cut(s, r) + [x];
      CutAllSnoc(Cut(s, r), x, front);
    }
  }

  /** A further match right after the last range lengthens it. */
  lemma CutLonger<T>(s: seq<T>, x: T, rs: seq<Range>)
    requires rs != [] && Ordered(rs, |s|) && rs[|rs| - 1].q + rs[|rs| - 1].n == |s|
    ensures var r := rs[|rs| - 1]; var more := rs[|rs| - 1 := Range(r.q, r.n + 1)]; Ordered(more, |s + [x]|) && CutAll(s + [x], more) == CutAll(s, rs)
  {
    var r, front := rs[|rs| - 1], rs[..|rs| - 1];
    var more := rs[|rs| - 1 := Range(r.q, r.n + 1)];
    assert more[..|more| - 1] == front;
    assert Cut(s + [x], more[|more| - 1]) == Cut(s, r);
  }

  /** A match elsewhere starts a range of its own. */
  lemma CutOneMore<T>(s: seq<T>, x: T, rs: seq<Range>)
    requires Ordered(rs, |s|)
    ensures var more := rs + [Range(|s|, 1)]; Ordered(more, |s + [x]|) && CutAll(s + [x], more) == CutAll(s, rs)
  {
    var more := rs + [Range(|s|, 1)];
    assert more[..|more| - 1] == rs;
    assert Cut(s + [x], Range(|s|, 1)) == s;
  }

  lemma {:induction false} DropFirstDone<T>(s: seq<T>, t: seq<T>, value: T, n: nat)
    requires Matches(s, value) >= n
    ensures DropFirst(s + t, value, n) == DropFirst(s, value, n) + t
  {
    if s != [] && n > 0 {
      assert (s + t)[1..] == s[1..] + t;
      DropFirstDone(s[1..], t, value, if s[0] == value then n - 1 else n);
    } else if s == [] {
      assert s + t == t;
    }
  }

  lemma {:induction false} CutAllTail<T>(s: seq<T>, t: seq<T>, rs: seq<Range>)
    requires Ordered(rs, |s|)
    ensures Ordered(rs, |s + t|) && CutAll(s + t, rs) == CutAll(s, rs) + t
    decreases |t|
  {
    if t == [] {
      assert s + t == s;
    } else {
      CutAllSnoc(s, t[0], rs);
      CutAllTail(s + [t[0]], t[1..], rs);
      assert (s + [t[0]]) + t[1..] == s + t;
      assert CutAll(s, rs) + [t[0]] + t[1..] == CutAll(s, rs) + t;
    }
  }

  lemma {:induction false} MatchesBound<T>(s: seq<T>, value: T)
    ensures Matches(s, value) <= |s|
  {
    if s != [] {
      MatchesBound(s[1..], value);
    }
  }

  /** Scanned so far: the ranges cut what is to be dropped from the first `i` items. */
  ghost predicate Scanned<T>(s: seq<T>, i: nat, value: T, n: nat, rs: seq<Range>, found: nat) {
    && i <= |s| && Ordered(rs, i) && found == Matches(s[..i], value)
    && CutAll(s[..i], rs) == DropFirst(s[..i], value, n)
  }

  lemma ScanPast<T>(s: seq<T>, i: nat, value: T, n: nat, rs: seq<Range>, found: nat)
    requires Scanned(s, i, value, n, rs, found) && i < |s| && s[i] != value
    ensures Scanned(s, i + 1, value, n, rs, found)
  {
    assert s[..i + 1] == s[..i] + [s[i]];
    MatchesSnoc(s[..i], s[i], value);
    DropFirstSnoc(s[..i], s[i], value, n);
    CutAllSnoc(s[..i], s[i], rs);
  }

  lemma ScanMatch<T>(s: seq<T>, i: nat, value: T, n: nat, rs: seq<Range>, found: nat, longer: bool, more: seq<Range>)
    requires Scanned(s, i, value, n, rs, found) && i < |s| && s[i] == value && found < n
    requires longer ==> rs != [] && rs[|rs| - 1].q + rs[|rs| - 1].n == i
    requires more == if longer then rs[|rs| - 1 := Range(rs[|rs| - 1].q, rs[|rs| - 1].n + 1)] else rs + [Range(i, 1)]
    ensures Scanned(s, i + 1, value, n, more, found + 1)
  {
    assert s[..i + 1] == s[..i] + [s[i]];
    MatchesSnoc(s[..i], s[i], value);
    DropFirstSnoc(s[..i], s[i], value, n);
    if longer {
      CutLonger(s[..i], s[i], rs);
    } else {
      CutOneMore(s[..i], s[i], rs);
    }
  }

  /** When enough matches are found, or nothing is left, the ranges are right for the whole list. */
  lemma ScanEnds<T>(s: seq<T>, i: nat, value: T, n: nat, rs: seq<Range>, found: nat)
    requires Scanned(s, i, value, n, rs, found) && (i == |s| || found >= n)
    ensures Ordered(rs, |s|) && CutAll(s, rs) == DropFirst(s, value, n)
  {
    assert s == s[..i] + s[i..];
    if i == |s| {
      assert s[..i] == s;
    } else {
      DropFirstDone(s[..i], s[i..], value, n);
      CutAllTail(s[..i], s[i..], rs);
    }
  }

  lemma {:induction false} OrderedFront(rs: seq<Range>, end: nat, k: nat)
    requires Ordered(rs, end) && k < |rs|
    ensures Ordered(rs[..k], rs[k].q) && rs[k].q + rs[k].n <= end
    decreases |rs|
  {
    var front := rs[..|rs| - 1];
    if k < |rs| - 1 {
      OrderedFront(front, rs[|rs| - 1].q, k);
      assert front[..k] == rs[..k];
    }
  }

  lemma CutStep<T>(s: seq<T>, rs: seq<Range>, k: nat, bound: nat, now: seq<T>)
    requires 0 < k <= |rs| && Ordered(rs[..k], bound) && bound <= |s| && now == Cut(s, rs[k - 1])
    ensures Ordered(rs[..k - 1], rs[k - 1].q) && rs[k - 1].q <= |now| && Ordered(rs[..k - 1], |now|)
      && Ordered(rs[..k], |s|)
    ensures CutAll(s, rs[..k]) == CutAll(now, rs[..k - 1])
  {
    var front := rs[..k];
    assert front[|front| - 1] == rs[k - 1] && front[..k - 1] == rs[..k - 1];
    OrderedLater(rs[..k - 1], rs[k - 1].q, |now|);
    OrderedLater(front, bound, |s|);
  }

  /** With the ranges from `k` on cut out, the rest is still to be cut, and nothing before `bound` has moved. */
  ghost predicate Halfway<T>(s: seq<T>, was: seq<T>, rs: seq<Range>, k: nat, bound: nat) {
    && k <= |rs| && Ordered(rs, |was|) && bound <= |s| && bound <= |was| && s[..bound] == was[..bound]
    && Ordered(rs[..k], bound) && Ordered(rs[..k], |s|) && CutAll(s, rs[..k]) == CutAll(was, rs)
  }

  lemma CutNext<T>(s: seq<T>, was: seq<T>, rs: seq<Range>, k: nat, bound: nat, now: seq<T>)
    requires Halfway(s, was, rs, k + 1, bound) && k < |rs| && rs[k].q + rs[k].n <= bound && now == Cut(s, rs[k])
    ensures Halfway(now, was, rs, k, rs[k].q)
  {
    CutStep(s, rs, k + 1, bound, now);
    var q := rs[k].q;
    assert now[..q] == s[..q] && s[..q] == s[..bound][..q] && was[..q] == was[..bound][..q];
  }

  lemma LastWithin(rs: seq<Range>, k: nat, bound: nat)
    requires k < |rs| && Ordered(rs[..k + 1], bound)
    ensures rs[k].q + rs[k].n <= bound
  {
    assert rs[..k + 1][k] == rs[k];
  }

  lemma {:induction false} OrderedCons(r: Range, rs: seq<Range>, low: nat, end: nat)
    requires Ordered(rs, end) && (forall k :: 0 <= k < |rs| ==> rs[k].q >= low) && r.q + r.n <= low <= end
    ensures Ordered([r] + rs, end)
    decreases |rs|
  {
    var all := [r] + rs;
    if rs == [] {
      assert all[..|all| - 1] == [];
    } else {
      var last, front := rs[|rs| - 1], rs[..|rs| - 1];
      OrderedCons(r, front, low, last.q);
      assert all[..|all| - 1] == [r] + front;
    }
  }

  /** A range before the others is cut last. */
  lemma {:induction false} CutAllCons<T>(s: seq<T>, r: Range, rs: seq<Range>, low: nat)
    requires Ordered(rs, |s|) && (forall k :: 0 <= k < |rs| ==> rs[k].q >= low) && r.q + r.n <= low <= |s|
    ensures Ordered([r] + rs, |s|) && low <= |CutAll(s, rs)| && CutAll(s, [r] + rs) == Cut(CutAll(s, rs), r)
    decreases |rs|
  {
    OrderedCons(r, rs, low, |s|);
    var all := [r] + rs;
    if rs == [] {
      assert all[..|all| - 1] == [];
    } else {
      var last, front := rs[|rs| - 1], rs[..|rs| - 1];
      OrderedLater(front, last.q, |Cut(s, last)|);
      CutAllCons(Cut(s, last), r, front, low);
      assert all[..|all| - 1] == [r] + front;
    }
  }

  /** Scanned from the back down to `i`: cutting the ranges drops what is to go from there on. */
  ghost predicate ScannedBack<T>(s: seq<T>, i: nat, value: T, n: nat, rs: seq<Range>, kept: seq<T>) {
    && i <= |s| && |rs| <= n && Ordered(rs, |s|) && (forall k :: 0 <= k < |rs| ==> rs[k].q >= i && rs[k].n == 1)
    && CutAll(s, rs) == s[..i] + kept && DropLast(s, value, n) == DropLast(s[..i], value, n - |rs|) + kept
  }

  lemma BackMatch<T>(s: seq<T>, i: nat, value: T, n: nat, rs: seq<Range>, kept: seq<T>)
    requires ScannedBack(s, i, value, n, rs, kept) && i > 0 && s[i - 1] == value && |rs| < n
    ensures ScannedBack(s, i - 1, value, n, [Range(i - 1, 1)] + rs, kept)
  {
    var r := Range(i - 1, 1);
    CutAllCons(s, r, rs, i);
    assert s[..i][..i - 1] == s[..i - 1];
    assert Cut(s[..i] + kept, r) == s[..i - 1] + kept;
  }

  lemma BackPast<T>(s: seq<T>, i: nat, value: T, n: nat, rs: seq<Range>, kept: seq<T>)
    requires ScannedBack(s, i, value, n, rs, kept) && i > 0 && s[i - 1] != value && |rs| < n
    ensures ScannedBack(s, i - 1, value, n, rs, [s[i - 1]] + kept)
  {
    assert s[..i][..i - 1] == s[..i - 1];
    assert s[..i] + kept == s[..i - 1] + ([s[i - 1]] + kept);
    assert DropLast(s[..i], value, n - |rs|) + kept == DropLast(s[..i - 1], value, n - |rs|) + ([s[i - 1]] + kept);
  }

  lemma BackEnds<T>(s: seq<T>, i: nat, value: T, n: nat, rs: seq<Range>, kept: seq<T>)
    requires ScannedBack(s, i, value, n, rs, kept) && (i == 0 || |rs| == n)
    ensures CutAll(s, rs) == DropLast(s, value, n)
  {
  }

  // ----- removal from a list in parts -----

  lemma {:induction false} MatchesConcat<T>(a: seq<T>, b: seq<T>, value: T)
    ensures Matches(a + b, value) == Matches(a, value) + Matches(b, value)
  {
    if a == [] {
      assert a + b == b;
    } else {
      assert (a + b)[1..] == a[1..] + b;
      MatchesConcat(a[1..], b, value);
    }
  }

  function Less(n: nat, k: nat): nat {
    if n >= k then n - k else 0
  }

  lemma DropNone<T>(s: seq<T>, value: T)
    ensures DropFirst(s, value, 0) == s && DropLast(s, value, 0) == s
  {
  }

  /** What the front does not use up of the limit is left for the rest. */
  lemma {:induction false} DropFirstConcat<T>(a: seq<T>, b: seq<T>, value: T, n: nat)
    ensures DropFirst(a + b, value, n) == DropFirst(a, value, n) + DropFirst(b, value, Less(n, Matches(a, value)))
  {
    if a == [] {
      assert a + b == b;
    } else if n > 0 {
      assert (a + b)[1..] == a[1..] + b;
      DropFirstConcat(a[1..], b, value, if a[0] == value then n - 1 else n);
    }
  }

  /** What the back does not use up of the limit is left for the front. */
  lemma {:induction false} DropLastConcat<T>(a: seq<T>, b: seq<T>, value: T, n: nat)
    ensures DropLast(a + b, value, n) == DropLast(a, value, Less(n, Matches(b, value))) + DropLast(b, value, n)
    decreases |b|
  {
    if b == [] {
      assert a + b == a;
    } else if n > 0 {
      var front, x := b[..|b| - 1], b[|b| - 1];
      assert (a + b)[..|a + b| - 1] == a + front;
      assert b == front + [x];
      MatchesSnoc(front, x, value);
      DropLastConcat(a, front, value, if x == value then n - 1 else n);
    }
  }

  lemma {:induction false} DropFirstCount<T>(s: seq<T>, value: T, n: nat)
    ensures |DropFirst(s, value, n)| == |s| - (if Matches(s, value) < n then Matches(s, value) else n)
  {
    if s != [] && n > 0 {
      DropFirstCount(s[1..], value, if s[0] == value then n - 1 else n);
    }
  }

  lemma {:induction false} DropLastCount<T>(s: seq<T>, value: T, n: nat)
    ensures |DropLast(s, value, n)| == |s| - (if Matches(s, value) < n then Matches(s, value) else n)
  {
    if s != [] && n > 0 {
      var front, x := s[..|s| - 1], s[|s| - 1];
      assert s == front + [x];
      MatchesSnoc(front, x, value);
      DropLastCount(front, value, if x == value then n - 1 else n);
    }
  }

  /** A limit that is not reached does not matter. */
  lemma {:induction false} DropFirstAll<T>(s: seq<T>, value: T, n: nat, m: nat)
    requires Matches(s, value) <= n && Matches(s, value) <= m
    ensures DropFirst(s, value, n) == DropFirst(s, value, m)
  {
    if s != [] {
      var tail := s[1..];
      if s[0] == value {
        DropFirstAll(tail, value, n - 1, m - 1);
      } else {
        DropFirstAll(tail, value, n, m);
        DropFirstNone(s, value, n);
        DropFirstNone(s, value, m);
      }
    }
  }

  lemma DropFirstNone<T>(s: seq<T>, value: T, n: nat)
    requires s != [] && s[0] != value
    ensures DropFirst(s, value, n) == [s[0]] + DropFirst(s[1..], value, n)
  {
  }

  // ----- how many were removed -----

  /** The matches found are those that go. */
  lemma ScanCounts<T>(s: seq<T>, i: nat, value: T, n: nat, rs: seq<Range>, found: nat)
    requires Scanned(s, i, value, n, rs, found) && found <= n && (i == |s| || found >= n)
    ensures |DropFirst(s, value, n)| == |s| - found
  {
    assert s == s[..i] + s[i..];
    MatchesConcat(s[..i], s[i..], value);
    DropFirstCount(s, value, n);
    if i == |s| {
      assert s[..i] == s;
    }
  }

  lemma {:induction false} CutAllOnes<T>(s: seq<T>, rs: seq<Range>)
    requires Ordered(rs, |s|) && forall k :: 0 <= k < |rs| ==> rs[k].n == 1
    ensures |CutAll(s, rs)| == |s| - |rs|
    decreases |rs|
  {
    if rs != [] {
      var r, front := rs[|rs| - 1], rs[..|rs| - 1];
      OrderedLater(front, r.q, |Cut(s, r)|);
      CutAllOnes(Cut(s, r), front);
    }
  }
}
