/**
 * Skiplist towers as numbers: position 0 is the head, positions 1 to n the nodes in key order, and
 * `hs[a]` the number of levels the node at position `a` is linked on.
 */
module Towers {

  /** The first position at or after `b` linked on level `i`; the length of `hs` stands for the end. */
  function First(hs: seq<nat>, b: nat, i: nat): (r: nat)
    requires b <= |hs|
    ensures b <= r <= |hs|
    ensures r < |hs| ==> hs[r] > i
    ensures forall k :: b <= k < r ==> hs[k] <= i
    decreases |hs| - b
  {
    if b == |hs| || hs[b] > i then b else First(hs, b + 1, i)
  }

  /** The number of positions a link spans; a link to the end stops at the last node. */
  function Span(n: nat, a: nat, b: nat): nat
    requires a < b <= n
  {
    if b < n then b - a else n - 1 - a
  }

  function Inserted(hs: seq<nat>, c: nat, t: nat): seq<nat>
    requires c <= |hs|
  {
    hs[..c] + [t] + hs[c..]
  }

  function Removed(hs: seq<nat>, c: nat): seq<nat>
    requires c < |hs|
  {
    hs[..c] + hs[c + 1..]
  }

  /** `p` is the last position before `c` linked on level `i`. */
  predicate Precedes(hs: seq<nat>, p: nat, c: nat, i: nat) {
    p < c <= |hs| && hs[p] > i && forall k :: p < k < c ==> hs[k] <= i
  }

  /** Where links lead after a tower of height `t` is put in at `c`. */
  lemma FirstInserted(hs: seq<nat>, c: nat, t: nat, i: nat, a: nat)
    requires c <= |hs| && a < |hs| && hs[a] > i
    ensures a < c && First(hs, a + 1, i) < c ==> First(Inserted(hs, c, t), a + 1, i) == First(hs, a + 1, i)
    ensures a < c && First(hs, a + 1, i) >= c && t > i ==> First(Inserted(hs, c, t), a + 1, i) == c
    ensures a < c && First(hs, a + 1, i) >= c && t <= i ==> First(Inserted(hs, c, t), a + 1, i) == First(hs, a + 1, i) + 1
    ensures a >= c ==> First(Inserted(hs, c, t), a + 2, i) == First(hs, a + 1, i) + 1
  {
    var larger := Inserted(hs, c, t);
    assert forall k :: 0 <= k < |larger| ==> larger[k] == if k < c then hs[k] else if k == c then t else hs[k - 1];
    var before, r := First(hs, a + 1, i), First(larger, if a < c then a + 1 else a + 2, i);
    if a < c && before < c {
      assert larger[before] > i;
    } else if a < c && t > i {
      assert larger[c] > i;
    } else if before < |hs| {
      assert larger[before + 1] > i;
    }
  }

  /** Where the predecessor's link and the new tower's link lead, and how far. */
  lemma PredecessorInserted(hs: seq<nat>, c: nat, t: nat, i: nat, p: nat)
    requires Precedes(hs, p, c, i)
    ensures var n, f, larger := |hs|, First(hs, p + 1, i), Inserted(hs, c, t);
      && f >= c && Span(n, p, f) >= c - 1 - p
      && First(larger, p + 1, i) == (if t > i then c else f + 1)
      && First(larger, c + 1, i) == f + 1
      && Span(n + 1, c, f + 1) == Span(n, p, f) - (c - 1) + p
      && Span(n + 1, p, c) == c - p
      && Span(n + 1, p, f + 1) == Span(n, p, f) + 1
  {
    FirstInserted(hs, c, t, i, p);
    var larger, f := Inserted(hs, c, t), First(hs, p + 1, i);
    assert forall k :: c < k < |larger| ==> larger[k] == hs[k - 1];
    if f < |hs| { assert larger[f + 1] > i; }
  }
}
