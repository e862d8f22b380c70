/** Nodes of a quicklist, as lists of elements with a byte budget, and how splitting and merging keep the elements. */
module QuickListNodes {
  type Nodes<T> = seq<seq<T>>

  const EMPTY: nat := 7

  /** The elements of all nodes, in order. */
  function Flat<T>(nodes: Nodes<T>): seq<T> {
    if nodes == [] then [] else nodes[0] + Flat(nodes[1..])
  }

  lemma {:induction false} FlatConcat<T>(a: Nodes<T>, b: Nodes<T>)
    ensures Flat(a + b) == Flat(a) + Flat(b)
  {
    if a == [] {
      assert a + b == b;
    } else {
      var all, tail := a + b, a[1..];
      assert all[0] == a[0] && all[1..] == tail + b;
      FlatConcat(tail, b);
      Regroup(a[0], Flat(tail), Flat(b));
    }
  }

  lemma Regroup<T>(a: seq<T>, b: seq<T>, c: seq<T>)
    ensures (a + b) + c == a + (b + c)
  {
  }

  lemma FlatOne<T>(n: seq<T>)
    ensures Flat([n]) == n
  {
    assert [n][1..] == [];
  }

  /** Nodes `i` to `j` replaced by others. */
  function Splice<T>(nodes: Nodes<T>, i: nat, j: nat, news: Nodes<T>): Nodes<T>
    requires i <= j <= |nodes|
  {
    nodes[..i] + news + nodes[j..]
  }

  /** The elements change as those of the replaced nodes do. */
  lemma FlatSplice<T>(nodes: Nodes<T>, i: nat, j: nat, news: Nodes<T>)
    requires i <= j <= |nodes|
    ensures Flat(nodes) == Flat(nodes[..i]) + Flat(nodes[i..j]) + Flat(nodes[j..])
    ensures Flat(Splice(nodes, i, j, news)) == Flat(nodes[..i]) + Flat(news) + Flat(nodes[j..])
  {
    var a, m, b := nodes[..i], nodes[i..j], nodes[j..];
    assert nodes == (a + m) + b;
    FlatConcat(a + m, b);
    FlatConcat(a, m);
    FlatConcat(a + news, b);
    FlatConcat(a, news);
  }

  lemma FlatAt<T>(nodes: Nodes<T>, i: nat)
    requires i < |nodes|
    ensures Flat(nodes) == Flat(nodes[..i]) + nodes[i] + Flat(nodes[i + 1..])
  {
    FlatSplice(nodes, i, i + 1, []);
    assert nodes[i..i + 1] == [nodes[i]];
    FlatOne(nodes[i]);
  }

  // ----- sizes -----

  /** The bytes of some entries. */
  function Sum<T>(weigh: T -> nat, n: seq<T>): nat {
    if n == [] then 0 else weigh(n[0]) + Sum(weigh, n[1..])
  }

  lemma {:induction false} SumConcat<T>(weigh: T -> nat, a: seq<T>, b: seq<T>)
    ensures Sum(weigh, a + b) == Sum(weigh, a) + Sum(weigh, b)
  {
    if a == [] {
      assert a + b == b;
    } else {
      var all, tail := a + b, a[1..];
      assert all[0] == a[0] && all[1..] == tail + b;
      SumConcat(weigh, tail, b);
    }
  }

  /** The bytes of a node's listpack. */
  function Total<T>(weigh: T -> nat, n: seq<T>): nat {
    EMPTY + Sum(weigh, n)
  }

  /** A node holds something, and no more than the limit unless it is a single element. */
  predicate NodeOk<T>(weigh: T -> nat, max: nat, n: seq<T>) {
    n != [] && (Total(weigh, n) <= max || |n| == 1)
  }

  ghost predicate AllOk<T>(weigh: T -> nat, max: nat, nodes: Nodes<T>) {
    forall i :: 0 <= i < |nodes| ==> NodeOk(weigh, max, nodes[i])
  }

  predicate Fits<T>(weigh: T -> nat, max: nat, n: seq<T>, v: T) {
    n == [] || (Total(weigh, n) <= max && weigh(v) <= max - Total(weigh, n))
  }

  predicate Mergeable<T>(weigh: T -> nat, max: nat, a: seq<T>, b: seq<T>) {
    Total(weigh, a) + Total(weigh, b) - EMPTY <= max
  }

  lemma MergedOk<T>(weigh: T -> nat, max: nat, a: seq<T>, b: seq<T>)
    requires NodeOk(weigh, max, a) && NodeOk(weigh, max, b)
    ensures Total(weigh, a + b) == Total(weigh, a) + Total(weigh, b) - EMPTY
    ensures Mergeable(weigh, max, a, b) ==> NodeOk(weigh, max, a + b)
  {
    SumConcat(weigh, a, b);
  }

  lemma SpliceOk<T>(weigh: T -> nat, max: nat, nodes: Nodes<T>, i: nat, j: nat, news: Nodes<T>)
    requires AllOk(weigh, max, nodes) && AllOk(weigh, max, news) && i <= j <= |nodes|
    ensures AllOk(weigh, max, Splice(nodes, i, j, news))
  {
    var all := Splice(nodes, i, j, news);
    forall k | 0 <= k < |all| ensures NodeOk(weigh, max, all[k]) {
      if k >= i + |news| {
        assert all[k] == nodes[k - i - |news| + j];
      }
    }
  }

  /** A part of a node within the limit is within the limit. */
  lemma PartOk<T>(weigh: T -> nat, max: nat, n: seq<T>, i: nat, j: nat)
    requires NodeOk(weigh, max, n) && i < j <= |n|
    ensures NodeOk(weigh, max, n[i..j])
  {
    assert n == n[..i] + n[i..j] + n[j..];
    SumConcat(weigh, n[..i] + n[i..j], n[j..]);
    SumConcat(weigh, n[..i], n[i..j]);
  }
}
