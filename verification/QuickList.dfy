/** The quicklist of memory/quicklist.cpp: a list kept in nodes of limited size. */
module QuickList {
  import opened Bytes
  import opened Removal
  import opened QuickListNodes

  /** No two neighbours would fit in one node. */
  ghost predicate Settled<T>(weigh: T -> nat, max: nat, nodes: Nodes<T>, upTo: nat) {
    forall i :: 0 <= i < upTo && i + 1 < |nodes| ==> !Mergeable(weigh, max, nodes[i], nodes[i + 1])
  }

  ghost predicate NonEmpty<T>(nodes: Nodes<T>) {
    forall i :: 0 <= i < |nodes| ==> nodes[i] != []
  }

  lemma {:induction false} FlatLength<T>(nodes: Nodes<T>)
    requires NonEmpty(nodes)
    ensures |Flat(nodes)| >= |nodes|
  {
    if nodes != [] {
      FlatLength(nodes[1..]);
    }
  }

  lemma FlatMore<T>(nodes: Nodes<T>, i: nat)
    requires i < |nodes|
    ensures |Flat(nodes[i..])| == |nodes[i]| + |Flat(nodes[i + 1..])|
  {
    assert nodes[i..][1..] == nodes[i + 1..];
  }

  /** Two nodes into one. */
  function Merged<T>(nodes: Nodes<T>, i: nat): Nodes<T>
    requires i + 1 < |nodes|
  {
    Splice(nodes, i, i + 2, [nodes[i] + nodes[i + 1]])
  }

  lemma MergedKeeps<T>(weigh: T -> nat, max: nat, nodes: Nodes<T>, i: nat)
    requires AllOk(weigh, max, nodes) && i + 1 < |nodes| && Mergeable(weigh, max, nodes[i], nodes[i + 1])
    ensures AllOk(weigh, max, Merged(nodes, i)) && Flat(Merged(nodes, i)) == Flat(nodes)
      && |Merged(nodes, i)| == |nodes| - 1
  {
    var a, b := nodes[i], nodes[i + 1];
    MergedOk(weigh, max, a, b);
    SpliceOk(weigh, max, nodes, i, i + 2, [a + b]);
    FlatSplice(nodes, i, i + 2, [a + b]);
    FlatOne(a + b);
    assert nodes[i..i + 2] == [a] + [b];
    FlatConcat([a], [b]);
    FlatOne(a);
    FlatOne(b);
  }

  /** A node that has grown to the right is no easier to merge with its left neighbour. */
  lemma StillSettled<T>(weigh: T -> nat, max: nat, nodes: Nodes<T>, i: nat)
    requires AllOk(weigh, max, nodes) && i + 1 < |nodes| && Settled(weigh, max, nodes, i)
    ensures Settled(weigh, max, Merged(nodes, i), i)
  {
    var now := Merged(nodes, i);
    MergedOk(weigh, max, nodes[i], nodes[i + 1]);
    forall k | 0 <= k < i && k + 1 < |now| ensures !Mergeable(weigh, max, now[k], now[k + 1]) {
      assert now[k] == nodes[k] && (k + 1 < i ==> now[k + 1] == nodes[k + 1]);
    }
  }

  class QuickList<T(==)> {
    const weigh: T -> nat
    const max: nat
    var nodes: Nodes<T>
    var size: nat
    var nodeCount: nat

    /** Every node is within its limits, and their number is kept. */
    ghost predicate Counted()
      reads `nodes, `nodeCount
    {
      AllOk(weigh, max, nodes) && nodeCount == |nodes|
    }

    ghost predicate Valid()
      reads this
    {
      Counted() && size == |Flat(nodes)|
    }

    ghost function Items(): seq<T>
      reads this
    {
      Flat(nodes)
    }

    constructor (weigh: T -> nat, nodeMaxBytes: nat)
      ensures Valid() && Items() == [] && this.weigh == weigh && max == Max(nodeMaxBytes, EMPTY)
    {
      this.weigh, max := weigh, Max(nodeMaxBytes, EMPTY);
      nodes, size, nodeCount := [], 0, 0;
    }

    method LPush(v: T)
      requires Valid()
      modifies this
      ensures Valid() && Items() == [v] + old(Items())
      ensures nodes == if old(nodes) != [] && Total(weigh, old(nodes)[0]) + weigh(v) <= max
        then [[v] + old(nodes)[0]] + old(nodes)[1..] else [[v]] + old(nodes)
    {
      if nodes == [] || !Fits(weigh, max, nodes[0], v) {
        nodes, nodeCount := [[v]] + nodes, nodeCount + 1;
        assert nodes[1..] == old(nodes);
      } else {
        SumConcat(weigh, [v], nodes[0]);
        assert [v][1..] == [];
        nodes := nodes[0 := [v] + nodes[0]];
        assert nodes[1..] == old(nodes)[1..];
      }
      size := size + 1;
    }

    method RPush(v: T)
      requires Valid()
      modifies this
      ensures Valid() && Items() == old(Items()) + [v]
      ensures var last := |old(nodes)| - 1;
        nodes == if last >= 0 && Total(weigh, old(nodes)[last]) + weigh(v) <= max
          then old(nodes)[..last] + [old(nodes)[last] + [v]] else old(nodes) + [[v]]
    {
      var last := |nodes| - 1;
      if nodes == [] || !Fits(weigh, max, nodes[last], v) {
        FlatConcat(nodes, [[v]]);
        FlatOne([v]);
        nodes, nodeCount := nodes + [[v]], nodeCount + 1;
      } else {
        SumConcat(weigh, nodes[last], [v]);
        assert [v][1..] == [];
        FlatAt(nodes, last);
        ghost var was := nodes;
        nodes := nodes[last := nodes[last] + [v]];
        FlatAt(nodes, last);
        assert nodes[..last] == was[..last] && nodes[last + 1..] == was[last + 1..] == [];
      }
      size := size + 1;
    }

    /** Merges a node with the next one if both fit in one. */
    method MergeNext(i: nat)
      requires Valid()
      modifies this
      ensures Valid() && Items() == old(Items())
      ensures nodes == if i + 1 < |old(nodes)| && Mergeable(weigh, max, old(nodes)[i], old(nodes)[i + 1])
        then Merged(old(nodes), i) else old(nodes)
    {
      if i + 1 < |nodes| && Mergeable(weigh, max, nodes[i], nodes[i + 1]) {
        MergedKeeps(weigh, max, nodes, i);
        nodes, nodeCount := Merged(nodes, i), nodeCount - 1;
      }
    }

    /** Merges a node with its neighbours: the one before once, the ones after as long as they fit. */
    method MergeAround(at: nat)
      requires Valid() && at < |nodes|
      modifies this
      ensures Valid() && Items() == old(Items())
    {
      var i := at;
      if i > 0 && Mergeable(weigh, max, nodes[i - 1], nodes[i]) {
        i := i - 1;
        MergeNext(i);
      }
      while i + 1 < |nodes| && Mergeable(weigh, max, nodes[i], nodes[i + 1])
        invariant Valid() && Items() == old(Items())
        decreases |nodes|
      {
        MergeNext(i);
      }
    }

    /** Merges wherever neighbours fit in one node; afterwards none do. */
    method MergeAll()
      requires Valid()
      modifies this
      ensures Valid() && Items() == old(Items()) && Settled(weigh, max, nodes, |nodes|)
    {
      var i := 0;
      while i < |nodes|
        invariant Valid() && Items() == old(Items()) && 0 <= i <= |nodes| && Settled(weigh, max, nodes, i)
        decreases |nodes| - i
      {
        while i + 1 < |nodes| && Mergeable(weigh, max, nodes[i], nodes[i + 1])
          invariant Valid() && Items() == old(Items()) && i < |nodes| && Settled(weigh, max, nodes, i)
          decreases |nodes|
        {
          StillSettled(weigh, max, nodes, i);
          MergeNext(i);
        }
        i := i + 1;
      }
    }

    /** Replaces node `i` by what is left of it, if anything is. */
    method Shrink(i: nat, rest: seq<T>)
      requires Counted() && i < |nodes| && (rest != [] ==> NodeOk(weigh, max, rest))
      modifies `nodes, `nodeCount
      ensures Counted() && Flat(nodes) == Flat(old(nodes)[..i]) + rest + Flat(old(nodes)[i + 1..])
      ensures Shrunk(old(nodes), nodes, i, rest)
    {
      ghost var news := if rest == [] then [] else [rest];
      SpliceOk(weigh, max, nodes, i, i + 1, news);
      FlatSplice(nodes, i, i + 1, news);
      FlatOne(rest);
      ShrunkParts(nodes, i, rest);
      nodes := Splice(nodes, i, i + 1, if rest == [] then [] else [rest]);
      nodeCount := if rest == [] then nodeCount - 1 else nodeCount;
    }

    method LPop() returns (v: Option<T>)
      requires Valid()
      modifies this
      ensures Valid() && v == (if old(Items()) == [] then None else Some(old(Items())[0]))
      ensures Items() == if old(Items()) == [] then [] else old(Items())[1..]
    {
      if nodes == [] {
        return None;
      }
      HeadItem(weigh, max, nodes);
      v := Some(nodes[0][0]);
      Shrink(0, nodes[0][1..]);
      size := size - 1;
      MergeNext(0);
    }

    /** Takes the last element out of the last node. */
    method DropTail() returns (x: T)
      requires Counted() && nodes != []
      modifies `nodes, `nodeCount
      ensures Counted() && old(Flat(nodes)) == Flat(nodes) + [x]
    {
      TailItem(weigh, max, nodes);
      var tail := nodes[|nodes| - 1];
      x := tail[|tail| - 1];
      ghost var all := Flat(nodes);
      assert all == all[..|all| - 1] + [x];
      Shrink(|nodes| - 1, tail[..|tail| - 1]);
    }

    method RPop() returns (v: Option<T>)
      requires Valid()
      modifies this
      ensures Valid() && v == (if old(Items()) == [] then None else Some(old(Items())[|old(Items())| - 1]))
      ensures Items() == if old(Items()) == [] then [] else old(Items())[..|old(Items())| - 1]
    {
      if nodes == [] {
        return None;
      }
      var x := DropTail();
      v := Some(x);
      size := size - 1;
      if |nodes| >= 2 {
        MergeNext(|nodes| - 2);
      }
    }

    // ----- changing an element -----

    /** The node of an element and its place there, searched from the nearer end. */
    method Locate(index: nat) returns (at: Option<(nat, nat)>)
      requires Valid()
      ensures at.None? <==> index >= |Items()|
      ensures at.Some? ==> At(nodes, index, at.value.0, at.value.1)
    {
      if index >= size {
        return None;
      }
      var i, local;
      if index < size / 2 {
        i, local := LocateForward(index);
      } else {
        i, local := LocateBackward(index);
      }
      return Some((i, local));
    }

    method LocateForward(index: nat) returns (i: nat, local: nat)
      requires Valid() && index < |Items()|
      ensures At(nodes, index, i, local)
    {
      i := 0;
      var first := 0;
      AllFront(nodes, i);
      while index - first >= |nodes[i]|
        invariant 0 <= i < |nodes| && first == |Flat(nodes[..i])| <= index
        decreases |nodes| - i
      {
        FrontMore(nodes, i);
        first := first + |nodes[i]|;
        i := i + 1;
        AllFront(nodes, i);
      }
      local := index - first;
    }

    method LocateBackward(index: nat) returns (i: nat, local: nat)
      requires Valid() && index < |Items()|
      ensures At(nodes, index, i, local)
    {
      i := |nodes| - 1;
      AllFront(nodes, |nodes|);
      FrontMore(nodes, i);
      var first := size - |nodes[i]|;
      while index < first
        invariant 0 <= i < |nodes| && first == |Flat(nodes[..i])| && index < |Flat(nodes[..i + 1])|
        decreases i
      {
        i := i - 1;
        FrontMore(nodes, i);
        first := first - |nodes[i]|;
      }
      FrontMore(nodes, i);
      local := index - first;
    }

    /** Splits every node over the limit in halves, from node `from` on, until each is within it or a single element. */
    method NormalizeNodeSizesFrom(from: nat)
      requires NonEmpty(nodes) && nodeCount == |nodes| && from <= |nodes| && AllOk(weigh, max, nodes[..from])
      modifies `nodes, `nodeCount
      ensures Counted() && Flat(nodes) == old(Flat(nodes)) && |nodes| >= |old(nodes)|
    {
      var c := from;
      while c < |nodes|
        invariant NonEmpty(nodes) && nodeCount == |nodes| && 0 <= c <= |nodes| && AllOk(weigh, max, nodes[..c])
        invariant Flat(nodes) == old(Flat(nodes)) && |nodes| >= |old(nodes)|
        decreases |Flat(nodes[c..])|
      {
        ghost var left := |Flat(nodes[c..])|;
        while Total(weigh, nodes[c]) > max && |nodes[c]| > 1
          invariant NonEmpty(nodes) && nodeCount == |nodes| && 0 <= c < |nodes| && AllOk(weigh, max, nodes[..c])
          invariant Flat(nodes) == old(Flat(nodes)) && |nodes| >= |old(nodes)| && |Flat(nodes[c..])| == left
          decreases |nodes[c]|
        {
          HalvedKeeps(nodes, c);
          nodes, nodeCount := Halved(nodes, c), nodeCount + 1;
        }
        FlatMore(nodes, c);
        OneMoreOk(weigh, max, nodes, c);
        c := c + 1;
      }
      assert nodes[..c] == nodes;
    }

    method Set(index: nat, v: T) returns (ok: bool)
      requires Valid()
      modifies this
      ensures Valid() && ok == (index < |old(Items())|)
      ensures Items() == if ok then old(Items())[index := v] else old(Items())
    {
      var at := Locate(index);
      if at.None? {
        return false;
      }
      var i, local := at.value.0, at.value.1;
      Replaced(weigh, max, nodes, index, i, local, v);
      nodes := nodes[i := nodes[i][local := v]];
      NormalizeNodeSizesFrom(i);
      MergeAround(i);
      return true;
    }

    // ----- removing by value -----

    /** Removes elements equal to a value: all of them, or the first or last `limit`. */
    method Remove(value: T, limit: nat, fromTail: bool) returns (removed: nat)
      requires Valid()
      modifies this
      ensures Valid() && Settled(weigh, max, nodes, |nodes|) && removed == |old(Items())| - |Items()|
      ensures Items() == if fromTail && limit != 0 then DropLast(old(Items()), value, limit)
        else DropFirst(old(Items()), value, Allowed(limit, |old(Items())|))
    {
      if size == 0 {
        HeadSeen(weigh, max, nodes);
        return 0;
      }
      if fromTail && limit != 0 {
        removed := RemoveBackward(value, limit);
      } else {
        removed := RemoveForward(value, limit);
      }
      MergeAll();
    }

    method RemoveForward(value: T, limit: nat) returns (removed: nat)
      requires Valid()
      modifies this
      ensures Valid() && Items() == DropFirst(old(Items()), value, Allowed(limit, |old(Items())|))
        && removed == |old(Items())| - |Items()|
    {
      var i: nat := 0;
      removed := 0;
      ghost var all, done := Flat(nodes), [];
      RemovingStarts(all, value, limit);
      AllFront(nodes, 0);
      while i < |nodes| && (limit == 0 || removed < limit)
        invariant Counted() && i <= |nodes| && size + removed == |all|
        invariant Removing(all, Flat(nodes[..i]), Flat(nodes[i..]), done, value, limit, removed)
        decreases |nodes| - i
      {
        var n := nodes[i];
        var nodeLimit: nat := if limit == 0 then 0 else limit - removed;
        var rest := DropMatching(n, value, nodeLimit, false);
        ForwardStep(weigh, max, nodes, i, all, done, value, limit, removed);
        removed := removed + (|n| - |rest|);
        size := size - (|n| - |rest|);
        done := done + n;
        Shrink(i, rest);
        i := if rest == [] then i else i + 1;
      }
      RemovingEnds(all, Flat(nodes[..i]), Flat(nodes[i..]), done, value, limit, removed);
      FlatHalves(nodes, i);
    }

    method RemoveBackward(value: T, limit: nat) returns (removed: nat)
      requires Valid() && limit != 0
      modifies this
      ensures Valid() && Items() == DropLast(old(Items()), value, limit) && removed == |old(Items())| - |Items()|
    {
      var i: nat := |nodes|;
      removed := 0;
      ghost var all, done := Flat(nodes), [];
      UnwindingStarts(all, value, limit);
      AllFront(nodes, i);
      while i > 0 && removed < limit
        invariant Counted() && i <= |nodes| && size + removed == |all|
        invariant Unwinding(all, Flat(nodes[i..]), Flat(nodes[..i]), done, value, limit, removed)
        decreases i
      {
        i := i - 1;
        var n := nodes[i];
        var rest := DropMatching(n, value, limit - removed, true);
        BackwardStep(weigh, max, nodes, i, all, done, value, limit, removed);
        removed := removed + (|n| - |rest|);
        size := size - (|n| - |rest|);
        done := n + done;
        Shrink(i, rest);
      }
      UnwindingEnds(all, Flat(nodes[i..]), Flat(nodes[..i]), done, value, limit, removed);
      FlatHalves(nodes, i);
    }

    // ----- reading -----

    /** Elements `start` to `stop`, read node by node. */
    method Range(start: nat, stop: nat) returns (values: seq<T>)
      requires Valid()
      ensures values == Between(Items(), start, stop)
    {
      values := [];
      if start > stop || start >= size {
        return;
      }
      var end := Min(stop, size - 1);
      var i, index := 0, 0;
      AllFront(nodes, 0);
      while i < |nodes| && index <= end
        invariant 0 <= i <= |nodes| && index == |Flat(nodes[..i])| && values == Between(Flat(nodes[..i]), start, end)
        decreases |nodes| - i
      {
        var n := nodes[i];
        FrontMore(nodes, i);
        BetweenMore(Flat(nodes[..i]), n, start, end);
        if index + |n| > start {
          values := values + n[Max(start - index, 0)..Min(end - index, |n| - 1) + 1];
        }
        index := index + |n|;
        i := i + 1;
      }
      BetweenAll(nodes, i, start, stop, end);
    }

    // ----- trimming -----

    method Clear()
      modifies this
      ensures Valid() && Items() == []
    {
      nodes, size, nodeCount := [], 0, 0;
    }

    /** Keeps elements `start` to `stop`, both included. */
    method Trim(start: nat, stop: nat)
      requires Valid()
      modifies this
      ensures Valid() && Items() == Between(old(Items()), start, stop)
    {
      if size == 0 || start > stop || start >= size {
        Clear();
        return;
      }
      var last := Min(stop, size - 1);
      ghost var all := Flat(nodes);
      TrimTail(size - last - 1);
      assert Flat(nodes) == all[..last + 1];
      TrimHead(start);
      assert all[..last + 1][start..] == all[start..last + 1];
      HeadSeen(weigh, max, nodes);
      MergeAround(0);
      HeadSeen(weigh, max, nodes);
      MergeAround(if |nodes| >= 2 then |nodes| - 2 else 0);
    }

    method TrimTail(count: nat)
      requires Valid() && count < |Items()|
      modifies this
      ensures Valid() && Items() == old(Items())[..|old(Items())| - count]
    {
      var suffix := count;
      ghost var all := Flat(nodes);
      HeadSeen(weigh, max, nodes);
      while nodes != [] && suffix >= |nodes[|nodes| - 1]|
        invariant Counted() && 0 <= suffix < size == |Flat(nodes)| && size - suffix == |all| - count
          && nodes != []
        invariant Flat(nodes) <= all
        decreases |nodes|
      {
        suffix := suffix - |nodes[|nodes| - 1]|;
        size := size - |nodes[|nodes| - 1]|;
        CutTail(|nodes[|nodes| - 1]|);
        HeadSeen(weigh, max, nodes);
      }
      if suffix > 0 {
        CutTail(suffix);
        size := size - suffix;
      }
    }

    /** Deletes the last elements of the last node, and the node when none is left. */
    method CutTail(count: nat)
      requires Counted() && nodes != [] && count <= |nodes[|nodes| - 1]|
      modifies `nodes, `nodeCount
      ensures Counted() && |nodes| == |old(nodes)| - (if count == |old(nodes)[|old(nodes)| - 1]| then 1
        else 0)
      ensures count <= |old(Flat(nodes))| && Flat(nodes) == old(Flat(nodes))[..|old(Flat(nodes))| - count]
    {
      var last := |nodes| - 1;
      var tail := nodes[last];
      FrontMore(nodes, last);
      AllFront(nodes, last + 1);
      if count < |tail| {
        PartOk(weigh, max, tail, 0, |tail| - count);
        assert tail[0..|tail| - count] == tail[..|tail| - count];
      }
      assert nodes[last + 1..] == [];
      Shrink(last, tail[..|tail| - count]);
    }

    method TrimHead(count: nat)
      requires Valid() && count < |Items()|
      modifies this
      ensures Valid() && Items() == old(Items())[count..]
    {
      var prefix := count;
      ghost var all := Flat(nodes);
      HeadSeen(weigh, max, nodes);
      while nodes != [] && prefix >= |nodes[0]|
        invariant Counted() && 0 <= prefix <= count && prefix < size == |Flat(nodes)| && nodes != []
        invariant size == |all| - (count - prefix) && Flat(nodes) == all[count - prefix..]
        decreases |nodes|
      {
        prefix := prefix - |nodes[0]|;
        size := size - |nodes[0]|;
        Shrink(0, []);
        HeadSeen(weigh, max, nodes);
      }
      if prefix > 0 {
        var head := nodes[0];
        PartOk(weigh, max, head, prefix, |head|);
        assert head[prefix..|head|] == head[prefix..];
        Shrink(0, head[prefix..]);
        size := size - prefix;
      }
    }
  }

  /** Pushes some elements to the tail, one by one. */
  method PushAll<T>(q: QuickList<T>, values: seq<T>)
    requires q.Valid()
    modifies q
    ensures q.Valid() && q.Items() == old(q.Items()) + values
  {
    for k := 0 to |values|
      invariant q.Valid() && q.Items() == old(q.Items()) + values[..k]
    {
      q.RPush(values[k]);
    }
    assert values[..|values|] == values;
  }

  // ----- reading -----

  /** What a further node adds to the elements read. */
  lemma BetweenMore<T>(a: seq<T>, n: seq<T>, start: nat, end: nat)
    requires start <= end && |a| <= end && n != []
    ensures Between(a + n, start, end) == Between(a, start, end) +
      if |a| + |n| > start then n[Max(start - |a|, 0)..Min(end - |a|, |n| - 1) + 1] else []
  {
    var all, first, last := a + n, Max(start - |a|, 0), Min(end - |a|, |n| - 1) + 1;
    if |all| > start {
      assert Min(end + 1, |all|) == |a| + last;
      SliceConcat(a, n, start, last);
    }
  }

  lemma SliceConcat<T>(a: seq<T>, n: seq<T>, start: nat, last: nat)
    requires last <= |n| && start <= |a| + last
    ensures (a + n)[start..|a| + last] == (if start < |a| then a[start..] else []) + n[Max(start - |a|, 0)..last]
  {
  }

  lemma BetweenAll<T>(nodes: Nodes<T>, i: nat, start: nat, stop: nat, end: nat)
    requires i <= |nodes| && start < |Flat(nodes)| && start <= stop && end == Min(stop, |Flat(nodes)| - 1)
    requires i == |nodes| || |Flat(nodes[..i])| > end
    ensures Between(Flat(nodes[..i]), start, end) == Between(Flat(nodes), start, stop)
  {
    AllFront(nodes, i);
    FlatHalves(nodes, i);
    BetweenPrefix(Flat(nodes[..i]), Flat(nodes[i..]), start, end);
    BetweenEnd(Flat(nodes), start, stop, end);
  }

  lemma FlatHalves<T>(nodes: Nodes<T>, i: nat)
    requires i <= |nodes|
    ensures Flat(nodes) == Flat(nodes[..i]) + Flat(nodes[i..])
  {
    FlatConcat(nodes[..i], nodes[i..]);
    assert nodes == nodes[..i] + nodes[i..];
  }

  lemma BetweenPrefix<T>(a: seq<T>, b: seq<T>, start: nat, end: nat)
    requires start <= end
    ensures |a| > end ==> Between(a + b, start, end) == Between(a, start, end)
  {
  }

  lemma BetweenEnd<T>(s: seq<T>, start: nat, stop: nat, end: nat)
    requires start <= stop && start < |s| && end == Min(stop, |s| - 1)
    ensures Between(s, start, end) == Between(s, start, stop)
  {
  }

  // ----- removing -----

  /** Node `i` replaced by what is left of it: what stands before and after it is unchanged. */
  ghost predicate Shrunk<T>(was: Nodes<T>, now: Nodes<T>, i: nat, rest: seq<T>) {
    var next := if rest == [] then i else i + 1;
    i < |was| && |now| == |was| - 1 + next - i && Flat(now[..i]) == Flat(was[..i])
      && Flat(now[next..]) == Flat(was[i + 1..]) &&
    Flat(now[..next]) == Flat(was[..i]) + rest && Flat(now[i..]) == rest + Flat(was[i + 1..])
  }

  lemma ShrunkParts<T>(was: Nodes<T>, i: nat, rest: seq<T>)
    requires i < |was|
    ensures Shrunk(was, Splice(was, i, i + 1, if rest == [] then [] else [rest]), i, rest)
  {
    var news := if rest == [] then [] else [rest];
    var now := Splice(was, i, i + 1, news);
    FlatOne(rest);
    assert now[..i] == was[..i] && now[i + |news|..] == was[i + 1..];
    assert now[..i + |news|] == was[..i] + news && now[i..] == news + was[i + 1..];
    FlatConcat(was[..i], news);
    FlatConcat(news, was[i + 1..]);
  }

  /** What deleting matches leaves of one node; no limit is written 0. */
  function DropMatching<T(==)>(n: seq<T>, value: T, limit: nat, fromTail: bool): seq<T> {
    if fromTail && limit != 0 then DropLast(n, value, limit) else DropFirst(n, value, if limit == 0 then |n| else limit)
  }

  lemma {:induction false} DropFirstSum<T>(weigh: T -> nat, s: seq<T>, value: T, n: nat)
    ensures Sum(weigh, DropFirst(s, value, n)) <= Sum(weigh, s) && |DropFirst(s, value, n)| <= |s|
  {
    if s != [] && n > 0 {
      var tail, m: nat := s[1..], if s[0] == value then n - 1 else n;
      DropFirstSum(weigh, tail, value, m);
      var rest := DropFirst(tail, value, m);
      assert ([s[0]] + rest)[1..] == rest;
    }
  }

  lemma {:induction false} DropLastSum<T>(weigh: T -> nat, s: seq<T>, value: T, n: nat)
    ensures Sum(weigh, DropLast(s, value, n)) <= Sum(weigh, s) && |DropLast(s, value, n)| <= |s|
  {
    if s != [] && n > 0 {
      var front, x, m: nat := s[..|s| - 1], s[|s| - 1], if s[|s| - 1] == value then n - 1 else n;
      assert s == front + [x];
      DropLastSum(weigh, front, value, m);
      SumConcat(weigh, front, [x]);
      SumConcat(weigh, DropLast(front, value, m), [x]);
    }
  }

  lemma DroppedOk<T>(weigh: T -> nat, max: nat, n: seq<T>, value: T, limit: nat, fromTail: bool)
    requires NodeOk(weigh, max, n)
    ensures var rest := DropMatching(n, value, limit, fromTail); |rest| <= |n| && (rest != [] ==>
      NodeOk(weigh, max, rest))
  {
    if fromTail {
      DropLastSum(weigh, n, value, limit);
    }
    DropFirstSum(weigh, n, value, if limit == 0 then |n| else limit);
  }

  /** How many elements a removal may take. */
  function Allowed(limit: nat, size: nat): nat {
    if limit == 0 then size else limit
  }

  /** Removal from the head, with `done` seen, `kept` of it kept and `rest` to come. */
  ghost predicate Removing<T>(all: seq<T>, kept: seq<T>, rest: seq<T>, done: seq<T>, value: T, limit: nat,
      removed: nat) {
    all == done + rest && kept == DropFirst(done, value, Allowed(limit, |all|)) && removed == |done| - |kept|
  }

  lemma RemovingStarts<T>(all: seq<T>, value: T, limit: nat)
    ensures Removing(all, [], all, [], value, limit, 0)
  {
  }

  lemma RemovingStep<T>(all: seq<T>, kept: seq<T>, n: seq<T>, rest: seq<T>, done: seq<T>, value: T, limit: nat,
      removed: nat)
    requires Removing(all, kept, n + rest, done, value, limit, removed) && (limit != 0 ==> removed < limit)
    ensures var left := DropMatching(n, value, if limit == 0 then 0 else limit - removed, false);
            |left| <= |n| && Removing(all, kept + left, rest, done + n, value, limit, removed + |n| - |left|)
  {
    var k := Allowed(limit, |all|);
    DropFirstConcat(done, n, value, k);
    DropFirstCount(done, value, k);
    MatchesBound(done, value);
    MatchesBound(n, value);
    var left := DropMatching(n, value, if limit == 0 then 0 else limit - removed, false);
    DropFirstCount(n, value, if limit == 0 then |n| else limit - removed);
    if limit == 0 {
      DropFirstAll(n, value, |n|, Less(k, Matches(done, value)));
    }
    assert (done + n) + rest == done + (n + rest);
  }

  lemma RemovingEnds<T>(all: seq<T>, kept: seq<T>, rest: seq<T>, done: seq<T>, value: T, limit: nat, removed: nat)
    requires Removing(all, kept, rest, done, value, limit, removed) && (rest == [] || (limit != 0 && removed >= limit))
    ensures kept + rest == DropFirst(all, value, Allowed(limit, |all|))
  {
    var k := Allowed(limit, |all|);
    DropFirstConcat(done, rest, value, k);
    DropFirstCount(done, value, k);
    if rest != [] {
      DropNone(rest, value);
    }
  }

  /** One node on: what is left of it fits, and joins what was kept. */
  lemma ForwardStep<T>(weigh: T -> nat, max: nat, nodes: Nodes<T>, i: nat, all: seq<T>, done: seq<T>, value: T,
      limit: nat, removed: nat)
    requires AllOk(weigh, max, nodes) && i < |nodes| && (limit != 0 ==> removed < limit)
    requires Removing(all, Flat(nodes[..i]), Flat(nodes[i..]), done, value, limit, removed)
    ensures var n := nodes[i]; var rest := DropMatching(n, value, if limit == 0 then 0 else limit - removed, false);
            |rest| <= |n| && removed + |n| - |rest| <= |all| && (rest != [] ==> NodeOk(weigh, max, rest)) &&
            Removing(all, Flat(nodes[..i]) + rest, Flat(nodes[i + 1..]), done + n, value, limit, removed + |n| - |rest|)
  {
    BackMore(nodes, i);
    RemovingStep(all, Flat(nodes[..i]), nodes[i], Flat(nodes[i + 1..]), done, value, limit, removed);
    DroppedOk(weigh, max, nodes[i], value, if limit == 0 then 0 else limit - removed, false);
  }

  /** Removal from the tail, the mirror image. */
  ghost predicate Unwinding<T>(all: seq<T>, kept: seq<T>, rest: seq<T>, done: seq<T>, value: T, limit: nat,
      removed: nat) {
    all == rest + done && kept == DropLast(done, value, limit) && removed == |done| - |kept|
  }

  lemma UnwindingStarts<T>(all: seq<T>, value: T, limit: nat)
    ensures Unwinding(all, [], all, [], value, limit, 0)
  {
    assert all == all + [];
  }

  lemma UnwindingStep<T>(all: seq<T>, kept: seq<T>, n: seq<T>, rest: seq<T>, done: seq<T>, value: T, limit: nat,
      removed: nat)
    requires Unwinding(all, kept, rest + n, done, value, limit, removed) && removed < limit
    ensures var left := DropMatching(n, value, limit - removed, true);
            |left| <= |n| && Unwinding(all, left + kept, rest, n + done, value, limit, removed + |n| - |left|)
  {
    DropLastConcat(n, done, value, limit);
    DropLastCount(done, value, limit);
    DropLastCount(n, value, limit - removed);
    assert rest + (n + done) == (rest + n) + done;
  }

  lemma UnwindingEnds<T>(all: seq<T>, kept: seq<T>, rest: seq<T>, done: seq<T>, value: T, limit: nat, removed: nat)
    requires Unwinding(all, kept, rest, done, value, limit, removed) && (rest == [] || removed >= limit)
    ensures rest + kept == DropLast(all, value, limit)
  {
    DropLastConcat(rest, done, value, limit);
    DropLastCount(done, value, limit);
    if rest != [] {
      DropNone(rest, value);
    }
  }

  lemma BackwardStep<T>(weigh: T -> nat, max: nat, nodes: Nodes<T>, i: nat, all: seq<T>, done: seq<T>, value: T,
      limit: nat, removed: nat)
    requires AllOk(weigh, max, nodes) && i < |nodes| && removed < limit
    requires Unwinding(all, Flat(nodes[i + 1..]), Flat(nodes[..i + 1]), done, value, limit, removed)
    ensures var n := nodes[i]; var rest := DropMatching(n, value, limit - removed, true);
            |rest| <= |n| && removed + |n| - |rest| <= |all| && (rest != [] ==> NodeOk(weigh, max, rest)) &&
            Unwinding(all, rest + Flat(nodes[i + 1..]), Flat(nodes[..i]), n + done, value, limit,
              removed + |n| - |rest|)
  {
    FrontMore(nodes, i);
    UnwindingStep(all, Flat(nodes[i + 1..]), nodes[i], Flat(nodes[..i]), done, value, limit, removed);
    DroppedOk(weigh, max, nodes[i], value, limit - removed, true);
  }

  // ----- ends -----

  lemma HeadItem<T>(weigh: T -> nat, max: nat, nodes: Nodes<T>)
    requires AllOk(weigh, max, nodes) && nodes != []
    ensures nodes[0] != [] && Flat(nodes) != [] && Flat(nodes)[0] == nodes[0][0]
    ensures Flat(nodes)[1..] == Flat(nodes[..0]) + nodes[0][1..] + Flat(nodes[1..])
    ensures nodes[0][1..] != [] ==> NodeOk(weigh, max, nodes[0][1..])
  {
    var head := nodes[0];
    assert NodeOk(weigh, max, head) && nodes[..0] == [];
    if |head| > 1 {
      PartOk(weigh, max, head, 1, |head|);
      assert head[1..|head|] == head[1..];
    }
  }

  lemma TailItem<T>(weigh: T -> nat, max: nat, nodes: Nodes<T>)
    requires AllOk(weigh, max, nodes) && nodes != []
    ensures var last, all := |nodes| - 1, Flat(nodes); var tail := nodes[last];
            tail != [] && all != [] && all[|all| - 1] == tail[|tail| - 1] &&
            all[..|all| - 1] == Flat(nodes[..last]) + tail[..|tail| - 1] + Flat(nodes[last + 1..]) &&
            (tail[..|tail| - 1] != [] ==> NodeOk(weigh, max, tail[..|tail| - 1]))
  {
    var last := |nodes| - 1;
    var tail := nodes[last];
    assert NodeOk(weigh, max, tail);
    FlatAt(nodes, last);
    assert nodes[last + 1..] == [];
    if |tail| > 1 {
      PartOk(weigh, max, tail, 0, |tail| - 1);
      assert tail[0..|tail| - 1] == tail[..|tail| - 1];
    }
  }

  // ----- places -----

  /** Element `index` of the list is element `local` of node `i`. */
  predicate At<T>(nodes: Nodes<T>, index: nat, i: nat, local: nat) {
    i < |nodes| && local < |nodes[i]| && index == |Flat(nodes[..i])| + local
  }

  ghost predicate Rewritten<T>(weigh: T -> nat, max: nat, nodes: Nodes<T>, now: Nodes<T>, index: nat, i: nat, v: T) {
    index < |Flat(nodes)| && Flat(now) == Flat(nodes)[index := v] && NonEmpty(now) && i < |now|
      && AllOk(weigh, max, now[..i])
  }

  lemma Replaced<T>(weigh: T -> nat, max: nat, nodes: Nodes<T>, index: nat, i: nat, local: nat, v: T)
    requires AllOk(weigh, max, nodes) && At(nodes, index, i, local)
    ensures Rewritten(weigh, max, nodes, nodes[i := nodes[i][local := v]], index, i, v)
  {
    var n := nodes[i][local := v];
    var now := nodes[i := n];
    FlatAt(nodes, i);
    FlatAt(now, i);
    assert now[..i] == nodes[..i] && now[i + 1..] == nodes[i + 1..];
    var a, b := Flat(nodes[..i]), Flat(nodes[i + 1..]);
    assert (a + nodes[i] + b)[index := v] == a + n + b;
    forall k | 0 <= k < |now| ensures now[k] != [] {
      assert NodeOk(weigh, max, nodes[k]);
    }
    forall k | 0 <= k < i ensures NodeOk(weigh, max, now[..i][k]) {
      assert NodeOk(weigh, max, nodes[k]);
    }
  }

  // ----- splitting -----

  function Halved<T>(nodes: Nodes<T>, i: nat): Nodes<T>
    requires i < |nodes|
  {
    Splice(nodes, i, i + 1, [nodes[i][..|nodes[i]| / 2], nodes[i][|nodes[i]| / 2..]])
  }

  ghost predicate HalvedIs<T>(nodes: Nodes<T>, now: Nodes<T>, i: nat) {
    Flat(now) == Flat(nodes) && NonEmpty(now) && |now| == |nodes| + 1 && i < |nodes| && now[..i] == nodes[..i] &&
    |now[i]| < |nodes[i]| && |Flat(now[i..])| == |Flat(nodes[i..])|
  }

  lemma HalvedKeeps<T>(nodes: Nodes<T>, i: nat)
    requires NonEmpty(nodes) && i < |nodes| && |nodes[i]| > 1
    ensures HalvedIs(nodes, Halved(nodes, i), i)
  {
    var n := nodes[i];
    var now, h := Halved(nodes, i), |n| / 2;
    var a, b := n[..h], n[h..];
    FlatAt(nodes, i);
    FlatSplice(nodes, i, i + 1, [a, b]);
    assert [a, b] == [a] + [b];
    FlatConcat([a], [b]);
    FlatOne(a);
    FlatOne(b);
    assert n == a + b;
    FlatSplice(nodes, i, i, []);
    FlatSplice(now, i, i, []);
    assert now[..i] == nodes[..i] && now[i] == a;
    HalvedNonEmpty(nodes, i);
  }

  lemma HalvedNonEmpty<T>(nodes: Nodes<T>, i: nat)
    requires NonEmpty(nodes) && i < |nodes| && |nodes[i]| > 1
    ensures NonEmpty(Halved(nodes, i))
  {
    var now := Halved(nodes, i);
    forall k | 0 <= k < |now| ensures now[k] != [] {
      if k > i + 1 {
        assert now[k] == nodes[k - 1];
      }
    }
  }

  lemma OneMoreOk<T>(weigh: T -> nat, max: nat, nodes: Nodes<T>, i: nat)
    requires i < |nodes| && AllOk(weigh, max, nodes[..i]) && NodeOk(weigh, max, nodes[i])
    ensures AllOk(weigh, max, nodes[..i + 1])
  {
    var now := nodes[..i + 1];
    forall k | 0 <= k < |now| ensures NodeOk(weigh, max, now[k]) {
      if k < i {
        assert NodeOk(weigh, max, nodes[..i][k]);
      }
    }
  }

  lemma FrontMore<T>(nodes: Nodes<T>, i: nat)
    requires i < |nodes|
    ensures Flat(nodes[..i + 1]) == Flat(nodes[..i]) + nodes[i]
  {
    assert nodes[..i + 1] == nodes[..i] + [nodes[i]];
    FlatConcat(nodes[..i], [nodes[i]]);
    FlatOne(nodes[i]);
  }

  lemma BackMore<T>(nodes: Nodes<T>, i: nat)
    requires i < |nodes|
    ensures Flat(nodes[i..]) == nodes[i] + Flat(nodes[i + 1..])
  {
    assert nodes[i..][1..] == nodes[i + 1..];
  }

  /** A list has nodes exactly when it has elements. */
  lemma HeadSeen<T>(weigh: T -> nat, max: nat, nodes: Nodes<T>)
    requires AllOk(weigh, max, nodes)
    ensures nodes == [] <==> Flat(nodes) == []
  {
    if nodes != [] {
      assert NodeOk(weigh, max, nodes[0]);
    }
  }

  lemma AllFront<T>(nodes: Nodes<T>, i: nat)
    requires i <= |nodes|
    ensures i == |nodes| ==> Flat(nodes[..i]) == Flat(nodes)
    ensures i == 0 ==> Flat(nodes[..i]) == []
  {
    assert i == |nodes| ==> nodes[..i] == nodes;
  }
}
