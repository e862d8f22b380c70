/** The list type of data_types/list/list.cpp: one listpack while it is small, a quicklist of listpacks beyond. */
module List {
  import opened Bytes
  import opened ListPackCodec
  import opened ListPackLayout
  import opened ListPack
  import opened ListPackMatching
  import opened QuickList
  import opened QuickListNodes
  import opened Removal

  /** The largest byte limit for which no listpack ever refuses for being full. */
  const LARGEST_LIMIT: nat := 0x4000_0000

  // ----- node sizes are bytes -----

  ghost predicate WeighsOne(weigh: Item -> nat, s: Item) {
    weigh(s) == |Entry(s)|
  }

  /** Elements are weighed by the bytes of their entries. */
  ghost predicate Weighs(weigh: Item -> nat) {
    forall s: Item :: WeighsOne(weigh, s)
  }

  /** The bytes of a listpack are the total a quicklist reckons for its node. */
  lemma {:induction false} BodyBytes(entry: Item -> bytes, weigh: Item -> nat, items: seq<Item>)
    requires Standard(entry) && Weighs(weigh)
    ensures |Body(entry, items)| == Sum(weigh, items)
  {
    if items != [] {
      assert SameEntry(entry, items[0]) && WeighsOne(weigh, items[0]);
      BodyBytes(entry, weigh, items[1..]);
    }
  }

  lemma NodeBytes(l: ListPack, weigh: Item -> nat)
    requires l.Valid() && Weighs(weigh)
    ensures l.lp.Length == Total(weigh, l.items)
  {
    BodyBytes(l.entry, weigh, l.items);
  }

  lemma EntryBytes(s: Item)
    ensures |Entry(s)| <= 0x8000_0020
  {
    EncodeSize(s);
  }

  // ----- the same removal, of strings or of elements -----

  lemma {:induction false} SameDropFirst(s: seq<Item>, value: Item, n: nat)
    ensures DropFirst<bytes>(s, value, n) == DropFirst<Item>(s, value, n)
  {
    if s != [] && n > 0 {
      SameDropFirst(s[1..], value, if s[0] == value then n - 1 else n);
    }
  }

  lemma {:induction false} SameDropLast(s: seq<Item>, value: Item, n: nat)
    ensures DropLast<bytes>(s, value, n) == DropLast<Item>(s, value, n)
  {
    if s != [] && n > 0 {
      SameDropLast(s[..|s| - 1], value, if s[|s| - 1] == value then n - 1 else n);
    }
  }

  /** What removing a value leaves, from either end; no limit is written 0. */
  function Removed(s: seq<Item>, value: Item, limit: nat, fromTail: bool): seq<Item> {
    if fromTail && limit != 0 then DropLast(s, value, limit) else DropFirst(s, value, Allowed(limit, |s|))
  }

  // ----- conversions -----

  /** Pushes the elements of a listpack to a new quicklist, one by one. */
  method ToQuickList(l: ListPack, limit: nat) returns (q: QuickList<Item>)
    requires l.Valid()
    modifies l, l.lp
    ensures fresh(q) && q.Valid() && q.Items() == old(l.items) && Weighs(q.weigh) && q.max == Max(limit, EMPTY)
  {
    var n := l.Size();
    var values := l.Range(0, if n == 0 then 0 else n - 1);
    assert values == l.items;
    q := new QuickList<Item>((s: Item) => |Entry(s)|, limit);
    forall s: Item ensures WeighsOne(q.weigh, s) {
    }
    PushAll<Item>(q, values);
  }

  /** A listpack with the elements of a node, which it was all along. */
  method ReleaseListPack(node: seq<Item>, ghost weigh: Item -> nat) returns (l: ListPack)
    requires Weighs(weigh) && Total(weigh, node) <= LARGEST_LIMIT
    ensures fresh(l) && fresh(l.lp) && l.Valid() && l.items == node && l.lp.Length == Total(weigh, node)
  {
    l := new ListPack();
    for k := 0 to |node|
      invariant l.Valid() && fresh(l) && fresh(l.lp) && l.items == node[..k]
    {
      NodeBytes(l, weigh);
      assert node[..k + 1] == node[..k] + [node[k]];
      PrefixBytes(weigh, node, k);
      var ok := l.Append(node[k]);
    }
    assert node[..|node|] == node;
    NodeBytes(l, weigh);
  }

  lemma PrefixBytes(weigh: Item -> nat, node: seq<Item>, k: nat)
    requires Weighs(weigh) && k < |node|
    ensures Total(weigh, node[..k]) + |Entry(node[k])| <= Total(weigh, node)
  {
    assert node == node[..k] + [node[k]] + node[k + 1..];
    SumConcat(weigh, node[..k] + [node[k]], node[k + 1..]);
    SumConcat(weigh, node[..k], [node[k]]);
    assert WeighsOne(weigh, node[k]) && [node[k]][1..] == [];
  }

  // ----- changing the listpack -----

  lemma Substituted<T>(s: seq<T>, i: nat, x: T)
    requires i < |s|
    ensures s[..i] + [x] + s[i + 1..] == s[i := x]
  {
  }

  method ReplaceAt(l: ListPack, index: nat, s: Item)
    requires l.Valid() && index < |l.items| && l.lp.Length <= LARGEST_LIMIT
    modifies l, l.lp
    ensures l.Valid() && (l.lp == old(l.lp) || fresh(l.lp)) && l.items == old(l.items)[index := s]
  {
    var idx := l.IndexAt(index);
    EntryBytes(s);
    l.CoreGrows(index, index + 1);
    Substituted<Item>(l.items, index, s);
    var ok := l.Replace(idx.value, index, s);
  }

  lemma Trimmed<T>(s: seq<T>, start: nat, last: nat)
    requires start <= last < |s|
    ensures var front := s[..last + 1] + s[last + 1 + (|s| - last - 1)..]; front == s[..last + 1] && front[..0] + front[start..] == s[start..last + 1]
  {
  }

  /** Deletes what comes after `last`, then what comes before `start`. */
  method TrimEnds(l: ListPack, start: nat, last: nat)
    requires l.Valid() && start <= last < |l.items|
    modifies l, l.lp
    ensures l.Valid() && (l.lp == old(l.lp) || fresh(l.lp)) && l.items == old(l.items)[start..last + 1]
      && l.lp.Length <= old(l.lp.Length)
  {
    Trimmed<Item>(l.items, start, last);
    var n := l.Size();
    var tail := l.IndexAt(last + 1);
    if tail.Some? {
      var deleted := l.DeleteRange(tail.value, last + 1, n - last - 1);
    } else {
      assert l.items[..last + 1] == l.items;
    }
    assert l.items == old(l.items)[..last + 1];
    var first := l.First();
    if first.Some? {
      var deleted := l.DeleteRange(first.value, 0, start);
    }
  }

  class List {
    var listpack: ListPack?
    var quicklist: QuickList?<Item>
    const limit: nat

    ghost function Repr(): set<object?>
      reads this, listpack
    {
      if listpack != null then {this, listpack, listpack.lp} else if quicklist != null then {this, quicklist}
        else {this}
    }

    ghost predicate Valid()
      reads this, listpack, if listpack == null then {} else {listpack.lp}, quicklist
    {
      && limit <= LARGEST_LIMIT && (listpack == null <==> quicklist != null)
      && (listpack != null ==> listpack.Valid() && listpack.lp.Length <= Max(limit, EMPTY))
      && (quicklist != null ==> quicklist.Valid() && Weighs(quicklist.weigh) && quicklist.max == Max(limit, EMPTY))
    }

    ghost function Items(): seq<Item>
      reads this, listpack, quicklist
    {
      if listpack != null then listpack.items else if quicklist != null then quicklist.Items() else []
    }

    /** Too large for a listpack: several nodes, or one of more than half of the limit. */
    ghost predicate Large()
      reads this, quicklist
    {
      quicklist != null && (|quicklist.nodes| > 1 || Total(quicklist.weigh, Flat(quicklist.nodes)) > limit / 2)
    }

    constructor (limit: nat)
      requires limit <= LARGEST_LIMIT
      ensures Valid() && Items() == [] && this.limit == limit && fresh(Repr())
    {
      var l := new ListPack();
      this.limit, listpack, quicklist := limit, l, null;
      new;
      assert l.items == [] && Core(l.entry, []) == [EOF];
    }

    method Size() returns (n: nat)
      requires Valid()
      modifies Repr()
      ensures Valid() && Repr() == old(Repr()) && Items() == old(Items()) && n == |Items()|
      ensures listpack == old(listpack) && quicklist == old(quicklist)
    {
      if listpack != null {
        n := listpack.Size();
      } else {
        n := quicklist.size;
      }
    }

    /** A quicklist with the same elements takes the listpack's place. */
    method ConvertListPackToQuickList()
      requires listpack != null && quicklist == null && listpack.Valid() && limit <= LARGEST_LIMIT
      modifies this, listpack, listpack.lp
      ensures Valid() && quicklist != null && Items() == old(listpack.items) && fresh(Repr() - {this})
    {
      quicklist := ToQuickList(listpack, limit);
      listpack := null;
    }

    /** The single node of a quicklist takes its place if it needs at most half of the limit. */
    method TryConvertQuickListToListPack()
      requires Valid()
      modifies Repr()
      ensures Valid() && Items() == old(Items()) && fresh(Repr() - old(Repr())) && (listpack == null ==> Large())
    {
      if quicklist == null || quicklist.nodeCount > 1 {
        return;
      }
      var node := if quicklist.nodes == [] then [] else quicklist.nodes[0];
      ghost var weigh := quicklist.weigh;
      OnlyNode(quicklist.nodes);
      if Total(quicklist.weigh, node) > limit / 2 {
        return;
      }
      listpack := ReleaseListPack(node, weigh);
      quicklist := null;
    }

    method WouldExceed(s: Item) returns (yes: bool)
      requires Valid() && listpack != null
      ensures yes == (listpack.lp.Length + |Entry(s)| > limit)
    {
      var bytes := listpack.TotalBytes();
      yes := bytes > limit || |Entry(s)| > limit - bytes;
    }

    method Push(s: Item, head: bool)
      requires Valid()
      modifies Repr()
      ensures Valid() && Items() == (if head then [s] + old(Items()) else old(Items()) + [s])
        && fresh(Repr() - old(Repr()))
      ensures listpack != null <==> old(listpack != null && listpack.lp.Length + |Entry(s)| <= limit)
    {
      if listpack != null {
        var exceeds := WouldExceed(s);
        if !exceeds {
          PushToListPack(s, head);
          return;
        }
        ConvertListPackToQuickList();
      }
      if head {
        quicklist.LPush(s);
      } else {
        quicklist.RPush(s);
      }
    }

    method PushToListPack(s: Item, head: bool)
      requires Valid() && listpack != null && listpack.lp.Length + |Entry(s)| <= limit
      modifies Repr()
      ensures Valid() && listpack != null && Items() == (if head then [s] + old(Items()) else old(Items()) + [s])
        && fresh(Repr() - old(Repr()))
    {
      var ok;
      if head {
        ok := listpack.Prepend(s);
      } else {
        ok := listpack.Append(s);
      }
    }

    method Pop(head: bool) returns (v: Option<Item>)
      requires Valid()
      modifies Repr()
      ensures Valid() && fresh(Repr() - old(Repr())) && v == Popped(old(Items()), head).0
        && Items() == Popped(old(Items()), head).1
      ensures listpack == null ==> Large()
    {
      if listpack != null {
        v := PopFromListPack(head);
        return;
      }
      if head {
        v := quicklist.LPop();
      } else {
        v := quicklist.RPop();
      }
      TryConvertQuickListToListPack();
    }

    method PopFromListPack(head: bool) returns (v: Option<Item>)
      requires Valid() && listpack != null
      modifies Repr()
      ensures Valid() && listpack != null && fresh(Repr() - old(Repr())) && v == Popped(old(Items()), head).0
        && Items() == Popped(old(Items()), head).1
    {
      var n := listpack.Size();
      if n == 0 {
        return None;
      }
      var idx;
      if head {
        idx := listpack.First();
      } else {
        idx := listpack.Last();
      }
      ghost var i: nat := if head then 0 else n - 1;
      var s := listpack.Get(idx.value, i);
      var deleted := listpack.DeleteRange(idx.value, i, 1);
      v := Some(s);
    }

    method Set(index: nat, s: Item) returns (ok: bool)
      requires Valid()
      modifies Repr()
      ensures Valid() && fresh(Repr() - old(Repr())) && ok == (index < |old(Items())|)
      ensures Items() == if ok then old(Items())[index := s] else old(Items())
    {
      var n := Size();
      if index >= n {
        return false;
      }
      if listpack != null {
        SetInListPack(index, s);
        return true;
      }
      ok := quicklist.Set(index, s);
    }

    method SetInListPack(index: nat, s: Item)
      requires Valid() && listpack != null && index < |Items()|
      modifies Repr()
      ensures Valid() && fresh(Repr() - old(Repr())) && Items() == old(Items())[index := s]
    {
      ReplaceAt(listpack, index, s);
      var total := listpack.TotalBytes();
      if total > limit {
        ConvertListPackToQuickList();
      }
    }

    method Remove(value: Item, limit: nat, fromTail: bool) returns (removed: nat)
      requires Valid()
      modifies Repr()
      ensures Valid() && fresh(Repr() - old(Repr())) && removed == |old(Items())| - |Items()|
      ensures Items() == Removed(old(Items()), value, limit, fromTail)
    {
      var n := Size();
      if n == 0 {
        return 0;
      }
      if listpack != null {
        SameRemoved(listpack.items, value, limit);
        removed := DeleteMatching(listpack, value, limit, fromTail);
      } else {
        removed := quicklist.Remove(value, limit, fromTail);
      }
    }

    method Trim(start: nat, stop: nat)
      requires Valid()
      modifies Repr()
      ensures Valid() && fresh(Repr() - old(Repr())) && Items() == Between(old(Items()), start, stop)
    {
      var n := Size();
      if n == 0 || start > stop || start >= n {
        var l := new ListPack();
        listpack, quicklist := l, null;
        return;
      }
      var last := Min(stop, n - 1);
      if start == 0 && last == n - 1 {
        return;
      }
      if listpack != null {
        TrimListPack(start, last);
      } else {
        quicklist.Trim(start, last);
      }
    }

    method TrimListPack(start: nat, last: nat)
      requires Valid() && listpack != null && start <= last < |Items()|
      modifies Repr()
      ensures Valid() && fresh(Repr() - old(Repr())) && Items() == old(Items())[start..last + 1]
    {
      TrimEnds(listpack, start, last);
    }

    method Range(start: nat, stop: nat) returns (values: seq<Item>)
      requires Valid()
      modifies Repr()
      ensures Valid() && Repr() == old(Repr()) && Items() == old(Items()) && values == Between(Items(), start, stop)
    {
      if listpack != null {
        values := listpack.Range(start, stop);
      } else {
        values := quicklist.Range(start, stop);
      }
    }
  }

  function Popped<T>(s: seq<T>, head: bool): (Option<T>, seq<T>) {
    if s == [] then (None, s)
    else if head then (Some(s[0]), s[1..])
    else (Some(s[|s| - 1]), s[..|s| - 1])
  }

  lemma SameRemoved(s: seq<Item>, value: Item, limit: nat)
    ensures DropFirst<bytes>(s, value, Allowed(limit, |s|)) == DropFirst<Item>(s, value, Allowed(limit, |s|))
    ensures DropLast<bytes>(s, value, limit) == DropLast<Item>(s, value, limit)
  {
    SameDropFirst(s, value, Allowed(limit, |s|));
    SameDropLast(s, value, limit);
  }

  lemma OnlyNode<T>(nodes: Nodes<T>)
    requires |nodes| <= 1
    ensures Flat(nodes) == if nodes == [] then [] else nodes[0]
  {
    if nodes != [] {
      FlatOne(nodes[0]);
      assert nodes == [nodes[0]];
    }
  }

  // ----- whole runs -----

  datatype Op =
    | Add(s: Item, head: bool)
    | Take(head: bool)
    | Change(index: nat, s: Item)
    | Drop(s: Item, limit: nat, fromTail: bool)
    | Keep(start: nat, stop: nat)

  /** What an operation makes of the sequence; the storage does not matter. */
  function Apply(s: seq<Item>, op: Op): seq<Item> {
    match op
    case Add(x, head) => if head then [x] + s else s + [x]
    case Take(head) => Popped(s, head).1
    case Change(i, x) => if i < |s| then s[i := x] else s
    case Drop(x, limit, fromTail) => Removed(s, x, limit, fromTail)
    case Keep(start, stop) => Between(s, start, stop)
  }

  function ApplyAll(s: seq<Item>, ops: seq<Op>): seq<Item>
    decreases |ops|
  {
    if ops == [] then s else ApplyAll(Apply(s, ops[0]), ops[1..])
  }

  method Do(l: List, op: Op)
    requires l.Valid()
    modifies l.Repr()
    ensures l.Valid() && l.Items() == Apply(old(l.Items()), op) && fresh(l.Repr() - old(l.Repr()))
  {
    match op
    case Add(s, head) => l.Push(s, head);
    case Take(head) => var v := l.Pop(head);
    case Change(i, s) => var ok := l.Set(i, s);
    case Drop(s, limit, fromTail) => var n := l.Remove(s, limit, fromTail);
    case Keep(start, stop) => l.Trim(start, stop);
  }

  /** Any run of operations refines the same run on a sequence, through every change of storage. */
  method Run(l: List, ops: seq<Op>)
    requires l.Valid()
    modifies l.Repr()
    ensures l.Valid() && l.Items() == ApplyAll(old(l.Items()), ops)
    decreases |ops|
  {
    if ops != [] {
      Do(l, ops[0]);
      Run(l, ops[1..]);
    }
  }
}
