/** The skiplist of memory/skiplist.h: a sorted set of keys that answers by key and by rank. */
module Skiplist {
  import opened Bytes
  import opened Order
  import opened Ranges
  import opened Towers
  import opened SkiplistLinks

  const MAX_LEVEL: nat := 32

  ghost function Tables<K>(nodes: seq<Node<K>>, hs: seq<nat>, level: nat): (tables: seq<seq<Option<Link<K>>>>)
    requires |nodes| == |hs|
    ensures |tables| == level && forall i :: 0 <= i < level ==> tables[i] == Links(nodes, hs, i)
  {
    seq(level, i requires 0 <= i < level => Links(nodes, hs, i))
  }

  /** The head's rows that no level uses yet lead nowhere. */
  ghost predicate SpareRows<K>(row: Row<K>, level: nat) {
    level <= |row.next| && forall i :: level <= i < |row.next| ==> row.next[i] == null
  }

  ghost predicate Heights(hs: seq<nat>, level: nat) {
    |hs| > 0 && hs[0] == level && 1 <= level <= MAX_LEVEL && forall a :: 0 <= a < |hs| ==> 1 <= hs[a] <= level
  }

  ghost predicate EvenRows<K>(rows: seq<Row<K>>) {
    forall a :: 0 <= a < |rows| ==> |rows[a].next| == |rows[a].span|
  }

  /** On every level each node's link leads to the next node of the level and its span counts the positions passed. */
  ghost predicate Towered<K>(nodes: seq<Node<K>>, hs: seq<nat>, rows: seq<Row<K>>, level: nat) {
    && |nodes| == |hs| == |rows| && Distinct(nodes) && Heights(hs, level)
    && EvenRows(rows) && SpareRows(rows[0], level) && AllLinked(rows, Tables(nodes, hs, level))
  }

  ghost predicate Holds<K>(nodes: seq<Node<K>>, keys: seq<K>)
    reads nodes`key
  {
    |nodes| == |keys| + 1 && forall a :: 0 < a < |nodes| ==> nodes[a].key == keys[a - 1]
  }

  ghost predicate Backed<K>(nodes: seq<Node<K>>)
    reads nodes`prev
  {
    (|nodes| > 0 ==> nodes[0].prev == null) && forall a :: 0 < a < |nodes| ==> nodes[a].prev == nodes[a - 1]
  }

  lemma ReadLink<K>(nodes: seq<Node<K>>, hs: seq<nat>, rows: seq<Row<K>>, level: nat, i: nat, a: nat)
    requires Towered(nodes, hs, rows, level) && i < level && a < |nodes| && hs[a] > i
    ensures RowHas(rows[a], i, Link(At(nodes, First(hs, a + 1, i)), Span(|nodes|, a, First(hs, a + 1, i))))
  {
    var links := Tables(nodes, hs, level)[i];
    assert Linked(rows, links, i);
    assert links[a] == LinkOf(nodes, hs, i, a);
  }

  // ----- where a search stops -----

  /** The link of the node at `a` on level `i` leads past every key that `before` accepts. */
  ghost predicate Stops<K>(hs: seq<nat>, keys: seq<K>, before: K -> bool, i: nat, a: nat) {
    && |hs| == |keys| + 1 && a < |hs| && hs[a] > i
    && (a > 0 ==> before(keys[a - 1]))
    && (First(hs, a + 1, i) < |hs| ==> !before(keys[First(hs, a + 1, i) - 1]))
  }

  /** What `before` accepts is a prefix of the keys. */
  ghost predicate Prefix<K>(keys: seq<K>, before: K -> bool) {
    forall i, j :: 0 <= i < j < |keys| && before(keys[j]) ==> before(keys[i])
  }

  /** `ranks[0]` keys are accepted, and `ranks[i]` is the last position among them on level `i`. */
  ghost predicate Found<K>(nodes: seq<Node<K>>, hs: seq<nat>, keys: seq<K>, before: K -> bool, prev: seq<Node<K>>,
      ranks: seq<nat>) {
    && |prev| == |ranks| > 0 && |nodes| == |hs| == |keys| + 1 && Below(keys, before, ranks[0])
    && forall i :: 0 <= i < |prev| ==> Precedes(hs, ranks[i], ranks[0] + 1, i) && nodes[ranks[i]] == prev[i]
  }

  lemma BottomStops<K>(hs: seq<nat>, keys: seq<K>, before: K -> bool, a: nat)
    requires Stops(hs, keys, before, 0, a) && Prefix(keys, before) && forall k :: 0 <= k < |hs| ==> hs[k] >= 1
    ensures Below(keys, before, a)
  {
    assert First(hs, a + 1, 0) == a + 1;
  }

  lemma BottomNext(hs: seq<nat>, a: nat)
    requires a < |hs| && forall k :: 0 <= k < |hs| ==> hs[k] >= 1
    ensures First(hs, a + 1, 0) == a + 1
  {
  }

  lemma StopsPrecedes<K>(hs: seq<nat>, keys: seq<K>, before: K -> bool, i: nat, a: nat, c: nat)
    requires Stops(hs, keys, before, i, a) && Below(keys, before, c) && a <= c
    ensures Precedes(hs, a, c + 1, i)
  {
    var f := First(hs, a + 1, i);
    assert f < |hs| ==> !before(keys[f - 1]);
  }

  /** The nodes where the search left the levels from `i` up, at positions up to `last`. */
  ghost predicate Trail<K>(nodes: seq<Node<K>>, hs: seq<nat>, keys: seq<K>, before: K -> bool, i: nat,
      prev: seq<Node<K>>, ranks: seq<nat>, last: nat) {
    && |prev| == |ranks| && |nodes| == |hs|
    && forall j :: 0 <= j < |prev| ==> ranks[j] <= last && Stops(hs, keys, before, i + j, ranks[j]) && nodes[ranks[j]] == prev[j]
  }

  lemma LongerTrail<K>(nodes: seq<Node<K>>, hs: seq<nat>, keys: seq<K>, before: K -> bool, i: nat, prev: seq<Node<K>>,
      ranks: seq<nat>, n: Node<K>, rank: nat)
    requires Trail(nodes, hs, keys, before, i + 1, prev, ranks, if |ranks| > 0 then ranks[0] else 0)
    requires |nodes| == |hs| && (|ranks| > 0 ==> ranks[0] <= rank) && Stops(hs, keys, before, i, rank)
      && nodes[rank] == n
    ensures Trail(nodes, hs, keys, before, i, [n] + prev, [rank] + ranks, rank)
  {
    var more, higher := [n] + prev, [rank] + ranks;
    forall j | 0 <= j < |more| ensures higher[j] <= rank && Stops(hs, keys, before, i + j,
      higher[j]) && nodes[higher[j]] == more[j] {
      assert j > 0 ==> higher[j] == ranks[j - 1] && more[j] == prev[j - 1] && i + 1 + (j - 1) == i + j;
    }
  }

  lemma SearchDone<K>(nodes: seq<Node<K>>, hs: seq<nat>, keys: seq<K>, before: K -> bool, prev: seq<Node<K>>,
      ranks: seq<nat>)
    requires |prev| == |ranks| > 0 && |nodes| == |hs| == |keys| + 1 && Prefix(keys, before)
      && forall k :: 0 <= k < |hs| ==> hs[k] >= 1
    requires Trail(nodes, hs, keys, before, 0, prev, ranks, ranks[0])
    ensures Found(nodes, hs, keys, before, prev, ranks)
  {
    BottomStops(hs, keys, before, ranks[0]);
    forall i | 0 <= i < |prev| ensures Precedes(hs, ranks[i], ranks[0] + 1, i) {
      StopsPrecedes(hs, keys, before, i, ranks[i], ranks[0]);
    }
  }

  lemma EmptyTowers<K>(head: Node<K>, level: nat, row: Row<K>)
    requires 1 <= level <= MAX_LEVEL && level <= |row.next| == |row.span|
    requires forall i :: 0 <= i < |row.next| ==> row.next[i] == null && row.span[i] == 0
    ensures Towered([head], [level], [row], level)
  {
    var hs: seq<nat> := [level];
    forall i | 0 <= i < level ensures Linked([row], Tables([head], hs, level)[i], i) {
      assert First(hs, 1, i) == 1;
      assert Tables([head], hs, level)[i] == [Some(Link(null, 0))];
    }
  }

  lemma LessIsPrefix<K(!new)>(less: (K, K) -> bool, keys: seq<K>, key: K, before: K -> bool)
    requires StrictOrder(less) && Sorted(less, keys) && forall k :: before(k) == less(k, key)
    ensures Prefix(keys, before)
    ensures forall c :: 0 <= c <= |keys| && Below(keys, before, c) ==> Splits(less, keys, key, c)
  {
  }

  /** A sorted list holds `key` exactly if it comes right after the keys below it. */
  lemma HeldAfterSmaller<K(!new)>(less: (K, K) -> bool, keys: seq<K>, key: K, c: nat)
    requires StrictOrder(less) && Sorted(less, keys) && Splits(less, keys, key, c)
    ensures key in keys <==> c < |keys| && keys[c] == key
    ensures c < |keys| ==> (Same(less, keys[c], key) <==> keys[c] == key)
  {
    if key in keys {
      var i :| 0 <= i < |keys| && keys[i] == key;
      assert i >= c;
    }
  }

  // ----- changing a key -----

  /** The test for changing a key where it is: its neighbours' keys leave room for the new one, or equal it. */
  predicate InPlace<K>(less: (K, K) -> bool, keys: seq<K>, c: nat, key: K)
    requires c < |keys|
  {
    (c == 0 || !less(key, keys[c - 1])) && (c + 1 == |keys| || !less(keys[c + 1], key))
  }

  ghost function Without<T>(s: seq<T>, c: nat): seq<T>
    requires c < |s|
  {
    s[..c] + s[c + 1..]
  }

  lemma NotAmongOthers<K>(keys: seq<K>, c: nat, key: K)
    requires c < |keys|
    ensures key !in Without(keys, c) <==> forall i :: 0 <= i < |keys| && i != c ==> keys[i] != key
  {
    var others := Without(keys, c);
    forall i | 0 <= i < |keys| && i != c ensures keys[i] in others {
      assert keys[i] == others[if i < c then i else i - 1];
    }
  }

  /** A key changed where it is leaves the list strictly sorted exactly if no other entry has the new key. */
  lemma InPlaceSorted<K(!new)>(less: (K, K) -> bool, keys: seq<K>, c: nat, key: K)
    requires StrictOrder(less) && Sorted(less, keys) && c < |keys| && InPlace(less, keys, c, key)
    ensures Sorted(less, keys[c := key]) <==> key !in Without(keys, c)
  {
    NotAmongOthers(keys, c, key);
    var now := keys[c := key];
    if key !in Without(keys, c) {
      forall i, j | 0 <= i < j < |now| ensures less(now[i], now[j]) {
        assert j == c ==> less(keys[c - 1], key);
        assert i == c ==> less(key, keys[c + 1]);
      }
    } else {
      var i :| 0 <= i < |keys| && i != c && keys[i] == key;
      assert now[i] == now[c] && !less(now[i], now[c]);
    }
  }

  /** `now` is `keys` without its entry `c`, and with `key` put in unless another entry has it. */
  ghost predicate Replaced<K>(keys: seq<K>, now: seq<K>, c: nat, key: K)
    requires c < |keys|
  {
    var others := Without(keys, c);
    if key in others then now == others else exists d: nat :: d <= |others| && now == others[..d] + [key] + others[d..]
  }

  // ----- growing by a level -----

  lemma LinkRaised<K>(nodes: seq<Node<K>>, hs: seq<nat>, l: nat, i: nat, a: nat)
    requires a < |nodes| == |hs| && i < l && i < hs[0]
    ensures LinkOf(nodes, hs[0 := l], i, a) == LinkOf(nodes, hs, i, a)
  {
    var raised := hs[0 := l];
    var f, g := First(hs, a + 1, i), First(raised, a + 1, i);
    assert f < |hs| ==> raised[f] > i;
    assert g < |hs| ==> hs[g] > i;
  }

  lemma LinksRaised<K>(nodes: seq<Node<K>>, hs: seq<nat>, l: nat, i: nat)
    requires 0 < |nodes| == |hs| && i < l && i < hs[0]
    ensures Links(nodes, hs[0 := l], i) == Links(nodes, hs, i)
  {
    var raised := hs[0 := l];
    forall a | 0 <= a < |nodes| ensures LinkOf(nodes, raised, i, a) == LinkOf(nodes, hs, i, a) {
      LinkRaised(nodes, hs, l, i, a);
    }
  }

  /** On a level only the head reaches, its link leads to the end over all nodes. */
  lemma TopLink<K>(nodes: seq<Node<K>>, hs: seq<nat>, level: nat, a: nat)
    requires a < |nodes| == |hs| && Heights(hs, level)
    ensures LinkOf(nodes, hs[0 := level + 1], level, a) == if a == 0 then Some(Link(null, |nodes| - 1)) else None
  {
    var raised := hs[0 := level + 1];
    assert forall k :: 1 <= k < |raised| ==> raised[k] <= level;
    assert a == 0 ==> First(raised, 1, level) == |raised|;
  }

  ghost predicate Raises<K>(row: Row<K>, raised: Row<K>, level: nat, n: nat) {
    && level <= |row.next| == |row.span| && |raised.next| == |raised.span| && SpareRows(raised, level + 1)
    && raised.next[level] == null && raised.span[level] == n
    && forall i :: 0 <= i < level ==> raised.next[i] == row.next[i] && raised.span[i] == row.span[i]
  }

  lemma TopLinked<K>(nodes: seq<Node<K>>, hs: seq<nat>, rows: seq<Row<K>>, level: nat, raised: Row<K>)
    requires Towered(nodes, hs, rows, level) && Raises(rows[0], raised, level, |nodes| - 1)
    ensures Linked(rows[0 := raised], Links(nodes, hs[0 := level + 1], level), level)
  {
    var higher := hs[0 := level + 1];
    forall a | 0 <= a < |nodes| ensures LinkOf(nodes, higher, level, a) == if a == 0 then Some(Link(null, |nodes| - 1))
      else None {
      TopLink(nodes, hs, level, a);
    }
  }

  lemma LowerLinked<K>(nodes: seq<Node<K>>, hs: seq<nat>, rows: seq<Row<K>>, level: nat, raised: Row<K>, i: nat)
    requires Towered(nodes, hs, rows, level) && Raises(rows[0], raised, level, |nodes| - 1) && i < level
    ensures Linked(rows[0 := raised], Links(nodes, hs[0 := level + 1], i), i)
  {
    LinksRaised(nodes, hs, level + 1, i);
    assert Linked(rows, Tables(nodes, hs, level)[i], i);
  }

  lemma RaiseTowers<K>(nodes: seq<Node<K>>, hs: seq<nat>, rows: seq<Row<K>>, level: nat, raised: Row<K>)
    requires Towered(nodes, hs, rows, level) && level < MAX_LEVEL && Raises(rows[0], raised, level, |nodes| - 1)
    ensures Towered(nodes, hs[0 := level + 1], rows[0 := raised], level + 1)
  {
    TopLinked(nodes, hs, rows, level, raised);
    var higher, more := hs[0 := level + 1], rows[0 := raised];
    forall i | 0 <= i < level ensures Linked(more, Links(nodes, higher, i), i) {
      LowerLinked(nodes, hs, rows, level, raised, i);
    }
  }

  // ----- a node put in or taken out -----

  ghost function InsertRow<K>(rows: seq<Row<K>>, c: nat, row: Row<K>): seq<Row<K>>
    requires c <= |rows|
  {
    rows[..c] + [row] + rows[c..]
  }

  ghost function Gaps<K>(tables: seq<seq<Option<Link<K>>>>, c: nat): (gaps: seq<seq<Option<Link<K>>>>)
    requires forall i :: 0 <= i < |tables| ==> c <= |tables[i]|
    ensures |gaps| == |tables| && forall i :: 0 <= i < |tables| ==> gaps[i] == Gap(tables[i], c)
  {
    seq(|tables|, i requires 0 <= i < |tables| => Gap(tables[i], c))
  }

  lemma GapLinked<K>(rows: seq<Row<K>>, links: seq<Option<Link<K>>>, i: nat, c: nat, row: Row<K>)
    requires c <= |rows| && Linked(rows, links, i)
    ensures Linked(InsertRow(rows, c, row), Gap(links, c), i)
  {
    var more, gap := InsertRow(rows, c, row), Gap(links, c);
    forall a | 0 <= a < |more| && gap[a].Some? ensures RowHas(more[a], i, gap[a].value) {
      assert a > c ==> more[a] == rows[a - 1] && gap[a] == links[a - 1];
    }
  }

  lemma GapClosed<K>(rows: seq<Row<K>>, links: seq<Option<Link<K>>>, i: nat, c: nat, row: Row<K>)
    requires |rows| == |links| && c <= |rows| && Linked(InsertRow(rows, c, row), Gap(links, c), i)
    ensures Linked(rows, links, i)
  {
    var more, gap := InsertRow(rows, c, row), Gap(links, c);
    forall a | 0 <= a < |rows| && links[a].Some? ensures RowHas(rows[a], i, links[a].value) {
      var b := if a < c then a else a + 1;
      assert more[b] == rows[a] && gap[b] == links[a];
    }
  }

  lemma GapsLinked<K>(rows: seq<Row<K>>, tables: seq<seq<Option<Link<K>>>>, c: nat, row: Row<K>)
    requires c <= |rows| && forall i :: 0 <= i < |tables| ==> |tables[i]| == |rows|
    ensures AllLinked(InsertRow(rows, c, row), Gaps(tables, c)) <==> AllLinked(rows, tables)
  {
    var more, gaps := InsertRow(rows, c, row), Gaps(tables, c);
    forall i | 0 <= i < |tables| ensures Linked(more, gaps[i], i) <==> Linked(rows, tables[i], i) {
      if Linked(rows, tables[i], i) {
        GapLinked(rows, tables[i], i, c, row);
      } else if Linked(more, gaps[i], i) {
        GapClosed(rows, tables[i], i, c, row);
      }
    }
  }

  /** The plan for a node of height `t` put in at `c` behind the nodes a search found. */
  lemma PlanFor<K>(nodes: seq<Node<K>>, hs: seq<nat>, level: nat, c: nat, t: nat, ranks: seq<nat>, node: Node<K>)
    requires |nodes| == |hs| && |ranks| == level && c <= |hs|
      && forall i :: 0 <= i < level ==> Precedes(hs, ranks[i], c, i)
    ensures Plan(Tables(nodes, hs, level), Tables(InsertNode(nodes, c, node), Inserted(hs, c, t), level), c, t, ranks,
      node)
  {
    forall i | 0 <= i < level
      ensures i < t ==> LinksIn(Links(nodes, hs, i), Links(InsertNode(nodes, c, node), Inserted(hs, c, t), i), c,
        ranks[i], node)
      ensures i >= t ==> LinksOver(Links(nodes, hs, i), Links(InsertNode(nodes, c, node), Inserted(hs, c, t), i), c,
        ranks[i])
    {
      LinksAfterInsert(nodes, hs, c, t, node, i, ranks[i]);
    }
  }

  /** What a search leaves behind, as an insertion uses it. */
  ghost predicate Predecessors<K>(nodes: seq<Node<K>>, hs: seq<nat>, level: nat, prev: seq<Node<K>>, ranks: seq<nat>) {
    && |nodes| == |hs| && 1 <= level == |prev| == |ranks|
    && forall i :: 0 <= i < level ==> Precedes(hs, ranks[i], ranks[0] + 1, i) && nodes[ranks[i]] == prev[i]
  }

  lemma StillDistinct<K>(nodes: seq<Node<K>>, c: nat, node: Node<K>)
    requires Distinct(nodes) && c <= |nodes| && node !in nodes
    ensures Distinct(InsertNode(nodes, c, node))
  {
    var ns := InsertNode(nodes, c, node);
    forall a: nat, b: nat ensures Apart(ns, a, b) {
      if a < b < |ns| {
        assert (a != c ==> ns[a] in nodes) && (b != c ==> ns[b] in nodes);
        assert a != c && b != c ==> Apart(nodes, if a < c then a else a - 1, if b < c then b else b - 1);
      }
    }
  }

  lemma FewerDistinct<K>(nodes: seq<Node<K>>, c: nat)
    requires Distinct(nodes) && c < |nodes|
    ensures Distinct(Without(nodes, c))
  {
    var ns := Without(nodes, c);
    forall a: nat, b: nat ensures Apart(ns, a, b) {
      assert Apart(nodes, if a < c then a else a + 1, if b < c then b else b + 1);
    }
  }

  lemma ReadyToLink<K>(nodes: seq<Node<K>>, hs: seq<nat>, rows: seq<Row<K>>, level: nat, c: nat, t: nat,
      prev: seq<Node<K>>, ranks: seq<nat>, node: Node<K>, row: Row<K>)
    requires |rows| == |nodes| && Distinct(nodes) && EvenRows(rows) && |row.next| == |row.span| && node !in nodes
    requires Predecessors(nodes, hs, level, prev, ranks) && c == ranks[0] + 1
    ensures Ready(InsertNode(nodes, c, node), InsertRow(rows, c, row), Gaps(Tables(nodes, hs, level), c),
      Tables(nodes, hs, level),
                  Tables(InsertNode(nodes, c, node), Inserted(hs, c, t), level), c, t, prev, ranks, node)
  {
    PlanFor(nodes, hs, level, c, t, ranks, node);
    StillDistinct(nodes, c, node);
  }

  /** The tables an insertion works with. */
  lemma LinkingTables<K>(nodes: seq<Node<K>>, hs: seq<nat>, rows: seq<Row<K>>, level: nat, t: nat, prev: seq<Node<K>>,
      ranks: seq<nat>, node: Node<K>, row: Row<K>)
    returns (gaps: seq<seq<Option<Link<K>>>>, befores: seq<seq<Option<Link<K>>>>, afters: seq<seq<Option<Link<K>>>>)
    requires Towered(nodes, hs, rows, level) && |row.next| == |row.span| && node !in nodes
      && Predecessors(nodes, hs, level, prev, ranks)
    ensures var c := ranks[0] + 1;
      && Ready(InsertNode(nodes, c, node), InsertRow(rows, c, row), gaps, befores, afters, c, t, prev, ranks, node)
      && AllLinked(InsertRow(rows, c, row), gaps) && afters == Tables(InsertNode(nodes, c, node), Inserted(hs, c, t),
        level)
  {
    var c := ranks[0] + 1;
    ReadyToLink(nodes, hs, rows, level, c, t, prev, ranks, node, row);
    befores := Tables(nodes, hs, level);
    gaps, afters := Gaps(befores, c), Tables(InsertNode(nodes, c, node), Inserted(hs, c, t), level);
    GapsLinked(rows, befores, c, row);
  }

  lemma LinkedTowers<K>(nodes: seq<Node<K>>, hs: seq<nat>, rows: seq<Row<K>>, level: nat, c: nat, t: nat, node: Node<K>,
      row: Row<K>, now: seq<Row<K>>)
    requires |nodes| == |hs| == |rows| && Heights(hs, level) && 0 < c <= |hs| && 1 <= t <= level && EvenRows(rows)
      && |row.next| == |row.span|
    requires Distinct(InsertNode(nodes, c, node)) && SpareRows(rows[0], level)
      && SameAbove(InsertRow(rows, c, row), now, level)
    requires AllLinked(now, Tables(InsertNode(nodes, c, node), Inserted(hs, c, t), level))
    ensures Towered(InsertNode(nodes, c, node), Inserted(hs, c, t), now, level)
  {
    var more := InsertRow(rows, c, row);
    assert more[0] == rows[0] && EvenRows(more);
    assert EvenRows(now) && SpareRows(now[0], level);
  }

  lemma MoreRows<K>(nodes: seq<Node<K>>, rows: seq<Row<K>>, c: nat, node: Node<K>, row: Row<K>)
    requires RowsOf(nodes, rows) && c <= |nodes| && node.next == row.next && node.span == row.span
    ensures RowsOf(InsertNode(nodes, c, node), InsertRow(rows, c, row))
  {
  }

  /** Links a node on its `t` levels and counts it in the spans above. */
  method LinkNode<K>(ghost nodes: seq<Node<K>>, ghost hs: seq<nat>, ghost rows: seq<Row<K>>, ghost level: nat, t: nat,
      prev: seq<Node<K>>, ranks: seq<nat>, node: Node<K>)
    returns (ghost now: seq<Row<K>>)
    requires Towered(nodes, hs, rows, level) && RowsOf(nodes, rows) && Predecessors(nodes, hs, level, prev, ranks)
    requires 1 <= t <= level && node !in nodes && |node.next| == |node.span| == level
    modifies nodes`next, nodes`span, node`next, node`span
    ensures RowsOf(InsertNode(nodes, ranks[0] + 1, node), now)
      && Towered(InsertNode(nodes, ranks[0] + 1, node), Inserted(hs, ranks[0] + 1, t), now, level)
  {
    ghost var c, row := ranks[0] + 1, Row(node.next, node.span);
    ghost var ns, more := InsertNode(nodes, c, node), InsertRow(rows, c, row);
    ghost var gaps, befores, afters := LinkingTables(nodes, hs, rows, level, t, prev, ranks, node, row);
    MoreRows(nodes, rows, c, node, row);
    now := LinkAll(ns, more, gaps, befores, afters, (set n | n in ns), c, t, prev, ranks, node);
    LinkedTowers(nodes, hs, rows, level, c, t, node, row, now);
  }

  lemma PredecessorsWithout<K>(nodes: seq<Node<K>>, hs: seq<nat>, level: nat, prev: seq<Node<K>>, ranks: seq<nat>,
      c: nat)
    requires Predecessors(nodes, hs, level, prev, ranks) && c == ranks[0] + 1 < |nodes|
    ensures Predecessors(Without(nodes, c), Removed(hs, c), level, prev, ranks)
  {
    var fewer, lower := Without(nodes, c), Removed(hs, c);
    forall i | 0 <= i < level ensures Precedes(lower, ranks[i], c, i) && fewer[ranks[i]] == prev[i] {
      assert Precedes(hs, ranks[i], c, i);
    }
  }

  /** The node after `link` comes after position `c`. */
  ghost predicate LeadsBeyond<K>(nodes: seq<Node<K>>, c: nat, link: Link<K>) {
    link.next == null || exists b :: c < b < |nodes| && nodes[b] == link.next
  }

  lemma OverLeadsBeyond<K>(nodes: seq<Node<K>>, hs: seq<nat>, c: nat, i: nat, p: nat)
    requires c < |nodes| == |hs| && Precedes(hs, p, c, i) && hs[c] <= i
    ensures LinkOf(nodes, hs, i, p).Some? && LeadsBeyond(nodes, c, LinkOf(nodes, hs, i, p).value)
  {
    var f := First(hs, p + 1, i);
    assert f > c;
  }

  /** The tables a deletion works with. */
  lemma UnlinkingTables<K>(nodes: seq<Node<K>>, hs: seq<nat>, rows: seq<Row<K>>, level: nat, c: nat, prev: seq<Node<K>>,
      ranks: seq<nat>)
    returns (gaps: seq<seq<Option<Link<K>>>>, befores: seq<seq<Option<Link<K>>>>, afters: seq<seq<Option<Link<K>>>>)
    requires Towered(nodes, hs, rows, level) && Predecessors(nodes, hs, level, prev, ranks)
      && c == ranks[0] + 1 < |nodes|
    ensures Ready(nodes, rows, gaps, befores, afters, c, hs[c], prev, ranks, nodes[c]) && AllLinked(rows, afters)
    ensures befores == Tables(Without(nodes, c), Removed(hs, c), level) && gaps == Gaps(befores, c)
      && afters == Tables(nodes, hs, level)
  {
    var fewer, lower, node := Without(nodes, c), Removed(hs, c), nodes[c];
    assert InsertNode(fewer, c, node) == nodes && Inserted(lower, c, hs[c]) == hs;
    PredecessorsWithout(nodes, hs, level, prev, ranks, c);
    PlanFor(fewer, lower, level, c, hs[c], ranks, node);
    befores, afters := Tables(fewer, lower, level), Tables(nodes, hs, level);
    gaps := Gaps(befores, c);
  }

  lemma PassesOver<K>(nodes: seq<Node<K>>, hs: seq<nat>, level: nat, befores: seq<seq<Option<Link<K>>>>,
      afters: seq<seq<Option<Link<K>>>>,
                      c: nat, prev: seq<Node<K>>, ranks: seq<nat>)
    requires Predecessors(nodes, hs, level, prev, ranks) && c == ranks[0] + 1 < |nodes|
    requires Plan(befores, afters, c, hs[c], ranks, nodes[c]) && afters == Tables(nodes, hs, level)
    ensures forall i :: hs[c] <= i < level ==> LeadsBeyond(nodes, c, befores[i][ranks[i]].value)
  {
    forall i | hs[c] <= i < level ensures LeadsBeyond(nodes, c, befores[i][ranks[i]].value) {
      OverLeadsBeyond(nodes, hs, c, i, ranks[i]);
      assert LinksOver(befores[i], afters[i], c, ranks[i]);
    }
  }

  lemma UnlinkedTowers<K>(nodes: seq<Node<K>>, hs: seq<nat>, rows: seq<Row<K>>, level: nat, c: nat, now: seq<Row<K>>)
    requires Towered(nodes, hs, rows, level) && 0 < c < |nodes| && SameAbove(rows, now, level)
    requires AllLinked(now, Gaps(Tables(Without(nodes, c), Removed(hs, c), level), c))
    ensures Towered(Without(nodes, c), Removed(hs, c), Without(now, c), level)
  {
    var fewer, lower, left := Without(nodes, c), Removed(hs, c), Without(now, c);
    assert InsertRow(left, c, now[c]) == now;
    FewerDistinct(nodes, c);
    GapsLinked(left, Tables(fewer, lower, level), c, now[c]);
    assert EvenRows(now) && SpareRows(now[0], level);
    assert left[0] == now[0] && lower[0] == hs[0];
  }

  lemma FewerRows<K>(nodes: seq<Node<K>>, rows: seq<Row<K>>, c: nat)
    requires RowsOf(nodes, rows) && c < |nodes|
    ensures RowsOf(Without(nodes, c), Without(rows, c))
  {
  }

  /** After one node is taken out and another perhaps put in, no others have come. */
  lemma OnlyThese<K>(was: seq<Node<K>>, c: nat, mid: seq<Node<K>>, now: seq<Node<K>>, node: Node<K>)
    requires c < |was| && mid == Without(was, c) && (now == mid
      || exists d: nat :: d <= |mid| && now == InsertNode(mid, d, node))
    ensures forall n :: n in now ==> n in was || n == node
  {
    forall n | n in now ensures n in was || n == node {
      if now != mid {
        var d: nat :| d <= |mid| && now == InsertNode(mid, d, node);
        assert n != node ==> n in mid;
      }
      assert n in mid ==> n in was;
    }
  }

  // ----- the keys and the backward links -----

  lemma MoreKeys<K>(nodes: seq<Node<K>>, keys: seq<K>, c: nat, node: Node<K>, key: K)
    requires Holds(nodes, keys) && c <= |keys| && node.key == key
    ensures Holds(InsertNode(nodes, c + 1, node), keys[..c] + [key] + keys[c..])
  {
    var ns, more := InsertNode(nodes, c + 1, node), keys[..c] + [key] + keys[c..];
    forall a | 0 < a < |ns| ensures ns[a].key == more[a - 1] {
      assert a > c + 1 ==> ns[a] == nodes[a - 1] && more[a - 1] == keys[a - 2];
    }
  }

  lemma FewerKeys<K>(nodes: seq<Node<K>>, keys: seq<K>, c: nat)
    requires Holds(nodes, keys) && c < |keys|
    ensures Holds(Without(nodes, c + 1), Without(keys, c))
  {
    var ns, fewer := Without(nodes, c + 1), Without(keys, c);
    forall a | 0 < a < |ns| ensures ns[a].key == fewer[a - 1] {
      assert a > c ==> ns[a] == nodes[a + 1] && fewer[a - 1] == keys[a];
    }
  }

  lemma FewerSorted<K>(less: (K, K) -> bool, keys: seq<K>, c: nat)
    requires Sorted(less, keys) && c < |keys|
    ensures Sorted(less, Without(keys, c))
  {
  }

  lemma OnlyAt<K(!new)>(less: (K, K) -> bool, nodes: seq<Node<K>>, keys: seq<K>, c: nat)
    requires StrictOrder(less) && Sorted(less, keys) && Holds(nodes, keys) && c < |keys|
    ensures Same(less, nodes[c + 1].key, keys[c]) && forall b :: c + 1 < b < |nodes| ==> !Same(less, nodes[b].key,
      keys[c])
  {
  }

  /** Unlinks the node behind `prev` on the levels where the next key is `key`, and counts it out of the spans above. */
  method UnlinkNode<K>(ghost nodes: seq<Node<K>>, ghost hs: seq<nat>, ghost rows: seq<Row<K>>, ghost level: nat,
      ghost c: nat, prev: seq<Node<K>>, ghost ranks: seq<nat>,
                       less: (K, K) -> bool, key: K) returns (ghost now: seq<Row<K>>)
    requires Towered(nodes, hs, rows, level) && RowsOf(nodes, rows) && Predecessors(nodes, hs, level, prev, ranks)
      && c == ranks[0] + 1 < |nodes|
    requires Same(less, nodes[c].key, key) && forall b :: c < b < |nodes| ==> !Same(less, nodes[b].key, key)
    modifies nodes`next, nodes`span
    ensures RowsOf(Without(nodes, c), now) && Towered(Without(nodes, c), Removed(hs, c), now, level)
  {
    ghost var gaps, befores, afters := UnlinkingTables(nodes, hs, rows, level, c, prev, ranks);
    PassesOver(nodes, hs, level, befores, afters, c, prev, ranks);
    ghost var left := UnlinkAll(nodes, rows, gaps, befores, afters, (set n | n in nodes), c, hs[c], prev, ranks,
        nodes[c], less, key);
    UnlinkedTowers(nodes, hs, rows, level, c, left);
    FewerRows(nodes, left, c);
    now := Without(left, c);
  }

  /** Sets the backward links around a new node at position `c`. */
  method LinkBack<K>(ghost nodes: seq<Node<K>>, ghost hs: seq<nat>, ghost rows: seq<Row<K>>, ghost level: nat,
      ghost was: seq<Node<K>>, ghost c: nat, prev: Node<K>, node: Node<K>)
    requires Towered(nodes, hs, rows, level) && RowsOf(nodes, rows) && 0 < c <= |was|
      && nodes == InsertNode(was, c, node) && was[c - 1] == prev
    requires Backed(was)
    modifies nodes`prev
    ensures Backed(nodes) && RowsOf(nodes, rows)
  {
    ReadLink(nodes, hs, rows, level, 0, c);
    assert First(hs, c + 1, 0) == c + 1;
    OnlyAtIts(nodes, c);
    node.prev := prev;
    if node.next[0] != null {
      assert node.next[0] == nodes[c + 1];
      OnlyAtIts(nodes, c + 1);
      node.next[0].prev := node;
    }
    assert forall a :: c + 1 < a < |nodes| ==> nodes[a] == was[a - 1];
  }

  /** Sets the backward link over a node taken out at position `c`. */
  method LinkBackOver<K>(ghost nodes: seq<Node<K>>, ghost hs: seq<nat>, ghost rows: seq<Row<K>>, ghost level: nat,
      ghost was: seq<Node<K>>, ghost c: nat, prev: Node<K>)
    requires Towered(nodes, hs, rows, level) && RowsOf(nodes, rows) && 0 < c < |was| && nodes == Without(was, c)
      && was[c - 1] == prev
    requires Backed(was)
    modifies was`prev
    ensures Backed(nodes) && RowsOf(nodes, rows)
  {
    ReadLink(nodes, hs, rows, level, 0, c - 1);
    assert First(hs, c, 0) == c;
    if prev.next[0] != null {
      assert prev.next[0] == nodes[c] && nodes[c] == was[c + 1];
      OnlyAtIts(nodes, c);
      prev.next[0].prev := prev;
    }
    assert forall a :: c <= a < |nodes| ==> nodes[a] == was[a + 1];
  }

  /** Puts a node behind the nodes a search found, linked on `t` levels and backward. */
  method PutIn<K>(ghost nodes: seq<Node<K>>, ghost hs: seq<nat>, ghost rows: seq<Row<K>>, ghost level: nat,
      node: Node<K>, t: nat, prev: seq<Node<K>>, ranks: seq<nat>)
    returns (ghost now: seq<Row<K>>)
    requires Towered(nodes, hs, rows, level) && RowsOf(nodes, rows) && Backed(nodes) && 1 <= t <= level
      && Predecessors(nodes, hs, level, prev, ranks)
    requires node !in nodes && |node.next| == |node.span| == level
    modifies nodes`next, nodes`span, nodes`prev, node`next, node`span, node`prev
    ensures RowsOf(InsertNode(nodes, ranks[0] + 1, node), now) && Backed(InsertNode(nodes, ranks[0] + 1, node))
    ensures Towered(InsertNode(nodes, ranks[0] + 1, node), Inserted(hs, ranks[0] + 1, t), now, level)
  {
    ghost var c := ranks[0] + 1;
    now := LinkNode(nodes, hs, rows, level, t, prev, ranks, node);
    LinkBack(InsertNode(nodes, c, node), Inserted(hs, c, t), now, level, nodes, c, prev[0], node);
  }

  /** Takes the node behind `prev` out of every level and of the backward links. */
  method TakeOut<K>(ghost nodes: seq<Node<K>>, ghost hs: seq<nat>, ghost rows: seq<Row<K>>, ghost level: nat,
      prev: seq<Node<K>>, ghost ranks: seq<nat>,
                    less: (K, K) -> bool, key: K) returns (ghost now: seq<Row<K>>)
    requires Towered(nodes, hs, rows, level) && RowsOf(nodes, rows) && Backed(nodes)
      && Predecessors(nodes, hs, level, prev, ranks)
    requires ranks[0] + 1 < |nodes| && Same(less, nodes[ranks[0] + 1].key, key)
    requires forall b :: ranks[0] + 1 < b < |nodes| ==> !Same(less, nodes[b].key, key)
    modifies nodes`next, nodes`span, nodes`prev
    ensures RowsOf(Without(nodes, ranks[0] + 1), now) && Backed(Without(nodes, ranks[0] + 1))
    ensures Towered(Without(nodes, ranks[0] + 1), Removed(hs, ranks[0] + 1), now, level)
  {
    ghost var c := ranks[0] + 1;
    assert prev[0] == nodes[c - 1];
    now := UnlinkNode(nodes, hs, rows, level, c, prev, ranks, less, key);
    LinkBackOver(Without(nodes, c), Removed(hs, c), now, level, nodes, c, prev[0]);
  }

  /** The keys before a range are those below its minimum, and the minimum itself if it is excluded. */
  lemma StartsAfter<K(!new)>(less: (K, K) -> bool, bounds: Bounds<K>, keys: seq<K>, before: K -> bool, c: nat)
    requires StrictOrder(less) && Sorted(less, keys) && Splits(less, keys, bounds.min, c)
      && forall k :: before(k) == BeforeRange(less, bounds, k)
    ensures Below(keys, before, if c < |keys| && bounds.minex && keys[c] == bounds.min then c + 1 else c)
  {
    forall i | c < i < |keys| ensures !before(keys[i]) {
      assert less(keys[c], keys[i]);
    }
  }

  lemma AtMostIsPrefix<K(!new)>(less: (K, K) -> bool, keys: seq<K>, key: K, before: K -> bool)
    requires StrictOrder(less) && Sorted(less, keys) && forall k :: before(k) == !less(key, k)
    ensures Prefix(keys, before)
  {
  }

  /** Of the `r` keys up to a range's maximum, all but an excluded maximum are within it. */
  lemma EndsBefore<K(!new)>(less: (K, K) -> bool, bounds: Bounds<K>, keys: seq<K>, r: nat, hi: nat)
    requires StrictOrder(less) && Sorted(less, keys) && r <= |keys|
    requires (forall i :: 0 <= i < r ==> !less(bounds.max, keys[i]))
      && forall i :: r <= i < |keys| ==> less(bounds.max, keys[i])
    requires hi == if bounds.maxex && r > 0 && Same(less, keys[r - 1], bounds.max) then r - 1 else r
    ensures Below(keys, k => WithinMax(less, bounds, k), hi)
  {
    forall i | 0 <= i < hi ensures WithinMax(less, bounds, keys[i]) {
      assert i < r - 1 ==> less(keys[i], keys[r - 1]);
    }
  }

  // ----- walking the bottom level -----

  ghost predicate Chain<K>(nodes: seq<Node<K>>)
    reads nodes`next
  {
    forall a :: 0 <= a < |nodes| ==> |nodes[a].next| > 0 && nodes[a].next[0] == At(nodes, a + 1)
  }

  lemma BottomChain<K>(nodes: seq<Node<K>>, hs: seq<nat>, rows: seq<Row<K>>, level: nat)
    requires Towered(nodes, hs, rows, level) && RowsOf(nodes, rows)
    ensures Chain(nodes)
  {
    forall a | 0 <= a < |nodes| ensures |nodes[a].next| > 0 && nodes[a].next[0] == At(nodes, a + 1) {
      ReadLink(nodes, hs, rows, level, 0, a);
      BottomNext(hs, a);
    }
  }

  /** The keys from rank `lo` on that `within` accepts, cut to a window. */
  method Collect<K>(ghost nodes: seq<Node<K>>, ghost keys: seq<K>, n: Node?<K>, ghost lo: nat, ghost hi: nat,
      within: K -> bool, offset: nat, count: Option<nat>)
    returns (out: seq<K>)
    requires Chain(nodes) && Holds(nodes, keys) && lo <= hi && Below(keys, within, hi) && n == At(nodes, lo + 1)
    ensures out == Window(keys[lo..hi], offset, count)
  {
    var node, i := n, 0;
    out := [];
    ghost var all := Walk(keys[lo..hi], 0, offset, count, []);
    while node != null && within(node.key)
      invariant lo + i <= hi && node == At(nodes, lo + i + 1) && Walk(keys[lo + i..hi], i, offset, count, out) == all
      decreases hi - i
    {
      if Full(out, count) {
        break;
      }
      WalkStep(keys, lo + i, hi, i, offset, count, out);
      if i >= offset {
        out := out + [node.key];
      }
      i := i + 1;
      node := node.next[0];
    }
    WalkEnds(keys[lo + i..hi], i, offset, count, out);
    WalkIsWindow(keys[lo..hi], offset, count);
  }

  /** The number of keys from rank `lo` on that `within` accepts. */
  method CountWithin<K>(ghost nodes: seq<Node<K>>, ghost keys: seq<K>, n: Node?<K>, ghost lo: nat, ghost hi: nat,
      within: K -> bool) returns (num: nat)
    requires Chain(nodes) && Holds(nodes, keys) && lo <= hi && Below(keys, within, hi) && n == At(nodes, lo + 1)
    ensures num == hi - lo
  {
    var node := n;
    num := 0;
    while node != null && within(node.key)
      invariant lo + num <= hi && node == At(nodes, lo + num + 1)
      decreases hi - num
    {
      node := node.next[0];
      num := num + 1;
    }
  }

  /** The keys from rank `hi - 1` down that `before` does not accept, cut to a window. */
  method CollectBack<K>(ghost nodes: seq<Node<K>>, ghost keys: seq<K>, head: Node<K>, n: Node<K>, ghost lo: nat,
      ghost hi: nat, before: K -> bool, offset: nat, count: Option<nat>)
    returns (out: seq<K>)
    requires Backed(nodes) && Holds(nodes, keys) && Distinct(nodes) && lo <= hi <= |keys| && Below(keys, before, lo)
      && nodes[0] == head && n == nodes[hi]
    ensures out == Window(Reverse(keys[lo..hi]), offset, count)
  {
    OnlyAtIts(nodes, 0);
    var node, i := n, 0;
    out := [];
    ghost var all := Walk(Reverse(keys[lo..hi]), 0, offset, count, []);
    while node != head && !before(node.key)
      invariant lo + i <= hi && node == nodes[hi - i] && Walk(Reverse(keys[lo..hi - i]), i, offset, count, out) == all
      decreases hi - i
    {
      if Full(out, count) {
        break;
      }
      WalkBackStep(keys, lo, hi - i, i, offset, count, out);
      if i >= offset {
        out := out + [node.key];
      }
      i := i + 1;
      node := node.prev;
    }
    WalkEnds(Reverse(keys[lo..hi - i]), i, offset, count, out);
    WalkIsWindow(Reverse(keys[lo..hi]), offset, count);
  }

  /** The keys of up to `steps` nodes from rank `lo` on, cut to a window; a full window ends the walk. */
  method CollectRanks<K>(ghost nodes: seq<Node<K>>, ghost keys: seq<K>, n: Node?<K>, ghost lo: nat, start: nat,
      end: nat, offset: nat, count: Option<nat>)
    returns (out: seq<K>)
    requires Chain(nodes) && Holds(nodes, keys) && lo <= |keys| && n == At(nodes, lo + 1) && start <= end
      && count != Some(0)
    ensures out == Window(keys[lo..Min(lo + end - start, |keys|)], offset, count)
  {
    ghost var hi := Min(lo + end - start, |keys|);
    var node, i, rank := n, 0, start;
    out := [];
    ghost var all := Walk(keys[lo..hi], 0, offset, count, []);
    while node != null && rank < end
      invariant lo + i <= hi && rank == start + i && node == At(nodes, lo + i + 1) && !Full(out, count)
      invariant Walk(keys[lo + i..hi], i, offset, count, out) == all
      decreases end - rank
    {
      rank := rank + 1;
      WalkStep(keys, lo + i, hi, i, offset, count, out);
      if i >= offset {
        out := out + [node.key];
        if Full(out, count) {
          WalkEnds(keys[lo + i + 1..hi], i + 1, offset, count, out);
          WalkIsWindow(keys[lo..hi], offset, count);
          return;
        }
      }
      i := i + 1;
      node := node.next[0];
    }
    WalkEnds(keys[lo + i..hi], i, offset, count, out);
    WalkIsWindow(keys[lo..hi], offset, count);
  }

  /** Like `CollectRanks`, backward from position `p`; the walk ends at the head, whose key counts like any other. */
  method CollectRanksBack<K>(ghost nodes: seq<Node<K>>, ghost ks: seq<K>, n: Node<K>, ghost p: nat, start: nat,
      end: nat, offset: nat, count: Option<nat>)
    returns (out: seq<K>)
    requires Backed(nodes) && |ks| == |nodes| && (forall a :: 0 <= a < |nodes| ==> nodes[a].key == ks[a])
    requires p < |nodes| && n == nodes[p] && start <= end && count != Some(0)
    ensures out == Window(Reverse(ks[Max(0, p + 1 - (end - start))..p + 1]), offset, count)
  {
    ghost var lo: nat := Max(0, p + 1 - (end - start));
    var node: Node?<K>, i, rank := n, 0, start;
    out := [];
    ghost var all := Walk(Reverse(ks[lo..p + 1]), 0, offset, count, []);
    while node != null && rank < end && !Full(out, count)
      invariant lo + i <= p + 1 && rank == start + i && (node == null <==> i == p + 1)
        && (i <= p ==> node == nodes[p - i])
      invariant Walk(Reverse(ks[lo..p + 1 - i]), i, offset, count, out) == all
      decreases end - rank
    {
      rank := rank + 1;
      WalkBackStep(ks, lo, p + 1 - i, i, offset, count, out);
      if i >= offset {
        out := out + [node.key];
      }
      assert node == nodes[p - i];
      i := i + 1;
      node := node.prev;
    }
    WalkEnds(Reverse(ks[lo..p + 1 - i]), i, offset, count, out);
    WalkIsWindow(Reverse(ks[lo..p + 1]), offset, count);
  }

  class Skiplist<K(0, !new)> {
    const less: (K, K) -> bool
    var head: Node<K>
    var level: nat
    var size: nat
    ghost var nodes: seq<Node<K>>
    ghost var hs: seq<nat>
    ghost var rows: seq<Row<K>>
    ghost var keys: seq<K>

    ghost predicate Shaped()
      reads this, nodes
    {
      Towered(nodes, hs, rows, level) && RowsOf(nodes, rows) && nodes[0] == head && Holds(nodes, keys)
    }

    ghost predicate Valid()
      reads this, nodes
    {
      Shaped() && Backed(nodes) && size == |keys| && Sorted(less, keys) && StrictOrder(less)
    }

    /** An empty list whose head has `level` rows. */
    constructor (less: (K, K) -> bool, level: nat)
      requires StrictOrder(less) && 1 <= level <= MAX_LEVEL
      ensures Valid() && keys == [] && this.less == less && fresh(head) && fresh(nodes)
    {
      var nil: K := *;
      var h := new Node<K>(nil, level);
      this.less, this.level, head, size := less, level, h, 0;
      nodes, hs, rows, keys := [h], [level], [Row(h.next, h.span)], [];
      new;
      EmptyTowers(head, level, rows[0]);
    }

    /** What the link of `n`, at position `a`, says on level `i`. */
    lemma Leads(i: nat, n: Node<K>, a: nat)
      requires Shaped() && i < level && a < |nodes| && hs[a] > i && nodes[a] == n
      ensures i < |n.next| && i < |n.span| && (n.next[i] == null <==> First(hs, a + 1, i) == |nodes|)
      ensures var b := First(hs, a + 1, i); b < |nodes| ==> n.next[i] == nodes[b] && n.span[i] == b - a && nodes[b].key == keys[b - 1] && hs[b] > i
    {
      ReadLink(nodes, hs, rows, level, i, a);
    }

    /** Follows the links of level `i` while `before` accepts the next key, adding up spans. */
    method Advance(i: nat, before: K -> bool, n: Node<K>, rank: nat) returns (m: Node<K>, r: nat)
      requires Shaped() && i < level && rank < |nodes| && hs[rank] > i && nodes[rank] == n
        && (rank > 0 ==> before(keys[rank - 1]))
      ensures rank <= r < |nodes| && nodes[r] == m && Stops(hs, keys, before, i, r)
    {
      m, r := n, rank;
      Leads(i, m, r);
      while m.next[i] != null && before(m.next[i].key)
        invariant rank <= r < |nodes| && nodes[r] == m && hs[r] > i && (r > 0 ==> before(keys[r - 1]))
        invariant i < |m.next| && i < |m.span| && (m.next[i] == null <==> First(hs, r + 1, i) == |nodes|)
        invariant First(hs, r + 1, i) < |nodes| ==> m.next[i] == nodes[First(hs, r + 1, i)] && m.span[i] == First(hs, r + 1, i) - r
        decreases |nodes| - r
      {
        m, r := m.next[i], r + m.span[i];
        Leads(i, m, r);
      }
    }

    /**
     * Descends from the head: on every level the last node whose key `before` accepts, and its rank. The
     * lowest one's rank is the number of accepted keys.
     */
    method Descend(before: K -> bool) returns (prev: seq<Node<K>>, ranks: seq<nat>)
      requires Shaped() && Prefix(keys, before)
      ensures |prev| == |ranks| == level && Found(nodes, hs, keys, before, prev, ranks)
    {
      var n, rank := head, 0;
      prev, ranks := [], [];
      for i := level downto 0
        invariant |prev| == |ranks| == level - i && rank < |nodes| && nodes[rank] == n && hs[rank] >= i
        invariant rank > 0 ==> before(keys[rank - 1])
        invariant Trail(nodes, hs, keys, before, i, prev, ranks, if |ranks| > 0 then ranks[0] else 0)
          && (|ranks| > 0 ==> ranks[0] == rank)
      {
        n, rank := Advance(i, before, n, rank);
        LongerTrail(nodes, hs, keys, before, i, prev, ranks, n, rank);
        prev, ranks := [n] + prev, [rank] + ranks;
      }
      SearchDone(nodes, hs, keys, before, prev, ranks);
    }

    /** Makes room for level `i` at the head; its new rows lead nowhere. */
    method InitLevel(i: nat)
      requires |head.next| == |head.span|
      modifies head`next, head`span
      ensures |head.next| == |head.span| > i && old(head.next) <= head.next && old(head.span) <= head.span
      ensures forall j :: |old(head.next)| <= j < |head.next| ==> head.next[j] == null
    {
      if i >= |head.next| {
        var more := i + 1 - |head.next|;
        head.next, head.span := head.next + seq(more, _ => null), head.span + seq(more, _ => 0);
      }
    }

    /** Adds one level above the others: the head's link over all nodes. */
    method AddLevel(i: nat)
      requires Towered(nodes, hs, rows, i) && RowsOf(nodes, rows) && nodes[0] == head && size == |nodes| - 1
        && i < MAX_LEVEL
      modifies head`next, head`span, `hs, `rows
      ensures RowsOf(nodes, rows) && Towered(nodes, hs, rows, i + 1) && hs == old(hs)[0 := i + 1]
    {
      OnlyAtIts(nodes, 0);
      InitLevel(i);
      head.span := head.span[i := size];
      ghost var raised := Row(head.next, head.span);
      RaiseTowers(nodes, hs, rows, i, raised);
      hs, rows := hs[0 := i + 1], rows[0 := raised];
    }

    /** Gives the list at least `l` levels. */
    method Grow(l: nat)
      requires Valid() && 1 <= l <= MAX_LEVEL
      modifies this`level, this`hs, this`rows, head`next, head`span
      ensures Valid() && level >= l && level >= old(level)
    {
      var i := level;
      while i < l
        invariant level <= i <= MAX_LEVEL && (i <= l || i == level) && RowsOf(nodes, rows)
          && Towered(nodes, hs, rows, i)
      {
        AddLevel(i);
        i := i + 1;
      }
      if l > level {
        level := l;
      }
    }

    ghost method Commit(ns: seq<Node<K>>, nhs: seq<nat>, now: seq<Row<K>>, ks: seq<K>)
      requires Towered(ns, nhs, now, level) && RowsOf(ns, now) && ns[0] == head && Holds(ns, ks) && Backed(ns)
        && size == |ks|
      requires Sorted(less, ks) && StrictOrder(less)
      modifies `nodes, `hs, `rows, `keys
      ensures Valid() && nodes == ns && keys == ks
    {
      nodes, hs, rows, keys := ns, nhs, now, ks;
    }

    /** Puts in a key the list lacks, after the keys below it. */
    method Splice(key: K, t: nat, prev: seq<Node<K>>, ranks: seq<nat>) returns (node: Node<K>)
      requires Valid() && 1 <= t <= level && Predecessors(nodes, hs, level, prev, ranks)
      requires Splits(less, keys, key, ranks[0]) && key !in keys
      modifies this, nodes`next, nodes`span, nodes`prev
      ensures Valid() && fresh(node) && nodes == InsertNode(old(nodes), ranks[0] + 1, node) && node.key == key
      ensures keys == old(keys[..ranks[0]] + [key] + keys[ranks[0]..])
    {
      ghost var c := ranks[0];
      node := new Node(key, level);
      ghost var now := PutIn(nodes, hs, rows, level, node, t, prev, ranks);
      MoreKeys(nodes, keys, c, node, key);
      InsertSorted(less, keys, key, c);
      size := size + 1;
      Commit(InsertNode(nodes, c + 1, node), Inserted(hs, c + 1, t), now, keys[..c] + [key] + keys[c..]);
    }

    /** The nodes before the first key at or above `key` on every level, their ranks, and that key's node. */
    method FindGreaterOrEqual(key: K) returns (n: Node?<K>, prev: seq<Node<K>>, ranks: seq<nat>)
      requires Valid()
      ensures Predecessors(nodes, hs, level, prev, ranks) && Splits(less, keys, key, ranks[0])
      ensures (n == null <==> ranks[0] == |keys|) && (n != null ==> n == nodes[ranks[0] + 1] && n.key == keys[ranks[0]])
    {
      var before := k => less(k, key);
      LessIsPrefix(less, keys, key, before);
      prev, ranks := Descend(before);
      Leads(0, prev[0], ranks[0]);
      n := prev[0].next[0];
      BottomNext(hs, ranks[0]);
    }

    /** Inserts a key on a level drawn by the caller; a key already held stays as it is. */
    method Insert(key: K, insertLevel: nat) returns (node: Node<K>)
      requires Valid() && 1 <= insertLevel <= MAX_LEVEL
      modifies this, nodes`next, nodes`span, nodes`prev
      ensures Valid() && node.key == key
      ensures key in old(keys) ==> keys == old(keys) && nodes == old(nodes)
      ensures key !in old(keys) ==> fresh(node) && exists c: nat :: c <= |old(keys)| && keys == old(keys)[..c] + [key] + old(keys)[c..] && nodes == InsertNode(old(nodes), c + 1, node)
    {
      Grow(insertLevel);
      var n, prev, ranks := FindGreaterOrEqual(key);
      HeldAfterSmaller(less, keys, key, ranks[0]);
      if n != null && Same(less, n.key, key) {
        return n;
      }
      node := Splice(key, insertLevel, prev, ranks);
    }

    /** Deletes the key a search stopped before. */
    method DeleteNode(key: K, prev: seq<Node<K>>, ghost ranks: seq<nat>)
      requires Valid() && Predecessors(nodes, hs, level, prev, ranks) && ranks[0] < |keys| && keys[ranks[0]] == key
      modifies this, nodes`next, nodes`span, nodes`prev
      ensures Valid() && nodes == Without(old(nodes), ranks[0] + 1) && keys == Without(old(keys), ranks[0])
    {
      ghost var c := ranks[0];
      OnlyAt(less, nodes, keys, c);
      ghost var now := TakeOut(nodes, hs, rows, level, prev, ranks, less, key);
      FewerKeys(nodes, keys, c);
      FewerSorted(less, keys, c);
      size := size - 1;
      Commit(Without(nodes, c + 1), Removed(hs, c + 1), now, Without(keys, c));
    }

    /** Deletes a key if it is held. */
    method Delete(key: K) returns (found: bool)
      requires Valid()
      modifies this, nodes`next, nodes`span, nodes`prev
      ensures Valid() && found == (key in old(keys))
      ensures !found ==> keys == old(keys) && nodes == old(nodes)
      ensures found ==> exists c: nat :: c < |old(keys)| && old(keys)[c] == key && keys == Without(old(keys), c) && nodes == Without(old(nodes), c + 1)
    {
      var n, prev, ranks := FindGreaterOrEqual(key);
      HeldAfterSmaller(less, keys, key, ranks[0]);
      if n == null || !Same(less, n.key, key) {
        return false;
      }
      DeleteNode(key, prev, ranks);
      return true;
    }

    /** Whether a key is held. */
    method Contains(key: K) returns (found: bool)
      requires Valid()
      ensures found == (key in keys)
    {
      var n, prev, ranks := FindGreaterOrEqual(key);
      HeldAfterSmaller(less, keys, key, ranks[0]);
      found := n != null && Same(less, n.key, key);
    }

    /** Changes the key of the node at position `c + 1`. */
    method SetKey(node: Node<K>, ghost c: nat, key: K)
      requires Shaped() && Backed(nodes) && size == |keys| && c < |keys| && nodes[c + 1] == node
      modifies node`key, `keys
      ensures Shaped() && Backed(nodes) && keys == old(keys)[c := key]
    {
      OnlyAtIts(nodes, c + 1);
      node.key := key;
      keys := keys[c := key];
    }

    /** Whether the key after the `c` smaller ones can be changed where it is. */
    method StaysInPlace(n: Node<K>, prev: Node<K>, ghost c: nat, newKey: K) returns (stays: bool)
      requires Valid() && c < |keys| && nodes[c] == prev && nodes[c + 1] == n
      ensures stays == InPlace(less, keys, c, newKey)
    {
      OnlyAtIts(nodes, 0);
      Leads(0, n, c + 1);
      BottomNext(hs, c + 1);
      var next := n.next[0];
      stays := (prev == head || !less(newKey, prev.key)) && (next == null || !less(next.key, newKey));
    }

    /** Deletes a key and inserts another. */
    method MoveKey(key: K, newKey: K, prev: seq<Node<K>>, ghost ranks: seq<nat>, insertLevel: nat)
      requires Valid() && 1 <= insertLevel <= MAX_LEVEL
      requires Predecessors(nodes, hs, level, prev, ranks) && ranks[0] < |keys| && keys[ranks[0]] == key
      modifies this, nodes`next, nodes`span, nodes`prev
      ensures Valid() && Replaced(old(keys), keys, ranks[0], newKey)
        && forall n :: n in nodes ==> n in old(nodes) || fresh(n)
    {
      ghost var was, c := nodes, ranks[0] + 1;
      DeleteNode(key, prev, ranks);
      ghost var mid := nodes;
      var node := Insert(newKey, insertLevel);
      OnlyThese(was, c, mid, nodes, node);
    }

    /**
     * Replaces a key, the `c`-th. The list stays strictly sorted unless the new key equals a neighbour's, in
     * which case it is stored twice; a new key held elsewhere is not stored a second time.
     */
    method Update(key: K, newKey: K, insertLevel: nat) returns (found: bool, ghost c: nat)
      requires Valid() && 1 <= insertLevel <= MAX_LEVEL
      modifies this, nodes
      ensures Shaped() && Backed(nodes) && found == (key in old(keys)) && (!found ==> Valid() && keys == old(keys))
      ensures forall n :: n in nodes ==> n in old(nodes) || fresh(n)
      ensures found ==> c < |old(keys)| && old(keys)[c] == key
      ensures found && InPlace(less, old(keys), c, newKey) ==>
        keys == old(keys)[c := newKey] && (Valid() <==> newKey !in Without(old(keys), c))
      ensures found && !InPlace(less, old(keys), c, newKey) ==> Valid() && Replaced(old(keys), keys, c, newKey)
    {
      var n, prev, ranks := FindGreaterOrEqual(key);
      HeldAfterSmaller(less, keys, key, ranks[0]);
      c := ranks[0];
      if n == null || !Same(less, n.key, key) {
        found := false;
        return;
      }
      found := true;
      var stays := StaysInPlace(n, prev[0], c, newKey);
      if stays {
        InPlaceSorted(less, keys, c, newKey);
        SetKey(n, c, newKey);
      } else {
        MoveKey(key, newKey, prev, ranks, insertLevel);
      }
    }

    // ----- ranks -----

    /** Follows the links of level `i` while they lead short of position `target`. */
    method AdvanceTo(i: nat, target: nat, n: Node<K>, span: nat) returns (m: Node<K>, r: nat)
      requires Shaped() && i < level && span < target < |nodes| && hs[span] > i && nodes[span] == n
      ensures span <= r < target && nodes[r] == m && hs[r] > i && First(hs, r + 1, i) >= target
    {
      m, r := n, span;
      Leads(i, m, r);
      while m.next[i] != null && r + m.span[i] < target
        invariant span <= r < target && nodes[r] == m && hs[r] > i && i < |m.next| && i < |m.span|
        decreases target - r
      {
        Leads(i, m, r);
        m, r := m.next[i], r + m.span[i];
        Leads(i, m, r);
      }
      Leads(i, m, r);
    }

    /** The node of the key at a rank, if there is one. */
    method FindKey(rank: nat) returns (n: Node?<K>)
      requires Valid()
      ensures (n == null <==> rank >= |keys|) && (n != null ==> n == nodes[rank + 1] && n.key == keys[rank])
    {
      n := null;
      if rank >= size {
        return;
      }
      var m, span, i := head, 0, level;
      while i > 0 && n == null
        invariant 0 <= i <= level && span <= rank && nodes[span] == m && hs[span] >= i
        invariant n != null ==> n == nodes[rank + 1]
        invariant i == 0 ==> n != null
        decreases i, if n == null then 1 else 0
      {
        i := i - 1;
        m, span := AdvanceTo(i, rank + 1, m, span);
        Leads(i, m, span);
        BottomNext(hs, span);
        if m.next[i] != null && span + m.span[i] == rank + 1 {
          n := m.next[i];
        }
      }
    }

    /** Looks on every level for `key` right after the `c` keys that `before` accepts. */
    method Lookup(key: K, before: K -> bool) returns (rank: Option<nat>, ghost c: nat)
      requires Shaped() && Prefix(keys, before)
      ensures rank.Some? ==> rank.value < |keys| && Same(less, keys[rank.value], key)
      ensures rank.None? ==> Below(keys, before, c) && (c < |keys| ==> !Same(less, keys[c], key))
    {
      var m, r := head, 0;
      for i := level downto 0
        invariant r < |nodes| && nodes[r] == m && hs[r] >= i && (r > 0 ==> before(keys[r - 1]))
        invariant i == 0 ==> Stops(hs, keys, before, 0, r) && (r < |keys| ==> !Same(less, keys[r], key))
      {
        m, r := Advance(i, before, m, r);
        Leads(i, m, r);
        BottomNext(hs, r);
        if m.next[i] != null && Same(less, m.next[i].key, key) {
          return Some(r + m.span[i] - 1), r;
        }
      }
      BottomStops(hs, keys, before, r);
      return None, r;
    }

    /** The rank of a key, if it is held. */
    method FindRankOfKey(key: K) returns (rank: Option<nat>)
      requires Valid()
      ensures rank.Some? ==> rank.value < |keys| && keys[rank.value] == key
      ensures rank.None? ==> key !in keys
    {
      var before := k => less(k, key);
      LessIsPrefix(less, keys, key, before);
      ghost var c;
      rank, c := Lookup(key, before);
      if rank.None? {
        HeldAfterSmaller(less, keys, key, c);
      }
    }

    // ----- ranges -----

    /** The first node not before the range, after `lo` keys. */
    method FindStart(bounds: Bounds<K>, before: K -> bool) returns (n: Node?<K>, ghost lo: nat)
      requires Valid() && forall k :: before(k) == BeforeRange(less, bounds, k)
      ensures Below(keys, before, lo) && n == At(nodes, lo + 1)
    {
      var prev, ranks;
      n, prev, ranks := FindGreaterOrEqual(bounds.min);
      lo := ranks[0];
      HeldAfterSmaller(less, keys, bounds.min, lo);
      StartsAfter(less, bounds, keys, before, lo);
      if n != null && bounds.minex && Same(less, n.key, bounds.min) {
        BottomChain(nodes, hs, rows, level);
        n, lo := n.next[0], lo + 1;
      }
    }

    /** The keys in a range, ascending, cut to a window. */
    method RangeByKey(bounds: Bounds<K>, offset: nat, count: Option<nat>) returns (out: seq<K>)
      requires Valid()
      ensures out == Window(Select(less, bounds, keys), offset, count)
    {
      if !ValidBounds(less, bounds) {
        InvalidBounds(less, bounds, keys);
        return [];
      }
      if count == Some(0) {
        return [];
      }
      var before, within := k => BeforeRange(less, bounds, k), k => WithinMax(less, bounds, k);
      var n;
      ghost var lo, hi := 0, Front(keys, within);
      n, lo := FindStart(bounds, before);
      WithinIsFront(less, bounds, keys, within);
      SelectSlice(less, bounds, keys, before, within, lo, hi);
      BottomChain(nodes, hs, rows, level);
      out := Collect(nodes, keys, n, lo, hi, within, offset, count);
    }

    /** The number of keys in a range. */
    method Count(bounds: Bounds<K>) returns (num: nat)
      requires Valid()
      ensures num == |Select(less, bounds, keys)|
    {
      if !ValidBounds(less, bounds) {
        InvalidBounds(less, bounds, keys);
        return 0;
      }
      var before, within := k => BeforeRange(less, bounds, k), k => WithinMax(less, bounds, k);
      var n;
      ghost var lo, hi := 0, Front(keys, within);
      n, lo := FindStart(bounds, before);
      WithinIsFront(less, bounds, keys, within);
      SelectSlice(less, bounds, keys, before, within, lo, hi);
      BottomChain(nodes, hs, rows, level);
      num := CountWithin(nodes, keys, n, lo, hi, within);
    }

    /**
     * The keys in a range, descending, cut to a window. With an excluded maximum the code compares the last
     * node at or below it with the maximum; where no key is that low this reads the key of the head, which
     * was never set: no result.
     */
    method RevRangeByKey(bounds: Bounds<K>, offset: nat, count: Option<nat>) returns (out: Option<seq<K>>)
      requires Valid()
      ensures out == RevSelect(less, bounds, keys, offset, count)
    {
      if !ValidBounds(less, bounds) {
        InvalidBounds(less, bounds, keys);
        return Some([]);
      }
      if count == Some(0) {
        return Some([]);
      }
      var n, r := FindLessOrEqual(bounds.max);
      if bounds.maxex && n == head {
        return None;
      }
      var before := k => BeforeRange(less, bounds, k);
      BeforeIsFront(less, bounds, keys, before);
      ghost var lo, hi := Front(keys, before), r;
      if bounds.maxex && Same(less, n.key, bounds.max) {
        assert nodes[r].prev == nodes[r - 1];
        n, hi := n.prev, r - 1;
      }
      EndsBefore(less, bounds, keys, r, hi);
      SelectSlice(less, bounds, keys, before, k => WithinMax(less, bounds, k), lo, hi);
      var keysBack := CollectBack(nodes, keys, head, n, lo, hi, before, offset, count);
      return Some(keysBack);
    }

    /** The keys between two ranks, ascending, cut to a window. */
    method RangeByRank(r: Ranks, offset: nat, count: Option<nat>) returns (out: seq<K>)
      requires Valid()
      ensures out == Window(RankSlice(keys, r), offset, count)
    {
      if !ValidRanks(r) || count == Some(0) {
        NoSlice(keys, r, offset, count);
        return [];
      }
      var n := FindKey(r.min);
      if n == null {
        NoSlice(keys, r, offset, count);
        return [];
      }
      SliceFrom(keys, r);
      BottomChain(nodes, hs, rows, level);
      out := FromRank(n, r, offset, count);
    }

    method FromRank(n: Node<K>, r: Ranks, offset: nat, count: Option<nat>) returns (out: seq<K>)
      requires Chain(nodes) && Holds(nodes, keys) && r.min < |keys| && n == nodes[r.min + 1]
        && FirstRank(r) <= EndRank(r) && count != Some(0)
      ensures out == Window(keys[FirstRank(r)..Min(EndRank(r), |keys|)], offset, count)
    {
      var from: Node?<K> := n;
      if r.minex {
        from := n.next[0];
      }
      out := CollectRanks(nodes, keys, from, FirstRank(r), FirstRank(r), EndRank(r), offset, count);
    }

    /**
     * The keys between two ranks from the end, descending, cut to a window. The walk does not stop before the
     * head: ranks past the last key also return the key of the head, which was never set.
     */
    method RevRangeByRank(r: Ranks, offset: nat, count: Option<nat>) returns (out: seq<K>)
      requires Valid()
      ensures out == if r.min < |keys| then Window(RankSlice(Reverse([head.key] + keys), r), offset, count) else []
    {
      ghost var ks := [head.key] + keys;
      if !ValidRanks(r) || count == Some(0) || size <= r.min {
        NoRanks(ks, r, offset, count);
        return [];
      }
      var n := FindKey(size - 1 - r.min);
      TurnedSlice(ks, r);
      out := BackFromRank(n, ks, r, offset, count);
    }

    lemma NoRanks(ks: seq<K>, r: Ranks, offset: nat, count: Option<nat>)
      requires !ValidRanks(r) || count == Some(0) || |keys| <= r.min
      ensures r.min < |keys| ==> Window(RankSlice(Reverse(ks), r), offset, count) == []
    {
      if r.min < |keys| {
        NoSlice(Reverse(ks), r, offset, count);
      }
    }

    method BackFromRank(n: Node<K>, ghost ks: seq<K>, r: Ranks, offset: nat, count: Option<nat>) returns (out: seq<K>)
      requires Backed(nodes) && Holds(nodes, keys) && nodes[0] == head && ks == [head.key] + keys && r.min < |keys|
        && n == nodes[|keys| - r.min]
      requires FirstRank(r) <= EndRank(r) && count != Some(0)
      ensures out == Window(Reverse(ks[|ks| - Min(EndRank(r), |ks|)..|ks| - FirstRank(r)]), offset, count)
    {
      var from: Node<K> := n;
      if r.minex {
        assert nodes[|keys| - r.min].prev == nodes[|keys| - r.min - 1];
        from := n.prev;
      }
      out := CollectRanksBack(nodes, ks, from, |keys| - FirstRank(r), FirstRank(r), EndRank(r), offset, count);
    }

    /** The last node whose key is not above `key`, after `r - 1` others; the head if there is none. */
    method FindLessOrEqual(key: K) returns (n: Node<K>, ghost r: nat)
      requires Valid()
      ensures r < |nodes| && n == nodes[r] && (n == head <==> r == 0) && (r > 0 ==> n.key == keys[r - 1])
      ensures (forall i :: 0 <= i < r ==> !less(key, keys[i])) && forall i :: r <= i < |keys| ==> less(key, keys[i])
    {
      var before := k => !less(key, k);
      AtMostIsPrefix(less, keys, key, before);
      var prev, ranks := Descend(before);
      n, r := prev[0], ranks[0];
      OnlyAtIts(nodes, 0);
    }

    /** Drops all nodes and goes back to one level; the head keeps its rows. */
    method Clear()
      requires Valid()
      modifies this, head`next, head`span, head`prev
      ensures Valid() && keys == [] && level == 1 && head == old(head)
    {
      head.next, head.span, head.prev := seq(|head.next|, _ => null), seq(|head.span|, _ => 0), null;
      size, level := 0, 1;
      ghost var row := Row(head.next, head.span);
      EmptyTowers(head, 1, row);
      Commit([head], [1], [row], []);
    }
  }
}
