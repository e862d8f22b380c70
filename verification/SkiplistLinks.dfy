/** Skiplist nodes and how inserting or deleting one changes the links and spans of every level. */
module SkiplistLinks {
  import opened Bytes
  import opened Towers

  class Node<K> {
    var key: K
    var next: seq<Node?<K>>
    var span: seq<nat>
    var prev: Node?<K>

    constructor (key: K, levels: nat)
      ensures this.key == key && prev == null && |next| == |span| == levels
      ensures forall i :: 0 <= i < levels ==> next[i] == null && span[i] == 0
    {
      this.key := key;
      next := seq(levels, _ => null);
      span := seq(levels, _ => 0);
      prev := null;
    }
  }

  /** What a node's fields should say on one level. */
  datatype Link<!K> = Link(next: Node?<K>, span: nat)

  ghost function At<K>(nodes: seq<Node<K>>, b: nat): Node?<K> {
    if b < |nodes| then nodes[b] else null
  }

  /** The link of the node at `a` on level `i`: to the next node that reaches the level, counting positions. */
  ghost function LinkOf<K>(nodes: seq<Node<K>>, hs: seq<nat>, i: nat, a: nat): Option<Link<K>>
    requires a < |nodes| == |hs|
  {
    if hs[a] > i then Some(Link(At(nodes, First(hs, a + 1, i)), Span(|nodes|, a, First(hs, a + 1, i)))) else None
  }

  ghost function Links<K>(nodes: seq<Node<K>>, hs: seq<nat>, i: nat): (links: seq<Option<Link<K>>>)
    requires |nodes| == |hs|
    ensures |links| == |nodes|
  {
    seq(|nodes|, a requires 0 <= a < |nodes| => LinkOf(nodes, hs, i, a))
  }

  /** A node's link fields, as a value. */
  datatype Row<!K> = Row(next: seq<Node?<K>>, span: seq<nat>)

  ghost predicate RowsOf<K>(nodes: seq<Node<K>>, rows: seq<Row<K>>)
    reads nodes`next, nodes`span
  {
    |rows| == |nodes| && forall a :: 0 <= a < |nodes| ==> nodes[a].next == rows[a].next && nodes[a].span == rows[a].span
  }

  ghost predicate RowHas<K>(row: Row<K>, i: nat, link: Link<K>) {
    i < |row.next| == |row.span| && row.next[i] == link.next && row.span[i] == link.span
  }

  /** The rows say what `links` says on level `i`. */
  ghost predicate Linked<K>(rows: seq<Row<K>>, links: seq<Option<Link<K>>>, i: nat) {
    |links| == |rows| && forall a :: 0 <= a < |rows| && links[a].Some? ==> RowHas(rows[a], i, links[a].value)
  }

  ghost predicate Apart<K>(nodes: seq<Node<K>>, a: nat, b: nat) {
    a < b < |nodes| ==> nodes[a] != nodes[b]
  }

  ghost predicate Distinct<K>(nodes: seq<Node<K>>) {
    forall a: nat, b: nat :: Apart(nodes, a, b)
  }

  lemma OnlyAtIts<K>(nodes: seq<Node<K>>, p: nat)
    requires Distinct(nodes) && p < |nodes|
    ensures forall a :: 0 <= a < |nodes| && a != p ==> nodes[a] != nodes[p]
  {
    forall a | 0 <= a < |nodes| && a != p ensures nodes[a] != nodes[p] {
      assert Apart(nodes, a, p) && Apart(nodes, p, a);
    }
  }

  ghost function InsertNode<K>(nodes: seq<Node<K>>, c: nat, node: Node<K>): seq<Node<K>>
    requires c <= |nodes|
  {
    nodes[..c] + [node] + nodes[c..]
  }

  // ----- how the links of a level change -----

  /** A node put in at `c` on this level takes over the link of its predecessor `p`. */
  ghost predicate LinksIn<K>(before: seq<Option<Link<K>>>, after: seq<Option<Link<K>>>, c: nat, p: nat, node: Node<K>) {
    && p < c <= |before| && |after| == |before| + 1 && before[p].Some? && before[p].value.span >= c - 1 - p
    && after[c] == Some(Link(before[p].value.next, before[p].value.span - (c - 1) + p))
    && after[p] == Some(Link(node, c - p))
    && (forall a :: 0 <= a < c && a != p ==> after[a] == before[a])
    && (forall a :: c < a < |after| ==> after[a] == before[a - 1])
  }

  /** A node put in at `c` below this level only makes the link over it longer. */
  ghost predicate LinksOver<K>(before: seq<Option<Link<K>>>, after: seq<Option<Link<K>>>, c: nat, p: nat) {
    && p < c <= |before| && |after| == |before| + 1 && before[p].Some?
    && after[c] == None
    && after[p] == Some(Link(before[p].value.next, before[p].value.span + 1))
    && (forall a :: 0 <= a < c && a != p ==> after[a] == before[a])
    && (forall a :: c < a < |after| ==> after[a] == before[a - 1])
  }

  lemma LinkBefore<K>(nodes: seq<Node<K>>, hs: seq<nat>, c: nat, t: nat, node: Node<K>, i: nat, p: nat, a: nat)
    requires |nodes| == |hs| && Precedes(hs, p, c, i) && a < c && a != p
    ensures LinkOf(InsertNode(nodes, c, node), Inserted(hs, c, t), i, a) == LinkOf(nodes, hs, i, a)
  {
    if hs[a] > i {
      FirstInserted(hs, c, t, i, a);
    }
  }

  lemma LinkAfter<K>(nodes: seq<Node<K>>, hs: seq<nat>, c: nat, t: nat, node: Node<K>, i: nat, a: nat)
    requires |nodes| == |hs| && c <= a < |hs|
    ensures LinkOf(InsertNode(nodes, c, node), Inserted(hs, c, t), i, a + 1) == LinkOf(nodes, hs, i, a)
  {
    if hs[a] > i {
      FirstInserted(hs, c, t, i, a);
    }
  }

  lemma LinkPredecessor<K>(nodes: seq<Node<K>>, hs: seq<nat>, c: nat, t: nat, node: Node<K>, i: nat, p: nat)
    requires |nodes| == |hs| && Precedes(hs, p, c, i)
    ensures LinkOf(nodes, hs, i, p).Some? && LinkOf(nodes, hs, i, p).value.span >= c - 1 - p
    ensures LinkOf(InsertNode(nodes, c, node), Inserted(hs, c, t), i, p)
         == Some(if t > i then Link(node, c - p) else Link(LinkOf(nodes, hs, i, p).value.next,
           LinkOf(nodes, hs, i, p).value.span + 1))
  {
    PredecessorInserted(hs, c, t, i, p);
    AtInserted(nodes, c, node, First(hs, p + 1, i));
    var nhs := Inserted(hs, c, t);
    assert nhs[p] == hs[p];
  }

  lemma LinkInserted<K>(nodes: seq<Node<K>>, hs: seq<nat>, c: nat, t: nat, node: Node<K>, i: nat, p: nat)
    requires |nodes| == |hs| && Precedes(hs, p, c, i)
    ensures LinkOf(nodes, hs, i, p).Some? && LinkOf(nodes, hs, i, p).value.span >= c - 1 - p
    ensures LinkOf(InsertNode(nodes, c, node), Inserted(hs, c, t), i, c)
         == if t > i then Some(Link(LinkOf(nodes, hs, i, p).value.next,
           LinkOf(nodes, hs, i, p).value.span - (c - 1) + p)) else None
  {
    PredecessorInserted(hs, c, t, i, p);
    LinkAt(InsertNode(nodes, c, node), Inserted(hs, c, t), i, c);
    LinkAt(nodes, hs, i, p);
    AtInserted(nodes, c, node, First(hs, p + 1, i));
    InsertedAt(hs, c, t);
  }

  lemma InsertedAt(hs: seq<nat>, c: nat, t: nat)
    requires c <= |hs|
    ensures Inserted(hs, c, t)[c] == t
  {
  }

  lemma LinkAt<K>(nodes: seq<Node<K>>, hs: seq<nat>, i: nat, a: nat)
    requires a < |nodes| == |hs|
    ensures hs[a] <= i ==> LinkOf(nodes, hs, i, a) == None
    ensures hs[a] > i ==> LinkOf(nodes, hs, i, a) == Some(Link(At(nodes, First(hs, a + 1, i)),
      Span(|nodes|, a, First(hs, a + 1, i))))
  {
  }

  lemma AtInserted<K>(nodes: seq<Node<K>>, c: nat, node: Node<K>, f: nat)
    requires c <= f <= |nodes|
    ensures At(InsertNode(nodes, c, node), f + 1) == At(nodes, f) && At(InsertNode(nodes, c, node), c) == node
  {
  }

  lemma KeepLinksBefore<K>(nodes: seq<Node<K>>, hs: seq<nat>, c: nat, t: nat, node: Node<K>, i: nat, p: nat)
    requires |nodes| == |hs| && Precedes(hs, p, c, i)
    ensures var before, after := Links(nodes, hs, i), Links(InsertNode(nodes, c, node), Inserted(hs, c, t), i);
      forall a :: 0 <= a < c && a != p ==> after[a] == before[a]
  {
    var ns, nhs := InsertNode(nodes, c, node), Inserted(hs, c, t);
    forall a | 0 <= a < c && a != p ensures LinkOf(ns, nhs, i, a) == LinkOf(nodes, hs, i, a) {
      LinkBefore(nodes, hs, c, t, node, i, p, a);
    }
  }

  lemma KeepLinksAfter<K>(nodes: seq<Node<K>>, hs: seq<nat>, c: nat, t: nat, node: Node<K>, i: nat)
    requires |nodes| == |hs| && c <= |hs|
    ensures var before, after := Links(nodes, hs, i), Links(InsertNode(nodes, c, node), Inserted(hs, c, t), i);
      forall a :: c < a < |after| ==> after[a] == before[a - 1]
  {
    var ns, nhs := InsertNode(nodes, c, node), Inserted(hs, c, t);
    forall a | c < a < |ns| ensures LinkOf(ns, nhs, i, a) == LinkOf(nodes, hs, i, a - 1) {
      LinkAfter(nodes, hs, c, t, node, i, a - 1);
    }
  }

  lemma LinksAfterInsert<K>(nodes: seq<Node<K>>, hs: seq<nat>, c: nat, t: nat, node: Node<K>, i: nat, p: nat)
    requires |nodes| == |hs| && Precedes(hs, p, c, i)
    ensures t > i ==> LinksIn(Links(nodes, hs, i), Links(InsertNode(nodes, c, node), Inserted(hs, c, t), i), c, p, node)
    ensures t <= i ==> LinksOver(Links(nodes, hs, i), Links(InsertNode(nodes, c, node), Inserted(hs, c, t), i), c, p)
  {
    LinkPredecessor(nodes, hs, c, t, node, i, p);
    LinkInserted(nodes, hs, c, t, node, i, p);
    KeepLinksBefore(nodes, hs, c, t, node, i, p);
    KeepLinksAfter(nodes, hs, c, t, node, i);
  }

  // ----- one level of an insertion or deletion -----

  ghost function SetLink<K>(row: Row<K>, i: nat, link: Link<K>): Row<K>
    requires i < |row.next| == |row.span|
  {
    Row(row.next[i := link.next], row.span[i := link.span])
  }

  /** The links of a level with a gap at `c`, where a node is not linked on it yet. */
  ghost function Gap<K>(links: seq<Option<Link<K>>>, c: nat): seq<Option<Link<K>>>
    requires c <= |links|
  {
    links[..c] + [None] + links[c..]
  }

  ghost predicate SameShape<K>(rows: seq<Row<K>>, now: seq<Row<K>>) {
    |now| == |rows| && forall a :: 0 <= a < |rows| ==> |now[a].next| == |rows[a].next| && |now[a].span| == |rows[a].span|
  }

  /** Nothing but level `i` differs. */
  ghost predicate OnlyLevel<K>(rows: seq<Row<K>>, now: seq<Row<K>>, i: nat) {
    SameShape(rows, now) && forall a, j :: 0 <= a < |rows| && 0 <= j < |rows[a].next| == |rows[a].span| && j != i ==> now[a].next[j] == rows[a].next[j] && now[a].span[j] == rows[a].span[j]
  }

  /** The levels from `n` up still lead where they led. */
  ghost predicate SameAbove<K>(rows: seq<Row<K>>, now: seq<Row<K>>, n: nat) {
    SameShape(rows, now) && forall a, j :: 0 <= a < |rows| && n <= j < |rows[a].next| ==> now[a].next[j] == rows[a].next[j]
  }

  /** Every level is linked as its table says. */
  ghost predicate AllLinked<K>(rows: seq<Row<K>>, tables: seq<seq<Option<Link<K>>>>) {
    forall j :: 0 <= j < |tables| ==> Linked(rows, tables[j], j)
  }

  lemma KeepLevel<K>(rows: seq<Row<K>>, now: seq<Row<K>>, links: seq<Option<Link<K>>>, i: nat, j: nat)
    requires OnlyLevel(rows, now, i) && j != i && Linked(rows, links, j)
    ensures Linked(now, links, j)
  {
    forall a | 0 <= a < |now| && links[a].Some? ensures RowHas(now[a], j, links[a].value) {
      assert RowHas(rows[a], j, links[a].value);
    }
  }

  /** Relinking one level replaces that level's table. */
  lemma Relink<K>(rows: seq<Row<K>>, now: seq<Row<K>>, tables: seq<seq<Option<Link<K>>>>, i: nat,
      links: seq<Option<Link<K>>>)
    requires i < |tables| && AllLinked(rows, tables) && OnlyLevel(rows, now, i) && Linked(now, links, i)
    ensures AllLinked(now, tables[i := links])
  {
    forall j | 0 <= j < |tables| && j != i ensures Linked(now, tables[j], j) {
      KeepLevel(rows, now, tables[j], i, j);
    }
  }

  lemma SetIsOnlyLevel<K>(rows: seq<Row<K>>, a: nat, i: nat, link: Link<K>)
    requires a < |rows| && i < |rows[a].next| == |rows[a].span|
    ensures OnlyLevel(rows, rows[a := SetLink(rows[a], i, link)], i)
  {
  }

  lemma OnlyLevelTwice<K>(rows: seq<Row<K>>, mid: seq<Row<K>>, now: seq<Row<K>>, i: nat)
    requires OnlyLevel(rows, mid, i) && OnlyLevel(mid, now, i)
    ensures OnlyLevel(rows, now, i)
  {
  }

  /** The two rows an insertion sets on a level it links the node on. */
  ghost function RowsIn<K>(rows: seq<Row<K>>, after: seq<Option<Link<K>>>, c: nat, p: nat, i: nat): seq<Row<K>>
    requires p < c < |rows| == |after| && after[p].Some? && after[c].Some?
    requires i < |rows[p].next| == |rows[p].span| && i < |rows[c].next| == |rows[c].span|
  {
    rows[p := SetLink(rows[p], i, after[p].value)][c := SetLink(rows[c], i, after[c].value)]
  }

  lemma LinkedIn<K>(rows: seq<Row<K>>, before: seq<Option<Link<K>>>, after: seq<Option<Link<K>>>, c: nat, p: nat,
      node: Node<K>, i: nat)
    requires LinksIn(before, after, c, p, node) && Linked(rows, Gap(before, c), i)
    requires i < |rows[c].next| == |rows[c].span|
    ensures RowHas(rows[p], i, before[p].value)
    ensures Linked(RowsIn(rows, after, c, p, i), after, i)
  {
    var gap, set_ := Gap(before, c), RowsIn(rows, after, c, p, i);
    assert gap[p] == before[p];
    forall a | 0 <= a < |set_| && after[a].Some? ensures RowHas(set_[a], i, after[a].value) {
      assert a < c ==> gap[a] == before[a];
      assert a > c ==> gap[a] == before[a - 1];
    }
  }

  lemma InIsOnlyLevel<K>(rows: seq<Row<K>>, after: seq<Option<Link<K>>>, c: nat, p: nat, i: nat)
    requires p < c < |rows| == |after| && after[p].Some? && after[c].Some?
    requires i < |rows[p].next| == |rows[p].span| && i < |rows[c].next| == |rows[c].span|
    ensures OnlyLevel(rows, RowsIn(rows, after, c, p, i), i)
  {
    var mid := rows[p := SetLink(rows[p], i, after[p].value)];
    SetIsOnlyLevel(rows, p, i, after[p].value);
    SetIsOnlyLevel(mid, c, i, after[c].value);
    OnlyLevelTwice(rows, mid, mid[c := SetLink(mid[c], i, after[c].value)], i);
  }

  lemma LinkedOver<K>(rows: seq<Row<K>>, before: seq<Option<Link<K>>>, after: seq<Option<Link<K>>>, c: nat, p: nat,
      i: nat)
    requires LinksOver(before, after, c, p) && Linked(rows, Gap(before, c), i)
    ensures RowHas(rows[p], i, before[p].value)
    ensures Linked(rows[p := SetLink(rows[p], i, after[p].value)], after, i)
  {
    var gap, set_ := Gap(before, c), rows[p := SetLink(rows[p], i, after[p].value)];
    assert gap[p] == before[p];
    forall a | 0 <= a < |set_| && after[a].Some? ensures RowHas(set_[a], i, after[a].value) {
      assert a < c ==> gap[a] == before[a];
      assert a > c ==> gap[a] == before[a - 1];
    }
  }

  /**
   * Taking the link of its predecessor `p` over the node at `c`, whether or not the node is linked here, undoes
   * the insertion.
   */
  lemma LinkedOut<K>(rows: seq<Row<K>>, before: seq<Option<Link<K>>>, after: seq<Option<Link<K>>>, c: nat, p: nat,
      i: nat)
    requires p < c <= |before| && |after| == |before| + 1 && before[p].Some? && after[p].Some? && Linked(rows, after, i)
    requires forall a :: 0 <= a < c && a != p ==> after[a] == before[a]
    requires forall a :: c < a < |after| ==> after[a] == before[a - 1]
    ensures RowHas(rows[p], i, after[p].value) && (after[c].Some? ==> RowHas(rows[c], i, after[c].value))
    ensures Linked(rows[p := SetLink(rows[p], i, before[p].value)], Gap(before, c), i)
  {
    var gap, set_ := Gap(before, c), rows[p := SetLink(rows[p], i, before[p].value)];
    forall a | 0 <= a < |set_| && gap[a].Some? ensures RowHas(set_[a], i, gap[a].value) {
      assert a < c ==> gap[a] == before[a];
      assert a > c ==> gap[a] == before[a - 1];
    }
  }

  /** Links a new node in after its predecessor on level `i`. */
  method LinkIn<K>(ghost ns: seq<Node<K>>, ghost rows: seq<Row<K>>, ghost before: seq<Option<Link<K>>>,
      ghost after: seq<Option<Link<K>>>,
                   ghost c: nat, i: nat, prev: Node<K>, node: Node<K>, last: nat, rank: nat)
    requires Distinct(ns) && RowsOf(ns, rows) && LinksIn(before, after, c, rank, node)
    requires c < |ns| == |after| && ns[c] == node && ns[rank] == prev && last == c - 1
    requires RowHas(rows[rank], i, before[rank].value) && i < |rows[c].next| == |rows[c].span|
    modifies prev`next, prev`span, node`next, node`span
    ensures RowsOf(ns, RowsIn(rows, after, c, rank, i))
  {
    OnlyAtIts(ns, rank);
    OnlyAtIts(ns, c);
    var span := prev.span[i];
    node.next := node.next[i := prev.next[i]];
    node.span := node.span[i := span - last + rank];
    prev.next := prev.next[i := node];
    prev.span := prev.span[i := last - rank + 1];
  }

  /** Lengthens the link that passes over a lower new node. */
  method LinkOver<K>(ghost ns: seq<Node<K>>, ghost rows: seq<Row<K>>, ghost before: seq<Option<Link<K>>>,
      ghost after: seq<Option<Link<K>>>,
                     ghost c: nat, i: nat, prev: Node<K>, ghost rank: nat)
    requires Distinct(ns) && RowsOf(ns, rows) && LinksOver(before, after, c, rank)
    requires rank < |ns| && ns[rank] == prev && RowHas(rows[rank], i, before[rank].value)
    modifies prev`span
    ensures RowsOf(ns, rows[rank := SetLink(rows[rank], i, after[rank].value)])
  {
    OnlyAtIts(ns, rank);
    prev.span := prev.span[i := prev.span[i] + 1];
  }

  /** Takes a node out behind its predecessor on level `i`. */
  method LinkOut<K>(ghost ns: seq<Node<K>>, ghost rows: seq<Row<K>>, ghost before: seq<Option<Link<K>>>,
      ghost after: seq<Option<Link<K>>>,
                    ghost c: nat, i: nat, prev: Node<K>, ghost p: nat, node: Node<K>)
    requires Distinct(ns) && RowsOf(ns, rows) && LinksIn(before, after, c, p, node)
    requires c < |ns| == |after| && ns[c] == node && ns[p] == prev
    requires RowHas(rows[p], i, after[p].value) && RowHas(rows[c], i, after[c].value)
    modifies prev`next, prev`span
    ensures RowsOf(ns, rows[p := SetLink(rows[p], i, before[p].value)])
  {
    OnlyAtIts(ns, p);
    prev.next := prev.next[i := node.next[i]];
    prev.span := prev.span[i := prev.span[i] + node.span[i] - 1];
  }

  /** Shortens the link that passes over a lower node. */
  method LinkUnder<K>(ghost ns: seq<Node<K>>, ghost rows: seq<Row<K>>, ghost before: seq<Option<Link<K>>>,
      ghost after: seq<Option<Link<K>>>,
                      ghost c: nat, i: nat, prev: Node<K>, ghost p: nat)
    requires Distinct(ns) && RowsOf(ns, rows) && LinksOver(before, after, c, p)
    requires p < |ns| && ns[p] == prev && RowHas(rows[p], i, after[p].value)
    modifies prev`span
    ensures RowsOf(ns, rows[p := SetLink(rows[p], i, before[p].value)])
  {
    OnlyAtIts(ns, p);
    prev.span := prev.span[i := prev.span[i] - 1];
  }

  // ----- all levels -----

  /** Level by level, the links before and after a node of height `t` is put in at `c` behind the nodes at `ranks`. */
  ghost predicate Plan<K>(befores: seq<seq<Option<Link<K>>>>, afters: seq<seq<Option<Link<K>>>>, c: nat, t: nat,
      ranks: seq<nat>, node: Node<K>) {
    && |befores| == |afters| == |ranks|
    && (forall i :: 0 <= i < |ranks| && i < t ==> LinksIn(befores[i], afters[i], c, ranks[i], node))
    && (forall i :: 0 <= i < |ranks| && i >= t ==> LinksOver(befores[i], afters[i], c, ranks[i]))
  }

  /** The nodes before position `c` that the plan relinks. */
  ghost predicate Behind<K>(ns: seq<Node<K>>, c: nat, prev: seq<Node<K>>, ranks: seq<nat>) {
    c < |ns| && |prev| == |ranks| && forall i :: 0 <= i < |prev| ==> ranks[i] < c && ns[ranks[i]] == prev[i]
  }

  lemma StillAbove<K>(rows: seq<Row<K>>, was: seq<Row<K>>, now: seq<Row<K>>, n: nat, i: nat)
    requires SameAbove(rows, was, n) && OnlyLevel(was, now, i) && i < n
    requires forall a :: 0 <= a < |rows| ==> |rows[a].next| == |rows[a].span|
    ensures SameAbove(rows, now, n)
  {
    forall a, j | 0 <= a < |rows| && n <= j < |rows[a].next| ensures now[a].next[j] == rows[a].next[j] {
      assert |was[a].next| == |rows[a].next| && |was[a].span| == |rows[a].span|;
    }
  }

  method LinkLevel<K>(ghost ns: seq<Node<K>>, ghost rows: seq<Row<K>>, ghost tables: seq<seq<Option<Link<K>>>>,
                      ghost before: seq<Option<Link<K>>>, ghost after: seq<Option<Link<K>>>,
                      ghost c: nat, i: nat, linked: bool, prev: Node<K>, node: Node<K>, last: nat, rank: nat)
                          returns (ghost now: seq<Row<K>>)
    requires Distinct(ns) && RowsOf(ns, rows) && AllLinked(rows, tables) && i < |tables| && rank < c < |ns| == |after|
    requires if linked then LinksIn(before, after, c, rank, node) else LinksOver(before, after, c, rank)
    requires tables[i] == Gap(before, c) && ns[c] == node && ns[rank] == prev && last == c - 1
    requires i < |rows[c].next| == |rows[c].span|
    modifies prev`next, prev`span, node`next, node`span
    ensures RowsOf(ns, now) && OnlyLevel(rows, now, i) && AllLinked(now, tables[i := after])
  {
    if linked {
      LinkedIn(rows, before, after, c, rank, node, i);
      InIsOnlyLevel(rows, after, c, rank, i);
      now := RowsIn(rows, after, c, rank, i);
      LinkIn(ns, rows, before, after, c, i, prev, node, last, rank);
    } else {
      LinkedOver(rows, before, after, c, rank, i);
      SetIsOnlyLevel(rows, rank, i, after[rank].value);
      now := rows[rank := SetLink(rows[rank], i, after[rank].value)];
      LinkOver(ns, rows, before, after, c, i, prev, rank);
    }
    Relink(rows, now, tables, i, after);
  }

  /** Everything the relinking loops rely on: where the nodes are, the plan, and its levels with a gap at `c`. */
  ghost predicate Ready<K>(ns: seq<Node<K>>, rows: seq<Row<K>>, gaps: seq<seq<Option<Link<K>>>>,
      befores: seq<seq<Option<Link<K>>>>,
                           afters: seq<seq<Option<Link<K>>>>, c: nat, t: nat, prev: seq<Node<K>>, ranks: seq<nat>,
                             node: Node<K>) {
    && Distinct(ns) && Behind(ns, c, prev, ranks) && Plan(befores, afters, c, t, ranks, node) && ns[c] == node
    && |gaps| == |befores| && (forall i :: 0 <= i < |gaps| ==> gaps[i] == Gap(befores[i], c))
    && |rows| == |ns| && (forall a :: 0 <= a < |rows| ==> |rows[a].next| == |rows[a].span|)
    && (forall i :: 0 <= i < |afters| ==> |afters[i]| == |ns|)
  }

  /** Below level `i` the new tables, from it on the old ones. */
  ghost predicate Staged<T>(tables: seq<T>, low: seq<T>, high: seq<T>, i: nat) {
    |tables| == |low| == |high| && forall j :: 0 <= j < |tables| ==> tables[j] == if j < i then low[j] else high[j]
  }

  /** The relinking loop of an insertion. */
  method LinkAll<K>(ghost ns: seq<Node<K>>, ghost rows: seq<Row<K>>, ghost gaps: seq<seq<Option<Link<K>>>>,
      ghost befores: seq<seq<Option<Link<K>>>>,
                    ghost afters: seq<seq<Option<Link<K>>>>, ghost all: set<Node<K>>, ghost c: nat, t: nat,
                        prev: seq<Node<K>>, ranks: seq<nat>, node: Node<K>)
    returns (ghost now: seq<Row<K>>)
    requires RowsOf(ns, rows) && Ready(ns, rows, gaps, befores, afters, c, t, prev, ranks, node)
      && AllLinked(rows, gaps)
    requires |prev| > 0 && ranks[0] == c - 1 && |rows[c].next| == |prev| && forall a :: 0 <= a < |ns| ==> ns[a] in all
    modifies all`next, all`span
    ensures RowsOf(ns, now) && SameAbove(rows, now, |prev|) && AllLinked(now, afters)
  {
    now := rows;
    ghost var tables := gaps;
    for i := 0 to |prev|
      invariant RowsOf(ns, now) && SameAbove(rows, now, |prev|) && AllLinked(now, tables)
      invariant Staged(tables, afters, gaps, i)
    {
      ghost var was := now;
      now := LinkLevel(ns, now, tables, befores[i], afters[i], c, i, i < t, prev[i], node, ranks[0], ranks[i]);
      StillAbove(rows, was, now, |prev|, i);
      tables := tables[i := afters[i]];
    }
    assert tables == afters;
  }

  method UnlinkLevel<K>(ghost ns: seq<Node<K>>, ghost rows: seq<Row<K>>, ghost tables: seq<seq<Option<Link<K>>>>,
                        ghost before: seq<Option<Link<K>>>, ghost after: seq<Option<Link<K>>>,
                        ghost c: nat, i: nat, linked: bool, prev: Node<K>, ghost p: nat, node: Node<K>)
                            returns (ghost now: seq<Row<K>>)
    requires Distinct(ns) && RowsOf(ns, rows) && AllLinked(rows, tables) && i < |tables| && p < c < |ns| == |after|
    requires if linked then LinksIn(before, after, c, p, node) else LinksOver(before, after, c, p)
    requires tables[i] == after && (linked ==> ns[c] == node) && ns[p] == prev
    modifies prev`next, prev`span
    ensures RowsOf(ns, now) && OnlyLevel(rows, now, i) && AllLinked(now, tables[i := Gap(before, c)])
  {
    LinkedOut(rows, before, after, c, p, i);
    SetIsOnlyLevel(rows, p, i, before[p].value);
    now := rows[p := SetLink(rows[p], i, before[p].value)];
    if linked {
      LinkOut(ns, rows, before, after, c, i, prev, p, node);
    } else {
      LinkUnder(ns, rows, before, after, c, i, prev, p);
    }
    Relink(rows, now, tables, i, Gap(before, c));
  }

  function Same<K>(less: (K, K) -> bool, x: K, y: K): bool {
    !less(x, y) && !less(y, x)
  }

  /** The unlinking loop of a deletion: a level is unlinked where the next key is the deleted one. */
  method UnlinkAll<K>(ghost ns: seq<Node<K>>, ghost rows: seq<Row<K>>, ghost gaps: seq<seq<Option<Link<K>>>>,
      ghost befores: seq<seq<Option<Link<K>>>>,
                      ghost afters: seq<seq<Option<Link<K>>>>, ghost all: set<Node<K>>, ghost c: nat, ghost t: nat,
                          prev: seq<Node<K>>, ghost ranks: seq<nat>,
                      ghost node: Node<K>, less: (K, K) -> bool, key: K)
    returns (ghost now: seq<Row<K>>)
    requires RowsOf(ns, rows) && Ready(ns, rows, gaps, befores, afters, c, t, prev, ranks, node)
      && AllLinked(rows, afters)
    requires Same(less, node.key, key) && forall a :: 0 <= a < |ns| ==> ns[a] in all
    requires forall i :: t <= i < |prev| ==> var next := befores[i][ranks[i]].value.next; next == null || !Same(less,
      next.key, key)
    modifies all`next, all`span
    ensures RowsOf(ns, now) && SameAbove(rows, now, |prev|) && AllLinked(now, gaps)
  {
    now := rows;
    ghost var tables := afters;
    for i := |prev| downto 0
      invariant RowsOf(ns, now) && SameAbove(rows, now, |prev|) && AllLinked(now, tables)
      invariant Staged(tables, afters, gaps, i)
    {
      ghost var was := now;
      assert tables[i] == afters[i] && Linked(now, afters[i], i);
      assert RowHas(now[ranks[i]], i, afters[i][ranks[i]].value);
      var next := prev[i].next[i];
      if next != null && Same(less, next.key, key) {
        now := UnlinkLevel(ns, now, tables, befores[i], afters[i], c, i, true, prev[i], ranks[i], next);
      } else {
        now := UnlinkLevel(ns, now, tables, befores[i], afters[i], c, i, false, prev[i], ranks[i], prev[i]);
      }
      StillAbove(rows, was, now, |prev|, i);
      tables := tables[i := gaps[i]];
    }
    assert tables == gaps;
  }
}
