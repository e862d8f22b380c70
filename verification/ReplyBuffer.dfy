/** The reply buffer of memory/reply_buffer.cpp: a fixed buffer, and a list of nodes for what does not fit. */
module ReplyBuffer {
  import opened Bytes
  import opened Memory

  const BUFFER_SIZE: nat := 4096
  const NODE_SIZE: nat := 1024

  /** A node of memory/buf_node.h; one made of a moved-in string cannot be written to. */
  datatype Node = Node(data: bytes, capacity: nat, writable: bool)

  predicate NodeOk(n: Node) {
    n.data != [] && (n.writable ==> |n.data| <= n.capacity)
  }

  ghost predicate NodesOk(nodes: seq<Node>) {
    forall i :: 0 <= i < |nodes| ==> NodeOk(nodes[i])
  }

  /** The bytes of the nodes, in order. */
  function Content(nodes: seq<Node>): bytes {
    if nodes == [] then [] else nodes[0].data + Content(nodes[1..])
  }

  lemma {:induction false} ContentConcat(a: seq<Node>, b: seq<Node>)
    ensures Content(a + b) == Content(a) + Content(b)
  {
    if a == [] {
      assert a + b == b;
    } else {
      assert (a + b)[1..] == a[1..] + b;
      ContentConcat(a[1..], b);
    }
  }

  lemma ContentSnoc(nodes: seq<Node>, n: Node)
    ensures Content(nodes + [n]) == Content(nodes) + n.data
  {
    ContentConcat(nodes, [n]);
    assert [n][1..] == [];
  }

  lemma ContentLast(nodes: seq<Node>)
    requires nodes != []
    ensures Content(nodes) == Content(nodes[..|nodes| - 1]) + nodes[|nodes| - 1].data
  {
    var front, n := nodes[..|nodes| - 1], nodes[|nodes| - 1];
    assert nodes == front + [n];
    ContentSnoc(front, n);
  }

  /** What has not been sent: `sent` counts in the buffer while it holds anything, else in the first node. */
  function Unsent(buf: bytes, nodes: seq<Node>, sent: nat): bytes
    requires sent <= |buf| + |Content(nodes)|
  {
    (buf + Content(nodes))[sent..]
  }

  /** Where `sent` may stand. */
  predicate SentOk(size: nat, nodes: seq<Node>, sent: nat) {
    if size > 0 then sent < size
    else if nodes != [] then sent < |nodes[0].data|
    else sent == 0
  }

  lemma SentFits(buf: bytes, nodes: seq<Node>, sent: nat)
    requires SentOk(|buf|, nodes, sent)
    ensures sent <= |buf| + |Content(nodes)|
    ensures |buf| > 0 ==> Unsent(buf, nodes, sent) == buf[sent..] + Content(nodes)
    ensures buf == [] && nodes != [] ==> Unsent(buf, nodes, sent) == nodes[0].data[sent..] + Content(nodes[1..])
  {
  }

  /** Bytes put at the end of the last node, as far as it has room, and the rest in a new node. */
  function Extended(nodes: seq<Node>, s: bytes): seq<Node> {
    if nodes == [] then [NewNode(s)]
    else
      var front, n := nodes[..|nodes| - 1], nodes[|nodes| - 1];
      var k := Room(n, |s|);
      front + [n.(data := n.data + s[..k])] + (if k < |s| then [NewNode(s[k..])] else [])
  }

  /** How many of `len` bytes a node takes. */
  function Room(n: Node, len: nat): (k: nat)
    ensures k <= len
  {
    if !n.writable || n.capacity < |n.data| then 0 else Min(len, n.capacity - |n.data|)
  }

  /** How many more bytes the last node takes. */
  function LastRoom(nodes: seq<Node>): nat {
    if nodes == [] || !nodes[|nodes| - 1].writable then 0
    else Max(0, nodes[|nodes| - 1].capacity - |nodes[|nodes| - 1].data|)
  }

  function NewNode(s: bytes): Node {
    Node(s, Max(|s|, NODE_SIZE), true)
  }

  lemma ExtendedContent(nodes: seq<Node>, s: bytes)
    requires s != []
    ensures Content(Extended(nodes, s)) == Content(nodes) + s
  {
    if nodes == [] {
      ContentSnoc([], NewNode(s));
      assert [] + [NewNode(s)] == [NewNode(s)];
    } else {
      var front, n := nodes[..|nodes| - 1], nodes[|nodes| - 1];
      var k := Room(n, |s|);
      ContentLast(nodes);
      TailContent(front, n, s, k);
    }
  }

  lemma TailContent(front: seq<Node>, n: Node, s: bytes, k: nat)
    requires k <= |s|
    ensures Content(front + [n.(data := n.data + s[..k])] + (if k < |s| then [NewNode(s[k..])] else []))
      == Content(front) + n.data + s
  {
    var m := n.(data := n.data + s[..k]);
    var more := if k < |s| then [NewNode(s[k..])] else [];
    ContentSnoc(front, m);
    ContentConcat(front + [m], more);
    if k < |s| {
      ContentSnoc([], NewNode(s[k..]));
      assert [] + more == more;
    }
    Rejoin(Content(front), n.data, s, k);
    assert Content(more) == s[k..];
  }

  lemma Rejoin(a: bytes, b: bytes, s: bytes, k: nat)
    requires k <= |s|
    ensures a + (b + s[..k]) + s[k..] == a + b + s
  {
    assert s[..k] + s[k..] == s;
    assert a + (b + s[..k]) + s[k..] == a + b + (s[..k] + s[k..]);
  }

  lemma ExtendedOk(nodes: seq<Node>, s: bytes)
    requires NodesOk(nodes) && s != []
    ensures NodesOk(Extended(nodes, s))
  {
    if nodes != [] {
      var n := nodes[|nodes| - 1];
      assert NodeOk(n);
      var k := Room(n, |s|);
      assert NodeOk(n.(data := n.data + s[..k]));
    }
  }

  lemma ExtendedHead(nodes: seq<Node>, s: bytes)
    requires nodes != []
    ensures Extended(nodes, s) != [] && |nodes[0].data| <= |Extended(nodes, s)[0].data|
  {
  }

  class ReplyBuffer {
    var buf: array<byte>
    var size: nat
    var sent: nat
    var nodes: seq<Node>
    var pendingBytes: nat

    ghost predicate Valid()
      reads this, buf
    {
      && buf.Length == BUFFER_SIZE && size <= BUFFER_SIZE && NodesOk(nodes) && SentOk(size, nodes, sent)
      && sent <= size + |Content(nodes)| && pendingBytes == |Unsent(buf[..size], nodes, sent)|
    }

    /** The bytes still to be sent, in order. */
    ghost function Pending(): bytes
      requires Valid()
      reads this, buf
    {
      Unsent(buf[..size], nodes, sent)
    }

    constructor ()
      ensures Valid() && Pending() == [] && fresh(buf)
    {
      buf := new byte[BUFFER_SIZE](i => 0);
      size, sent, nodes, pendingBytes := 0, 0, [], 0;
    }

    // ----- appending -----

    /** Copies what fits into the buffer; nothing while there are nodes, which hold later bytes. */
    method AppendToBuffer(s: bytes) returns (n: nat)
      requires Valid()
      modifies this`size, buf
      ensures n == (if nodes == [] then Min(|s|, BUFFER_SIZE - old(size)) else 0) && size == old(size) + n
      ensures buf[..size] == old(buf[..size]) + s[..n]
    {
      if nodes != [] {
        return 0;
      }
      n := Min(|s|, BUFFER_SIZE - size);
      ghost var was := buf[..];
      Put(buf, size, s[..n]);
      FrontOfOver(was, size, s[..n]);
      size := size + n;
    }

    /** Fills the last node, and puts the rest in a new one. */
    method AppendToList(s: bytes)
      requires NodesOk(nodes) && s != []
      modifies `nodes
      ensures NodesOk(nodes) && nodes != [] && Content(nodes) == old(Content(nodes)) + s
      ensures old(nodes) != [] ==> |old(nodes)[0].data| <= |nodes[0].data|
      ensures |nodes| == |old(nodes)| + if |s| <= LastRoom(old(nodes)) then 0 else 1
    {
      ExtendedContent(nodes, s);
      ExtendedOk(nodes, s);
      if nodes != [] {
        ExtendedHead(nodes, s);
      }
      nodes := Extended(nodes, s);
    }

    /** Appends bytes; all of them are taken. */
    method Append(s: bytes) returns (n: nat)
      requires Valid()
      modifies this, buf
      ensures Valid() && buf == old(buf) && n == |s| && Pending() == old(Pending()) + s
      ensures size == if old(nodes) == [] then Min(4096, old(size) + |s|) else old(size)
      ensures |nodes| == |old(nodes)| + if old(size) + |s| - size <= LastRoom(old(nodes)) then 0 else 1
    {
      if s == [] {
        return 0;
      }
      SentFits(buf[..size], nodes, sent);
      ghost var front, was := buf[..size], nodes;
      n := AppendToBuffer(s);
      if n < |s| {
        AppendToList(s[n..]);
      }
      AppendedUnsent(front, was, sent, s, n, buf[..size], nodes);
      pendingBytes := pendingBytes + |s|;
      n := |s|;
    }

    /** Appends a string by taking it over, unless the buffer has room for all of it. */
    method AppendString(reply: bytes, capacity: nat) returns (n: nat)
      requires Valid()
      modifies this, buf
      ensures Valid() && buf == old(buf) && n == |reply| && Pending() == old(Pending()) + reply
      ensures if reply == [] || (old(nodes) == [] && old(size) + |reply| <= 4096)
        then nodes == old(nodes) && size == old(size) + |reply|
        else size == old(size) && nodes == old(nodes) + [Node(reply, capacity, false)]
    {
      n := |reply|;
      if n == 0 {
        return;
      }
      SentFits(buf[..size], nodes, sent);
      ghost var front, was := buf[..size], nodes;
      if nodes == [] && n <= BUFFER_SIZE - size {
        var k := AppendToBuffer(reply);
        AppendedUnsent(front, was, sent, reply, k, buf[..size], nodes);
      } else {
        nodes := nodes + [Node(reply, capacity, false)];
        ContentSnoc(was, Node(reply, capacity, false));
        AppendedUnsent(front, was, sent, reply, 0, buf[..size], nodes);
      }
      pendingBytes := pendingBytes + n;
    }

    // ----- sending -----

    /** The blocks to be sent: together, the pending bytes. */
    method FillBlocks() returns (blocks: seq<bytes>)
      requires Valid()
      ensures Flatten(blocks) == Pending() && forall i :: 0 <= i < |blocks| ==> blocks[i] != []
    {
      SentFits(buf[..size], nodes, sent);
      blocks := [];
      if size > 0 {
        blocks := [buf[sent..size]];
        assert buf[..size][sent..] == buf[sent..size];
        FlattenOne(buf[sent..size]);
      }
      var offset := if size > 0 then 0 else sent;
      var rest := NodeBlocks(offset);
      FlattenConcat(blocks, rest);
      blocks := blocks + rest;
    }

    method NodeBlocks(offset: nat) returns (blocks: seq<bytes>)
      requires NodesOk(nodes) && (if nodes == [] then offset == 0 else offset < |nodes[0].data|)
      ensures offset <= |Content(nodes)| && Flatten(blocks) == Content(nodes)[offset..]
      ensures forall i :: 0 <= i < |blocks| ==> blocks[i] != []
    {
      blocks := [];
      var from := offset;
      for i := 0 to |nodes|
        invariant i > 0 ==> from == 0
        invariant i == 0 ==> from == offset && blocks == []
        invariant forall k :: 0 <= k < |blocks| ==> blocks[k] != []
        invariant offset <= |Content(nodes[..i])| || i == 0
        invariant i > 0 ==> Flatten(blocks) == Content(nodes[..i])[offset..]
      {
        var block := nodes[i].data[from..];
        assert nodes[..i + 1] == nodes[..i] + [nodes[i]];
        ContentSnoc(nodes[..i], nodes[i]);
        FlattenAppend(blocks, block);
        assert NodeOk(nodes[i]);
        assert i == 0 ==> nodes[..i] == [];
        blocks, from := blocks + [block], 0;
      }
      assert nodes[..|nodes|] == nodes;
    }

    /** Takes off what has been sent. */
    method Consume(n: nat)
      requires Valid()
      modifies this
      ensures Valid() && buf == old(buf) && Pending() == old(Pending())[Min(n, |old(Pending())|)..]
    {
      pendingBytes := pendingBytes - Min(n, pendingBytes);
      ghost var left := TakeOff(n, Unsent(buf[..size], nodes, sent));
    }

    /** From the buffer first, then from the nodes. */
    method TakeOff(n: nat, ghost was: bytes) returns (ghost left: bytes)
      requires Holds(was)
      modifies `size, `sent, `nodes
      ensures size <= old(size) && Holds(left) && left == was[Min(n, |was|)..]
    {
      var processed;
      processed, left := ConsumeBuffer(n, was);
      DropTwice(was, processed, n - processed);
      if processed < n {
        left := ConsumeRest(n - processed, left);
      }
    }

    /** The state without the count of pending bytes: what is left to send is `left`. */
    ghost predicate Holds(left: bytes)
      reads this, buf
    {
      && size <= buf.Length && NodesOk(nodes) && SentOk(size, nodes, sent)
      && sent <= size + |Content(nodes)| && left == Unsent(buf[..size], nodes, sent)
    }

    method ConsumeBuffer(n: nat, ghost was: bytes) returns (processed: nat, ghost left: bytes)
      requires Holds(was)
      modifies `size, `sent
      ensures size <= old(size) && Holds(left) && processed <= n && processed <= |was| && left == was[processed..]
        && (processed < n ==> size == 0)
    {
      SentFits(buf[..size], nodes, sent);
      if size == 0 {
        return 0, was;
      }
      processed := Min(n, size - sent);
      left := was[processed..];
      sent := sent + processed;
      if sent >= size {
        size, sent := 0, 0;
        NodesStart(nodes);
      }
    }

    method ConsumeRest(n: nat, ghost was: bytes) returns (ghost left: bytes)
      requires size == 0 && Holds(was)
      modifies `nodes, `sent
      ensures Holds(left) && left == was[Min(n, |was|)..]
    {
      EmptyBuffer(buf[..size], nodes, sent);
      ConsumeList(n);
      EmptyBuffer(buf[..size], nodes, sent);
      left := Content(nodes)[sent..];
    }

    method ConsumeList(n: nat)
      requires size == 0 && NodesOk(nodes) && SentOk(0, nodes, sent) && sent <= |Content(nodes)|
      modifies `nodes, `sent
      ensures NodesOk(nodes) && SentOk(0, nodes, sent) && sent <= |Content(nodes)|
      ensures Content(nodes)[sent..] == old(Content(nodes)[sent..])[Min(n, |old(Content(nodes)[sent..])|)..]
    {
      var left := n;
      ghost var all := Content(nodes)[sent..];
      while left > 0 && nodes != []
        invariant 0 <= left <= n && NodesOk(nodes) && SentOk(0, nodes, sent) && sent <= |Content(nodes)|
        invariant n - left <= |all| && Content(nodes)[sent..] == all[n - left..]
        decreases |nodes|
      {
        var remaining := |nodes[0].data| - sent;
        if left < remaining {
          sent := sent + left;
          left := 0;
          break;
        }
        sent, left := 0, left - remaining;
        nodes := nodes[1..];
        NodesStart(nodes);
      }
    }
  }

  lemma FrontOfOver(b: bytes, at: nat, s: bytes)
    requires at + |s| <= |b|
    ensures Over(b, at, s)[..at + |s|] == b[..at] + s
  {
  }

  lemma NodesStart(nodes: seq<Node>)
    requires NodesOk(nodes)
    ensures SentOk(0, nodes, 0)
  {
    if nodes != [] {
      assert NodeOk(nodes[0]);
    }
  }

  /** Bytes appended to the buffer and then to the nodes come after all others. */
  lemma AppendedUnsent(buf: bytes, nodes: seq<Node>, sent: nat, s: bytes, n: nat, buf': bytes, nodes': seq<Node>)
    requires sent <= |buf| + |Content(nodes)| && n <= |s| && buf' == buf + s[..n] && (n > 0 ==> nodes == [])
    requires Content(nodes') == Content(nodes) + s[n..]
    ensures sent <= |buf'| + |Content(nodes')| && Unsent(buf', nodes', sent) == Unsent(buf, nodes, sent) + s
  {
    Spread(buf, Content(nodes), s, n);
    DropBefore(buf + Content(nodes), s, sent);
  }

  lemma Spread(buf: bytes, c: bytes, s: bytes, n: nat)
    requires n <= |s| && (n > 0 ==> c == [])
    ensures (buf + s[..n]) + (c + s[n..]) == (buf + c) + s
  {
    if n == 0 {
      assert s[..n] == [] && s[n..] == s;
    } else {
      assert s[..n] + s[n..] == s;
    }
  }

  lemma DropBefore(a: bytes, s: bytes, n: nat)
    requires n <= |a|
    ensures (a + s)[n..] == a[n..] + s
  {
  }

  lemma DropTwice(all: bytes, p: nat, q: nat)
    requires p <= |all|
    ensures all[p..][Min(q, |all| - p)..] == all[Min(p + q, |all|)..]
  {
  }

  lemma EmptyBuffer(buf: bytes, nodes: seq<Node>, sent: nat)
    requires buf == [] && sent <= |Content(nodes)|
    ensures Unsent(buf, nodes, sent) == Content(nodes)[sent..]
  {
    assert buf + Content(nodes) == Content(nodes);
  }

  // ----- a whole exchange -----

  /** Replies come in, and the socket takes some of what it is offered. */
  datatype Op = Reply(s: bytes) | ReplyString(s: bytes, capacity: nat) | Send(n: nat)

  function Replies(ops: seq<Op>): bytes {
    if ops == [] then []
    else (if ops[0].Send? then [] else ops[0].s) + Replies(ops[1..])
  }

  method Do(b: ReplyBuffer, op: Op) returns (out: bytes)
    requires b.Valid()
    modifies b, b.buf
    ensures b.Valid() && b.buf == old(b.buf) && out + b.Pending() == old(b.Pending()) + if op.Send? then [] else op.s
  {
    out := [];
    match op
    case Reply(s) =>
      var n := b.Append(s);
    case ReplyString(s, capacity) =>
      var n := b.AppendString(s, capacity);
    case Send(n) =>
      var blocks := b.FillBlocks();
      var offered := Flatten(blocks);
      var taken := Min(n, |offered|);
      out := offered[..taken];
      assert offered == offered[..taken] + offered[taken..];
      b.Consume(taken);
  }

  /** First in, first out: whatever the interleaving, what was sent and what is pending are the replies in order. */
  method Exchange(b: ReplyBuffer, ops: seq<Op>) returns (out: bytes)
    requires b.Valid()
    modifies b, b.buf
    ensures b.Valid() && out + b.Pending() == old(b.Pending()) + Replies(ops)
  {
    out := [];
    ghost var goal := b.Pending() + Replies(ops);
    for i := 0 to |ops|
      invariant b.Valid() && b.buf == old(b.buf) && out + b.Pending() + Replies(ops[i..]) == goal
    {
      ghost var before := b.Pending();
      assert ops[i..][1..] == ops[i + 1..];
      var more := Do(b, ops[i]);
      Onward(out, before, more, b.Pending(), if ops[i].Send? then [] else ops[i].s, Replies(ops[i + 1..]));
      out := out + more;
    }
  }

  lemma Onward(out: bytes, before: bytes, more: bytes, after: bytes, s: bytes, rest: bytes)
    requires more + after == before + s
    ensures (out + more) + after + rest == out + before + (s + rest)
  {
    assert (out + more) + after + rest == out + (more + after) + rest;
    assert out + (before + s) + rest == out + before + (s + rest);
  }
}
