/** The listpack of memory/listpack.cpp: a list of strings kept in one byte array. */
module ListPack {
  import opened Bytes
  import opened Decimal
  import opened ListPackCodec
  import opened ListPackLayout
  import opened Memory

  // ----- the entry function, as the layout sees it -----

  ghost predicate SameEntry(entry: Item -> bytes, s: Item) {
    entry(s) == Entry(s)
  }

  ghost predicate Standard(entry: Item -> bytes) {
    forall s: Item :: SameEntry(entry, s)
  }

  /** Reading forward over an entry gives its size and its element. */
  lemma FrontEntry(entry: Item -> bytes, s: Item, rest: bytes, r: bytes)
    requires Standard(entry) && r == entry(s) + rest
    ensures r != [] && r[0] != EOF && |r| >= Width(EncodingOf(r[0])) && |r| >= Backlen(r)
    ensures Backlen(r) + BacklenBytes(Backlen(r)) == |entry(s)| && Decode(r) == s
  {
    assert SameEntry(entry, s);
    var back := EncodeBacklen(|Encode(s)|);
    Regroup(Encode(s), back, rest);
    CodecLossless(s, back + rest);
    BacklenSize(|Encode(s)|);
  }

  lemma Regroup(a: bytes, b: bytes, c: bytes)
    ensures (a + b) + c == a + (b + c)
  {
  }

  lemma BacklenSize(n: nat)
    ensures |EncodeBacklen(n)| == BacklenBytes(n)
  {
  }

  lemma FirstLow(n: nat)
    ensures EncodeBacklen(n)[0] < 128
  {
  }

  /** Reading backward from the end of an entry gives its size. */
  lemma BackEntry(entry: Item -> bytes, s: Item, p: bytes, q: bytes)
    requires Standard(entry) && q == p + entry(s)
    ensures DecodeBacklen(q, 0) + BacklenBytes(DecodeBacklen(q, 0)) == |entry(s)|
    ensures exists j :: |p| <= j < |q| && q[j] < 128
  {
    assert SameEntry(entry, s);
    EncodeSize(s);
    var n := |Encode(s)|;
    var front := p + Encode(s);
    Regroup(p, Encode(s), EncodeBacklen(n));
    BacklenSize(n);
    BacklenReads(front, n);
    FirstLow(n);
    assert q[|front|] == EncodeBacklen(n)[0];
  }

  // ----- the image -----

  ghost predicate Image(b: bytes, entry: Item -> bytes, items: seq<Item>, count: nat) {
    && |b| == HEADER + |Core(entry, items)| && |b| <= MAX_BYTES && count <= COUNT_UNKNOWN
    && b[..4] == ToBytes(4, |b|) && b[4..HEADER] == ToBytes(2, count) && b[HEADER..] == Core(entry, items)
  }

  /** The stored count is exact, or says that it is unknown. */
  ghost predicate CountOk(n: nat, count: nat) {
    count == COUNT_UNKNOWN || count == n
  }

  lemma HeaderReads(b: bytes, entry: Item -> bytes, items: seq<Item>, count: nat)
    requires Image(b, entry, items, count)
    ensures FromBytes(b[..4]) == |b| && FromBytes(b[4..HEADER]) == count
  {
    Powers();
    FromToBytes(4, |b|);
    FromToBytes(2, count);
  }

  /** The bytes before and after an item's position. */
  lemma Around(b: bytes, entry: Item -> bytes, items: seq<Item>, count: nat, i: nat, idx: nat)
    requires Standard(entry) && Image(b, entry, items, count) && i <= |items| && idx == HEADER + Offset(entry, items, i)
    ensures idx < |b| && b[idx..] == Core(entry, items[i..]) && b[..idx] == b[..HEADER] + Body(entry, items[..i])
    ensures idx == |b| - 1 <==> i == |items|
  {
    CoreFrom(entry, items, i);
    var core := Core(entry, items);
    assert b == b[..HEADER] + core;
    if i < |items| {
      EntryAt(entry, items, i);
      assert SameEntry(entry, items[i]);
    }
    assert Core(entry, items[i..]) == Body(entry, items[i..]) + [EOF];
  }

  /** Reads a length backwards from its last byte, up to the byte without the high bit. */
  method ReadBacklen(lp: array<byte>, last: nat) returns (backlen: nat)
    requires last < lp.Length && exists j :: 0 <= j <= last && lp[j] < 128
    ensures backlen == DecodeBacklen(lp[..last + 1], 0)
  {
    backlen := 0;
    var idx := last;
    while true
      invariant 0 <= idx <= last && exists j :: 0 <= j <= idx && lp[j] < 128
      invariant DecodeBacklen(lp[..idx + 1], backlen) == DecodeBacklen(lp[..last + 1], 0)
      decreases idx
    {
      var b := lp[idx];
      assert lp[..idx + 1][..idx] == lp[..idx];
      backlen := backlen * 128 + b % 128;
      if b < 128 {
        break;
      }
      idx := idx - 1;
    }
  }

  // ----- rewriting bytes -----

  /** Makes room for `size` bytes in place of `replaced` ones: grows before moving the rest, shrinks after. */
  method Resize(a: array<byte>, ghost was: bytes, idx: nat, replaced: nat, size: nat) returns (b: array<byte>)
    requires idx + replaced <= a.Length && was == a[..]
    modifies a
    ensures (b == a || fresh(b)) && b.Length == |was| - replaced + size
    ensures b[..][..idx] == was[..idx] && b[..][idx + size..] == was[idx + replaced..]
  {
    var total := a.Length;
    var newTotal := total - replaced + size;
    b := a;
    if newTotal > total {
      b := Realloc(a, newTotal);
    }
    Memmove(b, idx + size, idx + replaced, total - idx - replaced);
    if newTotal < total {
      b := Realloc(b, newTotal);
    }
    ghost var now := b[..];
    Halves(was, now, idx, replaced, size);
  }

  lemma Halves(was: bytes, now: bytes, idx: nat, replaced: nat, size: nat)
    requires idx + replaced <= |was| && |now| == |was| - replaced + size
    requires forall k :: 0 <= k < idx ==> now[k] == was[k]
    requires forall k :: idx + size <= k < |now| ==> now[k] == was[k - size + replaced]
    ensures now[..idx] == was[..idx] && now[idx + size..] == was[idx + replaced..]
  {
  }

  /** What is written over the header and the gap, in order. */
  function Filled(r: bytes, idx: nat, mid: bytes, size: bytes, number: bytes): bytes
    requires |size| == 4 && |number| == 2 && HEADER <= idx && idx + |mid| <= |r|
  {
    Over(Over(Over(r, 0, size), 4, number), idx, mid)
  }

  method Fill(c: array<byte>, idx: nat, mid: bytes, size: bytes, number: bytes)
    requires |size| == 4 && |number| == 2 && HEADER <= idx && idx + |mid| <= c.Length
    modifies c
    ensures c[..] == Filled(old(c[..]), idx, mid, size, number)
  {
    Put(c, 0, size);
    Put(c, 4, number);
    Put(c, idx, mid);
  }

  /** A new header, then the old bytes with those from `idx` to `end` replaced. */
  ghost predicate Rewritten(b: bytes, now: bytes, idx: nat, end: nat, mid: bytes, newCount: nat) {
    && HEADER <= idx <= end <= |b| && |now| == |b| - (end - idx) + |mid|
    && now[..4] == ToBytes(4, |now|) && now[4..HEADER] == ToBytes(2, newCount)
    && now[HEADER..] == b[HEADER..idx] + mid + b[end..]
  }

  lemma FilledHeader(r: bytes, idx: nat, mid: bytes, size: bytes, number: bytes)
    requires |size| == 4 && |number| == 2 && HEADER <= idx && idx + |mid| <= |r|
    ensures var now := Filled(r, idx, mid, size, number); now[..4] == size && now[4..HEADER] == number
  {
    var one := Over(r, 0, size);
    var two := Over(one, 4, number);
    assert two[..4] == one[..4] == size && two[4..HEADER] == number;
  }

  lemma FilledRest(r: bytes, idx: nat, mid: bytes, size: bytes, number: bytes)
    requires |size| == 4 && |number| == 2 && HEADER <= idx && idx + |mid| <= |r|
    ensures Filled(r, idx, mid, size, number)[HEADER..] == r[HEADER..idx] + mid + r[idx + |mid|..]
  {
    var one := Over(r, 0, size);
    var two := Over(one, 4, number);
    assert one[HEADER..] == r[HEADER..] && two[HEADER..] == one[HEADER..];
    assert two[HEADER..idx] == two[HEADER..][..idx - HEADER] == r[HEADER..idx];
    assert two[idx + |mid|..] == two[HEADER..][idx - HEADER + |mid|..] == r[idx + |mid|..];
  }

  lemma FillRewrites(b: bytes, r: bytes, idx: nat, end: nat, mid: bytes, size: bytes, number: bytes, newCount: nat)
    requires HEADER <= idx <= end <= |b| && |r| == |b| - (end - idx) + |mid| && r[..idx] == b[..idx]
      && r[idx + |mid|..] == b[end..]
    requires size == ToBytes(4, |r|) && number == ToBytes(2, newCount)
    ensures Rewritten(b, Filled(r, idx, mid, size, number), idx, end, mid, newCount)
  {
    FilledHeader(r, idx, mid, size, number);
    FilledRest(r, idx, mid, size, number);
    assert r[HEADER..idx] == r[..idx][HEADER..] == b[HEADER..idx];
  }

  /** Replaces bytes and sets the header. */
  method Rewrite(a: array<byte>, ghost b: bytes, idx: nat, replaced: nat, mid: bytes, newCount: nat)
      returns (c: array<byte>)
    requires HEADER <= idx && idx + replaced <= a.Length && b == a[..]
    modifies a
    ensures (c == a || fresh(c)) && Rewritten(b, c[..], idx, idx + replaced, mid, newCount)
  {
    c := Resize(a, b, idx, replaced, |mid|);
    var size, number := ToBytes(4, c.Length), ToBytes(2, newCount);
    FillRewrites(b, c[..], idx, idx + replaced, mid, size, number, newCount);
    Fill(c, idx, mid, size, number);
  }

  /** Replacing the entries of some items gives the image of the new list. */
  lemma SplicedImage(b: bytes, entry: Item -> bytes, items: seq<Item>, count: nat, i: nat, j: nat, news: seq<Item>,
      idx: nat, end: nat, now: bytes, newCount: nat)
    requires Image(b, entry, items, count) && i <= j <= |items| && newCount <= COUNT_UNKNOWN && |now| <= MAX_BYTES
    requires idx == HEADER + Offset(entry, items, i) && end == HEADER + Offset(entry, items, j)
    requires Rewritten(b, now, idx, end, Body(entry, news), newCount)
    ensures Image(now, entry, items[..i] + news + items[j..], newCount)
  {
    SpliceCore(entry, items, i, j, news);
    SplicedBytes(b, Core(entry, items), idx, end, Body(entry, news));
    NewImage(now, entry, items[..i] + news + items[j..], newCount);
  }

  lemma SplicedBytes(b: bytes, core: bytes, idx: nat, end: nat, mid: bytes)
    requires HEADER <= idx <= end <= |b| && b[HEADER..] == core
    ensures b[HEADER..idx] + mid + b[end..] == core[..idx - HEADER] + mid + core[end - HEADER..]
  {
    assert core[end - HEADER..] == b[end..];
    assert core[..idx - HEADER] == b[HEADER..idx];
  }

  lemma NewImage(b: bytes, entry: Item -> bytes, items: seq<Item>, count: nat)
    requires HEADER <= |b| <= MAX_BYTES && count <= COUNT_UNKNOWN
    requires b[..4] == ToBytes(4, |b|) && b[4..HEADER] == ToBytes(2, count) && b[HEADER..] == Core(entry, items)
    ensures Image(b, entry, items, count)
  {
  }

  // ----- encoding an entry -----

  /** The groups of a length, lowest first, as the code writes them. */
  method WriteBacklen(n: nat) returns (s: bytes)
    ensures s == EncodeBacklen(n)
  {
    s := [];
    var backlen, k := n, BacklenBytes(n);
    ghost var rest, all := Groups(n, k, true), EncodeBacklen(n);
    for i := 0 to k
      invariant |s| == i && rest == Groups(backlen, k - i, i == 0) && s + rest == all
    {
      var b := backlen % 128;
      var group := if i > 0 then b + 128 else b;
      assert rest == [group] + Groups(backlen / 128, k - i - 1, false);
      MoveOne(s, group, Groups(backlen / 128, k - i - 1, false));
      rest := Groups(backlen / 128, k - i - 1, false);
      s := s + [group];
      backlen := backlen / 128;
    }
  }

  lemma MoveOne(s: bytes, b: byte, t: bytes)
    ensures s + ([b] + t) == (s + [b]) + t
  {
  }

  method EncodeEntry(s: Item) returns (b: bytes)
    ensures b == Entry(s)
  {
    var v := ToCanonicalInt64(s);
    var e;
    if v.Some? {
      IntegerExact(s, v.value);
      e := EncodeInteger(v.value);
    } else {
      e := EncodeString(s);
    }
    var back := WriteBacklen(|e|);
    b := e + back;
  }

  method EncodeAll(ghost entry: Item -> bytes, news: seq<Item>) returns (mid: bytes)
    requires Standard(entry)
    ensures mid == Body(entry, news)
  {
    mid := [];
    for k := 0 to |news|
      invariant mid == Body(entry, news[..k])
    {
      var b := EncodeEntry(news[k]);
      EntryAt(entry, news, k);
      assert SameEntry(entry, news[k]);
      mid := mid + b;
    }
    assert news[..|news|] == news;
  }

  class ListPack {
    var lp: array<byte>
    ghost const entry: Item -> bytes
    ghost var items: seq<Item>
    ghost var count: nat

    ghost predicate Valid()
      reads this, lp
    {
      Standard(entry) && Image(lp[..], entry, items, count) && CountOk(|items|, count)
    }

    /** The index of an item's entry; of the end mark for the number of items. */
    ghost function Position(i: nat): nat
      requires i <= |items|
      reads this
    {
      HEADER + Offset(entry, items, i)
    }

    constructor ()
      ensures Valid() && items == [] && fresh(lp)
    {
      entry := (s: Item) => Entry(s);
      var a := new byte[HEADER + 1](i => if i == 3 then HEADER + 1 else if i == HEADER then EOF else 0);
      lp, items, count := a, [], 0;
      new;
      forall s: Item ensures SameEntry(entry, s) {
      }
      EmptyImage(lp[..], entry);
    }

    method TotalBytes() returns (n: nat)
      requires Valid()
      ensures n == lp.Length
    {
      HeaderReads(lp[..], entry, items, count);
      assert lp[..][..4] == lp[..4];
      n := FromBytes(lp[..4]);
    }

    method ElementCount() returns (n: nat)
      requires Valid()
      ensures n == count
    {
      HeaderReads(lp[..], entry, items, count);
      assert lp[..][4..HEADER] == lp[4..HEADER];
      n := FromBytes(lp[4..HEADER]);
    }

    /** The element at an item's index. */
    method Get(idx: nat, ghost i: nat) returns (s: bytes)
      requires Valid() && i < |items| && idx == Position(i)
      ensures s == items[i]
    {
      var r := Front(idx, i);
      s := Decode(r);
    }

    /** The bytes from an item's index on. */
    method Front(idx: nat, ghost i: nat) returns (r: bytes)
      requires Valid() && i < |items| && idx == Position(i)
      ensures r != [] && r[0] != EOF && |r| >= Width(EncodingOf(r[0])) && |r| >= Backlen(r)
      ensures idx + Backlen(r) + BacklenBytes(Backlen(r)) == Position(i + 1) && Decode(r) == items[i]
    {
      Around(lp[..], entry, items, count, i, idx);
      EntryAt(entry, items, i);
      r := lp[idx..];
      assert r == lp[..][idx..];
      FrontEntry(entry, items[i], Core(entry, items[i + 1..]), r);
    }

    lemma EndMark(idx: nat, i: nat)
      requires Valid() && i <= |items| && idx == Position(i)
      ensures idx < lp.Length && (i == |items| <==> idx == lp.Length - 1) && (i == |items| <==> lp[idx] == EOF)
    {
      Around(lp[..], entry, items, count, i, idx);
      assert lp[..][idx..][0] == lp[idx];
      if i < |items| {
        EntryAt(entry, items, i);
        assert SameEntry(entry, items[i]);
      }
    }

    /** The index after an item; the end mark stays. */
    method Skip(idx: nat, ghost i: nat) returns (next: nat)
      requires Valid() && i <= |items| && idx == Position(i)
      ensures next == Position(if i < |items| then i + 1 else i)
    {
      EndMark(idx, i);
      if lp[idx] == EOF {
        return idx;
      }
      var r := Front(idx, i);
      next := idx + Backlen(r) + BacklenBytes(Backlen(r));
    }

    method First() returns (idx: Option<nat>)
      requires Valid()
      ensures idx == if items == [] then None else Some(Position(0))
    {
      EndMark(HEADER, 0);
      var total := TotalBytes();
      idx := if total <= HEADER + 1 then None else Some(HEADER);
    }

    method Next(idx: nat, ghost i: nat) returns (next: Option<nat>)
      requires Valid() && i <= |items| && idx == Position(i)
      ensures next == if i + 1 < |items| then Some(Position(i + 1)) else None
    {
      EndMark(idx, i);
      if lp[idx] == EOF {
        return None;
      }
      var n := Skip(idx, i);
      EndMark(n, i + 1);
      next := if lp[n] != EOF then Some(n) else None;
    }

    /** Goes back over an entry by the length at its end: what `Next` undoes. */
    method Prev(idx: nat, ghost i: nat) returns (prev: Option<nat>)
      requires Valid() && i <= |items| && idx == Position(i)
      ensures prev == if i == 0 then None else Some(Position(i - 1))
    {
      EndMark(HEADER, 0);
      var total := TotalBytes();
      StartsAtHeader(i);
      if total <= HEADER + 1 || idx == HEADER {
        return None;
      }
      BackAt(idx, i);
      var backlen := ReadBacklen(lp, idx - 1);
      prev := Some(idx - 1 - backlen - BacklenBytes(backlen) + 1);
    }

    /** The bytes before an item end with the length of the entry before it. */
    lemma BackAt(idx: nat, i: nat)
      requires Valid() && 0 < i <= |items| && idx == Position(i)
      ensures HEADER < idx < lp.Length && exists j :: 0 <= j <= idx - 1 && lp[j] < 128
      ensures idx - DecodeBacklen(lp[..idx], 0) - BacklenBytes(DecodeBacklen(lp[..idx], 0)) == Position(i - 1)
    {
      Around(lp[..], entry, items, count, i, idx);
      EntryAt(entry, items, i - 1);
      assert SameEntry(entry, items[i - 1]);
      var q := lp[..idx];
      var p := lp[..][..HEADER] + Body(entry, items[..i - 1]);
      assert q == p + entry(items[i - 1]);
      BackEntry(entry, items[i - 1], p, q);
      var j :| |p| <= j < |q| && q[j] < 128;
      assert lp[j] < 128;
    }

    lemma StartsAtHeader(i: nat)
      requires Valid() && i <= |items|
      ensures Position(i) == HEADER <==> i == 0
    {
      if i > 0 {
        EntryAt(entry, items, i - 1);
        assert SameEntry(entry, items[i - 1]);
      }
    }

    /** Puts the entries of `news` in place of those of items `i` to `j`, and sets size and count. */
    method Splice(idx: nat, replaced: nat, mid: bytes, newCount: nat, ghost i: nat, ghost j: nat, ghost news: seq<Item>)
      requires Valid() && i <= j <= |items| && idx == Position(i) && idx + replaced == Position(j)
        && mid == Body(entry, news)
      requires lp.Length - replaced + |mid| <= MAX_BYTES && newCount <= COUNT_UNKNOWN
        && CountOk(i + |news| + |items| - j, newCount)
      modifies this, lp
      ensures Valid() && items == old(items)[..i] + news + old(items)[j..] && (lp == old(lp) || fresh(lp))
        && count == newCount
      ensures lp.Length == old(lp.Length) - replaced + |mid|
    {
      ghost var b := lp[..];
      CoreFrom(entry, items, j);
      var a := Rewrite(lp, b, idx, replaced, mid, newCount);
      ghost var now := a[..];
      SplicedImage(b, entry, items, count, i, j, news, idx, idx + replaced, now, newCount);
      lp, items, count := a, items[..i] + news + items[j..], newCount;
    }

    /** Different items have different indices, in order. */
    lemma {:induction false} PositionsGrow(i: nat, j: nat)
      requires Valid() && i < j <= |items|
      ensures Position(i) < Position(j)
    {
      EntryAt(entry, items, j - 1);
      assert SameEntry(entry, items[j - 1]);
      if i < j - 1 {
        PositionsGrow(i, j - 1);
      }
    }

    // ----- changing the list -----

    /** Puts an element before the item at an index, unless the list would outgrow its 32-bit size. */
    method Insert(idx: nat, ghost i: nat, s: Item) returns (ok: bool)
      requires Valid() && i <= |items| && idx == Position(i)
      modifies this, lp
      ensures Valid() && (lp == old(lp) || fresh(lp)) && ok == (old(lp.Length) + |Entry(s)| <= MAX_BYTES)
      ensures items == if ok then old(items)[..i] + [s] + old(items)[i..] else old(items)
      ensures lp.Length == old(lp.Length) + if ok then |Entry(s)| else 0
    {
      var b := EncodeEntry(s);
      var total := TotalBytes();
      if |b| > MAX_BYTES - total {
        return false;
      }
      var num := ElementCount();
      OneEntry(s);
      Splice(idx, 0, b, if num == COUNT_UNKNOWN then num else num + 1, i, i, [s]);
      return true;
    }

    lemma OneEntry(s: Item)
      requires Valid()
      ensures Body(entry, [s]) == Entry(s)
    {
      BodyOne(entry, s);
      assert SameEntry(entry, s);
    }

    /** Puts an element in place of the item at an index. */
    method Replace(idx: nat, ghost i: nat, s: Item) returns (ok: bool)
      requires Valid() && i < |items| && idx == Position(i)
      modifies this, lp
      ensures Valid() && (lp == old(lp) || fresh(lp)) && ok
        == (old(lp.Length - (Position(i + 1) - Position(i))) + |Entry(s)| <= MAX_BYTES)
      ensures items == if ok then old(items)[..i] + [s] + old(items)[i + 1..] else old(items)
      ensures lp.Length == old(lp.Length) + if ok then |Entry(s)| - old(Position(i + 1) - Position(i)) else 0
    {
      var b := EncodeEntry(s);
      var total := TotalBytes();
      var r := Front(idx, i);
      var replaced := Backlen(r) + BacklenBytes(Backlen(r));
      EndMark(Position(i + 1), i + 1);
      if |b| > MAX_BYTES - (total - replaced) {
        return false;
      }
      var num := ElementCount();
      OneEntry(s);
      Splice(idx, replaced, b, num, i, i + 1, [s]);
      return true;
    }

    /** The index after up to `n` items. */
    method SkipMany(idx: nat, ghost i: nat, n: nat, total: nat) returns (end: nat, skipped: nat)
      requires Valid() && i <= |items| && idx == Position(i) && total == lp.Length
      ensures skipped == Min(n, |items| - i) && end == Position(i + skipped)
    {
      end, skipped := idx, 0;
      EndMark(end, i);
      while skipped < n && end < total - 1
        invariant i + skipped <= |items| && end == Position(i + skipped) && skipped <= n
        invariant end < total - 1 <==> i + skipped < |items|
        decreases n - skipped
      {
        end := Skip(end, i + skipped);
        skipped := skipped + 1;
        EndMark(end, i + skipped);
      }
    }

    /** Deletes up to `n` items from an index on. */
    method DeleteRange(idx: nat, ghost i: nat, n: nat) returns (deleted: nat)
      requires Valid() && i <= |items| && idx == Position(i)
      modifies this, lp
      ensures Valid() && (lp == old(lp) || fresh(lp)) && deleted == Min(n, |old(items)| - i)
      ensures items == old(items)[..i] + old(items)[i + deleted..] && lp.Length <= old(lp.Length)
      ensures lp.Length == old(lp.Length) - (old(Position(i + deleted)) - idx)
    {
      var total := TotalBytes();
      EndMark(idx, i);
      deleted := 0;
      if idx == total - 1 || n == 0 {
        return;
      }
      var end;
      end, deleted := SkipMany(idx, i, n, total);
      CoreGrows(i, i + deleted);
      var num := ElementCount();
      Splice(idx, end - idx, [], if num == COUNT_UNKNOWN then num else num - deleted, i, i + deleted, []);
    }

    lemma CoreGrows(i: nat, j: nat)
      requires i <= j <= |items|
      ensures Position(i) <= Position(j)
    {
      SpliceCore(entry, items, i, j, []);
    }

    /** Puts elements, if there are any, before the item at an index with one move of the rest. */
    method BatchInsert(idx: nat, ghost i: nat, news: seq<Item>) returns (ok: bool)
      requires Valid() && i <= |items| && idx == Position(i)
      modifies this, lp
      ensures Valid() && (lp == old(lp) || fresh(lp)) && ok == (news != []
        && old(lp.Length) + |Body(entry, news)| <= MAX_BYTES)
      ensures items == if ok then old(items)[..i] + news + old(items)[i..] else old(items)
    {
      if news == [] {
        return false;
      }
      var mid := EncodeAll(entry, news);
      var total := TotalBytes();
      if |mid| > MAX_BYTES - total {
        return false;
      }
      var num := ElementCount();
      var sum := if num == COUNT_UNKNOWN || |news| > COUNT_UNKNOWN - num then COUNT_UNKNOWN else num + |news|;
      Splice(idx, 0, mid, sum, i, i, news);
      return true;
    }

    // ----- counting and finding -----

    /** The number of items; counts them when the stored count is unknown, and stores the count if it fits again. */
    method Size() returns (n: nat)
      requires Valid()
      modifies this, lp
      ensures Valid() && lp == old(lp) && items == old(items) && n == |items|
    {
      var num := ElementCount();
      if num != COUNT_UNKNOWN {
        return num;
      }
      n := CountItems();
      if n < COUNT_UNKNOWN {
        SetCount(n);
      }
    }

    method CountItems() returns (n: nat)
      requires Valid()
      ensures n == |items|
    {
      n := 0;
      var idx := First();
      while idx.Some?
        invariant n <= |items| && idx == if n < |items| then Some(Position(n)) else None
        decreases |items| - n
      {
        idx := Next(idx.value, n);
        n := n + 1;
      }
    }

    method SetCount(n: nat)
      requires Valid() && n == |items| <= COUNT_UNKNOWN
      modifies this, lp
      ensures Valid() && lp == old(lp) && items == old(items)
    {
      ghost var b := lp[..];
      var number := ToBytes(2, n);
      Put(lp, 4, number);
      CountedImage(b, entry, items, count, n, number, lp[..]);
      count := n;
    }

    method Last() returns (idx: Option<nat>)
      requires Valid()
      ensures idx == if items == [] then None else Some(Position(|items| - 1))
    {
      EndMark(HEADER, 0);
      var total := TotalBytes();
      if total <= HEADER + 1 {
        return None;
      }
      EndMark(Position(|items|), |items|);
      idx := Prev(total - 1, |items|);
    }

    /** The index of an item, by number. */
    method IndexAt(index: nat) returns (idx: Option<nat>)
      requires Valid()
      ensures idx == if index < |items| then Some(Position(index)) else None
    {
      idx := First();
      var i := 0;
      while idx.Some? && i < index
        invariant 0 <= i <= index && idx == if i < |items| then Some(Position(i)) else None
      {
        idx := Next(idx.value, i);
        i := i + 1;
      }
    }

    // ----- as a list -----

    method Append(s: Item) returns (ok: bool)
      requires Valid()
      modifies this, lp
      ensures Valid() && (lp == old(lp) || fresh(lp)) && ok == (old(lp.Length) + |Entry(s)| <= MAX_BYTES)
      ensures items == if ok then old(items) + [s] else old(items)
      ensures lp.Length == old(lp.Length) + if ok then |Entry(s)| else 0
    {
      var total := TotalBytes();
      AtEnd();
      ok := Insert(total - 1, |items|, s);
    }

    method Prepend(s: Item) returns (ok: bool)
      requires Valid()
      modifies this, lp
      ensures Valid() && (lp == old(lp) || fresh(lp)) && ok == (old(lp.Length) + |Entry(s)| <= MAX_BYTES)
      ensures items == if ok then [s] + old(items) else old(items)
      ensures lp.Length == old(lp.Length) + if ok then |Entry(s)| else 0
    {
      assert items[..0] == [];
      ok := Insert(HEADER, 0, s);
    }

    lemma AtEnd()
      requires Valid()
      ensures Position(|items|) == lp.Length - 1
    {
      assert items[..|items|] == items;
    }

    /** Items `start` to `stop`, in order, found by walking from the first. */
    method Range(start: nat, stop: nat) returns (values: seq<Item>)
      requires Valid()
      modifies this, lp
      ensures Valid() && lp == old(lp) && items == old(items) && values == Between<Item>(items, start, stop)
    {
      values := [];
      var size := Size();
      if start > stop || start >= size {
        return;
      }
      values := Walk(start, Min(stop, size - 1));
    }

    method Walk(start: nat, end: nat) returns (values: seq<Item>)
      requires Valid() && start <= end < |items|
      ensures values == items[start..end + 1]
    {
      values := [];
      var index := 0;
      var idx := First();
      while idx.Some? && index <= end
        invariant 0 <= index <= end + 1 && idx == if index < |items| then Some(Position(index)) else None
        invariant values == if index < start then [] else items[start..index]
        decreases end + 1 - index
      {
        if index >= start {
          var s := Get(idx.value, index);
          OneFurther<Item>(items, start, index);
          values := values + [s];
        }
        idx := Next(idx.value, index);
        index := index + 1;
      }
    }

    /** The first item equal to a value among every `skip + 1`-th. */
    method FindAndSkip(value: bytes, skip: nat) returns (idx: Option<nat>)
      requires Valid()
      ensures idx == var at := FindEvery(items, value, skip, 0, 0); if at.Some? then Some(Position(at.value)) else None
    {
      idx := First();
      var left: nat := 0;
      ghost var i := 0;
      while idx.Some?
        invariant 0 <= i <= |items| && idx == if i < |items| then Some(Position(i)) else None
        invariant FindEvery(items, value, skip, i, left) == FindEvery(items, value, skip, 0, 0)
        decreases |items| - i
      {
        if left == 0 {
          var s := Get(idx.value, i);
          if s == value {
            return;
          }
          left := skip;
        } else {
          left := left - 1;
        }
        idx := Next(idx.value, i);
        i := i + 1;
      }
    }
  }

  lemma OneFurther<T>(s: seq<T>, i: nat, j: nat)
    requires i <= j < |s|
    ensures s[i..j] + [s[j]] == s[i..j + 1]
  {
  }

  /** The first index from `i` on, `left` of which are passed over first, that holds the value. */
  function FindEvery(items: seq<Item>, value: bytes, skip: nat, i: nat, left: nat): (at: Option<nat>)
    requires i <= |items|
    ensures at.Some? ==> i + left <= at.value < |items| && items[at.value] == value
    decreases |items| - i
  {
    if i == |items| then None
    else if left > 0 then FindEvery(items, value, skip, i + 1, left - 1)
    else if items[i] == value then Some(i)
    else FindEvery(items, value, skip, i + 1, skip)
  }

  lemma CountedImage(b: bytes, entry: Item -> bytes, items: seq<Item>, count: nat, n: nat, number: bytes, now: bytes)
    requires Image(b, entry, items, count) && n <= COUNT_UNKNOWN && number == ToBytes(2, n) && now == Over(b, 4, number)
    ensures Image(now, entry, items, n)
  {
    assert now[..4] == b[..4] && now[4..HEADER] == number && now[HEADER..] == b[HEADER..];
  }

  lemma EmptyImage(b: bytes, entry: Item -> bytes)
    requires |b| == HEADER + 1 && b == [0, 0, 0, HEADER + 1, 0, 0, EOF]
    ensures Image(b, entry, [], 0)
  {
    assert ToBytes(4, 7) == [0, 0, 0, 7] by {
      assert ToBytes(1, 0) == [0] && ToBytes(2, 0) == [0, 0] && ToBytes(3, 0) == [0, 0, 0];
    }
    assert ToBytes(2, 0) == [0, 0] by {
      assert ToBytes(1, 0) == [0];
    }
    assert b[..4] == [0, 0, 0, 7] && b[4..HEADER] == [0, 0] && b[HEADER..] == [EOF];
  }
}
