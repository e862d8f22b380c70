/** The integer set of memory/intset.cpp: ascending integers in cells of two, four or eight bytes. */
module IntSet {
  import opened Bytes
  import opened Memory
  import Codec = ListPackCodec

  const INT64_MIN: int := -0x8000_0000_0000_0000
  const INT64_MAX: int := 0x7fff_ffff_ffff_ffff

  predicate Width(w: nat) {
    w == 2 || w == 4 || w == 8
  }

  function Half(w: nat): int {
    if w == 2 then 0x8000 else if w == 4 then 0x8000_0000 else 0x8000_0000_0000_0000
  }

  predicate InWidth(w: nat, v: int) {
    -Half(w) <= v < Half(w)
  }

  /** The narrowest width for a value. */
  function ValueEncoding(v: int): (w: nat)
    requires INT64_MIN <= v <= INT64_MAX
    ensures Width(w) && InWidth(w, v) && forall n: nat :: Width(n) && n < w ==> !InWidth(n, v)
  {
    if v < -0x8000_0000 || v > 0x7fff_ffff then 8
    else if v < -0x8000 || v > 0x7fff then 4
    else 2
  }

  // ----- cells -----

  /** The bytes of a value in a cell that is wide enough for it. */
  function Cell(w: nat, v: int): (b: bytes)
    requires Width(w) && InWidth(w, v)
    ensures |b| == w
  {
    Codec.ToBytes(w, if v < 0 then v + 2 * Half(w) else v)
  }

  function CellValue(w: nat, b: bytes): int {
    var u := Codec.FromBytes(b);
    if u >= Half(w) then u - 2 * Half(w) else u
  }

  lemma CellRoundTrip(w: nat, v: int)
    requires Width(w) && InWidth(w, v)
    ensures CellValue(w, Cell(w, v)) == v
  {
    Codec.Powers();
    Codec.FromToBytes(w, if v < 0 then v + 2 * Half(w) else v);
  }

  /** Where cell `i` begins: `i` widths from the start. */
  function At(w: nat, i: nat): nat {
    if i == 0 then 0 else At(w, i - 1) + w
  }

  lemma {:induction false} AtGrows(w: nat, i: nat, j: nat)
    requires i < j
    ensures At(w, i) + w <= At(w, j)
    decreases j
  {
    if i < j - 1 {
      AtGrows(w, i, j - 1);
    }
  }

  predicate HasBytes(b: bytes, at: nat, s: bytes) {
    at + |s| <= |b| && b[at..at + |s|] == s
  }

  predicate HasCell(b: bytes, w: nat, i: nat, v: int)
    requires Width(w)
  {
    InWidth(w, v) && HasBytes(b, At(w, i), Cell(w, v))
  }

  /** The first cells hold the values. */
  ghost predicate Holds(b: bytes, w: nat, vs: seq<int>)
    requires Width(w)
  {
    forall i :: 0 <= i < |vs| ==> HasCell(b, w, i, vs[i])
  }

  lemma OverCell(b: bytes, w: nat, i: nat, v: int)
    requires Width(w) && InWidth(w, v) && At(w, i) + w <= |b|
    ensures HasCell(Over(b, At(w, i), Cell(w, v)), w, i, v)
  {
  }

  lemma OverOther(b: bytes, w: nat, i: nat, v: int, j: nat, u: int)
    requires Width(w) && InWidth(w, v) && At(w, i) + w <= |b| && j != i && HasCell(b, w, j, u)
    ensures HasCell(Over(b, At(w, i), Cell(w, v)), w, j, u)
  {
    AtGrows(w, Min(i, j), Max(i, j));
    OverElsewhere(b, At(w, i), Cell(w, v), At(w, j), At(w, j) + w);
  }

  lemma OverElsewhere(b: bytes, at: nat, c: bytes, i: nat, j: nat)
    requires at + |c| <= |b| && i <= j <= |b| && (j <= at || at + |c| <= i)
    ensures Over(b, at, c)[i..j] == b[i..j]
  {
  }

  // ----- sorted lists -----

  predicate Ascending(vs: seq<int>) {
    forall i, j :: 0 <= i < j < |vs| ==> vs[i] < vs[j]
  }

  predicate AllIn(w: nat, vs: seq<int>) {
    forall i :: 0 <= i < |vs| ==> InWidth(w, vs[i])
  }

  /** The values before `c` are smaller, those from `c` on are not. */
  predicate Splits(vs: seq<int>, v: int, c: nat) {
    c <= |vs| && (forall i :: 0 <= i < c ==> vs[i] < v) && (forall i :: c <= i < |vs| ==> vs[i] >= v)
  }

  /** What is smaller than a value, and what is larger, as far as it is known. */
  predicate Bracketed(vs: seq<int>, v: int, low: nat, high: nat) {
    low <= high <= |vs| && (forall i :: 0 <= i < low ==> vs[i] < v) && (forall i :: high <= i < |vs| ==> vs[i] > v)
  }

  lemma Narrows(vs: seq<int>, v: int, low: nat, mid: nat, high: nat)
    requires Ascending(vs) && Bracketed(vs, v, low, high) && low <= mid < high
    ensures vs[mid] < v ==> Bracketed(vs, v, mid + 1, high)
    ensures vs[mid] > v ==> Bracketed(vs, v, low, mid)
  {
    forall i | 0 <= i < |vs| && i != mid ensures if i < mid then vs[i] < vs[mid] else vs[i] > vs[mid] {
    }
  }

  lemma FoundAt(vs: seq<int>, c: nat)
    requires Ascending(vs) && c < |vs|
    ensures Splits(vs, vs[c], c)
  {
  }

  lemma BelowAll(vs: seq<int>, v: int)
    requires Ascending(vs) && vs != [] && v < vs[0]
    ensures v !in vs && Splits(vs, v, 0)
  {
    forall i | 0 <= i < |vs| ensures v < vs[i] {
      assert i == 0 || vs[0] < vs[i];
    }
  }

  lemma AboveAll(vs: seq<int>, v: int)
    requires Ascending(vs) && vs != [] && v > vs[|vs| - 1]
    ensures v !in vs && Splits(vs, v, |vs|)
  {
    forall i | 0 <= i < |vs| ensures vs[i] < v {
      assert i == |vs| - 1 || vs[i] < vs[|vs| - 1];
    }
  }

  function With(vs: seq<int>, c: nat, v: int): seq<int>
    requires c <= |vs|
  {
    vs[..c] + [v] + vs[c..]
  }

  function Without(vs: seq<int>, c: nat): seq<int>
    requires c < |vs|
  {
    vs[..c] + vs[c + 1..]
  }

  lemma WithAscending(vs: seq<int>, c: nat, v: int)
    requires Ascending(vs) && Splits(vs, v, c) && v !in vs
    ensures Ascending(With(vs, c, v))
  {
    var now := With(vs, c, v);
    forall i, j | 0 <= i < j < |now| ensures now[i] < now[j] {
      var a := if i <= c then i else i - 1;
      var b := if j <= c then j else j - 1;
      assert (i != c ==> now[i] == vs[a]) && (j != c ==> now[j] == vs[b]);
    }
  }

  lemma WithoutAscending(vs: seq<int>, c: nat)
    requires Ascending(vs) && c < |vs|
    ensures Ascending(Without(vs, c)) && vs[c] !in Without(vs, c)
  {
    var now := Without(vs, c);
    forall i | 0 <= i < |now| ensures now[i] == vs[if i < c then i else i + 1] {
    }
  }

  /** A value outside the width of the others comes before or after all of them. */
  lemma OutsideAtEnd(w: nat, vs: seq<int>, v: int)
    requires AllIn(w, vs) && !InWidth(w, v)
    ensures v !in vs && Splits(vs, v, if v < 0 then 0 else |vs|)
  {
  }

  /** The set of values, and its changes. */
  function SetOf(vs: seq<int>): set<int> {
    set v | v in vs
  }

  lemma SetOfWith(vs: seq<int>, c: nat, v: int)
    requires c <= |vs|
    ensures SetOf(With(vs, c, v)) == SetOf(vs) + {v}
  {
    var now := With(vs, c, v);
    forall u ensures u in now <==> u in vs || u == v {
      assert vs == vs[..c] + vs[c..];
    }
  }

  lemma SetOfWithout(vs: seq<int>, c: nat)
    requires Ascending(vs) && c < |vs|
    ensures SetOf(Without(vs, c)) == SetOf(vs) - {vs[c]}
  {
    WithoutAscending(vs, c);
    assert vs == vs[..c] + [vs[c]] + vs[c + 1..];
  }

  // ----- moving cells -----

  lemma SameSlice(b: bytes, c: bytes, end: nat, i: nat, j: nat)
    requires end <= |b| && end <= |c| && c[..end] == b[..end] && i <= j <= end
    ensures c[i..j] == b[i..j]
  {
    assert c[i..j] == c[..end][i..j] && b[i..j] == b[..end][i..j];
  }

  /** The cells that are copied keep their values. */
  lemma PrefixHolds(b: bytes, c: bytes, w: nat, vs: seq<int>, n: nat)
    requires Width(w) && Holds(b, w, vs) && n <= |vs| && At(w, n) <= |c| && At(w, n) <= |b|
      && c[..At(w, n)] == b[..At(w, n)]
    ensures Holds(c, w, vs[..n])
  {
    forall i | 0 <= i < n ensures HasCell(c, w, i, vs[..n][i]) {
      assert HasCell(b, w, i, vs[i]);
      AtGrows(w, i, n);
      SameSlice(b, c, At(w, n), At(w, i), At(w, i) + w);
    }
  }

  /** A new array with the first bytes of another. */
  method CopyFront(a: array<byte>, len: nat, total: nat) returns (c: array<byte>)
    requires len <= a.Length && len <= total
    ensures fresh(c) && c.Length == total && c[..][..len] == a[..][..len]
  {
    c := new byte[total](k => 0);
    forall k | 0 <= k < len {
      c[k] := a[k];
    }
  }

  /** A new array of `m` cells with the values that fit. */
  method Resize(a: array<byte>, w: nat, n: nat, m: nat, ghost vs: seq<int>) returns (c: array<byte>)
    requires Width(w) && Holds(a[..], w, vs) && Min(n, m) <= |vs| && At(w, n) <= a.Length
    ensures fresh(c) && c.Length == At(w, m) && Holds(c[..], w, vs[..Min(n, m)])
  {
    AtOrder(w, Min(n, m), n);
    AtOrder(w, Min(n, m), m);
    c := CopyFront(a, At(w, Min(n, m)), At(w, m));
    PrefixHolds(a[..], c[..], w, vs, Min(n, m));
  }

  ghost predicate MovedByte(b: bytes, c: bytes, dst: nat, src: nat, len: nat, k: nat)
    requires |c| == |b| && dst + len <= |b| && src + len <= |b|
  {
    k < |b| ==> c[k] == b[if dst <= k < dst + len then src + k - dst else k]
  }

  /** An array's bytes before and after some of them were moved. */
  ghost predicate Moved(b: bytes, c: bytes, dst: nat, src: nat, len: nat) {
    && |c| == |b| && dst + len <= |b| && src + len <= |b|
    && forall k: nat :: MovedByte(b, c, dst, src, len, k)
  }

  method MoveTail(a: array<byte>, dst: nat, src: nat, len: nat)
    requires dst + len <= a.Length && src + len <= a.Length
    modifies a
    ensures Moved(old(a[..]), a[..], dst, src, len)
  {
    ghost var b := a[..];
    Memmove(a, dst, src, len);
    forall k: nat ensures MovedByte(b, a[..], dst, src, len, k) {
    }
  }

  lemma MovedSlice(b: bytes, c: bytes, dst: nat, src: nat, len: nat, i: nat, j: nat)
    requires Moved(b, c, dst, src, len) && i <= j <= len
    ensures c[dst + i..dst + j] == b[src + i..src + j]
  {
    var x, y := c[dst + i..dst + j], b[src + i..src + j];
    forall k | 0 <= k < j - i ensures x[k] == y[k] {
      assert MovedByte(b, c, dst, src, len, dst + i + k);
    }
  }

  lemma KeptSlice(b: bytes, c: bytes, dst: nat, src: nat, len: nat, i: nat, j: nat)
    requires Moved(b, c, dst, src, len) && i <= j <= dst
    ensures c[i..j] == b[i..j]
  {
    var x, y := c[i..j], b[i..j];
    forall k | 0 <= k < j - i ensures x[k] == y[k] {
      assert MovedByte(b, c, dst, src, len, i + k);
    }
  }

  /** Cell `i` is free: the values before it are in their cells, the others one further on. */
  ghost predicate Gapped(b: bytes, w: nat, vs: seq<int>, i: nat)
    requires Width(w)
  {
    forall j :: 0 <= j < |vs| ==> HasCell(b, w, if j < i then j else j + 1, vs[j])
  }

  lemma MovedBytes(b: bytes, c: bytes, dst: nat, src: nat, len: nat, i: nat, s: bytes)
    requires Moved(b, c, dst, src, len) && HasBytes(b, src + i, s) && i + |s| <= len
    ensures HasBytes(c, dst + i, s)
  {
    MovedSlice(b, c, dst, src, len, i, i + |s|);
  }

  lemma KeptBytes(b: bytes, c: bytes, dst: nat, src: nat, len: nat, i: nat, s: bytes)
    requires Moved(b, c, dst, src, len) && HasBytes(b, i, s) && i + |s| <= dst
    ensures HasBytes(c, i, s)
  {
    KeptSlice(b, c, dst, src, len, i, i + |s|);
  }

  /** Bytes that are moved stay together, and so do those before the place moved to. */
  lemma MovedPiece(b: bytes, c: bytes, dst: nat, src: nat, last: nat, x: nat, y: nat, s: bytes)
    requires src <= last && Moved(b, c, dst, src, last - src) && HasBytes(b, x, s)
    requires if x < src then y == x && x + |s| <= dst else y - dst == x - src && x + |s| <= last
    ensures HasBytes(c, y, s)
  {
    if x < src {
      KeptBytes(b, c, dst, src, last - src, x, s);
    } else {
      MovedBytes(b, c, dst, src, last - src, x - src, s);
    }
  }

  lemma AtOrder(w: nat, i: nat, j: nat)
    requires i <= j
    ensures At(w, i) <= At(w, j)
  {
    if i < j {
      AtGrows(w, i, j);
    }
  }

  lemma MovedUpCell(b: bytes, c: bytes, w: nat, n: nat, i: nat, j: nat, s: bytes)
    requires w > 0 && i <= n && j < n && |s| == w && HasBytes(b, At(w, j), s)
    requires At(w, i) <= At(w, n) && Moved(b, c, At(w, i + 1), At(w, i), At(w, n) - At(w, i))
    ensures HasBytes(c, At(w, if j < i then j else j + 1), s)
  {
    var dst, src, last, x := At(w, i + 1), At(w, i), At(w, n), At(w, j);
    AtGrows(w, j, n);
    if j < i {
      AtGrows(w, j, i);
    } else {
      AtOrder(w, i, j);
    }
    MovedPiece(b, c, dst, src, last, x, if j < i then x else x + w, s);
  }

  lemma MovedUp(b: bytes, c: bytes, w: nat, vs: seq<int>, i: nat)
    requires Width(w) && Holds(b, w, vs) && i <= |vs| && At(w, i) <= At(w, |vs|)
    requires Moved(b, c, At(w, i + 1), At(w, i), At(w, |vs|) - At(w, i))
    ensures Gapped(c, w, vs, i)
  {
    forall j | 0 <= j < |vs| ensures HasCell(c, w, if j < i then j else j + 1, vs[j]) {
      assert HasCell(b, w, j, vs[j]);
      MovedUpCell(b, c, w, |vs|, i, j, Cell(w, vs[j]));
    }
  }

  lemma MovedDownCell(b: bytes, c: bytes, w: nat, n: nat, i: nat, j: nat, s: bytes)
    requires w > 0 && i < n && j < n && j != i && |s| == w && HasBytes(b, At(w, j), s)
    requires At(w, i + 1) <= At(w, n) && Moved(b, c, At(w, i), At(w, i + 1), At(w, n) - At(w, i + 1))
    ensures HasBytes(c, At(w, if j < i then j else j - 1), s)
  {
    var dst, src, last, x := At(w, i), At(w, i + 1), At(w, n), At(w, j);
    AtGrows(w, j, n);
    if j < i {
      AtGrows(w, j, i);
    } else {
      AtOrder(w, i + 1, j);
    }
    MovedPiece(b, c, dst, src, last, x, if j < i then x else x - w, s);
  }

  lemma MovedDown(b: bytes, c: bytes, w: nat, vs: seq<int>, i: nat)
    requires Width(w) && Holds(b, w, vs) && i < |vs| && At(w, i + 1) <= At(w, |vs|)
    requires Moved(b, c, At(w, i), At(w, i + 1), At(w, |vs|) - At(w, i + 1))
    ensures Holds(c, w, Without(vs, i))
  {
    var now := Without(vs, i);
    forall k | 0 <= k < |now| ensures HasCell(c, w, k, now[k]) {
      var j := if k < i then k else k + 1;
      assert now[k] == vs[j] && HasCell(b, w, j, vs[j]);
      MovedDownCell(b, c, w, |vs|, i, j, Cell(w, vs[j]));
    }
  }

  /** Makes cell `i` free. */
  method OpenGap(a: array<byte>, w: nat, i: nat, n: nat, ghost vs: seq<int>)
    requires Width(w) && Holds(a[..], w, vs) && i <= n == |vs| && At(w, n + 1) <= a.Length
    modifies a
    ensures Gapped(a[..], w, vs, i)
  {
    ghost var b := a[..];
    AtOrder(w, i, n);
    if i < n {
      MoveTail(a, At(w, i + 1), At(w, i), At(w, n) - At(w, i));
      MovedUp(b, a[..], w, vs, i);
    } else {
      assert forall j :: 0 <= j < |vs| ==> HasCell(b, w, j, vs[j]);
    }
  }

  /** Moves the cells after `i` onto it. */
  method CloseGap(a: array<byte>, w: nat, i: nat, n: nat, ghost vs: seq<int>)
    requires Width(w) && Holds(a[..], w, vs) && i < n == |vs| && At(w, n) <= a.Length
    modifies a
    ensures Holds(a[..], w, Without(vs, i))
  {
    AtOrder(w, i + 1, n);
    AtOrder(w, i, i + 1);
    ghost var b := a[..];
    MoveTail(a, At(w, i), At(w, i + 1), At(w, n) - At(w, i + 1));
    MovedDown(b, a[..], w, vs, i);
  }

  lemma FilledGap(b: bytes, w: nat, vs: seq<int>, i: nat, v: int)
    requires Width(w) && InWidth(w, v) && i <= |vs| && Gapped(b, w, vs, i) && At(w, i) + w <= |b|
    ensures Holds(Over(b, At(w, i), Cell(w, v)), w, With(vs, i, v))
  {
    var now, c := With(vs, i, v), Over(b, At(w, i), Cell(w, v));
    OverCell(b, w, i, v);
    forall k | 0 <= k < |now| ensures HasCell(c, w, k, now[k]) {
      if k != i {
        var j := if k < i then k else k - 1;
        assert now[k] == vs[j] && HasCell(b, w, k, vs[j]);
        OverOther(b, w, i, v, k, vs[j]);
      }
    }
  }

  /** Cells of another width for the values, one of them left free. */
  method Widen(a: array<byte>, w: nat, wide: nat, prepend: nat, ghost vs: seq<int>, n: nat) returns (c: array<byte>)
    requires Width(w) && Width(wide) && Holds(a[..], w, vs) && AllIn(wide, vs) && n == |vs| && At(w, n) <= a.Length
      && prepend <= 1
    ensures fresh(c) && c.Length == At(wide, n + 1) && Gapped(c[..], wide, vs, if prepend == 1 then 0 else n)
  {
    c := new byte[At(wide, n + 1)](k => 0);
    for idx := n downto 0
      invariant WidenedFrom(c[..], wide, vs, idx, prepend)
    {
      AtGrows(wide, idx + prepend, n + 1);
      assert HasCell(a[..], w, idx, vs[idx]);
      var v := ReadCell(a, w, idx, vs[idx]);
      WidenOne(c[..], wide, vs, idx, prepend);
      Put(c, At(wide, idx + prepend), Cell(wide, v));
    }
  }

  ghost predicate WidenedFrom(b: bytes, w: nat, vs: seq<int>, from: nat, prepend: nat)
    requires Width(w)
  {
    forall j :: from <= j < |vs| ==> HasCell(b, w, j + prepend, vs[j])
  }

  lemma WidenOne(b: bytes, w: nat, vs: seq<int>, i: nat, prepend: nat)
    requires Width(w) && i < |vs| && InWidth(w, vs[i]) && At(w, i + prepend) + w <= |b|
      && WidenedFrom(b, w, vs, i + 1, prepend)
    ensures WidenedFrom(Over(b, At(w, i + prepend), Cell(w, vs[i])), w, vs, i, prepend)
  {
    OverCell(b, w, i + prepend, vs[i]);
    forall j | i < j < |vs| ensures HasCell(Over(b, At(w, i + prepend), Cell(w, vs[i])), w, j + prepend, vs[j]) {
      assert HasCell(b, w, j + prepend, vs[j]);
      OverOther(b, w, i + prepend, vs[i], j + prepend, vs[j]);
    }
  }

  method ReadCell(a: array<byte>, w: nat, i: nat, ghost expected: int) returns (v: int)
    requires Width(w) && HasCell(a[..], w, i, expected)
    ensures v == expected
  {
    CellRoundTrip(w, expected);
    assert a[At(w, i)..At(w, i) + w] == a[..][At(w, i)..At(w, i) + w];
    v := CellValue(w, a[At(w, i)..At(w, i) + w]);
  }

  // ----- the set -----

  class IntSet {
    var contents: array<byte>
    var length: nat
    var width: nat
    ghost var values: seq<int>

    ghost predicate Valid()
      reads this, contents
    {
      && Width(width) && length == |values| && Ascending(values) && AllIn(width, values)
      && Holds(contents[..], width, values) && At(width, length) <= contents.Length
    }

    constructor ()
      ensures Valid() && values == [] && fresh(contents)
    {
      contents := new byte[2](i => 0);
      length, width, values := 0, 2, [];
    }

    /** The value of a cell; beyond the last there is none. */
    method Get(index: nat) returns (v: Option<int>)
      requires Valid()
      ensures v == if index < |values| then Some(values[index]) else None
    {
      if index >= length {
        return None;
      }
      var u := EncodedValue(index);
      v := Some(u);
    }

    method EncodedValue(index: nat) returns (v: int)
      requires Valid() && index < length
      ensures v == values[index]
    {
      assert HasCell(contents[..], width, index, values[index]);
      v := ReadCell(contents, width, index, values[index]);
    }

    /** Whether a value is held, and where it is or belongs. */
    method Search(value: int) returns (found: bool, index: nat)
      requires Valid()
      ensures found == (value in values) && Splits(values, value, index)
        && (found ==> index < |values| && values[index] == value)
    {
      if length > 0 {
        var first := EncodedValue(0);
        if value < first {
          BelowAll(values, value);
          return false, 0;
        }
        var last := EncodedValue(length - 1);
        if value > last {
          AboveAll(values, value);
          return false, length;
        }
      }
      found, index := Bisect(value);
    }

    method Bisect(value: int) returns (found: bool, index: nat)
      requires Valid()
      ensures found == (value in values) && Splits(values, value, index)
        && (found ==> index < |values| && values[index] == value)
    {
      var low, high := 0, length;
      while low < high
        invariant 0 <= low <= high <= |values| && Bracketed(values, value, low, high)
      {
        var mid := low + (high - low) / 2;
        var v := EncodedValue(mid);
        if v == value {
          FoundAt(values, mid);
          return true, mid;
        }
        Narrows(values, value, low, mid, high);
        if v < value {
          low := mid + 1;
        } else {
          high := mid;
        }
      }
      return false, low;
    }

    method Find(value: int) returns (found: bool)
      requires Valid() && INT64_MIN <= value <= INT64_MAX
      ensures found == (value in values)
    {
      var w := ValueEncoding(value);
      if w > width {
        OutsideAtEnd(width, values, value);
        return false;
      }
      var index;
      found, index := Search(value);
    }

    /** Adds a value, in wider cells if it needs them; false if it is held already. */
    method Add(value: int) returns (added: bool)
      requires Valid() && INT64_MIN <= value <= INT64_MAX
      modifies this
      ensures Valid() && added == (value !in old(values)) && SetOf(values) == SetOf(old(values)) + {value}
        && fresh(contents) == added
      ensures width == Max(old(width), ValueEncoding(value))
    {
      if ValueEncoding(value) > width {
        UpgradeAndAdd(value);
        return true;
      }
      var found, index := Search(value);
      if found {
        return false;
      }
      AddAt(index, value);
      return true;
    }

    method AddAt(index: nat, value: int)
      requires Valid() && InWidth(width, value) && value !in values && Splits(values, value, index)
      modifies this
      ensures Valid() && values == With(old(values), index, value) && SetOf(values) == SetOf(old(values)) + {value}
        && fresh(contents) && width == old(width)
    {
      var c := Resize(contents, width, length, length + 1, values);
      assert values[..length] == values;
      AtGrows(width, index, length + 1);
      OpenGap(c, width, index, length, values);
      FilledGap(c[..], width, values, index, value);
      Put(c, At(width, index), Cell(width, value));
      Installed(index, value);
      contents, length, values := c, length + 1, With(values, index, value);
    }

    lemma Installed(index: nat, value: int)
      requires Ascending(values) && AllIn(width, values) && InWidth(width, value) && value !in values
        && Splits(values, value, index)
      ensures Ascending(With(values, index, value)) && AllIn(width, With(values, index, value))
      ensures SetOf(With(values, index, value)) == SetOf(values) + {value}
    {
      WithAscending(values, index, value);
      SetOfWith(values, index, value);
    }

    /** Moves every value to a wider cell, leaving the first or the last for the one that needs it. */
    method UpgradeAndAdd(value: int)
      requires Valid() && INT64_MIN <= value <= INT64_MAX && ValueEncoding(value) > width
      modifies this
      ensures Valid() && value !in old(values) && SetOf(values) == SetOf(old(values)) + {value} && fresh(contents)
      ensures width == ValueEncoding(value)
    {
      var wide := ValueEncoding(value);
      OutsideAtEnd(width, values, value);
      var prepend := if value < 0 then 1 else 0;
      var c := Widen(contents, width, wide, prepend, values, length);
      width := wide;
      var index: nat := if prepend == 1 then 0 else length;
      AtGrows(wide, index, length + 1);
      FilledGap(c[..], wide, values, index, value);
      Put(c, At(wide, index), Cell(wide, value));
      Installed(index, value);
      contents, length, values := c, length + 1, With(values, index, value);
    }

    /** Removes a value, if it is held. */
    method Remove(value: int) returns (removed: bool)
      requires Valid()
      modifies this, contents
      ensures Valid() && removed == (value in old(values)) && SetOf(values) == SetOf(old(values)) - {value}
        && (contents == old(contents) || fresh(contents))
    {
      var index;
      removed, index := Search(value);
      if removed {
        RemoveAt(index);
      }
    }

    method RemoveAt(index: nat)
      requires Valid() && index < |values|
      modifies this, contents
      ensures Valid() && values == Without(old(values), index)
        && SetOf(values) == SetOf(old(values)) - {old(values)[index]} && fresh(contents)
    {
      CloseGap(contents, width, index, length, values);
      SetOfWithout(values, index);
      WithoutAscending(values, index);
      ghost var now := Without(values, index);
      var c := Resize(contents, width, length, length - 1, now);
      assert now[..length - 1] == now;
      contents, length, values := c, length - 1, now;
    }

    method Largest() returns (v: Option<int>)
      requires Valid()
      ensures v.None? <==> values == []
      ensures v.Some? ==> v.value in values && forall u :: u in values ==> u <= v.value
    {
      if length == 0 {
        return None;
      }
      v := Get(length - 1);
    }

    method Smallest() returns (v: Option<int>)
      requires Valid()
      ensures v.None? <==> values == []
      ensures v.Some? ==> v.value in values && forall u :: u in values ==> u >= v.value
    {
      v := Get(0);
    }
  }
}
