/** The bytes of a whole listpack: total size, element count, entries and the end mark. */
module ListPackLayout {
  import opened Bytes
  import opened ListPackCodec

  const HEADER: nat := 6
  const COUNT_UNKNOWN: nat := 0xffff
  const MAX_BYTES: nat := 0xffff_ffff

  type Item = s: bytes | |s| < STRING_LIMIT witness []

  /** The entries, one after the other. */
  function Body(entry: Item -> bytes, items: seq<Item>): bytes {
    if items == [] then [] else entry(items[0]) + Body(entry, items[1..])
  }

  lemma {:induction false} BodyConcat(entry: Item -> bytes, a: seq<Item>, b: seq<Item>)
    ensures Body(entry, a + b) == Body(entry, a) + Body(entry, b)
  {
    if a == [] {
      assert a + b == b;
    } else {
      BodyConcat(entry, a[1..], b);
      assert (a + b)[1..] == a[1..] + b;
    }
  }

  lemma BodyOne(entry: Item -> bytes, s: Item)
    ensures Body(entry, [s]) == entry(s)
  {
    assert Body(entry, [s][1..]) == [];
  }

  /** Where the entry of item `i` begins, counted after the header. */
  function Offset(entry: Item -> bytes, items: seq<Item>, i: nat): nat
    requires i <= |items|
  {
    |Body(entry, items[..i])|
  }

  lemma BodySplit(entry: Item -> bytes, items: seq<Item>, i: nat)
    requires i <= |items|
    ensures Body(entry, items) == Body(entry, items[..i]) + Body(entry, items[i..])
  {
    var a, b := items[..i], items[i..];
    assert a + b == items;
    BodyConcat(entry, a, b);
  }

  /** What follows the header. */
  function Core(entry: Item -> bytes, items: seq<Item>): (b: bytes)
    ensures b != []
  {
    Body(entry, items) + [EOF]
  }

  /** From an item's offset on, the rest is the rest's own core. */
  lemma CoreFrom(entry: Item -> bytes, items: seq<Item>, i: nat)
    requires i <= |items|
    ensures Offset(entry, items, i) < |Core(entry, items)|
    ensures Core(entry, items)[..Offset(entry, items, i)] == Body(entry, items[..i])
    ensures Core(entry, items)[Offset(entry, items, i)..] == Core(entry, items[i..])
  {
    BodySplit(entry, items, i);
  }

  /** At an item's offset stands its entry. */
  lemma EntryAt(entry: Item -> bytes, items: seq<Item>, i: nat)
    requires i < |items|
    ensures Core(entry, items[i..]) == entry(items[i]) + Core(entry, items[i + 1..])
    ensures Offset(entry, items, i + 1) == Offset(entry, items, i) + |entry(items[i])|
    ensures Body(entry, items[..i + 1]) == Body(entry, items[..i]) + entry(items[i])
  {
    assert items[i..][1..] == items[i + 1..];
    assert items[..i + 1] == items[..i] + [items[i]];
    BodyConcat(entry, items[..i], [items[i]]);
    BodyOne(entry, items[i]);
  }

  /** Replacing the bytes of items `i` to `j` by other entries replaces the items. */
  lemma SpliceCore(entry: Item -> bytes, items: seq<Item>, i: nat, j: nat, news: seq<Item>)
    requires i <= j <= |items|
    ensures Offset(entry, items, i) <= Offset(entry, items, j) <= |Body(entry, items)|
    ensures Core(entry, items)[..Offset(entry, items, i)] + Body(entry, news) + Core(entry,
      items)[Offset(entry, items, j)..]
         == Core(entry, items[..i] + news + items[j..])
  {
    CoreFrom(entry, items, i);
    CoreFrom(entry, items, j);
    BodySplit(entry, items[..j], i);
    assert items[..j][..i] == items[..i];
    BodyConcat(entry, items[..i] + news, items[j..]);
    BodyConcat(entry, items[..i], news);
  }
}
