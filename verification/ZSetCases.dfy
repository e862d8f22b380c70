/** Sorted sets at given inputs: that they exist, and a full listpack that loses a score. */
module ZSetCases {
  import opened Bytes
  import opened ListPackLayout
  import opened PairPack
  import opened ZSetOrder
  import ZSet
  import ZSetListPack

  /** A sorted set with decimal scores, and an entry in it. */
  method OneEntry() returns (z: ZSet.ZSet)
    ensures z.Valid() && z.entries == [Entry([97], 5)]
  {
    DecimalScores();
    z := new ZSet.ZSet(ScoreText, ScoreOfText);
    var inserted := z.InsertOrUpdate([97], 5, i => 1, 1);
  }

  // ----- a full listpack -----

  /** The length of a key two of which, with scores of one digit, fill a listpack to its last byte. */
  const LONG: nat := 0x7fff_fff0

  function LongKey(c: byte): (k: Item)
    ensures |k| == LONG && k[0] == c
  {
    seq(LONG, i => c)
  }

  lemma LongEntry(c: byte)
    ensures |ListPackCodec.Entry(LongKey(c))| == LONG + 10
  {
    var s := LongKey(c);
    var v := D.Integer(s);
    if v.Some? {
      D.IntegerExact(s, v.value);
      D.DigitCountBound(if v.value < 0 then -v.value else v.value);
    }
  }

  lemma ScoreEntries()
    ensures |ListPackCodec.Entry(ScoreText(0))| == 2 && |ListPackCodec.Entry(ScoreText(1000))| == 3
  {
    D.IntegerExact(D.Text(0), 0);
    D.IntegerExact(D.Text(1000), 1000);
  }

  lemma LongPair(pack: PairPack, i: nat, c: byte)
    requires pack.Valid() && pack.text == ScoreText && i < |pack.pairs| && pack.pairs[i] == Entry(LongKey(c), 0)
    ensures pack.PairBytes(i) == LONG + 12 && pack.list.Position(2 * i + 2) == pack.list.Position(2 * i) + LONG + 12
  {
    ScoreEntries();
    LongEntry(c);
    assert PairAt(pack.list.items, pack.text, pack.pairs, i);
    pack.PairSpan(i);
  }

  lemma StartAndEnd(pack: PairPack)
    requires pack.Valid()
    ensures pack.list.Position(0) == HEADER && pack.list.lp.Length == pack.list.Position(2 * |pack.pairs|) + 1
  {
    pack.list.AtEnd();
  }

  /** The bytes of a listpack with one such pair, and with two. */
  lemma WeighedOne(pack: PairPack)
    requires pack.Valid() && pack.text == ScoreText && |pack.pairs| == 1 && pack.pairs[0] == Entry(LongKey(97), 0)
    ensures pack.list.lp.Length == LONG + 19
  {
    StartAndEnd(pack);
    LongPair(pack, 0, 97);
  }

  lemma WeighedTwo(pack: PairPack)
    requires pack.Valid() && pack.text == ScoreText && |pack.pairs| == 2
    requires pack.pairs[0] == Entry(LongKey(97), 0) && pack.pairs[1] == Entry(LongKey(98), 0)
    ensures pack.list.lp.Length == MAX_BYTES && pack.PairBytes(1) == LONG + 12
  {
    StartAndEnd(pack);
    LongPair(pack, 0, 97);
    LongPair(pack, 1, 98);
  }

  lemma Ordered()
    ensures !Before(Entry(LongKey(98), 0), Entry(LongKey(97), 0)) && LongKey(97) != LongKey(98)
  {
  }

  lemma RoomForOne(pack: PairPack)
    requires pack.Valid() && pack.text == ScoreText && pack.pairs == []
    ensures pack.RoomInstead(LongKey(97), 0)
  {
    StartAndEnd(pack);
    ScoreEntries();
    LongEntry(97);
  }

  lemma RoomForTwo(pack: PairPack)
    requires pack.Valid() && pack.text == ScoreText && |pack.pairs| == 1 && pack.pairs[0] == Entry(LongKey(97), 0)
    ensures pack.RoomInstead(LongKey(98), 0)
  {
    WeighedOne(pack);
    ScoreEntries();
    LongEntry(98);
    Ordered();
    assert FindPair(pack.pairs, LongKey(98), 0) == None;
  }

  lemma NoRoomForMore(pack: PairPack)
    requires pack.Valid() && pack.text == ScoreText && |pack.pairs| == 2
    requires pack.pairs[0] == Entry(LongKey(97), 0) && pack.pairs[1] == Entry(LongKey(98), 0)
    ensures !pack.RoomInstead(LongKey(98), 1000)
  {
    WeighedTwo(pack);
    ScoreEntries();
    LongEntry(98);
    Ordered();
    assert FindPair(pack.pairs, LongKey(98), 0) == Some(1);
  }

  lemma TwoEntries(x: Entry, y: Entry)
    requires x.key != y.key && !Before(y, x)
    ensures ScoreOf([x], y.key) == None && Scored([x], y.key, y.score) == [x, y]
    ensures ScoreOf([x, y], y.key) == Some(y.score) && Drop([x, y], y.key) == [x]
  {
    assert [x, y][1..] == [y] && [x][1..] == [];
    assert Drop([x], y.key) == [x] && Put([x], y) == [x] + Put([], y);
  }

  method OnePair() returns (z: ZSetListPack.ZSetListPack)
    ensures z.Valid() && z.pack.pairs == [Entry(LongKey(97), 0)] && z.pack.text == ScoreText
    ensures fresh(z.pack) && fresh(z.pack.list) && fresh(z.pack.list.lp)
  {
    DecimalScores();
    z := new ZSetListPack.ZSetListPack(ScoreText, ScoreOfText);
    RoomForOne(z.pack);
    var inserted := z.InsertOrUpdate(LongKey(97), 0);
  }

  method FullPack() returns (z: ZSetListPack.ZSetListPack)
    ensures z.Valid() && z.pack.pairs == [Entry(LongKey(97), 0), Entry(LongKey(98), 0)] && z.pack.text == ScoreText
    ensures fresh(z.pack) && fresh(z.pack.list) && fresh(z.pack.list.lp)
  {
    z := OnePair();
    RoomForTwo(z.pack);
    Ordered();
    TwoEntries(Entry(LongKey(97), 0), Entry(LongKey(98), 0));
    var inserted := z.InsertOrUpdate(LongKey(98), 0);
  }

  /** In a listpack full to its last byte, changing a score from 0 to 1000 removes the key. */
  method FullLosesScore() returns (z: ZSetListPack.ZSetListPack)
    ensures z.Valid() && z.pack.pairs == [Entry(LongKey(97), 0)] && ScoreOf(z.pack.pairs, LongKey(98)) == None
  {
    z := FullPack();
    NoRoomForMore(z.pack);
    Ordered();
    TwoEntries(Entry(LongKey(97), 0), Entry(LongKey(98), 0));
    var inserted := z.InsertOrUpdate(LongKey(98), 1000);
  }
}
