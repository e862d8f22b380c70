/** Sorted-set entries: their order, and sorted lists of them. */
module ZSetOrder {
  import opened Bytes
  import opened Order

  /**
   * A score, as its place in the order of the doubles: these, without NaN and with both zeros in one place,
   * are fewer than the 64-bit integers.
   */
  type Score = x: int | -0x8000_0000_0000_0000 <= x < 0x8000_0000_0000_0000

  datatype Entry = Entry(key: bytes, score: Score)

  /** Byte strings in dictionary order. */
  predicate Lex(a: bytes, b: bytes) {
    b != [] && (a == [] || a[0] < b[0] || (a[0] == b[0] && Lex(a[1..], b[1..])))
  }

  lemma {:induction false} LexTotal(a: bytes, b: bytes)
    ensures a == b || Lex(a, b) || Lex(b, a)
  {
    if a != [] && b != [] && a[0] == b[0] {
      LexTotal(a[1..], b[1..]);
      if a[1..] == b[1..] {
        assert a == [a[0]] + a[1..] && b == [b[0]] + b[1..];
      }
    }
  }

  lemma {:induction false} LexIrreflexive(a: bytes)
    ensures !Lex(a, a)
  {
    if a != [] {
      LexIrreflexive(a[1..]);
    }
  }

  lemma {:induction false} LexTransitive(a: bytes, b: bytes, c: bytes)
    requires Lex(a, b) && Lex(b, c)
    ensures Lex(a, c)
  {
    if a != [] && a[0] == b[0] == c[0] {
      LexTransitive(a[1..], b[1..], c[1..]);
    }
  }

  /** Where two byte strings first differ the smaller byte comes first, and a prefix before what goes on. */
  ghost predicate Dictionary(a: bytes, b: bytes) {
    || (|a| < |b| && b[..|a|] == a)
    || exists i :: 0 <= i < |a| && i < |b| && Differ(a, b, i) && a[i] < b[i]
  }

  predicate Differ(a: bytes, b: bytes, i: nat)
    requires i < |a| && i < |b|
  {
    a[..i] == b[..i] && a[i] != b[i]
  }

  lemma DifferLater(a: bytes, b: bytes, i: nat)
    requires 0 < i < |a| && i < |b| && a[0] == b[0]
    ensures Differ(a, b, i) <==> Differ(a[1..], b[1..], i - 1)
  {
    assert a[..i] == [a[0]] + a[1..][..i - 1] && b[..i] == [b[0]] + b[1..][..i - 1];
  }

  lemma DictionaryTail(a: bytes, b: bytes)
    requires a != [] && b != [] && a[0] == b[0]
    ensures Dictionary(a, b) <==> Dictionary(a[1..], b[1..])
  {
    var s, t := a[1..], b[1..];
    assert |a| < |b| ==> b[..|a|] == [b[0]] + t[..|s|] && a == [a[0]] + s;
    if i :| 0 <= i < |a| && i < |b| && Differ(a, b, i) && a[i] < b[i] {
      DifferLater(a, b, i);
      assert Differ(s, t, i - 1) && s[i - 1] < t[i - 1];
    }
    if i :| 0 <= i < |s| && i < |t| && Differ(s, t, i) && s[i] < t[i] {
      DifferLater(a, b, i + 1);
      assert a[i + 1] < b[i + 1];
    }
  }

  /** The order of byte strings is that of a dictionary. */
  lemma {:induction false} LexExact(a: bytes, b: bytes)
    ensures Lex(a, b) <==> Dictionary(a, b)
  {
    if a == [] || b == [] {
      assert b != [] && a == [] ==> b[..|a|] == a;
    } else if a[0] == b[0] {
      LexExact(a[1..], b[1..]);
      DictionaryTail(a, b);
    } else {
      assert Differ(a, b, 0);
      assert |a| < |b| ==> b[..|a|][0] == b[0];
      assert forall i :: 0 < i < |a| && i < |b| ==> a[..i][0] == a[0] && b[..i][0] == b[0];
    }
  }

  /** Entries in the order of their scores, and of their keys where the scores are equal. */
  predicate Before(a: Entry, b: Entry) {
    a.score < b.score || (a.score == b.score && Lex(a.key, b.key))
  }

  lemma BeforeTransitive(x: Entry, y: Entry, z: Entry)
    requires Before(x, y) && Before(y, z)
    ensures Before(x, z)
  {
    if Lex(x.key, y.key) && Lex(y.key, z.key) {
      LexTransitive(x.key, y.key, z.key);
    }
  }

  lemma BeforeOneWay(x: Entry, y: Entry)
    ensures !(Before(x, y) && Before(y, x))
  {
    if Before(x, y) && Before(y, x) {
      BeforeTransitive(x, y, x);
      LexIrreflexive(x.key);
    }
  }

  lemma BeforeTotal(x: Entry, y: Entry)
    ensures x == y || Before(x, y) || Before(y, x)
  {
    LexTotal(x.key, y.key);
  }

  lemma BeforeIsOrder()
    ensures StrictOrder(Before)
  {
    forall x: Entry ensures !Before(x, x) {
      LexIrreflexive(x.key);
    }
    forall x: Entry, y: Entry, z: Entry | Before(x, y) && Before(y, z) ensures Before(x, z) {
      BeforeTransitive(x, y, z);
    }
    forall x: Entry, y: Entry ensures x == y || Before(x, y) || Before(y, x) {
      BeforeTotal(x, y);
    }
  }

  /** The order of entries, by the numbers and bytes of it. */
  ghost predicate Precedes(a: Entry, b: Entry) {
    a.score < b.score || (a.score == b.score && Dictionary(a.key, b.key))
  }

  lemma BeforeExact(a: Entry, b: Entry)
    ensures Before(a, b) <==> Precedes(a, b)
  {
    LexExact(a.key, b.key);
  }

  /** Each entry precedes those after it, or those before it. */
  ghost predicate Ordered(s: seq<Entry>, reverse: bool) {
    forall i, j :: 0 <= i < j < |s| ==> if reverse then Precedes(s[j], s[i]) else Precedes(s[i], s[j])
  }

  // ----- sorted lists with one entry for each key -----

  ghost predicate OneEach(s: seq<Entry>) {
    forall i, j :: 0 <= i < j < |s| ==> s[i].key != s[j].key
  }

  /** What a storage keeps. */
  ghost predicate Listed(s: seq<Entry>) {
    Sorted(Before, s) && OneEach(s)
  }

  /** An entry put in before the first one that comes after it. */
  function Put(s: seq<Entry>, e: Entry): seq<Entry> {
    if s == [] || Before(e, s[0]) then [e] + s else [s[0]] + Put(s[1..], e)
  }

  /** The list without a key. */
  function Drop(s: seq<Entry>, key: bytes): seq<Entry> {
    if s == [] then [] else if s[0].key == key then s[1..] else [s[0]] + Drop(s[1..], key)
  }

  ghost predicate Has(s: seq<Entry>, key: bytes) {
    exists i :: 0 <= i < |s| && s[i].key == key
  }

  /** A key's score. */
  function ScoreOf(s: seq<Entry>, key: bytes): Option<Score> {
    if s == [] then None else if s[0].key == key then Some(s[0].score) else ScoreOf(s[1..], key)
  }

  /** The list after a key is given a score; unchanged if it has that score already. */
  function Scored(s: seq<Entry>, key: bytes, score: Score): seq<Entry> {
    if ScoreOf(s, key) == Some(score) then s else Put(Drop(s, key), Entry(key, score))
  }

  lemma {:induction false} ScoreOfAt(s: seq<Entry>, i: nat)
    requires OneEach(s) && i < |s|
    ensures ScoreOf(s, s[i].key) == Some(s[i].score)
  {
    if i > 0 {
      assert s[0].key != s[i].key;
      ScoreOfAt(s[1..], i - 1);
    }
  }

  lemma {:induction false} ScoreOfNone(s: seq<Entry>, key: bytes)
    ensures ScoreOf(s, key) == None <==> !Has(s, key)
  {
    if s != [] {
      ScoreOfNone(s[1..], key);
      assert s[0].key == key ==> Has(s, key);
      assert forall i :: 0 <= i < |s[1..]| ==> s[1..][i] == s[i + 1];
      if Has(s[1..], key) {
        var i :| 0 <= i < |s[1..]| && s[1..][i].key == key;
        assert s[i + 1].key == key;
      }
    }
  }

  lemma {:induction false} PutAt(s: seq<Entry>, e: Entry, c: nat)
    requires c <= |s| && (forall i :: 0 <= i < c ==> !Before(e, s[i])) && (c < |s| ==> Before(e, s[c]))
    ensures Put(s, e) == s[..c] + [e] + s[c..]
  {
    if c > 0 {
      PutAt(s[1..], e, c - 1);
      assert s[1..][..c - 1] + [e] + s[1..][c - 1..] == s[1..c] + [e] + s[c..];
      assert [s[0]] + s[1..c] == s[..c];
    }
  }

  lemma {:induction false} DropAt(s: seq<Entry>, c: nat)
    requires OneEach(s) && c < |s|
    ensures Drop(s, s[c].key) == s[..c] + s[c + 1..]
  {
    if c > 0 {
      assert s[0].key != s[c].key;
      DropAt(s[1..], c - 1);
      assert s[1..][..c - 1] + s[1..][c..] == s[1..c] + s[c + 1..];
      assert [s[0]] + s[1..c] == s[..c];
    }
  }

  lemma {:induction false} DropNone(s: seq<Entry>, key: bytes)
    requires !Has(s, key)
    ensures Drop(s, key) == s
  {
    if s != [] {
      assert s[0].key != key;
      assert forall i :: 0 <= i < |s[1..]| ==> s[1..][i] == s[i + 1];
      DropNone(s[1..], key);
    }
  }

  /** The place where an entry belongs. */
  ghost function Place(s: seq<Entry>, e: Entry): (c: nat)
    ensures c <= |s| && (forall i :: 0 <= i < c ==> !Before(e, s[i])) && (c < |s| ==> Before(e, s[c]))
  {
    if s == [] || Before(e, s[0]) then 0 else 1 + Place(s[1..], e)
  }

  lemma PutListed(s: seq<Entry>, e: Entry)
    requires Listed(s) && !Has(s, e.key)
    ensures Listed(Put(s, e))
  {
    var c := Place(s, e);
    PutAt(s, e, c);
    var t := s[..c] + [e] + s[c..];
    forall i | 0 <= i < c ensures Before(s[i], e) {
      assert s[i].key != e.key;
      BeforeTotal(s[i], e);
    }
    forall i | c <= i < |s| ensures Before(e, s[i]) {
      if i > c {
        BeforeTransitive(e, s[c], s[i]);
      }
    }
    forall i, j | 0 <= i < j < |t| ensures Before(t[i], t[j]) && t[i].key != t[j].key {
      assert t[i] == (if i < c then s[i] else if i == c then e else s[i - 1])
        && t[j] == (if j < c then s[j] else if j == c then e else s[j - 1]);
    }
  }

  lemma CutListed(s: seq<Entry>, c: nat)
    requires Listed(s) && c < |s|
    ensures Listed(s[..c] + s[c + 1..]) && !Has(s[..c] + s[c + 1..], s[c].key)
  {
    var t := s[..c] + s[c + 1..];
    forall i, j | 0 <= i < j < |t| ensures Before(t[i], t[j]) && t[i].key != t[j].key {
      assert t[i] == s[if i < c then i else i + 1] && t[j] == s[if j < c then j else j + 1];
    }
    forall i | 0 <= i < |t| ensures t[i].key != s[c].key {
      assert t[i] == s[if i < c then i else i + 1];
    }
  }

  lemma ListedOrdered(s: seq<Entry>)
    requires Listed(s)
    ensures Ordered(s, false)
  {
    forall i, j | 0 <= i < j < |s| ensures Precedes(s[i], s[j]) {
      BeforeExact(s[i], s[j]);
    }
  }

  lemma RankExact(s: seq<Entry>, rank: nat, i: nat)
    requires Listed(s) && rank < |s| && i < |s|
    ensures i < rank <==> Precedes(s[i], s[rank])
  {
    BeforeExact(s[i], s[rank]);
    if i == rank {
      LexIrreflexive(s[i].key);
    } else if rank < i {
      BeforeOneWay(s[rank], s[i]);
    }
  }

  /** Exactly the entries before it precede the entry at `rank`. */
  ghost predicate RankOf(s: seq<Entry>, rank: nat)
    requires rank < |s|
  {
    forall i :: 0 <= i < |s| ==> (i < rank <==> Precedes(s[i], s[rank]))
  }

  lemma RanksOf(s: seq<Entry>)
    requires Listed(s)
    ensures forall rank :: 0 <= rank < |s| ==> RankOf(s, rank)
  {
    forall rank, i | 0 <= rank < |s| && 0 <= i < |s| ensures i < rank <==> Precedes(s[i], s[rank]) {
      RankExact(s, rank, i);
    }
  }

  // ----- what the skiplist does to the list -----

  lemma SortedAround(now: seq<Entry>, c: nat, i: nat)
    requires Sorted(Before, now) && i < c < |now|
    ensures Before(now[i], now[c]) && !Before(now[c], now[i])
  {
    BeforeOneWay(now[i], now[c]);
  }

  lemma Around(s: seq<Entry>, e: Entry, c: nat, now: seq<Entry>)
    requires c <= |s| && now == s[..c] + [e] + s[c..]
    ensures now[c] == e && (forall i :: 0 <= i < c ==> now[i] == s[i]) && (c < |s| ==> now[c + 1] == s[c])
  {
  }

  lemma InsertedIsPut(s: seq<Entry>, e: Entry, c: nat, now: seq<Entry>)
    requires c <= |s| && now == s[..c] + [e] + s[c..] && Sorted(Before, now)
    ensures now == Put(s, e)
  {
    Around(s, e, c, now);
    forall i | 0 <= i < c ensures !Before(e, s[i]) {
      SortedAround(now, c, i);
    }
    if c < |s| {
      SortedAround(now, c + 1, c);
    }
    PutAt(s, e, c);
  }

  /** An entry changed where it is belongs there. */
  lemma ChangedIsPut(s: seq<Entry>, c: nat, e: Entry)
    requires Listed(s) && c < |s| && s[c].key == e.key
    requires (c == 0 || !Before(e, s[c - 1])) && (c + 1 == |s| || !Before(s[c + 1], e))
    ensures s[c := e] == Put(Drop(s, e.key), e)
  {
    DropAt(s, c);
    var others := s[..c] + s[c + 1..];
    forall i | 0 <= i < c ensures !Before(e, others[i]) {
      NoneBefore(s, c, e, i);
      assert others[i] == s[i];
    }
    if c < |others| {
      assert others[c] == s[c + 1];
      ThenAfter(s, c, e);
    }
    PutAt(others, e, c);
    Changed(s, c, e);
  }

  lemma NoneBefore(s: seq<Entry>, c: nat, e: Entry, i: nat)
    requires Listed(s) && i < c < |s| && !Before(e, s[c - 1])
    ensures !Before(e, s[i])
  {
    if i < c - 1 && Before(e, s[i]) {
      assert Before(s[i], s[c - 1]);
      BeforeTransitive(e, s[i], s[c - 1]);
    }
  }

  lemma ThenAfter(s: seq<Entry>, c: nat, e: Entry)
    requires Listed(s) && c + 1 < |s| && s[c].key == e.key && !Before(s[c + 1], e)
    ensures Before(e, s[c + 1])
  {
    assert s[c + 1].key != s[c].key;
    BeforeTotal(e, s[c + 1]);
  }

  lemma Changed<T>(s: seq<T>, c: nat, e: T)
    requires c < |s|
    ensures var others := s[..c] + s[c + 1..]; others[..c] + [e] + others[c..] == s[c := e]
  {
  }

  /** No other entry equals a rescored one. */
  lemma RescoredIsNew(s: seq<Entry>, c: nat, e: Entry)
    requires OneEach(s) && c < |s| && s[c].key == e.key
    ensures e !in s[..c] + s[c + 1..]
  {
    var others := s[..c] + s[c + 1..];
    forall i | 0 <= i < |others| ensures others[i] != e {
      assert others[i] == s[if i < c then i else i + 1];
    }
  }

  // ----- scores -----

  lemma {:induction false} ScoreOfConcat(a: seq<Entry>, b: seq<Entry>, k: bytes)
    ensures ScoreOf(a + b, k) == if ScoreOf(a, k).Some? then ScoreOf(a, k) else ScoreOf(b, k)
  {
    if a == [] {
      assert a + b == b;
    } else {
      ScoreOfConcat(a[1..], b, k);
      assert (a + b)[1..] == a[1..] + b;
    }
  }

  lemma ScoreOfPut(s: seq<Entry>, e: Entry, k: bytes)
    requires !Has(s, e.key)
    ensures ScoreOf(Put(s, e), k) == if k == e.key then Some(e.score) else ScoreOf(s, k)
  {
    var c := Place(s, e);
    PutAt(s, e, c);
    ScoreOfConcat(s[..c] + [e], s[c..], k);
    ScoreOfConcat(s[..c], [e], k);
    ScoreOfConcat(s[..c], s[c..], k);
    assert s[..c] + s[c..] == s;
    assert ScoreOf([e], k) == if k == e.key then Some(e.score) else None by {
      assert [e][1..] == [];
    }
    if k == e.key {
      ScoreOfNone(s, k);
    }
  }

  /** The score of a key in a list with one entry set apart. */
  lemma ScoreAround(a: seq<Entry>, e: Entry, b: seq<Entry>, k: bytes)
    requires k != e.key
    ensures ScoreOf(a + ([e] + b), k) == ScoreOf(a + b, k)
  {
    ScoreOfConcat(a, b, k);
    ScoreOfConcat(a, [e] + b, k);
    ScoreOfConcat([e], b, k);
    assert [e][1..] == [];
  }

  lemma NoOther(s: seq<Entry>, c: nat)
    requires OneEach(s) && c < |s|
    ensures ScoreOf(s[..c] + s[c + 1..], s[c].key) == None
  {
    var others := s[..c] + s[c + 1..];
    forall i | 0 <= i < |others| ensures others[i].key != s[c].key {
      assert others[i] == s[if i < c then i else i + 1];
    }
    ScoreOfNone(others, s[c].key);
  }

  lemma ScoreOfDrop(s: seq<Entry>, c: nat, k: bytes)
    requires OneEach(s) && c < |s|
    ensures ScoreOf(Drop(s, s[c].key), k) == if k == s[c].key then None else ScoreOf(s, k)
  {
    DropAt(s, c);
    if k == s[c].key {
      NoOther(s, c);
    } else {
      assert s[..c] + ([s[c]] + s[c + 1..]) == s;
      ScoreAround(s[..c], s[c], s[c + 1..], k);
    }
  }

  lemma HasAt(s: seq<Entry>, key: bytes) returns (c: nat)
    requires Has(s, key)
    ensures c < |s| && s[c].key == key
  {
    c :| 0 <= c < |s| && s[c].key == key;
  }

  /** A list loses a key and nothing else. */
  lemma DropExact(s: seq<Entry>, key: bytes, k: bytes)
    requires Listed(s)
    ensures Listed(Drop(s, key)) && ScoreOf(Drop(s, key), k) == if k == key then None else ScoreOf(s, k)
  {
    if Has(s, key) {
      var c := HasAt(s, key);
      DropAt(s, c);
      CutListed(s, c);
      ScoreOfDrop(s, c, k);
    } else {
      DropNone(s, key);
      ScoreOfNone(s, key);
    }
  }

  /** A list gives a key a score and keeps the others, in order. */
  lemma ScoredExact(s: seq<Entry>, key: bytes, score: Score, k: bytes)
    requires Listed(s)
    ensures Listed(Scored(s, key, score))
    ensures ScoreOf(Scored(s, key, score), k) == if k == key then Some(score) else ScoreOf(s, k)
  {
    if ScoreOf(s, key) != Some(score) {
      DropExact(s, key, key);
      DropExact(s, key, k);
      ScoreOfNone(Drop(s, key), key);
      PutListed(Drop(s, key), Entry(key, score));
      ScoreOfPut(Drop(s, key), Entry(key, score), k);
    }
  }

  /** A list is determined by its keys' scores. */
  lemma {:induction false} ListedUnique(s: seq<Entry>, t: seq<Entry>)
    requires Listed(s) && Listed(t) && forall k :: ScoreOf(s, k) == ScoreOf(t, k)
    ensures s == t
  {
    SameEmpty(s, t);
    if s != [] {
      SameFirst(s, t);
      forall k ensures ScoreOf(s[1..], k) == ScoreOf(t[1..], k) {
        TailScores(s, k);
        TailScores(t, k);
      }
      ListedUnique(s[1..], t[1..]);
    }
  }

  lemma SameEmpty(s: seq<Entry>, t: seq<Entry>)
    requires forall k :: ScoreOf(s, k) == ScoreOf(t, k)
    ensures s == [] <==> t == []
  {
    if s != [] {
      assert ScoreOf(s, s[0].key).Some?;
    }
    if t != [] {
      assert ScoreOf(t, t[0].key).Some?;
    }
  }

  lemma TailScores(s: seq<Entry>, k: bytes)
    requires s != [] && OneEach(s)
    ensures ScoreOf(s[1..], k) == if k == s[0].key then None else ScoreOf(s, k)
  {
    if k == s[0].key {
      ScoreOfNone(s[1..], k);
    }
  }

  lemma FirstIsLeast(s: seq<Entry>, k: bytes)
    requires Listed(s) && ScoreOf(s, k).Some?
    ensures Entry(k, ScoreOf(s, k).value) == s[0] || Before(s[0], Entry(k, ScoreOf(s, k).value))
  {
    ScoreOfNone(s, k);
    var c := HasAt(s, k);
    ScoreOfAt(s, c);
    assert s[c] == Entry(k, ScoreOf(s, k).value);
  }

  lemma SameFirst(s: seq<Entry>, t: seq<Entry>)
    requires s != [] && t != [] && Listed(s) && Listed(t) && forall k :: ScoreOf(s, k) == ScoreOf(t, k)
    ensures s[0] == t[0]
  {
    ScoreOfAt(s, 0);
    ScoreOfAt(t, 0);
    FirstIsLeast(s, t[0].key);
    FirstIsLeast(t, s[0].key);
    BeforeOneWay(s[0], t[0]);
  }
}
