/** One table of a chained hash table: what its buckets hold, as a map. */
module HashTable {
  import opened Bytes

  datatype Entry<K, V> = Entry(key: K, val: V, hash: nat)

  type Table<K, V> = seq<seq<Entry<K, V>>>

  function Pow2(e: nat): (p: nat)
    ensures p >= 1
  {
    if e == 0 then 1 else 2 * Pow2(e - 1)
  }

  /** The lowest `e` bits of a hash. */
  function Low(hash: nat, e: nat): (i: nat)
    ensures i < Pow2(e)
  {
    if e == 0 then 0 else 2 * Low(hash / 2, e - 1) + hash % 2
  }

  /** One more bit never makes the number smaller. */
  lemma {:induction false} MoreBits(hash: nat, e: nat, f: nat)
    requires e <= f
    ensures Low(hash, e) <= Low(hash, f)
  {
    if e > 0 {
      MoreBits(hash / 2, e - 1, f - 1);
    }
  }

  /** The number of buckets for a size exponent; -1 stands for no table. */
  /** How many of the buckets from `a` to `b` hold entries. */
  function Full<K, V>(t: Table<K, V>, a: nat, b: nat): (n: nat)
    requires a <= b <= |t|
    ensures n <= b - a
  {
    if a == b then 0 else Full(t, a, b - 1) + if t[b - 1] == [] then 0 else 1
  }

  function TableSize(exp: int): nat {
    if exp < 0 then 0 else Pow2(exp)
  }

  /** The bucket of a hash: the hash masked with the table size less one. */
  function Bucket(hash: nat, exp: int): (i: nat)
    ensures exp >= 0 ==> i < TableSize(exp)
  {
    if exp < 0 then 0 else Low(hash, exp)
  }

  function Get<K, V>(c: map<K, V>, k: K): Option<V> {
    if k in c then Some(c[k]) else None
  }

  // ----- chains -----

  function Find<K(==), V>(chain: seq<Entry<K, V>>, k: K): (v: Option<V>)
    ensures v.Some? <==> exists j :: 0 <= j < |chain| && chain[j].key == k
  {
    if chain == [] then None else if chain[0].key == k then Some(chain[0].val) else Find(chain[1..], k)
  }

  /** No key is in a chain twice. */
  ghost predicate Distinct<K, V>(chain: seq<Entry<K, V>>) {
    forall i, j :: 0 <= i < j < |chain| ==> chain[i].key != chain[j].key
  }

  lemma {:induction false} FindAt<K, V>(chain: seq<Entry<K, V>>, j: nat)
    requires Distinct(chain) && j < |chain|
    ensures Find(chain, chain[j].key) == Some(chain[j].val)
  {
    if j > 0 {
      assert chain[0].key != chain[j].key;
      FindAt(chain[1..], j - 1);
    }
  }

  function Cut<K, V>(chain: seq<Entry<K, V>>, j: nat): seq<Entry<K, V>>
    requires j < |chain|
  {
    chain[..j] + chain[j + 1..]
  }

  lemma CutTail<K, V>(chain: seq<Entry<K, V>>, j: nat)
    requires 0 < j < |chain|
    ensures Cut(chain, j) != [] && Cut(chain, j)[0] == chain[0] && Cut(chain, j)[1..] == Cut(chain[1..], j - 1)
  {
  }

  lemma CutDistinct<K, V>(chain: seq<Entry<K, V>>, j: nat)
    requires Distinct(chain) && j < |chain|
    ensures Distinct(Cut(chain, j))
  {
    var rest := Cut(chain, j);
    assert forall i :: 0 <= i < |rest| ==> rest[i] == chain[if i < j then i else i + 1];
  }

  lemma {:induction false} FindWithout<K, V>(chain: seq<Entry<K, V>>, j: nat, k: K)
    requires Distinct(chain) && j < |chain|
    ensures Find(Cut(chain, j), k) == if k == chain[j].key then None else Find(chain, k)
  {
    if j == 0 {
      assert Cut(chain, 0) == chain[1..];
    } else {
      assert chain[0].key != chain[j].key;
      CutTail(chain, j);
      FindWithout(chain[1..], j - 1, k);
    }
  }

  lemma {:induction false} FindUpdated<K, V>(chain: seq<Entry<K, V>>, j: nat, v: V, k: K)
    requires Distinct(chain) && j < |chain|
    ensures Distinct(chain[j := chain[j].(val := v)])
    ensures Find(chain[j := chain[j].(val := v)], k) == if k == chain[j].key then Some(v) else Find(chain, k)
  {
    var now := chain[j := chain[j].(val := v)];
    if j > 0 {
      assert chain[0].key != chain[j].key;
      FindUpdated(chain[1..], j - 1, v, k);
      assert now[1..] == chain[1..][j - 1 := chain[j].(val := v)];
    }
  }

  lemma {:induction false} FindConcat<K, V>(a: seq<Entry<K, V>>, b: seq<Entry<K, V>>, k: K)
    ensures Find(a + b, k) == if Find(a, k).Some? then Find(a, k) else Find(b, k)
  {
    if a == [] {
      assert a + b == b;
    } else {
      FindConcat(a[1..], b, k);
      assert (a + b)[1..] == a[1..] + b;
    }
  }

  lemma DistinctConcat<K(!new), V>(a: seq<Entry<K, V>>, b: seq<Entry<K, V>>)
    requires Distinct(a) && Distinct(b) && forall k :: Find(a, k) == None || Find(b, k) == None
    ensures Distinct(a + b)
  {
    var all := a + b;
    forall i, j | 0 <= i < j < |all| ensures all[i].key != all[j].key {
      if i < |a| <= j {
        assert all[i] == a[i] && all[j] == b[j - |a|];
        assert Find(a, a[i].key).Some?;
        assert all[i].key == all[j].key ==> Find(b, a[i].key).Some?;
      }
    }
  }

  // ----- tables -----

  /** Every entry of bucket `i` hashes to it, with its hash kept beside the key. */
  ghost predicate Placed<K(!new), V>(chain: seq<Entry<K, V>>, hash: K -> nat, exp: int, i: nat) {
    Distinct(chain) && forall j :: 0 <= j < |chain| ==> chain[j].hash == hash(chain[j].key) && Bucket(chain[j].hash, exp) == i
  }

  function Lookup<K(==), V>(t: Table<K, V>, exp: int, hash: K -> nat, k: K): Option<V>
    requires |t| == TableSize(exp)
  {
    if t == [] then None else Find(t[Bucket(hash(k), exp)], k)
  }

  ghost predicate PlacedIn<K(!new), V>(t: Table<K, V>, exp: int, hash: K -> nat, i: nat) {
    i < |t| ==> Placed(t[i], hash, exp, i)
  }

  ghost predicate Agrees<K(!new), V>(t: Table<K, V>, exp: int, hash: K -> nat, c: map<K, V>, k: K) {
    |t| == TableSize(exp) && Lookup(t, exp, hash, k) == Get(c, k)
  }

  /** The table holds exactly the entries of `c`. */
  ghost predicate Holds<K(!new), V>(t: Table<K, V>, exp: int, hash: K -> nat, c: map<K, V>) {
    |t| == TableSize(exp) && (forall i: nat :: PlacedIn(t, exp, hash, i)) && forall k :: Agrees(t, exp, hash, c, k)
  }

  /** Puts an entry in front of its bucket. */
  function Push<K, V>(t: Table<K, V>, exp: int, e: Entry<K, V>): Table<K, V>
    requires t != [] && |t| == TableSize(exp)
  {
    var i := Bucket(e.hash, exp);
    t[i := [e] + t[i]]
  }

  lemma PushHolds<K(!new), V>(t: Table<K, V>, exp: int, hash: K -> nat, c: map<K, V>, e: Entry<K, V>)
    requires Holds(t, exp, hash, c) && t != [] && e.key !in c && e.hash == hash(e.key)
    ensures Holds(Push(t, exp, e), exp, hash, c[e.key := e.val])
  {
    var now, b := Push(t, exp, e), Bucket(e.hash, exp);
    assert Agrees(t, exp, hash, c, e.key);
    forall i: nat ensures PlacedIn(now, exp, hash, i) {
      assert PlacedIn(t, exp, hash, i);
    }
    var d := c[e.key := e.val];
    forall k ensures Agrees(now, exp, hash, d, k) {
      assert Agrees(t, exp, hash, c, k);
      assert now[b][1..] == t[b];
    }
  }

  lemma HeldAt<K(!new), V>(t: Table<K, V>, exp: int, hash: K -> nat, c: map<K, V>, i: nat, j: nat)
    requires Holds(t, exp, hash, c) && i < |t| && j < |t[i]|
    ensures var e := t[i][j]; e.hash == hash(e.key) && Bucket(e.hash, exp) == i && e.key in c && c[e.key] == e.val
  {
    assert PlacedIn(t, exp, hash, i);
    FindAt(t[i], j);
    assert Agrees(t, exp, hash, c, t[i][j].key);
  }

  lemma WithoutHolds<K(!new), V>(t: Table<K, V>, exp: int, hash: K -> nat, c: map<K, V>, b: nat, j: nat)
    requires Holds(t, exp, hash, c) && b < |t| && j < |t[b]|
    ensures Holds(t[b := Cut(t[b], j)], exp, hash, c - {t[b][j].key})
  {
    var chain, key := t[b], t[b][j].key;
    var rest := Cut(chain, j);
    var now := t[b := rest];
    HeldAt(t, exp, hash, c, b, j);
    assert PlacedIn(t, exp, hash, b);
    forall i: nat ensures PlacedIn(now, exp, hash, i) {
      assert PlacedIn(t, exp, hash, i);
      CutDistinct(chain, j);
    }
    forall k ensures Agrees(now, exp, hash, c - {key}, k) {
      assert Agrees(t, exp, hash, c, k);
      FindWithout(chain, j, k);
    }
  }

  lemma PopHolds<K(!new), V>(t: Table<K, V>, exp: int, hash: K -> nat, c: map<K, V>, b: nat)
    requires Holds(t, exp, hash, c) && b < |t| && t[b] != []
    ensures Holds(t[b := t[b][1..]], exp, hash, c - {t[b][0].key})
  {
    WithoutHolds(t, exp, hash, c, b, 0);
    assert Cut(t[b], 0) == t[b][1..];
  }

  lemma UpdatedHolds<K(!new), V>(t: Table<K, V>, exp: int, hash: K -> nat, c: map<K, V>, b: nat, j: nat, v: V)
    requires Holds(t, exp, hash, c) && b < |t| && j < |t[b]|
    ensures Holds(t[b := t[b][j := t[b][j].(val := v)]], exp, hash, c[t[b][j].key := v])
  {
    var chain, key := t[b], t[b][j].key;
    var next := chain[j := chain[j].(val := v)];
    var now := t[b := next];
    HeldAt(t, exp, hash, c, b, j);
    assert PlacedIn(t, exp, hash, b);
    forall i: nat ensures PlacedIn(now, exp, hash, i) {
      assert PlacedIn(t, exp, hash, i);
      FindUpdated(chain, j, v, key);
    }
    var d := c[key := v];
    forall k ensures Agrees(now, exp, hash, d, k) {
      assert Agrees(t, exp, hash, c, k);
      FindUpdated(chain, j, v, k);
    }
  }

  ghost predicate Bare<K, V>(t: Table<K, V>) {
    forall i :: 0 <= i < |t| ==> t[i] == []
  }

  /** A table is bare exactly if it holds nothing. */
  lemma BareHolds<K(!new), V>(t: Table<K, V>, exp: int, hash: K -> nat, c: map<K, V>)
    requires Holds(t, exp, hash, c)
    ensures Bare(t) <==> c == map[]
  {
    if Bare(t) {
      forall k ensures k !in c {
        assert Agrees(t, exp, hash, c, k);
      }
    } else {
      var i :| 0 <= i < |t| && t[i] != [];
      HeldAt(t, exp, hash, c, i, 0);
    }
  }

  lemma NewHolds<K(!new), V>(t: Table<K, V>, exp: int, hash: K -> nat)
    requires Bare(t) && |t| == TableSize(exp)
    ensures Holds(t, exp, hash, map[])
  {
    forall k ensures Agrees(t, exp, hash, map[], k) {
      assert t != [] ==> Find(t[Bucket(hash(k), exp)], k) == None;
    }
  }

  function BucketAt<K, V>(t: Table<K, V>, cursor: nat): seq<Entry<K, V>> {
    if cursor < |t| then t[cursor] else []
  }

  lemma BucketDistinct<K(!new), V>(t: Table<K, V>, exp: int, hash: K -> nat, c: map<K, V>, cursor: nat)
    requires Holds(t, exp, hash, c)
    ensures Distinct(BucketAt(t, cursor))
  {
    assert PlacedIn(t, exp, hash, cursor);
  }

  /** A bucket holds exactly the table's keys that hash to it. */
  lemma BucketHolds<K(!new), V>(t: Table<K, V>, exp: int, hash: K -> nat, c: map<K, V>, cursor: nat, k: K)
    requires Holds(t, exp, hash, c)
    ensures Find(BucketAt(t, cursor), k) == if k in c && Bucket(hash(k), exp) == cursor then Some(c[k]) else None
  {
    assert Agrees(t, exp, hash, c, k) && PlacedIn(t, exp, hash, cursor);
  }
}
