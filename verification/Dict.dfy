/** The hash table of memory/dict.h: two tables, the second filled bucket by bucket while the first is emptied. */
module Dict {
  import opened Bytes
  import opened HashTable

  /** The most buckets a table can have: an array of 8-byte pointers must be addressable. */
  const MAX_BUCKETS: nat := SIZE_MAX / 8

  /** Which table holds which keys, and the tables' size exponents. */
  datatype Layout<K, V> = Layout(exp0: int, exp1: int, held0: map<K, V>, held1: map<K, V>)

  ghost predicate In<K, V>(l: Layout<K, V>, k: K) {
    k in l.held0 || k in l.held1
  }

  /** The bucket a key is in. */
  ghost function Position<K(!new), V>(hash: K -> nat, l: Layout<K, V>, k: K): nat {
    if k in l.held0 then Bucket(hash(k), l.exp0) else Bucket(hash(k), l.exp1)
  }

  ghost predicate NotLower<K(!new), V>(hash: K -> nat, was: Layout<K, V>, now: Layout<K, V>, k: K) {
    In(was, k) && In(now, k) ==> Position(hash, was, k) <= Position(hash, now, k)
  }

  /** No key that stays moves to a lower bucket. */
  ghost predicate Climbs<K(!new), V>(hash: K -> nat, was: Layout<K, V>, now: Layout<K, V>) {
    forall k :: NotLower(hash, was, now, k)
  }

  lemma ClimbsOn<K(!new), V>(hash: K -> nat, was: Layout<K, V>, mid: Layout<K, V>, now: Layout<K, V>)
    requires Climbs(hash, was, mid) && Climbs(hash, mid, now) && mid.held0 + mid.held1 == now.held0 + now.held1
    ensures Climbs(hash, was, now)
  {
    forall k ensures NotLower(hash, was, now, k) {
      assert NotLower(hash, was, mid, k) && NotLower(hash, mid, now, k);
      assert In(mid, k) <==> k in mid.held0 + mid.held1;
      assert In(now, k) <==> k in now.held0 + now.held1;
    }
  }

  lemma ClimbsFrom<K(!new), V>(hash: K -> nat, was: Layout<K, V>, mid: Layout<K, V>, now: Layout<K, V>)
    requires Climbs(hash, was, mid) && Climbs(hash, mid, now) && was.held0 + was.held1 == mid.held0 + mid.held1
    ensures Climbs(hash, was, now)
  {
    forall k ensures NotLower(hash, was, now, k) {
      assert NotLower(hash, was, mid, k) && NotLower(hash, mid, now, k);
      assert In(was, k) <==> k in was.held0 + was.held1;
      assert In(mid, k) <==> k in mid.held0 + mid.held1;
    }
  }

  lemma ClimbsSelf<K(!new), V>(hash: K -> nat, now: Layout<K, V>)
    ensures Climbs(hash, now, now)
  {
    forall k ensures NotLower(hash, now, now, k) {
    }
  }

  ghost predicate NotBoth<K, V>(c0: map<K, V>, c1: map<K, V>, k: K) {
    k !in c0 || k !in c1
  }

  ghost predicate Apart<K(!new), V>(c0: map<K, V>, c1: map<K, V>) {
    forall k :: NotBoth(c0, c1, k)
  }

  lemma RemoveSize<K, V>(m: map<K, V>, k: K)
    requires k in m
    ensures |m - {k}| == |m| - 1
  {
    assert m == (m - {k})[k := m[k]];
  }

  lemma NothingToDrop<K, V>(m: map<K, V>, k: K)
    requires k !in m
    ensures m - {k} == m
  {
  }

  lemma EmptySize<K, V>(m: map<K, V>)
    ensures |m| == 0 <==> m == map[]
  {
    assert m != map[] ==> exists k :: k in m;
  }

  ghost predicate Split<K(!new), V>(hash: K -> nat, t0: Table<K, V>, e0: int, c0: map<K, V>, u0: nat, t1: Table<K, V>,
      e1: int, c1: map<K, V>, u1: nat) {
    && Holds(t0, e0, hash, c0) && Holds(t1, e1, hash, c1) && Apart(c0, c1)
    && u0 == |c0| && u1 == |c1| && (e0 == -1 || e0 >= 1)
  }

  lemma EmptySplit<K(!new), V>(hash: K -> nat)
    ensures Split<K, V>(hash, [], -1, map[], 0, [], -1, map[], 0)
  {
    NewHolds<K, V>([], -1, hash);
    forall k ensures NotBoth<K, V>(map[], map[], k) {
    }
  }

  lemma MoveContent<K(!new), V>(c0: map<K, V>, c1: map<K, V>, k: K)
    requires Apart(c0, c1) && k in c0
    ensures (c0 - {k}) + c1[k := c0[k]] == c0 + c1 && Apart(c0 - {k}, c1[k := c0[k]]) && k !in c1
  {
    var d0, d1 := c0 - {k}, c1[k := c0[k]];
    assert NotBoth(c0, c1, k);
    forall j ensures NotBoth(d0, d1, j) {
      assert NotBoth(c0, c1, j);
    }
  }

  lemma MoveClimbs<K(!new), V>(hash: K -> nat, e0: int, e1: int, c0: map<K, V>, c1: map<K, V>, k: K)
    requires Apart(c0, c1) && k in c0 && 0 <= e0 <= e1
    ensures Climbs(hash, Layout(e0, e1, c0, c1), Layout(e0, e1, c0 - {k}, c1[k := c0[k]]))
  {
    var was, now := Layout(e0, e1, c0, c1), Layout(e0, e1, c0 - {k}, c1[k := c0[k]]);
    forall j ensures NotLower(hash, was, now, j) {
      MoreBits(hash(k), e0, e1);
    }
  }

  lemma MigrateClimbs<K(!new), V>(hash: K -> nat, e0: int, e1: int, c0: map<K, V>, c1: map<K, V>)
    requires c0 == map[]
    ensures Climbs(hash, Layout(e0, e1, c0, c1), Layout(e1, -1, c1, map[]))
  {
    var was, now := Layout(e0, e1, c0, c1), Layout(e1, -1, c1, map[]);
    forall k ensures NotLower(hash, was, now, k) {
    }
  }

  lemma MigrateSplit<K(!new), V>(hash: K -> nat, t0: Table<K, V>, e0: int, c0: map<K, V>, u0: nat, t1: Table<K, V>,
      e1: int, c1: map<K, V>, u1: nat)
    requires Split(hash, t0, e0, c0, u0, t1, e1, c1, u1) && u0 == 0 && e1 >= 1
    ensures Split(hash, t1, e1, c1, u1, [], -1, map[], 0) && c1 + map[] == c0 + c1
    ensures Climbs(hash, Layout(e0, e1, c0, c1), Layout(e1, -1, c1, map[]))
  {
    EmptySize(c0);
    MigrateClimbs(hash, e0, e1, c0, c1);
    NewHolds<K, V>([], -1, hash);
    forall k ensures NotBoth(c1, map[], k) {
    }
  }

  lemma NextBare<K, V>(t: Table<K, V>, i: nat)
    requires i < |t| && Bare(t[..i]) && t[i] == []
    ensures Bare(t[..i + 1])
  {
    assert t[..i + 1] == t[..i] + [t[i]];
  }

  lemma WholeBare<K, V>(t: Table<K, V>, i: nat)
    requires i <= |t| && Bare(t[..i])
    ensures i == |t| ==> Bare(t)
  {
    assert i == |t| ==> t[..i] == t;
  }

  /** Moving the first entry of a bucket to the other table. */
  lemma MoveSplit<K(!new), V>(hash: K -> nat, t0: Table<K, V>, e0: int, c0: map<K, V>, u0: nat, t1: Table<K, V>,
      e1: int, c1: map<K, V>, u1: nat, i: nat)
    returns (d0: map<K, V>, d1: map<K, V>)
    requires Split(hash, t0, e0, c0, u0, t1, e1, c1, u1) && i < |t0| && t0[i] != [] && 0 <= e0 <= e1
    ensures Bucket(t0[i][0].hash, e0) == i && u0 > 0
    ensures Split(hash, t0[i := t0[i][1..]], e0, d0, u0 - 1, Push(t1, e1, t0[i][0]), e1, d1, u1 + 1)
    ensures d0 + d1 == c0 + c1 && Climbs(hash, Layout(e0, e1, c0, c1), Layout(e0, e1, d0, d1))
  {
    var e := t0[i][0];
    HeldAt(t0, e0, hash, c0, i, 0);
    d0, d1 := c0 - {e.key}, c1[e.key := e.val];
    MoveContent(c0, c1, e.key);
    MoveClimbs(hash, e0, e1, c0, c1, e.key);
    PopHolds(t0, e0, hash, c0, i);
    PushHolds(t1, e1, hash, c1, e);
    RemoveSize(c0, e.key);
  }

  lemma FirstTable<K(!new), V>(hash: K -> nat, t0: Table<K, V>, e0: int, c0: map<K, V>, u0: nat, t1: Table<K, V>,
      e1: int, c1: map<K, V>, u1: nat, bare: Table<K, V>, e: int)
    requires Split(hash, t0, e0, c0, u0, t1, e1, c1, u1) && e0 < 0 && Bare(bare) && |bare| == TableSize(e) && e >= 1
    ensures u0 == 0 && c0 == map[] && Split(hash, bare, e, c0, 0, t1, e1, c1, u1)
  {
    BareHolds(t0, e0, hash, c0);
    NewHolds(bare, e, hash);
    EmptySize(c0);
  }

  lemma ResizeClimbs<K(!new), V>(hash: K -> nat, e0: int, e1: int, c0: map<K, V>, c1: map<K, V>, f0: int, f1: int)
    requires (e0 == f0 || c0 == map[]) && (e1 == f1 || c1 == map[])
    ensures Climbs(hash, Layout(e0, e1, c0, c1), Layout(f0, f1, c0, c1))
  {
    var was, now := Layout(e0, e1, c0, c1), Layout(f0, f1, c0, c1);
    forall k ensures NotLower(hash, was, now, k) {
    }
  }

  lemma SecondTable<K(!new), V>(hash: K -> nat, t0: Table<K, V>, e0: int, c0: map<K, V>, u0: nat, t1: Table<K, V>,
      e1: int, c1: map<K, V>, u1: nat, bare: Table<K, V>, e: int)
    requires Split(hash, t0, e0, c0, u0, t1, e1, c1, u1) && e1 < 0 && Bare(bare) && |bare| == TableSize(e) && e >= 1
    ensures u1 == 0 && c1 == map[] && Split(hash, t0, e0, c0, u0, bare, e, c1, 0)
  {
    BareHolds(t1, e1, hash, c1);
    NewHolds(bare, e, hash);
    EmptySize(c1);
  }

  // ----- adding, changing and removing an entry -----

  lemma PutFirstContent<K(!new), V>(c0: map<K, V>, c1: map<K, V>, k: K, v: V)
    requires Apart(c0, c1) && k !in c1
    ensures var d := c0[k := v]; |d| == (if k in c0 then |c0| else |c0| + 1) && d + c1 == (c0 + c1)[k := v]
  {
  }

  lemma PutFirst<K(!new), V>(hash: K -> nat, e0: int, e1: int, c0: map<K, V>, c1: map<K, V>, k: K, v: V)
      returns (d: map<K, V>)
    requires Apart(c0, c1) && k !in c1
    ensures d == c0[k := v] && |d| == (if k in c0 then |c0| else |c0| + 1) && Apart(d, c1)
      && d + c1 == (c0 + c1)[k := v]
    ensures Climbs(hash, Layout(e0, e1, c0, c1), Layout(e0, e1, d, c1))
  {
    d := c0[k := v];
    PutFirstContent(c0, c1, k, v);
    var was, now := Layout(e0, e1, c0, c1), Layout(e0, e1, d, c1);
    assert NotBoth(c0, c1, k);
    forall j ensures NotBoth(d, c1, j) && NotLower(hash, was, now, j) {
      assert NotBoth(c0, c1, j);
    }
  }

  lemma PutSecondContent<K(!new), V>(c0: map<K, V>, c1: map<K, V>, k: K, v: V)
    requires Apart(c0, c1) && k !in c0
    ensures var d := c1[k := v]; |d| == (if k in c1 then |c1| else |c1| + 1) && c0 + d == (c0 + c1)[k := v]
  {
  }

  lemma PutSecond<K(!new), V>(hash: K -> nat, e0: int, e1: int, c0: map<K, V>, c1: map<K, V>, k: K, v: V)
      returns (d: map<K, V>)
    requires Apart(c0, c1) && k !in c0
    ensures d == c1[k := v] && |d| == (if k in c1 then |c1| else |c1| + 1) && Apart(c0, d)
      && c0 + d == (c0 + c1)[k := v]
    ensures Climbs(hash, Layout(e0, e1, c0, c1), Layout(e0, e1, c0, d))
  {
    d := c1[k := v];
    PutSecondContent(c0, c1, k, v);
    var was, now := Layout(e0, e1, c0, c1), Layout(e0, e1, c0, d);
    assert NotBoth(c0, c1, k);
    forall j ensures NotBoth(c0, d, j) && NotLower(hash, was, now, j) {
      assert NotBoth(c0, c1, j);
    }
  }

  lemma DropFirstContent<K(!new), V>(c0: map<K, V>, c1: map<K, V>, k: K)
    requires Apart(c0, c1) && k in c0
    ensures var d := c0 - {k}; |d| == |c0| - 1 && d + c1 == (c0 + c1) - {k}
  {
    RemoveSize(c0, k);
    assert NotBoth(c0, c1, k);
  }

  lemma DropFirst<K(!new), V>(hash: K -> nat, e0: int, e1: int, c0: map<K, V>, c1: map<K, V>, k: K)
      returns (d: map<K, V>)
    requires Apart(c0, c1) && k in c0
    ensures d == c0 - {k} && |d| == |c0| - 1 && Apart(d, c1) && d + c1 == (c0 + c1) - {k}
    ensures Climbs(hash, Layout(e0, e1, c0, c1), Layout(e0, e1, d, c1))
  {
    d := c0 - {k};
    DropFirstContent(c0, c1, k);
    var was, now := Layout(e0, e1, c0, c1), Layout(e0, e1, d, c1);
    assert NotBoth(c0, c1, k);
    forall j ensures NotBoth(d, c1, j) && NotLower(hash, was, now, j) {
      assert NotBoth(c0, c1, j);
    }
  }

  lemma DropSecondContent<K(!new), V>(c0: map<K, V>, c1: map<K, V>, k: K)
    requires Apart(c0, c1) && k in c1
    ensures var d := c1 - {k}; |d| == |c1| - 1 && c0 + d == (c0 + c1) - {k}
  {
    RemoveSize(c1, k);
    assert NotBoth(c0, c1, k);
  }

  lemma DropSecond<K(!new), V>(hash: K -> nat, e0: int, e1: int, c0: map<K, V>, c1: map<K, V>, k: K)
      returns (d: map<K, V>)
    requires Apart(c0, c1) && k in c1
    ensures d == c1 - {k} && |d| == |c1| - 1 && Apart(c0, d) && c0 + d == (c0 + c1) - {k}
    ensures Climbs(hash, Layout(e0, e1, c0, c1), Layout(e0, e1, c0, d))
  {
    d := c1 - {k};
    DropSecondContent(c0, c1, k);
    var was, now := Layout(e0, e1, c0, c1), Layout(e0, e1, c0, d);
    assert NotBoth(c0, c1, k);
    forall j ensures NotBoth(c0, d, j) && NotLower(hash, was, now, j) {
      assert NotBoth(c0, c1, j);
    }
  }

  // ----- sizes -----

  lemma {:induction false} Pow2Grows(a: nat, b: nat)
    requires a < b
    ensures Pow2(a) < Pow2(b)
  {
    if a + 1 < b {
      Pow2Grows(a, b - 1);
    }
  }

  /** The exponent of the smallest table, of at least two buckets, with `size` buckets. */
  method NextExp(size: nat) returns (e: int)
    ensures e == -1 ==> size > SIZE_MAX / 2
    ensures e == -1 || (e >= 1 && Pow2(e) >= size && (e == 1 || Pow2(e - 1) < size))
  {
    e := 1;
    var tableSize := 2;
    while tableSize < size
      invariant e >= 1 && tableSize == Pow2(e) && (e == 1 || Pow2(e - 1) < size)
      decreases size - tableSize
    {
      if tableSize > SIZE_MAX / 2 {
        return -1;
      }
      tableSize := tableSize * 2;
      e := e + 1;
    }
  }

  /** `e` is the exponent `NextExp` gives, and its table can be allocated. */
  ghost predicate Smallest(size: nat, e: int) {
    e >= 1 && size <= Pow2(e) <= MAX_BUCKETS && (e == 1 || Pow2(e - 1) < size)
  }

  lemma OnlySmallest(size: nat, e: int)
    requires e == -1 ==> size > SIZE_MAX / 2
    requires e == -1 || (e >= 1 && Pow2(e) >= size && (e == 1 || Pow2(e - 1) < size))
    ensures forall f :: Smallest(size, f) ==> f == e
  {
    forall f | Smallest(size, f) ensures f == e {
      if 1 <= f < e {
        SmallerFails(size, f, e);
      } else if 1 <= e < f {
        SmallerFails(size, e, f);
      }
    }
  }

  lemma SmallerFails(size: nat, f: nat, e: nat)
    requires 1 <= f < e && Pow2(e - 1) < size
    ensures Pow2(f) < size
  {
    if f < e - 1 {
      Pow2Grows(f, e - 1);
    }
  }

  /** One more than twice a table's size asks for a table four times as large. */
  lemma FourTimes(x: nat, e: nat)
    requires x >= 1 && e >= 1 && Pow2(e) >= 2 * Pow2(x) + 1 && (e == 1 || Pow2(e - 1) < 2 * Pow2(x) + 1)
    ensures e == x + 2
  {
    var size := 2 * Pow2(x) + 1;
    assert Pow2(x + 1) == 2 * Pow2(x) && Pow2(x + 2) == 2 * Pow2(x + 1);
    if e < x + 2 {
      SmallerFails(size, e, x + 2);
    } else if e > x + 2 {
      SmallerFails(size, x + 2, e);
    }
  }

  lemma UnionSize<T>(a: set<T>, b: set<T>)
    requires forall x :: x in a ==> x !in b
    ensures |a + b| == |a| + |b|
  {
    assert a * b == {};
  }

  /** The size of the content is the sum of the tables' counts. */
  lemma ContentSize<K(!new), V>(c0: map<K, V>, c1: map<K, V>)
    requires Apart(c0, c1)
    ensures |c0 + c1| == |c0| + |c1|
  {
    var a, b := c0.Keys, c1.Keys;
    forall k | k in a ensures k !in b {
      assert NotBoth(c0, c1, k);
    }
    UnionSize(a, b);
    assert (c0 + c1).Keys == a + b;
  }

  /**
   * Before a table of size `4 s` replaces one of size `s`, three entries a bucket of the old one are at most
   * one a bucket of the new.
   */
  lemma FourSizes(e: nat)
    ensures Pow2(e + 2) == 4 * Pow2(e)
  {
  }

  /** A first table always fits; a full table of size `s` asks for one of size `4 s`. */
  lemma CanExpand(e0: int, used: nat, size: nat)
    requires (e0 == -1 || e0 >= 1) && size == used + 1
    ensures e0 < 0 && used == 0 ==> Smallest(size, 1)
    ensures e0 >= 1 && used == 2 * Pow2(e0) && 4 * Pow2(e0) <= MAX_BUCKETS ==> Smallest(size, e0 + 2)
    ensures e0 >= 1 && used == 2 * Pow2(e0) ==> forall e :: Smallest(size, e) ==> e == e0 + 2
  {
    if e0 >= 1 {
      FourSizes(e0);
      if used == 2 * Pow2(e0) {
        forall e | Smallest(size, e) ensures e == e0 + 2 {
          FourTimes(e0, e);
        }
      }
    }
  }

  // ----- looking a key up -----

  /** The place of an entry: in which table, which bucket, and where in its chain. */
  datatype Place = Place(second: bool, bucket: nat, at: nat)

  /** Walks a chain until an entry with the hash and the key. */
  method FindIn<K(==), V>(chain: seq<Entry<K, V>>, key: K, h: nat) returns (j: Option<nat>)
    requires forall i :: 0 <= i < |chain| && chain[i].key == key ==> chain[i].hash == h
    ensures j.Some? ==> j.value < |chain| && chain[j.value].key == key
    ensures j.None? ==> Find(chain, key) == None
  {
    for i := 0 to |chain|
      invariant forall l :: 0 <= l < i ==> chain[l].key != key
    {
      if chain[i].hash == h && chain[i].key == key {
        return Some(i);
      }
    }
    return None;
  }

  /** The chain a key would be in holds it exactly if the table does. */
  lemma ChainDecides<K(!new), V>(t: Table<K, V>, exp: int, hash: K -> nat, c: map<K, V>, k: K)
    requires Holds(t, exp, hash, c)
    ensures t == [] ==> k !in c
    ensures t != [] ==> exp >= 0 && (Find(t[Bucket(hash(k), exp)], k) == None <==> k !in c)
    ensures t != [] ==> forall i :: 0 <= i < |t[Bucket(hash(k), exp)]| && t[Bucket(hash(k), exp)][i].key == k ==> t[Bucket(hash(k), exp)][i].hash == hash(k)
  {
    assert Agrees(t, exp, hash, c, k);
    assert PlacedIn(t, exp, hash, Bucket(hash(k), exp));
  }

  /** The operations of the table, and what they make of a map. */
  datatype Op<K, V> = Get(key: K) | Set(key: K, val: V) | Insert(key: K, val: V) | Delete(key: K)

  ghost function Apply<K, V>(c: map<K, V>, op: Op<K, V>): map<K, V> {
    match op
    case Get(_) => c
    case Set(k, v) => c[k := v]
    case Insert(k, v) => if k in c then c else c[k := v]
    case Delete(k) => c - {k}
  }

  ghost function ApplyAll<K, V>(c: map<K, V>, ops: seq<Op<K, V>>): map<K, V>
    decreases |ops|
  {
    if ops == [] then c else ApplyAll(Apply(c, ops[0]), ops[1..])
  }

  /** What an operation reports: the value it found, if any. */
  ghost function Report<K, V>(c: map<K, V>, op: Op<K, V>): Option<V> {
    if op.key in c then Some(c[op.key]) else None
  }

  // ----- scanning -----

  /** A bucket visit sees exactly the keys whose bucket it is, with their values. */
  ghost predicate Scanned<K(!new), V>(hash: K -> nat, l: Layout<K, V>, cursor: nat, seen: seq<Entry<K, V>>, k: K) {
    Find(seen, k) == if In(l, k) && Position(hash, l, k) == cursor then HashTable.Get(l.held0 + l.held1, k) else None
  }

  /** Buckets `a` to `b` are as many as `n` full ones, or ten times as many empty ones, allow. */
  ghost predicate UsedUp<K, V>(t: Table<K, V>, a: nat, b: nat, n: nat) {
    a <= b <= |t| &&
    var full := Full(t, a, b);
    var empty := b - a - full;
    full <= n && empty <= 10 * n && (full == n || empty == 10 * n)
  }

  /** A rehash that began at `first` has come to `i`, with so many full and empty buckets still to pass. */
  ghost predicate Passed<K, V>(was: Table<K, V>, now: Table<K, V>, first: nat, i: nat, n: nat, left: int, empty: int) {
    && first <= i <= |was| == |now| && now[i..] == was[i..]
    && left == n - Full(was, first, i) && empty == 10 * n - (i - first - Full(was, first, i))
  }

  lemma PassedOn<K, V>(was: Table<K, V>, now: Table<K, V>, first: nat, i: nat, n: nat, left: int, empty: int)
    requires Passed(was, now, first, i, n, left, empty) && i < |now|
    ensures var full := now[i] != [];
      Passed(was, now[i := []], first, i + 1, n, if full then left - 1 else left, if full then empty else empty - 1)
  {
    assert now[i] == now[i..][0] && was[i] == was[i..][0];
    assert now[i := []][i + 1..] == now[i..][1..] && was[i + 1..] == was[i..][1..];
  }

  class Dict<K(==, !new), V> {
    const hash: K -> nat
    var table0: Table<K, V>
    var table1: Table<K, V>
    var used0: nat
    var used1: nat
    var exp0: int
    var exp1: int
    var rehashIdx: Option<nat>
    var pause: nat
    ghost var held0: map<K, V>
    ghost var held1: map<K, V>

    ghost predicate Tables()
      reads this
    {
      Split(hash, table0, exp0, held0, used0, table1, exp1, held1, used1)
    }

    /** Outside a rehash there is no second table; during one the buckets below the index are empty. */
    ghost predicate Phase()
      reads this
    {
      match rehashIdx
      case None => exp1 == -1
      case Some(i) => 1 <= exp0 < exp1 && i <= |table0| && Bare(table0[..i])
    }

    ghost predicate Valid()
      reads this
    {
      Tables() && Phase()
    }

    ghost function Content(): map<K, V>
      reads this
    {
      held0 + held1
    }

    ghost function Where(): Layout<K, V>
      reads this
    {
      Layout(exp0, exp1, held0, held1)
    }

    /** No tables yet. */
    constructor (hash: K -> nat)
      ensures Valid() && Content() == map[] && this.hash == hash && rehashIdx.None? && exp0 == -1 && pause == 0
        && Bounded()
    {
      this.hash := hash;
      table0, used0, exp0 := [], 0, -1;
      table1, used1, exp1 := [], 0, -1;
      rehashIdx, pause := None, 0;
      held0, held1 := map[], map[];
      new;
      EmptySplit<K, V>(hash);
    }

    /** Moves the first entry of a bucket to the second table. */
    method MoveFirst(i: nat)
      requires Tables() && i < |table0| && table0[i] != [] && 0 <= exp0 <= exp1
      modifies `table0, `table1, `used0, `used1, `held0, `held1
      ensures Tables() && Content() == old(Content()) && Climbs(hash, old(Where()), Where())
      ensures table0 == old(table0)[i := old(table0)[i][1..]] && |table1| == old(|table1|)
    {
      var e := table0[i][0];
      ghost var d0, d1 := MoveSplit(hash, table0, exp0, held0, used0, table1, exp1, held1, used1, i);
      var b := Bucket(e.hash, exp0);
      table0, used0 := table0[b := table0[b][1..]], used0 - 1;
      table1, used1 := Push(table1, exp1, e), used1 + 1;
      held0, held1 := d0, d1;
    }

    /** Moves a whole bucket to the second table. */
    method MoveBucket(i: nat)
      requires Tables() && i < |table0| && 0 <= exp0 <= exp1
      modifies `table0, `table1, `used0, `used1, `held0, `held1
      ensures Tables() && Content() == old(Content()) && Climbs(hash, old(Where()), Where())
      ensures table0 == old(table0)[i := []]
    {
      ghost var was, at := table0, Where();
      while table0[i] != []
        invariant Tables() && Content() == old(Content()) && Climbs(hash, at, Where())
        invariant i < |table0| && table0 == was[i := table0[i]]
        decreases |table0[i]|
      {
        ghost var before := Where();
        MoveFirst(i);
        ClimbsOn(hash, at, before, Where());
      }
    }

    /** Makes the second table the first once the first is empty. */
    method MigrateRehashedTable()
      requires Tables() && rehashIdx.Some? && used0 == 0 && exp1 >= 1
      modifies this
      ensures Valid() && rehashIdx.None? && Content() == old(Content()) && Climbs(hash, old(Where()), Where())
      ensures exp0 == old(exp1) && used0 == old(used1) && pause == old(pause)
    {
      MigrateSplit(hash, table0, exp0, held0, used0, table1, exp1, held1, used1);
      table0, exp0, used0, held0 := table1, exp1, used1, held1;
      table1, exp1, used1, held1, rehashIdx := [], -1, 0, map[], None;
    }

    /** A bucket is left to move while the first table holds entries. */
    lemma BucketsLeft()
      requires Valid() && rehashIdx.Some? && used0 > 0
      ensures rehashIdx.value < |table0|
    {
      EmptySize(held0);
      BareHolds(table0, exp0, hash, held0);
      WholeBare(table0, rehashIdx.value);
    }

    /** Moves the bucket at the rehash index, unless it is empty, and advances the index. */
    method PassBucket() returns (moved: bool)
      requires Valid() && rehashIdx.Some? && rehashIdx.value < |table0|
      modifies this
      ensures Valid() && rehashIdx == Some(old(rehashIdx.value) + 1) && Content() == old(Content())
        && Climbs(hash, old(Where()), Where())
      ensures exp0 == old(exp0) && exp1 == old(exp1) && pause == old(pause)
      ensures table0 == old(table0[rehashIdx.value := []]) && moved == (old(table0[rehashIdx.value]) != [])
    {
      var i := rehashIdx.value;
      moved := table0[i] != [];
      ghost var was := table0;
      MoveBucket(i);
      assert table0[..i] == was[..i];
      NextBare(table0, i);
      rehashIdx := Some(i + 1);
    }

    /** Moves at most `n` buckets, passing at most `10 n` empty ones. */
    method PassBuckets(n: nat)
      requires Valid() && rehashIdx.Some?
      modifies this
      ensures Valid() && Content() == old(Content()) && Climbs(hash, old(Where()), Where()) && pause == old(pause)
      ensures exp0 == old(exp0) && exp1 == old(exp1) && rehashIdx.Some? && old(rehashIdx.value) <= rehashIdx.value
      ensures used0 > 0 ==> UsedUp(old(table0), old(rehashIdx.value), rehashIdx.value, n)
    {
      var left, emptyVisits, size := n, n * 10, TableSize(exp0);
      ghost var at, first, was := Where(), rehashIdx.value, table0;
      ClimbsSelf(hash, Where());
      while left > 0 && rehashIdx.value < size && used0 > 0 && emptyVisits > 0
        invariant Valid() && rehashIdx.Some? && Content() == old(Content()) && Climbs(hash, at, Where())
        invariant exp0 == old(exp0) && exp1 == old(exp1) && pause == old(pause) && left >= 0 && emptyVisits >= 0
        invariant Passed(was, table0, first, rehashIdx.value, n, left, emptyVisits)
        decreases size - rehashIdx.value
      {
        ghost var before := Where();
        PassedOn(was, table0, first, rehashIdx.value, n, left, emptyVisits);
        var moved := PassBucket();
        ClimbsOn(hash, at, before, Where());
        if moved {
          left := left - 1;
        } else {
          emptyVisits := emptyVisits - 1;
        }
      }
      if used0 > 0 {
        BucketsLeft();
      }
    }

    /** Moves some buckets, and finishes the rehash when nothing is left. */
    method Rehash(n: nat) returns (more: bool)
      requires Valid()
      modifies this
      ensures Valid() && Content() == old(Content()) && Climbs(hash, old(Where()), Where()) && pause == old(pause)
      ensures more <==> rehashIdx.Some?
      ensures more ==> old(rehashIdx).Some? && exp0 == old(exp0) && exp1 == old(exp1)
      ensures more ==> UsedUp(old(table0), old(rehashIdx.value), rehashIdx.value, n)
      ensures rehashIdx.Some? && n > 0 ==> old(rehashIdx.value) < rehashIdx.value < TableSize(exp0)
      ensures rehashIdx.None? ==> exp0 == old(if rehashIdx.Some? then exp1 else exp0)
      ensures old(rehashIdx).None? ==> used0 == old(used0)
    {
      if rehashIdx.None? {
        ClimbsSelf(hash, Where());
        return false;
      }
      ghost var at := Where();
      PassBuckets(n);
      if used0 == 0 {
        ghost var before := Where();
        MigrateRehashedTable();
        ClimbsOn(hash, at, before, Where());
        return false;
      }
      BucketsLeft();
      return true;
    }

    /**
     * Entries stay within twice the table's size, plus the buckets moved while a table four times as large is
     * filled.
     */
    ghost predicate Bounded()
      reads this
    {
      match rehashIdx
      case None => used0 <= 2 * TableSize(exp0)
      case Some(i) => exp0 >= 1 && exp1 == exp0 + 2 && used0 + used1 <= 2 * TableSize(exp0) + i
    }

    /** Bounded, with room for one more entry. */
    ghost predicate Roomy()
      reads this
    {
      match rehashIdx
      case None => used0 < 2 * TableSize(exp0)
      case Some(i) => exp0 >= 1 && exp1 == exp0 + 2 && used0 + used1 < 2 * TableSize(exp0) + i
    }

    lemma NoEntries()
      requires Valid()
      ensures exp0 < 0 ==> used0 == 0 && held0 == map[]
      ensures rehashIdx.None? ==> used1 == 0 && held1 == map[]
    {
      BareHolds(table0, exp0, hash, held0);
      BareHolds(table1, exp1, hash, held1);
      EmptySize(held0);
      EmptySize(held1);
    }

    /** A step that leaves fewer buckets, or finishes into a table four times as large, makes room. */
    lemma StepMakesRoom(e0: nat, e1: int, i: nat, total: nat)
      requires Valid() && e0 >= 1 && e1 == e0 + 2 && i <= TableSize(e0) && total <= 2 * TableSize(e0) + i
        && |Content()| == total
      requires match rehashIdx case None => exp0 == e1 case Some(j) => exp0 == e0 && exp1 == e1 && j > i
      ensures Roomy()
    {
      NoEntries();
      ContentSize(held0, held1);
      FourSizes(e0);
    }

    /** One step of a rehash in progress. */
    method RehashStepIfNeeded()
      requires Valid()
      modifies this
      ensures Valid() && Content() == old(Content()) && Climbs(hash, old(Where()), Where()) && pause == old(pause)
      ensures rehashIdx.Some? ==> old(rehashIdx).Some? && exp0 == old(exp0) && exp1 == old(exp1)
      ensures rehashIdx.Some? && pause == 0 ==> old(rehashIdx.value) < rehashIdx.value < TableSize(exp0)
      ensures pause > 0 ==> rehashIdx == old(rehashIdx)
      ensures rehashIdx.None? ==> exp0 == old(if rehashIdx.Some? then exp1 else exp0)
      ensures old(Roomy()) && pause == 0 ==> Roomy()
      ensures old(Bounded()) && old(rehashIdx).Some? && pause == 0 ==> Roomy()
      ensures old(Bounded()) && old(rehashIdx).None? ==> Bounded()
    {
      if pause == 0 {
        ContentSize(held0, held1);
        ghost var i, e0, e1, b := rehashIdx, exp0, exp1, Bounded();
        var more := Rehash(1);
        if i.Some? && b {
          StepMakesRoom(e0, e1, i.value, old(used0 + used1));
        }
      } else {
        ClimbsSelf(hash, Where());
      }
    }

    /** Allocates a larger table: the first one, or a second one to rehash into. */
    method Expand(size: nat) returns (done: bool)
      requires Valid()
      modifies this
      ensures Valid() && held0 == old(held0) && held1 == old(held1) && used0 == old(used0) && used1 == old(used1)
        && pause == old(pause)
      ensures !done ==> rehashIdx == old(rehashIdx) && exp0 == old(exp0) && exp1 == old(exp1)
      ensures done ==> old(rehashIdx).None? && size >= used0
      ensures done && old(exp0) < 0 ==> rehashIdx.None? && Smallest(size, exp0)
      ensures done && old(exp0) >= 0 ==> rehashIdx == Some(0) && exp0 == old(exp0) < exp1 && Smallest(size, exp1)
      ensures Climbs(hash, old(Where()), Where())
      ensures old(rehashIdx).None? && size >= used0 && (exists e :: Smallest(size, e) && e > old(exp0)) ==> done
    {
      ClimbsSelf(hash, Where());
      if rehashIdx.Some? || size < used0 {
        return false;
      }
      var e := NextExp(size);
      if e < 0 || e <= exp0 {
        OnlySmallest(size, e);
        return false;
      }
      var newSize := TableSize(e);
      if newSize < size || newSize > MAX_BUCKETS {
        OnlySmallest(size, e);
        return false;
      }
      Allocate(e);
      return true;
    }

    /** A new table of size `2^e`: the first, or the one to rehash into. */
    method Allocate(e: nat)
      requires Valid() && rehashIdx.None? && e >= 1 && e > exp0
      modifies this
      ensures Valid() && held0 == old(held0) && held1 == old(held1) && used0 == old(used0) && used1 == old(used1)
        && pause == old(pause)
      ensures old(exp0) < 0 ==> rehashIdx.None? && exp0 == e
      ensures old(exp0) >= 0 ==> rehashIdx == Some(0) && exp0 == old(exp0) && exp1 == e
      ensures Climbs(hash, old(Where()), Where())
    {
      var bare := seq(TableSize(e), _ => []);
      if exp0 < 0 {
        FirstTable(hash, table0, exp0, held0, used0, table1, exp1, held1, used1, bare, e);
        ResizeClimbs(hash, exp0, exp1, held0, held1, e, exp1);
        table0, exp0, used0, rehashIdx := bare, e, 0, None;
      } else {
        SecondTable(hash, table0, exp0, held0, used0, table1, exp1, held1, used1, bare, e);
        ResizeClimbs(hash, exp0, exp1, held0, held1, exp0, e);
        table1, exp1, used1, rehashIdx := bare, e, 0, Some(0);
      }
    }

    ghost predicate At(key: K, place: Place)
      requires Tables()
      reads this
    {
      var t := if place.second then table1 else table0;
      && place.bucket < |t| && place.at < |t[place.bucket]| && t[place.bucket][place.at].key == key
    }

    /** Looks in the first table and, during a rehash, in the second. */
    method Locate(key: K) returns (place: Option<Place>)
      requires Valid()
      ensures place.Some? ==> At(key, place.value)
      ensures place.None? ==> key !in Content()
    {
      var h, i := hash(key), 0;
      ChainDecides(table0, exp0, hash, held0, key);
      ChainDecides(table1, exp1, hash, held1, key);
      while i < 2
        invariant 0 <= i <= 2 && (i >= 1 ==> key !in held0) && (i == 2 ==> key !in held1)
      {
        var t, exp := if i == 0 then table0 else table1, if i == 0 then exp0 else exp1;
        if t != [] {
          var b := Bucket(h, exp);
          var j := FindIn(t[b], key, h);
          if j.Some? {
            return Some(Place(i == 1, b, j.value));
          }
        }
        if rehashIdx.None? {
          break;
        }
        i := i + 1;
      }
      return None;
    }

    /** Starts a rehash when the table holds two entries a bucket; makes sure there is a table. */
    method ExpandIfNeeded()
      requires Valid()
      modifies this
      ensures Valid() && held0 == old(held0) && held1 == old(held1) && Climbs(hash, old(Where()), Where())
        && pause == old(pause) && exp0 >= 1
      ensures old(rehashIdx).Some? ==> rehashIdx == old(rehashIdx) && exp0 == old(exp0) && exp1 == old(exp1)
      ensures old(Bounded()) && 4 * old(TableSize(exp0)) <= MAX_BUCKETS ==> Bounded() && (rehashIdx.Some? || Roomy())
      ensures old(exp0) >= 0 && used0 < 2 * TableSize(old(exp0)) ==>
        rehashIdx == old(rehashIdx) && exp0 == old(exp0) && exp1 == old(exp1)
    {
      var size := TableSize(exp0);
      if size == 0 || used0 >= 2 * size {
        NoEntries();
        ghost var e0 := exp0;
        var want := used0 + 1;
        CanExpand(e0, used0, want);
        var done := Expand(want);
      } else {
        ClimbsSelf(hash, Where());
      }
    }

    // ----- operations -----

    method PushFirst(e: Entry<K, V>)
      requires Valid() && rehashIdx.None? && e.key !in held0 && e.key !in held1 && e.hash == hash(e.key) && exp0 >= 1
      modifies `table0, `used0, `held0
      ensures Valid() && Content() == old(Content())[e.key := e.val] && Climbs(hash, old(Where()), Where())
        && used0 == old(used0) + 1
    {
      PushHolds(table0, exp0, hash, held0, e);
      ghost var d := PutFirst(hash, exp0, exp1, held0, held1, e.key, e.val);
      table0, used0, held0 := Push(table0, exp0, e), used0 + 1, d;
    }

    method PushSecond(e: Entry<K, V>)
      requires Valid() && rehashIdx.Some? && e.key !in held0 && e.key !in held1 && e.hash == hash(e.key)
      modifies `table1, `used1, `held1
      ensures Valid() && Content() == old(Content())[e.key := e.val] && Climbs(hash, old(Where()), Where())
        && used1 == old(used1) + 1
    {
      PushHolds(table1, exp1, hash, held1, e);
      ghost var d := PutSecond(hash, exp0, exp1, held0, held1, e.key, e.val);
      table1, used1, held1 := Push(table1, exp1, e), used1 + 1, d;
    }

    /** Adds an entry in front of its chain, in the second table during a rehash. */
    method InsertEntry(key: K, val: V)
      requires Valid() && key !in Content() && exp0 >= 1
      modifies `table0, `used0, `held0, `table1, `used1, `held1
      ensures Valid() && Content() == old(Content())[key := val] && Climbs(hash, old(Where()), Where())
      ensures used0 + used1 == old(used0 + used1) + 1 && (rehashIdx.None? ==> used0 == old(used0) + 1)
    {
      var e := Entry(key, val, hash(key));
      if rehashIdx.Some? {
        PushSecond(e);
      } else {
        PushFirst(e);
      }
    }

    /** Changes the value of the entry at a place. */
    method SetVal(place: Place, key: K, val: V)
      requires Valid() && At(key, place)
      modifies `table0, `held0, `table1, `held1
      ensures Valid() && key in old(Content()) && Content() == old(Content())[key := val]
        && Climbs(hash, old(Where()), Where())
    {
      var b, j := place.bucket, place.at;
      if place.second {
        HeldAt(table1, exp1, hash, held1, b, j);
        UpdatedHolds(table1, exp1, hash, held1, b, j, val);
        assert NotBoth(held0, held1, key);
        ghost var d := PutSecond(hash, exp0, exp1, held0, held1, key, val);
        table1, held1 := table1[b := table1[b][j := table1[b][j].(val := val)]], d;
      } else {
        HeldAt(table0, exp0, hash, held0, b, j);
        UpdatedHolds(table0, exp0, hash, held0, b, j, val);
        assert NotBoth(held0, held1, key);
        ghost var d := PutFirst(hash, exp0, exp1, held0, held1, key, val);
        table0, held0 := table0[b := table0[b][j := table0[b][j].(val := val)]], d;
      }
    }

    method CutFirst(b: nat, j: nat, key: K)
      requires Valid() && b < |table0| && j < |table0[b]| && table0[b][j].key == key
      modifies `table0, `used0, `held0
      ensures Valid() && key in old(Content()) && old(table0)[b][j].val == old(Content())[key]
      ensures Content() == old(Content()) - {key} && Climbs(hash, old(Where()), Where()) && used0 < old(used0)
    {
      HeldAt(table0, exp0, hash, held0, b, j);
      WithoutHolds(table0, exp0, hash, held0, b, j);
      assert NotBoth(held0, held1, key);
      ghost var d := DropFirst(hash, exp0, exp1, held0, held1, key);
      table0, used0, held0 := table0[b := Cut(table0[b], j)], used0 - 1, d;
    }

    method CutSecond(b: nat, j: nat, key: K)
      requires Valid() && b < |table1| && j < |table1[b]| && table1[b][j].key == key
      modifies `table1, `used1, `held1
      ensures Valid() && key in old(Content()) && old(table1)[b][j].val == old(Content())[key]
      ensures Content() == old(Content()) - {key} && Climbs(hash, old(Where()), Where()) && used1 < old(used1)
    {
      HeldAt(table1, exp1, hash, held1, b, j);
      WithoutHolds(table1, exp1, hash, held1, b, j);
      ghost var d := DropSecond(hash, exp0, exp1, held0, held1, key);
      table1, used1, held1 := table1[b := Cut(table1[b], j)], used1 - 1, d;
    }

    /** Takes the entry at a place out of its chain. */
    method UnlinkEntry(place: Place, key: K) returns (val: V)
      requires Valid() && At(key, place)
      modifies `table0, `used0, `held0, `table1, `used1, `held1
      ensures Valid() && key in old(Content()) && val == old(Content())[key] && Content() == old(Content()) - {key}
        && Climbs(hash, old(Where()), Where())
      ensures used0 <= old(used0) && used1 <= old(used1)
    {
      if place.second {
        val := table1[place.bucket][place.at].val;
        CutSecond(place.bucket, place.at, key);
      } else {
        val := table0[place.bucket][place.at].val;
        CutFirst(place.bucket, place.at, key);
      }
    }

    /** The value of the entry at a place. */
    method ValueAt(place: Place, key: K) returns (val: V)
      requires Valid() && At(key, place)
      ensures key in Content() && val == Content()[key]
    {
      var b, j := place.bucket, place.at;
      if place.second {
        HeldAt(table1, exp1, hash, held1, b, j);
        val := table1[b][j].val;
      } else {
        HeldAt(table0, exp0, hash, held0, b, j);
        assert NotBoth(held0, held1, key);
        val := table0[b][j].val;
      }
    }

    /** Every operation starts with one step of a rehash in progress, and an insertion first makes room. */
    method Prepare(insert: bool)
      requires Valid()
      modifies this
      ensures Valid() && Content() == old(Content()) && Climbs(hash, old(Where()), Where()) && pause == old(pause)
        && (insert ==> exp0 >= 1)
      ensures old(pause) == 0 && old(rehashIdx).Some? && rehashIdx.Some? ==>
        old(rehashIdx.value) < rehashIdx.value < TableSize(exp0) && exp0 == old(exp0)
      ensures !insert && old(rehashIdx).None? ==> rehashIdx.None?
      ensures old(Bounded()) && old(pause) == 0 && 4 * old(TableSize(exp0)) <= MAX_BUCKETS ==>
        Bounded() && (insert ==> Roomy())
    {
      ghost var at := Where();
      if insert {
        ExpandIfNeeded();
      } else {
        ClimbsSelf(hash, at);
      }
      ghost var mid := Where();
      RehashStepIfNeeded();
      ClimbsOn(hash, at, mid, Where());
    }

    /** The value of a key. */
    method Lookup(key: K) returns (val: Option<V>)
      requires Valid()
      modifies this
      ensures Valid() && Content() == old(Content()) && Climbs(hash, old(Where()), Where()) && pause == old(pause)
      ensures val == Report(old(Content()), Get(key))
      ensures old(pause) == 0 && old(rehashIdx).Some? && rehashIdx.Some? ==>
        old(rehashIdx.value) < rehashIdx.value < TableSize(exp0) && exp0 == old(exp0)
      ensures old(Bounded()) && old(pause) == 0 && 4 * old(TableSize(exp0)) <= MAX_BUCKETS ==> Bounded()
    {
      Prepare(false);
      var place := Locate(key);
      if place.None? {
        return None;
      }
      var v := ValueAt(place.value, key);
      return Some(v);
    }

    method StoreHere(key: K, val: V, replace: bool) returns (had: Option<V>)
      requires Valid() && exp0 >= 1
      modifies `table0, `used0, `held0, `table1, `used1, `held1
      ensures Valid() && Content() == Apply(old(Content()), if replace then Set(key, val) else Insert(key, val))
      ensures Climbs(hash, old(Where()), Where()) && had == Report(old(Content()), Get(key))
        && (old(Roomy()) ==> Bounded())
    {
      var place := Locate(key);
      if place.None? {
        InsertEntry(key, val);
        return None;
      }
      var v := ValueAt(place.value, key);
      ClimbsSelf(hash, Where());
      if replace {
        SetVal(place.value, key, val);
      }
      return Some(v);
    }

    /** Adds a key, or with `replace` gives it a new value where it is; reports the value it had. */
    method Store(key: K, val: V, replace: bool) returns (had: Option<V>)
      requires Valid()
      modifies this
      ensures Valid() && Content() == Apply(old(Content()), if replace then Set(key, val) else Insert(key, val))
      ensures Climbs(hash, old(Where()), Where()) && pause == old(pause) && had == Report(old(Content()), Get(key))
      ensures old(pause) == 0 && old(rehashIdx).Some? && rehashIdx.Some? ==>
        old(rehashIdx.value) < rehashIdx.value < TableSize(exp0) && exp0 == old(exp0)
      ensures old(Bounded()) && old(pause) == 0 && 4 * old(TableSize(exp0)) <= MAX_BUCKETS ==> Bounded()
    {
      Prepare(true);
      ghost var mid := Where();
      had := StoreHere(key, val, replace);
      ClimbsFrom(hash, old(Where()), mid, Where());
    }

    method UnlinkHere(key: K) returns (had: Option<V>)
      requires Valid()
      modifies `table0, `used0, `held0, `table1, `used1, `held1
      ensures Valid() && Content() == old(Content()) - {key} && Climbs(hash, old(Where()), Where())
      ensures used0 <= old(used0) && used1 <= old(used1) && had == Report(old(Content()), Get(key))
    {
      ghost var c := Content();
      var place := Locate(key);
      if place.None? {
        NothingToDrop(c, key);
        ClimbsSelf(hash, Where());
        return None;
      }
      var v := UnlinkEntry(place.value, key);
      return Some(v);
    }

    /** Removes a key; reports the value it had. */
    method Unlink(key: K) returns (had: Option<V>)
      requires Valid()
      modifies this
      ensures Valid() && Content() == Apply(old(Content()), Delete(key))
      ensures Climbs(hash, old(Where()), Where()) && pause == old(pause) && had == Report(old(Content()), Get(key))
      ensures old(pause) == 0 && old(rehashIdx).Some? && rehashIdx.Some? ==>
        old(rehashIdx.value) < rehashIdx.value < TableSize(exp0) && exp0 == old(exp0)
      ensures old(Bounded()) && old(pause) == 0 && 4 * old(TableSize(exp0)) <= MAX_BUCKETS ==> Bounded()
    {
      Prepare(false);
      ghost var mid := Where();
      had := UnlinkHere(key);
      ClimbsFrom(hash, old(Where()), mid, Where());
    }

    /** Any operation. */
    method Do(op: Op<K, V>) returns (had: Option<V>)
      requires Valid()
      modifies this
      ensures Valid() && Content() == Apply(old(Content()), op)
      ensures Climbs(hash, old(Where()), Where()) && pause == old(pause) && had == Report(old(Content()), op)
      ensures old(pause) == 0 && old(rehashIdx).Some? && rehashIdx.Some? ==>
        old(rehashIdx.value) < rehashIdx.value < TableSize(exp0) && exp0 == old(exp0)
      ensures old(Bounded()) && old(pause) == 0 && 4 * old(TableSize(exp0)) <= MAX_BUCKETS ==> Bounded()
    {
      match op
      case Get(key) => had := Lookup(key);
      case Set(key, val) => had := Store(key, val, true);
      case Insert(key, val) => had := Store(key, val, false);
      case Delete(key) => had := Unlink(key);
    }

    /** The number of entries. */
    method Size() returns (n: nat)
      requires Valid()
      ensures n == |Content()|
    {
      ContentSize(held0, held1);
      n := used0 + used1;
    }

    lemma ScanSees(cursor: nat, seen: seq<Entry<K, V>>, l: Layout<K, V>)
      requires Valid() && seen == BucketAt(table0, cursor) + BucketAt(table1, cursor) && l == Where()
      ensures Distinct(seen) && forall k :: Scanned(hash, l, cursor, seen, k)
    {
      var a, b := BucketAt(table0, cursor), BucketAt(table1, cursor);
      forall k ensures Scanned(hash, l, cursor, seen, k) && (Find(a, k) == None || Find(b, k) == None) {
        BucketHolds(table0, exp0, hash, held0, cursor, k);
        BucketHolds(table1, exp1, hash, held1, cursor, k);
        FindConcat(a, b, k);
        assert NotBoth(held0, held1, k);
      }
      BucketDistinct(table0, exp0, hash, held0, cursor);
      BucketDistinct(table1, exp1, hash, held1, cursor);
      DistinctConcat(a, b);
    }

    /** Visits the buckets at a cursor of both tables, with rehashing paused. */
    method Scan(cursor: nat) returns (next: Option<nat>, seen: seq<Entry<K, V>>)
      requires Valid()
      modifies `pause
      ensures pause == old(pause)
      ensures next == if cursor + 1 >= TableSize(exp0) && cursor + 1 >= TableSize(exp1) then None else Some(cursor + 1)
      ensures Distinct(seen) && forall k :: Scanned(hash, Where(), cursor, seen, k)
    {
      pause := pause + 1;
      seen := [];
      if cursor < |table0| {
        seen := seen + table0[cursor];
      }
      if rehashIdx.Some? && cursor < |table1| {
        seen := seen + table1[cursor];
      }
      ghost var l := Where();
      ScanSees(cursor, seen, l);
      next := if cursor + 1 >= Max(|table0|, |table1|) then None else Some(cursor + 1);
      if pause > 0 {
        pause := pause - 1;
      }
      assert l == Where();
    }

    /** Frees all entries and both tables. */
    method Clear()
      requires Valid()
      modifies this
      ensures Valid() && Content() == map[] && rehashIdx.None? && exp0 == -1 && pause == 0 && Bounded()
    {
      EmptySplit<K, V>(hash);
      table0, used0, exp0, held0 := [], 0, -1, map[];
      table1, used1, exp1, held1 := [], 0, -1, map[];
      rehashIdx, pause := None, 0;
    }
  }

  /** A table for at least `capacity` buckets, unless there can be none. */
  method Create<K(==, !new), V>(hash: K -> nat, capacity: nat) returns (d: Dict?<K, V>)
    ensures d == null <==> !exists e :: Smallest(capacity, e)
    ensures d != null ==> fresh(d) && d.Valid() && d.Content() == map[] && d.hash == hash && d.Bounded() && d.pause == 0
  {
    var dict := new Dict<K, V>(hash);
    var done := dict.Expand(capacity);
    return if done then dict else null;
  }
}
