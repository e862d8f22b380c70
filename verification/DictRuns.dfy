/** Whole runs of hash table operations: what scans see and how long a rehash takes. */
module DictRuns {
  import opened Bytes
  import opened HashTable
  import opened Dict

  /** No operation deletes the key. */
  ghost predicate Keeps<K, V>(ops: seq<Op<K, V>>, k: K) {
    forall i :: 0 <= i < |ops| ==> ops[i] != Delete(k)
  }

  /** A key that was there still is, in no lower bucket. */
  ghost predicate Stays<K(!new), V>(hash: K -> nat, was: Layout<K, V>, now: Layout<K, V>, k: K) {
    In(was, k) ==> In(now, k) && Position(hash, was, k) <= Position(hash, now, k)
  }

  lemma InContent<K, V>(l: Layout<K, V>, k: K)
    ensures In(l, k) <==> k in l.held0 + l.held1
  {
  }

  /** One operation other than its deletion leaves a key where it is or higher. */
  lemma StaysOne<K(!new), V>(hash: K -> nat, was: Layout<K, V>, now: Layout<K, V>, op: Op<K, V>, k: K)
    requires Climbs(hash, was, now) && now.held0 + now.held1 == Apply(was.held0 + was.held1, op) && op != Delete(k)
    ensures Stays(hash, was, now, k)
  {
    InContent(was, k);
    InContent(now, k);
    assert NotLower(hash, was, now, k);
  }

  lemma {:induction false} ApplyLast<K, V>(c: map<K, V>, ops: seq<Op<K, V>>, op: Op<K, V>)
    ensures ApplyAll(c, ops + [op]) == Apply(ApplyAll(c, ops), op)
    decreases |ops|
  {
    if ops == [] {
      assert ops + [op] == [op];
      assert ApplyAll(Apply(c, op), []) == Apply(c, op);
    } else {
      ApplyLast(Apply(c, ops[0]), ops[1..], op);
      assert (ops + [op])[1..] == ops[1..] + [op];
    }
  }

  lemma ApplyNext<K, V>(c: map<K, V>, ops: seq<Op<K, V>>, i: nat)
    requires i < |ops|
    ensures ApplyAll(c, ops[..i + 1]) == Apply(ApplyAll(c, ops[..i]), ops[i])
  {
    ApplyLast(c, ops[..i], ops[i]);
    assert ops[..i + 1] == ops[..i] + [ops[i]];
  }

  /** Runs operations one after the other: the table stays the map they describe. */
  method RunOps<K(==, !new), V>(d: Dict<K, V>, ops: seq<Op<K, V>>)
    requires d.Valid()
    modifies d
    ensures d.Valid() && d.Content() == ApplyAll(old(d.Content()), ops) && d.pause == old(d.pause)
    ensures forall k :: Keeps(ops, k) ==> Stays(d.hash, old(d.Where()), d.Where(), k)
  {
    ghost var was := d.Where();
    StaysSelf(d.hash, was);
    for i := 0 to |ops|
      invariant d.Valid() && d.Content() == ApplyAll(old(d.Content()), ops[..i]) && d.pause == old(d.pause)
      invariant forall k :: Keeps(ops, k) ==> Stays(d.hash, was, d.Where(), k)
    {
      ghost var mid := d.Where();
      var had := d.Do(ops[i]);
      ApplyNext(old(d.Content()), ops, i);
      StaysMore(d.hash, was, mid, d.Where(), ops, i);
    }
    assert ops[..|ops|] == ops;
  }

  lemma StaysSelf<K(!new), V>(hash: K -> nat, l: Layout<K, V>)
    ensures forall k :: Stays(hash, l, l, k)
  {
  }

  lemma StaysMore<K(!new), V>(hash: K -> nat, was: Layout<K, V>, mid: Layout<K, V>, now: Layout<K, V>, ops: seq<Op<K,
      V>>, i: nat)
    requires i < |ops| && Climbs(hash, mid, now) && now.held0 + now.held1 == Apply(mid.held0 + mid.held1, ops[i])
    requires forall k :: Keeps(ops, k) ==> Stays(hash, was, mid, k)
    ensures forall k :: Keeps(ops, k) ==> Stays(hash, was, now, k)
  {
    forall k | Keeps(ops, k) ensures Stays(hash, was, now, k) {
      StaysOne(hash, mid, now, ops[i], k);
      assert Stays(hash, was, mid, k);
    }
  }

  // ----- scanning while the table changes -----

  /** The script's first `n` rounds never delete the key. */
  ghost predicate KeptFor<K, V>(script: seq<seq<Op<K, V>>>, n: nat, k: K) {
    n <= |script| && forall r :: 0 <= r < n ==> Keeps(script[r], k)
  }

  /** A key kept so far has been visited or lies at or above the cursor. */
  ghost predicate Covered<K(!new), V>(hash: K -> nat, first: Layout<K, V>, now: Layout<K, V>, visited: seq<Entry<K, V>>,
      cursor: nat, k: K) {
    In(first, k) ==> In(now, k) && (Find(visited, k).Some? || Position(hash, now, k) >= cursor)
  }

  ghost predicate AllCovered<K(!new), V>(hash: K -> nat, first: Layout<K, V>, now: Layout<K, V>, visited: seq<Entry<K,
      V>>, cursor: nat, script: seq<seq<Op<K, V>>>, n: nat) {
    forall k :: KeptFor(script, n, k) ==> Covered(hash, first, now, visited, cursor, k)
  }

  lemma CoverBucket<K(!new), V>(hash: K -> nat, first: Layout<K, V>, now: Layout<K, V>, visited: seq<Entry<K, V>>,
      cursor: nat, script: seq<seq<Op<K, V>>>, n: nat, seen: seq<Entry<K, V>>)
    requires AllCovered(hash, first, now, visited, cursor, script, n) && forall k :: Scanned(hash, now, cursor, seen, k)
    ensures AllCovered(hash, first, now, visited + seen, cursor + 1, script, n)
  {
    forall k | KeptFor(script, n, k) ensures Covered(hash, first, now, visited + seen, cursor + 1, k) {
      assert Covered(hash, first, now, visited, cursor, k) && Scanned(hash, now, cursor, seen, k);
      FindConcat(visited, seen, k);
      InContent(now, k);
    }
  }

  lemma CoverRound<K(!new), V>(hash: K -> nat, first: Layout<K, V>, mid: Layout<K, V>, now: Layout<K, V>,
      visited: seq<Entry<K, V>>, cursor: nat, script: seq<seq<Op<K, V>>>, n: nat)
    requires n < |script| && AllCovered(hash, first, mid, visited, cursor, script, n)
    requires forall k :: Keeps(script[n], k) ==> Stays(hash, mid, now, k)
    ensures AllCovered(hash, first, now, visited, cursor, script, n + 1)
  {
    forall k | KeptFor(script, n + 1, k) ensures Covered(hash, first, now, visited, cursor, k) {
      assert KeptFor(script, n, k) && Keeps(script[n], k);
      assert Covered(hash, first, mid, visited, cursor, k) && Stays(hash, mid, now, k);
    }
  }

  /** Past the last bucket of both tables every kept key has been visited. */
  lemma CoverDone<K(!new), V>(d: Dict<K, V>, first: Layout<K, V>, visited: seq<Entry<K, V>>, cursor: nat,
      script: seq<seq<Op<K, V>>>, n: nat)
    requires d.Valid() && AllCovered(d.hash, first, d.Where(), visited, cursor, script, n)
    requires cursor >= TableSize(d.exp0) && cursor >= TableSize(d.exp1)
    ensures forall k :: KeptFor(script, n, k) && In(first, k) ==> Find(visited, k).Some?
  {
    forall k | KeptFor(script, n, k) && In(first, k) ensures Find(visited, k).Some? {
      assert Covered(d.hash, first, d.Where(), visited, cursor, k);
      ChainDecides(d.table0, d.exp0, d.hash, d.held0, k);
      ChainDecides(d.table1, d.exp1, d.hash, d.held1, k);
    }
  }

  /**
   * A scan from cursor 0, with a round of operations after every call. If it gets to the end after `rounds`
   * rounds, it has visited every key that was there at the start and that no round deleted, whatever was
   * inserted and however the table grew.
   */
  method ScanAmidst<K(==, !new), V>(d: Dict<K, V>, script: seq<seq<Op<K, V>>>)
      returns (visited: seq<Entry<K, V>>, done: bool, rounds: nat)
    requires d.Valid()
    modifies d
    ensures d.Valid() && rounds <= |script|
    ensures done ==> forall k :: KeptFor(script, rounds, k) && In(old(d.Where()), k) ==> Find(visited, k).Some?
  {
    ghost var first := d.Where();
    var cursor := 0;
    visited, done, rounds := [], false, 0;
    while rounds < |script|
      invariant d.Valid() && rounds <= |script| && AllCovered(d.hash, first, d.Where(), visited, cursor, script, rounds)
    {
      ghost var now := d.Where();
      var next, seen := d.Scan(cursor);
      assert d.Where() == now;
      CoverBucket(d.hash, first, now, visited, cursor, script, rounds, seen);
      visited := visited + seen;
      if next.None? {
        CoverDone(d, first, visited, cursor + 1, script, rounds);
        done := true;
        return;
      }
      cursor := next.value;
      RunOps(d, script[rounds]);
      CoverRound(d.hash, first, now, d.Where(), visited, cursor, script, rounds);
      rounds := rounds + 1;
    }
  }

  // ----- scanning a table that does not change -----

  /** Everything below the cursor has been visited, and nothing else. */
  ghost predicate Swept<K(!new), V>(hash: K -> nat, l: Layout<K, V>, visited: seq<Entry<K, V>>, cursor: nat, k: K) {
    Find(visited, k) == if In(l, k) && Position(hash, l, k) < cursor then HashTable.Get(l.held0 + l.held1, k) else None
  }

  lemma SweepBucket<K(!new), V>(hash: K -> nat, l: Layout<K, V>, visited: seq<Entry<K, V>>, cursor: nat,
      seen: seq<Entry<K, V>>, all: seq<Entry<K, V>>, next: nat)
    requires Distinct(visited) && Distinct(seen) && all == visited + seen && next == cursor + 1
    requires (forall k :: Swept(hash, l, visited, cursor, k)) && forall k :: Scanned(hash, l, cursor, seen, k)
    ensures Distinct(all) && forall k :: Swept(hash, l, all, next, k)
  {
    forall k ensures Swept(hash, l, all, next, k) && (Find(visited, k) == None || Find(seen, k) == None) {
      assert Swept(hash, l, visited, cursor, k) && Scanned(hash, l, cursor, seen, k);
      FindConcat(visited, seen, k);
      InContent(l, k);
    }
    DistinctConcat(visited, seen);
  }

  lemma SweepDone<K(!new), V>(d: Dict<K, V>, visited: seq<Entry<K, V>>, cursor: nat)
    requires d.Valid() && cursor >= TableSize(d.exp0) && cursor >= TableSize(d.exp1)
    requires forall k :: Swept(d.hash, d.Where(), visited, cursor, k)
    ensures forall k :: Find(visited, k) == HashTable.Get(d.Content(), k)
  {
    forall k ensures Find(visited, k) == HashTable.Get(d.Content(), k) {
      assert Swept(d.hash, d.Where(), visited, cursor, k);
      ChainDecides(d.table0, d.exp0, d.hash, d.held0, k);
      ChainDecides(d.table1, d.exp1, d.hash, d.held1, k);
    }
  }

  /** A scan of a table that does not change in between visits every entry exactly once. */
  method ScanQuietly<K(==, !new), V>(d: Dict<K, V>) returns (visited: seq<Entry<K, V>>)
    requires d.Valid()
    modifies d
    ensures d.Valid() && d.Content() == old(d.Content())
    ensures Distinct(visited) && forall k :: Find(visited, k) == HashTable.Get(d.Content(), k)
  {
    ghost var l := d.Where();
    var cursor := 0;
    visited := [];
    assert forall k :: Swept(d.hash, l, visited, 0, k);
    while true
      invariant d.Valid() && d.Where() == l && Distinct(visited) && forall k :: Swept(d.hash, l, visited, cursor, k)
      invariant d.exp0 == old(d.exp0) && d.exp1 == old(d.exp1) && cursor <= Max(TableSize(d.exp0), TableSize(d.exp1))
      decreases Max(TableSize(d.exp0), TableSize(d.exp1)) - cursor
    {
      var next, seen := d.Scan(cursor);
      assert d.Where() == l;
      SweepBucket(d.hash, l, visited, cursor, seen, visited + seen, cursor + 1);
      visited, cursor := visited + seen, cursor + 1;
      if next.None? {
        SweepDone(d, visited, cursor);
        return;
      }
    }
  }

  // ----- how long a rehash takes -----

  /**
   * Runs operations until the rehash in progress is over: at most as many as the old table has buckets left,
   * while the new one, four times as large, holds at most three entries for every old bucket.
   */
  method FinishRehash<K(==, !new), V>(d: Dict<K, V>, ops: seq<Op<K, V>>) returns (steps: nat)
    requires d.Valid() && d.Bounded() && d.pause == 0 && d.rehashIdx.Some? && 4 * TableSize(d.exp0) <= MAX_BUCKETS
    modifies d
    ensures d.Valid() && d.Bounded() && steps <= |ops|
    ensures (d.rehashIdx.None? || steps == |ops|) && steps <= Max(1, old(TableSize(d.exp0) - d.rehashIdx.value))
    ensures d.rehashIdx.Some? ==> d.exp1 == d.exp0 + 2 && |d.Content()| <= 3 * TableSize(d.exp0)
  {
    ghost var e, i := d.exp0, d.rehashIdx.value;
    steps := 0;
    while steps < |ops| && d.rehashIdx.Some?
      invariant d.Valid() && d.Bounded() && d.pause == 0 && steps <= |ops|
      invariant d.rehashIdx.Some? ==> d.exp0 == e && d.rehashIdx.value >= i + steps && (steps > 0 ==>
        d.rehashIdx.value < TableSize(e))
      invariant steps <= Max(1, TableSize(e) - i)
    {
      var had := d.Do(ops[steps]);
      steps := steps + 1;
    }
    ContentSize(d.held0, d.held1);
  }
}
