/** Writing a batch of records with vectored, possibly short, writes: Aof::WriteBatch of server/aof.cpp. */
module WriteBatch {
  import opened Bytes

  /** What one `writev` call does: write some bytes, be interrupted, or fail. */
  datatype WriteResult = Wrote(n: nat) | Interrupted | Failed

  class OutputFile {
    var data: bytes

    constructor ()
      ensures data == []
    {
      data := [];
    }
  }

  lemma DropWithin(blocks: seq<bytes>, index: nat, consumed: nat)
    requires index < |blocks| && consumed < |blocks[index]|
    ensures Flatten(blocks[index := blocks[index][consumed..]][index..]) == Flatten(blocks[index..])[consumed..]
  {
    var cut := blocks[index := blocks[index][consumed..]];
    FlattenCons(blocks, index);
    FlattenCons(cut, index);
    assert cut[index + 1..] == blocks[index + 1..];
    assert (blocks[index] + Flatten(blocks[index + 1..]))[consumed..]
      == blocks[index][consumed..] + Flatten(blocks[index + 1..]);
  }

  lemma DropWhole(blocks: seq<bytes>, index: nat, consumed: nat)
    requires index < |blocks| && |blocks[index]| <= consumed <= |Flatten(blocks[index..])|
    ensures consumed - |blocks[index]| <= |Flatten(blocks[index + 1..])|
    ensures Flatten(blocks[index + 1..])[consumed - |blocks[index]|..] == Flatten(blocks[index..])[consumed..]
  {
    FlattenCons(blocks, index);
  }

  /** Advances past the bytes a short write took, cutting the block it stopped in. */
  method SkipWritten(blocks: seq<bytes>, index: nat, written: nat) returns (rest: seq<bytes>, next: nat)
    requires index <= |blocks| && written <= |Flatten(blocks[index..])|
    ensures index <= next <= |rest| == |blocks|
    ensures Flatten(rest[next..]) == Flatten(blocks[index..])[written..]
    ensures [] !in blocks ==> [] !in rest
  {
    var consumed: nat := written;
    rest, next := blocks, index;
    ghost var goal := Flatten(blocks[index..])[written..];
    while consumed > 0
      invariant index <= next <= |rest| == |blocks|
      invariant consumed <= |Flatten(rest[next..])| && Flatten(rest[next..])[consumed..] == goal
      invariant [] !in blocks ==> [] !in rest
      decreases |rest| - next, consumed
    {
      assert next < |rest|;
      if consumed < |rest[next]| {
        DropWithin(rest, next, consumed);
        rest, consumed := rest[next := rest[next][consumed..]], 0;
      } else {
        DropWhole(rest, next, consumed);
        consumed, next := consumed - |rest[next]|, next + 1;
      }
    }
  }

  /** One `writev` of the blocks from `index` on, retried while it is interrupted. */
  method WriteVector(file: OutputFile, pending: bytes, schedule: seq<WriteResult>, first: nat)
      returns (written: nat, used: nat)
    requires first <= |schedule|
    modifies file
    ensures first <= used <= |schedule| && written <= |pending| && file.data == old(file.data) + pending[..written]
    ensures written == 0 && pending != [] ==> used == |schedule| || schedule[used].Failed? || schedule[used] == Wrote(0)
    ensures written > 0 ==> used > first
  {
    used := first;
    while used < |schedule| && schedule[used].Interrupted?
      invariant first <= used <= |schedule|
    {
      used := used + 1;
    }
    written := 0;
    if used < |schedule| && schedule[used].Wrote? {
      written := Min(schedule[used].n, |pending|);
      file.data := file.data + pending[..written];
      if written > 0 {
        used := used + 1;
      }
    }
  }

  /** Whether a schedule lets the writer down: a failure, a write of nothing, or its end. */
  predicate LetsDown(schedule: seq<WriteResult>, used: nat) {
    used >= |schedule| || schedule[used].Failed? || schedule[used] == Wrote(0)
  }

  lemma SomeLeft(blocks: seq<bytes>, index: nat)
    requires index < |blocks|
    ensures [] !in blocks ==> Flatten(blocks[index..]) != []
  {
    FlattenCons(blocks, index);
    assert blocks[index] in blocks;
  }

  /** Writes the blocks of one group. */
  method WriteGroup(file: OutputFile, group: seq<bytes>, schedule: seq<WriteResult>, first: nat)
    returns (ok: bool, used: nat, ghost written: nat)
    requires first <= |schedule|
    modifies file
    ensures first <= used <= |schedule| && written <= |Flatten(group)|
    ensures file.data == old(file.data) + Flatten(group)[..written]
    ensures ok ==> written == |Flatten(group)|
    ensures !ok && [] !in group ==> LetsDown(schedule, used) && written < |Flatten(group)|
  {
    var blocks, index := group, 0;
    ok, used, written := true, first, 0;
    assert blocks[0..] == group;
    while index < |blocks|
      invariant index <= |blocks| == |group| && first <= used <= |schedule|
      invariant written <= |Flatten(group)| && Flatten(blocks[index..]) == Flatten(group)[written..]
      invariant file.data == old(file.data) + Flatten(group)[..written]
      invariant [] !in group ==> [] !in blocks
      decreases |schedule| - used
    {
      SomeLeft(blocks, index);
      var n;
      n, used := WriteVector(file, Flatten(blocks[index..]), schedule, used);
      Extend(old(file.data), Flatten(group), written, n);
      if n == 0 {
        return false, used, written;
      }
      blocks, index := SkipWritten(blocks, index, n);
      written := written + n;
    }
  }

  lemma Extend(before: bytes, all: bytes, written: nat, n: nat)
    requires written + n <= |all|
    ensures before + all[..written] + all[written..][..n] == before + all[..written + n]
    ensures all[written..][n..] == all[written + n..]
  {
    assert all[..written] + all[written..][..n] == all[..written + n];
  }

  lemma GroupSplit(batch: seq<bytes>, from: nat, to: nat)
    requires from <= to <= |batch|
    ensures Flatten(batch[..to]) == Flatten(batch[..from]) + Flatten(batch[from..to])
    ensures Flatten(batch) == Flatten(batch[..to]) + Flatten(batch[to..])
  {
    assert batch[..to] == batch[..from] + batch[from..to];
    FlattenConcat(batch[..from], batch[from..to]);
    assert batch == batch[..to] + batch[to..];
    FlattenConcat(batch[..to], batch[to..]);
  }

  /**
   * Writes a batch in groups of at most `maxIov` blocks. For every schedule of short writes and
   * interrupts, the file gains the records' bytes once and in order; on failure it gains a prefix of
   * them, and a batch without empty records fails only when a write does.
   */
  method WriteBatch(file: OutputFile, batch: seq<bytes>, maxIov: nat, schedule: seq<WriteResult>)
    returns (ok: bool, used: nat, ghost written: nat)
    requires maxIov > 0
    modifies file
    ensures written <= |Flatten(batch)| && file.data == old(file.data) + Flatten(batch)[..written]
    ensures ok ==> written == |Flatten(batch)|
    ensures !ok && [] !in batch ==> LetsDown(schedule, used) && written < |Flatten(batch)|
  {
    var record := 0;
    ok, used, written := true, 0, 0;
    while record < |batch|
      invariant record <= |batch| && used <= |schedule|
      invariant written == |Flatten(batch[..record])| <= |Flatten(batch)|
      invariant file.data == old(file.data) + Flatten(batch)[..written]
      decreases |batch| - record
    {
      var end := Min(record + maxIov, |batch|);
      GroupSplit(batch, record, end);
      ghost var n;
      ok, used, n := WriteGroup(file, batch[record..end], schedule, used);
      GroupBytes(Flatten(batch), Flatten(batch[..record]), Flatten(batch[record..end]), Flatten(batch[end..]), n);
      Extend(old(file.data), Flatten(batch), written, n);
      written := written + n;
      if !ok {
        return;
      }
      record := end;
    }
    assert batch[..record] == batch;
  }

  lemma GroupBytes(all: bytes, before: bytes, group: bytes, after: bytes, n: nat)
    requires all == (before + group) + after && n <= |group|
    ensures |before| + n <= |all| && all[|before|..][..n] == group[..n]
  {
  }
}
