/** Byte arrays changed in place. */
module Memory {
  import opened Bytes

  /** A larger or smaller array with the same front. */
  method Realloc(a: array<byte>, n: nat) returns (b: array<byte>)
    ensures fresh(b) && b.Length == n && forall k :: 0 <= k < n && k < a.Length ==> b[k] == a[k]
  {
    b := new byte[n](k => 0);
    forall k | 0 <= k < n && k < a.Length {
      b[k] := a[k];
    }
  }

  /** Moves bytes within an array; the ranges may overlap. */
  method Memmove(a: array<byte>, dst: nat, src: nat, len: nat)
    requires dst + len <= a.Length && src + len <= a.Length
    modifies a
    ensures forall k :: 0 <= k < a.Length ==> a[k] == old(a[if dst <= k < dst + len then src + k - dst else k])
  {
    forall k | 0 <= k < len {
      a[dst + k] := a[src + k];
    }
  }

  function Over(s: bytes, at: nat, b: bytes): (r: bytes)
    requires at + |b| <= |s|
    ensures |r| == |s|
  {
    s[..at] + b + s[at + |b|..]
  }

  method Put(a: array<byte>, at: nat, b: bytes)
    requires at + |b| <= a.Length
    modifies a
    ensures a[..] == Over(old(a[..]), at, b)
  {
    forall k | 0 <= k < |b| {
      a[at + k] := b[k];
    }
    ghost var was, now := old(a[..]), a[..];
    forall k | 0 <= k < |now| ensures now[k] == Over(was, at, b)[k] {
    }
  }
}
