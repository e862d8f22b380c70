/** Strict total orders and sorted sequences. */
module Order {

  /** A comparator: irreflexive, transitive, and telling any two different keys apart. */
  ghost predicate StrictOrder<K(!new)>(less: (K, K) -> bool) {
    && (forall x :: !less(x, x))
    && (forall x, y, z :: less(x, y) && less(y, z) ==> less(x, z))
    && (forall x, y :: x == y || less(x, y) || less(y, x))
  }

  ghost predicate Sorted<K>(less: (K, K) -> bool, keys: seq<K>) {
    forall i, j :: 0 <= i < j < |keys| ==> less(keys[i], keys[j])
  }

  /** `c` keys are below `key` and the others are not. */
  ghost predicate Splits<K>(less: (K, K) -> bool, keys: seq<K>, key: K, c: nat) {
    c <= |keys| && (forall i :: 0 <= i < c ==> less(keys[i], key))
      && (forall i :: c <= i < |keys| ==> !less(keys[i], key))
  }

  lemma InsertSorted<K(!new)>(less: (K, K) -> bool, keys: seq<K>, key: K, c: nat)
    requires StrictOrder(less) && Sorted(less, keys) && Splits(less, keys, key, c) && (c < |keys| ==> keys[c] != key)
    ensures Sorted(less, keys[..c] + [key] + keys[c..])
  {
    var larger := keys[..c] + [key] + keys[c..];
    forall i, j | 0 <= i < j < |larger| ensures less(larger[i], larger[j]) {
      var a := if i <= c then i else i - 1;
      var b := if j <= c then j else j - 1;
    }
  }
}
