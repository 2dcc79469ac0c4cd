/** Binary search, as the standard library's lower and upper bounds do it. */
module BinarySearch {

  /** Halves the len positions from first on until the first one that is not below is left. */
  function PartitionPoint(below: nat -> bool, first: nat, len: nat): nat
    decreases len
  {
    if len == 0 then first
    else
      var half := len / 2;
      if below(first + half) then PartitionPoint(below, first + half + 1, len - half - 1)
      else PartitionPoint(below, first, half)
  }

  /** All that is below comes first. */
  ghost predicate Parted(below: nat -> bool, first: nat, end: nat) {
    forall i: nat, j: nat :: first <= i < j < end && below(j) ==> below(i)
  }

  /** The position k is where that which is below ends. */
  ghost predicate PartedAt(below: nat -> bool, first: nat, end: nat, k: nat) {
    && first <= k <= end && (k < end ==> !below(k))
    && forall i: nat :: first <= i < k ==> below(i)
  }

  lemma PartedFrom(below: nat -> bool, first: nat, middle: nat, end: nat, k: nat)
    requires Parted(below, first, end) && first <= middle < end
    ensures Parted(below, middle + 1, end) && Parted(below, first, middle)
    ensures below(middle) && PartedAt(below, middle + 1, end, k) ==> PartedAt(below, first, end, k)
    ensures !below(middle) && PartedAt(below, first, middle, k) ==> PartedAt(below, first, end, k)
  {}

  /** If all that is below comes first, the search finds where it ends. */
  lemma {:induction false} PartitionPointExact(below: nat -> bool, first: nat, len: nat)
    requires Parted(below, first, first + len)
    ensures PartedAt(below, first, first + len, PartitionPoint(below, first, len))
    decreases len
  {
    if len > 0 {
      hide Parted, PartedAt;
      var half := len / 2;
      PartedFrom(below, first, first + half, first + len, PartitionPoint(below, first, len));
      if below(first + half) {
        PartitionPointExact(below, first + half + 1, len - half - 1);
      } else {
        PartitionPointExact(below, first, half);
      }
    }
  }
}
