/**
 * The search primitive of the storage layer: `Collections.binarySearch`
 * over a vector with a comparator, and the decoding of its negative
 * "insertion point" result.
 *
 * A comparison against the probe is passed as `cmp`: `cmp(x)` is
 * `x.compareTo(probe)`, negative when x sorts below the probe.
 */
module Utils {

  /** The elements comparing below the probe come first, then the equal ones, then those above. */
  ghost predicate Partitioned<T>(list: seq<T>, cmp: T -> int)
  {
    forall i, j :: 0 <= i < j < |list| ==>
      (cmp(list[i]) >= 0 ==> cmp(list[j]) >= 0) && (cmp(list[i]) > 0 ==> cmp(list[j]) > 0)
  }

  /**
   * `Utils.binarySearch`: the JDK's indexed binary search. Returns the
   * index of an element comparing equal to the probe, or
   * -(insertion point + 1). The list is a value and is not changed.
   */
  method BinarySearch<T>(list: seq<T>, cmp: T -> int) returns (r: int)
    ensures -(|list| + 1) <= r < |list|
    ensures r >= 0 ==> cmp(list[r]) == 0
    ensures |list| > 0 && cmp(list[(|list| - 1) / 2]) == 0 ==> r == (|list| - 1) / 2
    ensures Partitioned(list, cmp) && r < 0 ==>
      var p := -(r + 1);
      (forall i :: 0 <= i < p ==> cmp(list[i]) < 0) &&
      (forall i :: p <= i < |list| ==> cmp(list[i]) > 0)
  {
    var low, high := 0, |list| - 1;
    while low <= high
      invariant 0 <= low <= high + 1 <= |list|
      invariant (low == 0 && high == |list| - 1) || (|list| > 0 && cmp(list[(|list| - 1) / 2]) != 0)
      invariant Partitioned(list, cmp) ==> forall i :: 0 <= i < low ==> cmp(list[i]) < 0
      invariant Partitioned(list, cmp) ==> forall i :: high < i < |list| ==> cmp(list[i]) > 0
    {
      var mid := (low + high) / 2;
      var c := cmp(list[mid]);
      if c < 0 {
        low := mid + 1;
      } else if c > 0 {
        high := mid - 1;
      } else {
        return mid;
      }
    }
    r := -(low + 1);
  }

  /** `Utils.getInsertionIndex`: decodes a negative search result into its insertion point. */
  function InsertionIndex(index: int): (r: int)
    ensures r >= 0
    ensures index >= 0 ==> r == index
    ensures index < 0 ==> index == -(r + 1)
  {
    if index < 0 then -(index + 1) else index
  }

  /** Encoding an insertion point the way a failed search does and decoding it gives it back. */
  lemma InsertionIndexRoundTrip(p: int)
    requires p >= 0
    ensures InsertionIndex(-(p + 1)) == p
  {
  }
}
