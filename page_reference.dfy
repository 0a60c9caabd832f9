/**
 * The summary of a page used to route keys without loading the page:
 * table name, page index, min and max clustering-key value, and size.
 * A reference is a value here; the setters return the updated value.
 */
module PageReferences {
  import opened Common
  import Utils

  datatype PageReference = PageReference(
    tableName: string,
    pageIndex: int,
    min: Option<int>,
    max: Option<int>,
    size: int)

  /** The constructor: size 0, no min and no max. */
  function NewReference(tableName: string, pageIndex: int): (r: PageReference)
    ensures r.tableName == tableName && r.pageIndex == pageIndex
    ensures r.size == 0 && r.min.None? && r.max.None?
  {
    PageReference(tableName, pageIndex, None, None, 0)
  }

  /** `setMin`: only min changes. */
  function SetMin(r: PageReference, min: Option<int>): (r': PageReference)
    ensures r'.min == min
    ensures r'.tableName == r.tableName && r'.pageIndex == r.pageIndex
    ensures r'.max == r.max && r'.size == r.size
  {
    r.(min := min)
  }

  /** `setMax`: only max changes. */
  function SetMax(r: PageReference, max: Option<int>): (r': PageReference)
    ensures r'.max == max
    ensures r'.tableName == r.tableName && r'.pageIndex == r.pageIndex
    ensures r'.min == r.min && r'.size == r.size
  {
    r.(max := max)
  }

  /** `setSize`: only size changes. */
  function SetSize(r: PageReference, size: int): (r': PageReference)
    ensures r'.size == size
    ensures r'.tableName == r.tableName && r'.pageIndex == r.pageIndex
    ensures r'.min == r.min && r'.max == r.max
  {
    r.(size := size)
  }

  /**
   * `compareTo(Object)` with a raw clustering-key value: 0 when the key
   * lies in [min, max] or the page is empty (min or max null), 1 when
   * the key lies below min, -1 otherwise.
   */
  function CompareToKey(r: PageReference, key: int): (c: int)
    ensures r.min.None? || r.max.None? ==> c == 0
    ensures r.min.Some? && r.max.Some? ==>
      && (c == 0 <==> r.min.value <= key <= r.max.value)
      && (c == 1 <==> key < r.min.value)
      && (c == -1 <==> r.min.value <= key && r.max.value < key)
  {
    if r.min.None? || r.max.None? then 0
    else if CompareValues(r.min.value, key) <= 0 && CompareValues(r.max.value, key) >= 0 then 0
    else if CompareValues(r.min.value, key) > 0 then 1
    else -1
  }

  /**
   * `compareTo(Object)` with another reference: 0 when this min is
   * null, otherwise the comparison of the two mins, which dereferences a
   * null other min.
   */
  function CompareToReference(r: PageReference, other: PageReference): (c: Outcome<int>)
    ensures r.min.None? ==> c == Ok(0)
    ensures r.min.Some? && other.min.None? ==> c == Err(NullPointer)
    ensures r.min.Some? && other.min.Some? ==>
      && c.Ok?
      && (c.value < 0 <==> r.min.value < other.min.value)
      && (c.value == 0 <==> r.min.value == other.min.value)
      && (c.value > 0 <==> r.min.value > other.min.value)
  {
    if r.min.None? then Ok(0)
    else if other.min.None? then Err(NullPointer)
    else Ok(CompareValues(r.min.value, other.min.value))
  }

  /** A key routes to a non-empty page exactly when it lies within its range. */
  lemma KeyInRange(r: PageReference, key: int)
    requires r.min.Some? && r.max.Some? && r.min.value <= r.max.value
    ensures CompareToKey(r, key) == 0 <==> r.min.value <= key <= r.max.value
    ensures CompareToKey(r, key) == 1 <==> key < r.min.value
    ensures CompareToKey(r, key) == -1 <==> r.max.value < key
  {
  }

  /**
   * A sequence of references whose ranges are ordered and disjoint is
   * partitioned by every key, so the search over it is meaningful.
   */
  ghost predicate RangesOrdered(refs: seq<PageReference>)
  {
    && (forall i :: 0 <= i < |refs| ==> refs[i].min.Some? && refs[i].max.Some? && refs[i].min.value <= refs[i].max.value)
    && (forall i, j :: 0 <= i < j < |refs| ==> refs[i].max.value < refs[j].min.value)
  }

  /** Over ordered, disjoint ranges the key comparison is partitioned, as binary search needs. */
  lemma OrderedRangesArePartitioned(refs: seq<PageReference>, key: int)
    requires RangesOrdered(refs)
    ensures Utils.Partitioned(refs, r => CompareToKey(r, key))
  {
    forall i, j | 0 <= i < j < |refs|
      ensures CompareToKey(refs[i], key) >= 0 ==> CompareToKey(refs[j], key) >= 0
      ensures CompareToKey(refs[i], key) > 0 ==> CompareToKey(refs[j], key) > 0
    {
      KeyInRange(refs[i], key);
      KeyInRange(refs[j], key);
    }
  }
}
