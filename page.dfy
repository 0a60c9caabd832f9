/**
 * A page: a vector of tuples kept strictly sorted by clustering key,
 * with cached min/max and an owned page reference. The `tuples` vector
 * is the field `tuples`, reassigned by each mutation.
 */
module Pages {
  import opened Common
  import opened Tuples
  import opened PageReferences
  import Utils

  /** Strictly ascending clustering keys: sorted and free of duplicates. */
  ghost predicate Sorted(s: seq<KeyedTuple>)
  {
    forall i, j :: 0 <= i < j < |s| ==> Key(s[i]) < Key(s[j])
  }

  ghost predicate HasKey(s: seq<KeyedTuple>, k: int)
  {
    exists i :: 0 <= i < |s| && Key(s[i]) == k
  }

  /** Where a tuple with key k belongs: the number of leading tuples with a smaller key. */
  function InsertionPoint(s: seq<KeyedTuple>, k: int): (p: nat)
    ensures p <= |s|
  {
    if |s| == 0 || Key(s[0]) >= k then 0 else 1 + InsertionPoint(s[1..], k)
  }

  /** The vector after `add(index, t)` at the insertion point of t's key. */
  function InsertSorted(s: seq<KeyedTuple>, t: KeyedTuple): seq<KeyedTuple>
  {
    var p := InsertionPoint(s, Key(t));
    s[..p] + [t] + s[p..]
  }

  /** The vector after `remove(i)`. */
  function RemoveAt(s: seq<KeyedTuple>, i: int): seq<KeyedTuple>
    requires 0 <= i < |s|
  {
    s[..i] + s[i + 1..]
  }

  /** Replacing a tuple by one with the same key keeps the page sorted. */
  lemma ReplaceKeepsOrder(s: seq<KeyedTuple>, i: int, t: KeyedTuple)
    requires Sorted(s) && 0 <= i < |s| && Key(s[i]) == Key(t)
    ensures Sorted(s[i := t])
  {
    var r := s[i := t];
    forall a | 0 <= a < |s|
      ensures Key(r[a]) == Key(s[a])
    {
    }
  }

  /** On a sorted page the insertion point separates smaller keys from the rest. */
  lemma {:induction false} InsertionPointSplits(s: seq<KeyedTuple>, k: int)
    requires Sorted(s)
    ensures forall i :: 0 <= i < InsertionPoint(s, k) ==> Key(s[i]) < k
    ensures forall i :: InsertionPoint(s, k) <= i < |s| ==> Key(s[i]) >= k
  {
    if |s| > 0 && Key(s[0]) < k {
      assert Sorted(s[1..]);
      InsertionPointSplits(s[1..], k);
      forall i | 1 <= i < |s| ensures s[i] == s[1..][i - 1] { }
    }
  }

  /** Any position splitting smaller keys from the rest is the insertion point. */
  lemma InsertionPointUnique(s: seq<KeyedTuple>, k: int, p: int)
    requires Sorted(s) && 0 <= p <= |s|
    requires forall i :: 0 <= i < p ==> Key(s[i]) < k
    requires forall i :: p <= i < |s| ==> Key(s[i]) >= k
    ensures p == InsertionPoint(s, k)
  {
    var q := InsertionPoint(s, k);
    InsertionPointSplits(s, k);
    assert p < |s| ==> Key(s[p]) >= k;
    assert q < |s| ==> Key(s[q]) >= k;
  }

  /**
   * A failed search over a sorted page, read as comparisons against the
   * probe, finds exactly the insertion point of the probe's key, which
   * no tuple holds.
   */
  lemma FailedSearchIsInsertionPoint(s: seq<KeyedTuple>, o: Operand, p: int)
    requires Sorted(s) && 0 <= p <= |s|
    requires forall i :: 0 <= i < p ==> CompareTo(s[i], o) < 0
    requires forall i :: p <= i < |s| ==> CompareTo(s[i], o) > 0
    ensures p == InsertionPoint(s, OperandKey(o))
    ensures !HasKey(s, OperandKey(o))
  {
    InsertionPointUnique(s, OperandKey(o), p);
    assert forall i :: 0 <= i < |s| ==> CompareTo(s[i], o) != 0;
  }

  /** The insertion point of a present key is the index of the tuple holding it. */
  lemma InsertionPointOfPresentKey(s: seq<KeyedTuple>, i: int)
    requires Sorted(s) && 0 <= i < |s|
    ensures InsertionPoint(s, Key(s[i])) == i
  {
    var q := InsertionPoint(s, Key(s[i]));
    InsertionPointSplits(s, Key(s[i]));
    assert q < |s| ==> Key(s[q]) >= Key(s[i]);
  }

  /** The max key of a non-empty page is present, and removing it drops the last tuple. */
  lemma RemovingLast(s: seq<KeyedTuple>)
    requires Sorted(s) && |s| > 0
    ensures HasKey(s, Key(s[|s| - 1]))
    ensures InsertionPoint(s, Key(s[|s| - 1])) == |s| - 1
    ensures RemoveAt(s, |s| - 1) == s[..|s| - 1]
    ensures s == s[..|s| - 1] + [s[|s| - 1]]
  {
    InsertionPointOfPresentKey(s, |s| - 1);
    DroppingLast(s);
  }

  /** Removing the last position leaves the prefix before it. */
  lemma DroppingLast(s: seq<KeyedTuple>)
    requires |s| > 0
    ensures RemoveAt(s, |s| - 1) == s[..|s| - 1]
    ensures s == s[..|s| - 1] + [s[|s| - 1]]
  {
    assert s[|s|..] == [];
  }

  /** The min key of a non-empty page is present, and removing it drops the first tuple. */
  lemma RemovingFirst(s: seq<KeyedTuple>)
    requires Sorted(s) && |s| > 0
    ensures HasKey(s, Key(s[0]))
    ensures InsertionPoint(s, Key(s[0])) == 0
    ensures RemoveAt(s, 0) == s[1..]
    ensures s == [s[0]] + s[1..]
  {
    InsertionPointOfPresentKey(s, 0);
    DroppingFirst(s);
  }

  /** Removing the first position leaves the suffix after it. */
  lemma DroppingFirst(s: seq<KeyedTuple>)
    requires |s| > 0
    ensures RemoveAt(s, 0) == s[1..]
    ensures s == [s[0]] + s[1..]
  {
    assert s[..0] == [];
  }

  /** Inserting an absent key keeps the page strictly sorted and adds exactly that tuple. */
  lemma InsertSortedKeepsOrder(s: seq<KeyedTuple>, t: KeyedTuple)
    requires Sorted(s) && !HasKey(s, Key(t))
    ensures Sorted(InsertSorted(s, t))
    ensures |InsertSorted(s, t)| == |s| + 1
    ensures multiset(InsertSorted(s, t)) == multiset(s) + multiset{t}
  {
    var p := InsertionPoint(s, Key(t));
    var r := InsertSorted(s, t);
    InsertionPointSplits(s, Key(t));
    assert r == s[..p] + [t] + s[p..];
    assert s == s[..p] + s[p..];
    forall i | 0 <= i < |r| ensures r[i] == if i < p then s[i] else if i == p then t else s[i - 1] {
    }
    forall i, j | 0 <= i < j < |r| ensures Key(r[i]) < Key(r[j]) {
      if i == p {
        assert Key(s[j - 1]) != Key(t);
      }
    }
  }

  /** Removing one tuple keeps the page strictly sorted. */
  lemma RemoveAtKeepsOrder(s: seq<KeyedTuple>, i: int)
    requires Sorted(s) && 0 <= i < |s|
    ensures Sorted(RemoveAt(s, i))
    ensures multiset(s) == multiset(RemoveAt(s, i)) + multiset{s[i]}
  {
    var r := RemoveAt(s, i);
    forall a, b | 0 <= a < b < |r| ensures Key(r[a]) < Key(r[b]) {
      var a' := if a < i then a else a + 1;
      var b' := if b < i then b else b + 1;
      assert r[a] == s[a'] && r[b] == s[b'];
    }
    assert s == s[..i] + [s[i]] + s[i + 1..];
  }

  /** On a sorted page every probe partitions the tuples, as binary search needs. */
  lemma SortedIsPartitioned(s: seq<KeyedTuple>, o: Operand)
    requires Sorted(s)
    ensures Utils.Partitioned(s, x => CompareTo(x, o))
  {
  }

  /** What serialisation stores of a page: every field, the reference included. */
  datatype PageImage = PageImage(
    tuples: seq<KeyedTuple>,
    tableName: string,
    pageIndex: int,
    min: Option<int>,
    max: Option<int>,
    reference: PageReference)

  /**
   * The page invariant: tuples strictly sorted, the reference names this
   * page, and a non-empty page caches its first and last key as min and
   * max, in itself and in its reference, with its size.
   */
  ghost predicate ImageValid(img: PageImage)
  {
    && Sorted(img.tuples)
    && img.reference.tableName == img.tableName
    && img.reference.pageIndex == img.pageIndex
    && (|img.tuples| > 0 ==>
          && img.min == Some(Key(img.tuples[0]))
          && img.max == Some(Key(img.tuples[|img.tuples| - 1]))
          && img.reference.min == img.min
          && img.reference.max == img.max
          && img.reference.size == |img.tuples|)
  }

  /**
   * `ImageValid` stated on the parts of an image rather than on the image
   * itself. A stored page is checked with `ImageValid`; a live `Page`
   * with this form, on its own fields, because the verifier then need not
   * build and take apart an image at every step. The ensures makes the
   * two interchangeable.
   */
  ghost predicate FieldsValid(tuples: seq<KeyedTuple>, tableName: string, pageIndex: int,
                              min: Option<int>, max: Option<int>, reference: PageReference)
    ensures FieldsValid(tuples, tableName, pageIndex, min, max, reference) <==>
            ImageValid(PageImage(tuples, tableName, pageIndex, min, max, reference))
  {
    && Sorted(tuples)
    && reference.tableName == tableName
    && reference.pageIndex == pageIndex
    && (|tuples| > 0 ==>
          && min == Some(Key(tuples[0]))
          && max == Some(Key(tuples[|tuples| - 1]))
          && reference.min == min
          && reference.max == max
          && reference.size == |tuples|)
  }

  /** The image of a page fresh from the constructor. */
  function NewImage(tableName: string, pageIndex: int): (img: PageImage)
    ensures ImageValid(img)
    ensures img.tuples == [] && img.min.None? && img.max.None?
    ensures img.reference == NewReference(tableName, pageIndex)
  {
    PageImage([], tableName, pageIndex, None, None, NewReference(tableName, pageIndex))
  }

  class Page {
    var tuples: seq<KeyedTuple>
    const tableName: string
    const pageIndex: int
    var min: Option<int>
    var max: Option<int>
    var pageReference: PageReference

    function Image(): PageImage
      reads this
    {
      PageImage(tuples, tableName, pageIndex, min, max, pageReference)
    }

    ghost predicate Valid()
      reads this
    {
      FieldsValid(tuples, tableName, pageIndex, min, max, pageReference)
    }

    /** A new page is empty, has no min or max, and owns a new reference with the same table and index. */
    constructor (tableName: string, pageIndex: int)
      ensures Valid()
      ensures Image() == NewImage(tableName, pageIndex)
    {
      this.tableName := tableName;
      this.pageIndex := pageIndex;
      this.min := None;
      this.max := None;
      this.tuples := [];
      this.pageReference := NewReference(tableName, pageIndex);
    }

    /** Deserialisation: a new object, and a new reference, holding a copy of the stored fields. */
    constructor Restore(img: PageImage)
      requires ImageValid(img)
      ensures Valid()
      ensures Image() == img
    {
      tableName := img.tableName;
      pageIndex := img.pageIndex;
      tuples := img.tuples;
      min := img.min;
      max := img.max;
      pageReference := img.reference;
    }

    /** `isEmpty`: a consistent page that is not empty knows its min and max. */
    predicate IsEmpty()
      reads this
      ensures Valid() && !IsEmpty() ==> |tuples| > 0 && min == Some(Key(tuples[0])) && max == Some(Key(tuples[|tuples| - 1]))
    {
      |tuples| == 0
    }

    /** `isFull`: the page holds exactly the capacity, so it is neither empty nor overflowing. */
    predicate IsFull()
      reads this
      ensures IsFull() ==> !IsEmpty() && !IsOverflow()
    {
      |tuples| == MaxRowsCountInPage
    }

    /** `isOverflow`: the page holds more than the capacity, so it is not empty. */
    predicate IsOverflow()
      reads this
      ensures IsOverflow() ==> !IsEmpty() && |tuples| >= MaxRowsCountInPage + 1
    {
      |tuples| > MaxRowsCountInPage
    }

    /** `isPageFull`: the page passed in holds at least the capacity. */
    predicate IsPageFull(page: Page)
      reads page
      ensures IsPageFull(page) <==> page.IsFull() || page.IsOverflow()
    {
      |page.tuples| >= MaxRowsCountInPage
    }

    /** Looks a key up by binary search; NotFound when no tuple holds it. */
    method GetTuple(key: int) returns (r: Outcome<KeyedTuple>)
      requires Valid()
      ensures r.Ok? <==> HasKey(tuples, key)
      ensures r.Ok? ==> r.value in tuples && Key(r.value) == key
      ensures r.Err? ==> r.error == NotFound
    {
      SortedIsPartitioned(tuples, KeyArg(key));
      var index := Utils.BinarySearch(tuples, x => CompareTo(x, KeyArg(key)));
      if index < 0 {
        return Err(NotFound);
      }
      r := Ok(tuples[index]);
    }

    /**
     * Recomputes min and max from the first and last tuple and copies
     * them, with the size, into the page's own reference. Reading the
     * first tuple of an empty vector throws before anything changes.
     */
    method UpdateMinMax() returns (err: Option<DbError>)
      modifies this
      ensures tuples == old(tuples)
      ensures |tuples| == 0 ==> err == Some(IndexOutOfBounds) && Image() == old(Image())
      ensures |tuples| > 0 ==>
        && err.None?
        && min == Some(Key(tuples[0]))
        && max == Some(Key(tuples[|tuples| - 1]))
        && pageReference == SetSize(SetMax(SetMin(old(pageReference), min), max), |tuples|)
      ensures Sorted(tuples) && old(pageReference).tableName == tableName && old(pageReference).pageIndex == pageIndex ==> Valid()
    {
      var size := |tuples|;
      if size == 0 {
        return Some(IndexOutOfBounds);
      }
      min := GetClusterKeyValue(tuples[0]);
      max := GetClusterKeyValue(tuples[size - 1]);
      pageReference := SetMin(pageReference, min);
      pageReference := SetMax(pageReference, max);
      pageReference := SetSize(pageReference, size);
      err := None;
    }

    /**
     * Inserts a tuple at its binary-search insertion point; a key
     * already present throws AlreadyExists and changes nothing.
     */
    method AddTuple(t: KeyedTuple) returns (err: Option<DbError>)
      requires Valid()
      modifies this
      ensures Valid()
      ensures err.Some? <==> HasKey(old(tuples), Key(t))
      ensures err.Some? ==> err.value == AlreadyExists && Image() == old(Image())
      ensures err.None? ==> tuples == InsertSorted(old(tuples), t)
      ensures err.None? ==> |tuples| == |old(tuples)| + 1
      ensures err.None? ==> multiset(tuples) == multiset(old(tuples)) + multiset{t}
    {
      SortedIsPartitioned(tuples, TupleArg(t));
      var index := Utils.BinarySearch(tuples, x => CompareTo(x, TupleArg(t)));
      if index >= 0 {
        return Some(AlreadyExists);
      }
      var insertIndex := Utils.InsertionIndex(index);
      FailedSearchIsInsertionPoint(tuples, TupleArg(t), insertIndex);
      InsertSortedKeepsOrder(tuples, t);
      tuples := tuples[..insertIndex] + [t] + tuples[insertIndex..];
      err := UpdateMinMax();
    }

    /**
     * Removes and returns the tuple holding a key. A null or absent key
     * throws NotFound and changes nothing; removing the last tuple
     * throws from `updateMinMax` after the removal, leaving min, max and
     * the reference as they were.
     */
    method RemoveTuple(key: Option<int>) returns (r: Outcome<KeyedTuple>)
      requires Valid()
      modifies this
      ensures Valid()
      ensures key.None? || !HasKey(old(tuples), key.value) ==> r == Err(NotFound) && Image() == old(Image())
      ensures key.Some? && HasKey(old(tuples), key.value) ==>
        var p := InsertionPoint(old(tuples), key.value);
        && p < |old(tuples)|
        && Key(old(tuples)[p]) == key.value
        && tuples == RemoveAt(old(tuples), p)
        && (|tuples| > 0 ==> r == Ok(old(tuples)[p]))
        && (|tuples| == 0 ==> r == Err(IndexOutOfBounds) && min == old(min) && max == old(max) && pageReference == old(pageReference))
    {
      if key.None? {
        return Err(NotFound);
      }
      var probe := CreateInstance(key.value);
      SortedIsPartitioned(tuples, TupleArg(probe));
      var index := Utils.BinarySearch(tuples, x => CompareTo(x, TupleArg(probe)));
      if index < 0 {
        return Err(NotFound);
      }
      var t := tuples[index];
      InsertionPointOfPresentKey(tuples, index);
      RemoveAtKeepsOrder(tuples, index);
      tuples := RemoveAt(tuples, index);
      var e := UpdateMinMax();
      if e.Some? {
        return Err(e.value);
      }
      r := Ok(t);
    }

    /**
     * Replaces the tuple holding t's key by t, in place; an absent key
     * throws NotFound and changes nothing.
     */
    method UpdateTuple(t: KeyedTuple) returns (err: Option<DbError>)
      requires Valid()
      modifies this
      ensures Valid()
      ensures err.Some? <==> !HasKey(old(tuples), Key(t))
      ensures err.Some? ==> err.value == NotFound && Image() == old(Image())
      ensures err.None? ==>
        var p := InsertionPoint(old(tuples), Key(t));
        p < |old(tuples)| && tuples == old(tuples)[p := t]
    {
      SortedIsPartitioned(tuples, TupleArg(t));
      var index := Utils.BinarySearch(tuples, x => CompareTo(x, TupleArg(t)));
      if index < 0 {
        return Some(NotFound);
      }
      InsertionPointOfPresentKey(tuples, index);
      ReplaceKeepsOrder(tuples, index, t);
      tuples := tuples[index := t];
      err := UpdateMinMax();
    }
  }

  /** A page is below capacity, full or overflowing, and `isPageFull` is the union of the last two. */
  lemma CapacityStates(page: Page)
    ensures |page.tuples| < MaxRowsCountInPage || page.IsFull() || page.IsOverflow()
    ensures !(page.IsFull() && page.IsOverflow())
  {
  }
}
