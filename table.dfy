/**
 * A table: the vector of page references used for routing, a row
 * count, and the pages themselves, kept in the table's page files.
 * Insertion routes a tuple to a page, grows the table when it is at
 * capacity, then runs one left-to-right redistribution pass and removes
 * the pages it finds empty.
 */
module Tables {
  import opened Common
  import opened Tuples
  import opened PageReferences
  import opened Pages
  import opened Storage
  import Utils

  /** How many tuples a shift loop bounded by `numShifts` and the source size n moves at most. */
  function ShiftCount(numShifts: int, n: int): (m: int)
    requires n >= 0
    ensures 0 <= m <= n && (numShifts > 0 ==> m <= numShifts)
    ensures m == n || m == numShifts || (numShifts <= 0 && m == 0)
    ensures numShifts <= 0 ==> m == 0
  {
    if numShifts <= 0 then 0 else if numShifts < n then numShifts else n
  }

  /**
   * How many tuples the pull loop moves into a receiving page of size
   * prevSize: it also stops when the receiving page becomes exactly full.
   */
  function PullCount(numShifts: int, n: int, prevSize: int): (m: int)
    requires n >= 0
    ensures 0 <= m <= ShiftCount(numShifts, n)
    ensures prevSize <= MaxRowsCountInPage ==> prevSize + m <= MaxRowsCountInPage
    ensures m < ShiftCount(numShifts, n) ==> prevSize + m == MaxRowsCountInPage
  {
    var limit := ShiftCount(numShifts, n);
    if prevSize <= MaxRowsCountInPage && MaxRowsCountInPage - prevSize < limit
    then MaxRowsCountInPage - prevSize
    else limit
  }

  /** A sequence split into two parts gives back each part by slicing. */
  lemma SplitAt(s: seq<KeyedTuple>, a: seq<KeyedTuple>, b: seq<KeyedTuple>)
    requires s == a + b
    ensures s[..|a|] == a && s[|a|..] == b
  {
  }

  /**
   * What one step of the redistribution pass saves as page i, given the
   * pages i and i+1 it loaded. The saved page is sorted and holds only
   * tuples of the two; an overflowing page of C+1 tuples keeps all but
   * its largest; a full page is kept as it is; a page below capacity
   * gains the smallest tuples of page i+1, as many as `PullCount`
   * allows with the pull bounded by its own old size, and never all
   * of page i+1.
   */
  ghost predicate PairStepped(cur: seq<KeyedTuple>, next: seq<KeyedTuple>, saved: seq<KeyedTuple>)
  {
    && Sorted(saved)
    && multiset(saved) <= multiset(cur) + multiset(next)
    && (|cur| == MaxRowsCountInPage + 1 ==> saved == cur[..MaxRowsCountInPage])
    && (|cur| == MaxRowsCountInPage ==> saved == cur)
    && (|cur| < MaxRowsCountInPage ==>
          var m := PullCount(|cur|, |next|, |cur|);
          && (m < |next| || |next| == 0)
          && |saved| == |cur| + m
          && multiset(saved) == multiset(cur) + multiset(next[..m]))
  }

  /** Page k was saved as a step over the stored pages k and k+1 before the pass. */
  ghost predicate PageStepped(before: map<int, PageImage>, after: map<int, PageImage>, k: int)
  {
    && k in before && k + 1 in before && k in after
    && PairStepped(before[k].tuples, before[k + 1].tuples, after[k].tuples)
  }

  /**
   * The store after a redistribution pass that completed `visited`
   * pairs: the same page files, the first `visited` pages each saved as
   * a step over the pages before the pass, the rest untouched.
   */
  ghost predicate Distributed(before: map<int, PageImage>, after: map<int, PageImage>, visited: int)
  {
    && after.Keys == before.Keys
    && 0 <= visited
    && (forall k :: k in after && k >= visited ==> after[k] == before[k])
    && (forall k :: 0 <= k < visited ==> PageStepped(before, after, k))
  }

  /**
   * The store after removing empty pages, as far as the pass got: some
   * page files deleted, the rest unchanged, and no file deleted that
   * held tuples.
   */
  ghost predicate EmptiesRemoved(before: map<int, PageImage>, after: map<int, PageImage>)
  {
    && after.Keys <= before.Keys
    && (forall k :: k in after ==> after[k] == before[k])
    && (forall k :: k in before && |before[k].tuples| > 0 ==> k in after)
  }

  /**
   * What placing a tuple does to a table with references `refs`,
   * `rows` rows and store `images`: with n1 pages once page 0 exists,
   * the key goes to page `target == (n1-1)/2`; if that page loaded, a
   * page is appended exactly when the table was full; the tuple is
   * added exactly when the page loaded and lacked its key, and then the
   * page is stored with the tuple inserted in key order and the row
   * counted. `placed` is the store afterwards.
   */
  ghost predicate Placed(refs: seq<PageReference>, rows: int, images: map<int, PageImage>, tuple: KeyedTuple,
                         target: int, added: bool, refs': seq<PageReference>, rows': int, placed: map<int, PageImage>)
  {
    var n1 := if |refs| == 0 then 1 else |refs|;
    var loaded := |refs| == 0 || target in images;
    var grow := loaded && rows >= MaxRowsCountInPage * n1;
    var page0 := if |refs| == 0 || target !in images then [] else images[target].tuples;
    && target == (n1 - 1) / 2
    && |refs'| == (if grow then n1 + 1 else n1)
    && refs' [..|refs|] == refs
    && (added <==> loaded && !HasKey(page0, Key(tuple)))
    && rows' == rows + (if added then 1 else 0)
    && placed.Keys == images.Keys + (if |refs| == 0 then {0} else {}) + (if grow then {n1} else {})
    && (forall k :: k in images && k != target ==> placed[k] == images[k])
    && (forall k :: k in placed && k !in images && k != target ==> placed[k].tuples == [])
    && (loaded && !added ==> placed[target].tuples == page0)
    && (added ==> placed[target].tuples == InsertSorted(page0, tuple))
  }

  /**
   * What the end of an insert did to the n pages it placed a tuple in,
   * from the store `saved` through `distributed`, after the pass over
   * `visited` pairs, to `final`. The pass stops at the first pair that
   * fails, which for pages of at most C+1 tuples is the first pair
   * `PairSucceeds` rejects; then nothing more happens. Otherwise the
   * removal of empty pages fails exactly when a page file is missing,
   * at the highest such page `stop`, having handled the pages above it.
   */
  ghost predicate Rearranged(saved: map<int, PageImage>, distributed: map<int, PageImage>, final: map<int, PageImage>,
                             n: int, visited: int, stop: int, err: Option<DbError>)
  {
    && Distributed(saved, distributed, visited) && EmptiesRemoved(distributed, final)
    && (err.None? ==> visited == n - 1 && forall k :: k in final ==> |final[k].tuples| > 0)
    && (WithinOverflow(saved) ==>
          && PassSucceeded(saved, visited)
          && (visited + 1 < n <==> !PassSucceeded(saved, n - 1)))
    && (visited + 1 < n ==>
          && err.Some? && final == distributed
          && (err == Some(MissingFile) <==> !(visited in saved && visited + 1 in saved))
          && (WithinOverflow(saved) ==> !PairSucceeds(saved, visited))
          && (WithinOverflow(saved) ==> (err == Some(IndexOutOfBounds) <==> PairEmpties(saved, visited))))
    && (visited + 1 >= n ==>
          && (err.None? <==> forall k :: 0 <= k < n ==> k in distributed)
          && (err.Some? ==>
                && err == Some(MissingFile) && 0 <= stop < n && stop !in distributed
                && RemovalProgress(distributed, final, stop, n)))
  }

  /**
   * Placing a tuple in a table whose stored pages are at most full leaves
   * at most one page, the target, one tuple over capacity.
   */
  lemma PlacedWithinOverflow(refs: seq<PageReference>, rows: int, images: map<int, PageImage>, tuple: KeyedTuple,
                             target: int, added: bool, refs': seq<PageReference>, rows': int, placed: map<int, PageImage>)
    requires Placed(refs, rows, images, tuple, target, added, refs', rows', placed)
    requires forall k :: k in images ==> |images[k].tuples| <= MaxRowsCountInPage
    ensures WithinOverflow(placed)
  {
    forall k | k in placed
      ensures |placed[k].tuples| <= MaxRowsCountInPage + 1
    {
      if k == target && added {
        var page0 := if |refs| == 0 || target !in images then [] else images[target].tuples;
        var p := InsertionPoint(page0, Key(tuple));
        assert |InsertSorted(page0, tuple)| == |page0[..p]| + 1 + |page0[p..]|;
      }
    }
  }

  /** Placing the first tuple of a new table adds it, alone, to a new page 0. */
  lemma FirstPlacement(tuple: KeyedTuple, target: int, added: bool, refs': seq<PageReference>, rows': int, placed: map<int, PageImage>)
    requires Placed([], 0, map[], tuple, target, added, refs', rows', placed)
    ensures added && target == 0 && |refs'| == 1 && rows' == 1
    ensures placed.Keys == {0} && placed[0].tuples == [tuple]
  {
    assert !HasKey([], Key(tuple));
    assert InsertSorted([], tuple) == [tuple];
  }

  /** Placing into page `target` of a table that has pages and a file for that page. */
  lemma PlacedAt(refs: seq<PageReference>, rows: int, images: map<int, PageImage>, tuple: KeyedTuple, target: int, added: bool,
                 refs': seq<PageReference>, rows': int, grow: bool, extra: PageImage, images2: map<int, PageImage>, placed: map<int, PageImage>)
    requires |refs| > 0 && target == (|refs| - 1) / 2 && target in images && |refs| !in images
    requires grow == (rows >= MaxRowsCountInPage * |refs|)
    requires |refs'| == |refs| + (if grow then 1 else 0) && refs'[..|refs|] == refs
    requires extra.tuples == [] && images2 == if grow then images[|refs| := extra] else images
    requires added <==> !HasKey(images[target].tuples, Key(tuple))
    requires rows' == rows + (if added then 1 else 0)
    requires !added ==> placed == images2
    requires added ==>
      && target in placed && placed == images2[target := placed[target]]
      && placed[target].tuples == InsertSorted(images[target].tuples, tuple)
    ensures Placed(refs, rows, images, tuple, target, added, refs', rows', placed)
  {
  }

  /** A table whose routed page has no file places nothing. */
  lemma NotLoadedPlaced(refs: seq<PageReference>, rows: int, images: map<int, PageImage>, tuple: KeyedTuple, target: int)
    requires |refs| > 0 && target == (|refs| - 1) / 2 && target !in images
    ensures Placed(refs, rows, images, tuple, target, false, refs, rows, images)
  {
  }

  /** Creating page 0 of an empty table first and then placing is placing into the empty table. */
  lemma FirstPagePlaced(refs0: seq<PageReference>, images0: map<int, PageImage>, refs1: seq<PageReference>, images1: map<int, PageImage>,
                        rows: int, tuple: KeyedTuple, target: int, added: bool, refs': seq<PageReference>, rows': int, placed: map<int, PageImage>)
    requires |refs0| == 0 && images0 == map[] && |refs1| == 1
    requires 0 in images1 && images1.Keys == {0} && images1[0].tuples == []
    requires Placed(refs1, rows, images1, tuple, target, added, refs', rows', placed)
    ensures Placed(refs0, rows, images0, tuple, target, added, refs', rows', placed)
  {
  }

  /**
   * After a pass over pages holding at most C+1 tuples each, every page
   * the pass saved is within capacity.
   */
  lemma DistributedWithinCapacity(before: map<int, PageImage>, after: map<int, PageImage>, visited: int)
    requires Distributed(before, after, visited)
    requires WithinOverflow(before)
    ensures forall k :: 0 <= k < visited ==> k in after && |after[k].tuples| <= MaxRowsCountInPage
  {
    forall k | 0 <= k < visited
      ensures k in after && |after[k].tuples| <= MaxRowsCountInPage
    {
      assert PageStepped(before, after, k);
      PairSteppedWithinCapacity(before[k].tuples, before[k + 1].tuples, after[k].tuples);
    }
  }

  /**
   * Progress of the `removeEmptyPages` loop, which has handled the pages
   * above i out of n: only empty files are gone, every page above i had
   * its file, and no page above i is left empty.
   */
  ghost predicate RemovalProgress(start: map<int, PageImage>, cur: map<int, PageImage>, i: int, n: int)
  {
    && EmptiesRemoved(start, cur)
    && (forall k :: k in start && k <= i ==> k in cur)
    && (forall k :: i < k < n ==> k in start)
    && (forall k :: k in cur && k > i ==> |cur[k].tuples| > 0)
  }

  /** Handling page i, which has a file, is one more step of progress. */
  lemma RemovalStep(start: map<int, PageImage>, cur: map<int, PageImage>, cur': map<int, PageImage>, i: int, n: int)
    requires RemovalProgress(start, cur, i, n) && i < n && i in cur
    requires cur' == if |cur[i].tuples| == 0 then cur - {i} else cur
    ensures RemovalProgress(start, cur', i - 1, n)
  {
    forall k | k in start && |start[k].tuples| > 0
      ensures k in cur'
    {
      assert k in cur;
    }
  }

  /** A page whose file is missing when the loop reaches it had no file to begin with. */
  lemma RemovalStops(start: map<int, PageImage>, cur: map<int, PageImage>, i: int, n: int)
    requires RemovalProgress(start, cur, i, n) && 0 <= i < n && i !in cur
    ensures !(forall k :: 0 <= k < n ==> k in start)
  {
    assert i !in start;
  }

  /** Once every page is handled, every page had its file and none of those left is empty. */
  lemma RemovalDone(start: map<int, PageImage>, cur: map<int, PageImage>, n: int)
    requires RemovalProgress(start, cur, -1, n)
    requires forall k :: k in start ==> 0 <= k
    ensures forall k :: 0 <= k < n ==> k in start
    ensures forall k :: k in cur ==> |cur[k].tuples| > 0
  {
  }

  /** Saving page i after the pages before it keeps their steps and adds its own. */
  lemma SavingKeepsSteps(start: map<int, PageImage>, before: map<int, PageImage>, after: map<int, PageImage>, i: int)
    requires forall k :: 0 <= k < i ==> PageStepped(start, before, k)
    requires i in before && i in start && i + 1 in start && i in after && after == before[i := after[i]]
    requires PairStepped(start[i].tuples, start[i + 1].tuples, after[i].tuples)
    ensures forall k :: 0 <= k <= i ==> PageStepped(start, after, k)
  {
    forall k | 0 <= k <= i
      ensures PageStepped(start, after, k)
    {
      if k < i {
        assert PageStepped(start, before, k);
        assert after[k] == before[k];
      }
    }
  }

  /** A page holding at most one tuple over capacity is saved within capacity. */
  lemma PairSteppedWithinCapacity(cur: seq<KeyedTuple>, next: seq<KeyedTuple>, saved: seq<KeyedTuple>)
    requires PairStepped(cur, next, saved) && |cur| <= MaxRowsCountInPage + 1
    ensures |saved| <= MaxRowsCountInPage
  {
  }

  /** The push half of a pair step: only an overflowing page gives up its largest tuple. */
  ghost predicate OverflowStep(cur0: seq<KeyedTuple>, next0: seq<KeyedTuple>, cur1: seq<KeyedTuple>, next1: seq<KeyedTuple>)
  {
    if |cur0| > MaxRowsCountInPage then
      && cur1 == cur0[..|cur0| - 1]
      && multiset(next1) == multiset(next0) + multiset{cur0[|cur0| - 1]}
      && |next1| == |next0| + 1
    else
      cur1 == cur0 && next1 == next0
  }

  /** The pull half of a pair step: a page that is not exactly full takes from a non-empty next page. */
  ghost predicate PullStep(cur1: seq<KeyedTuple>, next1: seq<KeyedTuple>, cur2: seq<KeyedTuple>)
  {
    if |cur1| != MaxRowsCountInPage && |next1| > 0 then
      var m := PullCount(|cur1|, |next1|, |cur1|);
      && m < |next1|
      && |cur2| == |cur1| + m
      && multiset(cur2) == multiset(cur1) + multiset(next1[..m])
    else
      cur2 == cur1
  }

  /**
   * When one pair step completes, for a page of at most C+1 tuples: an
   * overflowing page's last key must be new to the next page (the pull
   * that follows then meets an exactly full page and does nothing);
   * otherwise the pull, when it runs, must complete.
   */
  ghost predicate StepSucceeds(cur: seq<KeyedTuple>, next: seq<KeyedTuple>)
  {
    if |cur| > MaxRowsCountInPage then
      !HasKey(next, Key(cur[|cur| - 1]))
    else
      |cur| == MaxRowsCountInPage || |next| == 0 || PullSucceeds(next, cur, |cur|)
  }

  /**
   * When one pair step throws IndexOutOfBounds, for a page of at most
   * C+1 tuples: only a page below capacity pulls, and its pull empties
   * the next page. An overflowing page's push moves one of more than C
   * tuples, so it can only meet a key already in the next page.
   */
  ghost predicate StepEmpties(cur: seq<KeyedTuple>, next: seq<KeyedTuple>)
  {
    |cur| < MaxRowsCountInPage && |next| > 0 && PullEmpties(next, cur, |cur|)
  }

  /** Both files of the pair (k, k+1) are present and stepping them throws IndexOutOfBounds. */
  ghost predicate PairEmpties(images: map<int, PageImage>, k: int)
  {
    && k in images && k + 1 in images
    && StepEmpties(images[k].tuples, images[k + 1].tuples)
  }

  /** Both files of the pair (k, k+1) are present and stepping them completes. */
  ghost predicate PairSucceeds(images: map<int, PageImage>, k: int)
  {
    && k in images && k + 1 in images
    && StepSucceeds(images[k].tuples, images[k + 1].tuples)
  }

  /** The pairs (0, 1) .. (v-1, v) of the stored pages all step without an exception. */
  ghost predicate PassSucceeded(images: map<int, PageImage>, v: int)
  {
    forall k :: 0 <= k < v ==> PairSucceeds(images, k)
  }

  /** No stored page holds more than one tuple above capacity. */
  ghost predicate WithinOverflow(images: map<int, PageImage>)
  {
    forall k :: k in images ==> |images[k].tuples| <= MaxRowsCountInPage + 1
  }

  /** The pass from `start` has stepped the first `visited` pairs, each without an exception where the pages allow saying so. */
  ghost predicate PassState(start: map<int, PageImage>, images: map<int, PageImage>, visited: int)
  {
    && Distributed(start, images, visited)
    && (WithinOverflow(start) ==> PassSucceeded(start, visited))
  }

  /** Saving page i as a completed step over the pair (i, i+1) extends the pass by one pair. */
  lemma PassStep(start: map<int, PageImage>, before: map<int, PageImage>, after: map<int, PageImage>, i: int)
    requires PassState(start, before, i)
    requires i in before && i + 1 in before && i in after && after == before[i := after[i]]
    requires PairStepped(before[i].tuples, before[i + 1].tuples, after[i].tuples)
    requires WithinOverflow(start) ==> PairSucceeds(before, i)
    ensures PassState(start, after, i + 1)
  {
    PairUntouched(start, before, i);
    assert before[i] == start[i] && before[i + 1] == start[i + 1];
    SavingKeepsSteps(start, before, after, i);
  }

  /** Pages from `i` on are as the pass found them, so pair i steps as it would have at the start. */
  lemma PairUntouched(start: map<int, PageImage>, before: map<int, PageImage>, i: int)
    requires Distributed(start, before, i)
    ensures PairSucceeds(before, i) <==> PairSucceeds(start, i)
    ensures PairEmpties(before, i) <==> PairEmpties(start, i)
    ensures (i in before <==> i in start) && (i + 1 in before <==> i + 1 in start)
    ensures WithinOverflow(start) && i in before ==> |before[i].tuples| <= MaxRowsCountInPage + 1
  {
    if i in before {
      assert before[i] == start[i];
    }
    if i + 1 in before {
      assert before[i + 1] == start[i + 1];
    }
  }

  /** The two halves of a pair step together make the step `PairStepped` describes. */
  lemma StepsCompose(cur0: seq<KeyedTuple>, next0: seq<KeyedTuple>, cur1: seq<KeyedTuple>, next1: seq<KeyedTuple>, cur2: seq<KeyedTuple>)
    requires OverflowStep(cur0, next0, cur1, next1) && PullStep(cur1, next1, cur2) && Sorted(cur2)
    ensures PairStepped(cur0, next0, cur2)
  {
    assert multiset(cur1) + multiset(next1) == multiset(cur0) + multiset(next0) by {
      if |cur0| > MaxRowsCountInPage {
        assert cur0 == cur1 + [cur0[|cur0| - 1]];
      }
    }
    if |cur1| != MaxRowsCountInPage && |next1| > 0 {
      PrefixMultiset(next1, PullCount(|cur1|, |next1|, |cur1|));
    }
    if |cur0| < MaxRowsCountInPage && |next0| == 0 {
      assert next0[..0] == [];
    }
  }

  /**
   * An overflowing page of C+1 tuples is saved without its largest
   * tuple, and that tuple is pushed only into the in-memory copy of the
   * next page, which the pass never saves: the tuple is in neither file.
   */
  lemma {:induction false} OverflowDropsLargest(cur: seq<KeyedTuple>, next: seq<KeyedTuple>, saved: seq<KeyedTuple>)
    requires PairStepped(cur, next, saved) && Sorted(cur) && |cur| == MaxRowsCountInPage + 1
    ensures |saved| == MaxRowsCountInPage
    ensures cur[MaxRowsCountInPage] !in saved
  {
    forall j | 0 <= j < MaxRowsCountInPage
      ensures saved[j] != cur[MaxRowsCountInPage]
    {
      assert Key(cur[j]) < Key(cur[MaxRowsCountInPage]);
    }
  }

  /**
   * Progress of the push loop: the page that started as `cur0` has
   * given up its tail `moved`, and the receiving page that started as
   * `next0` has gained exactly those tuples.
   */
  ghost predicate PushProgress(cur0: seq<KeyedTuple>, next0: seq<KeyedTuple>, moved: seq<KeyedTuple>, cur: seq<KeyedTuple>, next: seq<KeyedTuple>)
  {
    && cur0 == cur + moved
    && |next| == |next0| + |moved|
    && multiset(next) == multiset(next0) + multiset(moved)
  }

  /** Moving the last tuple of the giving page to the receiving page is one more step of progress. */
  lemma PushProgressStep(cur0: seq<KeyedTuple>, next0: seq<KeyedTuple>, moved: seq<KeyedTuple>,
                         cur: seq<KeyedTuple>, next: seq<KeyedTuple>, cur': seq<KeyedTuple>, next': seq<KeyedTuple>, last: KeyedTuple)
    requires PushProgress(cur0, next0, moved, cur, next)
    requires cur == cur' + [last] && |next'| == |next| + 1 && multiset(next') == multiset(next) + multiset{last}
    ensures PushProgress(cur0, next0, [last] + moved, cur', next')
  {
    assert cur0 == cur' + ([last] + moved);
  }

  /** The invariant of the push loop after |moved| rounds: the progress, the bounds on the round count, and no key met so far. */
  ghost predicate PushLoopState(cur0: seq<KeyedTuple>, next0: seq<KeyedTuple>, moved: seq<KeyedTuple>,
                                cur: seq<KeyedTuple>, next: seq<KeyedTuple>, numShifts: int)
  {
    && Sorted(cur0)
    && PushProgress(cur0, next0, moved, cur, next)
    && (|moved| == 0 || (|moved| <= numShifts && |moved| < |cur0|))
    && PushedFresh(cur0, next0, |moved|)
  }

  /** When the push loop stops, its progress is the promised outcome of `shiftTuplesNext`. */
  lemma PushDone(cur0: seq<KeyedTuple>, next0: seq<KeyedTuple>, moved: seq<KeyedTuple>, cur: seq<KeyedTuple>, next: seq<KeyedTuple>, numShifts: int)
    requires PushLoopState(cur0, next0, moved, cur, next, numShifts)
    requires !(|moved| < numShifts && |moved| < |cur0|)
    ensures PushSucceeds(cur0, next0, numShifts)
    ensures
      var n := |cur0|;
      var m := ShiftCount(numShifts, n);
      && (m < n || n == 0)
      && cur == cur0[..n - m]
      && multiset(next) == multiset(next0) + multiset(cur0[n - m..])
      && |next| == |next0| + m
  {
    SplitAt(cur0, cur, moved);
  }

  /**
   * Progress of the pull loop: the page that started as `cur0` has
   * given up its head `moved`, and the receiving page that started as
   * `prev0` has gained exactly those tuples.
   */
  ghost predicate PullProgress(cur0: seq<KeyedTuple>, prev0: seq<KeyedTuple>, moved: seq<KeyedTuple>, cur: seq<KeyedTuple>, prev: seq<KeyedTuple>)
  {
    && cur0 == moved + cur
    && |prev| == |prev0| + |moved|
    && multiset(prev) == multiset(prev0) + multiset(moved)
  }

  /** Moving the first tuple of the giving page to the receiving page is one more step of progress. */
  lemma PullProgressStep(cur0: seq<KeyedTuple>, prev0: seq<KeyedTuple>, moved: seq<KeyedTuple>,
                         cur: seq<KeyedTuple>, prev: seq<KeyedTuple>, cur': seq<KeyedTuple>, prev': seq<KeyedTuple>, first: KeyedTuple)
    requires PullProgress(cur0, prev0, moved, cur, prev)
    requires cur == [first] + cur' && |prev'| == |prev| + 1 && multiset(prev') == multiset(prev) + multiset{first}
    ensures PullProgress(cur0, prev0, moved + [first], cur', prev')
  {
    assert cur0 == (moved + [first]) + cur';
  }

  /**
   * The invariant of the pull loop after |moved| rounds: the progress,
   * the bounds on the round count (the receiving page is never pushed
   * past the capacity it was below), and no key met so far.
   */
  ghost predicate PullLoopState(cur0: seq<KeyedTuple>, prev0: seq<KeyedTuple>, moved: seq<KeyedTuple>,
                                cur: seq<KeyedTuple>, prev: seq<KeyedTuple>, numShifts: int)
  {
    && Sorted(cur0)
    && PullProgress(cur0, prev0, moved, cur, prev)
    && (|moved| == 0 || (|moved| <= numShifts && |moved| < |cur0|))
    && (|prev0| <= MaxRowsCountInPage ==> |prev0| + |moved| <= MaxRowsCountInPage)
    && PulledFresh(cur0, prev0, |moved|)
  }

  /** When the pull loop stops, its progress is the promised outcome of `shiftTuplesPrevious`. */
  lemma PullDone(cur0: seq<KeyedTuple>, prev0: seq<KeyedTuple>, moved: seq<KeyedTuple>, cur: seq<KeyedTuple>, prev: seq<KeyedTuple>, numShifts: int)
    requires PullLoopState(cur0, prev0, moved, cur, prev, numShifts)
    requires !(|moved| < numShifts && |moved| < |cur0| && |prev| != MaxRowsCountInPage)
    ensures PullSucceeds(cur0, prev0, numShifts)
    ensures
      var m := PullCount(numShifts, |cur0|, |prev0|);
      && (m < |cur0| || |cur0| == 0)
      && cur == cur0[m..]
      && multiset(prev) == multiset(prev0) + multiset(cur0[..m])
      && |prev| == |prev0| + m
  {
    PullStops(numShifts, |cur0|, |prev0|, |moved|);
    SplitAt(cur0, moved, cur);
  }

  /** The pull loop stops after exactly `PullCount` rounds. */
  lemma PullStops(numShifts: int, n: int, prevSize: int, i: int)
    requires n >= 0 && 0 <= i && (i == 0 || (i <= numShifts && i <= n))
    requires prevSize <= MaxRowsCountInPage ==> prevSize + i <= MaxRowsCountInPage
    requires !(i < numShifts && i < n && prevSize + i != MaxRowsCountInPage)
    ensures PullCount(numShifts, n, prevSize) == i
  {
  }

  /**
   * When `shiftTuplesNext` completes: each of its m rounds moves the
   * then last tuple, which fails on the page's only tuple (the refresh
   * after removing it throws) and on a key the receiving page already
   * holds. So it completes exactly when it leaves at least one tuple
   * behind and none of the m largest keys is in the receiving page.
   */
  ghost predicate PushSucceeds(cur: seq<KeyedTuple>, next: seq<KeyedTuple>, numShifts: int)
  {
    var m := ShiftCount(numShifts, |cur|);
    (m == 0 || m < |cur|) && PushedFresh(cur, next, m)
  }

  /**
   * When `shiftTuplesNext` throws IndexOutOfBounds: every round but the
   * last meets a key new to the receiving page, and the last round
   * removes the page's only tuple, whose refresh throws before the add.
   * Any other failure is a key the receiving page already holds.
   */
  ghost predicate PushEmpties(cur: seq<KeyedTuple>, next: seq<KeyedTuple>, numShifts: int)
  {
    var m := ShiftCount(numShifts, |cur|);
    m > 0 && m == |cur| && PushedFresh(cur, next, m - 1)
  }

  /** None of the i largest keys of cur0 is in next0. */
  ghost predicate PushedFresh(cur0: seq<KeyedTuple>, next0: seq<KeyedTuple>, i: int)
    decreases i
  {
    && 0 <= i <= |cur0|
    && (i == 0 || (PushedFresh(cur0, next0, i - 1) && !HasKey(next0, Key(cur0[|cur0| - i]))))
  }

  /**
   * When `shiftTuplesPrevious` completes: the same for its m rounds
   * over the smallest keys, m being the pull count.
   */
  ghost predicate PullSucceeds(cur: seq<KeyedTuple>, prev: seq<KeyedTuple>, numShifts: int)
  {
    var m := PullCount(numShifts, |cur|, |prev|);
    (m == 0 || m < |cur|) && PulledFresh(cur, prev, m)
  }

  /** When `shiftTuplesPrevious` throws IndexOutOfBounds: the same for its m rounds over the smallest keys. */
  ghost predicate PullEmpties(cur: seq<KeyedTuple>, prev: seq<KeyedTuple>, numShifts: int)
  {
    var m := PullCount(numShifts, |cur|, |prev|);
    m > 0 && m == |cur| && PulledFresh(cur, prev, m - 1)
  }

  /** None of the i smallest keys of cur0 is in prev0. */
  ghost predicate PulledFresh(cur0: seq<KeyedTuple>, prev0: seq<KeyedTuple>, i: int)
    decreases i
  {
    && 0 <= i <= |cur0|
    && (i == 0 || (PulledFresh(cur0, prev0, i - 1) && !HasKey(prev0, Key(cur0[i - 1]))))
  }

  /** `PushedFresh` says of each of the i largest keys that the receiving page lacks it. */
  lemma {:induction false} PushedFreshMeans(cur0: seq<KeyedTuple>, next0: seq<KeyedTuple>, i: int)
    requires 0 <= i <= |cur0|
    ensures PushedFresh(cur0, next0, i) <==> forall j :: |cur0| - i <= j < |cur0| ==> !HasKey(next0, Key(cur0[j]))
    decreases i
  {
    if i > 0 {
      PushedFreshMeans(cur0, next0, i - 1);
    }
  }

  /** `PulledFresh` says of each of the i smallest keys that the receiving page lacks it. */
  lemma {:induction false} PulledFreshMeans(cur0: seq<KeyedTuple>, prev0: seq<KeyedTuple>, i: int)
    requires 0 <= i <= |cur0|
    ensures PulledFresh(cur0, prev0, i) <==> forall j :: 0 <= j < i ==> !HasKey(prev0, Key(cur0[j]))
    decreases i
  {
    if i > 0 {
      PulledFreshMeans(cur0, prev0, i - 1);
    }
  }

  /** Fewer rounds meet no key when more rounds met none. */
  lemma {:induction false} PushedFreshPrefix(cur0: seq<KeyedTuple>, next0: seq<KeyedTuple>, i: int, j: int)
    requires 0 <= i <= j && PushedFresh(cur0, next0, j)
    ensures PushedFresh(cur0, next0, i)
    decreases j
  {
    if i < j {
      PushedFreshPrefix(cur0, next0, i, j - 1);
    }
  }

  /** Fewer rounds meet no key when more rounds met none. */
  lemma {:induction false} PulledFreshPrefix(cur0: seq<KeyedTuple>, prev0: seq<KeyedTuple>, i: int, j: int)
    requires 0 <= i <= j && PulledFresh(cur0, prev0, j)
    ensures PulledFresh(cur0, prev0, i)
    decreases j
  {
    if i < j {
      PulledFreshPrefix(cur0, prev0, i, j - 1);
    }
  }

  /** A page holding the tuples of two others holds a key exactly when one of them does. */
  lemma HasKeyOfSum(s: seq<KeyedTuple>, a: seq<KeyedTuple>, b: seq<KeyedTuple>, k: int)
    requires multiset(s) == multiset(a) + multiset(b)
    ensures HasKey(s, k) <==> HasKey(a, k) || HasKey(b, k)
  {
    if HasKey(s, k) {
      var i :| 0 <= i < |s| && Key(s[i]) == k;
      assert s[i] in multiset(s);
      if s[i] in multiset(a) {
        var j :| 0 <= j < |a| && a[j] == s[i];
      } else {
        assert s[i] in multiset(b);
        var j :| 0 <= j < |b| && b[j] == s[i];
      }
    }
    if HasKey(a, k) {
      var j :| 0 <= j < |a| && Key(a[j]) == k;
      assert a[j] in multiset(s);
      var i :| 0 <= i < |s| && s[i] == a[j];
    }
    if HasKey(b, k) {
      var j :| 0 <= j < |b| && Key(b[j]) == k;
      assert b[j] in multiset(s);
      var i :| 0 <= i < |s| && s[i] == b[j];
    }
  }

  /**
   * The next push round succeeds exactly when it keeps the promise of
   * `PushSucceeds`: it fails on the last tuple of the page or on a key
   * of the original receiving page, because the tuples moved so far
   * have larger keys than the one in flight.
   */
  lemma PushRoundOutcome(cur0: seq<KeyedTuple>, next0: seq<KeyedTuple>, moved: seq<KeyedTuple>,
                         cur: seq<KeyedTuple>, next: seq<KeyedTuple>, numShifts: int)
    requires Sorted(cur0) && PushProgress(cur0, next0, moved, cur, next) && |cur| > 0
    requires |moved| < numShifts && PushedFresh(cur0, next0, |moved|)
    ensures !(|cur| > 1 && !HasKey(next, Key(cur[|cur| - 1]))) ==> !PushSucceeds(cur0, next0, numShifts)
    ensures |cur| > 1 && !HasKey(next, Key(cur[|cur| - 1])) ==> PushedFresh(cur0, next0, |moved| + 1)
    ensures |cur| == 1 ==> PushEmpties(cur0, next0, numShifts)
    ensures |cur| > 1 && HasKey(next, Key(cur[|cur| - 1])) ==> !PushEmpties(cur0, next0, numShifts)
  {
    var n, k, m := |cur0|, |cur| - 1, ShiftCount(numShifts, |cur0|);
    assert cur[k] == cur0[k];
    if PushSucceeds(cur0, next0, numShifts) {
      PushedFreshPrefix(cur0, next0, |moved| + 1, m);
    }
    if |cur| > 1 && PushEmpties(cur0, next0, numShifts) {
      PushedFreshPrefix(cur0, next0, |moved| + 1, m - 1);
    }
    HasKeyOfSum(next, next0, moved, Key(cur0[k]));
    assert !HasKey(moved, Key(cur0[k])) by {
      forall j | 0 <= j < |moved|
        ensures Key(moved[j]) != Key(cur0[k])
      {
        assert moved[j] == cur0[|cur| + j];
      }
    }
  }

  /** The pull counterpart of `PushRoundOutcome`, over the smallest keys. */
  lemma PullRoundOutcome(cur0: seq<KeyedTuple>, prev0: seq<KeyedTuple>, moved: seq<KeyedTuple>,
                         cur: seq<KeyedTuple>, prev: seq<KeyedTuple>, numShifts: int)
    requires Sorted(cur0) && PullProgress(cur0, prev0, moved, cur, prev) && |cur| > 0
    requires |moved| < numShifts && |prev| != MaxRowsCountInPage
    requires |prev0| <= MaxRowsCountInPage ==> |prev0| + |moved| <= MaxRowsCountInPage
    requires PulledFresh(cur0, prev0, |moved|)
    ensures !(|cur| > 1 && !HasKey(prev, Key(cur[0]))) ==> !PullSucceeds(cur0, prev0, numShifts)
    ensures |cur| > 1 && !HasKey(prev, Key(cur[0])) ==> PulledFresh(cur0, prev0, |moved| + 1)
    ensures |cur| == 1 ==> PullEmpties(cur0, prev0, numShifts)
    ensures |cur| > 1 && HasKey(prev, Key(cur[0])) ==> !PullEmpties(cur0, prev0, numShifts)
  {
    var k, m := |moved|, PullCount(numShifts, |cur0|, |prev0|);
    assert cur[0] == cur0[k];
    if PullSucceeds(cur0, prev0, numShifts) {
      PulledFreshPrefix(cur0, prev0, k + 1, m);
    }
    if |cur| > 1 && PullEmpties(cur0, prev0, numShifts) {
      PulledFreshPrefix(cur0, prev0, k + 1, m - 1);
    }
    HasKeyOfSum(prev, prev0, moved, Key(cur0[k]));
    assert !HasKey(moved, Key(cur0[k])) by {
      forall j | 0 <= j < |moved|
        ensures Key(moved[j]) != Key(cur0[k])
      {
        assert moved[j] == cur0[j];
      }
    }
  }

  /** A prefix holds no more of each tuple than the whole. */
  lemma PrefixMultiset(s: seq<KeyedTuple>, m: int)
    requires 0 <= m <= |s|
    ensures multiset(s[..m]) <= multiset(s)
  {
    assert s == s[..m] + s[m..];
  }

  class Table {
    var pagesReference: seq<PageReference>
    const tableName: string
    const clusterKeyName: string
    var rowsCount: int
    const store: PageStore

    /**
     * The table invariant: reference i is still the empty reference the
     * table added for page i (nothing ever updates the table's copies),
     * and each stored page is a valid page filed under its own index,
     * below the page count.
     */
    ghost predicate Valid()
      reads this, store
    {
      && rowsCount >= 0
      && (forall i :: 0 <= i < |pagesReference| ==> pagesReference[i] == NewReference(tableName, i))
      && (forall k :: k in store.images ==>
            && 0 <= k < |pagesReference|
            && ImageValid(store.images[k])
            && store.images[k].pageIndex == k
            && store.images[k].tableName == tableName)
    }

    /** A new table has no pages and no rows; its pages folder is empty. */
    constructor (tableName: string, clusterKeyName: string)
      ensures Valid()
      ensures this.tableName == tableName && this.clusterKeyName == clusterKeyName
      ensures pagesReference == [] && rowsCount == 0
      ensures fresh(store) && store.images == map[]
    {
      this.pagesReference := [];
      this.tableName := tableName;
      this.clusterKeyName := clusterKeyName;
      this.rowsCount := 0;
      this.store := new PageStore();
    }

    /** `getPagesCount`: the number of references the table keeps, one per page it has added. */
    function GetPagesCount(): (c: nat)
      reads this
      ensures c == |pagesReference|
    {
      |pagesReference|
    }

    /** `isFull`: the table holds at least C rows for every page, so on average C or more per page. */
    predicate IsFull()
      reads this
      ensures |pagesReference| > 0 ==> (IsFull() <==> rowsCount / |pagesReference| >= MaxRowsCountInPage)
    {
      rowsCount >= MaxRowsCountInPage * |pagesReference|
    }

    /** Appends a new page's reference and saves the page. */
    method AddPage(page: Page)
      requires Valid()
      requires page.Valid() && page.Image() == NewImage(tableName, |pagesReference|)
      modifies this, store
      ensures Valid()
      ensures pagesReference == old(pagesReference) + [NewReference(tableName, |old(pagesReference)|)]
      ensures store.images == old(store.images)[|old(pagesReference)| := NewImage(tableName, |old(pagesReference)|)]
      ensures rowsCount == old(rowsCount)
      ensures GetPagesCount() == old(GetPagesCount()) + 1
    {
      pagesReference := pagesReference + [page.pageReference];
      store.SerializePage(page);
    }

    /** Saves a valid page of this table over its file. */
    method SavePage(page: Page)
      requires Valid() && page.Valid()
      requires 0 <= page.pageIndex < |pagesReference| && page.tableName == tableName
      modifies store
      ensures Valid()
      ensures store.images == old(store.images)[page.pageIndex := page.Image()]
    {
      store.SerializePage(page);
    }

    /**
     * Deletes a page's file. The source also removes the page's
     * reference from the vector, by identity; the reference comes from a
     * page read back from its file, a copy that is never the object the
     * vector holds, so the vector keeps all its references.
     */
    method RemovePage(page: Page)
      requires Valid() && page.pageReference.pageIndex in store.images
      modifies store
      ensures Valid()
      ensures store.images == old(store.images) - {page.pageReference.pageIndex}
      ensures GetPagesCount() == old(GetPagesCount())
    {
      store.DeletePage(page.pageReference.pageIndex);
    }

    /**
     * `getPageIndex`: binary search of the references for the key,
     * decoded to an insertion point when no page claims it. Over
     * ordered, disjoint ranges this is the page whose range holds the
     * key or the first page above it; over the table's own references,
     * which are all empty, every comparison answers 0 and the search
     * stops at its first probe, the middle page.
     */
    method GetPageIndex(key: int) returns (index: int)
      ensures 0 <= index <= |pagesReference|
      ensures RangesOrdered(pagesReference) ==>
        && (forall i :: 0 <= i < index ==> pagesReference[i].max.value < key)
        && (index < |pagesReference| ==> key <= pagesReference[index].max.value)
        && (forall i :: index < i < |pagesReference| ==> key < pagesReference[i].min.value)
      ensures |pagesReference| > 0 && (forall i :: 0 <= i < |pagesReference| ==> pagesReference[i].min.None?) ==>
        index == (|pagesReference| - 1) / 2
    {
      if RangesOrdered(pagesReference) {
        OrderedRangesArePartitioned(pagesReference, key);
      }
      index := Utils.BinarySearch(pagesReference, r => CompareToKey(r, key));
      if index < 0 {
        index := Utils.InsertionIndex(index);
      }
    }
  
    /**
     * One round of the `shiftTuplesNext` loop: removes the tuple holding
     * `currentPage`'s max key and adds it to `nextPage`. Emptying
     * `currentPage` or a key already in `nextPage` throws, and the
     * removed tuple is then in neither page.
     */
    method MoveLargest(currentPage: Page, nextPage: Page) returns (err: Option<DbError>)
      requires currentPage != nextPage && currentPage.Valid() && nextPage.Valid()
      requires |currentPage.tuples| > 0
      modifies currentPage, nextPage
      ensures currentPage.Valid() && nextPage.Valid()
      ensures var k := |old(currentPage.tuples)| - 1;
        old(currentPage.tuples) == currentPage.tuples + [old(currentPage.tuples)[k]]
      ensures |currentPage.tuples| == |old(currentPage.tuples)| - 1
      ensures err.None? <==>
        var n := |old(currentPage.tuples)|;
        n > 1 && !HasKey(old(nextPage.tuples), Key(old(currentPage.tuples)[n - 1]))
      ensures err.None? ==>
        && |currentPage.tuples| > 0
        && multiset(nextPage.tuples) == multiset(old(nextPage.tuples)) + multiset{old(currentPage.tuples)[|old(currentPage.tuples)| - 1]}
        && |nextPage.tuples| == |old(nextPage.tuples)| + 1
      ensures err.Some? ==>
        && (err.value == AlreadyExists || err.value == IndexOutOfBounds)
        && |nextPage.tuples| == |old(nextPage.tuples)|
      ensures err == Some(IndexOutOfBounds) <==> |old(currentPage.tuples)| == 1
      ensures err == Some(AlreadyExists) <==>
        var n := |old(currentPage.tuples)|;
        n > 1 && HasKey(old(nextPage.tuples), Key(old(currentPage.tuples)[n - 1]))
    {
      var maxClusterKey := currentPage.max;
      RemovingLast(currentPage.tuples);
      var removed := currentPage.RemoveTuple(maxClusterKey);
      if removed.Err? {
        return Some(removed.error);
      }
      err := nextPage.AddTuple(removed.value);
    }

    /**
     * `shiftTuplesNext`: moves the largest-key tuple of `currentPage`
     * into `nextPage`, up to `numShifts` times and at most as many times
     * as `currentPage` held tuples. On success the moved tuples are the
     * old tail of `currentPage`; an exception on the way loses exactly
     * the one tuple in flight.
     */
    method ShiftTuplesNext(currentPage: Page, nextPage: Page, numShifts: int) returns (err: Option<DbError>)
      requires currentPage != nextPage && currentPage.Valid() && nextPage.Valid()
      modifies currentPage, nextPage
      ensures currentPage.Valid() && nextPage.Valid()
      ensures err.None? <==> PushSucceeds(old(currentPage.tuples), old(nextPage.tuples), numShifts)
      ensures err.None? ==>
        var n := |old(currentPage.tuples)|;
        var m := ShiftCount(numShifts, n);
        && (m < n || n == 0)
        && currentPage.tuples == old(currentPage.tuples)[..n - m]
        && multiset(nextPage.tuples) == multiset(old(nextPage.tuples)) + multiset(old(currentPage.tuples)[n - m..])
        && |nextPage.tuples| == |old(nextPage.tuples)| + m
      ensures err.Some? ==>
        && (err.value == AlreadyExists || err.value == IndexOutOfBounds)
        && |currentPage.tuples| + |nextPage.tuples| == |old(currentPage.tuples)| + |old(nextPage.tuples)| - 1
      ensures err == Some(IndexOutOfBounds) <==> PushEmpties(old(currentPage.tuples), old(nextPage.tuples), numShifts)
      ensures err == Some(AlreadyExists) <==>
        !PushSucceeds(old(currentPage.tuples), old(nextPage.tuples), numShifts) && !PushEmpties(old(currentPage.tuples), old(nextPage.tuples), numShifts)
    {
      ghost var moved;
      err, moved := PushLoop(currentPage, nextPage, numShifts);
      if err.None? {
        PushDone(old(currentPage.tuples), old(nextPage.tuples), moved, currentPage.tuples, nextPage.tuples, numShifts);
      }
    }

    /** The loop of `shiftTuplesNext`, with `moved` the tuples it has moved so far. */
    method PushLoop(currentPage: Page, nextPage: Page, numShifts: int) returns (err: Option<DbError>, ghost moved: seq<KeyedTuple>)
      requires currentPage != nextPage && currentPage.Valid() && nextPage.Valid()
      modifies currentPage, nextPage
      ensures currentPage.Valid() && nextPage.Valid()
      ensures err.None? ==>
        && PushLoopState(old(currentPage.tuples), old(nextPage.tuples), moved, currentPage.tuples, nextPage.tuples, numShifts)
        && !(|moved| < numShifts && |moved| < |old(currentPage.tuples)|)
      ensures err.Some? ==>
        && (err.value == AlreadyExists || err.value == IndexOutOfBounds)
        && |currentPage.tuples| + |nextPage.tuples| == |old(currentPage.tuples)| + |old(nextPage.tuples)| - 1
        && !PushSucceeds(old(currentPage.tuples), old(nextPage.tuples), numShifts)
        && (err.value == IndexOutOfBounds <==> PushEmpties(old(currentPage.tuples), old(nextPage.tuples), numShifts))
    {
      var n := |currentPage.tuples|;
      ghost var cur0, next0 := currentPage.tuples, nextPage.tuples;
      moved := [];
      var i := 0;
      while i < numShifts && i < n
        invariant currentPage.Valid() && nextPage.Valid()
        invariant PushLoopState(cur0, next0, moved, currentPage.tuples, nextPage.tuples, numShifts) && |moved| == i
      {
        err, moved := PushRound(currentPage, nextPage, cur0, next0, moved, numShifts);
        if err.Some? {
          return;
        }
        i := i + 1;
      }
      err := None;
    }

    /** `MoveLargest` as one more step of the push loop's progress. */
    method PushRound(currentPage: Page, nextPage: Page, ghost cur0: seq<KeyedTuple>, ghost next0: seq<KeyedTuple>,
                     ghost moved: seq<KeyedTuple>, ghost numShifts: int)
      returns (err: Option<DbError>, ghost moved': seq<KeyedTuple>)
      requires currentPage != nextPage && currentPage.Valid() && nextPage.Valid()
      requires PushLoopState(cur0, next0, moved, currentPage.tuples, nextPage.tuples, numShifts)
      requires |moved| < numShifts && |moved| < |cur0|
      modifies currentPage, nextPage
      ensures currentPage.Valid() && nextPage.Valid()
      ensures |moved'| == |moved| + 1
      ensures err.None? ==> PushLoopState(cur0, next0, moved', currentPage.tuples, nextPage.tuples, numShifts)
      ensures err.Some? ==>
        && (err.value == AlreadyExists || err.value == IndexOutOfBounds)
        && |currentPage.tuples| + |nextPage.tuples| == |old(currentPage.tuples)| + |old(nextPage.tuples)| - 1
        && !PushSucceeds(cur0, next0, numShifts)
        && (err.value == IndexOutOfBounds <==> PushEmpties(cur0, next0, numShifts))
    {
      ghost var cur, next, last := currentPage.tuples, nextPage.tuples, currentPage.tuples[|currentPage.tuples| - 1];
      PushRoundOutcome(cur0, next0, moved, cur, next, numShifts);
      err := MoveLargest(currentPage, nextPage);
      moved' := [last] + moved;
      if err.None? {
        PushProgressStep(cur0, next0, moved, cur, next, currentPage.tuples, nextPage.tuples, last);
      }
    }

    /**
     * One round of the `shiftTuplesPrevious` loop: removes the tuple
     * holding `currentPage`'s min key and adds it to `previousPage`,
     * with the same two exceptions as `MoveLargest`.
     */
    method MoveSmallest(currentPage: Page, previousPage: Page) returns (err: Option<DbError>)
      requires currentPage != previousPage && currentPage.Valid() && previousPage.Valid()
      requires |currentPage.tuples| > 0
      modifies currentPage, previousPage
      ensures currentPage.Valid() && previousPage.Valid()
      ensures old(currentPage.tuples) == [old(currentPage.tuples)[0]] + currentPage.tuples
      ensures |currentPage.tuples| == |old(currentPage.tuples)| - 1
      ensures err.None? <==> |old(currentPage.tuples)| > 1 && !HasKey(old(previousPage.tuples), Key(old(currentPage.tuples)[0]))
      ensures err.None? ==>
        && |currentPage.tuples| > 0
        && multiset(previousPage.tuples) == multiset(old(previousPage.tuples)) + multiset{old(currentPage.tuples)[0]}
        && |previousPage.tuples| == |old(previousPage.tuples)| + 1
      ensures err.Some? ==>
        && (err.value == AlreadyExists || err.value == IndexOutOfBounds)
        && |previousPage.tuples| == |old(previousPage.tuples)|
      ensures err == Some(IndexOutOfBounds) <==> |old(currentPage.tuples)| == 1
      ensures err == Some(AlreadyExists) <==>
        |old(currentPage.tuples)| > 1 && HasKey(old(previousPage.tuples), Key(old(currentPage.tuples)[0]))
    {
      var minClusterKey := currentPage.min;
      RemovingFirst(currentPage.tuples);
      var removed := currentPage.RemoveTuple(minClusterKey);
      if removed.Err? {
        return Some(removed.error);
      }
      err := previousPage.AddTuple(removed.value);
    }

    /** `MoveSmallest` as one more step of the pull loop's progress. */
    method PullRound(currentPage: Page, previousPage: Page, ghost cur0: seq<KeyedTuple>, ghost prev0: seq<KeyedTuple>,
                     ghost moved: seq<KeyedTuple>, ghost numShifts: int)
      returns (err: Option<DbError>, ghost moved': seq<KeyedTuple>)
      requires currentPage != previousPage && currentPage.Valid() && previousPage.Valid()
      requires PullLoopState(cur0, prev0, moved, currentPage.tuples, previousPage.tuples, numShifts)
      requires |moved| < numShifts && |moved| < |cur0| && !previousPage.IsFull()
      modifies currentPage, previousPage
      ensures currentPage.Valid() && previousPage.Valid()
      ensures |moved'| == |moved| + 1
      ensures err.None? ==> PullLoopState(cur0, prev0, moved', currentPage.tuples, previousPage.tuples, numShifts)
      ensures err.Some? ==>
        && (err.value == AlreadyExists || err.value == IndexOutOfBounds)
        && |currentPage.tuples| + |previousPage.tuples| == |old(currentPage.tuples)| + |old(previousPage.tuples)| - 1
        && !PullSucceeds(cur0, prev0, numShifts)
        && (err.value == IndexOutOfBounds <==> PullEmpties(cur0, prev0, numShifts))
    {
      ghost var cur, prev, first := currentPage.tuples, previousPage.tuples, currentPage.tuples[0];
      PullRoundOutcome(cur0, prev0, moved, cur, prev, numShifts);
      err := MoveSmallest(currentPage, previousPage);
      moved' := moved + [first];
      if err.None? {
        PullProgressStep(cur0, prev0, moved, cur, prev, currentPage.tuples, previousPage.tuples, first);
      }
    }

    /**
     * `shiftTuplesPrevious`: moves the smallest-key tuple of
     * `currentPage` into `previousPage`, up to `numShifts` times and at
     * most as many times as `currentPage` held tuples, returning early
     * once `previousPage` is exactly full. On success the moved tuples
     * are the old head of `currentPage`; an exception on the way loses
     * exactly the one tuple in flight.
     */
    method ShiftTuplesPrevious(currentPage: Page, previousPage: Page, numShifts: int) returns (err: Option<DbError>)
      requires currentPage != previousPage && currentPage.Valid() && previousPage.Valid()
      modifies currentPage, previousPage
      ensures currentPage.Valid() && previousPage.Valid()
      ensures err.None? <==> PullSucceeds(old(currentPage.tuples), old(previousPage.tuples), numShifts)
      ensures err.None? ==>
        var n := |old(currentPage.tuples)|;
        var m := PullCount(numShifts, n, |old(previousPage.tuples)|);
        && (m < n || n == 0)
        && currentPage.tuples == old(currentPage.tuples)[m..]
        && multiset(previousPage.tuples) == multiset(old(previousPage.tuples)) + multiset(old(currentPage.tuples)[..m])
        && |previousPage.tuples| == |old(previousPage.tuples)| + m
      ensures err.Some? ==>
        && (err.value == AlreadyExists || err.value == IndexOutOfBounds)
        && |currentPage.tuples| + |previousPage.tuples| == |old(currentPage.tuples)| + |old(previousPage.tuples)| - 1
      ensures err == Some(IndexOutOfBounds) <==> PullEmpties(old(currentPage.tuples), old(previousPage.tuples), numShifts)
      ensures err == Some(AlreadyExists) <==>
        !PullSucceeds(old(currentPage.tuples), old(previousPage.tuples), numShifts) && !PullEmpties(old(currentPage.tuples), old(previousPage.tuples), numShifts)
    {
      ghost var moved;
      err, moved := PullLoop(currentPage, previousPage, numShifts);
      if err.None? {
        PullDone(old(currentPage.tuples), old(previousPage.tuples), moved, currentPage.tuples, previousPage.tuples, numShifts);
      }
    }

    /** The loop of `shiftTuplesPrevious`, with `moved` the tuples it has moved so far. */
    method PullLoop(currentPage: Page, previousPage: Page, numShifts: int) returns (err: Option<DbError>, ghost moved: seq<KeyedTuple>)
      requires currentPage != previousPage && currentPage.Valid() && previousPage.Valid()
      modifies currentPage, previousPage
      ensures currentPage.Valid() && previousPage.Valid()
      ensures err.None? ==>
        && PullLoopState(old(currentPage.tuples), old(previousPage.tuples), moved, currentPage.tuples, previousPage.tuples, numShifts)
        && !(|moved| < numShifts && |moved| < |old(currentPage.tuples)| && |previousPage.tuples| != MaxRowsCountInPage)
      ensures err.Some? ==>
        && (err.value == AlreadyExists || err.value == IndexOutOfBounds)
        && |currentPage.tuples| + |previousPage.tuples| == |old(currentPage.tuples)| + |old(previousPage.tuples)| - 1
        && !PullSucceeds(old(currentPage.tuples), old(previousPage.tuples), numShifts)
        && (err.value == IndexOutOfBounds <==> PullEmpties(old(currentPage.tuples), old(previousPage.tuples), numShifts))
    {
      var n := |currentPage.tuples|;
      ghost var cur0, prev0 := currentPage.tuples, previousPage.tuples;
      moved := [];
      var i := 0;
      // The source returns from inside the loop once `previousPage` is
      // full; nothing follows the loop, so that test is part of the guard.
      while i < numShifts && i < n && !previousPage.IsFull()
        invariant currentPage.Valid() && previousPage.Valid()
        invariant PullLoopState(cur0, prev0, moved, currentPage.tuples, previousPage.tuples, numShifts) && |moved| == i
      {
        err, moved := PullRound(currentPage, previousPage, cur0, prev0, moved, numShifts);
        if err.Some? {
          return;
        }
        i := i + 1;
      }
      err := None;
    }
  
    /**
     * `distributePages`: one left-to-right pass over the pairs of
     * adjacent pages (i, i+1), i = 0 .. n-2. An overflowing page i
     * pushes its largest tuple into page i+1; then, if page i is not
     * full and page i+1 not empty, page i pulls the smallest tuples of
     * page i+1, bounded by page i's own size. Only page i is saved, so
     * every page i < n-1 is saved as a step over the ORIGINAL pages i
     * and i+1 and page n-1 is never written. `visited` is the number of
     * pairs that completed; an exception stops the pass there.
     */
    method DistributePages() returns (err: Option<DbError>, ghost visited: int)
      requires Valid()
      modifies store
      ensures Valid()
      ensures Distributed(old(store.images), store.images, visited)
      ensures visited < |pagesReference| || visited == 0
      ensures err.None? ==> visited == if |pagesReference| == 0 then 0 else |pagesReference| - 1
      ensures err.Some? ==> err.value in {MissingFile, AlreadyExists, IndexOutOfBounds}
      ensures WithinOverflow(old(store.images)) ==> PassSucceeded(old(store.images), visited)
      ensures err.Some? ==> visited + 1 < |pagesReference| && (WithinOverflow(old(store.images)) ==> !PairSucceeds(old(store.images), visited))
      ensures WithinOverflow(old(store.images)) ==> (err.None? <==> PassSucceeded(old(store.images), |pagesReference| - 1))
      ensures err.Some? ==> (err.value == MissingFile <==> !(visited in old(store.images) && visited + 1 in old(store.images)))
      ensures err.Some? && WithinOverflow(old(store.images)) ==>
        (err.value == IndexOutOfBounds <==> PairEmpties(old(store.images), visited))
    {
      var n := GetPagesCount();
      var i := 0;
      while i + 1 < n
        invariant 0 <= i && (i < n || i == 0)
        invariant Valid() && PassState(old(store.images), store.images, i)
      {
        err := DistributeRound(i, old(store.images));
        if err.Some? {
          return err, i;
        }
        i := i + 1;
      }
      return None, i;
    }

    /** `DistributeAt` as one more pair of the pass that started from the store `start`. */
    method DistributeRound(i: int, ghost start: map<int, PageImage>) returns (err: Option<DbError>)
      requires Valid() && 0 <= i && i + 1 < |pagesReference|
      requires PassState(start, store.images, i)
      modifies store
      ensures Valid()
      ensures err.None? ==> PassState(start, store.images, i + 1)
      ensures err.Some? ==>
        && PassState(start, store.images, i)
        && err.value in {MissingFile, AlreadyExists, IndexOutOfBounds}
        && (WithinOverflow(start) ==> !PairSucceeds(start, i))
        && (err.value == MissingFile <==> !(i in start && i + 1 in start))
        && (WithinOverflow(start) ==> (err.value == IndexOutOfBounds <==> PairEmpties(start, i)))
    {
      ghost var before := store.images;
      PairUntouched(start, before, i);
      err := DistributeAt(i);
      if err.None? {
        PassStep(start, before, store.images, i);
      }
    }

    /**
     * One round of the `distributePages` loop: loads pages i and i+1,
     * steps them and saves page i only. On an exception nothing is saved.
     */
    method DistributeAt(i: int) returns (err: Option<DbError>)
      requires Valid() && 0 <= i && i + 1 < |pagesReference|
      modifies store
      ensures Valid()
      ensures err.None? ==>
        && i in old(store.images) && i + 1 in old(store.images) && i in store.images
        && store.images == old(store.images)[i := store.images[i]]
        && PairStepped(old(store.images)[i].tuples, old(store.images)[i + 1].tuples, store.images[i].tuples)
      ensures err.Some? ==> store.images == old(store.images) && err.value in {MissingFile, AlreadyExists, IndexOutOfBounds}
      ensures !(i in old(store.images) && i + 1 in old(store.images)) ==> err == Some(MissingFile)
      ensures (i in old(store.images) ==> |old(store.images)[i].tuples| <= MaxRowsCountInPage + 1) ==>
        (err.None? <==> PairSucceeds(old(store.images), i))
      ensures i in old(store.images) && i + 1 in old(store.images) ==> err != Some(MissingFile)
      ensures (i in old(store.images) ==> |old(store.images)[i].tuples| <= MaxRowsCountInPage + 1) ==>
        (err == Some(IndexOutOfBounds) <==> PairEmpties(old(store.images), i))
    {
      var currentPage, e1 := store.DeserializePage(i);
      if e1.Some? {
        return e1;
      }
      var nextPage, e2 := store.DeserializePage(i + 1);
      if e2.Some? {
        return e2;
      }
      err := StepPair(currentPage, nextPage);
      if err.Some? {
        return;
      }
      SavePage(currentPage);
    }

    /** First half of one `distributePages` step: an overflowing page pushes one tuple on. */
    method PushOverflow(currentPage: Page, nextPage: Page) returns (err: Option<DbError>)
      requires currentPage != nextPage && currentPage.Valid() && nextPage.Valid()
      modifies currentPage, nextPage
      ensures currentPage.Valid() && nextPage.Valid()
      ensures err.None? ==> OverflowStep(old(currentPage.tuples), old(nextPage.tuples), currentPage.tuples, nextPage.tuples)
      ensures err.None? <==>
        var cur0 := old(currentPage.tuples);
        |cur0| > MaxRowsCountInPage ==> !HasKey(old(nextPage.tuples), Key(cur0[|cur0| - 1]))
      ensures err.Some? ==> err.value == AlreadyExists
    {
      ghost var cur0, next0 := currentPage.tuples, nextPage.tuples;
      if currentPage.IsOverflow() {
        assert PushedFresh(cur0, next0, 0);
        err := ShiftTuplesNext(currentPage, nextPage, 1);
        assert cur0[|cur0| - 1..] == [cur0[|cur0| - 1]];
      } else {
        err := None;
      }
    }

    /** Second half of one `distributePages` step: a page below capacity pulls tuples back. */
    method PullBack(currentPage: Page, nextPage: Page) returns (err: Option<DbError>)
      requires currentPage != nextPage && currentPage.Valid() && nextPage.Valid()
      modifies currentPage, nextPage
      ensures currentPage.Valid() && nextPage.Valid()
      ensures err.None? ==> PullStep(old(currentPage.tuples), old(nextPage.tuples), currentPage.tuples)
      ensures err.None? <==>
        var cur0, next0 := old(currentPage.tuples), old(nextPage.tuples);
        |cur0| != MaxRowsCountInPage && |next0| > 0 ==> PullSucceeds(next0, cur0, |cur0|)
      ensures err.Some? ==> err.value == AlreadyExists || err.value == IndexOutOfBounds
      ensures err == Some(IndexOutOfBounds) <==>
        var cur0, next0 := old(currentPage.tuples), old(nextPage.tuples);
        |cur0| != MaxRowsCountInPage && |next0| > 0 && PullEmpties(next0, cur0, |cur0|)
    {
      if !currentPage.IsFull() && !nextPage.IsEmpty() {
        err := ShiftTuplesPrevious(nextPage, currentPage, |currentPage.tuples|);
      } else {
        err := None;
      }
    }

    /** The body of the `distributePages` loop for one pair, before page i is saved. */
    method StepPair(currentPage: Page, nextPage: Page) returns (err: Option<DbError>)
      requires currentPage != nextPage && currentPage.Valid() && nextPage.Valid()
      modifies currentPage, nextPage
      ensures currentPage.Valid() && nextPage.Valid()
      ensures err.None? ==> PairStepped(old(currentPage.tuples), old(nextPage.tuples), currentPage.tuples)
      ensures |old(currentPage.tuples)| <= MaxRowsCountInPage + 1 ==>
        (err.None? <==> StepSucceeds(old(currentPage.tuples), old(nextPage.tuples)))
      ensures err.Some? ==> err.value in {AlreadyExists, IndexOutOfBounds}
      ensures |old(currentPage.tuples)| <= MaxRowsCountInPage + 1 ==>
        (err == Some(IndexOutOfBounds) <==> StepEmpties(old(currentPage.tuples), old(nextPage.tuples)))
    {
      ghost var cur0, next0 := currentPage.tuples, nextPage.tuples;
      err := PushOverflow(currentPage, nextPage);
      if err.Some? {
        return;
      }
      ghost var cur1, next1 := currentPage.tuples, nextPage.tuples;
      err := PullBack(currentPage, nextPage);
      if err.Some? {
        return;
      }
      StepsCompose(cur0, next0, cur1, next1, currentPage.tuples);
    }

    /**
     * `removeEmptyPages`: walks the pages from the last to the first and
     * deletes the file of every empty one. It fails with MissingFile at
     * the first page whose file is gone, so it succeeds exactly when every
     * page of the table still had its file.
     */
    method RemoveEmptyPages() returns (err: Option<DbError>, ghost stop: int)
      requires Valid()
      modifies store
      ensures Valid()
      ensures EmptiesRemoved(old(store.images), store.images)
      ensures err.Some? ==>
        && 0 <= stop < |pagesReference| && stop !in old(store.images)
        && RemovalProgress(old(store.images), store.images, stop, |pagesReference|)
      ensures err.None? <==> forall k :: 0 <= k < |pagesReference| ==> k in old(store.images)
      ensures err.None? ==> forall k :: k in store.images ==> |store.images[k].tuples| > 0
      ensures err.Some? ==> err.value == MissingFile
    {
      var n: int := GetPagesCount();
      var i := n - 1;
      stop := -1;
      while i >= 0
        invariant -1 <= i < n
        invariant Valid()
        invariant RemovalProgress(old(store.images), store.images, i, n)
      {
        ghost var before := store.images;
        err := RemoveIfEmpty(i);
        if err.Some? {
          RemovalStops(old(store.images), store.images, i, n);
          stop := i;
          return;
        }
        RemovalStep(old(store.images), before, store.images, i, n);
        i := i - 1;
      }
      RemovalDone(old(store.images), store.images, n);
      err := None;
    }

    /** One round of the `removeEmptyPages` loop: loads page i and deletes its file if it is empty. */
    method RemoveIfEmpty(i: int) returns (err: Option<DbError>)
      requires Valid()
      modifies store
      ensures Valid()
      ensures err.None? <==> i in old(store.images)
      ensures err.Some? ==> err.value == MissingFile && store.images == old(store.images)
      ensures err.None? ==> store.images == if |old(store.images)[i].tuples| == 0 then old(store.images) - {i} else old(store.images)
    {
      var currentPage, e := store.DeserializePage(i);
      if e.Some? {
        return e;
      }
      if currentPage.IsEmpty() {
        RemovePage(currentPage);
      }
      err := None;
    }

    /**
     * `insert`: places the tuple (see `PlaceTuple`) and then rearranges
     * the pages: a redistribution pass, then the removal of empty pages.
     * An exception anywhere ends the insert where it happened. `target`
     * is the page the key was routed to, `added` whether the tuple went
     * in, `saved` the store just before rearranging, `distributed` the
     * store after the redistribution pass and `visited` how many pairs
     * that pass stepped.
     */
    method Insert(tuple: KeyedTuple)
      returns (err: Option<DbError>, ghost target: int, ghost added: bool,
               ghost saved: map<int, PageImage>, ghost distributed: map<int, PageImage>, ghost visited: int, ghost stop: int)
      requires Valid()
      modifies this, store
      ensures Valid()
      ensures Placed(old(pagesReference), old(rowsCount), old(store.images), tuple, target, added, pagesReference, rowsCount, saved)
      ensures !added ==> err.Some? && (err.value == MissingFile || err.value == AlreadyExists) && store.images == saved
      ensures added ==> Rearranged(saved, distributed, store.images, |pagesReference|, visited, stop, err)
      ensures !added ==> err == Some(if target in old(store.images) then AlreadyExists else MissingFile)
      ensures err.Some? ==> err.value in {MissingFile, AlreadyExists, IndexOutOfBounds}
    {
      err, target, added, saved := PlaceTuple(tuple);
      distributed, visited, stop := store.images, 0, -1;
      if err.Some? {
        return;
      }
      err, distributed, visited, stop := Rearrange();
    }

    /**
     * The end of `insert`: the redistribution pass, then, if it went
     * through, the removal of empty pages; `distributed` is the store
     * between the two.
     */
    method Rearrange() returns (err: Option<DbError>, ghost distributed: map<int, PageImage>, ghost visited: int, ghost stop: int)
      requires Valid() && |pagesReference| > 0
      modifies store
      ensures Valid()
      ensures Rearranged(old(store.images), distributed, store.images, |pagesReference|, visited, stop, err)
      ensures err.Some? ==> err.value in {MissingFile, AlreadyExists, IndexOutOfBounds}
    {
      err, visited := DistributePages();
      distributed, stop := store.images, -1;
      if err.Some? {
        return;
      }
      err, stop := RemoveEmptyPages();
    }

    /**
     * The part of `insert` before rearranging: creates page 0 for an
     * empty table, routes the key with `getPageIndex`, loads that page,
     * adds a page at the end when the table is full, adds the tuple to
     * the loaded page, saves it and counts the row. Because the table's
     * own references never learn their pages' ranges, the key is always
     * routed to the middle page `(n-1)/2` of the n pages present once
     * page 0 exists.
     */
    method PlaceTuple(tuple: KeyedTuple) returns (err: Option<DbError>, ghost target: int, ghost added: bool, ghost saved: map<int, PageImage>)
      requires Valid()
      modifies this, store
      ensures Valid()
      ensures |pagesReference| > 0
      ensures Placed(old(pagesReference), old(rowsCount), old(store.images), tuple, target, added, pagesReference, rowsCount, saved)
      ensures saved == store.images
      ensures added <==> err.None?
      ensures err.Some? ==> err.value == MissingFile || err.value == AlreadyExists
      ensures !added ==> err == Some(if target in old(store.images) then AlreadyExists else MissingFile)
    {
      ghost var refs0, images0 := pagesReference, store.images;
      if GetPagesCount() == 0 {
        var first := new Page(tableName, GetPagesCount());
        AddPage(first);
      }
      ghost var refs1, images1 := pagesReference, store.images;
      err, target, added, saved := PlaceInto(tuple);
      if |refs0| == 0 {
        assert forall k :: k !in images0;
        FirstPagePlaced(refs0, images0, refs1, images1, old(rowsCount), tuple, target, added, pagesReference, rowsCount, saved);
      }
    }

    /** `PlaceTuple` once the table has a page. */
    method PlaceInto(tuple: KeyedTuple) returns (err: Option<DbError>, ghost target: int, ghost added: bool, ghost saved: map<int, PageImage>)
      requires Valid() && |pagesReference| > 0
      modifies this, store
      ensures Valid()
      ensures Placed(old(pagesReference), old(rowsCount), old(store.images), tuple, target, added, pagesReference, rowsCount, saved)
      ensures saved == store.images
      ensures added <==> err.None?
      ensures err.Some? ==> err.value == MissingFile || err.value == AlreadyExists
      ensures !added ==> err == Some(if target in old(store.images) then AlreadyExists else MissingFile)
    {
      assert forall i :: 0 <= i < |pagesReference| ==> pagesReference[i].min.None?;
      var pageIndex := GetPageIndex(Key(tuple));
      if pageIndex > GetPagesCount() - 1 {
        pageIndex := pageIndex - 1;
      }
      target := pageIndex;
      var page, e := store.DeserializePage(pageIndex);
      if e.Some? {
        NotLoadedPlaced(pagesReference, rowsCount, store.images, tuple, target);
        return e, target, false, store.images;
      }
      err := AddLoaded(page, tuple);
      added := err.None?;
      saved := store.images;
    }

    /** The `isFull` branch of `insert`: appends one new empty page when the table is full. */
    method GrowIfFull() returns (ghost grow: bool)
      requires Valid()
      modifies this, store
      ensures Valid()
      ensures grow <==> old(rowsCount) >= MaxRowsCountInPage * |old(pagesReference)|
      ensures pagesReference == old(pagesReference) + if grow then [NewReference(tableName, |old(pagesReference)|)] else []
      ensures store.images == if grow then old(store.images)[|old(pagesReference)| := NewImage(tableName, |old(pagesReference)|)] else old(store.images)
      ensures rowsCount == old(rowsCount)
    {
      grow := IsFull();
      if IsFull() {
        var extraPage := new Page(tableName, GetPagesCount());
        AddPage(extraPage);
      }
    }

    /** The rest of `PlaceTuple` once page `target` is loaded. */
    method AddLoaded(page: Page, tuple: KeyedTuple) returns (err: Option<DbError>)
      requires Valid() && |pagesReference| > 0 && page.Valid()
      requires page.pageIndex == (|pagesReference| - 1) / 2
      requires page.pageIndex in store.images && page.Image() == store.images[page.pageIndex]
      modifies this, store, page
      ensures Valid()
      ensures Placed(old(pagesReference), old(rowsCount), old(store.images), tuple, page.pageIndex, err.None?, pagesReference, rowsCount, store.images)
      ensures err.Some? ==> err.value == AlreadyExists
    {
      ghost var refs0, rows0, images0 := pagesReference, rowsCount, store.images;
      ghost var extra: PageImage := NewImage(tableName, |refs0|);
      ghost var grow := GrowIfFull();
      ghost var images2 := store.images;
      err := page.AddTuple(tuple);
      if err.Some? {
        PlacedAt(refs0, rows0, images0, tuple, page.pageIndex, false, pagesReference, rowsCount, grow, extra, images2, store.images);
        return;
      }
      SavePage(page);
      rowsCount := rowsCount + 1;
      PlacedAt(refs0, rows0, images0, tuple, page.pageIndex, true, pagesReference, rowsCount, grow, extra, images2, store.images);
    }
  }

  /**
   * The first insert into a new table completes: it creates page 0, the
   * pass has no pair to step, and the one page it checks for emptiness
   * holds the tuple.
   */
  method FirstInsert(tableName: string, clusterKeyName: string, tuple: KeyedTuple) returns (table: Table, err: Option<DbError>)
    ensures err.None?
    ensures |table.pagesReference| == 1 && table.rowsCount == 1
    ensures table.store.images.Keys == {0} && table.store.images[0].tuples == [tuple]
  {
    table := new Table(tableName, clusterKeyName);
    ghost var target, added, saved, distributed, visited, stop;
    err, target, added, saved, distributed, visited, stop := table.Insert(tuple);
    FirstPlacement(tuple, target, added, table.pagesReference, table.rowsCount, saved);
    assert distributed[0] == saved[0];
  }

  /**
   * Inserting a key that the only page of a table already holds throws
   * DBAlreadyExistsException before the row is counted, and leaves the
   * tuples of the page file as they were (a full table has still gained
   * its new empty page by then).
   */
  method DuplicateInsert(table: Table, tuple: KeyedTuple) returns (err: Option<DbError>)
    requires table.Valid() && |table.pagesReference| == 1
    requires 0 in table.store.images && HasKey(table.store.images[0].tuples, Key(tuple))
    modifies table, table.store
    ensures err == Some(AlreadyExists)
    ensures table.rowsCount == old(table.rowsCount)
    ensures 0 in table.store.images && table.store.images[0].tuples == old(table.store.images[0].tuples)
  {
    ghost var target, added, saved, distributed, visited, stop;
    err, target, added, saved, distributed, visited, stop := table.Insert(tuple);
  }
}
