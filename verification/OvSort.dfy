/**
 The sort engine: quicksort with median-of-three pivots, an insertion sort for small segments and an
 explicit stack of 64 levels whose `level` counter ends the loop by wrapping below zero.
 */
module OvSort {
  import opened Words
  import opened SortOrder
  import opened SortTable
  import opened SortStack

  /** The items `lo..hi` are in order, except that item `hole` may be too small for its place. */
  ghost predicate OrderedButFor<E>(cmp: Comparator<E>, s: seq<E>, lo: nat, hi: nat, hole: nat) {
    && hi <= |s|
    && forall p, q | lo <= p < q < hi && q != hole :: Leq(cmp, s[p], s[q])
  }

  lemma HoleOpens<E>(cmp: Comparator<E>, s: seq<E>, lo: nat, hi: nat)
    requires hi < |s| && OrderedButFor(cmp, s, lo, hi, hi)
    ensures OrderedButFor(cmp, s, lo, hi + 1, hi)
  {
  }

  lemma HoleMovesDown<E(!new)>(cmp: Comparator<E>, s: seq<E>, lo: nat, hi: nat, hole: nat)
    requires TotalPreorder(cmp) && OrderedButFor(cmp, s, lo, hi, hole)
    requires lo < hole < hi && Leq(cmp, s[hole], s[hole - 1])
    ensures OrderedButFor(cmp, Swapped(s, hole, hole - 1), lo, hi, hole - 1)
  {
  }

  lemma HoleCloses<E(!new)>(cmp: Comparator<E>, s: seq<E>, lo: nat, hi: nat, hole: nat)
    requires TotalPreorder(cmp) && OrderedButFor(cmp, s, lo, hi, hole)
    requires hole < hi && (hole <= lo || Leq(cmp, s[hole - 1], s[hole]))
    ensures OrderedButFor(cmp, s, lo, hi, hi)
  {
  }

  /** Sinks item `i` into the ordered items `begin..i`: the inner loop of the insertion sort. */
  method SinkItem<T(!new)>(t: Table<T>, begin: nat, i: nat, end: nat)
    requires t.Valid() && begin <= end && i < end <= t.count
    requires TotalPreorder(t.cmp) ==> OrderedButFor(t.cmp, t.items, begin, i, i)
    modifies t, t.base
    ensures t.Valid() && t.Rest() == old(t.Rest())
    ensures PermutedWithin(old(t.items), t.items, begin, end)
    ensures t.calls <= old(t.calls) + if begin < i then i - begin else 0
    ensures TotalPreorder(t.cmp) ==> OrderedButFor(t.cmp, t.items, begin, i + 1, i + 1)
  {
    hide *;
    ghost var ordered := TotalPreorder(t.cmp);
    ghost var was := t.items;
    PermutedReflexive(was, begin, end);
    if ordered {
      HoleOpens(t.cmp, was, begin, i);
    }
    var j := i;
    while j > begin
      invariant t.Valid() && t.Rest() == old(t.Rest())
      invariant j <= i && (begin <= j || j == i)
      invariant PermutedWithin(was, t.items, begin, end)
      invariant t.calls + j == old(t.calls) + i
      invariant ordered ==> OrderedButFor(t.cmp, t.items, begin, i + 1, j)
      decreases j
    {
      var c := t.Compare(j, j - 1);
      if c >= 0 {
        break;
      }
      SwapKeepsPermuted(was, t.items, j, j - 1, begin, end);
      if ordered {
        HoleMovesDown(t.cmp, t.items, begin, i + 1, j);
      }
      t.Swap(j, j - 1);
      j := j - 1;
    }
    if ordered {
      HoleCloses(t.cmp, t.items, begin, i + 1, j);
    }
  }

  /** The loop invariant of the insertion sort; the wrapped start of an empty range is covered too. */
  ghost predicate Inserting<E(!new)>(cmp: Comparator<E>, was: seq<E>, s: seq<E>, begin: nat, i: nat, end: nat,
                                     first: nat, calls: nat)
  {
    && PermutedWithin(was, s, begin, end)
    && (begin < end ==> begin < i <= end && calls <= first + Triangle(i - begin))
    && (begin == end ==> calls <= first)
    && (TotalPreorder(cmp) && i <= |s| ==> OrderedButFor(cmp, s, begin, i, i))
  }

  lemma InsertingStarts<E(!new)>(cmp: Comparator<E>, s: seq<E>, begin: nat, i: nat, end: nat, calls: nat)
    requires begin <= end <= |s| && (i == begin + 1 || (i == 0 && begin == end))
    ensures Inserting(cmp, s, s, begin, i, end, calls, calls)
  {
  }

  lemma InsertingAt<E(!new)>(cmp: Comparator<E>, was: seq<E>, s: seq<E>, begin: nat, i: nat, end: nat,
                             first: nat, calls: nat)
    requires Inserting(cmp, was, s, begin, i, end, first, calls) && i < end
    ensures TotalPreorder(cmp) && i <= |s| ==> OrderedButFor(cmp, s, begin, i, i)
  {
  }

  lemma InsertingStep<E(!new)>(cmp: Comparator<E>, was: seq<E>, s: seq<E>, t: seq<E>, begin: nat, i: nat, end: nat,
                               first: nat, calls: nat, now: nat)
    requires Inserting(cmp, was, s, begin, i, end, first, calls) && i < end
    requires PermutedWithin(s, t, begin, end) && now <= calls + if begin < i then i - begin else 0
    requires TotalPreorder(cmp) ==> OrderedButFor(cmp, t, begin, i + 1, i + 1)
    ensures Inserting(cmp, was, t, begin, i + 1, end, first, now)
  {
    hide OrderedButFor, TotalPreorder, PermutedWithin;
    PermutedTransitive(was, s, t, begin, end);
  }

  lemma InsertingEnds<E(!new)>(cmp: Comparator<E>, was: seq<E>, s: seq<E>, begin: nat, i: nat, end: nat,
                               first: nat, calls: nat)
    requires Inserting(cmp, was, s, begin, i, end, first, calls) && begin <= end <= i
    ensures PermutedWithin(was, s, begin, end) && calls <= first + Triangle(end - begin)
    ensures TotalPreorder(cmp) ==> SortedSpan(cmp, s, begin, end)
  {
  }

  /** Insertion sort of the items `begin..end`; `begin + 1` is computed in machine words. */
  method InsertionSortRange<T(!new)>(t: Table<T>, begin: nat, end: nat)
    requires t.Valid() && begin <= end <= t.count
    modifies t, t.base
    ensures t.Valid() && t.Rest() == old(t.Rest())
    ensures PermutedWithin(old(t.items), t.items, begin, end)
    ensures t.calls <= old(t.calls) + Triangle(end - begin)
    ensures TotalPreorder(t.cmp) ==> SortedSpan(t.cmp, t.items, begin, end)
  {
    assert SIZE_MAX == WORD - 1;
    hide *;
    ghost var was, first, rest := t.items, t.calls, t.Rest();
    var i := if begin == SIZE_MAX then 0 else begin + 1;
    InsertingStarts(t.cmp, was, begin, i, end, first);
    while i < end
      invariant t.Valid() && t.Rest() == rest
      invariant Inserting(t.cmp, was, t.items, begin, i, end, first, t.calls)
      decreases end - i
    {
      ghost var s, calls := t.items, t.calls;
      InsertingAt(t.cmp, was, s, begin, i, end, first, calls);
      SinkItem(t, begin, i, end);
      InsertingStep(t.cmp, was, s, t.items, begin, i, end, first, calls, t.calls);
      i := i + 1;
    }
    InsertingEnds(t.cmp, was, t.items, begin, i, end, first, t.calls);
  }

  /** The scans of a partition: cells left of `left` are at most `x`, cells right of `right` at least. */
  ghost predicate Scanned<E>(cmp: Comparator<E>, s: seq<E>, lo: int, hi: int, left: int, right: int, x: E) {
    && 0 <= lo <= left <= right < hi <= |s|
    && (forall k | lo <= k < left :: Leq(cmp, s[k], x))
    && (forall k | right < k < hi :: Leq(cmp, x, s[k]))
  }

  lemma ScanRight<E>(cmp: Comparator<E>, s: seq<E>, lo: int, hi: int, left: int, right: int, x: E)
    requires Scanned(cmp, s, lo, hi, left, right, x) && left < right && Leq(cmp, x, s[right])
    ensures Scanned(cmp, s, lo, hi, left, right - 1, x)
  {
  }

  lemma ScanLeft<E>(cmp: Comparator<E>, s: seq<E>, lo: int, hi: int, left: int, right: int, x: E)
    requires Scanned(cmp, s, lo, hi, left, right, x) && left < right && Leq(cmp, s[left], x)
    ensures Scanned(cmp, s, lo, hi, left + 1, right, x)
  {
  }

  /** The pivot item stands at `left` and changes places with a smaller item at `right`. */
  lemma PivotToRight<E>(cmp: Comparator<E>, s: seq<E>, lo: int, hi: int, left: int, right: int, x: E)
    requires Scanned(cmp, s, lo, hi, left, right, x) && left < right && Leq(cmp, s[right], x)
    ensures Scanned(cmp, Swapped(s, left, right), lo, hi, left + 1, right, x)
  {
  }

  /** The pivot item stands at `right` and changes places with a larger item at `left`. */
  lemma PivotToLeft<E>(cmp: Comparator<E>, s: seq<E>, lo: int, hi: int, left: int, right: int, x: E)
    requires Scanned(cmp, s, lo, hi, left, right, x) && left < right && Leq(cmp, x, s[left])
    ensures Scanned(cmp, Swapped(s, right, left), lo, hi, left, right - 1, x)
  {
  }

  lemma SplitRange<E>(cmp: Comparator<E>, s: seq<E>, lo: nat, hi: nat, p: nat)
    requires lo <= p < hi <= |s| && Scanned(cmp, s, lo, hi, p, p, s[p])
    ensures SplitSpan(cmp, s, lo, p, hi)
  {
  }

  lemma NothingScanned<E>(cmp: Comparator<E>, s: seq<E>, lo: nat, hi: nat)
    requires lo < hi <= |s|
    ensures Scanned(cmp, s, lo, hi, lo, hi - 1, s[lo])
  {
  }

  /** `t` is `s`, or `s` with two items exchanged; for a total preorder they are then in order. */
  ghost predicate PairOrdered<E(!new)>(cmp: Comparator<E>, s: seq<E>, t: seq<E>, i: nat, j: nat) {
    && i < |s| && j < |s| && (t == s || t == Swapped(s, i, j))
    && (TotalPreorder(cmp) ==> Leq(cmp, t[j], t[i]))
  }

  lemma PairOrderedBySwap<E(!new)>(cmp: Comparator<E>, s: seq<E>, i: nat, j: nat, c: int)
    requires i < |s| && j < |s|
    requires TotalPreorder(cmp) ==> (c <= 0 <==> Leq(cmp, s[i], s[j])) && (c >= 0 <==> Leq(cmp, s[j], s[i]))
    ensures PairOrdered(cmp, s, if c < 0 then Swapped(s, i, j) else s, i, j)
  {
    hide TotalPreorder, Leq;
  }

  /** The middle of two indices, as both engines compute it. */
  function Middle(left: nat, right: nat): (mid: nat)
    requires left <= right
    ensures left <= mid <= right && (left + 1 < right ==> left < mid < right)
    ensures left + right - 1 <= 2 * mid <= left + right
  {
    left + (right - left) / 2
  }

  ghost predicate KeptBut<E>(s: seq<E>, t: seq<E>, left: nat, mid: nat, right: nat) {
    && |t| == |s|
    && forall k | 0 <= k < |s| && k != left && k != mid && k != right :: t[k] == s[k]
  }

  /** Only the three cells change, and for a total preorder their median ends up in `left`, between the other two. */
  ghost predicate MedianMoved<E(!new)>(cmp: Comparator<E>, s: seq<E>, t: seq<E>, left: nat, mid: nat, right: nat) {
    && left < mid < right < |s| == |t| && KeptBut(s, t, left, mid, right)
    && (TotalPreorder(cmp) ==> Leq(cmp, t[mid], t[left]) && Leq(cmp, t[left], t[right]))
  }

  /** What the choice of a median means. */
  lemma MedianIsBetween<E(!new)>(cmp: Comparator<E>, s: seq<E>, t: seq<E>, left: nat, mid: nat, right: nat)
    requires MedianMoved(cmp, s, t, left, mid, right)
    ensures left < mid < right < |t|
    ensures TotalPreorder(cmp) ==> Leq(cmp, t[mid], t[left]) && Leq(cmp, t[left], t[right])
    ensures forall k | 0 <= k < |s| :: k == left || k == mid || k == right || t[k] == s[k]
  {
  }

  lemma KeptButSwapped<E>(s: seq<E>, t: seq<E>, i: nat, j: nat, left: nat, mid: nat, right: nat)
    requires KeptBut(s, t, left, mid, right) && i < |t| && j < |t|
    requires (i == left || i == mid || i == right) && (j == left || j == mid || j == right)
    ensures KeptBut(s, Swapped(t, i, j), left, mid, right)
  {
  }

  /** Three ordering exchanges put the three cells in order. */
  lemma ThreeOrdered<E(!new)>(cmp: Comparator<E>, one: seq<E>, two: seq<E>, three: seq<E>,
                              left: nat, mid: nat, right: nat)
    requires left < mid < right < |one| == |two| && TotalPreorder(cmp) && Leq(cmp, one[left], one[mid])
    requires PairOrdered(cmp, one, two, right, left) && PairOrdered(cmp, two, three, right, mid)
    ensures Leq(cmp, three[left], three[mid]) && Leq(cmp, three[mid], three[right])
  {
    hide Leq;
  }

  lemma MedianFound<E(!new)>(cmp: Comparator<E>, s: seq<E>, one: seq<E>, two: seq<E>, three: seq<E>,
                             left: nat, mid: nat, right: nat)
    requires left < mid < right < |s| == |one| == |two| == |three|
    requires PairOrdered(cmp, s, one, mid, left)
    requires PairOrdered(cmp, one, two, right, left) && PairOrdered(cmp, two, three, right, mid)
    ensures MedianMoved(cmp, s, Swapped(three, left, mid), left, mid, right)
  {
    assert KeptBut(s, s, left, mid, right);
    KeptButSwapped(s, s, mid, left, left, mid, right);
    hide Leq, KeptBut, TotalPreorder;
    KeptButSwapped(s, one, right, left, left, mid, right);
    KeptButSwapped(s, two, right, mid, left, mid, right);
    KeptButSwapped(s, three, left, mid, left, mid, right);
    if TotalPreorder(cmp) {
      ThreeOrdered(cmp, one, two, three, left, mid, right);
    }
  }

  /** `t` is `s` with two items exchanged iff the comparison number `call` finds the first smaller. */
  ghost predicate IsSwappedIfLess<E>(cmp: Comparator<E>, call: nat, s: seq<E>, t: seq<E>, i: nat, j: nat) {
    i < |s| && j < |s| && t == if cmp(call, s[i], s[j]) < 0 then Swapped(s, i, j) else s
  }

  lemma SwappedByAnswer<E>(cmp: Comparator<E>, call: nat, s: seq<E>, i: nat, j: nat, c: int)
    requires i < |s| && j < |s| && c == cmp(call, s[i], s[j])
    ensures IsSwappedIfLess(cmp, call, s, if c < 0 then Swapped(s, i, j) else s, i, j)
  {
  }

  /** One comparison of two items, followed by a swap when the first is the smaller. */
  method SwapIfLess<T(!new)>(t: Table<T>, i: nat, j: nat, ghost lo: nat, ghost hi: nat)
    requires t.Valid() && lo <= j < i < hi <= t.count
    modifies t, t.base
    ensures t.Valid() && t.Rest() == old(t.Rest())
    ensures IsSwappedIfLess(t.cmp, old(t.calls), old(t.items), t.items, i, j)
    ensures PermutedWithin(old(t.items), t.items, lo, hi)
    ensures PairOrdered(t.cmp, old(t.items), t.items, i, j)
    ensures t.calls == old(t.calls) + 1
  {
    hide *;
    PermutedReflexive(t.items, lo, hi);
    ghost var was, call := t.items, t.calls;
    var c := t.Compare(i, j);
    PairOrderedBySwap(t.cmp, was, i, j, c);
    SwappedByAnswer(t.cmp, call, was, i, j, c);
    if c < 0 {
      SwappedIsPermuted(t.items, i, j, lo, hi);
      t.Swap(i, j);
    }
  }

  /** Median of three: the median of the first, middle and last item is moved to `left`. */
  method MedianToLeft<T(!new)>(t: Table<T>, left: nat, right: nat)
    requires t.Valid() && left + 1 < right < t.count
    modifies t, t.base
    ensures t.Valid() && t.Rest() == old(t.Rest())
    ensures PermutedWithin(old(t.items), t.items, left, right + 1)
    ensures MedianMoved(t.cmp, old(t.items), t.items, left, Middle(left, right), right)
    ensures t.calls == old(t.calls) + 3
  {
    hide *;
    ghost var was := t.items;
    var mid := Middle(left, right);
    SwapIfLess(t, mid, left, left, right + 1);
    ghost var one := t.items;
    SwapIfLess(t, right, left, left, right + 1);
    PermutedTransitive(was, one, t.items, left, right + 1);
    ghost var two := t.items;
    SwapIfLess(t, right, mid, left, right + 1);
    PermutedTransitive(was, two, t.items, left, right + 1);
    SwapKeepsPermuted(was, t.items, left, mid, left, right + 1);
    MedianFound(t.cmp, was, one, two, t.items, left, mid, right);
    t.Swap(left, mid);
  }

  /**
   Splits the items `lo..hi` at the pivot item that stands at `lo`, and returns its final place.
   Each of the `hi - lo - 1` comparisons moves one scan by one cell.  The pivot index always equals one
   of the two scan indices, so the two inner tests below never hold and no repair swap is made.
   */
  method Partition<T(!new)>(t: Table<T>, lo: nat, hi: nat) returns (left: nat)
    requires t.Valid() && lo < hi <= t.count
    modifies t, t.base
    ensures t.Valid() && t.Rest() == old(t.Rest())
    ensures PermutedWithin(old(t.items), t.items, lo, hi)
    ensures t.calls == old(t.calls) + (hi - lo - 1)
    ensures lo <= left < hi && t.items[left] == old(t.items)[lo]
    ensures TotalPreorder(t.cmp) ==> Scanned(t.cmp, t.items, lo, hi, left, left, t.items[left])
  {
    hide *;
    ghost var ordered := TotalPreorder(t.cmp);
    ghost var was, x := t.items, t.items[lo];
    PermutedReflexive(was, lo, hi);
    NothingScanned(t.cmp, was, lo, hi);
    ghost var all := t.calls + (hi - lo - 1);
    left := lo;
    var right := hi - 1;
    var pivot := left;
    while true
      invariant t.Valid() && t.Rest() == old(t.Rest())
      invariant lo <= left <= right < hi && pivot == left && t.items[left] == x
      invariant PermutedWithin(was, t.items, lo, hi)
      invariant t.calls + (right - left) == all
      invariant ordered ==> Scanned(t.cmp, t.items, lo, hi, left, right, x)
      decreases right - left
    {
      while left < right
        invariant t.Valid() && t.Rest() == old(t.Rest())
        invariant left <= right < hi && t.items[left] == x
        invariant PermutedWithin(was, t.items, lo, hi)
        invariant t.calls + (right - left) == all
        invariant ordered ==> Scanned(t.cmp, t.items, lo, hi, left, right, x)
      {
        var c := t.Compare(right, pivot);
        if c < 0 {
          break;
        }
        if ordered {
          ScanRight(t.cmp, t.items, lo, hi, left, right, x);
        }
        right := right - 1;
      }
      if left < right {
        SwapKeepsPermuted(was, t.items, left, right, lo, hi);
        if ordered {
          PivotToRight(t.cmp, t.items, lo, hi, left, right, x);
        }
        t.Swap(left, right);
        if pivot == left {
          pivot := right;
        } else if pivot == right {
          assert false;
        }
        left := left + 1;
      }

      while left < right
        invariant t.Valid() && t.Rest() == old(t.Rest())
        invariant lo <= left <= right < hi && pivot == right && t.items[right] == x
        invariant PermutedWithin(was, t.items, lo, hi)
        invariant t.calls + (right - left) == all
        invariant ordered ==> Scanned(t.cmp, t.items, lo, hi, left, right, x)
      {
        var c := t.Compare(left, pivot);
        if c > 0 {
          break;
        }
        if ordered {
          ScanLeft(t.cmp, t.items, lo, hi, left, right, x);
        }
        left := left + 1;
      }
      if left < right {
        SwapKeepsPermuted(was, t.items, right, left, lo, hi);
        if ordered {
          PivotToLeft(t.cmp, t.items, lo, hi, left, right, x);
        }
        t.Swap(right, left);
        if pivot == right {
          pivot := left;
        } else if pivot == left {
          assert false;
        }
        right := right - 1;
      } else {
        break;
      }
    }
    if pivot != left {
      assert false;
    }
  }

  /** Pivot choice and partition of the items `left..right`. */
  method SplitSegment<T(!new)>(t: Table<T>, left: nat, right: nat) returns (pivot: nat)
    requires t.Valid() && right <= t.count && left + INSERTION_THRESHOLD < right
    modifies t, t.base
    ensures t.Valid() && t.Rest() == old(t.Rest())
    ensures PermutedWithin(old(t.items), t.items, left, right)
    ensures t.calls == old(t.calls) + (right - left) + 2
    ensures left <= pivot < right
    ensures TotalPreorder(t.cmp) ==> SplitSpan(t.cmp, t.items, left, pivot, right)
  {
    assert INSERTION_THRESHOLD == 16;
    hide *;
    ghost var was := t.items;
    var last := right - 1;
    MedianToLeft(t, left, last);
    ghost var mid := t.items;
    assert PermutedWithin(was, mid, left, right);
    pivot := Partition(t, left, right);
    PermutedTransitive(was, mid, t.items, left, right);
    if TotalPreorder(t.cmp) {
      SplitRange(t.cmp, t.items, left, right, pivot);
    }
  }

  /** Replaces the entry `level` by its two parts around `pivot`, the smaller one on top. */
  method PushParts(beg: array<int>, end: array<int>, level: nat, pivot: nat) returns (ghost low: nat, ghost high: nat)
    requires beg != end && beg.Length == end.Length == MAX_LEVELS && level + 1 < MAX_LEVELS
    requires beg[level] <= pivot < end[level]
    modifies beg, end
    ensures Pushed(old(beg[..]), old(end[..]), beg[..], end[..], level, pivot, low, high)
    ensures level <= low && level <= high
  {
    beg[level + 1] := pivot + 1;
    end[level + 1] := end[level];
    end[level] := pivot;
    low, high := level, level + 1;
    if end[level + 1] - beg[level + 1] > end[level] - beg[level] {
      var tmp := beg[level + 1];
      beg[level + 1] := beg[level];
      beg[level] := tmp;
      tmp := end[level + 1];
      end[level + 1] := end[level];
      end[level] := tmp;
      low, high := level + 1, level;
    }
  }

  /** Sorts a segment that is small enough to need no pivot. */
  method SortSmall<T(!new)>(t: Table<T>, left: nat, right: nat)
    requires t.Valid() && left <= right <= t.count
    modifies t, t.base
    ensures t.Valid() && t.Rest() == old(t.Rest())
    ensures PermutedWithin(old(t.items), t.items, left, right)
    ensures t.calls <= old(t.calls) + Triangle(right - left)
    ensures TotalPreorder(t.cmp) ==> SortedSpan(t.cmp, t.items, left, right)
  {
    hide *;
    if (if left == SIZE_MAX then 0 else left + 1) >= right {
      PermutedReflexive(t.items, left, right);
      ShortSpan(t.cmp, t.items, left, right);
    } else {
      InsertionSortRange(t, left, right);
    }
  }

  /**
   One round of the main loop.  A trivial or small segment is finished and popped; any other is split
   and its parts are pushed.  `next` is a machine word: popping the last entry wraps it to `SIZE_MAX`.
   */
  method SortTop<T(!new)>(t: Table<T>, beg: array<int>, end: array<int>, level: nat,
                          ghost g: Progress, ghost was: seq<seq<T>>, ghost limit: nat)
    returns (next: nat, ghost h: Progress)
    requires t.Valid() && t.count > 0 && beg != end && t.base as object !in {beg, end}
    requires g.beg == beg[..] && g.end == end[..] && g.live == level + 1
    requires Consistent(g, t.cmp, was, t.items, t.calls, limit)
    modifies t, t.base, beg, end
    ensures t.Valid() && t.Rest() == old(t.Rest())
    ensures h.beg == beg[..] && h.end == end[..] && next == if h.live == 0 then SIZE_MAX else h.live - 1
    ensures Consistent(h, t.cmp, was, t.items, t.calls, limit)
    ensures Cost(h) < Cost(g) || (Cost(h) == Cost(g) && h.live < g.live)
  {
    assert MAX_LEVELS == 64 && INSERTION_THRESHOLD == 16;
    assert SIZE_MAX == 0xFFFF_FFFF_FFFF_FFFF;
    hide *;
    ghost var s, calls := t.items, t.calls;
    Top(g, t.cmp, was, s, calls, limit);
    var left := beg[level];
    var right := end[level];
    if right - left <= INSERTION_THRESHOLD {
      SortSmall(t, left, right);
      h := AfterPop(g, t.cmp, was, s, t.items, calls, t.calls, limit);
      next := if level == 0 then SIZE_MAX else level - 1;
    } else {
      var pivot := SplitSegment(t, left, right);
      assert g.beg == beg[..] && g.end == end[..];
      ghost var low, high := PushParts(beg, end, level, pivot);
      h := AfterPush(g, t.cmp, was, s, t.items, beg[..], end[..], pivot, low, high, calls, limit);
      next := level + 1;
    }
  }

  /**
   Sorts the table.  The contract holds for every comparator; only the order of the result needs a
   total preorder.  `level < n` fails only after the wrap of an emptied stack: the proof shows that the
   guard never stops the loop while a segment is pending and that no push leaves the 64 entries.
   */
  method Sort<T(!new)>(t: Table<T>)
    requires t.Valid()
    modifies t, t.base
    ensures t.Valid() && t.Rest() == old(t.Rest())
    ensures Permutation(old(t.items), t.items)
    ensures t.calls <= old(t.calls) + Budget(t.count)
    ensures TotalPreorder(t.cmp) ==> Sorted(t.cmp, t.items)
  {
    assert MAX_LEVELS == 64 && SIZE_MAX == 0xFFFF_FFFF_FFFF_FFFF && WORD == SIZE_MAX + 1;
    hide *;
    var n := t.count;
    ShortIsSorted(t.cmp, t.items);
    if n < 2 {
      return;
    }
    var beg, end := new int[MAX_LEVELS], new int[MAX_LEVELS];
    var level := 0;
    beg[0] := 0;
    end[0] := n;
    ghost var was, limit := t.items, t.calls + Budget(n);
    ghost var g := Start(t.cmp, was, beg[..], end[..], t.calls);
    while level < n
      invariant t.Valid() && t.Rest() == old(t.Rest())
      invariant level == if g.live == 0 then SIZE_MAX else g.live - 1
      invariant g.beg == beg[..] && g.end == end[..]
      invariant Consistent(g, t.cmp, was, t.items, t.calls, limit)
      decreases Cost(g), g.live
    {
      level, g := SortTop(t, beg, end, level, g, was, limit);
    }
    if g.live > 0 {
      Top(g, t.cmp, was, t.items, t.calls, limit);
      assert false;
    }
    Finish(g, t.cmp, was, t.items, t.calls, limit);
  }
}
