/**
 The previous sort engine, kept by the library as the reference for the new one.  It picks the median
 with two or three comparisons, compares before it tests the scan bounds, and has no repair swap.
 */
module OldOvSort {
  import opened Words
  import opened SortOrder
  import opened SortTable
  import opened SortStack
  import opened OvSort

  /** The old exchanges put three cells in order too, although the last one may be left out. */
  lemma OldThreeOrdered<E(!new)>(cmp: Comparator<E>, one: seq<E>, two: seq<E>, three: seq<E>,
                                 left: nat, mid: nat, right: nat, moved: bool)
    requires left < mid < right < |one| == |two| && TotalPreorder(cmp) && Leq(cmp, one[left], one[mid])
    requires PairOrdered(cmp, one, two, right, mid)
    requires if moved then two == Swapped(one, right, mid) && PairOrdered(cmp, two, three, mid, left)
             else one == two == three
    ensures Leq(cmp, three[left], three[mid]) && Leq(cmp, three[mid], three[right])
  {
    hide Leq;
  }

  lemma OldMedianFound<E(!new)>(cmp: Comparator<E>, s: seq<E>, one: seq<E>, two: seq<E>, three: seq<E>,
                                left: nat, mid: nat, right: nat, moved: bool)
    requires left < mid < right < |s| == |one| == |two| == |three|
    requires PairOrdered(cmp, s, one, mid, left) && PairOrdered(cmp, one, two, right, mid)
    requires if moved then two == Swapped(one, right, mid) && PairOrdered(cmp, two, three, mid, left)
             else one == two == three
    ensures MedianMoved(cmp, s, Swapped(three, left, mid), left, mid, right)
  {
    assert KeptBut(s, s, left, mid, right);
    KeptButSwapped(s, s, mid, left, left, mid, right);
    hide Leq, KeptBut, TotalPreorder;
    KeptButSwapped(s, one, right, mid, left, mid, right);
    KeptButSwapped(s, two, mid, left, left, mid, right);
    KeptButSwapped(s, three, left, mid, left, mid, right);
    if TotalPreorder(cmp) {
      OldThreeOrdered(cmp, one, two, three, left, mid, right, moved);
    }
  }

  /** Median of three of the old engine: the last comparison is made only after a swap by the second. */
  method OldMedianToLeft<T(!new)>(t: Table<T>, left: nat, right: nat)
    requires t.Valid() && left + 1 < right < t.count
    modifies t, t.base
    ensures t.Valid() && t.Rest() == old(t.Rest())
    ensures PermutedWithin(old(t.items), t.items, left, right + 1)
    ensures MedianMoved(t.cmp, old(t.items), t.items, left, Middle(left, right), right)
  {
    hide *;
    ghost var was := t.items;
    var mid := Middle(left, right);
    SwapIfLess(t, mid, left, left, right + 1);
    ghost var one := t.items;
    var c := t.Compare(right, mid);
    PairOrderedBySwap(t.cmp, one, right, mid, c);
    ghost var two := one;
    if c < 0 {
      SwapKeepsPermuted(was, t.items, right, mid, left, right + 1);
      t.Swap(right, mid);
      two := t.items;
      SwapIfLess(t, mid, left, left, right + 1);
      PermutedTransitive(was, two, t.items, left, right + 1);
    }
    OldMedianFound(t.cmp, was, one, two, t.items, left, mid, right, c < 0);
    SwapKeepsPermuted(was, t.items, left, mid, left, right + 1);
    t.Swap(left, mid);
  }

  /** Partition of the old engine: both scans compare first, even when the bounds have met. */
  method OldPartition<T(!new)>(t: Table<T>, lo: nat, hi: nat) returns (left: nat)
    requires t.Valid() && lo < hi <= t.count
    modifies t, t.base
    ensures t.Valid() && t.Rest() == old(t.Rest())
    ensures PermutedWithin(old(t.items), t.items, lo, hi)
    ensures lo <= left < hi && t.items[left] == old(t.items)[lo]
    ensures TotalPreorder(t.cmp) ==> Scanned(t.cmp, t.items, lo, hi, left, left, t.items[left])
  {
    hide *;
    ghost var ordered := TotalPreorder(t.cmp);
    ghost var was, x := t.items, t.items[lo];
    PermutedReflexive(was, lo, hi);
    NothingScanned(t.cmp, was, lo, hi);
    left := lo;
    var right := hi - 1;
    var pivot := left;
    while left < right
      invariant t.Valid() && t.Rest() == old(t.Rest())
      invariant lo <= left <= right < hi && pivot == left && t.items[left] == x
      invariant PermutedWithin(was, t.items, lo, hi)
      invariant ordered ==> Scanned(t.cmp, t.items, lo, hi, left, right, x)
      decreases right - left
    {
      while true
        invariant t.Valid() && t.Rest() == old(t.Rest())
        invariant left <= right < hi && t.items[left] == x
        invariant PermutedWithin(was, t.items, lo, hi)
        invariant ordered ==> Scanned(t.cmp, t.items, lo, hi, left, right, x)
        decreases right - left
      {
        var c := t.Compare(right, pivot);
        if !(c >= 0 && left < right) {
          if ordered && left < right {
            PivotToRight(t.cmp, t.items, lo, hi, left, right, x);
          }
          break;
        }
        if ordered {
          ScanRight(t.cmp, t.items, lo, hi, left, right, x);
        }
        right := right - 1;
      }
      if left < right {
        SwapKeepsPermuted(was, t.items, left, right, lo, hi);
        t.Swap(left, right);
        pivot := right;
        left := left + 1;
      }
      while true
        invariant t.Valid() && t.Rest() == old(t.Rest())
        invariant lo <= left <= right < hi && pivot == right && t.items[right] == x
        invariant PermutedWithin(was, t.items, lo, hi)
        invariant ordered ==> Scanned(t.cmp, t.items, lo, hi, left, right, x)
        decreases right - left
      {
        var c := t.Compare(left, pivot);
        if !(c <= 0 && left < right) {
          if ordered && left < right {
            PivotToLeft(t.cmp, t.items, lo, hi, left, right, x);
          }
          break;
        }
        if ordered {
          ScanLeft(t.cmp, t.items, lo, hi, left, right, x);
        }
        left := left + 1;
      }
      if left < right {
        SwapKeepsPermuted(was, t.items, right, left, lo, hi);
        t.Swap(right, left);
        pivot := left;
        right := right - 1;
      }
    }
  }

  method OldSplitSegment<T(!new)>(t: Table<T>, left: nat, right: nat) returns (pivot: nat)
    requires t.Valid() && right <= t.count && left + INSERTION_THRESHOLD < right
    modifies t, t.base
    ensures t.Valid() && t.Rest() == old(t.Rest())
    ensures PermutedWithin(old(t.items), t.items, left, right)
    ensures left <= pivot < right
    ensures TotalPreorder(t.cmp) ==> SplitSpan(t.cmp, t.items, left, pivot, right)
  {
    assert INSERTION_THRESHOLD == 16;
    hide *;
    ghost var was := t.items;
    var last := right - 1;
    OldMedianToLeft(t, left, last);
    ghost var mid := t.items;
    assert PermutedWithin(was, mid, left, right);
    pivot := OldPartition(t, left, right);
    PermutedTransitive(was, mid, t.items, left, right);
    if TotalPreorder(t.cmp) {
      SplitRange(t.cmp, t.items, left, right, pivot);
    }
  }

  method OldSortSmall<T(!new)>(t: Table<T>, left: nat, right: nat)
    requires t.Valid() && left <= right <= t.count
    modifies t, t.base
    ensures t.Valid() && t.Rest() == old(t.Rest())
    ensures PermutedWithin(old(t.items), t.items, left, right)
    ensures TotalPreorder(t.cmp) ==> SortedSpan(t.cmp, t.items, left, right)
  {
    hide *;
    PermutedReflexive(t.items, left, right);
    if right == 0 || left >= right {
      ShortSpan(t.cmp, t.items, left, right);
    } else if left >= right - 1 {
      ShortSpan(t.cmp, t.items, left, right);
    } else {
      InsertionSortRange(t, left, right);
    }
  }

  /** One round of the main loop of the old engine. */
  method OldSortTop<T(!new)>(t: Table<T>, beg: array<int>, end: array<int>, level: nat,
                             ghost g: Progress, ghost was: seq<seq<T>>, ghost steps: nat, ghost limit: nat)
    returns (next: nat, ghost h: Progress, ghost steps': nat)
    requires t.Valid() && t.count > 0 && beg != end && t.base as object !in {beg, end}
    requires g.beg == beg[..] && g.end == end[..] && g.live == level + 1
    requires Consistent(g, t.cmp, was, t.items, steps, limit)
    modifies t, t.base, beg, end
    ensures t.Valid() && t.Rest() == old(t.Rest())
    ensures h.beg == beg[..] && h.end == end[..] && next == if h.live == 0 then SIZE_MAX else h.live - 1
    ensures Consistent(h, t.cmp, was, t.items, steps', limit)
    ensures Cost(h) < Cost(g) || (Cost(h) == Cost(g) && h.live < g.live)
  {
    assert MAX_LEVELS == 64 && INSERTION_THRESHOLD == 16;
    assert SIZE_MAX == 0xFFFF_FFFF_FFFF_FFFF;
    hide *;
    ghost var s := t.items;
    Top(g, t.cmp, was, s, steps, limit);
    var left := beg[level];
    var right := end[level];
    if right - left <= INSERTION_THRESHOLD {
      OldSortSmall(t, left, right);
      h := AfterPop(g, t.cmp, was, s, t.items, steps, steps, limit);
      steps' := steps;
      next := if level == 0 then SIZE_MAX else level - 1;
    } else {
      var pivot := OldSplitSegment(t, left, right);
      assert g.beg == beg[..] && g.end == end[..];
      ghost var low, high := PushParts(beg, end, level, pivot);
      h := AfterPush(g, t.cmp, was, s, t.items, beg[..], end[..], pivot, low, high, steps, limit);
      steps' := steps + (right - left) + 2;
      next := level + 1;
    }
  }

  /** The old engine sorts too; `steps` is a ghost count that only bounds its rounds. */
  method OldSort<T(!new)>(t: Table<T>)
    requires t.Valid()
    modifies t, t.base
    ensures t.Valid() && t.Rest() == old(t.Rest())
    ensures Permutation(old(t.items), t.items)
    ensures TotalPreorder(t.cmp) ==> Sorted(t.cmp, t.items)
  {
    assert MAX_LEVELS == 64 && SIZE_MAX == 0xFFFF_FFFF_FFFF_FFFF && WORD == SIZE_MAX + 1;
    hide *;
    var n := t.count;
    ShortIsSorted(t.cmp, t.items);
    if n < 2 {
      return;
    }
    var beg, end := new int[MAX_LEVELS], new int[MAX_LEVELS];
    var level := 0;
    beg[0] := 0;
    end[0] := n;
    ghost var was, limit, steps: nat := t.items, Budget(n), 0;
    ghost var g := Start(t.cmp, was, beg[..], end[..], 0);
    while level < n
      invariant t.Valid() && t.Rest() == old(t.Rest())
      invariant level == if g.live == 0 then SIZE_MAX else g.live - 1
      invariant g.beg == beg[..] && g.end == end[..]
      invariant Consistent(g, t.cmp, was, t.items, steps, limit)
      decreases Cost(g), g.live
    {
      level, g, steps := OldSortTop(t, beg, end, level, g, was, steps, limit);
    }
    if g.live > 0 {
      Top(g, t.cmp, was, t.items, steps, limit);
      assert false;
    }
    Finish(g, t.cmp, was, t.items, steps, limit);
  }
}
