/**
 What the explicit stack of pending segments means.

 `own` labels every cell: -1 when the cell has its final item, otherwise the stack entry that still
 has to sort it.  All order information of an unfinished sort is `Separated`: two cells may be out
 of order only when one pending segment holds both.
 */
module SortStack {
  import opened Powers
  import opened SortOrder

  const MAX_LEVELS: int := 64
  const INSERTION_THRESHOLD: int := 16

  /** The number of pairs of `size` items. */
  function Triangle(size: nat): (t: nat) {
    if size == 0 then 0 else Triangle(size - 1) + size - 1
  }

  lemma {:induction false} TriangleIsHalfProduct(size: nat)
    ensures Triangle(size) == size * (size - 1) / 2
  {
    if size > 0 {
      TriangleIsHalfProduct(size - 1);
      assert size * (size - 1) == (size - 1) * (size - 2) + 2 * (size - 1);
    }
  }

  lemma {:induction false} TriangleSplit(low: nat, high: nat)
    ensures Triangle(low) + Triangle(high) <= Triangle(low + high)
    decreases high
  {
    if high > 0 {
      TriangleSplit(low, high - 1);
    }
  }

  /** The comparisons allowed for a segment of `size` items. */
  function Budget(size: nat): (b: nat) {
    Triangle(size) + 3 * size
  }

  /** Splitting off a pivot with `size + 2` comparisons stays within the budget. */
  lemma BudgetSplit(low: nat, high: nat)
    ensures (low + 1 + high) + 2 + Budget(low) + Budget(high) <= Budget(low + 1 + high)
  {
    TriangleSplit(low, high);
  }

  /** `live` entries are pending; entry `k` has at most `n / 2^k` items, which bounds the depth. */
  ghost predicate Entries(beg: seq<int>, end: seq<int>, live: nat, n: nat) {
    && |beg| == |end| == MAX_LEVELS
    && live <= MAX_LEVELS
    && (forall k {:trigger beg[k]} {:trigger end[k]} | 0 <= k < live ::
          0 <= beg[k] <= end[k] <= n && (end[k] - beg[k]) * Pow2(k) <= n)
    && (live >= 2 ==> (INSERTION_THRESHOLD + 1) * Pow2(live - 2) <= n)
  }

  /** The segments of the pending entries are exactly the cells with their label. */
  ghost predicate Labels(own: seq<int>, beg: seq<int>, end: seq<int>, live: nat, n: nat) {
    && live <= |beg| && live <= |end|
    && |own| == n
    && (forall i | 0 <= i < n :: -1 <= own[i] < live)
    && (forall i, k {:trigger own[i], beg[k]} | 0 <= i < n && 0 <= k < live :: own[i] == k <==> beg[k] <= i < end[k])
  }

  ghost predicate Together(own: seq<int>, i: nat, j: nat)
    requires i < |own| && j < |own|
  {
    own[i] == own[j] && own[i] != -1
  }

  ghost predicate Separated<E>(cmp: Comparator<E>, s: seq<E>, own: seq<int>) {
    && |own| == |s|
    && forall i, j {:trigger s[i], s[j]} | 0 <= i < j < |s| :: Together(own, i, j) || Leq(cmp, s[i], s[j])
  }

  /** Rearranging one segment and relabelling it keeps all order facts about the other cells. */
  lemma Refine<E>(cmp: Comparator<E>, s: seq<E>, t: seq<E>, own: seq<int>, now: seq<int>, lo: nat, hi: nat, top: nat)
    requires Separated(cmp, s, own) && PermutedWithin(s, t, lo, hi) && |now| == |s|
    requires forall i | 0 <= i < |s| :: own[i] == top <==> lo <= i < hi
    requires forall i | 0 <= i < |s| :: !(lo <= i < hi) ==> now[i] == own[i] < top
    requires forall i | lo <= i < hi :: now[i] == -1 || now[i] >= top
    requires forall i, j {:trigger t[i], t[j]} | lo <= i < j < hi :: Together(now, i, j) || Leq(cmp, t[i], t[j])
    ensures Separated(cmp, t, now)
  {
    forall i, j | 0 <= i < j < |t|
      ensures Together(now, i, j) || Leq(cmp, t[i], t[j])
    {
      if lo <= i < hi && hi <= j {
        var o := PermutedOrigin(s, t, lo, hi, i);
        assert !Together(own, o, j) && t[j] == s[hi..][j - hi];
      } else if i < lo && lo <= j < hi {
        var o := PermutedOrigin(s, t, lo, hi, j);
        assert !Together(own, i, o) && t[i] == s[..lo][i];
      } else if !(lo <= i < hi) && !(lo <= j < hi) {
        assert t[i] == if i < lo then s[..lo][i] else s[hi..][i - hi];
        assert t[j] == if j < lo then s[..lo][j] else s[hi..][j - hi];
        assert Together(own, i, j) || Leq(cmp, s[i], s[j]);
      }
    }
  }

  /** The state of the loop of the sort between two segments. */
  ghost predicate Pending<E(!new)>(cmp: Comparator<E>, s: seq<E>, own: seq<int>, beg: seq<int>, end: seq<int>,
                                   live: nat)
  {
    && Entries(beg, end, live, |s|)
    && Labels(own, beg, end, live, |s|)
    && (TotalPreorder(cmp) ==> Separated(cmp, s, own))
  }

  /** The comparisons still allowed for all pending entries. */
  ghost function Total(beg: seq<int>, end: seq<int>, live: nat): (b: nat) {
    if live == 0 || live > |beg| || live > |end| || beg[live - 1] > end[live - 1] then 0
    else Total(beg, end, live - 1) + Budget(end[live - 1] - beg[live - 1])
  }

  lemma {:induction false} TotalPrefix(beg: seq<int>, end: seq<int>, beg': seq<int>, end': seq<int>, live: nat)
    requires live <= |beg| && live <= |end| && live <= |beg'| && live <= |end'|
    requires beg[..live] == beg'[..live] && end[..live] == end'[..live]
    ensures forall k | 0 <= k < live :: beg'[k] == beg[k] && end'[k] == end[k]
    ensures Total(beg, end, live) == Total(beg', end', live)
  {
    if live > 0 {
      assert beg[live - 1] == beg[..live][live - 1] && end[live - 1] == end[..live][live - 1];
      assert beg[..live - 1] == beg[..live][..live - 1] && beg'[..live - 1] == beg'[..live][..live - 1];
      assert end[..live - 1] == end[..live][..live - 1] && end'[..live - 1] == end'[..live][..live - 1];
      TotalPrefix(beg, end, beg', end', live - 1);
    }
  }

  lemma ProductMonotonic(a: nat, b: nat, p: nat)
    requires a <= b
    ensures a * p <= b * p
  {
  }

  /** A segment above the threshold can sit only on a low level, so a push always has room. */
  lemma RoomToPush(level: nat, size: nat, n: nat)
    requires size > INSERTION_THRESHOLD && size * Pow2(level) <= n < 0x1_0000_0000_0000_0000
    ensures level < n && level + 1 < MAX_LEVELS && (INSERTION_THRESHOLD + 1) * Pow2(level) <= n
  {
    ProductMonotonic(INSERTION_THRESHOLD + 1, size, Pow2(level));
    if level >= 60 {
      Pow2Monotonic(60, level);
      Pow2Values();
    }
  }

  lemma BudgetIsQuadratic(n: nat)
    ensures Budget(n) == n * (n - 1) / 2 + 3 * n
  {
    TriangleIsHalfProduct(n);
  }

  lemma FirstEntry<E(!new)>(cmp: Comparator<E>, s: seq<E>, own: seq<int>, beg: seq<int>, end: seq<int>)
    requires |s| == |own| && |beg| == |end| == MAX_LEVELS && beg[0] == 0 && end[0] == |s|
    requires forall i | 0 <= i < |s| :: own[i] == 0
    ensures Pending(cmp, s, own, beg, end, 1)
    ensures Total(beg, end, 1) == Budget(|s|)
  {
    assert Total(beg, end, 1) == Total(beg, end, 0) + Budget(|s|);
  }

  lemma TopEntry<E(!new)>(cmp: Comparator<E>, s: seq<E>, own: seq<int>, beg: seq<int>, end: seq<int>, live: nat)
    requires Pending(cmp, s, own, beg, end, live) && live > 0 && |s| > 0
    ensures live <= MAX_LEVELS == |beg| == |end| && 0 <= beg[live - 1] <= end[live - 1] <= |s|
    ensures live - 1 < |s|
    ensures |s| < 0x1_0000_0000_0000_0000 && end[live - 1] - beg[live - 1] > INSERTION_THRESHOLD ==> live < MAX_LEVELS
  {
    if |s| < 0x1_0000_0000_0000_0000 && end[live - 1] - beg[live - 1] > INSERTION_THRESHOLD {
      RoomToPush(live - 1, end[live - 1] - beg[live - 1], |s|);
    }
  }

  lemma LastEntry<E(!new)>(cmp: Comparator<E>, s: seq<E>, own: seq<int>, beg: seq<int>, end: seq<int>)
    requires Pending(cmp, s, own, beg, end, 0)
    ensures TotalPreorder(cmp) ==> Sorted(cmp, s)
  {
  }

  /** The labels after the segment of entry `top` has been sorted. */
  ghost function Retired(own: seq<int>, top: nat): (now: seq<int>)
    ensures |now| == |own|
    ensures forall i | 0 <= i < |own| :: now[i] == if own[i] == top then -1 else own[i]
  {
    seq(|own|, i requires 0 <= i < |own| => if own[i] == top then -1 else own[i])
  }

  /** The labels after the segment of entry `top` has been split at the pivot cell `p`. */
  ghost function Divided(own: seq<int>, top: nat, p: nat, low: nat, high: nat): (now: seq<int>)
    ensures |now| == |own|
    ensures forall i | 0 <= i < |own| ::
              now[i] == if own[i] != top then own[i] else if i < p then low else if i > p then high else -1
  {
    seq(|own|, i requires 0 <= i < |own| =>
          if own[i] != top then own[i] else if i < p then low else if i > p then high else -1)
  }

  lemma PopEntry(own: seq<int>, beg: seq<int>, end: seq<int>, live: nat, n: nat)
    requires Entries(beg, end, live, n) && Labels(own, beg, end, live, n) && live > 0
    ensures Entries(beg, end, live - 1, n) && Labels(Retired(own, live - 1), beg, end, live - 1, n)
  {
    if live >= 3 {
      assert Pow2(live - 2) == 2 * Pow2(live - 3);
    }
  }

  /** The topmost segment is in order, so its entry can be dropped. */
  lemma Pop<E(!new)>(cmp: Comparator<E>, s: seq<E>, t: seq<E>, own: seq<int>, beg: seq<int>, end: seq<int>, live: nat)
    requires Pending(cmp, s, own, beg, end, live) && live > 0
    requires PermutedWithin(s, t, beg[live - 1], end[live - 1])
    requires TotalPreorder(cmp) ==> SortedSpan(cmp, t, beg[live - 1], end[live - 1])
    ensures Pending(cmp, t, Retired(own, live - 1), beg, end, live - 1)
    ensures Total(beg, end, live) == Total(beg, end, live - 1) + Budget(end[live - 1] - beg[live - 1])
  {
    PopEntry(own, beg, end, live, |s|);
    if TotalPreorder(cmp) {
      Refine(cmp, s, t, own, Retired(own, live - 1), beg[live - 1], end[live - 1], live - 1);
    }
  }

  /** The stack after a push: entry `low` holds the left part, `high` the right part, the larger one first. */
  ghost predicate Pushed(beg: seq<int>, end: seq<int>, beg': seq<int>, end': seq<int>, top: nat, p: int,
                         low: nat, high: nat)
    requires top < |beg| && top < |end|
  {
    && |beg'| == |beg| && |end'| == |end| && top + 1 < |beg| && top + 1 < |end|
    && ((low == top && high == top + 1) || (low == top + 1 && high == top))
    && beg[..top] == beg'[..top] && end[..top] == end'[..top]
    && beg'[low] == beg[top] && end'[low] == p
    && beg'[high] == p + 1 && end'[high] == end[top]
    && end'[top + 1] - beg'[top + 1] <= end'[top] - beg'[top]
  }

  lemma HalfFits(size: nat, part: nat, k: nat, n: nat)
    requires 2 * part <= size && size * Pow2(k) <= n
    ensures part * Pow2(k + 1) <= n
  {
    ProductMonotonic(2 * part, size, Pow2(k));
    assert part * Pow2(k + 1) == 2 * part * Pow2(k);
  }

  /** The topmost segment has been split at `p`, and its two parts replace it. */
  lemma Push<E(!new)>(cmp: Comparator<E>, s: seq<E>, t: seq<E>, own: seq<int>, beg: seq<int>, end: seq<int>,
                      beg': seq<int>, end': seq<int>, live: nat, p: nat, low: nat, high: nat)
    requires Pending(cmp, s, own, beg, end, live) && 0 < live < MAX_LEVELS && |s| < 0x1_0000_0000_0000_0000
    requires end[live - 1] - beg[live - 1] > INSERTION_THRESHOLD && beg[live - 1] <= p < end[live - 1]
    requires PermutedWithin(s, t, beg[live - 1], end[live - 1])
    requires TotalPreorder(cmp) ==> SplitSpan(cmp, t, beg[live - 1], p, end[live - 1])
    requires Pushed(beg, end, beg', end', live - 1, p, low, high)
    ensures Pending(cmp, t, Divided(own, live - 1, p, low, high), beg', end', live + 1)
    ensures Total(beg', end', live + 1) + (end[live - 1] - beg[live - 1]) + 2 <= Total(beg, end, live)
  {
    assert |t| == |s|;
    hide Labels, Separated, Divided, PermutedWithin, TotalPreorder, Entries, Pushed, Total;
    PushEntries(beg, end, beg', end', live, |s|, p, low, high);
    PushLabels(own, beg, end, beg', end', live, |s|, p, low, high);
    PushTotal(beg, end, beg', end', live, |s|, p, low, high);
    if TotalPreorder(cmp) {
      PushSeparated(cmp, s, t, own, beg, end, live, p, low, high);
    }
  }

  lemma PushTotal(beg: seq<int>, end: seq<int>, beg': seq<int>, end': seq<int>, live: nat, n: nat,
                  p: int, low: nat, high: nat)
    requires Entries(beg, end, live, n) && 0 < live < MAX_LEVELS
    requires beg[live - 1] <= p < end[live - 1]
    requires Pushed(beg, end, beg', end', live - 1, p, low, high)
    ensures Total(beg', end', live + 1) + (end[live - 1] - beg[live - 1]) + 2 <= Total(beg, end, live)
  {
    var top := live - 1;
    TotalPrefix(beg, end, beg', end', top);
    BudgetSplit(p - beg[top], end[top] - p - 1);
    TotalStep(beg, end, top);
    TotalStep(beg', end', top);
    TotalStep(beg', end', live);
    hide Total, Budget, Entries;
  }

  lemma TotalStep(beg: seq<int>, end: seq<int>, top: nat)
    requires top < |beg| && top < |end| && beg[top] <= end[top]
    ensures Total(beg, end, top + 1) == Total(beg, end, top) + Budget(end[top] - beg[top])
  {
  }

  lemma PushEntries(beg: seq<int>, end: seq<int>, beg': seq<int>, end': seq<int>, live: nat, n: nat,
                    p: int, low: nat, high: nat)
    requires Entries(beg, end, live, n) && 0 < live < MAX_LEVELS
    requires n < 0x1_0000_0000_0000_0000 && end[live - 1] - beg[live - 1] > INSERTION_THRESHOLD
    requires beg[live - 1] <= p < end[live - 1]
    requires Pushed(beg, end, beg', end', live - 1, p, low, high)
    ensures Entries(beg', end', live + 1, n)
  {
    var top := live - 1;
    var size := end[top] - beg[top];
    RoomToPush(top, size, n);
    assert (end'[top] - beg'[top]) + 1 + (end'[live] - beg'[live]) == size;
    HalfFits(size, end'[live] - beg'[live], top, n);
    ProductMonotonic(end'[top] - beg'[top], size, Pow2(top));
    forall k | 0 <= k < top
      ensures 0 <= beg'[k] <= end'[k] <= n && (end'[k] - beg'[k]) * Pow2(k) <= n
    {
      assert beg'[k] == beg[..top][k] && end'[k] == end[..top][k];
    }
  }

  lemma PushLabels(own: seq<int>, beg: seq<int>, end: seq<int>, beg': seq<int>, end': seq<int>, live: nat, n: nat,
                   p: nat, low: nat, high: nat)
    requires Labels(own, beg, end, live, n) && live > 0
    requires beg[live - 1] <= p < end[live - 1]
    requires Pushed(beg, end, beg', end', live - 1, p, low, high)
    ensures Labels(Divided(own, live - 1, p, low, high), beg', end', live + 1, n)
  {
    var top, now := live - 1, Divided(own, live - 1, p, low, high);
    forall i | 0 <= i < n
      ensures now[i] == low <==> beg'[low] <= i < end'[low]
      ensures now[i] == high <==> beg'[high] <= i < end'[high]
    {
      assert own[i] == top <==> beg[top] <= i < end[top];
    }
    forall i, k | 0 <= i < n && 0 <= k < top
      ensures now[i] == k <==> beg'[k] <= i < end'[k]
    {
      assert beg'[k] == beg[..top][k] && end'[k] == end[..top][k];
      assert own[i] == k <==> beg[k] <= i < end[k];
    }
  }

  lemma PushSeparated<E(!new)>(cmp: Comparator<E>, s: seq<E>, t: seq<E>, own: seq<int>, beg: seq<int>, end: seq<int>,
                               live: nat, p: nat, low: nat, high: nat)
    requires TotalPreorder(cmp) && Pending(cmp, s, own, beg, end, live) && live > 0
    requires PermutedWithin(s, t, beg[live - 1], end[live - 1])
    requires low >= live - 1 && high >= live - 1
    requires SplitSpan(cmp, t, beg[live - 1], p, end[live - 1])
    ensures Separated(cmp, t, Divided(own, live - 1, p, low, high))
  {
    var lo, hi, now := beg[live - 1], end[live - 1], Divided(own, live - 1, p, low, high);
    forall i, j | lo <= i < j < hi
      ensures Together(now, i, j) || Leq(cmp, t[i], t[j])
    {
      assert own[i] == live - 1 && own[j] == live - 1;
      if i < p < j {
        assert Leq(cmp, t[i], t[p]) && Leq(cmp, t[p], t[j]);
      }
    }
    Refine(cmp, s, t, own, now, lo, hi, live - 1);
  }

  /** The stack and the labels between two rounds of the main loop. */
  datatype Progress = Progress(own: seq<int>, beg: seq<int>, end: seq<int>, live: nat)

  ghost function Cost(g: Progress): (c: nat) {
    Total(g.beg, g.end, g.live)
  }

  /**
   The invariant of the main loop: `s` rearranges `was`, the pending entries cover all that is out of
   order, and their budget still fits the limit.
   */
  ghost predicate Consistent<E(!new)>(g: Progress, cmp: Comparator<E>, was: seq<E>, s: seq<E>, calls: nat, limit: nat)
  {
    && Permutation(was, s)
    && Pending(cmp, s, g.own, g.beg, g.end, g.live)
    && calls + Cost(g) <= limit
    && |s| < 0x1_0000_0000_0000_0000
  }

  lemma Start<E(!new)>(cmp: Comparator<E>, s: seq<E>, beg: seq<int>, end: seq<int>, calls: nat) returns (g: Progress)
    requires |beg| == |end| == MAX_LEVELS && beg[0] == 0 && end[0] == |s| < 0x1_0000_0000_0000_0000
    ensures g.beg == beg && g.end == end && g.live == 1
    ensures Consistent(g, cmp, s, s, calls, calls + Budget(|s|))
  {
    g := Progress(seq(|s|, i => 0), beg, end, 1);
    FirstEntry(cmp, s, g.own, beg, end);
  }

  lemma Top<E(!new)>(g: Progress, cmp: Comparator<E>, was: seq<E>, s: seq<E>, calls: nat, limit: nat)
    requires Consistent(g, cmp, was, s, calls, limit) && g.live > 0 && |s| > 0
    ensures g.live <= MAX_LEVELS == |g.beg| == |g.end| && g.live - 1 < |s|
    ensures 0 <= g.beg[g.live - 1] <= g.end[g.live - 1] <= |s|
    ensures g.end[g.live - 1] - g.beg[g.live - 1] > INSERTION_THRESHOLD ==> g.live < MAX_LEVELS
  {
    TopEntry(cmp, s, g.own, g.beg, g.end, g.live);
  }

  lemma AfterPop<E(!new)>(g: Progress, cmp: Comparator<E>, was: seq<E>, s: seq<E>, t: seq<E>,
                          calls: nat, now: nat, limit: nat) returns (h: Progress)
    requires Consistent(g, cmp, was, s, calls, limit) && g.live > 0
    requires PermutedWithin(s, t, g.beg[g.live - 1], g.end[g.live - 1])
    requires TotalPreorder(cmp) ==> SortedSpan(cmp, t, g.beg[g.live - 1], g.end[g.live - 1])
    requires now <= calls + Triangle(g.end[g.live - 1] - g.beg[g.live - 1])
    ensures h.beg == g.beg && h.end == g.end && h.live == g.live - 1 && Cost(h) <= Cost(g)
    ensures Consistent(h, cmp, was, t, now, limit)
  {
    h := Progress(Retired(g.own, g.live - 1), g.beg, g.end, g.live - 1);
    PermutedWhole(was, s, t, g.beg[g.live - 1], g.end[g.live - 1]);
    Pop(cmp, s, t, g.own, g.beg, g.end, g.live);
  }

  lemma AfterPush<E(!new)>(g: Progress, cmp: Comparator<E>, was: seq<E>, s: seq<E>, t: seq<E>,
                           beg: seq<int>, end: seq<int>, p: nat, low: nat, high: nat,
                           calls: nat, limit: nat) returns (h: Progress)
    requires Consistent(g, cmp, was, s, calls, limit) && 0 < g.live < MAX_LEVELS
    requires g.end[g.live - 1] - g.beg[g.live - 1] > INSERTION_THRESHOLD
    requires PermutedWithin(s, t, g.beg[g.live - 1], g.end[g.live - 1])
    requires g.beg[g.live - 1] <= p < g.end[g.live - 1]
    requires TotalPreorder(cmp) ==> SplitSpan(cmp, t, g.beg[g.live - 1], p, g.end[g.live - 1])
    requires Pushed(g.beg, g.end, beg, end, g.live - 1, p, low, high)
    ensures h.beg == beg && h.end == end && h.live == g.live + 1 && Cost(h) < Cost(g)
    ensures Consistent(h, cmp, was, t, calls + (g.end[g.live - 1] - g.beg[g.live - 1]) + 2, limit)
  {
    h := Progress(Divided(g.own, g.live - 1, p, low, high), beg, end, g.live + 1);
    PermutedWhole(was, s, t, g.beg[g.live - 1], g.end[g.live - 1]);
    Push(cmp, s, t, g.own, g.beg, g.end, beg, end, g.live, p, low, high);
  }

  lemma Finish<E(!new)>(g: Progress, cmp: Comparator<E>, was: seq<E>, s: seq<E>, calls: nat, limit: nat)
    requires Consistent(g, cmp, was, s, calls, limit) && g.live == 0
    ensures Permutation(was, s) && calls <= limit && (TotalPreorder(cmp) ==> Sorted(cmp, s))
  {
    LastEntry(cmp, s, g.own, g.beg, g.end);
  }
}
