/** `ov_qsort`: the sort engine over a block of memory, and the agreement of the two engines. */
module OvQsort {
  import opened Words
  import opened SortOrder
  import opened SortTable
  import opened SortStack
  import opened OvSort
  import opened OldOvSort

  /**
   Sorts `count` items of `itemSize` cells at the start of `base`.  The items are rearranged as whole
   windows, in the order of the comparator, and no cell behind the last item changes.
   */
  method Qsort<T(!new)>(base: array<T>, count: nat, itemSize: nat, cmp: Comparator<seq<T>>)
    requires count < WORD && count * itemSize <= base.Length
    modifies base
    ensures Permutation(old(Windows(base[..], itemSize, count)), Windows(base[..], itemSize, count))
    ensures base[count * itemSize..] == old(base[count * itemSize..])
    ensures itemSize > 0 && TotalPreorder(cmp) ==> Sorted(cmp, Windows(base[..], itemSize, count))
    ensures itemSize == 0 || count < 2 ==> base[..] == old(base[..])
  {
    hide Windows, Window, Permutation, Sorted, TotalPreorder, Budget;
    OffsetIsProduct(itemSize, count);
    ShortIsSorted(cmp, Windows(base[..], itemSize, count));
    WindowsLength(base[..], itemSize, count);
    if itemSize == 0 || count < 2 {
      return;
    }
    var t := new Table(base, count, itemSize, cmp);
    Sort(t);
  }

  /**
   The two engines leave identical tables whenever the comparator is a total order on the items,
   although they choose pivots and guard their scans differently.
   */
  method SortBoth<T(!new)>(baseline: Table<T>, optimized: Table<T>)
    requires baseline.Valid() && optimized.Valid() && baseline != optimized && baseline.base != optimized.base
    requires baseline.items == optimized.items && baseline.cmp == optimized.cmp
    modifies baseline, baseline.base, optimized, optimized.base
    ensures TotalOrder(baseline.cmp) ==> baseline.items == optimized.items
  {
    hide *;
    ghost var was := baseline.items;
    OldSort(baseline);
    Sort(optimized);
    if TotalOrder(baseline.cmp) {
      SortsAgree(baseline.cmp, was, baseline.items, optimized.items);
    }
  }

  lemma SortsAgree<E(!new)>(cmp: Comparator<E>, was: seq<E>, s: seq<E>, t: seq<E>)
    requires TotalOrder(cmp) && Permutation(was, s) && Permutation(was, t)
    requires TotalPreorder(cmp) ==> Sorted(cmp, s) && Sorted(cmp, t)
    ensures s == t
  {
    SortedUnique(cmp, s, t);
  }

  lemma WindowsLength<T>(cells: seq<T>, itemSize: nat, count: nat)
    ensures |Windows(cells, itemSize, count)| == count
  {
  }
}
