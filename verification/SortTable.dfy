/**
 The caller data that a sort works on, together with the two callbacks.

 `base` holds `count` items of `itemSize` cells each, as `ov_qsort` lays them out; a sort of plain
 elements is the case `itemSize == 1`.  `Compare` and `Swap` are the only ways in which the sort
 reaches the data, and the index bounds they require are proved at each of its calls.
 */
module SortTable {
  import opened Words
  import opened SortOrder

  /** The cell at which item `i` starts, `i * itemSize` written as a sum. */
  function Offset(itemSize: nat, i: nat): (o: nat) {
    if i == 0 then 0 else Offset(itemSize, i - 1) + itemSize
  }

  lemma {:induction false} OffsetIsProduct(itemSize: nat, i: nat)
    ensures Offset(itemSize, i) == i * itemSize
  {
    if i > 0 {
      OffsetIsProduct(itemSize, i - 1);
    }
  }

  /** The windows of distinct items never overlap, and none leaves the table. */
  lemma {:induction false} WindowsDisjoint(itemSize: nat, i: nat, j: nat)
    requires i < j
    ensures Offset(itemSize, i) + itemSize == Offset(itemSize, i + 1) <= Offset(itemSize, j)
  {
    if i + 1 < j {
      WindowsDisjoint(itemSize, i, j - 1);
    }
  }

  lemma WindowsApart(itemSize: nat, i: nat, j: nat)
    requires i != j
    ensures Offset(itemSize, i) + itemSize <= Offset(itemSize, j) || Offset(itemSize, j) + itemSize <= Offset(itemSize, i)
  {
    if i < j {
      WindowsDisjoint(itemSize, i, j);
    } else {
      WindowsDisjoint(itemSize, j, i);
    }
  }

  lemma WindowInside(itemSize: nat, i: nat, count: nat)
    requires i < count
    ensures Offset(itemSize, i) + itemSize == Offset(itemSize, i + 1) <= Offset(itemSize, count)
  {
    WindowsDisjoint(itemSize, i, count);
  }

  /** Item `i` of `cells`; empty when the window would leave the cells. */
  ghost function Window<T>(cells: seq<T>, itemSize: nat, i: nat): (w: seq<T>) {
    var at := Offset(itemSize, i);
    if at + itemSize <= |cells| then cells[at..at + itemSize] else []
  }

  /** The items laid out in `cells`, in order. */
  ghost function Windows<T>(cells: seq<T>, itemSize: nat, count: nat): (w: seq<seq<T>>) {
    seq(count, i requires 0 <= i => Window(cells, itemSize, i))
  }

  /** `cells` with the windows at `a` and `b` exchanged. */
  ghost predicate CellsSwapped<T>(was: seq<T>, now: seq<T>, a: nat, b: nat, size: nat) {
    && |now| == |was| && a + size <= |was| && b + size <= |was|
    && now[a..a + size] == was[b..b + size]
    && now[b..b + size] == was[a..a + size]
    && forall p | 0 <= p < |was| :: a <= p < a + size || b <= p < b + size || now[p] == was[p]
  }

  lemma SliceKept<T>(was: seq<T>, now: seq<T>, a: nat, b: nat, size: nat, at: nat)
    requires CellsSwapped(was, now, a, b, size)
    requires at + size <= |was|
    requires at + size <= a || a + size <= at
    requires at + size <= b || b + size <= at
    ensures now[at..at + size] == was[at..at + size]
  {
  }

  /** The window of an item other than `i` and `j` survives a swap of items `i` and `j`. */
  lemma WindowKept<T>(was: seq<T>, now: seq<T>, itemSize: nat, count: nat, i: nat, j: nat, x: nat)
    requires Offset(itemSize, count) <= |was|
    requires i < count && j < count && x < count && x != i && x != j
    requires CellsSwapped(was, now, Offset(itemSize, i), Offset(itemSize, j), itemSize)
    ensures Window(now, itemSize, x) == Window(was, itemSize, x)
  {
    WindowInside(itemSize, x, count);
    WindowsApart(itemSize, x, i);
    WindowsApart(itemSize, x, j);
    hide CellsSwapped, Offset;
    SliceKept(was, now, Offset(itemSize, i), Offset(itemSize, j), itemSize, Offset(itemSize, x));
  }

  lemma RestKept<T>(was: seq<T>, now: seq<T>, a: nat, b: nat, size: nat, end: nat)
    requires CellsSwapped(was, now, a, b, size) && a + size <= end && b + size <= end <= |was|
    ensures now[end..] == was[end..]
  {
  }

  lemma WindowsExchanged<T>(was: seq<T>, now: seq<T>, itemSize: nat, i: nat, j: nat)
    requires CellsSwapped(was, now, Offset(itemSize, i), Offset(itemSize, j), itemSize)
    ensures Window(now, itemSize, i) == Window(was, itemSize, j)
    ensures Window(now, itemSize, j) == Window(was, itemSize, i)
  {
  }

  /** Exchanging two windows cell by cell exchanges two items and nothing else. */
  lemma WindowsSwapped<T>(was: seq<T>, now: seq<T>, itemSize: nat, count: nat, i: nat, j: nat)
    requires Offset(itemSize, count) <= |was|
    requires i < count && j < count
    requires CellsSwapped(was, now, Offset(itemSize, i), Offset(itemSize, j), itemSize)
    ensures Offset(itemSize, count) <= |now|
    ensures Windows(now, itemSize, count) == Swapped(Windows(was, itemSize, count), i, j)
    ensures now[Offset(itemSize, count)..] == was[Offset(itemSize, count)..]
  {
    assert |now| == |was|;
    hide CellsSwapped, Window, Offset;
    WindowInside(itemSize, i, count);
    WindowInside(itemSize, j, count);
    RestKept(was, now, Offset(itemSize, i), Offset(itemSize, j), itemSize, Offset(itemSize, count));
    WindowsExchanged(was, now, itemSize, i, j);
    forall x | 0 <= x < count && x != i && x != j
      ensures Window(now, itemSize, x) == Window(was, itemSize, x)
    {
      WindowKept(was, now, itemSize, count, i, j, x);
    }
    assert Windows(now, itemSize, count) == Swapped(Windows(was, itemSize, count), i, j);
  }

  class Table<T(!new)> {
    const base: array<T>
    const count: nat
    const itemSize: nat
    const cmp: Comparator<seq<T>>
    var calls: nat
    ghost var items: seq<seq<T>>

    ghost predicate Valid()
      reads this, base
      ensures Valid() ==> |items| == count < WORD
      ensures Valid() ==> Offset(itemSize, count) <= base.Length
    {
      && count < WORD
      && Offset(itemSize, count) <= base.Length
      && items == Windows(base[..], itemSize, count)
    }

    /** The cells behind the last item. */
    ghost function Rest(): seq<T>
      reads base
      requires Offset(itemSize, count) <= base.Length
    {
      base[Offset(itemSize, count)..]
    }

    constructor (base: array<T>, count: nat, itemSize: nat, cmp: Comparator<seq<T>>)
      requires count < WORD && Offset(itemSize, count) <= base.Length
      ensures Valid() && fresh(this)
      ensures this.base == base && this.count == count && this.itemSize == itemSize && this.cmp == cmp
      ensures calls == 0
    {
      this.base, this.count, this.itemSize, this.cmp := base, count, itemSize, cmp;
      calls := 0;
      items := Windows(base[..], itemSize, count);
    }

    /** The comparison callback on two item indices. */
    method Compare(i: nat, j: nat) returns (c: int)
      requires Valid() && i < count && j < count
      modifies this`calls
      ensures Valid() && calls == old(calls) + 1
      ensures c == cmp(old(calls), items[i], items[j])
      ensures TotalPreorder(cmp) ==> (c <= 0 <==> Leq(cmp, items[i], items[j]))
      ensures TotalPreorder(cmp) ==> (c >= 0 <==> Leq(cmp, items[j], items[i]))
    {
      WindowInside(itemSize, i, count);
      WindowInside(itemSize, j, count);
      var a, b := i * itemSize, j * itemSize;
      OffsetIsProduct(itemSize, i);
      OffsetIsProduct(itemSize, j);
      c := cmp(calls, base[a..a + itemSize], base[b..b + itemSize]);
      assert base[..][a..a + itemSize] == base[a..a + itemSize];
      assert base[..][b..b + itemSize] == base[b..b + itemSize];
      calls := calls + 1;
    }

    /** The swap callback: exchanges two windows cell by cell. */
    method Swap(i: nat, j: nat)
      requires Valid() && i < count && j < count
      modifies this`items, base
      ensures Valid() && items == Swapped(old(items), i, j)
      ensures Rest() == old(Rest())
    {
      WindowInside(itemSize, i, count);
      WindowInside(itemSize, j, count);
      if i != j {
        WindowsApart(itemSize, i, j);
      }
      var a, b := i * itemSize, j * itemSize;
      OffsetIsProduct(itemSize, i);
      OffsetIsProduct(itemSize, j);
      ghost var cells := base[..];
      SwapCells(base, a, b, itemSize);
      WindowsSwapped(cells, base[..], itemSize, count, i, j);
      items := Swapped(items, i, j);
    }
  }

  /** The byte loop of the swap callback; `a == b` or the two windows are disjoint. */
  method SwapCells<T>(base: array<T>, a: nat, b: nat, size: nat)
    requires a + size <= base.Length && b + size <= base.Length
    requires a == b || a + size <= b || b + size <= a
    modifies base
    ensures CellsSwapped(old(base[..]), base[..], a, b, size)
  {
    ghost var was := base[..];
    var x := 0;
    assert CellsSwapped(was, was, a, b, 0);
    hide CellsSwapped;
    while x < size
      invariant x <= size
      invariant CellsSwapped(was, base[..], a, b, x)
    {
      OneMoreCell(was, base[..], a, b, x);
      var tmp := base[a + x];
      base[a + x] := base[b + x];
      base[b + x] := tmp;
      x := x + 1;
    }
  }

  lemma OneMoreCell<T>(was: seq<T>, now: seq<T>, a: nat, b: nat, x: nat)
    requires CellsSwapped(was, now, a, b, x) && a + x < |was| && b + x < |was|
    requires a == b || a + x < b || b + x < a
    ensures CellsSwapped(was, now[a + x := now[b + x]][b + x := now[a + x]], a, b, x + 1)
  {
    var next := now[a + x := now[b + x]][b + x := now[a + x]];
    SliceGrows(was, now, next, a, b, x);
    SliceGrows(was, now, next, b, a, x);
  }

  lemma SliceGrows<T>(was: seq<T>, now: seq<T>, next: seq<T>, a: nat, b: nat, x: nat)
    requires |now| == |was| == |next| && a + x < |was| && b + x < |was|
    requires now[a..a + x] == was[b..b + x] && next[a + x] == was[b + x]
    requires forall p | a <= p < a + x :: next[p] == now[p]
    ensures next[a..a + x + 1] == was[b..b + x + 1]
  {
    assert next[a..a + x] == now[a..a + x];
    assert next[a..a + x + 1] == next[a..a + x] + [next[a + x]];
    assert was[b..b + x + 1] == was[b..b + x] + [was[b + x]];
  }
}
