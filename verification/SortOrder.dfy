/**
 The order and permutation vocabulary of the sort engine.

 A comparison callback of the library returns a negative, zero or positive number.  It may carry
 arbitrary state, so a comparator here also receives the number of comparisons made before it: any
 run of any callback, however inconsistent its answers, is described by one such function.
 */
module SortOrder {

  type Comparator<!E> = (nat, E, E) -> int

  ghost predicate Leq<E>(cmp: Comparator<E>, x: E, y: E) {
    cmp(0, x, y) <= 0
  }

  /** The comparator answers by the two items alone, and its answers form a total preorder. */
  ghost predicate TotalPreorder<E(!new)>(cmp: Comparator<E>) {
    && (forall k, x, y :: cmp(k, x, y) <= 0 <==> Leq(cmp, x, y))
    && (forall k, x, y :: cmp(k, x, y) >= 0 <==> Leq(cmp, y, x))
    && (forall x, y, z :: Leq(cmp, x, y) && Leq(cmp, y, z) ==> Leq(cmp, x, z))
  }

  /** A total preorder in which only equal items compare as equal. */
  ghost predicate TotalOrder<E(!new)>(cmp: Comparator<E>) {
    && TotalPreorder(cmp)
    && forall x, y :: Leq(cmp, x, y) && Leq(cmp, y, x) ==> x == y
  }

  ghost predicate Sorted<E>(cmp: Comparator<E>, s: seq<E>) {
    forall i, j :: 0 <= i < j < |s| ==> Leq(cmp, s[i], s[j])
  }

  /** The items `lo..hi` are in order. */
  ghost predicate SortedSpan<E>(cmp: Comparator<E>, s: seq<E>, lo: int, hi: int) {
    && 0 <= lo <= hi <= |s|
    && forall i, j :: lo <= i < j < hi ==> Leq(cmp, s[i], s[j])
  }

  /** The items `lo..p` are at most, and the items behind `p` up to `hi` at least, the item `p`. */
  ghost predicate SplitSpan<E>(cmp: Comparator<E>, s: seq<E>, lo: int, p: int, hi: int) {
    && 0 <= lo <= p < hi <= |s|
    && (forall i | lo <= i < p :: Leq(cmp, s[i], s[p]))
    && (forall i | p < i < hi :: Leq(cmp, s[p], s[i]))
  }

  lemma ShortSpan<E>(cmp: Comparator<E>, s: seq<E>, lo: nat, hi: nat)
    requires lo <= hi <= |s| && hi <= lo + 1
    ensures SortedSpan(cmp, s, lo, hi)
  {
  }

  /** `t` rearranges the cells `lo..hi` of `s` and keeps every other cell. */
  ghost predicate PermutedWithin<E>(s: seq<E>, t: seq<E>, lo: int, hi: int) {
    && 0 <= lo <= hi <= |s| == |t|
    && s[..lo] == t[..lo]
    && s[hi..] == t[hi..]
    && multiset(s[lo..hi]) == multiset(t[lo..hi])
  }

  function Swapped<E>(s: seq<E>, i: nat, j: nat): (t: seq<E>)
    requires i < |s| && j < |s|
    ensures |t| == |s| && t[i] == s[j] && t[j] == s[i]
  {
    s[i := s[j]][j := s[i]]
  }

  lemma SwappedIsPermuted<E>(s: seq<E>, i: nat, j: nat, lo: nat, hi: nat)
    requires lo <= i < hi <= |s| && lo <= j < hi
    ensures PermutedWithin(s, Swapped(s, i, j), lo, hi)
  {
    var t := Swapped(s, i, j);
    assert t[lo..hi] == s[lo..hi][i - lo := s[j]][j - lo := s[i]];
  }

  lemma PermutedReflexive<E>(s: seq<E>, lo: nat, hi: nat)
    requires lo <= hi <= |s|
    ensures PermutedWithin(s, s, lo, hi)
  {
  }

  lemma PermutedTransitive<E>(s: seq<E>, t: seq<E>, u: seq<E>, lo: nat, hi: nat)
    requires PermutedWithin(s, t, lo, hi) && PermutedWithin(t, u, lo, hi)
    ensures PermutedWithin(s, u, lo, hi)
  {
  }

  /** One more swap inside the window, for the loop invariants of the sorting methods. */
  lemma SwapKeepsPermuted<E>(s: seq<E>, t: seq<E>, i: nat, j: nat, lo: nat, hi: nat)
    requires PermutedWithin(s, t, lo, hi) && lo <= i < hi && lo <= j < hi
    ensures PermutedWithin(s, Swapped(t, i, j), lo, hi)
  {
    SwappedIsPermuted(t, i, j, lo, hi);
    PermutedTransitive(s, t, Swapped(t, i, j), lo, hi);
  }

  ghost predicate Permutation<E>(s: seq<E>, t: seq<E>) {
    multiset(s) == multiset(t)
  }

  /** A rearrangement of a window rearranges the whole sequence. */
  lemma PermutedWhole<E>(r: seq<E>, s: seq<E>, t: seq<E>, lo: nat, hi: nat)
    requires Permutation(r, s) && PermutedWithin(s, t, lo, hi)
    ensures Permutation(r, t)
  {
    assert s == s[..lo] + s[lo..hi] + s[hi..];
    assert t == t[..lo] + t[lo..hi] + t[hi..];
  }

  /** Every item of the rearranged window stood somewhere in that window before. */
  lemma PermutedOrigin<E>(s: seq<E>, t: seq<E>, lo: nat, hi: nat, i: nat) returns (o: nat)
    requires PermutedWithin(s, t, lo, hi) && lo <= i < hi
    ensures lo <= o < hi && s[o] == t[i]
  {
    assert t[lo..hi][i - lo] == t[i];
    assert t[i] in multiset(s[lo..hi]);
    assert t[i] in s[lo..hi];
    var k :| 0 <= k < hi - lo && s[lo..hi][k] == t[i];
    o := lo + k;
  }

  lemma ShortIsSorted<E>(cmp: Comparator<E>, s: seq<E>)
    ensures |s| < 2 ==> Sorted(cmp, s)
    ensures Permutation(s, s)
  {
  }

  /** The comparator that orders items by a number. */
  function ByKey<E>(key: E -> int): (cmp: Comparator<E>) {
    (k: nat, x: E, y: E) => key(x) - key(y)
  }

  /** For it, sorted means that the numbers ascend. */
  lemma SortedByKey<E(!new)>(key: E -> int, s: seq<E>)
    ensures TotalPreorder(ByKey(key))
    ensures Sorted(ByKey(key), s) <==> forall i, j | 0 <= i < j < |s| :: key(s[i]) <= key(s[j])
  {
  }

  /** Different numbers for different items make it a total order. */
  lemma TotalByKey<E(!new)>(key: E -> int)
    requires forall x, y :: key(x) == key(y) ==> x == y
    ensures TotalOrder(ByKey(key))
  {
    SortedByKey(key, []);
  }

  /** Whatever the comparator, in a sorted sequence no earlier item is answered to be larger than a later one. */
  lemma SortedAnswers<E(!new)>(cmp: Comparator<E>, s: seq<E>, call: nat, i: nat, j: nat)
    requires TotalPreorder(cmp) && Sorted(cmp, s) && i < j < |s|
    ensures cmp(call, s[i], s[j]) <= 0 && cmp(call, s[j], s[i]) >= 0
  {
    assert Leq(cmp, s[i], s[j]);
  }

  lemma SortedHeadIsLeast<E(!new)>(cmp: Comparator<E>, s: seq<E>, x: E)
    requires TotalPreorder(cmp) && Sorted(cmp, s) && x in multiset(s)
    ensures Leq(cmp, s[0], x)
  {
    var i :| 0 <= i < |s| && s[i] == x;
    var c := cmp(0, x, x);
    assert c <= 0 || c >= 0;
    assert Leq(cmp, x, x);
  }

  lemma DropHead<E>(s: seq<E>)
    requires s != []
    ensures multiset(s[1..]) == multiset(s) - multiset{s[0]}
  {
    assert s == [s[0]] + s[1..];
  }

  /** Under a total order the sorted rearrangement of a sequence is unique. */
  lemma {:induction false} SortedUnique<E(!new)>(cmp: Comparator<E>, s: seq<E>, t: seq<E>)
    requires TotalOrder(cmp) && Sorted(cmp, s) && Sorted(cmp, t)
    requires Permutation(s, t)
    ensures s == t
  {
    assert |s| == |multiset(s)| == |multiset(t)| == |t|;
    if s != [] {
      SortedHeadIsLeast(cmp, s, t[0]);
      SortedHeadIsLeast(cmp, t, s[0]);
      DropHead(s);
      DropHead(t);
      SortedUnique(cmp, s[1..], t[1..]);
      assert s == [s[0]] + s[1..] && t == [t[0]] + t[1..];
    }
  }
}
