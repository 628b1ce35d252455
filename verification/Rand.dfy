/** The bit-level generators: the splitmix hashes, the global hint and the two xoshiro generators. */
module Rand {
  import opened Powers

  // splitmix64, step by step, with the inverse of each step.

  function Fold30(x: bv64): (y: bv64) { x ^ (x >> 30) }
  function Fold27(x: bv64): (y: bv64) { x ^ (x >> 27) }
  function Fold31(x: bv64): (y: bv64) { x ^ (x >> 31) }
  function Unfold30(y: bv64): (x: bv64) { y ^ (y >> 30) ^ (y >> 60) }
  function Unfold27(y: bv64): (x: bv64) { y ^ (y >> 27) ^ (y >> 54) }
  function Unfold31(y: bv64): (x: bv64) { y ^ (y >> 31) ^ (y >> 62) }
  function ScaleA(x: bv64): (y: bv64) { x * 0xbf58476d1ce4e5b9 }
  function ScaleB(x: bv64): (y: bv64) { x * 0x94d049bb133111eb }
  function UnscaleA(y: bv64): (x: bv64) { y * 0x96de1b173f119089 }
  function UnscaleB(y: bv64): (x: bv64) { y * 0x319642b2d24d8ec3 }

  function Splitmix64(x: bv64): (r: bv64) {
    Fold31(ScaleB(Fold27(ScaleA(Fold30(x)))))
  }

  function Unsplitmix64(r: bv64): (x: bv64) {
    Unfold30(UnscaleA(Unfold27(UnscaleB(Unfold31(r)))))
  }

  function Splitmix64Next(x: bv64): (r: bv64) {
    x + 0x9e3779b97f4a7c15
  }

  // Each fact applies one function to the written-out value of the other one.

  lemma Fold30Facts(x: bv64)
    ensures Fold30(x) == x ^ (x >> 30) && Unfold30(x ^ (x >> 30)) == x
    ensures Unfold30(x) == x ^ (x >> 30) ^ (x >> 60) && Fold30(x ^ (x >> 30) ^ (x >> 60)) == x
  {
  }

  lemma Fold27Facts(x: bv64)
    ensures Fold27(x) == x ^ (x >> 27) && Unfold27(x ^ (x >> 27)) == x
    ensures Unfold27(x) == x ^ (x >> 27) ^ (x >> 54) && Fold27(x ^ (x >> 27) ^ (x >> 54)) == x
  {
  }

  lemma Fold31Facts(x: bv64)
    ensures Fold31(x) == x ^ (x >> 31) && Unfold31(x ^ (x >> 31)) == x
    ensures Unfold31(x) == x ^ (x >> 31) ^ (x >> 62) && Fold31(x ^ (x >> 31) ^ (x >> 62)) == x
  {
  }

  lemma ScaleAFacts(x: bv64)
    ensures ScaleA(x) == x * 0xbf58476d1ce4e5b9 && UnscaleA(x * 0xbf58476d1ce4e5b9) == x
    ensures UnscaleA(x) == x * 0x96de1b173f119089 && ScaleA(x * 0x96de1b173f119089) == x
  {
  }

  lemma ScaleBFacts(x: bv64)
    ensures ScaleB(x) == x * 0x94d049bb133111eb && UnscaleB(x * 0x94d049bb133111eb) == x
    ensures UnscaleB(x) == x * 0x319642b2d24d8ec3 && ScaleB(x * 0x319642b2d24d8ec3) == x
  {
  }

  lemma Fold30Inverse(x: bv64)
    ensures Unfold30(Fold30(x)) == x && Fold30(Unfold30(x)) == x
  {
    Fold30Facts(x);
    hide *;
  }

  lemma Fold27Inverse(x: bv64)
    ensures Unfold27(Fold27(x)) == x && Fold27(Unfold27(x)) == x
  {
    Fold27Facts(x);
    hide *;
  }

  lemma Fold31Inverse(x: bv64)
    ensures Unfold31(Fold31(x)) == x && Fold31(Unfold31(x)) == x
  {
    Fold31Facts(x);
    hide *;
  }

  lemma ScaleAInverse(x: bv64)
    ensures UnscaleA(ScaleA(x)) == x && ScaleA(UnscaleA(x)) == x
  {
    ScaleAFacts(x);
    hide *;
  }

  lemma ScaleBInverse(x: bv64)
    ensures UnscaleB(ScaleB(x)) == x && ScaleB(UnscaleB(x)) == x
  {
    ScaleBFacts(x);
    hide *;
  }

  /** splitmix64 is a bijection of the 64-bit words. */
  lemma Splitmix64IsBijection(x: bv64)
    ensures Unsplitmix64(Splitmix64(x)) == x
    ensures Splitmix64(Unsplitmix64(x)) == x
  {
    hide Fold30, Fold27, Fold31, Unfold30, Unfold27, Unfold31, ScaleA, ScaleB, UnscaleA, UnscaleB;
    Fold30Inverse(x);
    ScaleAInverse(Fold30(x));
    Fold27Inverse(ScaleA(Fold30(x)));
    ScaleBInverse(Fold27(ScaleA(Fold30(x))));
    Fold31Inverse(ScaleB(Fold27(ScaleA(Fold30(x)))));
    Fold31Inverse(x);
    ScaleBInverse(Unfold31(x));
    Fold27Inverse(UnscaleB(Unfold31(x)));
    ScaleAInverse(Unfold27(UnscaleB(Unfold31(x))));
    Fold30Inverse(UnscaleA(Unfold27(UnscaleB(Unfold31(x)))));
  }

  lemma Splitmix64Injective(x: bv64, y: bv64)
    requires Splitmix64(x) == Splitmix64(y)
    ensures x == y
  {
    hide *;
    Splitmix64IsBijection(x);
    Splitmix64IsBijection(y);
  }

  // The global hint: an atomic counter that every call advances by an odd constant.

  /** The counter after `k` calls. */
  function Counter(start: bv64, k: nat): (c: bv64) {
    if k == 0 then start else Splitmix64Next(Counter(start, k - 1))
  }

  /** What the call number `k` in the atomic order returns. */
  function Hint(start: bv64, k: nat): (h: bv64) {
    Splitmix64(Counter(start, k))
  }

  /** `k` as a machine word. */
  function Word(k: nat): (w: bv64) {
    if k == 0 then 0 else Successor(Word(k - 1))
  }

  function Successor(w: bv64): (r: bv64) { w + 1 }
  function Double(w: bv64): (r: bv64) { w * 2 }
  function Multiple(w: bv64): (r: bv64) { w * 0x9e3779b97f4a7c15 }
  function Unmultiple(w: bv64): (r: bv64) { w * 0xf1de83e19937733d }
  function Plus(a: bv64, b: bv64): (r: bv64) { a + b }

  lemma MultipleFacts(start: bv64, w: bv64)
    ensures Plus(start, Multiple(w + 1)) == Splitmix64Next(Plus(start, w * 0x9e3779b97f4a7c15))
    ensures Multiple(w) == w * 0x9e3779b97f4a7c15 && Successor(w) == w + 1
    ensures Unmultiple(w * 0x9e3779b97f4a7c15) == w
    ensures Plus(start, Multiple(0)) == start && Unmultiple(0) == 0
  {
  }

  lemma {:induction false} CounterClosedForm(start: bv64, k: nat)
    ensures Counter(start, k) == Plus(start, Multiple(Word(k)))
  {
    hide Splitmix64Next, Successor, Multiple, Plus;
    if k == 0 {
      MultipleFacts(start, 0);
    } else {
      CounterClosedForm(start, k - 1);
      MultipleFacts(start, Word(k - 1));
    }
  }

  lemma {:induction false} WordDoubles(e: nat)
    ensures Word(2 * e) == Double(Word(e)) && Word(2 * e + 1) == Successor(Double(Word(e)))
  {
    hide Successor, Double;
    if e == 0 {
      DoubleFacts(0);
    } else {
      WordDoubles(e - 1);
      assert Word(2 * e) == Successor(Word(2 * (e - 1) + 1));
      DoubleFacts(Word(e - 1));
    }
  }

  lemma DoubleFacts(w: bv64)
    ensures Double(Successor(w)) == Successor(Successor(Double(w))) && Double(0) == 0
  {
    assert Double(w + 1) == w * 2 + 2;
    assert Successor(w * 2 + 1) == w * 2 + 2;
    assert Successor(w * 2) == w * 2 + 1;
  }

  /** The lowest `m` bits. */
  function Mask(m: nat): (w: bv64) {
    if m == 0 then 0 else Widen(Mask(m - 1))
  }

  function Widen(k: bv64): (w: bv64) { (k << 1) | 1 }

  predicate Apart(a: bv64, b: bv64) { a & b == 0 }

  lemma {:induction false} MaskGrows(m: nat)
    ensures Mask(m) & Mask(m + 1) == Mask(m)
  {
    if m > 0 {
      MaskGrows(m - 1);
      ShiftKeepsSubset(Mask(m - 1), Mask(m));
    }
  }

  lemma ShiftKeepsSubset(a: bv64, b: bv64)
    requires a & b == a
    ensures Widen(a) & Widen(b) == Widen(a)
  {
  }

  lemma Mask63()
    ensures Mask(63) == 0x7fff_ffff_ffff_ffff
  {
    assert Mask(9) == 0x1ff;
    assert Mask(18) == 0x3_ffff;
    assert Mask(27) == 0x7ff_ffff;
    assert Mask(36) == 0xf_ffff_ffff;
    assert Mask(45) == 0x1fff_ffff_ffff;
    assert Mask(54) == 0x3f_ffff_ffff_ffff;
  }

  lemma {:induction false} MaskIsShort(m: nat)
    requires m < 64
    ensures Mask(m) & 0x7fff_ffff_ffff_ffff == Mask(m)
    decreases 64 - m
  {
    if m == 63 {
      Mask63();
    } else {
      MaskGrows(m);
      MaskIsShort(m + 1);
      SubsetTransitive(Mask(m), Mask(m + 1), 0x7fff_ffff_ffff_ffff);
    }
  }

  lemma SubsetTransitive(a: bv64, b: bv64, c: bv64)
    requires a & b == a && b & c == b
    ensures a & c == a
  {
  }

  lemma LowBitOdd(w: bv64, k: bv64)
    ensures !Apart(Successor(Double(w)), Widen(k))
  {
  }

  lemma LowBitEven(w: bv64, k: bv64)
    requires k & 0x7fff_ffff_ffff_ffff == k && Apart(Double(w), Widen(k))
    ensures Apart(w, k)
  {
  }

  /** `d` is a multiple of `2^m`. */
  predicate DivisibleByPow2(d: nat, m: nat) {
    m == 0 || (d % 2 == 0 && DivisibleByPow2(d / 2, m - 1))
  }

  lemma {:induction false} DivisibleIsLarge(d: nat, m: nat)
    requires DivisibleByPow2(d, m) && d > 0
    ensures d >= Pow2(m)
  {
    if m > 0 {
      DivisibleIsLarge(d / 2, m - 1);
    }
  }

  /** A word whose lowest `m` bits are zero counts a multiple of `2^m`. */
  lemma {:induction false} ZeroBitsDivide(d: nat, m: nat)
    requires m <= 64 && Apart(Word(d), Mask(m))
    ensures DivisibleByPow2(d, m)
  {
    if m > 0 {
      EvenHalf(Word(d / 2), d / 2, d, m);
      ZeroBitsDivide(d / 2, m - 1);
    }
  }

  lemma EvenHalf(w: bv64, e: nat, d: nat, m: nat)
    requires 0 < m <= 64 && e == d / 2 && w == Word(e) && Apart(Word(d), Mask(m))
    ensures d % 2 == 0 && Apart(w, Mask(m - 1))
  {
    WordDoubles(e);
    LowBitOdd(w, Mask(m - 1));
    MaskIsShort(m - 1);
    assert d == 2 * e || d == 2 * e + 1;
    assert Mask(m) == Widen(Mask(m - 1));
    hide *;
    assert d == 2 * e;
    LowBitEven(w, Mask(m - 1));
  }

  lemma {:induction false} WordDifference(i: nat, j: nat)
    requires i <= j && Word(i) == Word(j)
    ensures Word(j - i) == 0
  {
    if i > 0 {
      SuccessorInjective(Word(i - 1), Word(j - 1));
      WordDifference(i - 1, j - 1);
    }
  }

  lemma SuccessorInjective(a: bv64, b: bv64)
    ensures Successor(a) == Successor(b) ==> a == b
  {
  }

  function Minus(s: bv64, c: bv64): (a: bv64) { c - s }

  lemma PlusFacts(s: bv64, a: bv64)
    ensures Plus(s, a) == s + a && Minus(s, s + a) == a
  {
  }

  lemma PlusInjective(s: bv64, a: bv64, b: bv64)
    ensures Plus(s, a) == Plus(s, b) ==> a == b
  {
    hide *;
    PlusFacts(s, a);
    PlusFacts(s, b);
  }

  /** Words count apart for 2^64 numbers. */
  lemma WordInjective(i: nat, j: nat)
    requires i < j < i + 0x1_0000_0000_0000_0000
    ensures Word(i) != Word(j)
  {
    if Word(i) == Word(j) {
      WordDifference(i, j);
      assert Apart(Word(j - i), Mask(64));
      ZeroBitsDivide(j - i, 64);
      DivisibleIsLarge(j - i, 64);
      Pow2Values();
    }
  }

  /**
   "Always different": any 2^64 consecutive calls, from any start value of the counter, return pairwise
   different hints.
   */
  lemma HintsAreDistinct(start: bv64, i: nat, j: nat)
    requires i < j < i + 0x1_0000_0000_0000_0000
    ensures Hint(start, i) != Hint(start, j)
  {
    WordInjective(i, j);
    CounterClosedForm(start, i);
    CounterClosedForm(start, j);
    var a, b := Word(i), Word(j);
    MultipleFacts(start, a);
    MultipleFacts(start, b);
    PlusInjective(start, Multiple(a), Multiple(b));
    if Hint(start, i) == Hint(start, j) {
      Splitmix64Injective(Counter(start, i), Counter(start, j));
    }
    hide *;
  }

  /** The single bit `m`, which falls off at 64. */
  function Bit(m: nat): (w: bv64) {
    if m == 0 then 1 else Double(Bit(m - 1))
  }

  lemma Bit64()
    ensures Bit(64) == 0
  {
    assert Bit(9) == 0x200;
    assert Bit(18) == 0x4_0000;
    assert Bit(27) == 0x800_0000;
    assert Bit(36) == 0x10_0000_0000;
    assert Bit(45) == 0x2000_0000_0000;
    assert Bit(54) == 0x40_0000_0000_0000;
    assert Bit(63) == 0x8000_0000_0000_0000;
  }

  lemma {:induction false} WordOfPower(m: nat)
    ensures Word(Pow2(m)) == Bit(m)
  {
    if m == 0 {
      assert Word(1) == Successor(Word(0));
    } else {
      WordOfPower(m - 1);
      WordDoubles(Pow2(m - 1));
    }
  }

  lemma {:induction false} WordWraps(k: nat)
    ensures Word(k + Pow2(64)) == Word(k)
  {
    if k == 0 {
      WordOfPower(64);
      Bit64();
    } else {
      WordWraps(k - 1);
    }
  }

  /** The bound is exact: after 2^64 calls the hints repeat. */
  lemma HintsRepeat(start: bv64, k: nat)
    ensures Hint(start, k + 0x1_0000_0000_0000_0000) == Hint(start, k)
  {
    Pow2Values();
    WordWraps(k);
    CounterClosedForm(start, k);
    CounterClosedForm(start, k + 0x1_0000_0000_0000_0000);
  }

  /** The global counter; each call is one atomic addition, so calls are numbered by their order. */
  class GlobalHint {
    var counter: bv64

    constructor (start: bv64)
      ensures counter == start
    {
      counter := start;
    }

    /** `ov_rand_get_global_hint` as call number `k` since the counter was `start`. */
    method Get(ghost start: bv64, ghost k: nat) returns (h: bv64)
      requires counter == Counter(start, k)
      modifies this
      ensures counter == Counter(start, k + 1) && h == Hint(start, k)
    {
      var x := counter;
      counter := counter + 0x9e3779b97f4a7c15;
      h := Splitmix64(x);
    }
  }

  // splitmix32.

  function Mix32Start(x: bv32): (y: bv32) { (x + 1) ^ (x >> 17) }
  function Fold11(x: bv32): (y: bv32) { x ^ (x >> 11) }
  function Fold15(x: bv32): (y: bv32) { x ^ (x >> 15) }
  function Fold14(x: bv32): (y: bv32) { x ^ (x >> 14) }
  function Scale1(x: bv32): (y: bv32) { x * 0xed5ad4bb }
  function Scale2(x: bv32): (y: bv32) { x * 0xac4c1b51 }
  function Scale3(x: bv32): (y: bv32) { x * 0x31848bab }
  function Unscale1(y: bv32): (x: bv32) { y * 0x79a85073 }
  function Unscale2(y: bv32): (x: bv32) { y * 0x469e0db1 }
  function Unscale3(y: bv32): (x: bv32) { y * 0x32b21703 }

  function Splitmix32(x: bv32): (r: bv32) {
    Fold14(Scale3(Fold14(Scale2(Fold15(Scale1(Fold11(Mix32Start(x))))))))
  }

  function Splitmix32Next(x: bv32): (r: bv32) {
    x + 0x9e3779b9
  }

  lemma StartIsNotZero(x: bv32)
    ensures Mix32Start(x) != 0
  {
  }

  lemma FoldsKeepNonZero(x: bv32)
    requires x != 0
    ensures Fold11(x) != 0 && Fold15(x) != 0 && Fold14(x) != 0
  {
  }

  lemma ScaleFacts(x: bv32)
    ensures Scale1(x) == x * 0xed5ad4bb && Unscale1(x * 0xed5ad4bb) == x && Unscale1(0) == 0
    ensures Scale2(x) == x * 0xac4c1b51 && Unscale2(x * 0xac4c1b51) == x && Unscale2(0) == 0
    ensures Scale3(x) == x * 0x31848bab && Unscale3(x * 0x31848bab) == x && Unscale3(0) == 0
  {
  }

  lemma ScalesKeepNonZero(x: bv32)
    requires x != 0
    ensures Scale1(x) != 0 && Scale2(x) != 0 && Scale3(x) != 0
  {
    hide *;
    ScaleFacts(x);
  }

  /** splitmix32 never returns zero (so, unlike splitmix64, it is not a bijection). */
  lemma Splitmix32IsNotZero(x: bv32)
    ensures Splitmix32(x) != 0
  {
    hide Mix32Start, Fold11, Fold15, Fold14, Scale1, Scale2, Scale3;
    StartIsNotZero(x);
    var a := Mix32Start(x);
    FoldsKeepNonZero(a);
    ScalesKeepNonZero(Fold11(a));
    var b := Scale1(Fold11(a));
    FoldsKeepNonZero(b);
    ScalesKeepNonZero(Fold15(b));
    var c := Scale2(Fold15(b));
    FoldsKeepNonZero(c);
    ScalesKeepNonZero(Fold14(c));
    FoldsKeepNonZero(Scale3(Fold14(c)));
  }
}
