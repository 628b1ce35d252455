/** The splitmix hashes and the rotations of xoshiro as functions of numbers. */
module Mixing {
  import opened Words
  import opened Rand
  import opened Binary

  // Shifts by the distances that the generators use.

  // Every distance is the sum of two shorter ones.

  lemma Shift3(w: bv64)
    ensures Number(w >> 3) == Number((w >> 2) >> 1)
  {
    hide *;
  }

  lemma Right3(w: bv64)
    ensures Number(w >> 3) == Number(w) / 0x8
  {
    hide *;
    Shift3(w);
    Right2(w);
    Right1(w >> 2);
  }

  lemma Shift6(w: bv64)
    ensures Number(w >> 6) == Number((w >> 4) >> 2)
  {
    hide *;
  }

  lemma Right6(w: bv64)
    ensures Number(w >> 6) == Number(w) / 0x40
  {
    hide *;
    Shift6(w);
    Right4(w);
    Right2(w >> 4);
  }

  lemma Shift9(w: bv64)
    ensures Number(w >> 9) == Number((w >> 8) >> 1)
  {
    hide *;
  }

  lemma Right9(w: bv64)
    ensures Number(w >> 9) == Number(w) / 0x200
  {
    hide *;
    Shift9(w);
    Right8(w);
    Right1(w >> 8);
  }

  lemma Shift24(w: bv64)
    ensures Number(w >> 24) == Number((w >> 16) >> 8)
  {
    hide *;
  }

  lemma Right24(w: bv64)
    ensures Number(w >> 24) == Number(w) / 0x100_0000
  {
    hide *;
    Shift24(w);
    Right16(w);
    Right8(w >> 16);
  }

  lemma Shift19(w: bv64)
    ensures Number(w >> 19) == Number((w >> 16) >> 3)
  {
    hide *;
  }

  lemma Right19(w: bv64)
    ensures Number(w >> 19) == Number(w) / 0x8_0000
  {
    hide *;
    Shift19(w);
    Right16(w);
    Right3(w >> 16);
  }

  lemma Shift27(w: bv64)
    ensures Number(w >> 27) == Number((w >> 24) >> 3)
  {
    hide *;
  }

  lemma Right27(w: bv64)
    ensures Number(w >> 27) == Number(w) / 0x800_0000
  {
    hide *;
    Shift27(w);
    Right24(w);
    Right3(w >> 24);
  }

  lemma Shift30(w: bv64)
    ensures Number(w >> 30) == Number((w >> 24) >> 6)
  {
    hide *;
  }

  lemma Right30(w: bv64)
    ensures Number(w >> 30) == Number(w) / 0x4000_0000
  {
    hide *;
    Shift30(w);
    Right24(w);
    Right6(w >> 24);
  }

  lemma Shift31(w: bv64)
    ensures Number(w >> 31) == Number((w >> 30) >> 1)
  {
    hide *;
  }

  lemma Right31(w: bv64)
    ensures Number(w >> 31) == Number(w) / 0x8000_0000
  {
    hide *;
    Shift31(w);
    Right30(w);
    Right1(w >> 30);
  }

  lemma Shift41(w: bv64)
    ensures Number(w >> 41) == Number((w >> 32) >> 9)
  {
    hide *;
  }

  lemma Right41(w: bv64)
    ensures Number(w >> 41) == Number(w) / 0x200_0000_0000
  {
    hide *;
    Shift41(w);
    Right32(w);
    Right9(w >> 32);
  }

  // splitmix64.

  lemma Fold30Bits(x: bv64)
    ensures Number(Fold30(x)) == Number(Xor(x, x >> 30))
  {
    hide Number;
  }

  lemma Fold30Xor(x: bv64)
    ensures Number(Fold30(x)) == Differing(Number(x), Number(x >> 30))
  {
    hide *;
    Fold30Bits(x);
    Differs(x, x >> 30);
  }

  lemma Fold30Number(x: bv64)
    ensures Number(Fold30(x)) == Differing(Number(x), Number(x) / 0x4000_0000)
  {
    hide *;
    Fold30Xor(x);
    Right30(x);
  }

  lemma Fold27Bits(x: bv64)
    ensures Number(Fold27(x)) == Number(Xor(x, x >> 27))
  {
    hide Number;
  }

  lemma Fold27Xor(x: bv64)
    ensures Number(Fold27(x)) == Differing(Number(x), Number(x >> 27))
  {
    hide *;
    Fold27Bits(x);
    Differs(x, x >> 27);
  }

  lemma Fold27Number(x: bv64)
    ensures Number(Fold27(x)) == Differing(Number(x), Number(x) / 0x800_0000)
  {
    hide *;
    Fold27Xor(x);
    Right27(x);
  }

  lemma Fold31Bits(x: bv64)
    ensures Number(Fold31(x)) == Number(Xor(x, x >> 31))
  {
    hide Number;
  }

  lemma Fold31Xor(x: bv64)
    ensures Number(Fold31(x)) == Differing(Number(x), Number(x >> 31))
  {
    hide *;
    Fold31Bits(x);
    Differs(x, x >> 31);
  }

  lemma Fold31Number(x: bv64)
    ensures Number(Fold31(x)) == Differing(Number(x), Number(x) / 0x8000_0000)
  {
    hide *;
    Fold31Xor(x);
    Right31(x);
  }

  lemma ScaleABits(w: bv64)
    ensures ScaleA(w + 1) == Plus(ScaleA(w), 0xbf58476d1ce4e5b9)
  {
  }

  lemma ScaleAOfZero()
    ensures ScaleA(0) == 0
  {
  }

  lemma ScaleAScales()
    ensures Scales(ScaleA, 0xbf58476d1ce4e5b9)
  {
    ScaleAOfZero();
    forall w
      ensures ScalesAt(ScaleA, 0xbf58476d1ce4e5b9, w)
    {
      hide ScaleA, Plus, Successor;
      SuccessorIs(w);
      ScaleABits(w);
    }
  }

  lemma ScaleANumber(x: bv64)
    ensures Number(ScaleA(x)) == Number(x) * 0xbf58476d1ce4e5b9 % WORD
  {
    hide *;
    ScaleAScales();
    NumberOfMixA();
    ScaledNumber(ScaleA, 0xbf58476d1ce4e5b9, 0xbf58476d1ce4e5b9, x);
  }

  lemma ScaleBBits(w: bv64)
    ensures ScaleB(w + 1) == Plus(ScaleB(w), 0x94d049bb133111eb)
  {
  }

  lemma ScaleBOfZero()
    ensures ScaleB(0) == 0
  {
  }

  lemma ScaleBScales()
    ensures Scales(ScaleB, 0x94d049bb133111eb)
  {
    ScaleBOfZero();
    forall w
      ensures ScalesAt(ScaleB, 0x94d049bb133111eb, w)
    {
      hide ScaleB, Plus, Successor;
      SuccessorIs(w);
      ScaleBBits(w);
    }
  }

  lemma ScaleBNumber(x: bv64)
    ensures Number(ScaleB(x)) == Number(x) * 0x94d049bb133111eb % WORD
  {
    hide *;
    ScaleBScales();
    NumberOfMixB();
    ScaledNumber(ScaleB, 0x94d049bb133111eb, 0x94d049bb133111eb, x);
  }

  /** splitmix64 on numbers below 2^64. */
  function Mix64(x: nat): (r: nat) {
    var y := Differing(x, x / 0x4000_0000) * 0xbf58476d1ce4e5b9 % 0x1_0000_0000_0000_0000;
    var z := Differing(y, y / 0x800_0000) * 0x94d049bb133111eb % 0x1_0000_0000_0000_0000;
    Differing(z, z / 0x8000_0000)
  }

  lemma Splitmix64Number(x: bv64)
    ensures Number(Splitmix64(x)) == Mix64(Number(x))
  {
    assert WORD == 0x1_0000_0000_0000_0000;
    assert Splitmix64(x) == Fold31(ScaleB(Fold27(ScaleA(Fold30(x)))));
    hide Number, Differing, Fold30, Fold27, Fold31, ScaleA, ScaleB, Splitmix64, WORD;
    Fold30Number(x);
    ScaleANumber(Fold30(x));
    Fold27Number(ScaleA(Fold30(x)));
    ScaleBNumber(Fold27(ScaleA(Fold30(x))));
    Fold31Number(ScaleB(Fold27(ScaleA(Fold30(x)))));
  }

  // The global hint.

  lemma MultipleBits(w: bv64)
    ensures Multiple(w + 1) == Plus(Multiple(w), 0x9e3779b97f4a7c15)
  {
  }

  lemma MultipleOfZero()
    ensures Multiple(0) == 0
  {
  }

  lemma MultipleScales()
    ensures Scales(Multiple, 0x9e3779b97f4a7c15)
  {
    MultipleOfZero();
    forall w
      ensures ScalesAt(Multiple, 0x9e3779b97f4a7c15, w)
    {
      hide Multiple, Plus, Successor;
      SuccessorIs(w);
      MultipleBits(w);
    }
  }

  lemma ModuloInSum(a: nat, b: nat)
    ensures (a + b % WORD) % WORD == (a + b) % WORD
  {
    assert b == b / WORD * WORD + b % WORD;
  }

  lemma CounterNumber(start: bv64, k: nat)
    ensures Number(Counter(start, k)) == (Number(start) + k * 0x9e3779b97f4a7c15) % WORD
  {
    hide *;
    CounterClosedForm(start, k);
    MultipleScales();
    NumberOfStep();
    ScaledWord(Multiple, 0x9e3779b97f4a7c15, 0x9e3779b97f4a7c15, k);
    NumberOfWord(k * 0x9e3779b97f4a7c15);
    Adds(start, Multiple(Word(k)));
    ModuloInSum(Number(start), k * 0x9e3779b97f4a7c15);
  }

  /** The hint number `k` is the hash of the start value plus `k` steps. */
  lemma HintNumber(start: bv64, k: nat)
    ensures Number(Hint(start, k)) == Mix64((Number(start) + k * 0x9e3779b97f4a7c15) % 0x1_0000_0000_0000_0000)
  {
    assert WORD == 0x1_0000_0000_0000_0000;
    assert Hint(start, k) == Splitmix64(Counter(start, k));
    hide *;
    CounterNumber(start, k);
    Splitmix64Number(Counter(start, k));
  }

  /** The first hashes of the sequences that start at 0 and at 1234567. */
  lemma Known64()
    ensures Splitmix64(0) == 0 && Splitmix64(0x9e3779b97f4a7c15) == 0xe220a8397b1dcdaf
    ensures Splitmix64(0x3c6ef372fe94f82a) == 0x6e789e6aa1b965f4
    ensures Splitmix64(1234567 + 0x9e3779b97f4a7c15) == 6457827717110365317
  {
  }

  // Shifts to the left.

  function Left17(x: bv64): (y: bv64) { x << 17 }

  lemma Left17Bits(w: bv64)
    ensures Left17(w + 1) == Plus(Left17(w), 0x2_0000)
  {
  }

  lemma Left17OfZero()
    ensures Left17(0) == 0
  {
  }

  lemma Left17Scales()
    ensures Scales(Left17, 0x2_0000)
  {
    Left17OfZero();
    forall w
      ensures ScalesAt(Left17, 0x2_0000, w)
    {
      hide Left17, Plus, Successor;
      SuccessorIs(w);
      Left17Bits(w);
    }
  }

  lemma Left17Number(x: bv64)
    ensures Number(Left17(x)) == Number(x) * 0x2_0000 % WORD
  {
    hide *;
    Left17Scales();
    Number2To17();
    ScaledNumber(Left17, 0x2_0000, 0x2_0000, x);
  }

  function Left23(x: bv64): (y: bv64) { x << 23 }

  lemma Left23Bits(w: bv64)
    ensures Left23(w + 1) == Plus(Left23(w), 0x80_0000)
  {
  }

  lemma Left23OfZero()
    ensures Left23(0) == 0
  {
  }

  lemma Left23Scales()
    ensures Scales(Left23, 0x80_0000)
  {
    Left23OfZero();
    forall w
      ensures ScalesAt(Left23, 0x80_0000, w)
    {
      hide Left23, Plus, Successor;
      SuccessorIs(w);
      Left23Bits(w);
    }
  }

  lemma Left23Number(x: bv64)
    ensures Number(Left23(x)) == Number(x) * 0x80_0000 % WORD
  {
    hide *;
    Left23Scales();
    Number2To23();
    ScaledNumber(Left23, 0x80_0000, 0x80_0000, x);
  }

  function Left45(x: bv64): (y: bv64) { x << 45 }

  lemma Left45Bits(w: bv64)
    ensures Left45(w + 1) == Plus(Left45(w), 0x2000_0000_0000)
  {
  }

  lemma Left45OfZero()
    ensures Left45(0) == 0
  {
  }

  lemma Left45Scales()
    ensures Scales(Left45, 0x2000_0000_0000)
  {
    Left45OfZero();
    forall w
      ensures ScalesAt(Left45, 0x2000_0000_0000, w)
    {
      hide Left45, Plus, Successor;
      SuccessorIs(w);
      Left45Bits(w);
    }
  }

  lemma Left45Number(x: bv64)
    ensures Number(Left45(x)) == Number(x) * 0x2000_0000_0000 % WORD
  {
    hide *;
    Left45Scales();
    Number2To45();
    ScaledNumber(Left45, 0x2000_0000_0000, 0x2000_0000_0000, x);
  }
}
