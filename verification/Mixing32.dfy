/** splitmix32 and the rotations of xoshiro128++ as functions of numbers. */
module Mixing32 {
  import opened Binary32
  import Binary
  import Rand

  // Shifts to the right: every distance is the sum of two shorter ones.

  lemma Shift3(w: bv32)
    ensures Number(w >> 3) == Number((w >> 2) >> 1)
  {
    hide *;
  }

  lemma Right3(w: bv32)
    ensures Number(w >> 3) == Number(w) / 0x8
  {
    hide *;
    Shift3(w);
    Right2(w);
    Right1(w >> 2);
  }

  lemma Shift5(w: bv32)
    ensures Number(w >> 5) == Number((w >> 4) >> 1)
  {
    hide *;
  }

  lemma Right5(w: bv32)
    ensures Number(w >> 5) == Number(w) / 0x20
  {
    hide *;
    Shift5(w);
    Right4(w);
    Right1(w >> 4);
  }

  lemma Shift6(w: bv32)
    ensures Number(w >> 6) == Number((w >> 4) >> 2)
  {
    hide *;
  }

  lemma Right6(w: bv32)
    ensures Number(w >> 6) == Number(w) / 0x40
  {
    hide *;
    Shift6(w);
    Right4(w);
    Right2(w >> 4);
  }

  lemma Shift11(w: bv32)
    ensures Number(w >> 11) == Number((w >> 8) >> 3)
  {
    hide *;
  }

  lemma Right11(w: bv32)
    ensures Number(w >> 11) == Number(w) / 0x800
  {
    hide *;
    Shift11(w);
    Right8(w);
    Right3(w >> 8);
  }

  lemma Shift14(w: bv32)
    ensures Number(w >> 14) == Number((w >> 8) >> 6)
  {
    hide *;
  }

  lemma Right14(w: bv32)
    ensures Number(w >> 14) == Number(w) / 0x4000
  {
    hide *;
    Shift14(w);
    Right8(w);
    Right6(w >> 8);
  }

  lemma Shift15(w: bv32)
    ensures Number(w >> 15) == Number((w >> 14) >> 1)
  {
    hide *;
  }

  lemma Right15(w: bv32)
    ensures Number(w >> 15) == Number(w) / 0x8000
  {
    hide *;
    Shift15(w);
    Right14(w);
    Right1(w >> 14);
  }

  lemma Shift17(w: bv32)
    ensures Number(w >> 17) == Number((w >> 16) >> 1)
  {
    hide *;
  }

  lemma Right17(w: bv32)
    ensures Number(w >> 17) == Number(w) / 0x2_0000
  {
    hide *;
    Shift17(w);
    Right16(w);
    Right1(w >> 16);
  }

  lemma Shift21(w: bv32)
    ensures Number(w >> 21) == Number((w >> 16) >> 5)
  {
    hide *;
  }

  lemma Right21(w: bv32)
    ensures Number(w >> 21) == Number(w) / 0x20_0000
  {
    hide *;
    Shift21(w);
    Right16(w);
    Right5(w >> 16);
  }

  lemma Shift24(w: bv32)
    ensures Number(w >> 24) == Number((w >> 16) >> 8)
  {
    hide *;
  }

  lemma Right24(w: bv32)
    ensures Number(w >> 24) == Number(w) / 0x100_0000
  {
    hide *;
    Shift24(w);
    Right16(w);
    Right8(w >> 16);
  }

  lemma Shift25(w: bv32)
    ensures Number(w >> 25) == Number((w >> 24) >> 1)
  {
    hide *;
  }

  lemma Right25(w: bv32)
    ensures Number(w >> 25) == Number(w) / 0x200_0000
  {
    hide *;
    Shift25(w);
    Right24(w);
    Right1(w >> 24);
  }

  // Numbers of constants, byte by byte.

  function Value8(b: bv8): (n: int) { b as int }
  function Wide(b: bv8): (w: bv32) { b as bv32 }
  function Down(b: bv8): (c: bv8) { b >> 1 }
  function IsOdd8(b: bv8): (o: bool) { b & 1 == 1 }

  lemma WideDigits(b: bv8)
    ensures Half(Wide(b)) == Wide(Down(b)) && (Odd(Wide(b)) <==> IsOdd8(b))
    ensures IsZero(Wide(b)) <==> b == 0
    ensures b != 0 ==> Down(b) < b
  {
  }

  lemma DownValue(b: bv8)
    ensures Value8(b) == 2 * Value8(Down(b)) + if IsOdd8(b) then 1 else 0
    ensures b == 0 ==> Value8(b) == 0
  {
  }

  lemma {:induction false} ByteNumber(b: bv8)
    ensures Number(Wide(b)) == Value8(b)
    decreases b
  {
    WideDigits(b);
    DownValue(b);
    hide *;
    Digits(Wide(b));
    if b != 0 {
      ByteNumber(Down(b));
    }
  }

  lemma SmallModulo(n: nat)
    requires n < WORD
    ensures n % WORD == n
  {
  }

  lemma Number256()
    ensures Number(0x100) == 0x100
  {
    assert Half(0x100) == Wide(0x80) && !Odd(0x100) && Value8(0x80) == 0x80;
    hide *;
    ByteNumber(0x80);
    Digits(0x100);
  }

  function Left8(x: bv32): (y: bv32) { x << 8 }

  lemma Left8Bits(w: bv32)
    ensures Left8(w + 1) == Plus(Left8(w), 0x100)
  {
  }

  lemma Left8OfZero()
    ensures Left8(0) == 0
  {
  }

  lemma Left8Scales()
    ensures Scales(Left8, 0x100)
  {
    Left8OfZero();
    forall w
      ensures ScalesAt(Left8, 0x100, w)
    {
      hide Left8, Plus, Successor;
      SuccessorIs(w);
      Left8Bits(w);
    }
  }

  lemma Left8Number(x: bv32)
    ensures Number(Left8(x)) == Number(x) * 0x100 % WORD
  {
    hide *;
    Left8Scales();
    Number256();
    ScaledNumber(Left8, 0x100, 0x100, x);
  }

  lemma GrowBits(w: bv32, b: bv8, v: bv32)
    requires v == (w << 8) | (b as bv32)
    ensures v == Plus(Left8(w), Wide(b))
  {
  }

  lemma Value8Range(b: bv8)
    ensures 0 <= Value8(b) < 0x100
  {
  }

  lemma GrowNumber(w: bv32, b: bv8)
    requires Number(w) < 0x100_0000
    ensures Number(Plus(Left8(w), Wide(b))) == Number(w) * 0x100 + Value8(b)
  {
    assert WORD == 0x1_0000_0000;
    hide *;
    Value8Range(b);
    ByteNumber(b);
    Left8Number(w);
    SmallModulo(Number(w) * 0x100);
    Adds(Left8(w), Wide(b));
    SmallModulo(Number(w) * 0x100 + Value8(b));
  }

  /** One more byte at the end of a constant. */
  lemma Grow(w: bv32, n: nat, b: bv8, v: bv32)
    requires Number(w) == n && n < 0x100_0000 && v == (w << 8) | (b as bv32)
    ensures Number(v) == n * 0x100 + Value8(b)
  {
    hide *;
    GrowBits(w, b, v);
    GrowNumber(w, b);
  }

  lemma Number2To7()
    ensures Number(0x80) == 0x80
  {
    hide Number;
    NumberOfZero();
    Grow(0x0, 0x0, 0x80, 0x80);
  }

  lemma Number2To9()
    ensures Number(0x200) == 0x200
  {
    hide Number;
    NumberOfZero();
    Grow(0x0, 0x0, 0x2, 0x2);
    Grow(0x2, 0x2, 0x0, 0x200);
  }

  lemma Number2To11()
    ensures Number(0x800) == 0x800
  {
    hide Number;
    NumberOfZero();
    Grow(0x0, 0x0, 0x8, 0x8);
    Grow(0x8, 0x8, 0x0, 0x800);
  }

  lemma NumberOfMix1()
    ensures Number(0xed5ad4bb) == 0xed5ad4bb
  {
    hide Number;
    NumberOfZero();
    Grow(0x0, 0x0, 0xed, 0xed);
    Grow(0xed, 0xed, 0x5a, 0xed5a);
    Grow(0xed5a, 0xed5a, 0xd4, 0xed5ad4);
    Grow(0xed5ad4, 0xed5ad4, 0xbb, 0xed5ad4bb);
  }

  lemma NumberOfMix2()
    ensures Number(0xac4c1b51) == 0xac4c1b51
  {
    hide Number;
    NumberOfZero();
    Grow(0x0, 0x0, 0xac, 0xac);
    Grow(0xac, 0xac, 0x4c, 0xac4c);
    Grow(0xac4c, 0xac4c, 0x1b, 0xac4c1b);
    Grow(0xac4c1b, 0xac4c1b, 0x51, 0xac4c1b51);
  }

  lemma NumberOfMix3()
    ensures Number(0x31848bab) == 0x31848bab
  {
    hide Number;
    NumberOfZero();
    Grow(0x0, 0x0, 0x31, 0x31);
    Grow(0x31, 0x31, 0x84, 0x3184);
    Grow(0x3184, 0x3184, 0x8b, 0x31848b);
    Grow(0x31848b, 0x31848b, 0xab, 0x31848bab);
  }

  lemma NumberOfStep()
    ensures Number(0x9e3779b9) == 0x9e3779b9
  {
    hide Number;
    NumberOfZero();
    Grow(0x0, 0x0, 0x9e, 0x9e);
    Grow(0x9e, 0x9e, 0x37, 0x9e37);
    Grow(0x9e37, 0x9e37, 0x79, 0x9e3779);
    Grow(0x9e3779, 0x9e3779, 0xb9, 0x9e3779b9);
  }

  lemma NumberOfOne()
    ensures Number(0x1) == 0x1
  {
    hide Number;
    NumberOfZero();
    Grow(0x0, 0x0, 0x1, 0x1);
  }

  // Shifts to the left.

  function Left7(x: bv32): (y: bv32) { x << 7 }

  lemma Left7Bits(w: bv32)
    ensures Left7(w + 1) == Plus(Left7(w), 0x80)
  {
  }

  lemma Left7OfZero()
    ensures Left7(0) == 0
  {
  }

  lemma Left7Scales()
    ensures Scales(Left7, 0x80)
  {
    Left7OfZero();
    forall w
      ensures ScalesAt(Left7, 0x80, w)
    {
      hide Left7, Plus, Successor;
      SuccessorIs(w);
      Left7Bits(w);
    }
  }

  lemma Left7Number(x: bv32)
    ensures Number(Left7(x)) == Number(x) * 0x80 % WORD
  {
    hide *;
    Left7Scales();
    Number2To7();
    ScaledNumber(Left7, 0x80, 0x80, x);
  }

  function Left9(x: bv32): (y: bv32) { x << 9 }

  lemma Left9Bits(w: bv32)
    ensures Left9(w + 1) == Plus(Left9(w), 0x200)
  {
  }

  lemma Left9OfZero()
    ensures Left9(0) == 0
  {
  }

  lemma Left9Scales()
    ensures Scales(Left9, 0x200)
  {
    Left9OfZero();
    forall w
      ensures ScalesAt(Left9, 0x200, w)
    {
      hide Left9, Plus, Successor;
      SuccessorIs(w);
      Left9Bits(w);
    }
  }

  lemma Left9Number(x: bv32)
    ensures Number(Left9(x)) == Number(x) * 0x200 % WORD
  {
    hide *;
    Left9Scales();
    Number2To9();
    ScaledNumber(Left9, 0x200, 0x200, x);
  }

  function Left11(x: bv32): (y: bv32) { x << 11 }

  lemma Left11Bits(w: bv32)
    ensures Left11(w + 1) == Plus(Left11(w), 0x800)
  {
  }

  lemma Left11OfZero()
    ensures Left11(0) == 0
  {
  }

  lemma Left11Scales()
    ensures Scales(Left11, 0x800)
  {
    Left11OfZero();
    forall w
      ensures ScalesAt(Left11, 0x800, w)
    {
      hide Left11, Plus, Successor;
      SuccessorIs(w);
      Left11Bits(w);
    }
  }

  lemma Left11Number(x: bv32)
    ensures Number(Left11(x)) == Number(x) * 0x800 % WORD
  {
    hide *;
    Left11Scales();
    Number2To11();
    ScaledNumber(Left11, 0x800, 0x800, x);
  }

  // splitmix32.

  lemma Scale1Bits(w: bv32)
    ensures Rand.Scale1(w + 1) == Plus(Rand.Scale1(w), 0xed5ad4bb)
  {
  }

  lemma Scale1OfZero()
    ensures Rand.Scale1(0) == 0
  {
  }

  lemma Scale1Scales()
    ensures Scales(Rand.Scale1, 0xed5ad4bb)
  {
    Scale1OfZero();
    forall w
      ensures ScalesAt(Rand.Scale1, 0xed5ad4bb, w)
    {
      hide Rand.Scale1, Plus, Successor;
      SuccessorIs(w);
      Scale1Bits(w);
    }
  }

  lemma Scale1Number(x: bv32)
    ensures Number(Rand.Scale1(x)) == Number(x) * 0xed5ad4bb % WORD
  {
    hide *;
    Scale1Scales();
    NumberOfMix1();
    ScaledNumber(Rand.Scale1, 0xed5ad4bb, 0xed5ad4bb, x);
  }

  lemma Scale2Bits(w: bv32)
    ensures Rand.Scale2(w + 1) == Plus(Rand.Scale2(w), 0xac4c1b51)
  {
  }

  lemma Scale2OfZero()
    ensures Rand.Scale2(0) == 0
  {
  }

  lemma Scale2Scales()
    ensures Scales(Rand.Scale2, 0xac4c1b51)
  {
    Scale2OfZero();
    forall w
      ensures ScalesAt(Rand.Scale2, 0xac4c1b51, w)
    {
      hide Rand.Scale2, Plus, Successor;
      SuccessorIs(w);
      Scale2Bits(w);
    }
  }

  lemma Scale2Number(x: bv32)
    ensures Number(Rand.Scale2(x)) == Number(x) * 0xac4c1b51 % WORD
  {
    hide *;
    Scale2Scales();
    NumberOfMix2();
    ScaledNumber(Rand.Scale2, 0xac4c1b51, 0xac4c1b51, x);
  }

  lemma Scale3Bits(w: bv32)
    ensures Rand.Scale3(w + 1) == Plus(Rand.Scale3(w), 0x31848bab)
  {
  }

  lemma Scale3OfZero()
    ensures Rand.Scale3(0) == 0
  {
  }

  lemma Scale3Scales()
    ensures Scales(Rand.Scale3, 0x31848bab)
  {
    Scale3OfZero();
    forall w
      ensures ScalesAt(Rand.Scale3, 0x31848bab, w)
    {
      hide Rand.Scale3, Plus, Successor;
      SuccessorIs(w);
      Scale3Bits(w);
    }
  }

  lemma Scale3Number(x: bv32)
    ensures Number(Rand.Scale3(x)) == Number(x) * 0x31848bab % WORD
  {
    hide *;
    Scale3Scales();
    NumberOfMix3();
    ScaledNumber(Rand.Scale3, 0x31848bab, 0x31848bab, x);
  }

  lemma Fold11Bits(x: bv32)
    ensures Number(Rand.Fold11(x)) == Number(Xor(x, x >> 11))
  {
    hide Number;
  }

  lemma Fold11Xor(x: bv32)
    ensures Number(Rand.Fold11(x)) == Binary.Differing(Number(x), Number(x >> 11))
  {
    hide *;
    Fold11Bits(x);
    Differs(x, x >> 11);
  }

  lemma Fold11Number(x: bv32)
    ensures Number(Rand.Fold11(x)) == Binary.Differing(Number(x), Number(x) / 0x800)
  {
    hide *;
    Fold11Xor(x);
    Right11(x);
  }

  lemma Fold15Bits(x: bv32)
    ensures Number(Rand.Fold15(x)) == Number(Xor(x, x >> 15))
  {
    hide Number;
  }

  lemma Fold15Xor(x: bv32)
    ensures Number(Rand.Fold15(x)) == Binary.Differing(Number(x), Number(x >> 15))
  {
    hide *;
    Fold15Bits(x);
    Differs(x, x >> 15);
  }

  lemma Fold15Number(x: bv32)
    ensures Number(Rand.Fold15(x)) == Binary.Differing(Number(x), Number(x) / 0x8000)
  {
    hide *;
    Fold15Xor(x);
    Right15(x);
  }

  lemma Fold14Bits(x: bv32)
    ensures Number(Rand.Fold14(x)) == Number(Xor(x, x >> 14))
  {
    hide Number;
  }

  lemma Fold14Xor(x: bv32)
    ensures Number(Rand.Fold14(x)) == Binary.Differing(Number(x), Number(x >> 14))
  {
    hide *;
    Fold14Bits(x);
    Differs(x, x >> 14);
  }

  lemma Fold14Number(x: bv32)
    ensures Number(Rand.Fold14(x)) == Binary.Differing(Number(x), Number(x) / 0x4000)
  {
    hide *;
    Fold14Xor(x);
    Right14(x);
  }

  lemma StartBits(x: bv32)
    ensures Number(Rand.Mix32Start(x)) == Number(Xor(x + 1, x >> 17))
  {
    hide Number;
  }

  lemma StartXor(x: bv32)
    ensures Number(Rand.Mix32Start(x)) == Binary.Differing(Number(x + 1), Number(x >> 17))
  {
    hide *;
    StartBits(x);
    Differs(x + 1, x >> 17);
  }

  lemma SuccessorBits(x: bv32)
    ensures Number(x + 1) == Number(Plus(x, 1))
  {
    hide Number;
  }

  lemma SuccessorNumber(x: bv32)
    ensures Number(x + 1) == (Number(x) + 1) % WORD
  {
    hide *;
    SuccessorBits(x);
    NumberOfOne();
    Adds(x, 1);
  }

  lemma StartNumber(x: bv32)
    ensures Number(Rand.Mix32Start(x)) == Binary.Differing((Number(x) + 1) % WORD, Number(x) / 0x2_0000)
  {
    hide *;
    StartXor(x);
    SuccessorNumber(x);
    Right17(x);
  }

  /** splitmix32 on numbers below 2^32. */
  function Mix32(x: nat): (r: nat) {
    var s := Binary.Differing((x + 1) % 0x1_0000_0000, x / 0x2_0000);
    var t := Binary.Differing(s, s / 0x800) * 0xed5ad4bb % 0x1_0000_0000;
    var u := Binary.Differing(t, t / 0x8000) * 0xac4c1b51 % 0x1_0000_0000;
    var v := Binary.Differing(u, u / 0x4000) * 0x31848bab % 0x1_0000_0000;
    Binary.Differing(v, v / 0x4000)
  }

  lemma Splitmix32Number(x: bv32)
    ensures Number(Rand.Splitmix32(x)) == Mix32(Number(x))
  {
    assert WORD == 0x1_0000_0000;
    var s := Rand.Mix32Start(x);
    var t := Rand.Scale1(Rand.Fold11(s));
    var u := Rand.Scale2(Rand.Fold15(t));
    var v := Rand.Scale3(Rand.Fold14(u));
    assert Rand.Splitmix32(x) == Rand.Fold14(v);
    hide Number, Binary.Differing, WORD;
    hide Rand.Mix32Start, Rand.Fold11, Rand.Fold15, Rand.Fold14, Rand.Scale1, Rand.Scale2, Rand.Scale3, Rand.Splitmix32;
    StartNumber(x);
    Fold11Number(s);
    Scale1Number(Rand.Fold11(s));
    Fold15Number(t);
    Scale2Number(Rand.Fold15(t));
    Fold14Number(u);
    Scale3Number(Rand.Fold14(u));
    Fold14Number(v);
  }

  lemma NextBits(x: bv32)
    ensures Number(Rand.Splitmix32Next(x)) == Number(Plus(x, 0x9e3779b9))
  {
    hide Number;
  }

  lemma Splitmix32NextNumber(x: bv32)
    ensures Number(Rand.Splitmix32Next(x)) == (Number(x) + 0x9e3779b9) % 0x1_0000_0000
  {
    assert WORD == 0x1_0000_0000;
    hide *;
    NextBits(x);
    NumberOfStep();
    Adds(x, 0x9e3779b9);
  }
}
