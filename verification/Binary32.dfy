/** 32-bit machine words as numbers, like the 64-bit ones. */
module Binary32 {
  import Binary

  const WORD: int := 0x1_0000_0000

  function Odd(w: bv32): (b: bool) { w & 1 == 1 }
  function Half(w: bv32): (v: bv32) { w >> 1 }
  function Successor(w: bv32): (r: bv32) { w + 1 }
  function Double(w: bv32): (r: bv32) { w * 2 }
  function Plus(a: bv32, b: bv32): (r: bv32) { a + b }

  /** `n` as a machine word. */
  function Word(n: nat): (w: bv32) {
    if n == 0 then 0 else Successor(Word(n - 1))
  }

  lemma HalfIsLess(w: bv32)
    ensures w != 0 ==> Half(w) < w
  {
  }

  /** The number whose binary digits are the bits of `w`. */
  function Number(w: bv32): (n: nat)
    decreases w
  {
    HalfIsLess(w);
    if w == 0 then 0 else 2 * Number(Half(w)) + if Odd(w) then 1 else 0
  }

  lemma LowestBit(w: bv32)
    ensures w == if Odd(w) then Successor(Double(Half(w))) else Double(Half(w))
  {
  }

  lemma NumberOfZero()
    ensures Number(0) == 0 && Half(0) == 0 && !Odd(0)
  {
  }

  /** One binary digit. */
  lemma Halves(w: bv32)
    ensures Number(Half(w)) == Number(w) / 2 && Number(w) % 2 == if Odd(w) then 1 else 0
  {
    NumberOfZero();
    hide Half, Odd;
  }

  predicate IsZero(w: bv32) { w == 0 }

  lemma Digits(w: bv32)
    ensures IsZero(w) ==> Number(w) == 0 && Word(0) == w
    ensures !IsZero(w) ==> Half(w) < w
    ensures Number(w) == 2 * Number(Half(w)) + if Odd(w) then 1 else 0
  {
    HalfIsLess(w);
    Halves(w);
    hide Half, Odd;
  }

  lemma DoubleFacts(w: bv32)
    ensures Double(Successor(w)) == Successor(Successor(Double(w))) && Double(0) == 0
  {
  }

  lemma {:induction false} WordDoubles(e: nat)
    ensures Word(2 * e) == Double(Word(e)) && Word(2 * e + 1) == Successor(Double(Word(e)))
  {
    hide Successor, Double;
    if e == 0 {
      DoubleFacts(0);
    } else {
      WordDoubles(e - 1);
      DoubleFacts(Word(e - 1));
      assert Word(2 * e - 1) == Successor(Word(2 * e - 2));
    }
  }

  lemma {:induction false} WordOfNumber(w: bv32)
    ensures Word(Number(w)) == w
    decreases w
  {
    Digits(w);
    LowestBit(w);
    hide *;
    if !IsZero(w) {
      WordOfNumber(Half(w));
      WordDoubles(Number(Half(w)));
    }
  }

  // Shifts to the right.

  lemma HalfIs(w: bv32)
    ensures Half(w) == w >> 1
  {
  }

  lemma Right1(w: bv32)
    ensures Number(w >> 1) == Number(w) / 2
  {
    HalfIs(w);
    Halves(w);
    hide *;
  }

  lemma Shift2(w: bv32)
    ensures Number(w >> 2) == Number((w >> 1) >> 1)
  {
    hide *;
  }

  lemma Right2(w: bv32)
    ensures Number(w >> 2) == Number(w) / 0x4
  {
    hide *;
    Shift2(w);
    Right1(w);
    Right1(w >> 1);
  }

  lemma Shift4(w: bv32)
    ensures Number(w >> 4) == Number((w >> 2) >> 2)
  {
    hide *;
  }

  lemma Right4(w: bv32)
    ensures Number(w >> 4) == Number(w) / 0x10
  {
    hide *;
    Shift4(w);
    Right2(w);
    Right2(w >> 2);
  }

  lemma Shift8(w: bv32)
    ensures Number(w >> 8) == Number((w >> 4) >> 4)
  {
    hide *;
  }

  lemma Right8(w: bv32)
    ensures Number(w >> 8) == Number(w) / 0x100
  {
    hide *;
    Shift8(w);
    Right4(w);
    Right4(w >> 4);
  }

  lemma Shift16(w: bv32)
    ensures Number(w >> 16) == Number((w >> 8) >> 8)
  {
    hide *;
  }

  lemma Right16(w: bv32)
    ensures Number(w >> 16) == Number(w) / 0x1_0000
  {
    hide *;
    Shift16(w);
    Right8(w);
    Right8(w >> 8);
  }

  lemma NothingAbove(w: bv32)
    ensures (w >> 16) >> 16 == 0
  {
  }

  lemma NumberBelowWord(w: bv32)
    ensures Number(w) < WORD
  {
    NothingAbove(w);
    NumberOfZero();
    assert WORD == 0x1_0000_0000;
    hide *;
    Right16(w);
    Right16(w >> 16);
  }

  // Arithmetic modulo the word size.

  lemma SuccessorIsOdd(w: bv32)
    ensures Odd(Successor(w)) <==> !Odd(w)
  {
  }

  lemma SuccessorOfEven(w: bv32)
    ensures !Odd(w) ==> Half(Successor(w)) == Half(w)
  {
  }

  lemma SuccessorOfOdd(w: bv32)
    ensures Odd(w) && w != 0xffff_ffff ==> Half(Successor(w)) == Successor(Half(w))
  {
  }

  lemma HalfIsSmall(w: bv32)
    ensures Half(w) != 0xffff_ffff && (Odd(w) ==> Half(w) < w)
  {
  }

  lemma {:induction false} NumberOfSuccessor(w: bv32)
    requires w != 0xffff_ffff
    ensures Number(Successor(w)) == Number(w) + 1
    decreases w
  {
    hide *;
    SuccessorIsOdd(w);
    SuccessorOfEven(w);
    SuccessorOfOdd(w);
    HalfIsSmall(w);
    Digits(w);
    Digits(Successor(w));
    if Odd(w) {
      NumberOfSuccessor(Half(w));
    }
  }

  // The largest word has 32 ones.

  function One(v: bv32): (u: bv32) { (v << 1) | 1 }
  function Eight(v: bv32): (u: bv32) { One(One(One(One(One(One(One(One(v)))))))) }

  lemma OneDigit(v: bv32)
    requires v < 0x8000_0000
    ensures Number(One(v)) == 2 * Number(v) + 1
  {
    assert Half(One(v)) == v && Odd(One(v));
    hide *;
    Digits(One(v));
  }

  lemma OneBounds(v: bv32)
    ensures v < 0x100_0000 ==> One(v) < 0x200_0000
    ensures v < 0x200_0000 ==> One(v) < 0x400_0000
    ensures v < 0x400_0000 ==> One(v) < 0x800_0000
    ensures v < 0x800_0000 ==> One(v) < 0x1000_0000
    ensures v < 0x1000_0000 ==> One(v) < 0x2000_0000
    ensures v < 0x2000_0000 ==> One(v) < 0x4000_0000
    ensures v < 0x4000_0000 ==> One(v) < 0x8000_0000
  {
  }

  lemma TwoOnes(v: bv32)
    requires v < 0x4000_0000
    ensures Number(One(One(v))) == 4 * Number(v) + 3
  {
    OneBounds(v);
    hide *;
    OneDigit(v);
    OneDigit(One(v));
  }

  lemma TwoBounds(v: bv32)
    ensures v < 0x100_0000 ==> One(One(v)) < 0x400_0000
    ensures v < 0x400_0000 ==> One(One(v)) < 0x1000_0000
    ensures v < 0x1000_0000 ==> One(One(v)) < 0x4000_0000
    ensures v < 0x100_0000 ==> v < 0x4000_0000
  {
  }

  lemma FourOnes(v: bv32)
    requires v < 0x1000_0000
    ensures Number(One(One(One(One(v))))) == 16 * Number(v) + 15
  {
    TwoBounds(v);
    assert v < 0x4000_0000;
    hide *;
    TwoOnes(v);
    TwoOnes(One(One(v)));
  }

  lemma FourBounds(v: bv32)
    ensures v < 0x100_0000 ==> One(One(One(One(v)))) < 0x1000_0000 && v < 0x1000_0000
  {
  }

  lemma EightOnes(v: bv32)
    requires v < 0x100_0000
    ensures Number(Eight(v)) == 256 * Number(v) + 255
  {
    FourBounds(v);
    assert Eight(v) == One(One(One(One(One(One(One(One(v))))))));
    hide *;
    FourOnes(v);
    FourOnes(One(One(One(One(v)))));
  }

  lemma LargestIs()
    ensures Eight(0) == 0xff && Eight(0xff) == 0xffff && Eight(0xffff) == 0xff_ffff && Eight(0xff_ffff) == 0xffff_ffff
  {
  }

  lemma NumberOfLargest()
    ensures Number(0xffff_ffff) == 0xffff_ffff
  {
    hide *;
    LargestIs();
    NumberOfZero();
    EightOnes(0);
    EightOnes(0xff);
    EightOnes(0xffff);
    EightOnes(0xff_ffff);
  }

  lemma Wraps()
    ensures Successor(0xffff_ffff) == 0 && Word(0) == 0
  {
  }

  lemma NextModulo(n: nat)
    ensures n % WORD == WORD - 1 ==> (n + 1) % WORD == 0
    ensures n % WORD != WORD - 1 ==> (n + 1) % WORD == n % WORD + 1
  {
  }

  lemma {:induction false} NumberOfWord(n: nat)
    ensures Number(Word(n)) == n % WORD
  {
    assert WORD == 0x1_0000_0000;
    Wraps();
    NumberOfZero();
    hide *;
    WordStarts(n);
    if n > 0 {
      var w := Word(n - 1);
      NumberOfWord(n - 1);
      NextModulo(n - 1);
      NumberBelowWord(Successor(w));
      if w == 0xffff_ffff {
        NumberOfLargest();
      } else {
        NumberOfSuccessor(w);
      }
    }
  }

  lemma PlusIs(a: bv32, b: bv32)
    ensures Plus(a, b) == a + b
  {
  }

  lemma SuccessorIs(a: bv32)
    ensures Successor(a) == a + 1
  {
  }

  lemma SumBits(a: bv32, b: bv32)
    ensures Plus(a + 1, b) == Successor(Plus(a, b))
  {
  }

  lemma SumWithZero(b: bv32)
    ensures Plus(0, b) == b
  {
  }

  lemma SumOfSuccessor(a: bv32, b: bv32)
    ensures Plus(Successor(a), b) == Successor(Plus(a, b))
  {
    hide *;
    SuccessorIs(a);
    SumBits(a, b);
  }

  lemma WordStarts(n: nat)
    ensures Word(0) == 0 && (n > 0 ==> Word(n) == Successor(Word(n - 1)))
  {
  }

  lemma {:induction false} WordAdds(i: nat, j: nat)
    ensures Plus(Word(i), Word(j)) == Word(i + j)
  {
    hide *;
    WordStarts(i);
    WordStarts(i + j);
    if i == 0 {
      SumWithZero(Word(j));
    } else {
      WordAdds(i - 1, j);
      SumOfSuccessor(Word(i - 1), Word(j));
    }
  }

  lemma Adds(a: bv32, b: bv32)
    ensures Number(Plus(a, b)) == (Number(a) + Number(b)) % WORD
  {
    hide *;
    WordOfNumber(a);
    WordOfNumber(b);
    WordAdds(Number(a), Number(b));
    NumberOfWord(Number(a) + Number(b));
  }

  // Exclusive or.

  function Xor(a: bv32, b: bv32): (c: bv32) { a ^ b }

  lemma XorFacts(a: bv32, b: bv32)
    ensures Half(Xor(a, b)) == Xor(Half(a), Half(b))
    ensures Odd(Xor(a, b)) <==> Odd(a) != Odd(b)
    ensures IsZero(a) && IsZero(b) ==> Xor(a, b) == 0
  {
  }

  lemma {:induction false} Differs(a: bv32, b: bv32)
    ensures Number(Xor(a, b)) == Binary.Differing(Number(a), Number(b))
    decreases Number(a) + Number(b)
  {
    XorFacts(a, b);
    Halves(a);
    Halves(b);
    Digits(Xor(a, b));
    Binary.DifferingDigits(Number(a), Number(b));
    hide *;
    if Number(a) + Number(b) > 0 {
      Differs(Half(a), Half(b));
    } else {
      NoDigits(a);
      NoDigits(b);
      NumberOfZero();
    }
  }

  lemma NoDigits(w: bv32)
    requires Number(w) == 0
    ensures IsZero(w)
  {
    WordOfNumber(w);
    WordStarts(0);
    hide Number, Word;
  }

  // Functions that multiply by a constant: they grow by it with every step.

  ghost predicate ScalesAt(f: bv32 -> bv32, c: bv32, w: bv32) {
    f(Successor(w)) == Plus(f(w), c)
  }

  ghost predicate Scales(f: bv32 -> bv32, c: bv32) {
    f(0) == 0 && forall w :: ScalesAt(f, c, w)
  }

  lemma ScalesStep(f: bv32 -> bv32, c: bv32, w: bv32)
    requires Scales(f, c)
    ensures f(0) == 0 && f(Successor(w)) == Plus(f(w), c)
  {
    assert ScalesAt(f, c, w);
  }

  lemma {:induction false} ScaledWord(f: bv32 -> bv32, c: bv32, n: nat, m: nat)
    requires Scales(f, c) && Number(c) == n
    ensures f(Word(m)) == Word(m * n)
  {
    hide *;
    WordStarts(m);
    if m == 0 {
      ScalesStep(f, c, 0);
    } else {
      ScaledWord(f, c, n, m - 1);
      ScalesStep(f, c, Word(m - 1));
      WordOfNumber(c);
      WordAdds((m - 1) * n, n);
      Binary.OneLess(m, n);
    }
  }

  lemma ScaledNumber(f: bv32 -> bv32, c: bv32, n: nat, x: bv32)
    requires Scales(f, c) && Number(c) == n
    ensures Number(f(x)) == Number(x) * n % WORD
  {
    hide *;
    WordOfNumber(x);
    ScaledWord(f, c, n, Number(x));
    NumberOfWord(Number(x) * n);
  }
}
