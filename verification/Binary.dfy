/**
 Machine words as numbers.  The operators of the generators are addition and multiplication modulo the word
 size, multiplication and division by powers of two, and the exclusive or of binary digits.
 */
module Binary {
  import opened Words
  import opened Powers
  import opened Rand

  function Odd(w: bv64): (b: bool) { w & 1 == 1 }
  function Half(w: bv64): (v: bv64) { w >> 1 }

  lemma HalfIsLess(w: bv64)
    ensures w != 0 ==> Half(w) < w
  {
  }

  /** The number whose binary digits are the bits of `w`. */
  function Number(w: bv64): (n: nat)
    decreases w
  {
    HalfIsLess(w);
    if w == 0 then 0 else 2 * Number(Half(w)) + if Odd(w) then 1 else 0
  }

  /** The number whose binary digits are those in which `a` and `b` differ. */
  function Differing(a: nat, b: nat): (c: nat)
    decreases a + b
  {
    if a == 0 && b == 0 then 0 else 2 * Differing(a / 2, b / 2) + if a % 2 == b % 2 then 0 else 1
  }

  lemma LowestBit(w: bv64)
    ensures w == if Odd(w) then Successor(Double(Half(w))) else Double(Half(w))
  {
  }

  lemma NumberOfZero()
    ensures Number(0) == 0 && Half(0) == 0 && !Odd(0)
  {
  }

  /** One binary digit. */
  lemma Halves(w: bv64)
    ensures Number(Half(w)) == Number(w) / 2 && Number(w) % 2 == if Odd(w) then 1 else 0
  {
    NumberOfZero();
    hide Half, Odd;
  }

  predicate IsZero(w: bv64) { w == 0 }

  lemma Digits(w: bv64)
    ensures IsZero(w) ==> Number(w) == 0 && Word(0) == w
    ensures !IsZero(w) ==> Half(w) < w
    ensures Number(w) == 2 * Number(Half(w)) + if Odd(w) then 1 else 0
  {
    HalfIsLess(w);
    Halves(w);
    hide Half, Odd;
  }

  lemma {:induction false} WordOfNumber(w: bv64)
    ensures Word(Number(w)) == w
    decreases w
  {
    Digits(w);
    LowestBit(w);
    hide *;
    if !IsZero(w) {
      WordOfNumber(Half(w));
      WordDoubles(Number(Half(w)));
    }
  }

  // Shifts to the right.

  lemma HalfTwice(w: bv64)
    ensures Half(w) == w >> 1 && Half(w >> 1) == w >> 2
    ensures (w >> 2) >> 2 == w >> 4 && (w >> 4) >> 4 == w >> 8
    ensures (w >> 8) >> 8 == w >> 16 && (w >> 16) >> 16 == w >> 32
  {
  }

  lemma Right1(w: bv64)
    ensures Number(w >> 1) == Number(w) / 2
  {
    HalfTwice(w);
    Halves(w);
    hide *;
  }

  lemma Right2(w: bv64)
    ensures Number(w >> 2) == Number(w) / 4
  {
    HalfTwice(w);
    Right1(w);
    Halves(w >> 1);
    hide *;
  }

  lemma Right4(w: bv64)
    ensures Number(w >> 4) == Number(w) / 16
  {
    HalfTwice(w);
    hide *;
    Right2(w);
    Right2(w >> 2);
  }

  lemma Right8(w: bv64)
    ensures Number(w >> 8) == Number(w) / 0x100
  {
    HalfTwice(w);
    hide *;
    Right4(w);
    Right4(w >> 4);
  }

  lemma Right16(w: bv64)
    ensures Number(w >> 16) == Number(w) / 0x1_0000
  {
    HalfTwice(w);
    hide *;
    Right8(w);
    Right8(w >> 8);
  }

  lemma Right32(w: bv64)
    ensures Number(w >> 32) == Number(w) / 0x1_0000_0000
  {
    HalfTwice(w);
    hide *;
    Right16(w);
    Right16(w >> 16);
  }

  lemma NothingAbove(w: bv64)
    ensures (w >> 32) >> 32 == 0
  {
  }

  lemma NumberBelowWord(w: bv64)
    ensures Number(w) < WORD
  {
    NothingAbove(w);
    NumberOfZero();
    assert WORD == 0x1_0000_0000_0000_0000;
    hide *;
    Right32(w);
    Right32(w >> 32);
  }

  // Arithmetic modulo the word size.

  lemma OneWordLess(n: nat)
    requires n >= WORD
    ensures n % WORD == (n - WORD) % WORD
  {
  }

  lemma OneWordMore(k: nat)
    ensures Word(k + WORD) == Word(k)
  {
    Pow2Values();
    assert WORD == 0x1_0000_0000_0000_0000;
    hide *;
    WordWraps(k);
  }

  lemma {:induction false} WordModulo(n: nat)
    ensures Word(n % WORD) == Word(n)
  {
    if n >= WORD {
      hide Word;
      OneWordLess(n);
      OneWordMore(n - WORD);
      WordModulo(n - WORD);
    }
  }

  lemma NumberOfWord(n: nat)
    ensures Number(Word(n)) == n % WORD
  {
    var m, r := Number(Word(n)), n % WORD;
    WordOfNumber(Word(n));
    WordModulo(n);
    NumberBelowWord(Word(n));
    assert WORD == 0x1_0000_0000_0000_0000;
    hide *;
    if m < r {
      WordInjective(m, r);
    } else if r < m {
      WordInjective(r, m);
    }
  }

  function Product(a: bv64, b: bv64): (c: bv64) { a * b }

  lemma PlusIs(a: bv64, b: bv64)
    ensures Plus(a, b) == a + b
  {
  }

  lemma SuccessorIs(a: bv64)
    ensures Successor(a) == a + 1
  {
  }

  lemma SumBits(a: bv64, b: bv64)
    ensures Plus(a + 1, b) == Successor(Plus(a, b))
  {
  }

  lemma SumWithZero(b: bv64)
    ensures Plus(0, b) == b
  {
  }

  lemma ProductFacts(a: bv64, b: bv64)
    ensures Product(0, b) == 0 && Product(a, b) == a * b && Successor(a) == a + 1
    ensures Product(a + 1, b) == Plus(a * b, b)
  {
  }

  lemma SumOfSuccessor(a: bv64, b: bv64)
    ensures Plus(Successor(a), b) == Successor(Plus(a, b))
  {
    hide *;
    SuccessorIs(a);
    SumBits(a, b);
  }

  lemma ProductOfSuccessor(a: bv64, b: bv64)
    ensures Product(Successor(a), b) == Plus(Product(a, b), b)
  {
    hide *;
    ProductFacts(a, b);
  }

  lemma WordStarts(n: nat)
    ensures Word(0) == 0 && (n > 0 ==> Word(n) == Successor(Word(n - 1)))
  {
  }

  lemma {:induction false} WordAdds(i: nat, j: nat)
    ensures Plus(Word(i), Word(j)) == Word(i + j)
  {
    hide *;
    WordStarts(i);
    WordStarts(i + j);
    if i == 0 {
      SumWithZero(Word(j));
    } else {
      WordAdds(i - 1, j);
      SumOfSuccessor(Word(i - 1), Word(j));
    }
  }

  lemma Adds(a: bv64, b: bv64)
    ensures Number(Plus(a, b)) == (Number(a) + Number(b)) % WORD
  {
    hide *;
    WordOfNumber(a);
    WordOfNumber(b);
    WordAdds(Number(a), Number(b));
    NumberOfWord(Number(a) + Number(b));
  }

  lemma OneLess(m: nat, n: nat)
    requires m > 0
    ensures (m - 1) * n + n == m * n
  {
  }

  lemma {:induction false} WordTimes(m: nat, n: nat)
    ensures Product(Word(m), Word(n)) == Word(m * n)
  {
    hide *;
    WordStarts(m);
    if m == 0 {
      ProductFacts(0, Word(n));
    } else {
      WordTimes(m - 1, n);
      ProductOfSuccessor(Word(m - 1), Word(n));
      WordAdds((m - 1) * n, n);
      OneLess(m, n);
    }
  }

  lemma Times(a: bv64, b: bv64)
    ensures Number(Product(a, b)) == Number(a) * Number(b) % WORD
  {
    hide *;
    WordOfNumber(a);
    WordOfNumber(b);
    WordTimes(Number(a), Number(b));
    NumberOfWord(Number(a) * Number(b));
  }

  // Exclusive or.

  function Xor(a: bv64, b: bv64): (c: bv64) { a ^ b }

  lemma XorFacts(a: bv64, b: bv64)
    ensures Half(Xor(a, b)) == Xor(Half(a), Half(b))
    ensures Odd(Xor(a, b)) <==> Odd(a) != Odd(b)
    ensures IsZero(a) && IsZero(b) ==> Xor(a, b) == 0
  {
  }

  lemma DifferingDigits(m: nat, n: nat)
    ensures Differing(m, n) == 2 * Differing(m / 2, n / 2) + if m % 2 == n % 2 then 0 else 1
  {
  }

  lemma {:induction false} Differs(a: bv64, b: bv64)
    ensures Number(Xor(a, b)) == Differing(Number(a), Number(b))
    decreases Number(a) + Number(b)
  {
    XorFacts(a, b);
    Halves(a);
    Halves(b);
    Digits(Xor(a, b));
    DifferingDigits(Number(a), Number(b));
    hide *;
    if Number(a) + Number(b) > 0 {
      Differs(Half(a), Half(b));
    } else {
      NoDigits(a);
      NoDigits(b);
      NumberOfZero();
    }
  }

  lemma NoDigits(w: bv64)
    requires Number(w) == 0
    ensures IsZero(w)
  {
    WordOfNumber(w);
    WordStarts(0);
    hide Number, Word;
  }

  // Numbers of constants, byte by byte.

  function Value8(b: bv8): (n: int) { b as int }
  function Wide(b: bv8): (w: bv64) { b as bv64 }
  function Down(b: bv8): (c: bv8) { b >> 1 }
  function IsOdd8(b: bv8): (o: bool) { b & 1 == 1 }

  lemma WideDigits(b: bv8)
    ensures Half(Wide(b)) == Wide(Down(b)) && (Odd(Wide(b)) <==> IsOdd8(b))
    ensures IsZero(Wide(b)) <==> b == 0
    ensures b != 0 ==> Down(b) < b
  {
  }

  lemma DownValue(b: bv8)
    ensures Value8(b) == 2 * Value8(Down(b)) + if IsOdd8(b) then 1 else 0
    ensures b == 0 ==> Value8(b) == 0
  {
  }

  lemma {:induction false} ByteNumber(b: bv8)
    ensures Number(Wide(b)) == Value8(b)
    decreases b
  {
    WideDigits(b);
    DownValue(b);
    hide *;
    Digits(Wide(b));
    if b != 0 {
      ByteNumber(Down(b));
    }
  }

  lemma TimesKnown(a: bv64, b: bv64, n: nat)
    requires Number(b) == n
    ensures Number(Product(a, b)) == Number(a) * n % WORD
  {
    hide *;
    Times(a, b);
  }

  lemma SmallModulo(n: nat)
    requires n < WORD
    ensures n % WORD == n
  {
  }

  lemma Number256()
    ensures Number(0x100) == 0x100
  {
    assert Half(0x100) == Wide(0x80) && !Odd(0x100) && Value8(0x80) == 0x80;
    hide *;
    ByteNumber(0x80);
    Digits(0x100);
  }

  lemma GrowBits(w: bv64, b: bv8, v: bv64)
    requires v == w * 0x100 + (b as bv64)
    ensures v == Plus(Product(w, 0x100), Wide(b))
  {
  }

  lemma Value8Range(b: bv8)
    ensures 0 <= Value8(b) < 0x100
  {
  }

  lemma GrowNumber(w: bv64, b: bv8)
    requires Number(w) < 0x100_0000_0000_0000
    ensures Number(Plus(Product(w, 0x100), Wide(b))) == Number(w) * 0x100 + Value8(b)
  {
    assert WORD == 0x1_0000_0000_0000_0000;
    hide *;
    Value8Range(b);
    ByteNumber(b);
    Number256();
    TimesKnown(w, 0x100, 0x100);
    SmallModulo(Number(w) * 0x100);
    Adds(Product(w, 0x100), Wide(b));
    SmallModulo(Number(w) * 0x100 + Value8(b));
  }

  /** One more byte at the end of a constant. */
  lemma Grow(w: bv64, n: nat, b: bv8, v: bv64)
    requires Number(w) == n && n < 0x100_0000_0000_0000 && v == w * 0x100 + (b as bv64)
    ensures Number(v) == n * 0x100 + Value8(b)
  {
    hide *;
    GrowBits(w, b, v);
    GrowNumber(w, b);
  }

  lemma Number2To17()
    ensures Number(0x20000) == 0x20000
  {
    hide Number;
    NumberOfZero();
    Grow(0x0, 0x0, 0x2, 0x2);
    Grow(0x2, 0x2, 0x0, 0x200);
    Grow(0x200, 0x200, 0x0, 0x20000);
  }

  lemma Number2To23()
    ensures Number(0x800000) == 0x800000
  {
    hide Number;
    NumberOfZero();
    Grow(0x0, 0x0, 0x80, 0x80);
    Grow(0x80, 0x80, 0x0, 0x8000);
    Grow(0x8000, 0x8000, 0x0, 0x800000);
  }

  lemma Number2To45()
    ensures Number(0x200000000000) == 0x200000000000
  {
    hide Number;
    NumberOfZero();
    Grow(0x0, 0x0, 0x20, 0x20);
    Grow(0x20, 0x20, 0x0, 0x2000);
    Grow(0x2000, 0x2000, 0x0, 0x200000);
    Grow(0x200000, 0x200000, 0x0, 0x20000000);
    Grow(0x20000000, 0x20000000, 0x0, 0x2000000000);
    Grow(0x2000000000, 0x2000000000, 0x0, 0x200000000000);
  }

  lemma NumberOfMixA()
    ensures Number(0xbf58476d1ce4e5b9) == 0xbf58476d1ce4e5b9
  {
    hide Number;
    NumberOfZero();
    Grow(0x0, 0x0, 0xbf, 0xbf);
    Grow(0xbf, 0xbf, 0x58, 0xbf58);
    Grow(0xbf58, 0xbf58, 0x47, 0xbf5847);
    Grow(0xbf5847, 0xbf5847, 0x6d, 0xbf58476d);
    Grow(0xbf58476d, 0xbf58476d, 0x1c, 0xbf58476d1c);
    Grow(0xbf58476d1c, 0xbf58476d1c, 0xe4, 0xbf58476d1ce4);
    Grow(0xbf58476d1ce4, 0xbf58476d1ce4, 0xe5, 0xbf58476d1ce4e5);
    Grow(0xbf58476d1ce4e5, 0xbf58476d1ce4e5, 0xb9, 0xbf58476d1ce4e5b9);
  }

  lemma NumberOfMixB()
    ensures Number(0x94d049bb133111eb) == 0x94d049bb133111eb
  {
    hide Number;
    NumberOfZero();
    Grow(0x0, 0x0, 0x94, 0x94);
    Grow(0x94, 0x94, 0xd0, 0x94d0);
    Grow(0x94d0, 0x94d0, 0x49, 0x94d049);
    Grow(0x94d049, 0x94d049, 0xbb, 0x94d049bb);
    Grow(0x94d049bb, 0x94d049bb, 0x13, 0x94d049bb13);
    Grow(0x94d049bb13, 0x94d049bb13, 0x31, 0x94d049bb1331);
    Grow(0x94d049bb1331, 0x94d049bb1331, 0x11, 0x94d049bb133111);
    Grow(0x94d049bb133111, 0x94d049bb133111, 0xeb, 0x94d049bb133111eb);
  }

  lemma NumberOfStep()
    ensures Number(0x9e3779b97f4a7c15) == 0x9e3779b97f4a7c15
  {
    hide Number;
    NumberOfZero();
    Grow(0x0, 0x0, 0x9e, 0x9e);
    Grow(0x9e, 0x9e, 0x37, 0x9e37);
    Grow(0x9e37, 0x9e37, 0x79, 0x9e3779);
    Grow(0x9e3779, 0x9e3779, 0xb9, 0x9e3779b9);
    Grow(0x9e3779b9, 0x9e3779b9, 0x7f, 0x9e3779b97f);
    Grow(0x9e3779b97f, 0x9e3779b97f, 0x4a, 0x9e3779b97f4a);
    Grow(0x9e3779b97f4a, 0x9e3779b97f4a, 0x7c, 0x9e3779b97f4a7c);
    Grow(0x9e3779b97f4a7c, 0x9e3779b97f4a7c, 0x15, 0x9e3779b97f4a7c15);
  }

  // Functions that multiply by a constant: they grow by it with every step.

  ghost predicate ScalesAt(f: bv64 -> bv64, c: bv64, w: bv64) {
    f(Successor(w)) == Plus(f(w), c)
  }

  ghost predicate Scales(f: bv64 -> bv64, c: bv64) {
    f(0) == 0 && forall w :: ScalesAt(f, c, w)
  }

  lemma ScalesStep(f: bv64 -> bv64, c: bv64, w: bv64)
    requires Scales(f, c)
    ensures f(0) == 0 && f(Successor(w)) == Plus(f(w), c)
  {
    assert ScalesAt(f, c, w);
  }

  lemma {:induction false} ScaledWord(f: bv64 -> bv64, c: bv64, n: nat, m: nat)
    requires Scales(f, c) && Number(c) == n
    ensures f(Word(m)) == Word(m * n)
  {
    hide *;
    WordStarts(m);
    if m == 0 {
      ScalesStep(f, c, 0);
    } else {
      ScaledWord(f, c, n, m - 1);
      ScalesStep(f, c, Word(m - 1));
      WordOfNumber(c);
      WordAdds((m - 1) * n, n);
      OneLess(m, n);
    }
  }

  lemma ScaledNumber(f: bv64 -> bv64, c: bv64, n: nat, x: bv64)
    requires Scales(f, c) && Number(c) == n
    ensures Number(f(x)) == Number(x) * n % WORD
  {
    hide *;
    WordOfNumber(x);
    ScaledWord(f, c, n, Number(x));
    NumberOfWord(Number(x) * n);
  }

  /** An example of the exclusive or. */
  lemma DifferingOfTwo()
    ensures Differing(12, 10) == 6 && Differing(255, 255) == 0
  {
    assert Differing(1, 1) == 0;
    assert Differing(3, 2) == 1;
    assert Differing(6, 5) == 3;
    assert Differing(3, 3) == 0;
    assert Differing(7, 7) == 0;
    assert Differing(15, 15) == 0;
    assert Differing(31, 31) == 0;
    assert Differing(63, 63) == 0;
    assert Differing(127, 127) == 0;
  }
}
