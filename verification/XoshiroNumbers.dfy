/** What the xoshiro generators return, and how their states move, as functions of numbers. */
module XoshiroNumbers {
  import opened Xoshiro
  import Rand
  import Binary
  import Binary32
  import Mixing
  import Mixing32
  import Words

  const MODULUS64: int := 0x1_0000_0000_0000_0000
  const MODULUS32: int := 0x1_0000_0000

  lemma MultipleVanishes(h: nat, m: nat, l: nat)
    requires l < m
    ensures (h * m + l) % m == l
  {
    var q, r := (h * m + l) / m, (h * m + l) % m;
    assert q * m + r == h * m + l;
    if q < h {
      ProductGrows(q + 1, h, m);
    } else if h < q {
      ProductGrows(h + 1, q, m);
    }
  }

  lemma ProductGrows(a: nat, b: nat, m: nat)
    requires a <= b
    ensures a * m <= b * m
  {
  }

  // 256 bits of state.

  /** `x` rotated to the left by 23 of 64 binary digits. */
  function Rotated23(x: nat): (r: nat) {
    x * 0x80_0000 % MODULUS64 + x / 0x200_0000_0000
  }

  lemma Rotates23(x: nat)
    requires x < MODULUS64
    ensures Rotated23(x) < MODULUS64
  {
    var h, l := x / 0x200_0000_0000, x % 0x200_0000_0000;
    assert x * 0x80_0000 == h * MODULUS64 + l * 0x80_0000;
    MultipleVanishes(h, MODULUS64, l * 0x80_0000);
  }

  lemma Turn23Bits(y: bv64)
    ensures Binary.Number(Turn23(y)) == Binary.Number(Rand.Plus(Mixing.Left23(y), y >> 41))
  {
    hide Binary.Number;
  }

  lemma Turn23Number(y: bv64)
    ensures Binary.Number(Turn23(y)) == Rotated23(Binary.Number(y))
  {
    assert MODULUS64 == Words.WORD;
    assert Rotated23(Binary.Number(y)) == Binary.Number(y) * 0x80_0000 % MODULUS64 + Binary.Number(y) / 0x200_0000_0000;
    hide *;
    Turn23Bits(y);
    Binary.Adds(Mixing.Left23(y), y >> 41);
    Mixing.Left23Number(y);
    Mixing.Right41(y);
    Binary.NumberBelowWord(y);
    Rotates23(Binary.Number(y));
    Binary.SmallModulo(Rotated23(Binary.Number(y)));
  }

  /** `x` rotated to the left by 45 of 64 binary digits. */
  function Rotated45(x: nat): (r: nat) {
    x * 0x2000_0000_0000 % MODULUS64 + x / 0x8_0000
  }

  lemma Rotates45(x: nat)
    requires x < MODULUS64
    ensures Rotated45(x) < MODULUS64
  {
    var h, l := x / 0x8_0000, x % 0x8_0000;
    assert x * 0x2000_0000_0000 == h * MODULUS64 + l * 0x2000_0000_0000;
    MultipleVanishes(h, MODULUS64, l * 0x2000_0000_0000);
  }

  lemma Turn45Bits(y: bv64)
    ensures Binary.Number(Turn45(y)) == Binary.Number(Rand.Plus(Mixing.Left45(y), y >> 19))
  {
    hide Binary.Number;
  }

  lemma Turn45Number(y: bv64)
    ensures Binary.Number(Turn45(y)) == Rotated45(Binary.Number(y))
  {
    assert MODULUS64 == Words.WORD;
    assert Rotated45(Binary.Number(y)) == Binary.Number(y) * 0x2000_0000_0000 % MODULUS64 + Binary.Number(y) / 0x8_0000;
    hide *;
    Turn45Bits(y);
    Binary.Adds(Mixing.Left45(y), y >> 19);
    Mixing.Left45Number(y);
    Mixing.Right19(y);
    Binary.NumberBelowWord(y);
    Rotates45(Binary.Number(y));
    Binary.SmallModulo(Rotated45(Binary.Number(y)));
  }

  lemma Scramble64Bits(a: bv64, d: bv64)
    ensures Binary.Number(Scramble64(a, d)) == Binary.Number(Turn23(a + d) + a)
  {
    hide Binary.Number, Turn23;
  }

  lemma Sum64(a: bv64, d: bv64)
    ensures Binary.Number(a + d) == (Binary.Number(a) + Binary.Number(d)) % MODULUS64
  {
    assert MODULUS64 == Words.WORD;
    Binary.PlusIs(a, d);
    hide *;
    Binary.Adds(a, d);
  }

  lemma Scramble64Sum(a: bv64, d: bv64)
    ensures Binary.Number(Scramble64(a, d)) == (Binary.Number(Turn23(a + d)) + Binary.Number(a)) % MODULUS64
  {
    hide *;
    Scramble64Bits(a, d);
    Sum64(Turn23(a + d), a);
  }

  lemma Scramble64Rotates(a: bv64, d: bv64)
    ensures Binary.Number(Turn23(a + d)) == Rotated23((Binary.Number(a) + Binary.Number(d)) % MODULUS64)
  {
    hide *;
    Turn23Number(a + d);
    Sum64(a, d);
  }

  lemma RotatedSum23(x: nat, a: nat)
    ensures (Rotated23(x) + a) % MODULUS64 == (x * 0x80_0000 + x / 0x200_0000_0000 + a) % MODULUS64
  {
    var p := x * 0x80_0000;
    assert p == p / MODULUS64 * MODULUS64 + p % MODULUS64;
  }

  lemma Scramble64Number(a: bv64, d: bv64)
    ensures Binary.Number(Scramble64(a, d)) == (Rotated23((Binary.Number(a) + Binary.Number(d)) % MODULUS64) + Binary.Number(a)) % MODULUS64
  {
    hide *;
    Scramble64Sum(a, d);
    Scramble64Rotates(a, d);
  }

  /** What a step returns. */
  lemma Output64Number(s: Quad<bv64>)
    ensures var a, d := Binary.Number(s.a), Binary.Number(s.d);
            var x := (a + d) % MODULUS64;
            Binary.Number(Output64(s)) == (x * 0x80_0000 + x / 0x200_0000_0000 + a) % MODULUS64
  {
    assert Output64(s) == Scramble64(s.a, s.d);
    hide *;
    Scramble64Number(s.a, s.d);
    RotatedSum23((Binary.Number(s.a) + Binary.Number(s.d)) % MODULUS64, Binary.Number(s.a));
  }

  lemma Xor64Number(x: bv64, y: bv64)
    ensures Binary.Number(Xor64(x, y)) == Binary.Differing(Binary.Number(x), Binary.Number(y))
  {
    Xor64Is(x, y);
    hide *;
    Binary.Differs(x, y);
  }

  lemma Xor64Is(x: bv64, y: bv64)
    ensures Xor64(x, y) == Binary.Xor(x, y)
  {
  }

  lemma Up17Is(x: bv64)
    ensures Up17(x) == Mixing.Left17(x)
  {
  }

  /** How a step moves the state. */
  lemma Advance64Number(s: Quad<bv64>)
    ensures var a, b, c, d := Binary.Number(s.a), Binary.Number(s.b), Binary.Number(s.c), Binary.Number(s.d);
            var t := Advance64(s);
            && Binary.Number(t.a) == Binary.Differing(a, Binary.Differing(d, b))
            && Binary.Number(t.b) == Binary.Differing(b, Binary.Differing(c, a))
            && Binary.Number(t.c) == Binary.Differing(Binary.Differing(c, a), b * 0x2_0000 % MODULUS64)
            && Binary.Number(t.d) == Rotated45(Binary.Differing(d, b))
  {
    assert MODULUS64 == Words.WORD;
    var c, d := Xor64(s.c, s.a), Xor64(s.d, s.b);
    assert Advance64(s) == Quad(Xor64(s.a, d), Xor64(s.b, c), Xor64(c, Up17(s.b)), Turn45(d));
    hide *;
    Xor64Number(s.c, s.a);
    Xor64Number(s.d, s.b);
    Xor64Number(s.a, d);
    Xor64Number(s.b, c);
    Xor64Number(c, Up17(s.b));
    Up17Is(s.b);
    Mixing.Left17Number(s.b);
    Turn45Number(d);
  }

  /** Word `k` of the state after init. */
  function SeedWord64(seed: nat, k: nat): (w: nat) {
    Mixing.Mix64((seed + k * 0x9e3779b97f4a7c15) % 0x1_0000_0000_0000_0000)
  }

  lemma Seed64Number(seed: bv64, k: nat)
    ensures Binary.Number(Rand.Hint(seed, k)) == SeedWord64(Binary.Number(seed), k)
  {
    hide Rand.Hint, Mixing.Mix64, Binary.Number;
    Mixing.HintNumber(seed, k);
  }

  /** What a step returns, from the first and the last word. */
  function Returned64(a: nat, d: nat): (r: nat) {
    var x := (a + d) % 0x1_0000_0000_0000_0000;
    (x * 0x80_0000 + x / 0x200_0000_0000 + a) % 0x1_0000_0000_0000_0000
  }

  /** `r` is what the step from the state `s` returns. */
  predicate IsReturned64(s: Quad<bv64>, r: bv64) {
    Binary.Number(r) == Returned64(Binary.Number(s.a), Binary.Number(s.d))
  }

  lemma Returns64(s: Quad<bv64>)
    ensures IsReturned64(s, Output64(s))
  {
    hide Binary.Number, Output64;
    Output64Number(s);
  }

  /** The first numbers from the state 1, 2, 3, 4. */
  lemma Known64()
    ensures var s := Quad(1 as bv64, 2, 3, 4);
            && Output64(s) == 41943041
            && Output64(Advance64(s)) == 58720359
            && Output64(Advance64(Advance64(s))) == 3588806011781223
  {
  }

  // 128 bits of state.

  /** `x` rotated to the left by 7 of 32 binary digits. */
  function Rotated7(x: nat): (r: nat) {
    x * 0x80 % MODULUS32 + x / 0x200_0000
  }

  lemma Rotates7(x: nat)
    requires x < MODULUS32
    ensures Rotated7(x) < MODULUS32
  {
    var h, l := x / 0x200_0000, x % 0x200_0000;
    assert x * 0x80 == h * MODULUS32 + l * 0x80;
    MultipleVanishes(h, MODULUS32, l * 0x80);
  }

  lemma Turn7Bits(y: bv32)
    ensures Binary32.Number(Turn7(y)) == Binary32.Number(Binary32.Plus(Mixing32.Left7(y), y >> 25))
  {
    hide Binary32.Number;
  }

  lemma Turn7Number(y: bv32)
    ensures Binary32.Number(Turn7(y)) == Rotated7(Binary32.Number(y))
  {
    assert MODULUS32 == Binary32.WORD;
    assert Rotated7(Binary32.Number(y)) == Binary32.Number(y) * 0x80 % MODULUS32 + Binary32.Number(y) / 0x200_0000;
    hide *;
    Turn7Bits(y);
    Binary32.Adds(Mixing32.Left7(y), y >> 25);
    Mixing32.Left7Number(y);
    Mixing32.Right25(y);
    Binary32.NumberBelowWord(y);
    Rotates7(Binary32.Number(y));
    Mixing32.SmallModulo(Rotated7(Binary32.Number(y)));
  }

  /** `x` rotated to the left by 11 of 32 binary digits. */
  function Rotated11(x: nat): (r: nat) {
    x * 0x800 % MODULUS32 + x / 0x20_0000
  }

  lemma Rotates11(x: nat)
    requires x < MODULUS32
    ensures Rotated11(x) < MODULUS32
  {
    var h, l := x / 0x20_0000, x % 0x20_0000;
    assert x * 0x800 == h * MODULUS32 + l * 0x800;
    MultipleVanishes(h, MODULUS32, l * 0x800);
  }

  lemma Turn11Bits(y: bv32)
    ensures Binary32.Number(Turn11(y)) == Binary32.Number(Binary32.Plus(Mixing32.Left11(y), y >> 21))
  {
    hide Binary32.Number;
  }

  lemma Turn11Number(y: bv32)
    ensures Binary32.Number(Turn11(y)) == Rotated11(Binary32.Number(y))
  {
    assert MODULUS32 == Binary32.WORD;
    assert Rotated11(Binary32.Number(y)) == Binary32.Number(y) * 0x800 % MODULUS32 + Binary32.Number(y) / 0x20_0000;
    hide *;
    Turn11Bits(y);
    Binary32.Adds(Mixing32.Left11(y), y >> 21);
    Mixing32.Left11Number(y);
    Mixing32.Right21(y);
    Binary32.NumberBelowWord(y);
    Rotates11(Binary32.Number(y));
    Mixing32.SmallModulo(Rotated11(Binary32.Number(y)));
  }

  lemma Scramble32Bits(a: bv32, d: bv32)
    ensures Binary32.Number(Scramble32(a, d)) == Binary32.Number(Turn7(a + d) + a)
  {
    hide Binary32.Number, Turn7;
  }

  lemma Sum32(a: bv32, d: bv32)
    ensures Binary32.Number(a + d) == (Binary32.Number(a) + Binary32.Number(d)) % MODULUS32
  {
    assert MODULUS32 == Binary32.WORD;
    Binary32.PlusIs(a, d);
    hide *;
    Binary32.Adds(a, d);
  }

  lemma Scramble32Sum(a: bv32, d: bv32)
    ensures Binary32.Number(Scramble32(a, d)) == (Binary32.Number(Turn7(a + d)) + Binary32.Number(a)) % MODULUS32
  {
    hide *;
    Scramble32Bits(a, d);
    Sum32(Turn7(a + d), a);
  }

  lemma Scramble32Rotates(a: bv32, d: bv32)
    ensures Binary32.Number(Turn7(a + d)) == Rotated7((Binary32.Number(a) + Binary32.Number(d)) % MODULUS32)
  {
    hide *;
    Turn7Number(a + d);
    Sum32(a, d);
  }

  lemma RotatedSum7(x: nat, a: nat)
    ensures (Rotated7(x) + a) % MODULUS32 == (x * 0x80 + x / 0x200_0000 + a) % MODULUS32
  {
    var p := x * 0x80;
    assert p == p / MODULUS32 * MODULUS32 + p % MODULUS32;
  }

  lemma Scramble32Number(a: bv32, d: bv32)
    ensures Binary32.Number(Scramble32(a, d)) == (Rotated7((Binary32.Number(a) + Binary32.Number(d)) % MODULUS32) + Binary32.Number(a)) % MODULUS32
  {
    hide *;
    Scramble32Sum(a, d);
    Scramble32Rotates(a, d);
  }

  /** What a step returns. */
  lemma Output32Number(s: Quad<bv32>)
    ensures var a, d := Binary32.Number(s.a), Binary32.Number(s.d);
            var x := (a + d) % MODULUS32;
            Binary32.Number(Output32(s)) == (x * 0x80 + x / 0x200_0000 + a) % MODULUS32
  {
    assert Output32(s) == Scramble32(s.a, s.d);
    hide *;
    Scramble32Number(s.a, s.d);
    RotatedSum7((Binary32.Number(s.a) + Binary32.Number(s.d)) % MODULUS32, Binary32.Number(s.a));
  }

  lemma Xor32Number(x: bv32, y: bv32)
    ensures Binary32.Number(Xor32(x, y)) == Binary.Differing(Binary32.Number(x), Binary32.Number(y))
  {
    Xor32Is(x, y);
    hide *;
    Binary32.Differs(x, y);
  }

  lemma Xor32Is(x: bv32, y: bv32)
    ensures Xor32(x, y) == Binary32.Xor(x, y)
  {
  }

  lemma Up9Is(x: bv32)
    ensures Up9(x) == Mixing32.Left9(x)
  {
  }

  /** How a step moves the state. */
  lemma Advance32Number(s: Quad<bv32>)
    ensures var a, b, c, d := Binary32.Number(s.a), Binary32.Number(s.b), Binary32.Number(s.c), Binary32.Number(s.d);
            var t := Advance32(s);
            && Binary32.Number(t.a) == Binary.Differing(a, Binary.Differing(d, b))
            && Binary32.Number(t.b) == Binary.Differing(b, Binary.Differing(c, a))
            && Binary32.Number(t.c) == Binary.Differing(Binary.Differing(c, a), b * 0x200 % MODULUS32)
            && Binary32.Number(t.d) == Rotated11(Binary.Differing(d, b))
  {
    assert MODULUS32 == Binary32.WORD;
    var c, d := Xor32(s.c, s.a), Xor32(s.d, s.b);
    assert Advance32(s) == Quad(Xor32(s.a, d), Xor32(s.b, c), Xor32(c, Up9(s.b)), Turn11(d));
    hide *;
    Xor32Number(s.c, s.a);
    Xor32Number(s.d, s.b);
    Xor32Number(s.a, d);
    Xor32Number(s.b, c);
    Xor32Number(c, Up9(s.b));
    Up9Is(s.b);
    Mixing32.Left9Number(s.b);
    Turn11Number(d);
  }

  lemma StepModulo(n: nat, k: nat)
    requires k > 0
    ensures ((n + (k - 1) * 0x9e3779b9) % MODULUS32 + 0x9e3779b9) % MODULUS32 == (n + k * 0x9e3779b9) % MODULUS32
  {
    ModuloInSum(n + (k - 1) * 0x9e3779b9, 0x9e3779b9);
  }

  lemma ModuloInSum(m: nat, c: nat)
    ensures (m % MODULUS32 + c) % MODULUS32 == (m + c) % MODULUS32
  {
    assert m == m / MODULUS32 * MODULUS32 + m % MODULUS32;
  }

  lemma {:induction false} Counter32Number(seed: bv32, k: nat)
    ensures Binary32.Number(Counter32(seed, k)) == (Binary32.Number(seed) + k * 0x9e3779b9) % MODULUS32
  {
    hide Binary32.Number, Rand.Splitmix32Next;
    if k == 0 {
      Binary32.NumberBelowWord(seed);
    } else {
      Counter32Number(seed, k - 1);
      Mixing32.Splitmix32NextNumber(Counter32(seed, k - 1));
      StepModulo(Binary32.Number(seed), k);
    }
  }

  /** Word `k` of the state after init. */
  function SeedWord32(seed: nat, k: nat): (w: nat) {
    Mixing32.Mix32((seed + k * 0x9e3779b9) % 0x1_0000_0000)
  }

  lemma Seed32Number(seed: bv32, k: nat)
    ensures Binary32.Number(Rand.Splitmix32(Counter32(seed, k))) == SeedWord32(Binary32.Number(seed), k)
  {
    assert MODULUS32 == 0x1_0000_0000;
    hide Rand.Splitmix32, Mixing32.Mix32, Binary32.Number, Counter32;
    Counter32Number(seed, k);
    Mixing32.Splitmix32Number(Counter32(seed, k));
  }

  /** What a step returns, from the first and the last word. */
  function Returned32(a: nat, d: nat): (r: nat) {
    var x := (a + d) % 0x1_0000_0000;
    (x * 0x80 + x / 0x200_0000 + a) % 0x1_0000_0000
  }

  /** `r` is what the step from the state `s` returns. */
  predicate IsReturned32(s: Quad<bv32>, r: bv32) {
    Binary32.Number(r) == Returned32(Binary32.Number(s.a), Binary32.Number(s.d))
  }

  lemma Returns32(s: Quad<bv32>)
    ensures IsReturned32(s, Output32(s))
  {
    hide Binary32.Number, Output32;
    Output32Number(s);
  }

  lemma Known32()
    ensures var s := Quad(1 as bv32, 2, 3, 4);
            && Output32(s) == 641
            && Output32(Advance32(s)) == 1573767
            && Output32(Advance32(Advance32(s))) == 3222811527
  {
  }
}
