/** The xoshiro256++ and xoshiro128++ generators: no run reaches the all-zero state, and no state is lost. */
module Xoshiro {
  import opened Rand

  datatype Quad<W> = Quad(a: W, b: W, c: W, d: W)

  // 256 bits of state.

  function Xor64(x: bv64, y: bv64): (r: bv64) { x ^ y }
  function Turn45(x: bv64): (r: bv64) { (x << 45) | (x >> 19) }
  function Turn19(x: bv64): (r: bv64) { (x << 19) | (x >> 45) }
  function Turn23(x: bv64): (r: bv64) { (x << 23) | (x >> 41) }
  function Up17(x: bv64): (r: bv64) { x << 17 }
  function Unspread17(x: bv64): (r: bv64) { x ^ (x << 17) ^ (x << 34) ^ (x << 51) }

  function Scramble64(a: bv64, d: bv64): (r: bv64) { Turn23(a + d) + a }

  function Output64(s: Quad<bv64>): (r: bv64) {
    Scramble64(s.a, s.d)
  }

  function Advance64(s: Quad<bv64>): (t: Quad<bv64>) {
    var c, d := Xor64(s.c, s.a), Xor64(s.d, s.b);
    Quad(Xor64(s.a, d), Xor64(s.b, c), Xor64(c, Up17(s.b)), Turn45(d))
  }

  /** The state before `t`. */
  function Rewind64(t: Quad<bv64>): (s: Quad<bv64>) {
    var d := Turn19(t.d);
    var a := Xor64(t.a, d);
    var b := Unspread17(Xor64(t.b, t.c));
    var c := Xor64(t.b, b);
    Quad(a, b, Xor64(c, a), Xor64(d, b))
  }

  lemma TurnFacts(x: bv64)
    ensures Turn45(x) == (x << 45) | (x >> 19) && Turn19((x << 45) | (x >> 19)) == x
  {
  }

  lemma TurnInverse(x: bv64)
    ensures Turn19(Turn45(x)) == x
  {
    hide *;
    TurnFacts(x);
  }

  lemma XorFacts(x: bv64, y: bv64)
    ensures Xor64(x, y) == x ^ y && Xor64(x ^ y, y) == x && Xor64(x ^ y, x) == y
  {
  }

  lemma XorInverse(x: bv64, y: bv64)
    ensures Xor64(Xor64(x, y), y) == x && Xor64(Xor64(x, y), x) == y
  {
    hide *;
    XorFacts(x, y);
  }

  lemma XorMiddle(b: bv64, c: bv64, u: bv64)
    ensures Xor64(Xor64(b, c), Xor64(c, u)) == Xor64(b, u)
  {
  }

  lemma UnspreadFacts(b: bv64)
    ensures Xor64(b, Up17(b)) == b ^ (b << 17) && Unspread17(b ^ (b << 17)) == b
  {
  }

  lemma SpreadInverse(b: bv64, c: bv64)
    ensures Unspread17(Xor64(Xor64(b, c), Xor64(c, Up17(b)))) == b
  {
    hide *;
    XorMiddle(b, c, Up17(b));
    UnspreadFacts(b);
  }

  /** A step of xoshiro256++ can be undone, so distinct states stay distinct. */
  lemma RewindAdvance64(s: Quad<bv64>)
    ensures Rewind64(Advance64(s)) == s
  {
    hide Xor64, Turn45, Turn19, Up17, Unspread17;
    var c, d := Xor64(s.c, s.a), Xor64(s.d, s.b);
    TurnInverse(d);
    SpreadInverse(s.b, c);
    XorInverse(s.b, c);
    XorInverse(s.a, d);
    XorInverse(s.c, s.a);
    XorInverse(s.d, s.b);
  }

  const ZERO64: Quad<bv64> := Quad(0, 0, 0, 0)

  lemma RewindZero64()
    ensures Advance64(ZERO64) == ZERO64 && Rewind64(ZERO64) == ZERO64
  {
  }

  /** Only the all-zero state steps to the all-zero state. */
  lemma ZeroOnlyFromZero64(s: Quad<bv64>)
    ensures Advance64(s) == ZERO64 <==> s == ZERO64
  {
    RewindZero64();
    hide *;
    RewindAdvance64(s);
  }

  /** The state after `init`: four consecutive values of the splitmix64 sequence. */
  function Seeded64(seed: bv64): (s: Quad<bv64>) {
    Quad(Hint(seed, 0), Hint(seed, 1), Hint(seed, 2), Hint(seed, 3))
  }

  function States64(s: Quad<bv64>, n: nat): (t: Quad<bv64>) {
    if n == 0 then s else Advance64(States64(s, n - 1))
  }

  /** After init with any seed, zero included, and any number of steps, the state is never all zero. */
  lemma {:induction false} NeverZero64(seed: bv64, n: nat)
    ensures States64(Seeded64(seed), n) != ZERO64
  {
    hide Advance64, Hint;
    if n == 0 {
      HintsAreDistinct(seed, 0, 1);
    } else {
      NeverZero64(seed, n - 1);
      ZeroOnlyFromZero64(States64(Seeded64(seed), n - 1));
    }
  }

  /** The generator never returns to an earlier part of its cycle by another way: runs from distinct states stay apart. */
  lemma {:induction false} RunsStayApart64(s: Quad<bv64>, t: Quad<bv64>, n: nat)
    requires s != t
    ensures States64(s, n) != States64(t, n)
  {
    hide Advance64, Rewind64;
    if n > 0 {
      RunsStayApart64(s, t, n - 1);
      RewindAdvance64(States64(s, n - 1));
      RewindAdvance64(States64(t, n - 1));
    }
  }

  // 128 bits of state.

  function Xor32(x: bv32, y: bv32): (r: bv32) { x ^ y }
  function Turn11(x: bv32): (r: bv32) { (x << 11) | (x >> 21) }
  function Turn21(x: bv32): (r: bv32) { (x << 21) | (x >> 11) }
  function Turn7(x: bv32): (r: bv32) { (x << 7) | (x >> 25) }
  function Up9(x: bv32): (r: bv32) { x << 9 }
  function Unspread9(x: bv32): (r: bv32) { x ^ (x << 9) ^ (x << 18) ^ (x << 27) }

  function Scramble32(a: bv32, d: bv32): (r: bv32) { Turn7(a + d) + a }

  function Output32(s: Quad<bv32>): (r: bv32) {
    Scramble32(s.a, s.d)
  }

  function Advance32(s: Quad<bv32>): (t: Quad<bv32>) {
    var c, d := Xor32(s.c, s.a), Xor32(s.d, s.b);
    Quad(Xor32(s.a, d), Xor32(s.b, c), Xor32(c, Up9(s.b)), Turn11(d))
  }

  function Rewind32(t: Quad<bv32>): (s: Quad<bv32>) {
    var d := Turn21(t.d);
    var a := Xor32(t.a, d);
    var b := Unspread9(Xor32(t.b, t.c));
    var c := Xor32(t.b, b);
    Quad(a, b, Xor32(c, a), Xor32(d, b))
  }

  lemma TurnFacts32(x: bv32)
    ensures Turn11(x) == (x << 11) | (x >> 21) && Turn21((x << 11) | (x >> 21)) == x
  {
  }

  lemma XorFacts32(x: bv32, y: bv32)
    ensures Xor32(x, y) == x ^ y && Xor32(x ^ y, y) == x && Xor32(x ^ y, x) == y
  {
  }

  lemma XorInverse32(x: bv32, y: bv32)
    ensures Xor32(Xor32(x, y), y) == x && Xor32(Xor32(x, y), x) == y
  {
    hide *;
    XorFacts32(x, y);
  }

  lemma XorMiddle32(b: bv32, c: bv32, u: bv32)
    ensures Xor32(Xor32(b, c), Xor32(c, u)) == Xor32(b, u)
  {
  }

  lemma UnspreadFacts32(b: bv32)
    ensures Xor32(b, Up9(b)) == b ^ (b << 9) && Unspread9(b ^ (b << 9)) == b
  {
  }

  lemma SpreadInverse32(b: bv32, c: bv32)
    ensures Unspread9(Xor32(Xor32(b, c), Xor32(c, Up9(b)))) == b
  {
    hide *;
    XorMiddle32(b, c, Up9(b));
    UnspreadFacts32(b);
  }

  /** A step of xoshiro128++ can be undone too. */
  lemma RewindAdvance32(s: Quad<bv32>)
    ensures Rewind32(Advance32(s)) == s
  {
    hide Xor32, Turn11, Turn21, Up9, Unspread9;
    var c, d := Xor32(s.c, s.a), Xor32(s.d, s.b);
    assert Turn21(Turn11(d)) == d by {
      TurnFacts32(d);
    }
    SpreadInverse32(s.b, c);
    XorInverse32(s.b, c);
    XorInverse32(s.a, d);
    XorInverse32(s.c, s.a);
    XorInverse32(s.d, s.b);
  }

  const ZERO32: Quad<bv32> := Quad(0, 0, 0, 0)

  lemma RewindZero32()
    ensures Advance32(ZERO32) == ZERO32 && Rewind32(ZERO32) == ZERO32
  {
  }

  lemma ZeroOnlyFromZero32(s: Quad<bv32>)
    ensures Advance32(s) == ZERO32 <==> s == ZERO32
  {
    RewindZero32();
    hide *;
    RewindAdvance32(s);
  }

  function Counter32(seed: bv32, k: nat): (c: bv32) {
    if k == 0 then seed else Splitmix32Next(Counter32(seed, k - 1))
  }

  function Seeded32(seed: bv32): (s: Quad<bv32>) {
    Quad(Splitmix32(Counter32(seed, 0)), Splitmix32(Counter32(seed, 1)),
         Splitmix32(Counter32(seed, 2)), Splitmix32(Counter32(seed, 3)))
  }

  function States32(s: Quad<bv32>, n: nat): (t: Quad<bv32>) {
    if n == 0 then s else Advance32(States32(s, n - 1))
  }

  /** After init with any seed, zero included, and any number of steps, the state is never all zero. */
  lemma {:induction false} NeverZero32(seed: bv32, n: nat)
    ensures States32(Seeded32(seed), n) != ZERO32
  {
    hide Advance32, Splitmix32;
    if n == 0 {
      Splitmix32IsNotZero(Counter32(seed, 0));
    } else {
      NeverZero32(seed, n - 1);
      ZeroOnlyFromZero32(States32(Seeded32(seed), n - 1));
    }
  }
}
