/**
 The aligned allocator that recovers the raw address from one hidden byte.

 `raw` is what the raw allocator has handed out (base to size) and `mem` the bytes of memory.  `given`
 remembers for each live aligned pointer the base and the sizes of its block; the code never reads it.
 */
module AlignedAlloc {
  import opened Words
  import opened Powers

  type Addr = int

  datatype Grant = Grant(base: Addr, size: nat, align: nat)

  datatype State = State(raw: map<Addr, nat>, mem: map<Addr, int>, given: map<Addr, Grant>)

  datatype Step =
    | Alloc(base: Addr, size: nat, align: nat)
    | Write(u: Addr, i: nat, v: int)
    | Free(u: Addr)

  const POWERS: set<nat> := {1, 2, 4, 8, 16, 32, 64, 128, 256}

  predicate GoodAlign(align: nat) {
    align in POWERS
  }

  /** The bitwise and of two numbers. */
  function BitAnd(a: nat, b: nat): (c: nat) {
    if a == 0 || b == 0 then 0
    else 2 * BitAnd(a / 2, b / 2) + if a % 2 == 1 && b % 2 == 1 then 1 else 0
  }

  lemma {:induction false} BitAndSelf(a: nat)
    ensures BitAnd(a, a) == a
  {
    if a > 0 {
      BitAndSelf(a / 2);
    }
  }

  ghost predicate IsPow2(a: nat) {
    exists k: nat :: Pow2(k) == a
  }

  lemma DoublePow2(h: nat)
    ensures IsPow2(2 * h) <==> IsPow2(h)
  {
    if k: nat :| Pow2(k) == h {
      assert Pow2(k + 1) == 2 * h;
    }
    if k: nat :| Pow2(k) == 2 * h {
      assert Pow2(k - 1) == h;
    }
  }

  lemma OddPow2(k: nat)
    ensures Pow2(k) % 2 == 1 ==> Pow2(k) == 1
  {
  }

  /** A number has no bit in common with its predecessor iff it is a power of two. */
  lemma {:induction false} AndWithPredecessor(a: nat)
    requires a > 0
    ensures BitAnd(a, a - 1) == 0 <==> IsPow2(a)
  {
    var h := a / 2;
    if a == 1 {
      assert Pow2(0) == 1;
    } else if a % 2 == 0 {
      assert (a - 1) / 2 == h - 1;
      AndWithPredecessor(h);
      DoublePow2(h);
    } else {
      BitAndSelf(h);
      forall k: nat
        ensures Pow2(k) != a
      {
        OddPow2(k);
      }
    }
  }

  lemma SmallPowers(k: nat)
    ensures Pow2(k) <= 256 ==> Pow2(k) in POWERS
  {
    assert Pow2(5) == 32 && Pow2(9) == 512;
    if k > 8 {
      Pow2Monotonic(9, k);
    }
  }

  /** The test of the library accepts exactly the powers of two up to 256. */
  predicate BitTest(align: nat) {
    align != 0 && align <= 256 && BitAnd(align, align - 1) == 0
  }

  lemma BitTestIsPower(align: nat)
    ensures BitTest(align) <==> GoodAlign(align)
    ensures BitTest(align) <==> align <= 256 && IsPow2(align)
  {
    if align != 0 {
      AndWithPredecessor(align);
    }
    if k: nat :| Pow2(k) == align {
      SmallPowers(k);
    }
    if GoodAlign(align) {
      GoodIsPow2(align);
    }
  }

  lemma GoodIsPow2(align: nat)
    requires GoodAlign(align)
    ensures IsPow2(align)
  {
    assert Pow2(0) == 1 && Pow2(1) == 2 && Pow2(2) == 4 && Pow2(3) == 8 && Pow2(4) == 16;
    assert Pow2(5) == 32 && Pow2(6) == 64 && Pow2(7) == 128 && Pow2(8) == 256;
  }

  /** A range that no raw block overlaps. */
  predicate Vacant(raw: map<Addr, nat>, base: Addr, size: nat) {
    forall b | b in raw :: b + raw[b] <= base || base + size <= b
  }

  /** The raw allocator returns vacant memory; the program writes its blocks and frees live pointers. */
  predicate Enabled(s: State, a: Step) {
    match a
    case Alloc(base, size, align) =>
      GoodAlign(align) && base > 0 && size > 0 && base + size + align < WORD && Vacant(s.raw, base, size + align)
    case Write(u, i, v) => u in s.given && i < s.given[u].size
    case Free(u) => u in s.given
  }

  /** The value kept by an 8-bit cell. */
  function ToByte(v: int): (b: int)
    ensures 0 <= b < 256 && (v - b) % 256 == 0
  {
    v % 256
  }

  /** The distance from a raw block at `base` to the pointer given out for it. */
  function OffsetTo(base: Addr, align: nat): (offset: nat)
    requires align > 0
    ensures 0 < offset <= align
  {
    align - base % align
  }

  /** The pointer given out for a raw block at `base`. */
  function Aligned(base: Addr, align: nat): (u: Addr)
    requires align > 0
  {
    base + OffsetTo(base, align)
  }

  /** The base that the free computes from the byte in front of the pointer. */
  function HiddenBase(mem: map<Addr, int>, u: Addr): (base: int)
    requires u - 1 in mem
  {
    u - (mem[u - 1] + 1)
  }

  ghost predicate GrantOk(s: State, u: Addr)
    requires u in s.given
  {
    var g := s.given[u];
    && GoodAlign(g.align) && u % g.align == 0
    && g.base in s.raw && s.raw[g.base] == g.size + g.align
    && 0 < g.base < u <= g.base + g.align
    && u - 1 in s.mem && s.mem[u - 1] == u - g.base - 1
  }

  ghost predicate Disjoint(raw: map<Addr, nat>) {
    forall a, b | a in raw && b in raw && a != b :: a + raw[a] <= b || b + raw[b] <= a
  }

  ghost predicate Inv(s: State) {
    && Disjoint(s.raw)
    && (forall u | u in s.given :: GrantOk(s, u))
    && (forall u, v | u in s.given && v in s.given && u != v :: s.given[u].base != s.given[v].base)
  }

  function Apply(s: State, a: Step): (r: State)
    requires Enabled(s, a)
    requires a.Free? ==> a.u - 1 in s.mem
  {
    match a
    case Alloc(base, size, align) =>
      var u := Aligned(base, align);
      var offset := OffsetTo(base, align);
      State(s.raw[base := size + align], s.mem[u - 1 := ToByte(offset - 1)], s.given[u := Grant(base, size, align)])
    case Write(u, i, v) => s.(mem := s.mem[u + i := ToByte(v)])
    case Free(u) => State(map b | b in s.raw && b != HiddenBase(s.mem, u) :: s.raw[b], s.mem, s.given - {u})
  }

  lemma NextMultiple(base: int, align: int)
    requires align > 0
    ensures (base + (align - base % align)) % align == 0
  {
    var q := base / align + 1;
    assert base + (align - base % align) == q * align;
    hide *;
    MultipleModulo(q, align);
  }

  lemma MultipleModulo(q: int, align: int)
    requires align > 0
    ensures q * align % align == 0
  {
    var r, m := q * align % align, q * align / align;
    assert (q - m) * align == r;
    if q - m != 0 {
      ProductAtLeast(q - m, align);
    }
  }

  lemma ProductAtLeast(k: int, align: int)
    requires align > 0 && k != 0
    ensures k * align >= align || k * align <= -align
  {
  }

  /** What an aligned pointer promises: its alignment, and that its bytes lie inside its raw block. */
  lemma AlignedInside(base: Addr, size: nat, align: nat)
    requires GoodAlign(align) && base > 0
    ensures var u := Aligned(base, align);
            u % align == 0 && base < u && u + size <= base + (size + align) && u - base <= align
  {
    assert align > 0;
    hide GoodAlign;
    NextMultiple(base, align);
  }

  /** Bytes of one live block never hold the hidden byte of another one, or its own. */
  lemma HiddenByteIsPrivate(s: State, u: Addr, v: Addr, i: nat)
    requires Inv(s) && u in s.given && v in s.given && i < s.given[u].size
    ensures u + i != v - 1
  {
    assert GrantOk(s, u) && GrantOk(s, v);
    if u != v {
      assert s.given[u].base != s.given[v].base;
    }
  }

  /** The free recovers exactly the base that the raw allocator gave out. */
  lemma FreeRecoversBase(s: State, u: Addr)
    requires Inv(s) && u in s.given
    ensures u - 1 in s.mem
    ensures HiddenBase(s.mem, u) == s.given[u].base && s.given[u].base in s.raw
  {
    assert GrantOk(s, u);
  }

  lemma AllocKeepsInv(s: State, base: Addr, size: nat, align: nat)
    requires Inv(s) && Enabled(s, Alloc(base, size, align))
    ensures Inv(Apply(s, Alloc(base, size, align))) && Aligned(base, align) !in s.given
  {
    var u, n := Aligned(base, align), Apply(s, Alloc(base, size, align));
    AlignedInside(base, size, align);
    hide OffsetTo, POWERS;
    forall v | v in s.given
      ensures v != u && GrantOk(n, v) && s.given[v].base != base
    {
      assert GrantOk(s, v);
    }
    assert GrantOk(n, u);
  }

  /** The effect of an allocation, spelled out. */
  lemma Allocated(s: State, base: Addr, size: nat, align: nat)
    requires Inv(s) && GoodAlign(align) && base > 0 && size > 0
    requires base + size + align < WORD && Vacant(s.raw, base, size + align)
    ensures var offset := align - base % align;
            var n := State(s.raw[base := size + align], s.mem[base + offset - 1 := ToByte(offset - 1)],
                           s.given[base + offset := Grant(base, size, align)]);
            Enabled(s, Alloc(base, size, align)) && n == Apply(s, Alloc(base, size, align)) && Inv(n)
  {
    AllocKeepsInv(s, base, size, align);
    hide Inv, ToByte;
  }

  lemma WriteKeepsInv(s: State, u: Addr, i: nat, b: int)
    requires Inv(s) && Enabled(s, Write(u, i, b))
    ensures Inv(Apply(s, Write(u, i, b)))
  {
    var n := Apply(s, Write(u, i, b));
    forall v | v in n.given
      ensures GrantOk(n, v)
    {
      assert GrantOk(s, v);
      HiddenByteIsPrivate(s, u, v, i);
    }
  }

  lemma FreeKeepsInv(s: State, u: Addr)
    requires Inv(s) && u in s.given
    ensures u - 1 in s.mem && Inv(Apply(s, Free(u)))
  {
    FreeRecoversBase(s, u);
    var n := Apply(s, Free(u));
    forall v | v in n.given
      ensures GrantOk(n, v)
    {
      assert GrantOk(s, v);
    }
  }

  lemma StepKeepsInv(s: State, a: Step)
    requires Inv(s) && Enabled(s, a)
    ensures a.Free? ==> a.u - 1 in s.mem
    ensures Inv(Apply(s, a))
  {
    match a
    case Alloc(base, size, align) => AllocKeepsInv(s, base, size, align);
    case Write(u, i, v) => WriteKeepsInv(s, u, i, v);
    case Free(u) => FreeKeepsInv(s, u);
  }

  // Runs.  `freed` collects the addresses that the frees hand to the raw allocator.

  const INIT: State := State(map[], map[], map[])

  ghost predicate CanRun(s: State, steps: seq<Step>)
    decreases |steps|
  {
    steps == [] ||
    (Enabled(s, steps[0]) && (steps[0].Free? ==> steps[0].u - 1 in s.mem)
     && CanRun(Apply(s, steps[0]), steps[1..]))
  }

  ghost function Run(s: State, steps: seq<Step>): (r: State)
    requires CanRun(s, steps)
    decreases |steps|
  {
    if steps == [] then s else Run(Apply(s, steps[0]), steps[1..])
  }

  /** The program only respects the rules of `Enabled`; the hidden byte is then always there. */
  ghost predicate Allowed(s: State, steps: seq<Step>)
    requires Inv(s)
    decreases |steps|
  {
    steps == [] || (Enabled(s, steps[0]) && (StepKeepsInv(s, steps[0]); Allowed(Apply(s, steps[0]), steps[1..])))
  }

  /**
   Every run of allocations, writes inside the given ranges and frees: each live pointer is a multiple of
   its alignment, its range lies inside its raw block, and freeing it hands the raw allocator the base of
   that block.
   */
  lemma {:induction false} RunIsSafe(s: State, steps: seq<Step>)
    requires Inv(s) && Allowed(s, steps)
    ensures CanRun(s, steps) && Inv(Run(s, steps))
    ensures var r := Run(s, steps);
            forall u | u in r.given ::
              && Promised(r, u)
              && r.given[u].align > 0 && u % r.given[u].align == 0
              && r.given[u].base in r.raw
              && r.given[u].base < u && u + r.given[u].size <= r.given[u].base + r.raw[r.given[u].base]
              && u - 1 in r.mem && u - (r.mem[u - 1] + 1) == r.given[u].base
    decreases |steps|
  {
    if steps == [] {
      forall u | u in s.given
        ensures Promised(s, u)
      {
        assert GrantOk(s, u);
        FreeRecoversBase(s, u);
      }
    } else {
      StepKeepsInv(s, steps[0]);
      RunIsSafe(Apply(s, steps[0]), steps[1..]);
    }
  }

  ghost predicate Promised(s: State, u: Addr)
    requires u in s.given
  {
    var g := s.given[u];
    && g.align > 0 && u % g.align == 0
    && g.base in s.raw && g.base < u && u + g.size <= g.base + s.raw[g.base]
    && u - 1 in s.mem && HiddenBase(s.mem, u) == g.base
  }

  class AlignedHeap {
    var raw: map<Addr, nat>
    var mem: map<Addr, int>
    ghost var given: map<Addr, Grant>

    ghost function Snapshot(): (s: State)
      reads this
    {
      State(raw, mem, given)
    }

    constructor ()
      ensures Snapshot() == INIT && Inv(Snapshot())
    {
      raw, mem, given := map[], map[], map[];
    }

    /**
     `ov_mem_aligned_alloc`: `pp` is the old value of the caller's pointer and `base` what the raw
     allocator returns for the enlarged request, 0 on failure.
     */
    method Allocate(pp: Addr, n: nat, itemSize: nat, align: nat, base: Addr) returns (ok: bool, np: Addr)
      requires Inv(Snapshot()) && 0 <= base && base + n * itemSize + align < WORD
      requires base > 0 ==> Vacant(raw, base, n * itemSize + align)
      modifies this
      ensures Inv(Snapshot())
      ensures ok <==> n > 0 && itemSize > 0 && GoodAlign(align) && pp == 0 && base > 0
      ensures !ok ==> np == pp && Snapshot() == old(Snapshot())
      ensures ok ==>
                && Enabled(old(Snapshot()), Alloc(base, n * itemSize, align))
                && Snapshot() == Apply(old(Snapshot()), Alloc(base, n * itemSize, align))
                && np in given && given[np] == Grant(base, n * itemSize, align)
    {
      BitTestIsPower(align);
      if n == 0 || itemSize == 0 || align == 0 || align > 256 || BitAnd(align, align - 1) != 0 {
        return false, pp;
      }
      if pp != 0 {
        return false, pp;
      }
      if base == 0 {
        return false, pp;
      }
      ProductPositive(n, itemSize);
      var size := n * itemSize;
      assert align > 0;
      hide *;
      Allocated(Snapshot(), base, size, align);
      var offset := align - base % align;
      np := base + offset;
      raw := raw[base := size + align];
      mem := mem[np - 1 := ToByte(offset - 1)];
      given := given[np := Grant(base, size, align)];
      return true, np;
    }

    /** The program stores a byte in its block. */
    method Store(u: Addr, i: nat, v: int)
      requires Inv(Snapshot()) && u in given && i < given[u].size
      modifies this`mem
      ensures Inv(Snapshot()) && Snapshot() == Apply(old(Snapshot()), Write(u, i, v))
    {
      WriteKeepsInv(Snapshot(), u, i, v);
      hide Inv;
      mem := mem[u + i := ToByte(v)];
    }

    /** `ov_mem_aligned_free`: `freed` is the address handed to the raw free, 0 when there is none. */
    method Release(pp: Addr) returns (freed: Addr, np: Addr)
      requires Inv(Snapshot()) && (pp == 0 || pp in given)
      modifies this
      ensures Inv(Snapshot()) && np == 0
      ensures pp == 0 ==> freed == 0 && Snapshot() == old(Snapshot())
      ensures pp != 0 ==> freed == old(given)[pp].base && raw == old(raw) - {freed} && given == old(given) - {pp}
      ensures mem == old(mem)
    {
      if pp == 0 {
        return 0, 0;
      }
      FreeRecoversBase(Snapshot(), pp);
      FreeKeepsInv(Snapshot(), pp);
      hide Inv;
      var offset := mem[pp - 1];
      freed := pp - (offset + 1);
      raw := map b | b in raw && b != freed :: raw[b];
      given := given - {pp};
      np := 0;
    }
  }

  lemma ProductPositive(a: nat, b: nat)
    requires a > 0 && b > 0
    ensures a * b > 0
  {
  }
}
