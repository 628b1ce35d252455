/** The two xoshiro generators, updating their state in place. */
module Generators {
  import opened Rand
  import opened Xoshiro
  import opened XoshiroNumbers
  import Binary
  import Binary32

  class Xoshiro256pp {
    const s: array<bv64>

    ghost predicate Valid()
      reads this
    {
      s.Length == 4
    }

    ghost function State(): (q: Quad<bv64>)
      reads this, s
      requires Valid()
    {
      Quad(s[0], s[1], s[2], s[3])
    }

    constructor ()
      ensures Valid() && fresh(s)
    {
      s := new bv64[4];
    }

    method Init(seed: bv64)
      requires Valid()
      modifies s
      ensures State() == Seeded64(seed)
      ensures forall k | 0 <= k < 4 ::
                Binary.Number(s[k]) == SeedWord64(Binary.Number(seed), k)
    {
      hide Splitmix64, Splitmix64Next, Binary.Number, SeedWord64;
      var x := seed;
      for i := 0 to 4
        invariant x == Counter(seed, i)
        invariant forall j | 0 <= j < i :: s[j] == Hint(seed, j)
      {
        s[i] := Splitmix64(x);
        x := Splitmix64Next(x);
      }
      forall k | 0 <= k < 4
        ensures Binary.Number(s[k]) == SeedWord64(Binary.Number(seed), k)
      {
        Seed64Number(seed, k);
      }
    }

    /** The number of the current state. */
    method Output() returns (r: bv64)
      requires Valid()
      ensures r == Output64(State()) && IsReturned64(State(), r)
    {
      Returns64(State());
      hide IsReturned64, Scramble64;
      r := Scramble64(s[0], s[3]);
    }

    /** The update of the state. */
    method Step()
      requires Valid()
      modifies s
      ensures State() == Advance64(old(State()))
    {
      hide Xor64, Up17, Turn45;
      var t := Up17(s[1]);
      s[2] := Xor64(s[2], s[0]);
      s[3] := Xor64(s[3], s[1]);
      s[1] := Xor64(s[1], s[2]);
      s[0] := Xor64(s[0], s[3]);
      s[2] := Xor64(s[2], t);
      s[3] := Turn45(s[3]);
    }

    method Next() returns (r: bv64)
      requires Valid()
      modifies s
      ensures State() == Advance64(old(State())) && r == Output64(old(State()))
      ensures IsReturned64(old(State()), r)
    {
      hide IsReturned64, Advance64, Output64;
      r := Output();
      Step();
    }
  }

  class Xoshiro128pp {
    const s: array<bv32>

    ghost predicate Valid()
      reads this
    {
      s.Length == 4
    }

    ghost function State(): (q: Quad<bv32>)
      reads this, s
      requires Valid()
    {
      Quad(s[0], s[1], s[2], s[3])
    }

    constructor ()
      ensures Valid() && fresh(s)
    {
      s := new bv32[4];
    }

    method Init(seed: bv32)
      requires Valid()
      modifies s
      ensures State() == Seeded32(seed)
      ensures forall k | 0 <= k < 4 ::
                Binary32.Number(s[k]) == SeedWord32(Binary32.Number(seed), k)
    {
      hide Splitmix32, Splitmix32Next, Binary32.Number, SeedWord32;
      var x := seed;
      for i := 0 to 4
        invariant x == Counter32(seed, i)
        invariant forall j | 0 <= j < i :: s[j] == Splitmix32(Counter32(seed, j))
      {
        s[i] := Splitmix32(x);
        x := Splitmix32Next(x);
      }
      forall k | 0 <= k < 4
        ensures Binary32.Number(s[k]) == SeedWord32(Binary32.Number(seed), k)
      {
        Seed32Number(seed, k);
      }
    }

    /** The number of the current state. */
    method Output() returns (r: bv32)
      requires Valid()
      ensures r == Output32(State()) && IsReturned32(State(), r)
    {
      Returns32(State());
      hide IsReturned32, Scramble32;
      r := Scramble32(s[0], s[3]);
    }

    /** The update of the state. */
    method Step()
      requires Valid()
      modifies s
      ensures State() == Advance32(old(State()))
    {
      hide Xor32, Up9, Turn11;
      var t := Up9(s[1]);
      s[2] := Xor32(s[2], s[0]);
      s[3] := Xor32(s[3], s[1]);
      s[1] := Xor32(s[1], s[2]);
      s[0] := Xor32(s[0], s[3]);
      s[2] := Xor32(s[2], t);
      s[3] := Turn11(s[3]);
    }

    method Next() returns (r: bv32)
      requires Valid()
      modifies s
      ensures State() == Advance32(old(State())) && r == Output32(old(State()))
      ensures IsReturned32(old(State()), r)
    {
      hide IsReturned32, Advance32, Output32;
      r := Output();
      Step();
    }
  }
}
