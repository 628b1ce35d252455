/** The streaming decoders of the formatted output: one byte or unit at a time, with error recovery. */
module Streaming {
  import opened Codec
  import Utf8
  import Utf16

  /** What feeding one unit reports; the two negative codes of the library are `Incomplete` and `Error`. */
  datatype Fed = Emit(cp: bv32) | Incomplete | Error

  function Emitted(outs: seq<Fed>): (cps: seq<bv32>) {
    if outs == [] then []
    else (if outs[0].Emit? then [outs[0].cp] else []) + Emitted(outs[1..])
  }

  lemma {:induction false} EmittedAppend(a: seq<Fed>, b: seq<Fed>)
    ensures Emitted(a + b) == Emitted(a) + Emitted(b)
  {
    if a == [] {
      assert a + b == b && [] + Emitted(b) == Emitted(b);
    } else {
      EmittedAppend(a[1..], b);
      var head := if a[0].Emit? then [a[0].cp] else [];
      assert (a + b)[1..] == a[1..] + b && (a + b)[0] == a[0];
      AppendAssociative(head, Emitted(a[1..]), Emitted(b));
    }
  }

  // UTF-8.

  /** The collected bytes of an unfinished sequence and its announced length. */
  datatype ByteState = ByteState(pending: seq<bv8>, expected: nat)

  /** The states a decoder can be in between two bytes. */
  predicate Reachable(s: ByteState) {
    s.pending != [] ==>
      && |s.pending| < s.expected == Utf8.FirstByteToLen(s.pending[0])
      && forall i | 1 <= i < |s.pending| :: Utf8.Later(s.pending[i])
  }

  function FeedByte(s: ByteState, byte: bv8): (r: (ByteState, Fed)) {
    if s.pending == [] then
      var len := Utf8.FirstByteToLen(byte);
      if len == 0 then (ByteState([], 0), Error) else Settled([byte], len)
    else if !Utf8.Later(byte) then (ByteState([], s.expected), Error)
    else Settled(s.pending + [byte], s.expected)
  }

  /** After a byte was stored: a full sequence is decoded and cleared. */
  function Settled(pending: seq<bv8>, expected: nat): (r: (ByteState, Fed)) {
    if |pending| == expected then
      (ByteState([], 0), match Utf8.DecodeSequence(pending) case Good(cp, _) => Emit(cp) case Bad => Error)
    else (ByteState(pending, expected), Incomplete)
  }

  class Utf8State {
    const buf: array<bv8>
    var bufLen: nat
    var expectedLen: nat

    ghost predicate Valid()
      reads this, buf
    {
      buf.Length == 4 && bufLen < 4 && Reachable(State())
    }

    ghost function State(): (s: ByteState)
      reads this, buf
      requires bufLen <= buf.Length
    {
      ByteState(buf[..bufLen], expectedLen)
    }

    constructor ()
      ensures Valid() && State() == ByteState([], 0) && fresh(buf)
    {
      buf := new bv8[4];
      bufLen := 0;
      expectedLen := 0;
    }

    method Feed(byte: bv8) returns (r: Fed)
      requires Valid()
      modifies this, buf
      ensures Valid()
      ensures (State(), r) == FeedByte(old(State()), byte)
    {
      ghost var s := State();
      FeedKeepsReachable(s, byte);
      if bufLen == 0 {
        expectedLen := Utf8.FirstByteToLen(byte);
        if expectedLen == 0 {
          return Error;
        }
        buf[0] := byte;
        bufLen := 1;
        assert buf[..1] == [byte];
      } else {
        if !Utf8.Later(byte) {
          bufLen := 0;
          return Error;
        }
        buf[bufLen] := byte;
        bufLen := bufLen + 1;
        assert buf[..bufLen] == s.pending + [byte];
      }
      if bufLen == expectedLen {
        var d := Utf8.DecodeSequence(buf[..bufLen]);
        bufLen := 0;
        expectedLen := 0;
        return if d.Good? then Emit(d.cp) else Error;
      }
      return Incomplete;
    }
  }

  lemma FeedKeepsReachable(s: ByteState, byte: bv8)
    requires Reachable(s)
    ensures Reachable(FeedByte(s, byte).0) && |FeedByte(s, byte).0.pending| < 4
  {
  }

  function FeedAll(s: ByteState, bytes: seq<bv8>): (r: (ByteState, seq<Fed>))
    decreases |bytes|
  {
    if bytes == [] then (s, [])
    else
      var (next, out) := FeedByte(s, bytes[0]);
      var (last, outs) := FeedAll(next, bytes[1..]);
      (last, [out] + outs)
  }

  lemma {:induction false} FeedAllAppend(s: ByteState, a: seq<bv8>, b: seq<bv8>)
    ensures var (mid, outs) := FeedAll(s, a);
            FeedAll(s, a + b) == (FeedAll(mid, b).0, outs + FeedAll(mid, b).1)
    decreases |a|
  {
    if a == [] {
      assert a + b == b && [] + FeedAll(s, b).1 == FeedAll(s, b).1;
    } else {
      var (next, out) := FeedByte(s, a[0]);
      FeedAllAppend(next, a[1..], b);
      assert (a + b)[1..] == a[1..] + b && (a + b)[0] == a[0];
      var (mid, outs) := FeedAll(next, a[1..]);
      assert [out] + (outs + FeedAll(mid, b).1) == [out] + outs + FeedAll(mid, b).1;
    }
  }

  /** Continuation bytes complete a started sequence. */
  lemma {:induction false} FeedContinuations(s: ByteState, t: seq<bv8>)
    requires Reachable(s) && s.pending != [] && |s.pending| + |t| <= s.expected
    requires forall i | 0 <= i < |t| :: Utf8.Later(t[i])
    ensures |s.pending| + |t| < s.expected ==>
              FeedAll(s, t).0 == ByteState(s.pending + t, s.expected) && Emitted(FeedAll(s, t).1) == []
              && Error !in FeedAll(s, t).1
    ensures |s.pending| + |t| == s.expected ==>
              FeedAll(s, t).0 == ByteState([], 0)
              && (match Utf8.DecodeSequence(s.pending + t)
                  case Good(cp, _) => Emitted(FeedAll(s, t).1) == [cp] && Error !in FeedAll(s, t).1
                  case Bad => Error in FeedAll(s, t).1)
    decreases |t|
  {
    if t == [] {
      assert s.pending + t == s.pending;
    } else {
      FeedKeepsReachable(s, t[0]);
      var next := FeedByte(s, t[0]).0;
      assert s.pending + [t[0]] + t[1..] == s.pending + t;
      if |t| == 1 {
        assert FeedAll(next, t[1..]) == (next, []);
        assert t == [t[0]];
      } else {
        FeedContinuations(next, t[1..]);
      }
    }
  }

  /** Only the first byte of an encoding can start a sequence. */
  lemma EncodingShape(cp: bv32)
    requires !InvalidCodepoint(cp)
    ensures !Utf8.Later(Utf8.Encode(cp)[0])
    ensures forall i | 1 <= i < |Utf8.Encode(cp)| :: Utf8.Later(Utf8.Encode(cp)[i])
  {
    if cp < 0x80 {
      FirstIsNoContinuation(cp);
    } else {
      FirstIsNoContinuation(cp);
      LaterIsContinuation(cp);
    }
    hide Utf8.FirstOf1, Utf8.FirstOf2, Utf8.FirstOf3, Utf8.FirstOf4, Utf8.Later12, Utf8.Later6, Utf8.Later0;
    hide Utf8.Later;
  }

  lemma FirstIsNoContinuation(cp: bv32)
    ensures !Utf8.Later(Utf8.FirstOf1(cp)) && !Utf8.Later(Utf8.FirstOf2(cp))
    ensures !Utf8.Later(Utf8.FirstOf3(cp)) && !Utf8.Later(Utf8.FirstOf4(cp))
  {
  }

  lemma LaterIsContinuation(cp: bv32)
    ensures Utf8.Later(Utf8.Later12(cp)) && Utf8.Later(Utf8.Later6(cp)) && Utf8.Later(Utf8.Later0(cp))
  {
  }

  lemma ContinuationStartsNothing(byte: bv8)
    requires Utf8.Later(byte)
    ensures Utf8.FirstByteToLen(byte) == 0
  {
  }

  lemma FeedFirst(s: ByteState, e: seq<bv8>)
    requires e != []
    ensures var (next, out) := FeedByte(s, e[0]);
            var (last, outs) := FeedAll(next, e[1..]);
            && FeedAll(s, e) == (last, [out] + outs)
            && Emitted([out] + outs) == (if out.Emit? then [out.cp] else []) + Emitted(outs)
            && (|e| == 1 ==> last == next && outs == [])
  {
    var (next, out) := FeedByte(s, e[0]);
    assert ([out] + FeedAll(next, e[1..]).1)[1..] == FeedAll(next, e[1..]).1;
  }

  /** In step, the decoder turns one encoding into its scalar. */
  lemma FeedEncoding(s: ByteState, cp: bv32)
    requires s.pending == [] && !InvalidCodepoint(cp)
    ensures var (last, outs) := FeedAll(s, Utf8.Encode(cp));
            last == ByteState([], 0) && Emitted(outs) == [cp] && Error !in outs
  {
    var e := Utf8.Encode(cp);
    EncodingShape(cp);
    Utf8.DecodeEncode(cp);
    hide Utf8.Encode, Utf8.DecodeSequence, Utf8.FirstByteToLen, Utf8.Later, InvalidCodepoint;
    var (next, out) := FeedByte(s, e[0]);
    FeedFirst(s, e);
    hide FeedAll;
    if |e| == 1 {
      assert e == [e[0]];
    } else {
      assert [e[0]] + e[1..] == e;
      FeedContinuations(next, e[1..]);
    }
  }

  /** Bytes that start nothing are errors and leave the decoder in step. */
  lemma {:induction false} FeedStray(s: ByteState, t: seq<bv8>)
    requires s.pending == [] && forall i | 0 <= i < |t| :: Utf8.Later(t[i])
    ensures FeedAll(s, t).0.pending == [] && Emitted(FeedAll(s, t).1) == []
    decreases |t|
  {
    if t != [] {
      ContinuationStartsNothing(t[0]);
      FeedStray(FeedByte(s, t[0]).0, t[1..]);
    }
  }

  /** Out of step, the decoder loses exactly one encoding and is in step again. */
  lemma FeedLost(s: ByteState, cp: bv32)
    requires s.pending != [] && !InvalidCodepoint(cp)
    ensures FeedAll(s, Utf8.Encode(cp)).0.pending == [] && Emitted(FeedAll(s, Utf8.Encode(cp)).1) == []
  {
    var e := Utf8.Encode(cp);
    EncodingShape(cp);
    FeedStray(FeedByte(s, e[0]).0, e[1..]);
  }

  /**
   Resynchronisation: from every state, feeding the encoding of `cps` emits `cps`, or all of `cps` but the
   first when the state was in the middle of a sequence; nothing else is emitted.
   */
  lemma {:induction false} StreamResynchronises(s: ByteState, cps: seq<bv32>)
    requires AllScalars(cps)
    ensures var (last, outs) := FeedAll(s, EncodeAll(Utf8.Encode, cps));
            && (cps != [] ==> last.pending == [])
            && (cps == [] ==> last == s)
            && Emitted(outs) == (if s.pending == [] || cps == [] then cps else cps[1..])
            && (s.pending == [] ==> Error !in outs)
    decreases |cps|
  {
    if cps != [] {
      var e, more := Utf8.Encode(cps[0]), EncodeAll(Utf8.Encode, cps[1..]);
      if s.pending == [] {
        FeedEncoding(s, cps[0]);
      } else {
        FeedLost(s, cps[0]);
      }
      hide Utf8.Encode, FeedByte;
      var (mid, outs) := FeedAll(s, e);
      FeedAllAppend(s, e, more);
      EmittedAppend(outs, FeedAll(mid, more).1);
      StreamResynchronises(mid, cps[1..]);
      FirstAndRest(cps);
    }
  }

  lemma {:induction false} NoErrorMeansContinuations(s: ByteState, t: seq<bv8>)
    requires Reachable(s) && s.pending != [] && |s.pending| + |t| <= s.expected
    requires Error !in FeedAll(s, t).1
    ensures forall i | 0 <= i < |t| :: Utf8.Later(t[i])
    decreases |t|
  {
    if t != [] {
      assert FeedAll(s, t).1[0] == FeedByte(s, t[0]).1;
      FeedKeepsReachable(s, t[0]);
      if |t| > 1 {
        assert FeedAll(s, t).1[1..] == FeedAll(FeedByte(s, t[0]).0, t[1..]).1;
        NoErrorMeansContinuations(FeedByte(s, t[0]).0, t[1..]);
      }
    }
  }

  /** A started sequence that is never finished leaves the decoder incomplete, or is an error. */
  lemma ShortInputIsIncomplete(s: ByteState, src: seq<bv8>)
    requires s.pending == [] && src != [] && |src| < Utf8.FirstByteToLen(src[0])
    ensures Error in FeedAll(s, src).1 || FeedAll(s, src).0.pending != []
  {
    var next := FeedByte(s, src[0]).0;
    assert FeedAll(s, src).1[1..] == FeedAll(next, src[1..]).1;
    if Error !in FeedAll(s, src).1 {
      NoErrorMeansContinuations(next, src[1..]);
      FeedContinuations(next, src[1..]);
    }
  }

  /** A full first sequence without error is one the batch decoder accepts. */
  lemma FullSequenceDecodes(s: ByteState, e: seq<bv8>)
    requires s.pending == [] && e != [] && |e| == Utf8.FirstByteToLen(e[0])
    requires Error !in FeedAll(s, e).1
    ensures Utf8.DecodeSequence(e).Good? && FeedAll(s, e).0.pending == []
  {
    var next, out := FeedByte(s, e[0]).0, FeedByte(s, e[0]).1;
    assert FeedAll(s, e).1[1..] == FeedAll(next, e[1..]).1 && FeedAll(s, e).1[0] == out;
    assert [e[0]] + e[1..] == e;
    if |e| == 1 {
      assert e == [e[0]] && FeedAll(next, e[1..]) == (next, []);
    } else {
      NoErrorMeansContinuations(next, e[1..]);
      FeedContinuations(next, e[1..]);
    }
  }

  lemma SequenceLength(e: seq<bv8>)
    ensures Utf8.DecodeSequence(e).Good? ==> Utf8.DecodeSequence(e).len == |e| > 0
  {
  }

  lemma {:induction false} NoErrorMeansWellFormed(s: ByteState, src: seq<bv8>)
    requires s.pending == []
    requires Error !in FeedAll(s, src).1 && FeedAll(s, src).0.pending == []
    ensures WellFormed(Utf8.Decode, src)
    decreases |src|
  {
    if src != [] {
      var len := Utf8.FirstByteToLen(src[0]);
      assert FeedAll(s, src).1[0] == FeedByte(s, src[0]).1;
      if len > |src| {
        ShortInputIsIncomplete(s, src);
      } else {
        var e, rest := src[..len], src[len..];
        assert e[0] == src[0] && Utf8.Decode(src) == if len == 0 then Bad else Utf8.DecodeSequence(e);
        hide FeedByte, Utf8.DecodeSequence, Utf8.Decode;
        assert src == e + rest;
        FeedAllAppend(s, e, rest);
        FullSequenceDecodes(s, e);
        SequenceLength(e);
        NoErrorMeansWellFormed(FeedAll(s, e).0, rest);
      }
    }
  }

  /**
   The streaming and the batch decoder agree: a byte string is fed without error to a complete end iff the
   batch decoder takes all of it, and then both deliver the same codepoints.
   */
  lemma StreamMatchesBatch(src: seq<bv8>)
    requires src != []
    ensures var (last, outs) := FeedAll(ByteState([], 0), src);
            var b := Batch(Utf8.Decode, Record, [], src);
            && (Error !in outs && last.pending == [] <==> b.Returned() == |src|)
            && (b.Returned() == |src| ==> Emitted(outs) == b.ctx)
  {
    var s := ByteState([], 0);
    var b := Batch(Utf8.Decode, Record, [], src);
    Utf8.Utf8IsCodec();
    AcceptsExactly(Utf8.Decode, Utf8.Encode, src);
    WellFormedIff(Utf8.Decode, Utf8.Encode, src);
    hide IsCodec, FeedByte, Batch;
    if b.Returned() == |src| {
      StreamResynchronises(s, b.ctx);
    } else if Error !in FeedAll(s, src).1 && FeedAll(s, src).0.pending == [] {
      NoErrorMeansWellFormed(s, src);
    }
  }

  // 16-bit units.

  /** The high surrogate that waits for its partner, if any. */
  datatype UnitState = Ready | Waiting(high: bv16)

  function Valued(cp: bv32): (r: Fed) {
    if InvalidCodepoint(cp) then Error else Emit(cp)
  }

  function FeedUnit(s: UnitState, u: bv16): (r: (UnitState, Fed)) {
    match s
    case Ready =>
      if Utf16.SurrogateHigh(u) then (Waiting(u), Incomplete)
      else if Utf16.SurrogateLow(u) then (Ready, Error)
      else (Ready, Valued(Utf16.Widened(u)))
    case Waiting(high) =>
      if !Utf16.SurrogateLow(u) then (Ready, Error)
      else (Ready, Valued(Utf16.PairValue(high, u)))
  }

  class WcharState {
    var highSurrogate: bv16
    var hasHigh: bool

    ghost predicate Valid()
      reads this
    {
      hasHigh ==> Utf16.SurrogateHigh(highSurrogate)
    }

    ghost function State(): (s: UnitState)
      reads this
    {
      if hasHigh then Waiting(highSurrogate) else Ready
    }

    constructor ()
      ensures Valid() && State() == Ready
    {
      highSurrogate := 0;
      hasHigh := false;
    }

    method Feed(u: bv16) returns (r: Fed)
      requires Valid()
      modifies this
      ensures Valid() && (State(), r) == FeedUnit(old(State()), u)
    {
      if !hasHigh {
        if Utf16.SurrogateHigh(u) {
          highSurrogate := u;
          hasHigh := true;
          return Incomplete;
        }
        if Utf16.SurrogateLow(u) {
          return Error;
        }
        return Valued(Utf16.Widened(u));
      } else {
        hasHigh := false;
        if !Utf16.SurrogateLow(u) {
          return Error;
        }
        return Valued(Utf16.PairValue(highSurrogate, u));
      }
    }
  }

  function FeedUnits(s: UnitState, units: seq<bv16>): (r: (UnitState, seq<Fed>))
    decreases |units|
  {
    if units == [] then (s, [])
    else
      var (next, out) := FeedUnit(s, units[0]);
      var (last, outs) := FeedUnits(next, units[1..]);
      (last, [out] + outs)
  }

  /** One encoding: emitted when in step, lost when a high surrogate was waiting; in step either way. */
  lemma FeedUnitEncoding(s: UnitState, cp: bv32)
    requires !InvalidCodepoint(cp)
    ensures var e := Utf16.Encode(cp);
            var (mid, out) := FeedUnit(s, e[0]);
            var (last, outs) := if |e| == 1 then (mid, [out]) else (FeedUnit(mid, e[1]).0, [out, FeedUnit(mid, e[1]).1]);
            && last == Ready
            && Emitted(outs) == (if s == Ready then [cp] else [])
            && (s == Ready ==> Error !in outs)
  {
    var e := Utf16.Encode(cp);
    if cp > 0xffff {
      Utf16.WritePair(cp);
      Utf16.WritePairValue(cp);
      NotBothSurrogates(e[0]);
      NotBothSurrogates(e[1]);
    } else {
      Utf16.WriteSingle(cp);
      Utf16.WriteSingleIsNoSurrogate(cp);
    }
    hide Utf16.HighOf, Utf16.LowOf, Utf16.Single, Utf16.PairValue, Utf16.Widened, InvalidCodepoint;
    hide Utf16.SurrogateHigh, Utf16.SurrogateLow;
    EmittedPair(FeedUnit(s, e[0]).1, Error);
    if |e| == 2 {
      EmittedPair(FeedUnit(s, e[0]).1, FeedUnit(FeedUnit(s, e[0]).0, e[1]).1);
    }
  }

  lemma NotBothSurrogates(u: bv16)
    ensures !(Utf16.SurrogateHigh(u) && Utf16.SurrogateLow(u))
  {
  }

  lemma EmittedPair(a: Fed, b: Fed)
    ensures Emitted([a]) == if a.Emit? then [a.cp] else []
    ensures Emitted([a, b]) == (if a.Emit? then [a.cp] else []) + if b.Emit? then [b.cp] else []
  {
    assert [a][1..] == [] && [a, b][1..] == [b] && [b][1..] == [];
    assert Emitted([b]) == if b.Emit? then [b.cp] else [];
  }

  lemma FeedTwoUnits(s: UnitState, a: bv16, b: bv16, rest: seq<bv16>)
    ensures var (next, out) := FeedUnit(s, a);
            FeedUnits(s, [a] + rest) == (FeedUnits(next, rest).0, [out] + FeedUnits(next, rest).1)
    ensures var (next, out) := FeedUnit(s, a);
            var (mid, out') := FeedUnit(next, b);
            FeedUnits(s, [a, b] + rest) == (FeedUnits(mid, rest).0, [out, out'] + FeedUnits(mid, rest).1)
  {
    assert ([a] + rest)[1..] == rest && ([a, b] + rest)[1..] == [b] + rest && ([b] + rest)[1..] == rest;
    var (next, out) := FeedUnit(s, a);
    var (mid, out') := FeedUnit(next, b);
    assert [out] + ([out'] + FeedUnits(mid, rest).1) == [out, out'] + FeedUnits(mid, rest).1;
  }

  lemma FirstAndRest(cps: seq<bv32>)
    requires cps != []
    ensures [cps[0]] + cps[1..] == cps && [] + cps[1..] == cps[1..]
  {
  }

  /** Feeding one encoding and then the rest. */
  lemma FeedUnitsFront(s: UnitState, cp: bv32, rest: seq<bv16>)
    requires !InvalidCodepoint(cp)
    ensures var (last, outs) := FeedUnits(s, Utf16.Encode(cp) + rest);
            var (last', outs') := FeedUnits(Ready, rest);
            && last == last'
            && Emitted(outs) == (if s == Ready then [cp] else []) + Emitted(outs')
            && (s == Ready && Error !in outs' ==> Error !in outs)
  {
    var e := Utf16.Encode(cp);
    FeedUnitEncoding(s, cp);
    hide FeedUnit, Utf16.HighOf, Utf16.LowOf, Utf16.Single;
    var (mid, out) := FeedUnit(s, e[0]);
    var outs' := FeedUnits(Ready, rest).1;
    if |e| == 1 {
      assert e == [e[0]];
      FeedTwoUnits(s, e[0], 0, rest);
      EmittedAppend([out], outs');
    } else {
      assert e == [e[0], e[1]];
      FeedTwoUnits(s, e[0], e[1], rest);
      EmittedAppend([out, FeedUnit(mid, e[1]).1], outs');
    }
  }

  /**
   Resynchronisation for 16-bit units: from every state, feeding the encoding of `cps` emits `cps`, or all
   of `cps` but the first when a high surrogate was waiting; nothing else is emitted.
   */
  lemma {:induction false} UnitsResynchronise(s: UnitState, cps: seq<bv32>)
    requires AllScalars(cps)
    ensures var (last, outs) := FeedUnits(s, EncodeAll(Utf16.Encode, cps));
            && last == (if cps == [] then s else Ready)
            && Emitted(outs) == (if s == Ready || cps == [] then cps else cps[1..])
            && (s == Ready ==> Error !in outs)
    decreases |cps|
  {
    if cps != [] {
      var more := EncodeAll(Utf16.Encode, cps[1..]);
      assert EncodeAll(Utf16.Encode, cps) == Utf16.Encode(cps[0]) + more;
      FeedUnitsFront(s, cps[0], more);
      UnitsResynchronise(Ready, cps[1..]);
      hide *;
      FirstAndRest(cps);
    }
  }

  lemma {:induction false} NoErrorMeansPaired(units: seq<bv16>)
    requires Error !in FeedUnits(Ready, units).1 && FeedUnits(Ready, units).0 == Ready
    ensures WellFormed(Utf16.Decode, units)
    decreases |units|
  {
    if units != [] {
      var (next, out) := FeedUnit(Ready, units[0]);
      var outs := FeedUnits(Ready, units).1;
      assert outs[0] == out && outs[1..] == FeedUnits(next, units[1..]).1;
      if next == Ready {
        NoErrorMeansPaired(units[1..]);
        assert Utf16.Decode(units) == Good(out.cp, 1);
      } else {
        assert FeedUnits(next, []) == (next, []);
        var (mid, out') := FeedUnit(next, units[1]);
        assert outs[1..][0] == out' && outs[1..][1..] == FeedUnits(mid, units[1..][1..]).1;
        assert units[1..][1..] == units[2..] && mid == Ready;
        NoErrorMeansPaired(units[2..]);
        assert Utf16.Decode(units) == Good(out'.cp, 2);
      }
    }
  }

  /** The streaming and the batch decoder of 16-bit units agree in the same way. */
  lemma UnitsMatchBatch(src: seq<bv16>)
    requires src != []
    ensures var (last, outs) := FeedUnits(Ready, src);
            var b := Batch(Utf16.Decode, Record, [], src);
            && (Error !in outs && last == Ready <==> b.Returned() == |src|)
            && (b.Returned() == |src| ==> Emitted(outs) == b.ctx)
  {
    var b := Batch(Utf16.Decode, Record, [], src);
    Utf16.Utf16IsCodec();
    AcceptsExactly(Utf16.Decode, Utf16.Encode, src);
    WellFormedIff(Utf16.Decode, Utf16.Encode, src);
    hide IsCodec, FeedUnit, Batch;
    if b.Returned() == |src| {
      UnitsResynchronise(Ready, b.ctx);
    } else if Error !in FeedUnits(Ready, src).1 && FeedUnits(Ready, src).0 == Ready {
      NoErrorMeansPaired(src);
    }
  }

  // Emission.

  /** The 16-bit units handed to the output callback for one codepoint. */
  function EmitAsWchar(cp: bv32): (units: seq<bv16>) {
    if cp > 0xffff then [EmitHigh(cp), EmitLow(cp)] else [(cp & 0xffff) as bv16]
  }

  function EmitHigh(cp: bv32): (u: bv16) {
    ((0xd800 + ((cp - 0x10000) >> 10)) & 0xffff) as bv16
  }

  function EmitLow(cp: bv32): (u: bv16) {
    (0xdc00 + ((cp - 0x10000) & 0x3ff)) as bv16
  }

  lemma EmitHighIs(cp: bv32)
    ensures EmitHigh(cp) == Utf16.HighOf(cp)
  {
  }

  lemma EmitLowIs(cp: bv32)
    ensures EmitLow(cp) == Utf16.LowOf(cp)
  {
  }

  /** The shifts and masks of the emitter compute the divisions of the batch encoder. */
  lemma EmitMatchesEncode(cp: bv32)
    ensures EmitAsWchar(cp) == Utf16.Encode(cp)
  {
    EmitHighIs(cp);
    EmitLowIs(cp);
    hide EmitHigh, EmitLow, Utf16.HighOf, Utf16.LowOf;
  }

  /** Streaming well-formed UTF-8 into 16-bit output produces the UTF-16 text of the batch converter. */
  lemma {:induction false} StreamToWchar(cps: seq<bv32>)
    requires AllScalars(cps)
    ensures var outs := FeedAll(ByteState([], 0), EncodeAll(Utf8.Encode, cps)).1;
            EncodeAll(EmitAsWchar, Emitted(outs)) == EncodeAll(Utf16.Encode, cps)
  {
    StreamResynchronises(ByteState([], 0), cps);
    EmitAllMatches(cps);
  }

  lemma {:induction false} EmitAllMatches(cps: seq<bv32>)
    ensures EncodeAll(EmitAsWchar, cps) == EncodeAll(Utf16.Encode, cps)
  {
    if cps != [] {
      EmitMatchesEncode(cps[0]);
      EmitAllMatches(cps[1..]);
    }
  }
}
