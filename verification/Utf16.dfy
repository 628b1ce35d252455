/** The UTF-16 codec: sections 2.1 and 2.2 of RFC 2781 as the library decodes and writes it. */
module Utf16 {
  import opened Codec

  predicate SurrogateHigh(ch: bv16) {
    0xd800 <= ch && ch < 0xdc00
  }

  predicate SurrogateLow(ch: bv16) {
    0xdc00 <= ch && ch < 0xe000
  }

  function PairValue(high: bv16, low: bv16): (cp: bv32) {
    0x10000 + ((high as bv32) - 0xd800) * 0x400 + ((low as bv32) - 0xdc00)
  }

  function Widened(u: bv16): (cp: bv32) {
    u as bv32
  }

  /** One step of the batch decoder at the front of `src`. */
  function Decode(src: seq<bv16>): (d: Decoded) {
    if src == [] then Bad
    else if SurrogateHigh(src[0]) then
      if 2 > |src| || !SurrogateLow(src[1]) then Bad else Checked(PairValue(src[0], src[1]), 2)
    else Checked(Widened(src[0]), 1)
  }

  function HighOf(cp: bv32): (u: bv16) {
    ((((cp - 0x10000) / 0x400 + 0xd800) & 0xffff) as bv16)
  }

  function LowOf(cp: bv32): (u: bv16) {
    ((((cp - 0x10000) % 0x400 + 0xdc00) & 0xffff) as bv16)
  }

  function Single(cp: bv32): (u: bv16) {
    (cp & 0xffff) as bv16
  }

  function EncodedLen(cp: bv32): (n: nat) {
    if cp > 0xffff then 2 else 1
  }

  function Encode(cp: bv32): (s: seq<bv16>)
    ensures |s| == EncodedLen(cp)
  {
    if cp > 0xffff then [HighOf(cp), LowOf(cp)] else [Single(cp)]
  }

  lemma ReadPair(high: bv16, low: bv16)
    requires SurrogateHigh(high) && SurrogateLow(low)
    ensures 0xffff < PairValue(high, low) <= 0x10ffff
    ensures HighOf(PairValue(high, low)) == high && LowOf(PairValue(high, low)) == low
  {
  }

  lemma ReadSingle(u: bv16)
    requires !SurrogateHigh(u) && !InvalidCodepoint(Widened(u))
    ensures Widened(u) <= 0xffff && Single(Widened(u)) == u
  {
  }

  lemma WritePair(cp: bv32)
    requires 0xffff < cp <= 0x10ffff
    ensures SurrogateHigh(HighOf(cp)) && SurrogateLow(LowOf(cp))
  {
  }

  lemma WritePairValue(cp: bv32)
    requires 0xffff < cp <= 0x10ffff
    ensures PairValue(HighOf(cp), LowOf(cp)) == cp
  {
    var d := cp - 0x10000;
    assert HighOf(cp) as bv32 == d / 0x400 + 0xd800;
    assert LowOf(cp) as bv32 == d % 0x400 + 0xdc00;
  }

  lemma WriteSingle(cp: bv32)
    requires cp <= 0xffff
    ensures Widened(Single(cp)) == cp
  {
  }

  lemma WriteSingleIsNoSurrogate(cp: bv32)
    requires cp <= 0xffff && !InvalidCodepoint(cp)
    ensures !SurrogateHigh(Single(cp)) && !SurrogateLow(Single(cp))
  {
  }

  lemma DecodeEncode(cp: bv32, tail: seq<bv16>)
    requires !InvalidCodepoint(cp)
    ensures Decode(Encode(cp) + tail) == Good(cp, EncodedLen(cp))
  {
    if cp > 0xffff {
      WritePair(cp);
      WritePairValue(cp);
    } else {
      WriteSingle(cp);
      WriteSingleIsNoSurrogate(cp);
    }
    hide HighOf, LowOf, Single, PairValue, SurrogateHigh, SurrogateLow, Widened;
  }

  lemma EncodeDecode(src: seq<bv16>)
    requires Decode(src).Good?
    ensures AcceptsOnly(Decode, Encode, src)
  {
    if SurrogateHigh(src[0]) {
      ReadPair(src[0], src[1]);
    } else {
      ReadSingle(src[0]);
    }
    hide HighOf, LowOf, Single, PairValue, SurrogateHigh, SurrogateLow, Widened;
  }

  /** UTF-16 is a codec: unpaired surrogates are rejected and every scalar value has one encoding. */
  lemma Utf16IsCodec()
    ensures IsCodec(Decode, Encode)
  {
    hide Decode, Encode;
    forall cp, tail
      ensures ReadsBack(Decode, Encode, cp, tail)
    {
      if !InvalidCodepoint(cp) {
        DecodeEncode(cp, tail);
      }
    }
    forall s
      ensures AcceptsOnly(Decode, Encode, s)
    {
      if Decode(s).Good? {
        EncodeDecode(s);
      }
    }
  }

  /** The body of the decoding loop before the callback: one codepoint at `src[i]`. */
  method DecodeAt(src: seq<bv16>, i: nat) returns (d: Decoded)
    requires i < |src|
    ensures d == Decode(src[i..])
  {
    hide SurrogateHigh, SurrogateLow, PairValue, InvalidCodepoint, Widened;
    ghost var s := src[i..];
    assert s[0] == src[i] && (i + 1 < |src| ==> s[1] == src[i + 1]);
    var codepoint := 0;
    var len := 1;
    if SurrogateHigh(src[i]) {
      if i + 2 > |src| || !SurrogateLow(src[i + 1]) {
        return Bad;
      }
      codepoint := PairValue(src[i], src[i + 1]);
      len := 2;
    } else {
      codepoint := Widened(src[i]);
    }
    if InvalidCodepoint(codepoint) {
      return Bad;
    }
    d := Good(codepoint, len);
  }

  /** The batch decoder advances by what the codepoint tells, not by what was read; both agree. */
  lemma AdvanceMatches(src: seq<bv16>)
    requires Decode(src).Good?
    ensures Decode(src).len == EncodedLen(Decode(src).cp) && 0 < Decode(src).len <= |src|
  {
    if SurrogateHigh(src[0]) {
      ReadPair(src[0], src[1]);
    } else {
      ReadSingle(src[0]);
    }
    hide HighOf, LowOf, Single, PairValue, SurrogateHigh, SurrogateLow, Widened;
  }

  /** Whether a callback that never stops gets the whole input is decided by the input alone. */
  lemma Accepts<S(!new)>(fn: Callback<S>, ctx: S, src: seq<bv16>)
    requires Continues(fn) && src != []
    ensures TakesEncodings(Encode, src, Batch(Decode, fn, ctx, src).Returned())
  {
    Utf16IsCodec();
    hide *;
    ContinuingAccepts(Decode, Encode, fn, ctx, src);
  }

  /** The codepoints delivered for an accepted input are the scalars that it encodes. */
  lemma Delivers(src: seq<bv16>)
    requires src != []
    ensures var b := Batch(Decode, Record, [], src);
            && TakesEncodings(Encode, src, b.Returned())
            && (b.Returned() == |src| ==> IsEncodingOf(Encode, src, b.ctx))
  {
    Utf16IsCodec();
    AcceptsExactly(Decode, Encode, src);
    hide IsCodec, Batch, Decode, Encode, IsEncodingOf;
  }

  /**
   The batch decoder: returns the number of units the callback took, or zero on malformed input.  A callback
   that never stops gets all of the input iff that is well-formed UTF-16.
   */
  method Char16ToCodepoint<S(!new)>(fn: Callback<S>, ctx: S, src: seq<bv16>) returns (units: nat, last: S)
    ensures units == Batch(Decode, fn, ctx, src).Returned() && last == Batch(Decode, fn, ctx, src).ctx
    ensures src != [] && Continues(fn) ==> TakesEncodings(Encode, src, units)
  {
    hide Batch, Decode, TakesEncodings, Continues;
    if src != [] && Continues(fn) {
      Accepts(fn, ctx, src);
    }
    var i := 0;
    last := ctx;
    assert src[i..] == src;
    while i < |src|
      invariant i <= |src|
      invariant Batch(Decode, fn, ctx, src) == After(i, Batch(Decode, fn, last, src[i..]))
    {
      BatchUnfolds(Decode, fn, last, src[i..]);
      var d := DecodeAt(src, i);
      if d.Bad? {
        return 0, last;
      }
      AdvanceMatches(src[i..]);
      var (r, next) := fn(d.cp, last);
      last := next;
      assert src[i..][d.len..] == src[i + d.len..];
      if r != Abort {
        i := i + if d.cp > 0xffff then 2 else 1;
      }
      if r != Continue {
        return i, last;
      }
    }
    BatchEnds(Decode, fn, last, src[i..]);
    units := i;
  }
}
