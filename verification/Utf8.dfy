/** The UTF-8 codec: section 3 of RFC 3629 as the library decodes and writes it. */
module Utf8 {
  import opened Codec

  function FirstByteToLen(ch: bv8): (n: nat) {
    if ch <= 0x7f then 1
    else if ch & 0xe0 == 0xc0 then 2
    else if ch & 0xf0 == 0xe0 then 3
    else if ch & 0xf8 == 0xf0 then 4
    else 0
  }

  predicate Later(ch: bv8) {
    ch & 0xc0 == 0x80
  }

  // The bit layouts: `ValueN` assembles a codepoint from N bytes, `FirstOfN` and the three `Later`
  // bytes take it apart again.

  function Value2(a: bv8, b: bv8): (cp: bv32) {
    (((a & 0x1f) as bv32) << 6) | ((b & 0x3f) as bv32)
  }

  function Value3(a: bv8, b: bv8, c: bv8): (cp: bv32) {
    (((a & 0x0f) as bv32) << 12) | (((b & 0x3f) as bv32) << 6) | ((c & 0x3f) as bv32)
  }

  function Value4(a: bv8, b: bv8, c: bv8, d: bv8): (cp: bv32) {
    (((a & 0x07) as bv32) << 18) | (((b & 0x3f) as bv32) << 12) | (((c & 0x3f) as bv32) << 6) | ((d & 0x3f) as bv32)
  }

  function FirstOf1(cp: bv32): (b: bv8) { (cp & 0x7f) as bv8 }
  function FirstOf2(cp: bv32): (b: bv8) { 0xc0 | (((cp >> 6) & 0x1f) as bv8) }
  function FirstOf3(cp: bv32): (b: bv8) { 0xe0 | (((cp >> 12) & 0x0f) as bv8) }
  function FirstOf4(cp: bv32): (b: bv8) { 0xf0 | (((cp >> 18) & 0x07) as bv8) }
  function Later12(cp: bv32): (b: bv8) { 0x80 | (((cp >> 12) & 0x3f) as bv8) }
  function Later6(cp: bv32): (b: bv8) { 0x80 | (((cp >> 6) & 0x3f) as bv8) }
  function Later0(cp: bv32): (b: bv8) { 0x80 | ((cp & 0x3f) as bv8) }

  predicate Overlong2(a: bv8) { a & 0x1e == 0 }
  predicate Overlong3(a: bv8, b: bv8) { a == 0xe0 && b & 0x20 == 0 }
  predicate Overlong4(a: bv8, b: bv8) { (a & 0x07) + (b & 0x30) == 0 }

  /** The value of a complete sequence of `FirstByteToLen(buf[0])` bytes, or `Bad`. */
  function DecodeSequence(buf: seq<bv8>): (d: Decoded) {
    if |buf| == 1 then Checked(buf[0] as bv32, 1)
    else if |buf| == 2 then
      if !Later(buf[1]) || Overlong2(buf[0]) then Bad else Checked(Value2(buf[0], buf[1]), 2)
    else if |buf| == 3 then
      if !Later(buf[1]) || !Later(buf[2]) || Overlong3(buf[0], buf[1]) then Bad
      else Checked(Value3(buf[0], buf[1], buf[2]), 3)
    else if |buf| == 4 then
      if !Later(buf[1]) || !Later(buf[2]) || !Later(buf[3]) || Overlong4(buf[0], buf[1]) then Bad
      else Checked(Value4(buf[0], buf[1], buf[2], buf[3]), 4)
    else Bad
  }

  /** One step of the batch decoder at the front of `src`. */
  function Decode(src: seq<bv8>): (d: Decoded) {
    if src == [] then Bad
    else
      var len := FirstByteToLen(src[0]);
      if len == 0 || len > |src| then Bad else DecodeSequence(src[..len])
  }

  function EncodedLen(cp: bv32): (n: nat) {
    if cp < 0x80 then 1 else if cp < 0x800 then 2 else if cp < 0x10000 then 3 else 4
  }

  function Encode(cp: bv32): (s: seq<bv8>)
    ensures |s| == EncodedLen(cp)
  {
    if cp < 0x80 then [FirstOf1(cp)]
    else if cp < 0x800 then [FirstOf2(cp), Later0(cp)]
    else if cp < 0x10000 then [FirstOf3(cp), Later6(cp), Later0(cp)]
    else [FirstOf4(cp), Later12(cp), Later6(cp), Later0(cp)]
  }

  // Each layout is a bijection between its codepoints and the byte strings the decoder accepts.

  lemma Read1(a: bv8)
    requires a <= 0x7f
    ensures (a as bv32) < 0x80 && FirstOf1(a as bv32) == a
  {
  }

  lemma Read2(a: bv8, b: bv8)
    requires a & 0xe0 == 0xc0 && Later(b) && !Overlong2(a)
    ensures 0x80 <= Value2(a, b) < 0x800
    ensures FirstOf2(Value2(a, b)) == a && Later0(Value2(a, b)) == b
  {
  }

  lemma Read3(a: bv8, b: bv8, c: bv8)
    requires a & 0xf0 == 0xe0 && Later(b) && Later(c) && !Overlong3(a, b)
    ensures 0x800 <= Value3(a, b, c) < 0x10000
    ensures FirstOf3(Value3(a, b, c)) == a && Later6(Value3(a, b, c)) == b && Later0(Value3(a, b, c)) == c
  {
  }

  lemma Read4(a: bv8, b: bv8, c: bv8, d: bv8)
    requires a & 0xf8 == 0xf0 && Later(b) && Later(c) && Later(d) && !Overlong4(a, b)
    ensures 0x10000 <= Value4(a, b, c, d)
    ensures FirstOf4(Value4(a, b, c, d)) == a && Later12(Value4(a, b, c, d)) == b
    ensures Later6(Value4(a, b, c, d)) == c && Later0(Value4(a, b, c, d)) == d
  {
  }

  lemma Write1(cp: bv32)
    requires cp < 0x80
    ensures FirstOf1(cp) <= 0x7f && FirstOf1(cp) as bv32 == cp
  {
  }

  lemma Write2(cp: bv32)
    requires 0x80 <= cp < 0x800
    ensures FirstOf2(cp) > 0x7f && FirstOf2(cp) & 0xe0 == 0xc0 && Later(Later0(cp)) && !Overlong2(FirstOf2(cp))
    ensures Value2(FirstOf2(cp), Later0(cp)) == cp
  {
  }

  lemma Write3(cp: bv32)
    requires 0x800 <= cp < 0x10000
    ensures FirstOf3(cp) > 0x7f && FirstOf3(cp) & 0xe0 != 0xc0 && FirstOf3(cp) & 0xf0 == 0xe0
    ensures Later(Later6(cp)) && Later(Later0(cp)) && !Overlong3(FirstOf3(cp), Later6(cp))
  {
  }

  lemma Write3Value(cp: bv32)
    requires 0x800 <= cp < 0x10000
    ensures Value3(FirstOf3(cp), Later6(cp), Later0(cp)) == cp
  {
  }

  lemma Write4(cp: bv32)
    requires 0x10000 <= cp <= 0x10ffff
    ensures FirstOf4(cp) > 0x7f && FirstOf4(cp) & 0xe0 != 0xc0 && FirstOf4(cp) & 0xf0 != 0xe0
    ensures FirstOf4(cp) & 0xf8 == 0xf0
    ensures Later(Later12(cp)) && Later(Later6(cp)) && Later(Later0(cp))
    ensures !Overlong4(FirstOf4(cp), Later12(cp))
  {
  }

  lemma Write4Value(cp: bv32)
    requires 0x10000 <= cp <= 0x10ffff
    ensures Value4(FirstOf4(cp), Later12(cp), Later6(cp), Later0(cp)) == cp
  {
  }

  lemma DecodeEncode(cp: bv32)
    requires !InvalidCodepoint(cp)
    ensures FirstByteToLen(Encode(cp)[0]) == EncodedLen(cp)
    ensures DecodeSequence(Encode(cp)) == Good(cp, EncodedLen(cp))
  {
    if cp < 0x80 {
      Write1(cp);
    } else if cp < 0x800 {
      Write2(cp);
    } else if cp < 0x10000 {
      Write3(cp);
      Write3Value(cp);
    } else {
      Write4(cp);
      Write4Value(cp);
    }
    hide FirstOf1, FirstOf2, FirstOf3, FirstOf4, Later12, Later6, Later0, Value2, Value3, Value4;
    hide Later, Overlong2, Overlong3, Overlong4;
  }

  lemma EncodeDecode(buf: seq<bv8>)
    requires buf != [] && |buf| == FirstByteToLen(buf[0]) && DecodeSequence(buf).Good?
    ensures !InvalidCodepoint(DecodeSequence(buf).cp) && DecodeSequence(buf).len == |buf|
    ensures Encode(DecodeSequence(buf).cp) == buf
  {
    if |buf| == 1 {
      Read1(buf[0]);
    } else if |buf| == 2 {
      Read2(buf[0], buf[1]);
    } else if |buf| == 3 {
      Read3(buf[0], buf[1], buf[2]);
    } else {
      Read4(buf[0], buf[1], buf[2], buf[3]);
    }
    hide FirstOf1, FirstOf2, FirstOf3, FirstOf4, Later12, Later6, Later0, Value2, Value3, Value4;
    hide Later, Overlong2, Overlong3, Overlong4;
  }

  /** UTF-8 is a codec: the decoder accepts exactly what the writer produces for scalar values. */
  lemma Utf8IsCodec()
    ensures IsCodec(Decode, Encode)
  {
    forall cp, tail
      ensures ReadsBack(Decode, Encode, cp, tail)
    {
      if !InvalidCodepoint(cp) {
        DecodeEncode(cp);
        assert (Encode(cp) + tail)[..|Encode(cp)|] == Encode(cp);
        assert (Encode(cp) + tail)[0] == Encode(cp)[0];
      }
    }
    forall s
      ensures AcceptsOnly(Decode, Encode, s)
    {
      if Decode(s).Good? {
        EncodeDecode(s[..FirstByteToLen(s[0])]);
      }
    }
  }

  /** The body of the decoding loop before the callback: one codepoint at `src[i]`. */
  method DecodeAt(src: seq<bv8>, i: nat) returns (d: Decoded)
    requires i < |src|
    ensures d == Decode(src[i..])
  {
    hide Later, Overlong2, Overlong3, Overlong4, Value2, Value3, Value4, InvalidCodepoint;
    var chLen := FirstByteToLen(src[i]);
    if chLen == 0 || i + chLen > |src| {
      return Bad;
    }
    ghost var s := src[i..];
    assert s[..chLen] == src[i..i + chLen];
    var codepoint := 0;
    if chLen == 1 {
      codepoint := src[i] as bv32;
    } else if chLen == 2 {
      if !Later(src[i + 1]) || Overlong2(src[i]) {
        return Bad;
      }
      codepoint := Value2(src[i], src[i + 1]);
    } else if chLen == 3 {
      if !Later(src[i + 1]) || !Later(src[i + 2]) || Overlong3(src[i], src[i + 1]) {
        return Bad;
      }
      codepoint := Value3(src[i], src[i + 1], src[i + 2]);
    } else {
      if !Later(src[i + 1]) || !Later(src[i + 2]) || !Later(src[i + 3]) || Overlong4(src[i], src[i + 1]) {
        return Bad;
      }
      codepoint := Value4(src[i], src[i + 1], src[i + 2], src[i + 3]);
    }
    if InvalidCodepoint(codepoint) {
      return Bad;
    }
    d := Good(codepoint, chLen);
  }

  /** Whether a callback that never stops gets the whole input is decided by the input alone. */
  lemma Accepts<S(!new)>(fn: Callback<S>, ctx: S, src: seq<bv8>)
    requires Continues(fn) && src != []
    ensures TakesEncodings(Encode, src, Batch(Decode, fn, ctx, src).Returned())
  {
    Utf8IsCodec();
    hide *;
    ContinuingAccepts(Decode, Encode, fn, ctx, src);
  }

  /** The codepoints delivered for an accepted input are the scalars that it encodes. */
  lemma Delivers(src: seq<bv8>)
    requires src != []
    ensures var b := Batch(Decode, Record, [], src);
            && TakesEncodings(Encode, src, b.Returned())
            && (b.Returned() == |src| ==> IsEncodingOf(Encode, src, b.ctx))
  {
    Utf8IsCodec();
    AcceptsExactly(Decode, Encode, src);
    hide IsCodec, Batch, Decode, Encode, IsEncodingOf;
  }

  /**
   The batch decoder: returns the number of bytes the callback took, or zero on malformed input.  A callback
   that never stops gets all of the input iff that is well-formed UTF-8.
   */
  method Utf8ToCodepoint<S(!new)>(fn: Callback<S>, ctx: S, src: seq<bv8>) returns (units: nat, last: S)
    ensures units == Batch(Decode, fn, ctx, src).Returned() && last == Batch(Decode, fn, ctx, src).ctx
    ensures src != [] && Continues(fn) ==> TakesEncodings(Encode, src, units)
  {
    hide Batch, Decode, TakesEncodings, Continues;
    if src != [] && Continues(fn) {
      Accepts(fn, ctx, src);
    }
    var i := 0;
    last := ctx;
    assert src[i..] == src;
    while i < |src|
      invariant i <= |src|
      invariant Batch(Decode, fn, ctx, src) == After(i, Batch(Decode, fn, last, src[i..]))
    {
      BatchUnfolds(Decode, fn, last, src[i..]);
      DecodedLength(src[i..]);
      var d := DecodeAt(src, i);
      if d.Bad? {
        return 0, last;
      }
      var (r, next) := fn(d.cp, last);
      last := next;
      assert src[i..][d.len..] == src[i + d.len..];
      if r != Abort {
        i := i + d.len;
      }
      if r != Continue {
        return i, last;
      }
    }
    BatchEnds(Decode, fn, last, src[i..]);
    units := i;
  }

  lemma DecodedLength(src: seq<bv8>)
    ensures Decode(src).Good? ==> 0 < Decode(src).len <= |src|
  {
  }
}
