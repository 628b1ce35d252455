/**
 The two encoding forms as tables of integer ranges: section 4 of RFC 3629 for UTF-8, sections 2.1 and 2.2
 of RFC 2781 for UTF-16.  A row says which units it matches and which number they stand for.
 */
module EncodingTables {
  import opened Codec
  import Utf8
  import Utf16

  function Number8(x: bv8): (n: int) { x as int }
  function Number16(x: bv16): (n: int) { x as int }
  function Number32(x: bv32): (n: int) { x as int }

  /** The unit `i` as a number. */
  function Byte(s: seq<bv8>, i: nat): (b: int)
    requires i < |s|
  {
    Number8(s[i])
  }

  predicate IsTail(b: int) {
    0x80 <= b <= 0xBF
  }

  predicate Row1(s: seq<bv8>) {
    |s| >= 1 && Byte(s, 0) <= 0x7F
  }

  predicate Row2(s: seq<bv8>) {
    |s| >= 2 && 0xC2 <= Byte(s, 0) <= 0xDF && IsTail(Byte(s, 1))
  }

  predicate Row3(s: seq<bv8>) {
    && |s| >= 3 && IsTail(Byte(s, 2))
    && (|| (Byte(s, 0) == 0xE0 && 0xA0 <= Byte(s, 1) <= 0xBF)
        || (0xE1 <= Byte(s, 0) <= 0xEC && IsTail(Byte(s, 1)))
        || (Byte(s, 0) == 0xED && 0x80 <= Byte(s, 1) <= 0x9F)
        || (0xEE <= Byte(s, 0) <= 0xEF && IsTail(Byte(s, 1))))
  }

  predicate Row4(s: seq<bv8>) {
    && |s| >= 4 && IsTail(Byte(s, 2)) && IsTail(Byte(s, 3))
    && (|| (Byte(s, 0) == 0xF0 && 0x90 <= Byte(s, 1) <= 0xBF)
        || (0xF1 <= Byte(s, 0) <= 0xF3 && IsTail(Byte(s, 1)))
        || (Byte(s, 0) == 0xF4 && 0x80 <= Byte(s, 1) <= 0x8F))
  }

  function Number2(s: seq<bv8>): (n: int)
    requires |s| >= 2
  {
    (Byte(s, 0) - 0xC0) * 64 + (Byte(s, 1) - 0x80)
  }

  function Number3(s: seq<bv8>): (n: int)
    requires |s| >= 3
  {
    (Byte(s, 0) - 0xE0) * 4096 + (Byte(s, 1) - 0x80) * 64 + (Byte(s, 2) - 0x80)
  }

  function Number4(s: seq<bv8>): (n: int)
    requires |s| >= 4
  {
    (Byte(s, 0) - 0xF0) * 262144 + (Byte(s, 1) - 0x80) * 4096 + (Byte(s, 2) - 0x80) * 64 + (Byte(s, 3) - 0x80)
  }

  // The bit operations of the decoder on numbers.  Sums are stated on the written-out bits first.

  lemma FirstByteRanges(a: bv8)
    ensures Utf8.FirstByteToLen(a) ==
            if Number8(a) <= 0x7F then 1
            else if 0xC0 <= Number8(a) <= 0xDF then 2
            else if 0xE0 <= Number8(a) <= 0xEF then 3
            else if 0xF0 <= Number8(a) <= 0xF7 then 4
            else 0
    ensures 0 <= Number8(a)
  {
  }

  lemma LaterRange(b: bv8)
    ensures Utf8.Later(b) <==> IsTail(Number8(b))
  {
  }

  lemma OverlongRanges(a: bv8, b: bv8)
    requires IsTail(Number8(b))
    ensures 0xC0 <= Number8(a) <= 0xDF ==> (Utf8.Overlong2(a) <==> Number8(a) < 0xC2)
    ensures Utf8.Overlong3(a, b) <==> Number8(a) == 0xE0 && Number8(b) < 0xA0
    ensures 0xF0 <= Number8(a) <= 0xF7 ==> (Utf8.Overlong4(a, b) <==> Number8(a) == 0xF0 && Number8(b) < 0x90)
  {
  }

  function Low5(x: bv8): (n: int) { (x & 0x1f) as int }
  function Low4(x: bv8): (n: int) { (x & 0x0f) as int }
  function Low3(x: bv8): (n: int) { (x & 0x07) as int }
  function Low6(x: bv8): (n: int) { (x & 0x3f) as int }

  lemma LowBits(a: bv8)
    ensures 0xC0 <= Number8(a) <= 0xDF ==> Low5(a) == Number8(a) - 0xC0
    ensures 0xE0 <= Number8(a) <= 0xEF ==> Low4(a) == Number8(a) - 0xE0
    ensures 0xF0 <= Number8(a) <= 0xF7 ==> Low3(a) == Number8(a) - 0xF0
    ensures IsTail(Number8(a)) ==> Low6(a) == Number8(a) - 0x80
  {
  }

  lemma Sum2(a: bv8, b: bv8)
    ensures ((((a & 0x1f) as bv32) << 6) | ((b & 0x3f) as bv32)) as int == (a & 0x1f) as int * 64 + (b & 0x3f) as int
  {
  }

  lemma Sum3(a: bv8, b: bv8, c: bv8)
    ensures ((((a & 0x0f) as bv32) << 12) | (((b & 0x3f) as bv32) << 6) | ((c & 0x3f) as bv32)) as int ==
            (a & 0x0f) as int * 4096 + (b & 0x3f) as int * 64 + (c & 0x3f) as int
  {
  }

  lemma Sum4(a: bv8, b: bv8, c: bv8, d: bv8)
    ensures ((((a & 0x07) as bv32) << 18) | (((b & 0x3f) as bv32) << 12)
             | (((c & 0x3f) as bv32) << 6) | ((d & 0x3f) as bv32)) as int ==
            (a & 0x07) as int * 262144 + (b & 0x3f) as int * 4096 + (c & 0x3f) as int * 64 + (d & 0x3f) as int
  {
  }

  lemma ValueSums(a: bv8, b: bv8, c: bv8, d: bv8)
    ensures Number32(Utf8.Value2(a, b)) == Low5(a) * 64 + Low6(b)
    ensures Number32(Utf8.Value3(a, b, c)) == Low4(a) * 4096 + Low6(b) * 64 + Low6(c)
    ensures Number32(Utf8.Value4(a, b, c, d)) == Low3(a) * 262144 + Low6(b) * 4096 + Low6(c) * 64 + Low6(d)
  {
    Sum2(a, b);
    Sum3(a, b, c);
    Sum4(a, b, c, d);
  }

  lemma ScalarRange(cp: bv32)
    ensures InvalidCodepoint(cp) <==> Number32(cp) > 0x10FFFF || 0xD800 <= Number32(cp) < 0xE000
  {
  }

  lemma WidenedBits(a: bv8, u: bv16)
    ensures (a as bv32) as int == a as int && (u as bv32) as int == u as int
  {
  }

  lemma SameNumber(a: bv8, u: bv16)
    ensures Number32(a as bv32) == Number8(a) && Number32(Utf16.Widened(u)) == Number16(u)
  {
    WidenedBits(a, u);
  }

  /** `d` is a decoded codepoint of `len` units with the given number. */
  predicate Reads(d: Decoded, number: int, len: nat) {
    d.Good? && Number32(d.cp) == number && d.len == len
  }

  lemma Decodes1(s: seq<bv8>)
    requires s != [] && Byte(s, 0) <= 0x7F
    ensures Row1(s) && Reads(Utf8.Decode(s), Byte(s, 0), 1)
  {
    FirstByteRanges(s[0]);
    SameNumber(s[0], 0);
    ScalarRange(s[0] as bv32);
    hide Number8, Number32, Utf8.FirstByteToLen, InvalidCodepoint;
    assert s[..1] == [s[0]];
  }

  lemma Decodes2(s: seq<bv8>)
    requires |s| >= 2 && 0xC0 <= Byte(s, 0) <= 0xDF
    ensures Row2(s) ==> Reads(Utf8.Decode(s), Number2(s), 2)
    ensures !Row2(s) ==> Utf8.Decode(s).Bad?
  {
    hide Number8, Number32, Low5, Low6;
    hide Utf8.FirstByteToLen, InvalidCodepoint, Utf8.Later, Utf8.Overlong2, Utf8.Value2;
    FirstByteRanges(s[0]);
    LaterRange(s[1]);
    if IsTail(Byte(s, 1)) {
      OverlongRanges(s[0], s[1]);
      ValueSums(s[0], s[1], 0, 0);
      LowBits(s[0]);
      LowBits(s[1]);
      ScalarRange(Utf8.Value2(s[0], s[1]));
    }
    assert s[..2] == [s[0], s[1]];
  }

  lemma Decodes3(s: seq<bv8>)
    requires |s| >= 3 && 0xE0 <= Byte(s, 0) <= 0xEF
    ensures Row3(s) ==> Reads(Utf8.Decode(s), Number3(s), 3)
    ensures !Row3(s) ==> Utf8.Decode(s).Bad?
  {
    hide Number8, Number32, Low4, Low6;
    hide Utf8.FirstByteToLen, InvalidCodepoint, Utf8.Later, Utf8.Overlong3, Utf8.Value3;
    FirstByteRanges(s[0]);
    LaterRange(s[1]);
    LaterRange(s[2]);
    if IsTail(Byte(s, 1)) && IsTail(Byte(s, 2)) {
      OverlongRanges(s[0], s[1]);
      ValueSums(s[0], s[1], s[2], 0);
      LowBits(s[0]);
      LowBits(s[1]);
      LowBits(s[2]);
      ScalarRange(Utf8.Value3(s[0], s[1], s[2]));
    }
    assert s[..3] == [s[0], s[1], s[2]];
  }

  lemma Decodes4(s: seq<bv8>)
    requires |s| >= 4 && 0xF0 <= Byte(s, 0) <= 0xF7
    ensures Row4(s) ==> Reads(Utf8.Decode(s), Number4(s), 4)
    ensures !Row4(s) ==> Utf8.Decode(s).Bad?
  {
    hide Number8, Number32, Low3, Low6;
    hide Utf8.FirstByteToLen, InvalidCodepoint, Utf8.Later, Utf8.Overlong4, Utf8.Value4;
    FirstByteRanges(s[0]);
    LaterRange(s[1]);
    LaterRange(s[2]);
    LaterRange(s[3]);
    if IsTail(Byte(s, 1)) && IsTail(Byte(s, 2)) && IsTail(Byte(s, 3)) {
      OverlongRanges(s[0], s[1]);
      ValueSums(s[0], s[1], s[2], s[3]);
      LowBits(s[0]);
      LowBits(s[1]);
      LowBits(s[2]);
      LowBits(s[3]);
      ScalarRange(Utf8.Value4(s[0], s[1], s[2], s[3]));
    }
    assert s[..4] == [s[0], s[1], s[2], s[3]];
  }

  /** The UTF-8 decoder accepts exactly the rows of the table, with their numbers. */
  lemma Utf8Table(s: seq<bv8>)
    ensures Utf8.Decode(s).Good? <==> Row1(s) || Row2(s) || Row3(s) || Row4(s)
    ensures Row1(s) ==> Reads(Utf8.Decode(s), Byte(s, 0), 1)
    ensures Row2(s) ==> Reads(Utf8.Decode(s), Number2(s), 2)
    ensures Row3(s) ==> Reads(Utf8.Decode(s), Number3(s), 3)
    ensures Row4(s) ==> Reads(Utf8.Decode(s), Number4(s), 4)
  {
    hide Number8, Number32;
    if s != [] {
      FirstByteRanges(s[0]);
      var len := Utf8.FirstByteToLen(s[0]);
      if 0 < len <= |s| {
        if len == 1 {
          Decodes1(s);
        } else if len == 2 {
          Decodes2(s);
        } else if len == 3 {
          Decodes3(s);
        } else {
          Decodes4(s);
        }
        hide Utf8.Decode;
      }
      hide Utf8.FirstByteToLen, Utf8.DecodeSequence, Number2, Number3, Number4;
    }
  }

  /** The length of the row that matches the front of `s`, 0 for none. */
  function RowLength(s: seq<bv8>): (n: nat) {
    if Row1(s) then 1 else if Row2(s) then 2 else if Row3(s) then 3 else if Row4(s) then 4 else 0
  }

  /** The bytes are one row of the table after another. */
  predicate Tabled(s: seq<bv8>) {
    s == [] || (0 < RowLength(s) <= |s| && Tabled(s[RowLength(s)..]))
  }

  lemma {:induction false} TabledIffWellFormed(s: seq<bv8>)
    ensures Tabled(s) <==> WellFormed(Utf8.Decode, s)
    decreases |s|
  {
    if s != [] {
      Utf8Table(s);
      hide Utf8.Decode, Number2, Number3, Number4, Number8, Number32;
      if RowLength(s) > 0 {
        TabledIffWellFormed(s[RowLength(s)..]);
      }
    }
  }

  /** The batch decoder takes all of a non-empty byte string from a callback that never stops iff it is tabled. */
  lemma Utf8AcceptsTable<S(!new)>(fn: Callback<S>, ctx: S, src: seq<bv8>)
    requires Continues(fn) && src != []
    ensures Batch(Utf8.Decode, fn, ctx, src).Returned() == if Tabled(src) then |src| else 0
  {
    Utf8.Accepts(fn, ctx, src);
    TabledIffWellFormed(src);
    Utf8.Utf8IsCodec();
    WellFormedIff(Utf8.Decode, Utf8.Encode, src);
    hide Batch, IsCodec, WellFormed, Tabled, IsEncodingOf;
  }

  // UTF-16.

  function Unit(s: seq<bv16>, i: nat): (u: int)
    requires i < |s|
  {
    Number16(s[i])
  }

  predicate SingleRow(s: seq<bv16>) {
    |s| >= 1 && (Unit(s, 0) < 0xD800 || 0xE000 <= Unit(s, 0))
  }

  predicate PairRow(s: seq<bv16>) {
    |s| >= 2 && 0xD800 <= Unit(s, 0) <= 0xDBFF && 0xDC00 <= Unit(s, 1) <= 0xDFFF
  }

  function PairNumber(s: seq<bv16>): (n: int)
    requires |s| >= 2
  {
    0x10000 + (Unit(s, 0) - 0xD800) * 0x400 + (Unit(s, 1) - 0xDC00)
  }

  lemma SurrogateRanges(u: bv16)
    ensures Utf16.SurrogateHigh(u) <==> 0xD800 <= Number16(u) <= 0xDBFF
    ensures Utf16.SurrogateLow(u) <==> 0xDC00 <= Number16(u) <= 0xDFFF
  {
  }

  function Low10(u: bv16): (n: int) { (u & 0x3ff) as int }

  lemma SurrogateBits(u: bv16)
    ensures 0xD800 <= Number16(u) <= 0xDBFF ==> Low10(u) == Number16(u) - 0xD800
    ensures 0xDC00 <= Number16(u) <= 0xDFFF ==> Low10(u) == Number16(u) - 0xDC00
  {
  }

  function Payload(high: bv16, low: bv16): (v: bv32) {
    (((high & 0x3ff) as bv32) << 10) | ((low & 0x3ff) as bv32)
  }

  lemma PairIsPayload(high: bv16, low: bv16)
    requires Utf16.SurrogateHigh(high) && Utf16.SurrogateLow(low)
    ensures Utf16.PairValue(high, low) == 0x10000 + Payload(high, low) && Payload(high, low) <= 0xfffff
  {
  }

  lemma Sum20(high: bv16, low: bv16)
    ensures ((((high & 0x3ff) as bv32) << 10) | ((low & 0x3ff) as bv32)) as int ==
            (high & 0x3ff) as int * 0x400 + (low & 0x3ff) as int
  {
  }

  lemma PayloadSum(high: bv16, low: bv16)
    ensures Number32(Payload(high, low)) == Low10(high) * 0x400 + Low10(low)
  {
    Sum20(high, low);
  }

  lemma PlusPlane(v: bv32)
    requires v <= 0xfffff
    ensures Number32(0x10000 + v) == 0x10000 + Number32(v)
  {
  }

  lemma PairIs(high: bv16, low: bv16)
    requires 0xD800 <= Number16(high) <= 0xDBFF && 0xDC00 <= Number16(low) <= 0xDFFF
    ensures Number32(Utf16.PairValue(high, low)) == 0x10000 + (Number16(high) - 0xD800) * 0x400 + (Number16(low) - 0xDC00)
  {
    hide *;
    SurrogateRanges(high);
    SurrogateRanges(low);
    PairIsPayload(high, low);
    PayloadSum(high, low);
    PlusPlane(Payload(high, low));
    SurrogateBits(high);
    SurrogateBits(low);
  }

  /** The UTF-16 decoder accepts exactly single units outside the surrogates and surrogate pairs, with their numbers. */
  lemma Utf16Table(s: seq<bv16>)
    ensures Utf16.Decode(s).Good? <==> SingleRow(s) || PairRow(s)
    ensures SingleRow(s) ==> Reads(Utf16.Decode(s), Unit(s, 0), 1)
    ensures PairRow(s) ==> Reads(Utf16.Decode(s), PairNumber(s), 2)
  {
    hide InvalidCodepoint, Utf16.PairValue, Utf16.Widened, Utf16.SurrogateHigh, Utf16.SurrogateLow, Number16, Number32;
    if s != [] {
      SurrogateRanges(s[0]);
      Below64K(s[0]);
      SameNumber(0, s[0]);
      ScalarRange(Utf16.Widened(s[0]));
      if |s| >= 2 {
        SurrogateRanges(s[1]);
        if PairRow(s) {
          PairIs(s[0], s[1]);
          ScalarRange(Utf16.PairValue(s[0], s[1]));
        }
      }
    }
  }

  lemma Below64K(u: bv16)
    ensures 0 <= Number16(u) < 0x10000
  {
  }

  /** The units are single units and surrogate pairs, one after another. */
  predicate Paired(s: seq<bv16>) {
    s == [] || (SingleRow(s) && Paired(s[1..])) || (PairRow(s) && Paired(s[2..]))
  }

  lemma {:induction false} PairedIffWellFormed(s: seq<bv16>)
    ensures Paired(s) <==> WellFormed(Utf16.Decode, s)
    decreases |s|
  {
    if s != [] {
      Utf16Table(s);
      hide Utf16.Decode, PairNumber, Number16, Number32;
      if SingleRow(s) {
        PairedIffWellFormed(s[1..]);
      } else if PairRow(s) {
        PairedIffWellFormed(s[2..]);
      }
    }
  }

  /** The same for UTF-16. */
  lemma Utf16AcceptsTable<S(!new)>(fn: Callback<S>, ctx: S, src: seq<bv16>)
    requires Continues(fn) && src != []
    ensures Batch(Utf16.Decode, fn, ctx, src).Returned() == if Paired(src) then |src| else 0
  {
    Utf16.Accepts(fn, ctx, src);
    PairedIffWellFormed(src);
    Utf16.Utf16IsCodec();
    WellFormedIff(Utf16.Decode, Utf16.Encode, src);
    hide Batch, IsCodec, WellFormed, Paired, IsEncodingOf;
  }
}
