/** The four public converters, and what they do to well-formed and malformed text. */
module Converters {
  import opened Words
  import opened Codec
  import opened Transcode
  import Utf8
  import Utf16

  // The callbacks.

  function CountChar16(cp: bv32, n: nat): (r: (FnResult, nat)) {
    (Continue, n + if cp > 0xffff then 2 else 1)
  }

  function CountUtf8(cp: bv32, n: nat): (r: (FnResult, nat)) {
    (Continue, n + Utf8.EncodedLen(cp))
  }

  function WriteChar16(cp: bv32, c: WriteContext<bv16>): (r: (FnResult, WriteContext<bv16>)) {
    if cp > 0xffff then
      if |c.cells| - c.cur <= 2 then (Abort, c)
      else (Continue, WriteContext(c.cells[c.cur := Utf16.HighOf(cp)][c.cur + 1 := Utf16.LowOf(cp)], c.cur + 2))
    else if |c.cells| - c.cur <= 1 then (Abort, c)
    else (Continue, WriteContext(c.cells[c.cur := Utf16.Single(cp)], c.cur + 1))
  }

  function WriteUtf8(cp: bv32, c: WriteContext<bv8>): (r: (FnResult, WriteContext<bv8>)) {
    var n := Utf8.EncodedLen(cp);
    var cur := c.cur;
    if |c.cells| - cur <= n then (Abort, c)
    else
      var cells :=
        match n
        case 1 => c.cells[cur := Utf8.FirstOf1(cp)]
        case 2 => c.cells[cur := Utf8.FirstOf2(cp)][cur + 1 := Utf8.Later0(cp)]
        case 3 => c.cells[cur := Utf8.FirstOf3(cp)][cur + 1 := Utf8.Later6(cp)][cur + 2 := Utf8.Later0(cp)]
        case _ =>
          c.cells[cur := Utf8.FirstOf4(cp)][cur + 1 := Utf8.Later12(cp)]
          [cur + 2 := Utf8.Later6(cp)][cur + 3 := Utf8.Later0(cp)];
      (Continue, WriteContext(cells, cur + n))
  }

  lemma CallbacksMatchCodecs()
    ensures IsWriter(WriteChar16, Utf16.Encode) && IsCounter(CountChar16, Utf16.Encode)
    ensures IsWriter(WriteUtf8, Utf8.Encode) && IsCounter(CountUtf8, Utf8.Encode)
  {
    forall cp, c
      ensures Writes(WriteChar16, Utf16.Encode, cp, c)
    {
      WriteChar16IsPut(cp, c);
    }
    forall cp, c
      ensures Writes(WriteUtf8, Utf8.Encode, cp, c)
    {
      WriteUtf8IsPut(cp, c);
    }
    forall cp, n: nat
      ensures Counts(CountChar16, Utf16.Encode, cp, n)
      ensures Counts(CountUtf8, Utf8.Encode, cp, n)
    {
    }
  }

  lemma WriteChar16IsPut(cp: bv32, c: WriteContext<bv16>)
    ensures WriteChar16(cp, c) == Put(Utf16.Encode(cp), c)
  {
    hide Utf16.HighOf, Utf16.LowOf, Utf16.Single;
    if |c.cells| - c.cur > Utf16.EncodedLen(cp) {
      var units := Utf16.Encode(cp);
      OverlayPush(c.cells, c.cur, [], units[0]);
      assert [] + [units[0]] == [units[0]];
      if cp > 0xffff {
        OverlayPush(c.cells, c.cur, [units[0]], units[1]);
        assert [units[0]] + [units[1]] == units;
      }
    }
  }

  lemma WriteUtf8IsPut(cp: bv32, c: WriteContext<bv8>)
    ensures WriteUtf8(cp, c) == Put(Utf8.Encode(cp), c)
  {
    hide Utf8.FirstOf1, Utf8.FirstOf2, Utf8.FirstOf3, Utf8.FirstOf4, Utf8.Later12, Utf8.Later6, Utf8.Later0, Overlay;
    var units := Utf8.Encode(cp);
    if |c.cells| - c.cur > |units| {
      OverlayPush(c.cells, c.cur, [], units[0]);
      if |units| > 1 {
        OverlayPush(c.cells, c.cur, units[..1], units[1]);
        assert units[..1] == [] + [units[0]] && units[..2] == units[..1] + [units[1]];
      }
      if |units| > 2 {
        OverlayPush(c.cells, c.cur, units[..2], units[2]);
        assert units[..3] == units[..2] + [units[2]];
      }
      if |units| > 3 {
        OverlayPush(c.cells, c.cur, units[..3], units[3]);
        assert units[..4] == units[..3] + [units[3]];
      }
      assert units[..|units|] == units && [] + [units[0]] == [units[0]];
    }
  }

  // The converters.  `read` is `None` where the library leaves `*read` alone.

  /** The exact length of the conversion of a well-formed text, zero for any other. */
  ghost function UnitsFor<V, U>(dec: seq<V> -> Decoded, enc: bv32 -> seq<U>, src: seq<V>): (n: nat) {
    if WellFormed(dec, src) then |EncodeAll(enc, Parse(dec, src).0)| else 0
  }

  method Utf8ToChar16Len(src: seq<bv8>) returns (n: nat)
    ensures n == LengthOf(Utf8.Decode, CountChar16, src)
    ensures n == UnitsFor(Utf8.Decode, Utf16.Encode, src)
  {
    Utf8.Utf8IsCodec();
    CallbacksMatchCodecs();
    LengthIsExact(Utf8.Decode, Utf8.Encode, CountChar16, Utf16.Encode, src);
    hide IsCodec, IsCounter, IsWriter;
    if src == [] {
      return 0;
    }
    var r, count := Utf8.Utf8ToCodepoint(CountChar16, 0, src);
    n := if r == 0 then 0 else count;
  }

  method Char16ToUtf8Len(src: seq<bv16>) returns (n: nat)
    ensures n == LengthOf(Utf16.Decode, CountUtf8, src)
    ensures n == UnitsFor(Utf16.Decode, Utf8.Encode, src)
  {
    Utf16.Utf16IsCodec();
    CallbacksMatchCodecs();
    LengthIsExact(Utf16.Decode, Utf16.Encode, CountUtf8, Utf8.Encode, src);
    hide IsCodec, IsCounter, IsWriter;
    if src == [] {
      return 0;
    }
    var r, count := Utf16.Char16ToCodepoint(CountUtf8, 0, src);
    n := if r == 0 then 0 else count;
  }

  method Utf8ToChar16(src: seq<bv8>, dest: array<bv16>) returns (ret: nat, read: Option<nat>)
    modifies dest
    ensures Conversion(ret, read, dest[..]) == Convert(Utf8.Decode, WriteChar16, 0, src, old(dest[..]))
    ensures src == [] || dest.Length == 0 ==> ret == 0 && read == None && dest[..] == old(dest[..])
  {
    if src == [] || dest.Length == 0 {
      return 0, None;
    }
    ghost var was := dest[..];
    Utf8.Utf8IsCodec();
    CallbacksMatchCodecs();
    WriterStaysInside(Utf8.Decode, Utf8.Encode, WriteChar16, Utf16.Encode, src, was);
    hide *;
    var r, ctx := Utf8.Utf8ToCodepoint(WriteChar16, WriteContext(dest[..], 0), src);
    ret, read := StoreResult(dest, ctx, r, 0);
    ConvertIs(Utf8.Decode, WriteChar16, 0, src, was);
  }

  method Char16ToUtf8(src: seq<bv16>, dest: array<bv8>) returns (ret: nat, read: Option<nat>)
    modifies dest
    ensures Conversion(ret, read, dest[..]) == Convert(Utf16.Decode, WriteUtf8, 0, src, old(dest[..]))
    ensures src == [] || dest.Length == 0 ==> ret == 0 && read == None && dest[..] == old(dest[..])
  {
    if src == [] || dest.Length == 0 {
      return 0, None;
    }
    ghost var was := dest[..];
    Utf16.Utf16IsCodec();
    CallbacksMatchCodecs();
    WriterStaysInside(Utf16.Decode, Utf16.Encode, WriteUtf8, Utf8.Encode, src, was);
    hide *;
    var r, ctx := Utf16.Char16ToCodepoint(WriteUtf8, WriteContext(dest[..], 0), src);
    ret, read := StoreResult(dest, ctx, r, 0);
    ConvertIs(Utf16.Decode, WriteUtf8, 0, src, was);
  }

  lemma ConvertIs<V, U>(dec: seq<V> -> Decoded, fn: Callback<WriteContext<U>>, zero: U, src: seq<V>, cells: seq<U>)
    requires src != [] && cells != []
    ensures var b := Batch(dec, fn, WriteContext(cells, 0), src);
            Convert(dec, fn, zero, src, cells) == Finished(b.ctx, b.Returned(), zero)
  {
  }

  /** The end of both converters: the written cells, the terminator, and what is reported. */
  method StoreResult<U>(dest: array<U>, ctx: WriteContext<U>, r: nat, zero: U) returns (ret: nat, read: Option<nat>)
    requires ctx.cur < |ctx.cells| == dest.Length
    modifies dest
    ensures Conversion(ret, read, dest[..]) == Finished(ctx, r, zero)
  {
    forall i | 0 <= i < dest.Length {
      dest[i] := ctx.cells[i];
    }
    assert dest[..] == ctx.cells;
    dest[ctx.cur] := zero;
    if r == 0 {
      return 0, None;
    }
    return ctx.cur, Some(r);
  }

  // What the converters promise.

  /** UTF-16 to UTF-8 and back is the identity on every well-formed text, when the buffers are large enough. */
  lemma Utf16RoundTrip(cps: seq<bv32>, cells8: seq<bv8>, cells16: seq<bv16>)
    requires AllScalars(cps) && cps != []
    requires |EncodeAll(Utf8.Encode, cps)| < |cells8| && |EncodeAll(Utf16.Encode, cps)| < |cells16|
    ensures var src := EncodeAll(Utf16.Encode, cps);
            var there := Convert(Utf16.Decode, WriteUtf8, 0, src, cells8);
            && there.ret < |there.cells| && there.read == Some(|src|)
            && var back := Convert(Utf8.Decode, WriteChar16, 0, there.cells[..there.ret], cells16);
               back.ret < |back.cells| && back.read == Some(there.ret) && back.cells[..back.ret] == src
  {
    Utf8.Utf8IsCodec();
    Utf16.Utf16IsCodec();
    CallbacksMatchCodecs();
    hide *;
    ConvertWhole(Utf16.Decode, Utf16.Encode, WriteUtf8, Utf8.Encode, 0, cps, cells8);
    ConvertWhole(Utf8.Decode, Utf8.Encode, WriteChar16, Utf16.Encode, 0, cps, cells16);
  }

  /** UTF-8 to UTF-16 and back is the identity on every well-formed text, when the buffers are large enough. */
  lemma Utf8RoundTrip(cps: seq<bv32>, cells8: seq<bv8>, cells16: seq<bv16>)
    requires AllScalars(cps) && cps != []
    requires |EncodeAll(Utf8.Encode, cps)| < |cells8| && |EncodeAll(Utf16.Encode, cps)| < |cells16|
    ensures var src := EncodeAll(Utf8.Encode, cps);
            var there := Convert(Utf8.Decode, WriteChar16, 0, src, cells16);
            && there.ret < |there.cells| && there.read == Some(|src|)
            && var back := Convert(Utf16.Decode, WriteUtf8, 0, there.cells[..there.ret], cells8);
               back.ret < |back.cells| && back.read == Some(there.ret) && back.cells[..back.ret] == src
  {
    Utf8.Utf8IsCodec();
    Utf16.Utf16IsCodec();
    CallbacksMatchCodecs();
    hide *;
    ConvertWhole(Utf8.Decode, Utf8.Encode, WriteChar16, Utf16.Encode, 0, cps, cells16);
    ConvertWhole(Utf16.Decode, Utf16.Encode, WriteUtf8, Utf8.Encode, 0, cps, cells8);
  }

  /** A buffer of one cell more than the `_len` function says receives the whole text. */
  lemma LengthSuffices(src: seq<bv8>, cells: seq<bv16>)
    requires src != [] && WellFormed(Utf8.Decode, src)
    requires |cells| == LengthOf(Utf8.Decode, CountChar16, src) + 1
    ensures var c := Convert(Utf8.Decode, WriteChar16, 0, src, cells);
            c.ret == LengthOf(Utf8.Decode, CountChar16, src) && c.read == Some(|src|)
  {
    Utf8.Utf8IsCodec();
    CallbacksMatchCodecs();
    LengthSufficesFor(Utf8.Decode, Utf8.Encode, WriteChar16, CountChar16, Utf16.Encode, 0, src, cells);
  }

  lemma LengthSuffices8(src: seq<bv16>, cells: seq<bv8>)
    requires src != [] && WellFormed(Utf16.Decode, src)
    requires |cells| == LengthOf(Utf16.Decode, CountUtf8, src) + 1
    ensures var c := Convert(Utf16.Decode, WriteUtf8, 0, src, cells);
            c.ret == LengthOf(Utf16.Decode, CountUtf8, src) && c.read == Some(|src|)
  {
    Utf16.Utf16IsCodec();
    CallbacksMatchCodecs();
    LengthSufficesFor(Utf16.Decode, Utf16.Encode, WriteUtf8, CountUtf8, Utf8.Encode, 0, src, cells);
  }

  /** Converting UTF-8 in chunks of at least three cells, resuming from `*read`, loses nothing. */
  lemma ResumeUtf8(cps: seq<bv32>, room: nat)
    requires AllScalars(cps) && room >= 3
    ensures Chunks(Utf8.Decode, WriteChar16, 0, EncodeAll(Utf8.Encode, cps), room) == EncodeAll(Utf16.Encode, cps)
  {
    Utf8.Utf8IsCodec();
    CallbacksMatchCodecs();
    ChunksAreComplete(Utf8.Decode, Utf8.Encode, WriteChar16, Utf16.Encode, 0, cps, room);
  }

  /** Converting UTF-16 in chunks of at least five cells, resuming from `*read`, loses nothing. */
  lemma ResumeUtf16(cps: seq<bv32>, room: nat)
    requires AllScalars(cps) && room >= 5
    ensures Chunks(Utf16.Decode, WriteUtf8, 0, EncodeAll(Utf16.Encode, cps), room) == EncodeAll(Utf8.Encode, cps)
  {
    Utf16.Utf16IsCodec();
    CallbacksMatchCodecs();
    ChunksAreComplete(Utf16.Decode, Utf16.Encode, WriteUtf8, Utf8.Encode, 0, cps, room);
  }

  /** A smaller buffer than three cells never gets past a codepoint outside the basic plane. */
  lemma TooSmallToResume(cp: bv32, rest: seq<bv8>, cells: seq<bv16>)
    requires 0xffff < cp <= 0x10ffff && 0 < |cells| < 3
    ensures Convert(Utf8.Decode, WriteChar16, 0, Utf8.Encode(cp) + rest, cells).ret == 0
    ensures Convert(Utf8.Decode, WriteChar16, 0, Utf8.Encode(cp) + rest, cells).read == None
  {
    Utf8.Utf8IsCodec();
    CallbacksMatchCodecs();
    EncodedPrefix(Utf8.Decode, Utf8.Encode, cp, rest);
    ConvertWrites(Utf8.Decode, Utf8.Encode, WriteChar16, Utf16.Encode, 0, Utf8.Encode(cp) + rest, cells);
  }
}
