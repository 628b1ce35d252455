/**
 The bounded converters between UTF-8 and UTF-16.  Each runs a batch decoder with a callback that writes
 one encoded scalar at a time and refuses the first one that would not leave room for the terminator.
 */
module Transcode {
  import opened Words
  import opened Codec

  /** The destination buffer, filled up to `cur`; the end pointer of the library is `|cells|`. */
  datatype WriteContext<U> = WriteContext(cells: seq<U>, cur: nat)

  /** `cells` with `units` stored from index `at` on. */
  function Overlay<U>(cells: seq<U>, at: nat, units: seq<U>): (t: seq<U>)
    requires at + |units| <= |cells|
    ensures |t| == |cells|
  {
    cells[..at] + units + cells[at + |units|..]
  }

  function Put<U>(units: seq<U>, c: WriteContext<U>): (r: (FnResult, WriteContext<U>)) {
    if |c.cells| - c.cur <= |units| then (Abort, c)
    else (Continue, WriteContext(Overlay(c.cells, c.cur, units), c.cur + |units|))
  }

  ghost predicate Writes<U>(fn: Callback<WriteContext<U>>, enc: bv32 -> seq<U>, cp: bv32, c: WriteContext<U>) {
    fn(cp, c) == Put(enc(cp), c)
  }

  ghost predicate Counts<U>(fn: Callback<nat>, enc: bv32 -> seq<U>, cp: bv32, n: nat) {
    fn(cp, n) == (Continue, n + |enc(cp)|)
  }

  /** `fn` stores the encoding of its argument, or aborts. */
  ghost predicate IsWriter<U(!new)>(fn: Callback<WriteContext<U>>, enc: bv32 -> seq<U>) {
    forall cp, c :: Writes(fn, enc, cp, c)
  }

  /** `fn` adds the length of the encoding of its argument. */
  ghost predicate IsCounter<U>(fn: Callback<nat>, enc: bv32 -> seq<U>) {
    forall cp, n: nat :: Counts(fn, enc, cp, n)
  }

  /** How many codepoints are written before the buffer refuses one; one cell stays free for the terminator. */
  function Fitting<U>(enc: bv32 -> seq<U>, cps: seq<bv32>, room: int): (k: nat)
    ensures k <= |cps|
  {
    if cps == [] || room <= |enc(cps[0])| then 0
    else 1 + Fitting(enc, cps[1..], room - |enc(cps[0])|)
  }

  lemma EncodeAllStep<U>(enc: bv32 -> seq<U>, cps: seq<bv32>, m: nat)
    requires 0 < m <= |cps|
    ensures EncodeAll(enc, cps[..m]) == enc(cps[0]) + EncodeAll(enc, cps[1..][..m - 1])
  {
    assert cps[..m][1..] == cps[1..][..m - 1];
  }

  /** The written prefix is the longest one: a prefix leaves room for the terminator iff it is not longer. */
  lemma {:induction false} FittingIsLongest<U>(enc: bv32 -> seq<U>, cps: seq<bv32>, room: nat, m: nat)
    requires room > 0 && m <= |cps|
    ensures |EncodeAll(enc, cps[..m])| < room <==> m <= Fitting(enc, cps, room)
  {
    if m > 0 {
      EncodeAllStep(enc, cps, m);
      if room > |enc(cps[0])| {
        FittingIsLongest(enc, cps[1..], room - |enc(cps[0])|, m - 1);
      }
    }
  }

  lemma OverlayTwice<U>(cells: seq<U>, at: nat, a: seq<U>, b: seq<U>)
    requires at + |a| + |b| <= |cells|
    ensures Overlay(Overlay(cells, at, a), at + |a|, b) == Overlay(cells, at, a + b)
  {
  }

  /** Storing one more unit behind `units` with an index assignment. */
  lemma OverlayPush<U>(cells: seq<U>, at: nat, units: seq<U>, u: U)
    requires at + |units| < |cells|
    ensures Overlay(cells, at, units)[at + |units| := u] == Overlay(cells, at, units + [u])
    ensures Overlay(cells, at, []) == cells
  {
  }

  /** What a writer does with a list of codepoints. */
  lemma {:induction false} DeliverWrites<U(!new)>(fn: Callback<WriteContext<U>>, enc: bv32 -> seq<U>,
                                                  c: WriteContext<U>, cps: seq<bv32>)
    requires IsWriter(fn, enc) && c.cur < |c.cells|
    ensures var k := Fitting(enc, cps, |c.cells| - c.cur);
            var out := EncodeAll(enc, cps[..k]);
            && c.cur + |out| < |c.cells|
            && Deliver(fn, c, cps) ==
               Delivery(k, k < |cps|, WriteContext(Overlay(c.cells, c.cur, out), c.cur + |out|))
    decreases |cps|
  {
    var k := Fitting(enc, cps, |c.cells| - c.cur);
    if cps == [] || k == 0 {
      assert cps[..k] == [] && Overlay(c.cells, c.cur, []) == c.cells;
      assert cps != [] ==> Writes(fn, enc, cps[0], c);
    } else {
      var units := enc(cps[0]);
      assert Writes(fn, enc, cps[0], c);
      var next := WriteContext(Overlay(c.cells, c.cur, units), c.cur + |units|);
      DeliverWrites(fn, enc, next, cps[1..]);
      EncodeAllStep(enc, cps, k);
      OverlayTwice(c.cells, c.cur, units, EncodeAll(enc, cps[1..][..k - 1]));
    }
  }

  lemma {:induction false} DeliverCounts<U>(fn: Callback<nat>, enc: bv32 -> seq<U>, n: nat, cps: seq<bv32>)
    requires IsCounter(fn, enc)
    ensures Deliver(fn, n, cps) == Delivery(|cps|, false, n + |EncodeAll(enc, cps)|)
    decreases |cps|
  {
    if cps != [] {
      assert Counts(fn, enc, cps[0], n);
      DeliverCounts(fn, enc, n + |enc(cps[0])|, cps[1..]);
    }
  }

  /** The result of a converter: its return value, `*read` when it is set, and the buffer afterwards. */
  datatype Conversion<U> = Conversion(ret: nat, read: Option<nat>, cells: seq<U>)

  function Convert<V, U>(dec: seq<V> -> Decoded, fn: Callback<WriteContext<U>>, zero: U, src: seq<V>, cells: seq<U>)
    : (r: Conversion<U>)
  {
    if src == [] || cells == [] then Conversion(0, None, cells)
    else
      var b := Batch(dec, fn, WriteContext(cells, 0), src);
      Finished(b.ctx, b.Returned(), zero)
  }

  /** The end of a converter: the terminator is stored even when the conversion failed. */
  function Finished<U>(c: WriteContext<U>, r: nat, zero: U): (t: Conversion<U>) {
    var cells := if c.cur < |c.cells| then c.cells[c.cur := zero] else c.cells;
    if r == 0 then Conversion(0, None, cells) else Conversion(c.cur, Some(r), cells)
  }

  function LengthOf<V>(dec: seq<V> -> Decoded, fn: Callback<nat>, src: seq<V>): (n: nat) {
    if src == [] || Batch(dec, fn, 0, src).Returned() == 0 then 0 else Batch(dec, fn, 0, src).ctx
  }

  /**
   A converter on any input and any non-empty buffer: it writes the longest whole-codepoint prefix that
   leaves room for the terminator.  It reports success unless not even one codepoint fits, or all of the
   decodable input fits and undecodable input is left.
   */
  lemma ConvertWrites<V(!new), U(!new)>(dec: seq<V> -> Decoded, encV: bv32 -> seq<V>,
                                        fn: Callback<WriteContext<U>>, enc: bv32 -> seq<U>, zero: U,
                                        src: seq<V>, cells: seq<U>)
    requires IsCodec(dec, encV) && IsWriter(fn, enc) && src != [] && cells != []
    ensures var (cps, tail) := Parse(dec, src);
            var k := Fitting(enc, cps, |cells|);
            var out := EncodeAll(enc, cps[..k]);
            && |out| < |cells|
            && Convert(dec, fn, zero, src, cells) ==
               if k > 0 && (k < |cps| || tail == [])
               then Conversion(|out|, Some(|EncodeAll(encV, cps[..k])|), Overlay(cells, 0, out + [zero]))
               else Conversion(0, None, Overlay(cells, 0, out + [zero]))
  {
    var (cps, tail) := Parse(dec, src);
    var k := Fitting(enc, cps, |cells|);
    var out := EncodeAll(enc, cps[..k]);
    BatchDelivers(dec, encV, fn, WriteContext(cells, 0), src);
    DeliverWrites(fn, enc, WriteContext(cells, 0), cps);
    ParseDecomposes(dec, encV, src);
    EncodedNotEmpty(dec, encV, cps, k);
    OverlayTwice(cells, 0, out, [zero]);
    assert Overlay(cells, 0, out)[|out| := zero] == Overlay(Overlay(cells, 0, out), |out|, [zero]);
  }

  /** Nothing is converted without input or without a buffer: no cell changes, and `*read` is left alone. */
  lemma ConvertsNothing<V, U>(dec: seq<V> -> Decoded, fn: Callback<WriteContext<U>>, zero: U, src: seq<V>, cells: seq<U>)
    ensures src == [] || cells == [] ==> Convert(dec, fn, zero, src, cells) == Conversion(0, None, cells)
  {
  }

  lemma WriterStaysInside<V(!new), U(!new)>(dec: seq<V> -> Decoded, encV: bv32 -> seq<V>,
                                            fn: Callback<WriteContext<U>>, enc: bv32 -> seq<U>,
                                            src: seq<V>, cells: seq<U>)
    requires IsCodec(dec, encV) && IsWriter(fn, enc) && cells != []
    ensures var c := Batch(dec, fn, WriteContext(cells, 0), src).ctx; c.cur < |c.cells| == |cells|
  {
    BatchDelivers(dec, encV, fn, WriteContext(cells, 0), src);
    DeliverWrites(fn, enc, WriteContext(cells, 0), Parse(dec, src).0);
  }

  lemma EncodedNotEmpty<V(!new)>(dec: seq<V> -> Decoded, enc: bv32 -> seq<V>, cps: seq<bv32>, k: nat)
    requires IsCodec(dec, enc) && AllScalars(cps) && k <= |cps|
    ensures EncodeAll(enc, cps[..k]) == [] <==> k == 0
  {
    if k > 0 {
      EncodedPrefix(dec, enc, cps[0], []);
      EncodeAllStep(enc, cps, k);
    }
  }

  /** The `_len` functions: the exact number of units of the conversion, and zero for malformed input. */
  lemma LengthIsExact<V(!new), U>(dec: seq<V> -> Decoded, encV: bv32 -> seq<V>, fn: Callback<nat>,
                                  enc: bv32 -> seq<U>, src: seq<V>)
    requires IsCodec(dec, encV) && IsCounter(fn, enc)
    ensures var (cps, tail) := Parse(dec, src);
            LengthOf(dec, fn, src) == if tail == [] then |EncodeAll(enc, cps)| else 0
  {
    var (cps, tail) := Parse(dec, src);
    BatchDelivers(dec, encV, fn, 0, src);
    DeliverCounts(fn, enc, 0, cps);
    ParseDecomposes(dec, encV, src);
    EncodedNotEmpty(dec, encV, cps, |cps|);
    assert cps[..|cps|] == cps;
  }

  /** The whole input of a well-formed conversion, written chunk by chunk with a buffer of `room` cells. */
  function Chunks<V, U>(dec: seq<V> -> Decoded, fn: Callback<WriteContext<U>>, zero: U, src: seq<V>, room: nat)
    : (out: seq<U>)
    decreases |src|
  {
    var c := Convert(dec, fn, zero, src, seq(room, i => zero));
    if c.read.None? || c.read.value == 0 || c.read.value > |src| || c.ret > |c.cells| then []
    else c.cells[..c.ret] + Chunks(dec, fn, zero, src[c.read.value..], room)
  }

  lemma {:induction false} EncodeAllAppend<U>(enc: bv32 -> seq<U>, a: seq<bv32>, b: seq<bv32>)
    ensures EncodeAll(enc, a + b) == EncodeAll(enc, a) + EncodeAll(enc, b)
  {
    if a == [] {
      assert a + b == b;
    } else {
      EncodeAllAppend(enc, a[1..], b);
      assert (a + b)[1..] == a[1..] + b;
    }
  }

  /**
   Resuming from `*read` loses nothing: when every scalar fits the buffer, each call makes progress and
   the chunks together are the unbounded conversion.
   */
  lemma {:induction false} ChunksAreComplete<V(!new), U(!new)>(
    dec: seq<V> -> Decoded, encV: bv32 -> seq<V>, fn: Callback<WriteContext<U>>, enc: bv32 -> seq<U>, zero: U,
    cps: seq<bv32>, room: nat)
    requires IsCodec(dec, encV) && IsWriter(fn, enc) && AllScalars(cps)
    requires forall cp :: !InvalidCodepoint(cp) ==> |enc(cp)| < room
    ensures Chunks(dec, fn, zero, EncodeAll(encV, cps), room) == EncodeAll(enc, cps)
    decreases |cps|
  {
    var src := EncodeAll(encV, cps);
    if cps != [] {
      var cells := seq(room, i => zero);
      var k := Fitting(enc, cps, room);
      var out := EncodeAll(enc, cps[..k]);
      ParseWhole(dec, encV, cps);
      EncodedNotEmpty(dec, encV, cps, |cps|);
      assert cps[..|cps|] == cps;
      ConvertWrites(dec, encV, fn, enc, zero, src, cells);
      assert Overlay(cells, 0, out + [zero])[..|out|] == out;
      EncodedNotEmpty(dec, encV, cps, k);
      assert cps == cps[..k] + cps[k..];
      EncodeAllAppend(encV, cps[..k], cps[k..]);
      EncodeAllAppend(enc, cps[..k], cps[k..]);
      assert src[|EncodeAll(encV, cps[..k])|..] == EncodeAll(encV, cps[k..]);
      hide Convert, Overlay, Parse, IsWriter, EncodeAll;
      ChunksAreComplete(dec, encV, fn, enc, zero, cps[k..], room);
    }
  }

  lemma FittingAll<U>(enc: bv32 -> seq<U>, cps: seq<bv32>, room: nat)
    requires |EncodeAll(enc, cps)| < room
    ensures Fitting(enc, cps, room) == |cps|
  {
    assert cps[..|cps|] == cps;
    FittingIsLongest(enc, cps, room, |cps|);
  }

  /** With room for everything and the terminator, a converter turns one encoding into the other. */
  lemma ConvertWhole<V(!new), U(!new)>(dec: seq<V> -> Decoded, encV: bv32 -> seq<V>,
                                       fn: Callback<WriteContext<U>>, enc: bv32 -> seq<U>, zero: U,
                                       cps: seq<bv32>, cells: seq<U>)
    requires IsCodec(dec, encV) && IsWriter(fn, enc) && AllScalars(cps) && cps != []
    requires |EncodeAll(enc, cps)| < |cells|
    ensures var c := Convert(dec, fn, zero, EncodeAll(encV, cps), cells);
            && c.ret == |EncodeAll(enc, cps)| && c.ret < |c.cells|
            && c.read == Some(|EncodeAll(encV, cps)|)
            && c.cells[..c.ret] == EncodeAll(enc, cps) && c.cells[c.ret] == zero
            && c.cells[c.ret + 1..] == cells[c.ret + 1..]
  {
    ParseWhole(dec, encV, cps);
    FittingAll(enc, cps, |cells|);
    assert cps[..|cps|] == cps;
    EncodedNotEmpty(dec, encV, cps, |cps|);
    ConvertWrites(dec, encV, fn, enc, zero, EncodeAll(encV, cps), cells);
    var out := EncodeAll(enc, cps);
    assert Overlay(cells, 0, out + [zero])[..|out|] == out;
  }

  /** With one cell more than the `_len` function says, the converter writes exactly that many units. */
  lemma LengthSufficesFor<V(!new), U(!new)>(dec: seq<V> -> Decoded, encV: bv32 -> seq<V>,
                                            fn: Callback<WriteContext<U>>, count: Callback<nat>,
                                            enc: bv32 -> seq<U>, zero: U, src: seq<V>, cells: seq<U>)
    requires IsCodec(dec, encV) && IsWriter(fn, enc) && IsCounter(count, enc)
    requires src != [] && WellFormed(dec, src) && |cells| == LengthOf(dec, count, src) + 1
    ensures var c := Convert(dec, fn, zero, src, cells);
            c.ret == LengthOf(dec, count, src) && c.read == Some(|src|)
  {
    var (cps, tail) := Parse(dec, src);
    ParseDecomposes(dec, encV, src);
    assert EncodeAll(encV, cps) + [] == EncodeAll(encV, cps) && cps[..|cps|] == cps;
    LengthIsExact(dec, encV, count, enc, src);
    EncodedNotEmpty(dec, encV, cps, |cps|);
    ConvertWhole(dec, encV, fn, enc, zero, cps, cells);
  }
}
