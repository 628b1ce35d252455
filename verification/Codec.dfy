/**
 The common theory of the batch codecs.  An encoding form assigns every Unicode scalar value a unit
 string (`enc`), and `dec` reads one scalar from the front of a unit string.  The batch decoders of the
 library are one loop over `dec` that hands each scalar to a callback.
 */
module Codec {

  predicate InvalidCodepoint(ch: bv32) {
    ch > 0x10ffff || (0xd800 <= ch && ch < 0xe000)
  }

  predicate AllScalars(cps: seq<bv32>) {
    forall i | 0 <= i < |cps| :: !InvalidCodepoint(cps[i])
  }

  datatype Decoded = Bad | Good(cp: bv32, len: nat)

  function Checked(cp: bv32, len: nat): (d: Decoded) {
    if InvalidCodepoint(cp) then Bad else Good(cp, len)
  }

  /** `dec` reads the encoding of the scalar `cp` back in front of any tail. */
  ghost predicate ReadsBack<U>(dec: seq<U> -> Decoded, enc: bv32 -> seq<U>, cp: bv32, tail: seq<U>) {
    !InvalidCodepoint(cp) ==> enc(cp) != [] && dec(enc(cp) + tail) == Good(cp, |enc(cp)|)
  }

  /** `dec` accepts only the encoding of a scalar. */
  ghost predicate AcceptsOnly<U>(dec: seq<U> -> Decoded, enc: bv32 -> seq<U>, s: seq<U>) {
    var d := dec(s);
    d.Good? ==> !InvalidCodepoint(d.cp) && 0 < d.len <= |s| && s[..d.len] == enc(d.cp)
  }

  /** Every scalar has one non-empty encoding, `dec` inverts `enc` in front of any tail, and accepts nothing else. */
  ghost predicate IsCodec<U(!new)>(dec: seq<U> -> Decoded, enc: bv32 -> seq<U>) {
    && (forall cp, tail :: ReadsBack(dec, enc, cp, tail))
    && (forall s :: AcceptsOnly(dec, enc, s))
  }

  function EncodeAll<U>(enc: bv32 -> seq<U>, cps: seq<bv32>): (s: seq<U>) {
    if cps == [] then [] else enc(cps[0]) + EncodeAll(enc, cps[1..])
  }

  datatype FnResult = Continue | Abort | Finish

  type Callback<!S> = (bv32, S) -> (FnResult, S)

  /** How a batch decoder ends: `Failed` is the zero it returns for malformed input. */
  datatype Outcome<S> = Failed(ctx: S) | Consumed(units: nat, ctx: S) {
    function Returned(): nat {
      if Failed? then 0 else units
    }
  }

  /** The outcome `r` of the rest of the input, after `units` units that were taken before it. */
  function After<S>(units: nat, r: Outcome<S>): (t: Outcome<S>) {
    match r
    case Failed(ctx) => r
    case Consumed(n, ctx) => Consumed(units + n, ctx)
  }

  /** The loop of a batch decoder as a function of the rest of the input. */
  function Batch<U, S>(dec: seq<U> -> Decoded, fn: Callback<S>, ctx: S, src: seq<U>): (r: Outcome<S>) {
    if src == [] then Consumed(0, ctx)
    else
      var d := dec(src);
      if d.Bad? || d.len == 0 || d.len > |src| then Failed(ctx)
      else
        var (answer, next) := fn(d.cp, ctx);
        match answer
        case Abort => Consumed(0, next)
        case Finish => Consumed(d.len, next)
        case Continue => After(d.len, Batch(dec, fn, next, src[d.len..]))
  }

  lemma BatchEnds<U, S>(dec: seq<U> -> Decoded, fn: Callback<S>, ctx: S, src: seq<U>)
    ensures src == [] ==> Batch(dec, fn, ctx, src) == Consumed(0, ctx)
  {
  }

  lemma BatchUnfolds<U, S>(dec: seq<U> -> Decoded, fn: Callback<S>, ctx: S, src: seq<U>)
    requires src != []
    ensures var d := dec(src);
            Batch(dec, fn, ctx, src) ==
            if d.Bad? || d.len == 0 || d.len > |src| then Failed(ctx)
            else match fn(d.cp, ctx)
              case (Abort, next) => Consumed(0, next)
              case (Finish, next) => Consumed(d.len, next)
              case (Continue, next) => After(d.len, Batch(dec, fn, next, src[d.len..]))
  {
  }

  /** What a callback does with a list of codepoints: how many it accepts, whether it stopped, its context. */
  datatype Delivery<S> = Delivery(taken: nat, stopped: bool, ctx: S)

  function Deliver<S>(fn: Callback<S>, ctx: S, cps: seq<bv32>): (d: Delivery<S>)
    ensures d.taken <= |cps| && (d.stopped || d.taken == |cps|)
  {
    if cps == [] then Delivery(0, false, ctx)
    else
      var (answer, next) := fn(cps[0], ctx);
      match answer
      case Abort => Delivery(0, true, next)
      case Finish => Delivery(1, true, next)
      case Continue =>
        var d := Deliver(fn, next, cps[1..]);
        Delivery(1 + d.taken, d.stopped, d.ctx)
  }

  /** The longest decodable prefix of the input, and the rest, at which decoding is stuck. */
  function Parse<U>(dec: seq<U> -> Decoded, src: seq<U>): (p: (seq<bv32>, seq<U>)) {
    if src == [] then ([], [])
    else
      var d := dec(src);
      if d.Bad? || d.len == 0 || d.len > |src| then ([], src)
      else
        var rest := Parse(dec, src[d.len..]);
        ([d.cp] + rest.0, rest.1)
  }

  lemma DecodedPrefix<U(!new)>(dec: seq<U> -> Decoded, enc: bv32 -> seq<U>, src: seq<U>)
    requires IsCodec(dec, enc) && dec(src).Good?
    ensures !InvalidCodepoint(dec(src).cp) && 0 < dec(src).len <= |src|
    ensures src[..dec(src).len] == enc(dec(src).cp)
  {
    assert AcceptsOnly(dec, enc, src);
  }

  lemma EncodedPrefix<U(!new)>(dec: seq<U> -> Decoded, enc: bv32 -> seq<U>, cp: bv32, tail: seq<U>)
    requires IsCodec(dec, enc) && !InvalidCodepoint(cp)
    ensures enc(cp) != [] && dec(enc(cp) + tail) == Good(cp, |enc(cp)|)
  {
    assert ReadsBack(dec, enc, cp, tail);
  }

  lemma AllScalarsCons(cp: bv32, cps: seq<bv32>)
    requires !InvalidCodepoint(cp) && AllScalars(cps)
    ensures AllScalars([cp] + cps)
  {
  }

  lemma EncodeAllCons<U>(enc: bv32 -> seq<U>, cp: bv32, cps: seq<bv32>)
    ensures EncodeAll(enc, [cp] + cps) == enc(cp) + EncodeAll(enc, cps)
  {
    assert ([cp] + cps)[1..] == cps;
  }

  lemma {:induction false} ParseDecomposes<U(!new)>(dec: seq<U> -> Decoded, enc: bv32 -> seq<U>, src: seq<U>)
    requires IsCodec(dec, enc)
    ensures AllScalars(Parse(dec, src).0)
    ensures src == EncodeAll(enc, Parse(dec, src).0) + Parse(dec, src).1
  {
    if src != [] {
      var d := dec(src);
      if d.Good? {
        DecodedPrefix(dec, enc, src);
        var (cps, tail) := Parse(dec, src[d.len..]);
        assert Parse(dec, src) == ([d.cp] + cps, tail);
        ParseDecomposes(dec, enc, src[d.len..]);
        hide *;
        EncodeAllCons(enc, d.cp, cps);
        AllScalarsCons(d.cp, cps);
        AppendAssociative(enc(d.cp), EncodeAll(enc, cps), tail);
        assert src == src[..d.len] + src[d.len..];
      }
    }
  }

  lemma ParsePrepend<U>(dec: seq<U> -> Decoded, cp: bv32, e: seq<U>, rest: seq<U>)
    requires e != [] && dec(e + rest) == Good(cp, |e|)
    ensures Parse(dec, e + rest) == ([cp] + Parse(dec, rest).0, Parse(dec, rest).1)
  {
    assert (e + rest)[|e|..] == rest;
  }

  lemma AppendAssociative<E>(a: seq<E>, b: seq<E>, c: seq<E>)
    ensures (a + b) + c == a + (b + c)
  {
  }

  /** Decoding inverts encoding: an encoded list is parsed back to itself, in front of any tail. */
  lemma {:induction false} ParseEncoded<U(!new)>(dec: seq<U> -> Decoded, enc: bv32 -> seq<U>,
                                                 cps: seq<bv32>, tail: seq<U>)
    requires IsCodec(dec, enc) && AllScalars(cps)
    ensures Parse(dec, EncodeAll(enc, cps) + tail) == (cps + Parse(dec, tail).0, Parse(dec, tail).1)
  {
    if cps == [] {
      assert EncodeAll(enc, cps) + tail == tail && cps + Parse(dec, tail).0 == Parse(dec, tail).0;
    } else {
      var e, most := enc(cps[0]), EncodeAll(enc, cps[1..]);
      assert AllScalars(cps[1..]) && EncodeAll(enc, cps) == e + most;
      EncodedPrefix(dec, enc, cps[0], most + tail);
      hide *;
      AppendAssociative(e, most, tail);
      ParsePrepend(dec, cps[0], e, most + tail);
      ParseEncoded(dec, enc, cps[1..], tail);
      AppendAssociative([cps[0]], cps[1..], Parse(dec, tail).0);
      assert [cps[0]] + cps[1..] == cps;
    }
  }

  /** An encoding has only one decoding. */
  lemma EncodeAllInjective<U(!new)>(dec: seq<U> -> Decoded, enc: bv32 -> seq<U>, a: seq<bv32>, b: seq<bv32>)
    requires IsCodec(dec, enc) && AllScalars(a) && AllScalars(b)
    requires EncodeAll(enc, a) == EncodeAll(enc, b)
    ensures a == b
  {
    ParseEncoded(dec, enc, a, []);
    ParseEncoded(dec, enc, b, []);
    assert EncodeAll(enc, a) + [] == EncodeAll(enc, a) && EncodeAll(enc, b) + [] == EncodeAll(enc, b);
    assert Parse(dec, []).0 == [] && a + [] == a && b + [] == b;
  }

  lemma EncodeNothing<U>(enc: bv32 -> seq<U>)
    ensures EncodeAll(enc, []) == []
  {
  }

  lemma EncodeTaken<U>(enc: bv32 -> seq<U>, cp: bv32, rest: seq<bv32>, taken: nat)
    requires taken <= 1 + |rest|
    ensures EncodeAll(enc, ([cp] + rest)[..taken]) ==
            if taken == 0 then [] else enc(cp) + EncodeAll(enc, rest[..taken - 1])
  {
    if taken > 0 {
      assert ([cp] + rest)[..taken] == [cp] + rest[..taken - 1];
      EncodeAllCons(enc, cp, rest[..taken - 1]);
    }
  }

  /**
   The batch decoder for every input and every callback: it hands the callback the codepoints of the
   longest decodable prefix until the callback stops, and fails only if the callback took all of them
   and input is left.
   */
  lemma {:induction false} BatchDelivers<U(!new), S>(dec: seq<U> -> Decoded, enc: bv32 -> seq<U>,
                                                     fn: Callback<S>, ctx: S, src: seq<U>)
    requires IsCodec(dec, enc)
    ensures var (cps, tail) := Parse(dec, src);
            var d := Deliver(fn, ctx, cps);
            Batch(dec, fn, ctx, src) ==
            if d.stopped || tail == [] then Consumed(|EncodeAll(enc, cps[..d.taken])|, d.ctx) else Failed(d.ctx)
  {
    if src != [] && dec(src).Good? {
      var e := dec(src);
      DecodedPrefix(dec, enc, src);
      hide IsCodec, EncodeAll;
      var (answer, next) := fn(e.cp, ctx);
      BatchDelivers(dec, enc, fn, next, src[e.len..]);
      var (rest, tail) := Parse(dec, src[e.len..]);
      var cps := [e.cp] + rest;
      assert cps[1..] == rest && cps[0] == e.cp;
      match answer
      case Abort =>
        EncodeTaken(enc, e.cp, rest, 0);
      case Finish =>
        EncodeTaken(enc, e.cp, rest, 1);
      case Continue =>
        EncodeTaken(enc, e.cp, rest, 1 + Deliver(fn, next, rest).taken);
    } else {
      assert Parse(dec, src).0 == [] && Parse(dec, src).1 == src;
      EncodeNothing(enc);
    }
  }

  ghost predicate IsEncodingOf<U>(enc: bv32 -> seq<U>, src: seq<U>, cps: seq<bv32>) {
    AllScalars(cps) && src == EncodeAll(enc, cps)
  }

  /** Nothing undecodable is left. */
  ghost predicate WellFormed<U>(dec: seq<U> -> Decoded, src: seq<U>) {
    Parse(dec, src).1 == []
  }

  lemma ParseWhole<U(!new)>(dec: seq<U> -> Decoded, enc: bv32 -> seq<U>, cps: seq<bv32>)
    requires IsCodec(dec, enc) && AllScalars(cps)
    ensures Parse(dec, EncodeAll(enc, cps)) == (cps, [])
  {
    ParseEncoded(dec, enc, cps, []);
    assert EncodeAll(enc, cps) + [] == EncodeAll(enc, cps) && cps + [] == cps;
    assert Parse(dec, []) == ([], []);
  }

  /** Decodability to the end is the same as being the encoding of some list of scalars. */
  lemma WellFormedIff<U(!new)>(dec: seq<U> -> Decoded, enc: bv32 -> seq<U>, src: seq<U>)
    requires IsCodec(dec, enc)
    ensures WellFormed(dec, src) <==> exists cps :: IsEncodingOf(enc, src, cps)
  {
    ParseDecomposes(dec, enc, src);
    if WellFormed(dec, src) {
      var cps := Parse(dec, src).0;
      assert EncodeAll(enc, cps) + [] == EncodeAll(enc, cps);
      assert IsEncodingOf(enc, src, cps);
    }
    if cps :| IsEncodingOf(enc, src, cps) {
      ParseWhole(dec, enc, cps);
    }
  }

  /** The callback that records every codepoint and always continues. */
  function Record(cp: bv32, log: seq<bv32>): (r: (FnResult, seq<bv32>)) {
    (Continue, log + [cp])
  }

  lemma {:induction false} DeliverRecords(log: seq<bv32>, cps: seq<bv32>)
    ensures Deliver(Record, log, cps) == Delivery(|cps|, false, log + cps)
    decreases |cps|
  {
    if cps == [] {
      assert log + cps == log;
    } else {
      DeliverRecords(log + [cps[0]], cps[1..]);
      assert log + [cps[0]] + cps[1..] == log + cps;
    }
  }

  /**
   Acceptance: a non-empty input is taken in full by a continuing callback iff it is the encoding of
   scalars, and then exactly those scalars are delivered.
   */
  lemma AcceptsExactly<U(!new)>(dec: seq<U> -> Decoded, enc: bv32 -> seq<U>, src: seq<U>)
    requires IsCodec(dec, enc) && src != []
    ensures var b := Batch(dec, Record, [], src);
            && (b.Returned() == |src| <==> exists cps :: IsEncodingOf(enc, src, cps))
            && (b.Returned() == |src| ==> IsEncodingOf(enc, src, b.ctx))
            && (b.Returned() != |src| ==> b.Returned() == 0)
  {
    var (cps, tail) := Parse(dec, src);
    BatchDelivers(dec, enc, Record, [], src);
    DeliverRecords([], cps);
    ParseDecomposes(dec, enc, src);
    WellFormedIff(dec, enc, src);
    assert [] + cps == cps && cps[..|cps|] == cps;
    assert EncodeAll(enc, cps) + [] == EncodeAll(enc, cps);
  }

  ghost predicate ContinuesAt<S>(fn: Callback<S>, cp: bv32, ctx: S) {
    fn(cp, ctx).0 == Continue
  }

  /** A callback that never stops the decoder. */
  ghost predicate Continues<S(!new)>(fn: Callback<S>) {
    forall cp, ctx :: ContinuesAt(fn, cp, ctx)
  }

  lemma {:induction false} DeliversAll<S(!new)>(fn: Callback<S>, ctx: S, cps: seq<bv32>)
    requires Continues(fn)
    ensures Deliver(fn, ctx, cps).taken == |cps| && !Deliver(fn, ctx, cps).stopped
    decreases |cps|
  {
    if cps != [] {
      assert ContinuesAt(fn, cps[0], ctx);
      DeliversAll(fn, fn(cps[0], ctx).1, cps[1..]);
    }
  }

  /** `units` units of `src` were taken: all of them iff `src` is the encoding of scalars, else none. */
  ghost predicate TakesEncodings<U>(enc: bv32 -> seq<U>, src: seq<U>, units: nat) {
    && (units == |src| <==> exists cps :: IsEncodingOf(enc, src, cps))
    && (units != |src| ==> units == 0)
  }

  /** Acceptance under every callback that never stops. */
  lemma ContinuingAccepts<U(!new), S(!new)>(dec: seq<U> -> Decoded, enc: bv32 -> seq<U>,
                                            fn: Callback<S>, ctx: S, src: seq<U>)
    requires IsCodec(dec, enc) && Continues(fn) && src != []
    ensures TakesEncodings(enc, src, Batch(dec, fn, ctx, src).Returned())
  {
    var (cps, tail) := Parse(dec, src);
    BatchDelivers(dec, enc, fn, ctx, src);
    DeliversAll(fn, ctx, cps);
    ParseDecomposes(dec, enc, src);
    WellFormedIff(dec, enc, src);
    hide IsCodec, Batch, Deliver, Continues;
    assert cps[..|cps|] == cps;
    assert EncodeAll(enc, cps) + [] == EncodeAll(enc, cps);
  }

  /** The callback moves from context `ctxs[i]` to the next with the given answer to codepoint `i`. */
  ghost predicate AnswersWith<S>(fn: Callback<S>, cps: seq<bv32>, ctxs: seq<S>, i: nat, answer: FnResult)
    requires i < |cps| && i + 1 < |ctxs|
  {
    fn(cps[i], ctxs[i]) == (answer, ctxs[i + 1])
  }

  lemma {:induction false} DeliverStops<S>(fn: Callback<S>, cps: seq<bv32>, ctxs: seq<S>, k: nat, answer: FnResult)
    requires k < |cps| && |ctxs| == k + 2 && answer != Continue
    requires forall i: nat | i < k :: AnswersWith(fn, cps, ctxs, i, Continue)
    requires AnswersWith(fn, cps, ctxs, k, answer)
    ensures Deliver(fn, ctxs[0], cps) == Delivery(if answer == Finish then k + 1 else k, true, ctxs[k + 1])
    decreases k
  {
    if k > 0 {
      assert AnswersWith(fn, cps, ctxs, 0, Continue);
      forall i: nat | i < k - 1
        ensures AnswersWith(fn, cps[1..], ctxs[1..], i, Continue)
      {
        assert AnswersWith(fn, cps, ctxs, i + 1, Continue);
      }
      DeliverStops(fn, cps[1..], ctxs[1..], k - 1, answer);
    }
  }

  /** A callback that stops at codepoint `k`: `Finish` counts that codepoint as taken, `Abort` does not. */
  lemma StopsAt<U(!new), S>(dec: seq<U> -> Decoded, enc: bv32 -> seq<U>, fn: Callback<S>, src: seq<U>,
                            ctxs: seq<S>, k: nat, answer: FnResult)
    requires IsCodec(dec, enc)
    requires k < |Parse(dec, src).0| && |ctxs| == k + 2 && answer != Continue
    requires forall i: nat | i < k :: AnswersWith(fn, Parse(dec, src).0, ctxs, i, Continue)
    requires AnswersWith(fn, Parse(dec, src).0, ctxs, k, answer)
    ensures var taken := Parse(dec, src).0[..if answer == Finish then k + 1 else k];
            Batch(dec, fn, ctxs[0], src) == Consumed(|EncodeAll(enc, taken)|, ctxs[k + 1])
  {
    DeliverStops(fn, Parse(dec, src).0, ctxs, k, answer);
    BatchDelivers(dec, enc, fn, ctxs[0], src);
  }
}
