/** Decimal parsing and printing of 64-bit integers, with their wrap-around written out. */
module Decimal {
  import opened Words

  const HALF: int := 0x8000_0000_0000_0000

  predicate IsDigit(c: char) {
    '0' <= c <= '9'
  }

  function DigitOf(c: char): (d: int) {
    c as int - '0' as int
  }

  /** The character at `i` of a NUL-terminated string. */
  function CharAt(s: string, i: nat): (c: char) {
    if i < |s| then s[i] else '\0'
  }

  function Value(s: string): (v: int) {
    if s == [] then 0 else Value(s[..|s| - 1]) * 10 + DigitOf(s[|s| - 1])
  }

  ghost predicate AllDigits(s: string) {
    forall i | 0 <= i < |s| :: IsDigit(s[i])
  }

  /** The length of the longest digit prefix. */
  function DigitCount(s: string): (n: nat)
    ensures n <= |s|
  {
    if s == [] || !IsDigit(s[0]) then 0 else 1 + DigitCount(s[1..])
  }

  /** What the accumulator holds after `k` digits. */
  function Accumulated(s: string, k: nat): (r: int)
    requires k <= |s|
  {
    Value(s[..k]) % WORD
  }

  /** The overflow test fires at digit `k`: the accumulator became smaller. */
  predicate Drops(s: string, k: nat)
    requires k < |s|
  {
    Accumulated(s, k + 1) < Accumulated(s, k)
  }

  /** The digit loop of both parsers: `None` when the overflow test fires, else the accumulator. */
  function Scan(s: string): (r: Option<int>) {
    var n := DigitCount(s);
    if exists k | 0 <= k < n :: Drops(s, k) then None else Some(Accumulated(s, n))
  }

  function Atou(s: string, strict: bool): (r: Option<int>) {
    var n := DigitCount(s);
    if Scan(s).None? || n == 0 || (strict && CharAt(s, n) != '\0') then None else Scan(s)
  }

  lemma {:induction false} DigitCountIs(s: string, n: nat)
    requires n <= |s| && (forall i | 0 <= i < n :: IsDigit(s[i])) && !IsDigit(CharAt(s, n))
    ensures DigitCount(s) == n
  {
    if n > 0 {
      DigitCountIs(s[1..], n - 1);
    }
  }

  lemma MultipleVanishes(x: int, k: int)
    ensures (k * WORD + x) % WORD == x % WORD
  {
  }

  lemma WrappedStep(v: int, d: int)
    ensures (v * 10 + d) % WORD == (v % WORD * 10 + d) % WORD
  {
    var q, w := v / WORD, v % WORD;
    assert v == q * WORD + w;
    MultipleVanishes(w * 10 + d, q * 10);
  }

  lemma AccumulatedStep(s: string, k: nat)
    requires k < |s|
    ensures Value(s[..k + 1]) == Value(s[..k]) * 10 + DigitOf(s[k])
    ensures Accumulated(s, k + 1) == (Accumulated(s, k) * 10 + DigitOf(s[k])) % WORD
  {
    assert s[..k + 1][..k] == s[..k];
    WrappedStep(Value(s[..k]), DigitOf(s[k]));
  }

  /** The digit loop: `r` is the wrapped accumulator, `pr` its previous value. */
  method ScanDigits(s: string) returns (ok: bool, r: int, p: nat)
    ensures ok <==> Scan(s).Some?
    ensures ok ==> p == DigitCount(s) && Scan(s) == Some(r)
  {
    r, p := 0, 0;
    while IsDigit(CharAt(s, p))
      invariant p <= |s| && forall i | 0 <= i < p :: IsDigit(s[i])
      invariant r == Accumulated(s, p)
      invariant forall k | 0 <= k < p :: !Drops(s, k)
      decreases |s| - p
    {
      var pr := r;
      AccumulatedStep(s, p);
      r := (r * 10 + DigitOf(s[p])) % WORD;
      p := p + 1;
      if r < pr {
        DigitCountAtLeast(s, p);
        assert Drops(s, p - 1);
        return false, r, p;
      }
    }
    DigitCountIs(s, p);
    ok := true;
  }

  lemma {:induction false} DigitCountAtLeast(s: string, n: nat)
    requires n <= |s| && forall i | 0 <= i < n :: IsDigit(s[i])
    ensures DigitCount(s) >= n
  {
    if n > 0 {
      DigitCountAtLeast(s[1..], n - 1);
    }
  }

  /** `atou`: `None` is the false return. */
  method ParseUnsigned(s: string, strict: bool) returns (r: Option<int>)
    ensures r == Atou(s, strict)
  {
    hide Scan;
    var ok, value, p := ScanDigits(s);
    if !ok {
      return None;
    }
    if p == 0 {
      return None;
    }
    if strict && CharAt(s, p) != '\0' {
      return None;
    }
    r := Some(value);
  }

  // What unsigned parsing accepts.

  /** The value of a prefix is at most a tenth of the value of the next longer one. */
  lemma {:induction false} ValueGrows(s: string, k: nat)
    requires AllDigits(s) && k <= |s|
    ensures 0 <= Value(s[..k]) <= Value(s)
    ensures k < |s| ==> Value(s[..k]) * 10 <= Value(s)
    decreases |s|
  {
    if k < |s| {
      var t := s[..|s| - 1];
      assert t[..k] == s[..k];
      ValueGrows(t, k);
      ValueGrows(t, |t|);
      assert t[..|t|] == t;
    } else {
      assert s[..k] == s;
      if s != [] {
        var t := s[..|s| - 1];
        ValueGrows(t, |t|);
        assert t[..|t|] == t;
      }
    }
  }

  lemma SmallPrefixNeverDrops(s: string, n: nat)
    requires AllDigits(s) && n <= |s| && Value(s[..n]) < WORD
    ensures forall k | 0 <= k < n :: !Drops(s, k)
    ensures Accumulated(s, n) == Value(s[..n])
  {
    var t := s[..n];
    forall k | 0 <= k < n
      ensures !Drops(s, k)
    {
      PrefixBelow(t, k);
      PrefixBelow(t, k + 1);
      ValueGrows(t[..k + 1], k);
      assert t[..k] == s[..k] && t[..k + 1] == s[..k + 1] && t[..k + 1][..k] == t[..k];
      hide Value, AllDigits;
      assert Accumulated(s, k) == Value(t[..k]) && Accumulated(s, k + 1) == Value(t[..k + 1]);
    }
    PrefixBelow(t, n);
    assert t[..n] == t;
  }

  lemma PrefixBelow(t: string, k: nat)
    requires AllDigits(t) && k <= |t| && Value(t) < WORD
    ensures 0 <= Value(t[..k]) < WORD && Value(t[..k]) % WORD == Value(t[..k])
  {
    ValueGrows(t, k);
    SmallModulo(Value(t[..k]));
    hide Value;
  }

  /**
   Digit strings whose value overflows only at the last digit, in particular all of up to 20 digits:
   strict `atou` is exact below 2^64, and above it accepts exactly those whose wrapped value is not
   smaller than the value without the last digit.
   */
  lemma AtouExact(s: string)
    requires s != [] && AllDigits(s) && Value(s[..|s| - 1]) < WORD
    ensures Atou(s, true) ==
            if Value(s) < WORD || Value(s) % WORD >= Value(s[..|s| - 1]) then Some(Value(s) % WORD) else None
  {
    var n := |s|;
    DigitCountIs(s, n);
    LastDrop(s);
    ScanLast(s, n);
    hide *;
  }

  lemma ScanLast(s: string, n: nat)
    requires n == |s| == DigitCount(s) && n > 0 && forall k | 0 <= k < n - 1 :: !Drops(s, k)
    ensures Atou(s, true) == if Drops(s, n - 1) then None else Some(Accumulated(s, n))
  {
    hide Drops, Accumulated, DigitCount;
  }

  lemma LastDrop(s: string)
    requires s != [] && AllDigits(s) && Value(s[..|s| - 1]) < WORD
    ensures forall k | 0 <= k < |s| - 1 :: !Drops(s, k)
    ensures Accumulated(s, |s|) == Value(s) % WORD
    ensures Drops(s, |s| - 1) <==> Value(s) >= WORD && Value(s) % WORD < Value(s[..|s| - 1])
  {
    var n := |s|;
    assert s[..n] == s;
    SmallPrefixNeverDrops(s, n - 1);
    ValueGrows(s, n - 1);
    SmallModulo(Value(s));
    hide Value, AllDigits;
  }

  lemma SmallModulo(v: int)
    ensures 0 <= v < WORD ==> v % WORD == v
  {
  }

  /** Every digit string with value below 2^64, leading zeros included, is accepted with its value. */
  lemma AtouAcceptsBelow(s: string)
    requires s != [] && AllDigits(s) && Value(s) < WORD
    ensures Atou(s, true) == Some(Value(s))
  {
    ValueGrows(s, |s| - 1);
    ValueGrows(s, |s|);
    assert s[..|s|] == s;
    SmallModulo(Value(s));
    hide Value, AllDigits, Atou;
    AtouExact(s);
  }

  /** Overflow by less than a ninth of 2^64 is always detected. */
  lemma AtouRejectsSlightOverflow(s: string)
    requires AllDigits(s) && Value(s) >= WORD && 9 * Value(s) + 9 < 10 * WORD
    ensures Atou(s, true) == None
  {
    var t := s[..|s| - 1];
    ValueGrows(s, |s| - 1);
    ValueGrows(t, |t|);
    assert t[..|t|] == t;
    AtouExact(s);
  }

  function TenTo(n: nat): (p: nat)
    ensures p > 0
  {
    if n == 0 then 1 else 10 * TenTo(n - 1)
  }

  lemma {:induction false} ValueBelowTenTo(s: string)
    requires AllDigits(s)
    ensures 0 <= Value(s) < TenTo(|s|)
  {
    if s != [] {
      ValueBelowTenTo(s[..|s| - 1]);
      assert TenTo(|s|) == 10 * TenTo(|s| - 1);
    }
  }

  /** `AtouExact` covers every string of at most 20 digits. */
  lemma AtouExactUpTo20(s: string)
    requires s != [] && AllDigits(s) && |s| <= 20
    ensures Atou(s, true) ==
            if Value(s) < WORD || Value(s) % WORD >= Value(s[..|s| - 1]) then Some(Value(s) % WORD) else None
  {
    ValueBelowTenTo(s[..|s| - 1]);
    TenToValues();
    TenToMonotonic(|s| - 1, 19);
    AtouExact(s);
  }

  lemma {:induction false} TenToMonotonic(i: nat, j: nat)
    requires i <= j
    ensures TenTo(i) <= TenTo(j)
  {
    if i < j {
      TenToMonotonic(i, j - 1);
    }
  }

  // The answer as a function of the number alone.

  /** The 64-bit word of `v` without its last `j` digits. */
  function Cut(v: nat, j: nat): (w: int) {
    v / TenTo(j) % WORD
  }

  /** Cutting off `j` digits leaves a smaller word than cutting off one more: an overflow shows there. */
  predicate WrapsAt(v: nat, j: nat) {
    Cut(v, j) < Cut(v, j + 1)
  }

  /** The overflow of `v` is noticed somewhere in the digit loop. */
  ghost predicate Noticed(v: nat) {
    exists j: nat :: WrapsAt(v, j)
  }

  lemma ProductMonotonic(a: int, b: int, t: int)
    requires a <= b && 0 < t
    ensures a * t <= b * t
  {
  }

  lemma QuotientIs(v: int, q: int, t: int)
    requires 0 < t && q * t <= v < (q + 1) * t
    ensures v / t == q
  {
    var r := v / t;
    assert r * t <= v < (r + 1) * t;
    if r < q {
      ProductMonotonic(r + 1, q, t);
    } else if q < r {
      ProductMonotonic(q + 1, r, t);
    }
  }

  lemma OneDigitLess(v: int, p: int, d: int, t: int)
    requires 0 <= d < 10 && 0 < t && (p * 10 + d) * t <= v < (p * 10 + d + 1) * t
    ensures p * (10 * t) <= v < (p + 1) * (10 * t)
  {
    assert p * (10 * t) + d * t == (p * 10 + d) * t;
    assert (p + 1) * (10 * t) == (p * 10 + d + 1) * t + (9 - d) * t;
  }

  lemma {:induction false} PrefixBounds(s: string, k: nat)
    requires AllDigits(s) && k <= |s|
    ensures Value(s[..k]) * TenTo(|s| - k) <= Value(s) < (Value(s[..k]) + 1) * TenTo(|s| - k)
    decreases |s| - k
  {
    if k == |s| {
      assert s[..k] == s;
    } else {
      PrefixBounds(s, k + 1);
      AccumulatedStep(s, k);
      var t := TenTo(|s| - (k + 1));
      assert TenTo(|s| - k) == 10 * t;
      hide *;
      DigitRange(s, k);
      OneDigitLess(Value(s), Value(s[..k]), DigitOf(s[k]), t);
    }
  }

  lemma DigitRange(s: string, k: nat)
    requires AllDigits(s) && k < |s|
    ensures 0 <= DigitOf(s[k]) < 10
  {
  }

  /** A prefix of a digit string is worth the number without the remaining digits. */
  lemma PrefixIsQuotient(s: string, k: nat)
    requires AllDigits(s) && k <= |s|
    ensures Value(s[..k]) == Value(s) / TenTo(|s| - k)
  {
    PrefixBounds(s, k);
    hide *;
    QuotientIs(Value(s), Value(s[..k]), TenTo(|s| - k));
  }

  lemma AccumulatedIs(s: string, k: nat)
    requires AllDigits(s) && k <= |s| && Value(s) >= 0
    ensures Accumulated(s, k) == Cut(Value(s), |s| - k)
  {
    PrefixIsQuotient(s, k);
    hide Value, TenTo, AllDigits;
  }

  lemma DropsIffWraps(s: string, k: nat)
    requires AllDigits(s) && k < |s| && Value(s) >= 0
    ensures Drops(s, k) <==> WrapsAt(Value(s), |s| - (k + 1))
  {
    AccumulatedIs(s, k);
    AccumulatedIs(s, k + 1);
    hide Value, Cut, AllDigits, Accumulated;
    assert |s| - (k + 1) + 1 == |s| - k;
  }

  lemma NothingLeft(v: nat, n: nat, j: nat)
    requires v < TenTo(n) && n <= j
    ensures !WrapsAt(v, j)
  {
    TenToMonotonic(n, j);
    TenToMonotonic(n, j + 1);
    hide TenTo;
    QuotientIs(v, 0, TenTo(j));
    QuotientIs(v, 0, TenTo(j + 1));
  }

  lemma NoticedIffDrops(s: string)
    requires AllDigits(s) && Value(s) >= 0
    ensures Noticed(Value(s)) <==> exists k | 0 <= k < |s| :: Drops(s, k)
  {
    var v := Value(s);
    ValueBelowTenTo(s);
    hide Value, AllDigits, WrapsAt, Drops;
    if j: nat :| WrapsAt(v, j) {
      if j >= |s| {
        NothingLeft(v, |s|, j);
      } else {
        DropsIffWraps(s, |s| - (j + 1));
        assert Drops(s, |s| - (j + 1));
      }
    }
    if k :| 0 <= k < |s| && Drops(s, k) {
      DropsIffWraps(s, k);
      assert WrapsAt(v, |s| - (k + 1));
    }
  }

  /** Strict `atou` on every digit string, whatever its length. */
  lemma AtouOnDigits(s: string)
    requires s != [] && AllDigits(s)
    ensures Value(s) >= 0
    ensures Atou(s, true) == if Noticed(Value(s)) then None else Some(Value(s) % WORD)
  {
    DigitCountIs(s, |s|);
    ValueGrows(s, |s|);
    assert s[..|s|] == s;
    NoticedIffDrops(s);
    hide Drops, Value, Noticed, AllDigits;
  }

  lemma SmallIsNotNoticed(s: string)
    requires s != [] && AllDigits(s) && Value(s) < WORD
    ensures Value(s) >= 0 && !Noticed(Value(s))
  {
    AtouOnDigits(s);
    AtouAcceptsBelow(s);
    hide Noticed, Value, Atou;
  }

  /** The result of strict `atou` is right iff the number fits or its overflow is noticed. */
  lemma AtouRightIff(s: string)
    requires s != [] && AllDigits(s)
    ensures Value(s) >= 0
    ensures Atou(s, true) == (if Value(s) < WORD then Some(Value(s)) else None)
            <==> Value(s) < WORD || Noticed(Value(s))
  {
    AtouOnDigits(s);
    if Value(s) < WORD {
      AtouAcceptsBelow(s);
    }
    hide Noticed, Value, Atou;
  }

  // Printing.

  /** The decimal digits of a number. */
  function Digits(v: nat): (s: string) {
    if v < 10 then [DigitChar(v)] else Digits(v / 10) + [DigitChar(v % 10)]
  }

  function DigitChar(d: int): (c: char)
    requires 0 <= d < 10
    ensures IsDigit(c) && DigitOf(c) == d
  {
    (d + '0' as int) as char
  }

  lemma {:induction false} DigitsHaveValue(v: nat)
    ensures Digits(v) != [] && AllDigits(Digits(v)) && Value(Digits(v)) == v
  {
    var s := Digits(v);
    if v < 10 {
      assert s[..0] == [];
      assert Value(s) == Value(s[..0]) * 10 + v;
    } else {
      DigitsHaveValue(v / 10);
      assert s[..|s| - 1] == Digits(v / 10);
    }
  }

  /** The overflow test is incomplete: 30000000000000000000 is above 2^64 and is accepted. */
  lemma AtouAcceptsLargeOverflow()
    ensures Atou(Digits(30000000000000000000), true) == Some(11553255926290448384)
  {
    var v := 30000000000000000000;
    var s := Digits(v);
    DigitsHaveValue(v);
    DigitsHaveValue(v / 10);
    assert s[..|s| - 1] == Digits(v / 10);
    hide Digits, Atou;
    AtouExact(s);
  }

  /** The number of digits of a 64-bit number. */
  lemma {:induction false} DigitsLength(v: nat, limit: nat, n: nat)
    requires v < limit && n > 0 && limit <= TenTo(n)
    ensures |Digits(v)| <= n
  {
    if v >= 10 {
      assert n > 1 by {
        assert TenTo(1) == 10 * TenTo(0);
      }
      DigitsLength(v / 10, TenTo(n - 1), n - 1);
    }
  }

  lemma TenToValues()
    ensures TenTo(19) == 10000000000000000000 && TenTo(20) == 100000000000000000000
  {
    assert TenTo(8) == 100000000;
    assert TenTo(16) == 10000000000000000;
  }

  /**
   `utoa`: fills the buffer from its end and returns the index of the first character.  21 cells suffice
   for every 64-bit value and its terminator.
   */
  method PrintUnsigned(value: nat, buf: array<char>) returns (c: nat)
    requires value < WORD && buf.Length >= 21
    modifies buf
    ensures buf.Length - 21 <= c < buf.Length
    ensures buf[c..] == Digits(value) + ['\0']
    ensures buf[..c] == old(buf[..c])
  {
    TenToValues();
    DigitsLength(value, WORD, 20);
    c := PrintDigits(value, buf, 20);
  }

  lemma SuffixStep(s: string, c: nat)
    requires c < |s|
    ensures s[c..] == [s[c]] + s[c + 1..]
  {
  }

  lemma DigitsStep(v: nat, tail: string)
    ensures v >= 10 ==>
              && Digits(v) + tail == Digits(v / 10) + ([DigitChar(v % 10)] + tail)
              && |Digits(v)| == |Digits(v / 10)| + 1
    ensures v < 10 ==> Digits(v) == [DigitChar(v)]
  {
    if v >= 10 {
      assert Digits(v) == Digits(v / 10) + [DigitChar(v % 10)];
    }
  }

  /** The loop that both printers share: at most `n` digits and the terminator. */
  method PrintDigits(value: nat, buf: array<char>, ghost n: nat) returns (c: nat)
    requires |Digits(value)| <= n < buf.Length
    modifies buf
    ensures c + |Digits(value)| + 1 == buf.Length
    ensures buf[c..] == Digits(value) + ['\0']
    ensures buf[..c] == old(buf[..c])
  {
    hide Digits;
    ghost var was := buf[..];
    var v := value;
    c := buf.Length;
    c := c - 1;
    buf[c] := '\0';
    ghost var tail: string := ['\0'];
    while v >= 10
      invariant |Digits(v)| <= c < buf.Length
      invariant buf[c..] == tail && Digits(value) + ['\0'] == Digits(v) + tail
      invariant c + |tail| == buf.Length
      invariant forall i | 0 <= i < c :: buf[i] == was[i]
    {
      DigitsStep(v, tail);
      var v2 := v / 10;
      c := c - 1;
      buf[c] := DigitChar(v - v2 * 10);
      tail := [DigitChar(v % 10)] + tail;
      SuffixStep(buf[..], c);
      assert buf[c + 1..] == buf[..][c + 1..];
      v := v2;
    }
    DigitsStep(v, tail);
    c := c - 1;
    buf[c] := DigitChar(v);
    SuffixStep(buf[..], c);
    assert buf[c + 1..] == buf[..][c + 1..];
    assert buf[..c] == was[..c];
  }

  // Signed numbers.  The casts of the library wrap in two's complement.

  function ToU64(x: int): (r: int) {
    x % WORD
  }

  function ToI64(x: int): (r: int)
    ensures -HALF <= r < HALF
  {
    (x + HALF) % WORD - HALF
  }

  /** `(UINT_TYPE)(v < 0 ? -v : v)`: the negation of the smallest value wraps to itself. */
  function Magnitude(v: int): (r: int) {
    ToU64(if v < 0 then ToI64(-v) else v)
  }

  function Signed(v: int): (s: string)
    requires -HALF <= v < HALF
  {
    MagnitudeIs(v);
    if v < 0 then ['-'] + Digits(Magnitude(v)) else Digits(Magnitude(v))
  }

  lemma MagnitudeIs(v: int)
    requires -HALF <= v < HALF
    ensures Magnitude(v) == if v < 0 then -v else v
  {
  }

  /** `itoa`: like `utoa`, with a sign; 21 cells suffice for every 64-bit value. */
  method PrintSigned(v: int, buf: array<char>) returns (c: nat)
    requires -HALF <= v < HALF && buf.Length >= 21
    modifies buf
    ensures buf.Length - 21 <= c < buf.Length
    ensures buf[c..] == Signed(v) + ['\0']
    ensures buf[..c] == old(buf[..c])
  {
    ghost var was := buf[..];
    MagnitudeIs(v);
    var uv := Magnitude(v);
    TenToValues();
    DigitsLength(uv, HALF + 1, 19);
    hide Digits, Magnitude;
    c := PrintDigits(uv, buf, 19);
    if v < 0 {
      ghost var rest := buf[c..];
      assert buf[..c - 1] == buf[..c][..c - 1] && was[..c][..c - 1] == was[..c - 1];
      c := c - 1;
      buf[c] := '-';
      assert buf[c + 1..] == rest;
      assert buf[c..] == ['-'] + rest;
    }
  }

  function Atoi(s: string, strict: bool): (r: Option<int>) {
    var sign := if CharAt(s, 0) == '-' then -1 else 1;
    var t := if sign == -1 || CharAt(s, 0) == '+' then s[1..] else s;
    match Atou(t, strict)
    case None => None
    case Some(r) =>
      if r >= HALF && (sign > 0 || ToU64(2 * r) != 0) then None else Some(ToI64(ToI64(r) * sign))
  }

  /** `atoi`: the sign, the digit loop, and the range test on the highest bit. */
  method ParseSigned(s: string, strict: bool) returns (r: Option<int>)
    ensures r == Atoi(s, strict)
  {
    hide Scan, ToU64, ToI64;
    var sign := if CharAt(s, 0) == '-' then -1 else 1;
    var t := s;
    if sign == -1 || CharAt(s, 0) == '+' {
      t := s[1..];
    }
    var ok, value, p := ScanDigits(t);
    if !ok {
      return None;
    }
    if p == 0 {
      return None;
    }
    if strict && CharAt(t, p) != '\0' {
      return None;
    }
    if value >= HALF && (sign > 0 || ToU64(2 * value) != 0) {
      return None;
    }
    r := Some(ToI64(ToI64(value) * sign));
  }

  /** The range test and the wrapping multiplication of `atoi` are exact for every magnitude below 2^64. */
  lemma RangeTestExact(r: int, sign: int)
    requires 0 <= r < WORD && (sign == 1 || sign == -1)
    ensures !(r >= HALF && (sign > 0 || ToU64(2 * r) != 0)) <==> -HALF <= sign * r < HALF
    ensures -HALF <= sign * r < HALF ==> ToI64(ToI64(r) * sign) == sign * r
  {
  }

  /** The number that a sign and a magnitude stand for. */
  function WithSign(p: string, r: int): (v: int) {
    if p == "-" then -r else r
  }

  predicate FitsI64(v: int) {
    -HALF <= v < HALF
  }

  /** `atoi` is `atou` behind the sign, followed by an exact range test of the wrapped magnitude. */
  lemma AtoiOfAtou(p: string, t: string)
    requires (p == "" || p == "+" || p == "-") && t != [] && AllDigits(t)
    requires Atou(t, true).Some? ==> 0 <= Atou(t, true).value < WORD
    ensures Atoi(p + t, true) ==
            match Atou(t, true)
            case None => None
            case Some(r) => if FitsI64(WithSign(p, r)) then Some(WithSign(p, r)) else None
  {
    assert IsDigit(t[0]);
    assert (p + t)[|p|..] == t;
    assert CharAt(p + t, 0) == if p == "" then t[0] else p[0];
    if Atou(t, true).Some? {
      RangeTestExact(Atou(t, true).value, -1);
      RangeTestExact(Atou(t, true).value, 1);
    }
    hide Atou, ToU64, ToI64, AllDigits;
  }

  /** Strict `atoi` on every digit string behind no sign, a plus or a minus. */
  lemma AtoiOnDigits(p: string, t: string)
    requires (p == "" || p == "+" || p == "-") && t != [] && AllDigits(t)
    ensures Value(t) >= 0
    ensures var v := WithSign(p, Value(t) % WORD);
            Atoi(p + t, true) == if !Noticed(Value(t)) && FitsI64(v) then Some(v) else None
  {
    AtouOnDigits(t);
    hide Atou, Noticed, Value, Atoi, AllDigits;
    AtoiOfAtou(p, t);
  }

  /**
   The result of strict `atoi` is right iff the magnitude is below 2^64, its overflow is noticed, or its
   wrapped value fails the range test by luck.
   */
  lemma AtoiRightIff(p: string, t: string)
    requires (p == "" || p == "+" || p == "-") && t != [] && AllDigits(t)
    ensures Value(t) >= 0
    ensures var v := WithSign(p, Value(t));
            Atoi(p + t, true) == (if FitsI64(v) then Some(v) else None)
            <==> Value(t) < WORD || Noticed(Value(t)) || !FitsI64(WithSign(p, Value(t) % WORD))
  {
    AtoiOnDigits(p, t);
    if Value(t) < WORD {
      SmallIsNotNoticed(t);
    }
    SmallModulo(Value(t));
    hide Noticed, Value, Atoi, AllDigits;
  }

  /** A signed digit string with magnitude below 2^64 is accepted iff its value fits, and then exactly. */
  lemma AtoiExact(p: string, t: string)
    requires (p == "" || p == "+" || p == "-") && t != [] && AllDigits(t) && Value(t) < WORD
    ensures var v := WithSign(p, Value(t));
            Atoi(p + t, true) == if FitsI64(v) then Some(v) else None
  {
    AtoiRightIff(p, t);
    hide Noticed, Value, Atoi;
  }

  /** Up to 20 digits an overflow is noticed iff the wrapped value is smaller than that of all digits but the last. */
  lemma AtoiExactUpTo20(p: string, t: string)
    requires (p == "" || p == "+" || p == "-") && t != [] && AllDigits(t) && |t| <= 20
    ensures var v := WithSign(p, Value(t) % WORD);
            Atoi(p + t, true) ==
            if (Value(t) < WORD || Value(t) % WORD >= Value(t[..|t| - 1])) && FitsI64(v) then Some(v) else None
  {
    AtouExactUpTo20(t);
    hide Atou, Value, Atoi, AllDigits;
    AtoiOfAtou(p, t);
  }

  /** The same incompleteness in `atoi`: 25000000000000000000 is accepted with a wrong value. */
  lemma AtoiAcceptsLargeOverflow()
    ensures Atoi(Digits(25000000000000000000), true) == Some(6553255926290448384)
  {
    var v := 25000000000000000000;
    var s := Digits(v);
    DigitsHaveValue(v);
    DigitsHaveValue(v / 10);
    assert s[..|s| - 1] == Digits(v / 10) && "" + s == s;
    hide Digits, Atou, Atoi, AllDigits, Value;
    AtouExact(s);
    AtoiOfAtou("", s);
  }

  /** Parsing inverts printing for every unsigned and every signed 64-bit value. */
  lemma UnsignedRoundTrip(v: nat)
    requires v < WORD
    ensures Atou(Digits(v), true) == Some(v)
  {
    DigitsHaveValue(v);
    AtouAcceptsBelow(Digits(v));
  }

  lemma SignedRoundTrip(v: int)
    requires -HALF <= v < HALF
    ensures Atoi(Signed(v), true) == Some(v)
  {
    MagnitudeIs(v);
    var t := Digits(Magnitude(v));
    DigitsHaveValue(Magnitude(v));
    assert "" + t == t;
    hide Atoi, Digits, Magnitude, Value, AllDigits;
    if v < 0 {
      AtoiExact("-", t);
    } else {
      AtoiExact("", t);
    }
  }

  // What follows the digits, and what comes instead of them.

  predicate StartsNoDigit(s: string) {
    s == "" || !IsDigit(s[0])
  }

  lemma PrefixOfBoth(d: string, tail: string, k: nat)
    requires k <= |d|
    ensures (d + tail)[..k] == d[..k] && Accumulated(d + tail, k) == Accumulated(d, k)
  {
  }

  lemma ScanWithTail(d: string, tail: string)
    requires AllDigits(d) && StartsNoDigit(tail)
    ensures DigitCount(d + tail) == |d| && DigitCount(d) == |d|
    ensures Scan(d + tail) == Scan(d)
  {
    DigitCountIs(d, |d|);
    DigitCountIs(d + tail, |d|);
    PrefixOfBoth(d, tail, |d|);
    forall k | 0 <= k < |d|
      ensures Drops(d + tail, k) <==> Drops(d, k)
    {
      PrefixOfBoth(d, tail, k);
      PrefixOfBoth(d, tail, k + 1);
    }
    hide Accumulated, DigitCount, Drops;
  }

  /** `atou` on digits with anything behind them, strict or not. */
  lemma AtouWithTail(d: string, tail: string, strict: bool)
    requires d != "" && AllDigits(d) && StartsNoDigit(tail)
    ensures Atou(d + tail, strict) == if strict && tail != "" && tail[0] != '\0' then None else Atou(d, true)
  {
    ScanWithTail(d, tail);
    hide Scan, DigitCount;
    assert CharAt(d + tail, |d|) == if tail == "" then '\0' else tail[0];
  }

  /** Without a digit at the front nothing is accepted. */
  lemma AtouNeedsDigit(s: string, strict: bool)
    requires StartsNoDigit(s)
    ensures Atou(s, strict) == None
  {
  }

  predicate StartsWithSign(s: string) {
    s != "" && (s[0] == '+' || s[0] == '-')
  }

  lemma AtoiFollowsAtou(p: string, s: string, t: string, strict: bool)
    requires (p == "" || p == "+" || p == "-") && (p == "" ==> !StartsWithSign(s) && !StartsWithSign(t))
    requires Atou(s, strict) == Atou(t, true)
    ensures Atoi(p + s, strict) == Atoi(p + t, true)
  {
    assert (p + s)[|p|..] == s && (p + t)[|p|..] == t;
    assert p != "" ==> CharAt(p + s, 0) == p[0] && CharAt(p + t, 0) == p[0];
    hide Atou, ToU64, ToI64;
  }

  /** `atoi` on a sign and digits with anything behind them, strict or not. */
  lemma AtoiWithTail(p: string, d: string, tail: string, strict: bool)
    requires (p == "" || p == "+" || p == "-") && d != "" && AllDigits(d) && StartsNoDigit(tail)
    ensures Atoi(p + (d + tail), strict) == if strict && tail != "" && tail[0] != '\0' then None else Atoi(p + d, true)
  {
    AtouWithTail(d, tail, strict);
    assert (d + tail)[0] == d[0] && IsDigit(d[0]);
    if strict && tail != "" && tail[0] != '\0' {
      AtoiNeedsAtou(p, d + tail, strict);
    } else {
      AtoiFollowsAtou(p, d + tail, d, strict);
    }
  }

  lemma AtoiNeedsAtou(p: string, s: string, strict: bool)
    requires (p == "" || p == "+" || p == "-") && (p == "" ==> !StartsWithSign(s)) && Atou(s, strict) == None
    ensures Atoi(p + s, strict) == None
  {
    assert (p + s)[|p|..] == s;
    assert p != "" ==> CharAt(p + s, 0) == p[0];
    hide Atou, ToU64, ToI64;
  }

  /** A lone sign, two signs, or anything else without a digit is rejected. */
  lemma AtoiNeedsDigit(p: string, s: string, strict: bool)
    requires (p == "" || p == "+" || p == "-") && (p == "" ==> !StartsWithSign(s)) && StartsNoDigit(s)
    ensures Atoi(p + s, strict) == None
  {
    AtouNeedsDigit(s, strict);
    AtoiNeedsAtou(p, s, strict);
  }

  // The digits themselves.

  const FIGURES: string := "0123456789"

  lemma Figures(d: nat, c: char)
    requires d < 10
    ensures DigitChar(d) == FIGURES[d] && DigitOf(FIGURES[d]) == d
    ensures IsDigit(c) <==> exists i :: 0 <= i < 10 && c == FIGURES[i]
  {
    if IsDigit(c) {
      assert c == FIGURES[DigitOf(c)];
    }
  }

  /** The first digit counts most. */
  lemma {:induction false} ValueOfFirst(c: char, s: string)
    ensures Value([c] + s) == DigitOf(c) * TenTo(|s|) + Value(s)
  {
    var t := [c] + s;
    if s == "" {
      assert t[..0] == "";
      assert Value(t) == Value(t[..0]) * 10 + DigitOf(c);
    } else {
      var n := |s| - 1;
      ValueOfFirst(c, s[..n]);
      assert t[..|t| - 1] == [c] + s[..n] && t[|t| - 1] == s[n];
      assert TenTo(n + 1) == 10 * TenTo(n);
      assert DigitOf(c) * (10 * TenTo(n)) == DigitOf(c) * TenTo(n) * 10;
    }
  }

  lemma LastDigit(s: string)
    requires s != "" && AllDigits(s)
    ensures Value(s[..|s| - 1]) == Value(s) / 10 && s[|s| - 1] == DigitChar(Value(s) % 10)
    ensures Value(s) >= 0 && Value(s[..|s| - 1]) >= 0
  {
    ValueGrows(s, |s|);
    ValueGrows(s, |s| - 1);
    assert s[..|s|] == s;
    DigitRange(s, |s| - 1);
  }

  lemma PositivePrefix(s: string)
    requires s != "" && AllDigits(s) && s[0] != '0'
    ensures Value(s) > 0
  {
    var t := s[1..];
    assert s == [s[0]] + t;
    ValueOfFirst(s[0], t);
    ValueGrows(t, |t|);
    assert t[..|t|] == t;
    ProductMonotonic(1, DigitOf(s[0]), TenTo(|t|));
  }

  /** Printing is the inverse of reading on digit strings without a leading zero. */
  lemma {:induction false} DigitsOfValue(s: string)
    requires s != "" && AllDigits(s) && (s[0] != '0' || |s| == 1)
    ensures Value(s) >= 0 && Digits(Value(s)) == s
  {
    LastDigit(s);
    var t := s[..|s| - 1];
    assert s == t + [s[|s| - 1]];
    if t == "" {
      assert Value(t) == 0;
    } else {
      assert t[0] == s[0];
      PositivePrefix(t);
      DigitsOfValue(t);
    }
    hide Value, AllDigits;
  }

  /** A printed number has no leading zero ... */
  lemma {:induction false} NoLeadingZero(v: nat)
    ensures Digits(v)[0] == '0' <==> v == 0
  {
    if v >= 10 {
      NoLeadingZero(v / 10);
    }
  }

  /** ... and a sign only when it is negative. */
  lemma SignedForm(v: int)
    requires -HALF <= v < HALF
    ensures Signed(v) == if v < 0 then "-" + Digits(-v) else Digits(v)
  {
    MagnitudeIs(v);
  }

  /** The least and the largest 64-bit integer, and their neighbours outside. */
  lemma Extremes()
    ensures Atoi("-" + Digits(9223372036854775808), true) == Some(-9223372036854775808)
    ensures Atoi("-" + Digits(9223372036854775809), true) == None
    ensures Atoi(Digits(9223372036854775807), true) == Some(9223372036854775807)
    ensures Atoi(Digits(9223372036854775808), true) == None
  {
    DigitsHaveValue(9223372036854775807);
    DigitsHaveValue(9223372036854775808);
    DigitsHaveValue(9223372036854775809);
    hide Digits, Atoi, Value, AllDigits;
    AtoiExact("-", Digits(9223372036854775808));
    AtoiExact("-", Digits(9223372036854775809));
    AtoiExact("", Digits(9223372036854775807));
    AtoiExact("", Digits(9223372036854775808));
    assert "" + Digits(9223372036854775807) == Digits(9223372036854775807);
    assert "" + Digits(9223372036854775808) == Digits(9223372036854775808);
  }
}
