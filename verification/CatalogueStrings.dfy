/** C strings inside a byte image, and their comparison order. */
module CatalogueStrings {
  import opened Words

  /** Bytes are integers below 256; a C string has no zero byte. */
  ghost predicate NoZero(s: seq<int>) {
    forall i | 0 <= i < |s| :: s[i] != 0
  }

  /** The bytes of `s` before the first zero, or all of them. */
  function UpToZero(s: seq<int>): (t: seq<int>) {
    if s == [] || s[0] == 0 then [] else [s[0]] + UpToZero(s[1..])
  }

  /** The sign of `strcmp`. */
  function Compare(a: seq<int>, b: seq<int>): (c: int) {
    if a == [] then (if b == [] then 0 else -1)
    else if b == [] then 1
    else if a[0] < b[0] then -1
    else if a[0] > b[0] then 1
    else Compare(a[1..], b[1..])
  }

  predicate Less(a: seq<int>, b: seq<int>) {
    Compare(a, b) < 0
  }

  lemma {:induction false} CompareZero(a: seq<int>, b: seq<int>)
    ensures Compare(a, b) == 0 <==> a == b
  {
    if a != [] && b != [] {
      CompareZero(a[1..], b[1..]);
      if a[0] == b[0] && a[1..] == b[1..] {
        assert a == [a[0]] + a[1..] == b;
      }
    }
  }

  lemma {:induction false} CompareOpposite(a: seq<int>, b: seq<int>)
    ensures Compare(a, b) == -Compare(b, a)
  {
    if a != [] && b != [] {
      CompareOpposite(a[1..], b[1..]);
    }
  }

  lemma {:induction false} LessTransitive(a: seq<int>, b: seq<int>, c: seq<int>)
    requires Less(a, b) && Less(b, c)
    ensures Less(a, c)
  {
    if a != [] && a[0] == b[0] == c[0] {
      LessTransitive(a[1..], b[1..], c[1..]);
    }
  }

  ghost predicate Increasing(ids: seq<seq<int>>) {
    forall i, j :: 0 <= i < j < |ids| ==> Less(ids[i], ids[j])
  }

  lemma EmptyIsLeast(key: seq<int>)
    ensures !Less(key, [])
  {
  }

  ghost predicate IsCString(s: seq<int>) {
    forall i | 0 <= i < |s| :: s[i] > 0
  }

  ghost predicate AreBytes(s: seq<int>) {
    forall i | 0 <= i < |s| :: 0 <= s[i] < 256
  }

  /** `strcmp` of the bytes `raw` with a key: `None` when it reads beyond the end of `raw`. */
  function StrCmp(raw: seq<int>, key: seq<int>): (c: Option<int>) {
    if raw == [] then None
    else
      var k := if key == [] then 0 else key[0];
      if raw[0] < k then Some(-1)
      else if raw[0] > k then Some(1)
      else if k == 0 then Some(0)
      else StrCmp(raw[1..], key[1..])
  }

  /** On a terminated string it is the comparison of the strings; it finds equal strings only, and fails without a terminator only. */
  lemma {:induction false} StrCmpIs(raw: seq<int>, key: seq<int>)
    requires AreBytes(raw) && IsCString(key)
    ensures 0 in raw ==> StrCmp(raw, key) == Some(Compare(UpToZero(raw), key))
    ensures StrCmp(raw, key) == Some(0) ==> 0 in raw && UpToZero(raw) == key
    ensures StrCmp(raw, key) == None ==> 0 !in raw
  {
    if raw != [] && key != [] && raw[0] == key[0] {
      assert raw == [raw[0]] + raw[1..] && key == [key[0]] + key[1..];
      StrCmpIs(raw[1..], key[1..]);
    }
  }

  /** The order is decided by the first difference of bytes; a string comes before those that it begins. */
  lemma {:induction false} LessAtDifference(a: seq<int>, b: seq<int>, k: nat)
    requires k <= |a| && k <= |b| && a[..k] == b[..k]
    ensures k < |a| && k < |b| && a[k] < b[k] ==> Less(a, b) && !Less(b, a)
    ensures k == |a| < |b| ==> Less(a, b) && !Less(b, a)
  {
    if k > 0 {
      assert a[0] == a[..k][0] == b[..k][0] == b[0];
      assert a[1..][..k - 1] == a[..k][1..] && b[1..][..k - 1] == b[..k][1..];
      LessAtDifference(a[1..], b[1..], k - 1);
    }
  }

  /** Where `a` and `b` differ first. */
  function Agreeing(a: seq<int>, b: seq<int>): (k: nat)
    ensures k <= |a| && k <= |b| && a[..k] == b[..k]
    ensures k < |a| && k < |b| ==> a[k] != b[k]
  {
    if a == [] || b == [] || a[0] != b[0] then 0
    else
      var k := 1 + Agreeing(a[1..], b[1..]);
      assert a[..k] == [a[0]] + a[1..][..k - 1] && b[..k] == [b[0]] + b[1..][..k - 1];
      k
  }

  /** So it is the order of a dictionary. */
  lemma LessIff(a: seq<int>, b: seq<int>)
    ensures Less(a, b) <==>
            exists k: nat :: k <= |a| && k < |b| && a[..k] == b[..k] && (k == |a| || a[k] < b[k])
  {
    var k := Agreeing(a, b);
    LessAtDifference(a, b, k);
    LessAtDifference(b, a, k);
    if k == |a| == |b| {
      assert a == a[..k] == b[..k] == b;
      CompareZero(a, b);
    }
    if m: nat :| m <= |a| && m < |b| && a[..m] == b[..m] && (m == |a| || a[m] < b[m]) {
      LessAtDifference(a, b, m);
    }
    hide Less;
  }

  /** A C string ends at its first zero. */
  lemma {:induction false} UpToZeroIs(s: seq<int>, rest: seq<int>)
    requires NoZero(s)
    ensures UpToZero(s) == s && UpToZero(s + [0] + rest) == s
  {
    var t := s + [0] + rest;
    if s == [] {
      assert t[0] == 0;
    } else {
      UpToZeroIs(s[1..], rest);
      assert t[0] == s[0] && t[1..] == s[1..] + [0] + rest;
    }
  }
}
