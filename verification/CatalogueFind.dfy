/** The binary search of the catalogue, with unsigned bounds. */
module CatalogueFind {
  import opened Words
  import opened CatalogueStrings

  /**
   `Wild` is the access outside the table that the wrapped upper bound leads to, `Unterminated` the
   comparison that reads beyond the image.
   */
  datatype FindResult = Found(i: nat) | NotFound | Wild | Unterminated

  /** The C strings at the ends of the image that the id pointers see. */
  function Strings(tails: seq<seq<int>>): (ids: seq<seq<int>>)
    ensures |ids| == |tails| && forall i | 0 <= i < |ids| :: ids[i] == UpToZero(tails[i])
  {
    seq(|tails|, i requires 0 <= i < |tails| => UpToZero(tails[i]))
  }

  ghost predicate AllTerminated(tails: seq<seq<int>>) {
    forall i | 0 <= i < |tails| :: 0 in tails[i]
  }

  /** What the file format demands of a table: terminated, strictly increasing ids. */
  ghost predicate InOrder(tails: seq<seq<int>>) {
    AllTerminated(tails) && Increasing(Strings(tails))
  }

  ghost predicate AllBytes(tails: seq<seq<int>>) {
    forall i | 0 <= i < |tails| :: AreBytes(tails[i])
  }

  /** All ids before `l` are smaller, all from `h` on are larger than the key. */
  ghost predicate Narrowed(ids: seq<seq<int>>, key: seq<int>, l: int, h: int) {
    && 0 <= l <= h <= |ids|
    && (forall i | 0 <= i < l :: Less(ids[i], key))
    && (forall i | h <= i < |ids| :: Less(key, ids[i]))
  }

  lemma NarrowLeft(ids: seq<seq<int>>, key: seq<int>, l: int, h: int, mid: int)
    requires Increasing(ids) && Narrowed(ids, key, l, h) && l <= mid < h && Less(ids[mid], key)
    ensures Narrowed(ids, key, mid + 1, h)
  {
    forall i | 0 <= i < mid + 1
      ensures Less(ids[i], key)
    {
      if i < mid {
        LessTransitive(ids[i], ids[mid], key);
      }
    }
  }

  lemma NarrowRight(ids: seq<seq<int>>, key: seq<int>, l: int, h: int, mid: int)
    requires Increasing(ids) && Narrowed(ids, key, l, h) && l <= mid < h && Less(key, ids[mid])
    ensures Narrowed(ids, key, l, mid)
  {
    forall i | mid <= i < |ids|
      ensures Less(key, ids[i])
    {
      if i > mid {
        LessTransitive(key, ids[mid], ids[i]);
      }
    }
  }

  lemma NowhereElse(ids: seq<seq<int>>, key: seq<int>, l: int)
    requires Narrowed(ids, key, l, l)
    ensures key !in ids
  {
    forall i | 0 <= i < |ids|
      ensures ids[i] != key
    {
      CompareZero(ids[i], key);
      CompareOpposite(ids[i], key);
    }
  }

  /** The comparison of an ordered table with the key. */
  lemma ComparesId(tails: seq<seq<int>>, key: seq<int>, mid: nat)
    requires AllBytes(tails) && IsCString(key) && mid < |tails|
    ensures StrCmp(tails[mid], key) == None ==> !AllTerminated(tails)
    ensures StrCmp(tails[mid], key) == Some(0) ==> 0 in tails[mid] && UpToZero(tails[mid]) == key
    ensures AllTerminated(tails) && StrCmp(tails[mid], key).Some? ==>
              && (StrCmp(tails[mid], key).value < 0 <==> Less(Strings(tails)[mid], key))
              && (StrCmp(tails[mid], key).value > 0 <==> Less(key, Strings(tails)[mid]))
  {
    StrCmpIs(tails[mid], key);
    CompareOpposite(UpToZero(tails[mid]), key);
  }

  /**
   `find` over any table.  A hit is an entry whose id equals the key.  On a table in the order of the file
   format a miss means that there is none, and the search stays inside the table iff the table has a first
   id that is not larger than the key; otherwise `r` wraps to `SIZE_MAX` and the next probe lies outside.
   */
  method Find(tails: seq<seq<int>>, key: seq<int>) returns (found: FindResult)
    requires AllBytes(tails) && IsCString(key) && |tails| < 0x1_0000_0000
    ensures found.Found? ==> found.i < |tails| && 0 in tails[found.i] && UpToZero(tails[found.i]) == key
    ensures found.Unterminated? ==> !AllTerminated(tails)
    ensures found.Wild? ==> tails == [] || StrCmp(tails[0], key) == Some(1)
    ensures InOrder(tails) ==> (found.Wild? <==> tails == [] || Less(key, Strings(tails)[0]))
    ensures InOrder(tails) && found.NotFound? ==> key !in Strings(tails)
  {
    ghost var ordered, ids := InOrder(tails), Strings(tails);
    hide StrCmp, UpToZero, Strings, Increasing, Less, AllBytes, IsCString;
    var l, r := 0, if |tails| == 0 then SIZE_MAX else |tails| - 1;
    while l <= r
      invariant 0 <= l && 0 <= r
      invariant r == SIZE_MAX ==> l == 0 && (tails == [] || StrCmp(tails[0], key) == Some(1))
      invariant r != SIZE_MAX ==> l <= r + 1 <= |tails|
      invariant r != SIZE_MAX && ordered ==> Narrowed(ids, key, l, r + 1)
      decreases if r == SIZE_MAX then -1 else r - l + 1
    {
      var mid := l + (r - l) / 2;
      if mid >= |tails| {
        WildIsBelow(tails, key);
        return Wild;
      }
      ComparesId(tails, key, mid);
      var cmp := StrCmp(tails[mid], key);
      if cmp == None {
        return Unterminated;
      }
      if cmp.value == 0 {
        FoundIsNotBelow(tails, key, mid);
        return Found(mid);
      }
      if cmp.value < 0 {
        if ordered {
          NarrowLeft(ids, key, l, r + 1, mid);
        }
        l := mid + 1;
      } else {
        if ordered {
          NarrowRight(ids, key, l, r + 1, mid);
        }
        StrCmpIsSign(tails[mid], key);
        r := if mid == 0 then SIZE_MAX else mid - 1;
      }
    }
    if ordered {
      NowhereElse(ids, key, l);
      FirstNotAbove(ids, key, l);
    }
    found := NotFound;
  }

  lemma {:induction false} StrCmpIsSign(raw: seq<int>, key: seq<int>)
    ensures StrCmp(raw, key).Some? ==> StrCmp(raw, key).value in {-1, 0, 1}
  {
    if raw != [] && key != [] {
      StrCmpIsSign(raw[1..], key[1..]);
    }
  }

  lemma WildIsBelow(tails: seq<seq<int>>, key: seq<int>)
    requires AllBytes(tails) && IsCString(key)
    requires tails == [] || StrCmp(tails[0], key) == Some(1)
    ensures InOrder(tails) ==> tails == [] || Less(key, Strings(tails)[0])
  {
    if tails != [] {
      ComparesId(tails, key, 0);
    }
  }

  lemma FoundIsNotBelow(tails: seq<seq<int>>, key: seq<int>, i: nat)
    requires i < |tails| && UpToZero(tails[i]) == key
    ensures InOrder(tails) ==> !Less(key, Strings(tails)[0])
  {
    var ids := Strings(tails);
    CompareOpposite(ids[0], key);
    CompareZero(ids[0], key);
  }

  lemma FirstNotAbove(ids: seq<seq<int>>, key: seq<int>, l: int)
    requires Narrowed(ids, key, l, l) && l > 0
    ensures !Less(key, ids[0])
  {
    CompareOpposite(ids[0], key);
  }
}
