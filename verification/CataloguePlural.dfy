/** Plural lookup: the translation holds one form after another, separated by zero bytes. */
module CataloguePlural {
  import opened CatalogueStrings
  import opened CatalogueFind
  import opened Catalogue

  /** Where the first zero byte of `s` stands, or its length. */
  function FirstZero(s: seq<int>): (k: nat)
    ensures k <= |s| && NoZero(s[..k]) && (k < |s| ==> s[k] == 0)
  {
    if s == [] || s[0] == 0 then 0
    else
      assert s[..1 + FirstZero(s[1..])] == [s[0]] + s[1..][..FirstZero(s[1..])];
      1 + FirstZero(s[1..])
  }

  lemma {:induction false} FirstZeroCuts(s: seq<int>)
    ensures UpToZero(s) == s[..FirstZero(s)]
  {
    if s != [] && s[0] != 0 {
      FirstZeroCuts(s[1..]);
    }
  }

  /** The pieces of `s` between its zero bytes; there is always one. */
  function Split(s: seq<int>): (forms: seq<seq<int>>)
    ensures |forms| > 0
  {
    var k := FirstZero(s);
    if k == |s| then [s] else [s[..k]] + Split(s[k + 1..])
  }

  /** The forms one after another, with a zero byte between neighbours. */
  function Join(forms: seq<seq<int>>): (s: seq<int>)
    requires |forms| > 0
  {
    if |forms| == 1 then forms[0] else forms[0] + [0] + Join(forms[1..])
  }

  lemma {:induction false} FirstZeroUnique(s: seq<int>, k: nat)
    requires k <= |s| && (forall i | 0 <= i < k :: s[i] != 0) && (k < |s| ==> s[k] == 0)
    ensures FirstZero(s) == k
  {
    if k > 0 {
      FirstZeroUnique(s[1..], k - 1);
    }
  }

  lemma FirstZeroIs(a: seq<int>, b: seq<int>)
    requires NoZero(a)
    ensures FirstZero(a) == |a| && FirstZero(a + [0] + b) == |a|
  {
    FirstZeroUnique(a, |a|);
    FirstZeroUnique(a + [0] + b, |a|);
  }

  /** Splitting undoes joining ... */
  lemma {:induction false} SplitJoin(forms: seq<seq<int>>)
    requires |forms| > 0 && forall i | 0 <= i < |forms| :: NoZero(forms[i])
    ensures Split(Join(forms)) == forms
  {
    if |forms| == 1 {
      FirstZeroIs(forms[0], []);
    } else {
      var rest := Join(forms[1..]);
      FirstZeroIs(forms[0], rest);
      SplitJoin(forms[1..]);
      var s := forms[0] + [0] + rest;
      assert s[..|forms[0]|] == forms[0] && s[|forms[0]| + 1..] == rest;
    }
  }

  lemma SplitNext(s: seq<int>)
    requires FirstZero(s) < |s|
    ensures Split(s) == [s[..FirstZero(s)]] + Split(s[FirstZero(s) + 1..])
    ensures Split(s)[0] == s[..FirstZero(s)] && Split(s)[1..] == Split(s[FirstZero(s) + 1..])
  {
    hide FirstZero;
  }

  lemma AroundZero(s: seq<int>, k: nat)
    requires k < |s| && s[k] == 0
    ensures s == s[..k] + [0] + s[k + 1..]
  {
  }

  lemma JoinCons(form: seq<int>, forms: seq<seq<int>>)
    requires |forms| > 0
    ensures Join([form] + forms) == form + [0] + Join(forms)
  {
    assert ([form] + forms)[1..] == forms;
  }

  /** ... and joining undoes splitting. */
  lemma {:induction false} JoinSplit(s: seq<int>)
    ensures Join(Split(s)) == s
  {
    var k := FirstZero(s);
    if k < |s| {
      JoinSplit(s[k + 1..]);
      SplitNext(s);
      AroundZero(s, k);
      hide FirstZero, Split, Join;
      JoinCons(s[..k], Split(s[k + 1..]));
    }
  }

  /** `Past` is a read beyond the image. */
  datatype Place = Nowhere | Past | At(offset: nat)

  /** The form `n` exists, and neither it nor a form before it is empty. */
  predicate Reachable(forms: seq<seq<int>>, n: nat) {
    n < |forms| && forall k | 0 <= k <= n :: forms[k] != []
  }

  /** A zero byte follows the text that ends at `end`. */
  predicate Closed(image: seq<int>, end: nat) {
    end < |image| && image[end] == 0
  }

  /** The cells `s..end` of the image hold the forms from `i` on. */
  ghost predicate Remaining(forms: seq<seq<int>>, i: int, image: seq<int>, s: int, end: int) {
    && 0 <= i && 0 <= s <= end <= |image|
    && if i >= |forms| then s == end else Split(image[s..end]) == forms[i..]
  }

  /** What is left starts with the next form; in a closed text it ends the search iff that form is empty or missing. */
  lemma NextForm(forms: seq<seq<int>>, i: int, image: seq<int>, s: int, end: int)
    requires Remaining(forms, i, image, s, end)
    ensures i < |forms| && forms[i] != [] ==>
              && s < end && image[s] != 0
              && s + |forms[i]| <= end && image[s..s + |forms[i]|] == forms[i]
    ensures Closed(image, end) ==> (image[s] == 0 <==> i >= |forms| || forms[i] == [])
    ensures Closed(image, end) && i < |forms| ==> 0 in image[s..] && UpToZero(image[s..]) == forms[i]
  {
    var text := image[s..end];
    FirstZeroCuts(text);
    if i < |forms| {
      assert forms[i] == Split(text)[0] == text[..FirstZero(text)];
    }
    if s < end {
      assert text[0] == image[s];
    }
    if Closed(image, end) {
      TextIs(image, s, end - s, text);
    }
  }

  /** The state of the search before form `i`; in a closed text it has passed non-empty forms only. */
  ghost predicate Searched(forms: seq<seq<int>>, i: int, image: seq<int>, s: int, end: int) {
    && Remaining(forms, i, image, s, end)
    && (Closed(image, end) ==> i <= |forms| && forall k | 0 <= k < i :: forms[k] != [])
  }

  lemma SearchStarts(image: seq<int>, s: nat, end: nat)
    requires s <= end <= |image|
    ensures Searched(Split(image[s..end]), 0, image, s, end)
  {
  }

  /** The separator search drops one form, be it followed by a zero byte or the last one. */
  lemma SearchStep(forms: seq<seq<int>>, i: int, image: seq<int>, s: int, end: int, k: int)
    requires Searched(forms, i, image, s, end) && s < |image| && image[s] != 0
    requires k == FirstZero(image[s..end])
    ensures s + k < end ==> Searched(forms, i + 1, image, s + k + 1, end)
    ensures s + k >= end ==> Searched(forms, i + 1, image, end, end)
  {
    NextForm(forms, i, image, s, end);
    var text := image[s..end];
    if i < |forms| {
      assert forms[i..][1..] == forms[i + 1..];
      if s + k < end {
        assert text[k + 1..] == image[s + k + 1..end];
      }
    }
  }

  /** Every form is found that can be reached without passing an empty one, and in a closed text nothing else. */
  ghost predicate IsPlaceOf(forms: seq<seq<int>>, n: nat, image: seq<int>, end: nat, r: Place) {
    && (r.At? ==> r.offset <= |image|)
    && (Reachable(forms, n) ==>
          r.At? && r.offset + |forms[n]| <= |image| && image[r.offset..r.offset + |forms[n]|] == forms[n])
    && (Closed(image, end) ==>
          && !r.Past? && (r.At? <==> Reachable(forms, n))
          && (r.At? ==> StringOf(image[r.offset..]) == Text(forms[n])))
  }

  lemma SearchHits(forms: seq<seq<int>>, n: nat, image: seq<int>, s: nat, end: nat)
    requires Searched(forms, n, image, s, end) && s < |image| && image[s] != 0
    ensures IsPlaceOf(forms, n, image, end, At(s))
  {
    NextForm(forms, n, image, s, end);
    hide Remaining, UpToZero;
  }

  lemma SearchMisses(forms: seq<seq<int>>, i: int, n: nat, image: seq<int>, s: nat, end: nat)
    requires Searched(forms, i, image, s, end) && i <= n && s <= end
    ensures s < |image| && image[s] == 0 ==> IsPlaceOf(forms, n, image, end, Nowhere)
    ensures s >= |image| ==> IsPlaceOf(forms, n, image, end, Past)
  {
    NextForm(forms, i, image, s, end);
    hide UpToZero;
  }

  /** `find_plural_form` on any text inside the image. */
  method FindPluralForm(image: seq<int>, str: nat, strLen: nat, n: nat) returns (r: Place)
    requires str + strLen <= |image|
    ensures IsPlaceOf(Split(image[str..str + strLen]), n, image, str + strLen, r)
  {
    ghost var forms, end := Split(image[str..str + strLen]), str + strLen;
    var s, len, i := str, strLen, 0;
    SearchStarts(image, str, end);
    hide *;
    while s < |image| && image[s] != 0
      invariant 0 <= i <= n && 0 <= s <= end && s + len == end
      invariant Searched(forms, i, image, s, end)
      decreases n - i
    {
      if i == n {
        SearchHits(forms, i, image, s, end);
        return At(s);
      }
      var sepPos := MemChr(image, s, len);
      SearchStep(forms, i, image, s, end, sepPos);
      // Without a separator the pointer arithmetic wraps to the end of the text.
      var step := if sepPos == len then len else sepPos + 1;
      s := s + step;
      len := len - step;
      i := i + 1;
    }
    SearchMisses(forms, i, n, image, s, end);
    r := if s < |image| then Nowhere else Past;
  }

  /** `memchr` for a zero byte; `len` when there is none. */
  method MemChr(image: seq<int>, s: nat, len: nat) returns (k: nat)
    requires s + len <= |image|
    ensures k == FirstZero(image[s..s + len]) && k <= len
  {
    ghost var text := image[s..s + len];
    k := 0;
    while k < len && image[s + k] != 0
      invariant k <= len && forall j | 0 <= j < k :: text[j] != 0
    {
      k := k + 1;
    }
    FirstZeroUnique(text, k);
  }

  /** The plural rules that the header line can select. */
  datatype PluralRule = UnknownRule | OneForm | TwoForms

  /** The untranslated answer. */
  function Fallback(key: seq<int>, plural: seq<int>, n: nat): (s: seq<int>) {
    if n != 1 then plural else key
  }

  function FormIndex(n: nat): (i: nat) {
    if n != 1 then 1 else 0
  }

  /** What a translation yields under a rule. */
  function Chosen(rule: PluralRule, text: seq<int>, key: seq<int>, plural: seq<int>, n: nat): (s: seq<int>) {
    match rule
    case UnknownRule => Fallback(key, plural, n)
    case OneForm => UpToZero(text)
    case TwoForms =>
      if Reachable(Split(text), FormIndex(n)) then Split(text)[FormIndex(n)] else Fallback(key, plural, n)
  }

  /** Every translation is followed by a zero byte. */
  ghost predicate TextsClosed(image: seq<int>, msgs: seq<Msg>) {
    forall i | 0 <= i < |msgs| :: Closed(image, msgs[i].str + msgs[i].strLen)
  }

  function StoredText(image: seq<int>, msgs: seq<Msg>, i: nat): (s: seq<int>)
    requires InImage(image, msgs) && i < |msgs|
  {
    image[msgs[i].str..msgs[i].str + msgs[i].strLen]
  }

  /** What `mo_ngettext` answers in a table that is as the file format demands. */
  ghost predicate AnswersPlural(
    image: seq<int>, msgs: seq<Msg>, rule: PluralRule, key: seq<int>, plural: seq<int>, n: nat, r: Answer)
    requires InImage(image, msgs)
  {
    var ids := Strings(IdTails(image, msgs));
    InOrder(IdTails(image, msgs)) && TextsClosed(image, msgs) ==>
      && !r.Beyond?
      && (r.Undefined? <==> ids == [] || Less(key, ids[0]))
      && (r.Text? && key !in ids ==> r.s == Fallback(key, plural, n))
      && (forall i | 0 <= i < |ids| :: r.Text? && ids[i] == key ==>
            r.s == Chosen(rule, StoredText(image, msgs, i), key, plural, n))
  }

  lemma PluralFound(image: seq<int>, msgs: seq<Msg>, rule: PluralRule, key: seq<int>, plural: seq<int>, n: nat,
                    at: nat, r: Answer)
    requires InImage(image, msgs) && IsEntry(image, msgs, at, key)
    requires InOrder(IdTails(image, msgs)) ==> !Less(key, Strings(IdTails(image, msgs))[0])
    requires Closed(image, msgs[at].str + msgs[at].strLen) ==>
               r == Text(Chosen(rule, StoredText(image, msgs, at), key, plural, n))
    ensures AnswersPlural(image, msgs, rule, key, plural, n, r)
  {
    var tails := IdTails(image, msgs);
    if InOrder(tails) {
      OnlyEntry(tails, key, at);
    }
    hide InOrder, UpToZero, InImage, Less, Chosen, StoredText;
  }

  lemma PluralMissed(image: seq<int>, msgs: seq<Msg>, rule: PluralRule, key: seq<int>, plural: seq<int>, n: nat)
    requires InImage(image, msgs)
    requires InOrder(IdTails(image, msgs)) ==>
               && key !in Strings(IdTails(image, msgs))
               && msgs != [] && !Less(key, Strings(IdTails(image, msgs))[0])
    ensures AnswersPlural(image, msgs, rule, key, plural, n, Text(Fallback(key, plural, n)))
  {
    hide InOrder, UpToZero, InImage, Less, Chosen, StoredText, TextsClosed;
  }

  lemma PluralWild(image: seq<int>, msgs: seq<Msg>, rule: PluralRule, key: seq<int>, plural: seq<int>, n: nat)
    requires InImage(image, msgs)
    requires InOrder(IdTails(image, msgs)) ==> msgs == [] || Less(key, Strings(IdTails(image, msgs))[0])
    ensures AnswersPlural(image, msgs, rule, key, plural, n, Undefined)
  {
    hide InOrder, UpToZero, InImage, Less, Chosen, StoredText, TextsClosed;
  }

  lemma PluralUnterminated(image: seq<int>, msgs: seq<Msg>, rule: PluralRule, key: seq<int>, plural: seq<int>, n: nat)
    requires InImage(image, msgs) && !AllTerminated(IdTails(image, msgs))
    ensures AnswersPlural(image, msgs, rule, key, plural, n, Beyond)
  {
  }

  /** `mo_ngettext`; in any table an answer without a plural rule is one of the two arguments. */
  method NGettext(image: seq<int>, msgs: seq<Msg>, rule: PluralRule, key: seq<int>, plural: seq<int>, n: nat)
    returns (r: Answer)
    requires AreBytes(image) && InImage(image, msgs) && |msgs| < WORD32 && IsCString(key)
    ensures AnswersPlural(image, msgs, rule, key, plural, n, r)
    ensures rule.UnknownRule? && r.Text? ==> r.s == Fallback(key, plural, n)
  {
    TailsAreBytes(image, msgs);
    var tails := IdTails(image, msgs);
    var found := Find(tails, key);
    hide AnswersPlural, AreBytes, UpToZero, InOrder, AllTerminated, Less, IsCString, Chosen, StrCmp, Strings;
    match found
    case Wild =>
      PluralWild(image, msgs, rule, key, plural, n);
      r := Undefined;
    case Unterminated =>
      PluralUnterminated(image, msgs, rule, key, plural, n);
      r := Beyond;
    case NotFound =>
      PluralMissed(image, msgs, rule, key, plural, n);
      r := Text(if n != 1 then plural else key);
    case Found(at) =>
      r := Form(image, msgs[at], rule, key, plural, n);
      PluralFound(image, msgs, rule, key, plural, n, at, r);
  }

  /** The rule applied to a message that was found. */
  method Form(image: seq<int>, m: Msg, rule: PluralRule, key: seq<int>, plural: seq<int>, n: nat)
    returns (r: Answer)
    requires m.str + m.strLen <= |image|
    ensures Closed(image, m.str + m.strLen) ==>
              r == Text(Chosen(rule, image[m.str..m.str + m.strLen], key, plural, n))
    ensures rule.UnknownRule? ==> r == Text(Fallback(key, plural, n))
    ensures rule.OneForm? ==> r == StringOf(image[m.str..])
  {
    var place := Nowhere;
    match rule {
      case UnknownRule =>
      case OneForm =>
        if Closed(image, m.str + m.strLen) {
          TextIs(image, m.str, m.strLen, image[m.str..m.str + m.strLen]);
        }
        place := At(m.str);
      case TwoForms =>
        place := FindPluralForm(image, m.str, m.strLen, if n != 1 then 1 else 0);
    }
    match place {
      case At(offset) =>
        return StringOf(image[offset..]);
      case Past =>
        return Beyond;
      case Nowhere =>
        return Text(if n != 1 then plural else key);
    }
  }

  lemma MatchingTexts(image: seq<int>, msgs: seq<Msg>, entries: seq<Entry>)
    requires AllMatch(image, msgs, entries) && |msgs| == |entries|
    ensures InImage(image, msgs) && TextsClosed(image, msgs)
    ensures forall i | 0 <= i < |msgs| :: StoredText(image, msgs, i) == entries[i].str
  {
    MatchingTails(image, msgs, entries);
    forall i | 0 <= i < |msgs|
      ensures Closed(image, msgs[i].str + msgs[i].strLen)
      ensures image[msgs[i].str..msgs[i].str + msgs[i].strLen] == entries[i].str
    {
      assert Matches(image, msgs[i], entries[i]);
    }
  }

  /** What parsing a well-formed catalogue image leaves for plural lookup. */
  lemma CatalogueTable(image: seq<int>, big: bool, entries: seq<Entry>)
    requires Describes(image, big, entries) && IsCatalogue(entries)
    ensures ParseTable(image).Accepted?
    ensures var msgs := ParseTable(image).msgs;
            && |msgs| == |entries| && InImage(image, msgs)
            && InOrder(IdTails(image, msgs)) && TextsClosed(image, msgs)
            && Strings(IdTails(image, msgs)) == EntryIds(entries)
            && forall i | 0 <= i < |msgs| :: StoredText(image, msgs, i) == entries[i].str
  {
    ParseRecovers(image, big, entries);
    hide Describes, ParseTable;
    var msgs := ParseTable(image).msgs;
    TableIsOrderly(image, msgs, entries);
    MatchingTails(image, msgs, entries);
    MatchingTexts(image, msgs, entries);
  }

  /** An entry that is there is answered with what the rule chooses from its text. */
  lemma AnswerIsChosen(
    image: seq<int>, big: bool, entries: seq<Entry>, i: nat, rule: PluralRule, plural: seq<int>, n: nat, r: Answer)
    requires Describes(image, big, entries) && IsCatalogue(entries) && i < |entries|
    ensures ParseTable(image).Accepted? && InImage(image, ParseTable(image).msgs)
    ensures var key := UpToZero(entries[i].id);
            AnswersPlural(image, ParseTable(image).msgs, rule, key, plural, n, r) ==>
              r == Text(Chosen(rule, entries[i].str, key, plural, n))
  {
    CatalogueTable(image, big, entries);
    NeverWild(entries, i);
    assert EntryIds(entries)[i] == UpToZero(entries[i].id);
    hide Describes, ParseTable, StoredText, IsCatalogue, Less, InOrder, TextsClosed, UpToZero, Chosen;
  }

  lemma ChosenOfTwo(forms: seq<seq<int>>, key: seq<int>, plural: seq<int>, n: nat)
    requires |forms| >= 1 && forall k | 0 <= k < |forms| :: NoZero(forms[k])
    ensures Chosen(TwoForms, Join(forms), key, plural, n) ==
            if n == 1 then if forms[0] != [] then forms[0] else key
            else if |forms| >= 2 && forms[0] != [] && forms[1] != [] then forms[1] else plural
  {
    SplitJoin(forms);
    ReachableTwo(forms);
    hide Split, Join, NoZero, Reachable, UpToZero;
  }

  lemma ReachableTwo(forms: seq<seq<int>>)
    ensures Reachable(forms, 0) <==> |forms| >= 1 && forms[0] != []
    ensures Reachable(forms, 1) <==> |forms| >= 2 && forms[0] != [] && forms[1] != []
  {
  }

  /**
   Plural lookup in every well-formed catalogue image, entry by entry: under the two-form rule `n` selects
   the first form iff it is 1, else the second; an empty or missing form, and a first form that is empty,
   answer with the arguments.
   */
  lemma PluralLookUp(
    image: seq<int>, big: bool, entries: seq<Entry>, i: nat, forms: seq<seq<int>>,
    plural: seq<int>, n: nat, r: Answer)
    requires Describes(image, big, entries) && IsCatalogue(entries) && i < |entries|
    requires |forms| >= 1 && (forall k | 0 <= k < |forms| :: NoZero(forms[k])) && entries[i].str == Join(forms)
    ensures ParseTable(image).Accepted? && InImage(image, ParseTable(image).msgs)
    ensures var key := UpToZero(entries[i].id);
            AnswersPlural(image, ParseTable(image).msgs, TwoForms, key, plural, n, r) ==>
              r == Text(if n == 1 then if forms[0] != [] then forms[0] else key
                        else if |forms| >= 2 && forms[0] != [] && forms[1] != [] then forms[1] else plural)
  {
    hide *;
    AnswerIsChosen(image, big, entries, i, TwoForms, plural, n, r);
    ChosenOfTwo(forms, UpToZero(entries[i].id), plural, n);
  }

  /** Without a rule, and for the one-form rule. */
  lemma PluralSimpleRules(
    image: seq<int>, big: bool, entries: seq<Entry>, i: nat, plural: seq<int>, n: nat, r: Answer)
    requires Describes(image, big, entries) && IsCatalogue(entries) && i < |entries|
    ensures ParseTable(image).Accepted? && InImage(image, ParseTable(image).msgs)
    ensures var key := UpToZero(entries[i].id);
            && (AnswersPlural(image, ParseTable(image).msgs, UnknownRule, key, plural, n, r) ==>
                  r == Text(if n == 1 then key else plural))
            && (AnswersPlural(image, ParseTable(image).msgs, OneForm, key, plural, n, r) ==>
                  r == Text(UpToZero(entries[i].str)))
  {
    AnswerIsChosen(image, big, entries, i, UnknownRule, plural, n, r);
    AnswerIsChosen(image, big, entries, i, OneForm, plural, n, r);
    hide Describes, IsCatalogue, AnswersPlural, ParseTable, InImage, UpToZero;
  }

  /** A key that no entry has is answered with one of the arguments, under every rule. */
  lemma PluralOfMissingKey(
    image: seq<int>, big: bool, entries: seq<Entry>, rule: PluralRule, key: seq<int>, plural: seq<int>, n: nat, r: Answer)
    requires Describes(image, big, entries) && IsCatalogue(entries)
    requires forall i | 0 <= i < |entries| :: UpToZero(entries[i].id) != key
    ensures ParseTable(image).Accepted? && InImage(image, ParseTable(image).msgs)
    ensures AnswersPlural(image, ParseTable(image).msgs, rule, key, plural, n, r) ==>
              r == Text(if n == 1 then key else plural)
  {
    CatalogueTable(image, big, entries);
    EmptyIsLeast(key);
    assert EntryIds(entries)[0] == [];
    assert key !in EntryIds(entries);
    hide Describes, ParseTable, Split, StoredText, Less, InOrder, TextsClosed, UpToZero, Chosen;
  }

  lemma NeverWild(entries: seq<Entry>, i: nat)
    requires IsCatalogue(entries) && i < |entries|
    ensures EntryIds(entries) != [] && !Less(EntryIds(entries)[i], EntryIds(entries)[0])
  {
    EmptyIsLeast(EntryIds(entries)[i]);
  }
}
