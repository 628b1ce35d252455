/** The message catalogue: reading a compiled image (section 10.3 of the GNU gettext manual) and looking messages up. */
module Catalogue {
  import opened CatalogueStrings
  import opened CatalogueFind

  const WORD32: int := 0x1_0000_0000
  const MAGIC: int := 0x950412de
  const SWAPPED_MAGIC: int := 0xde120495

  /** The 32-bit word at `at`, lowest byte first. */
  function ReadLe(image: seq<int>, at: nat): (w: int)
    requires at + 4 <= |image|
  {
    image[at] + 0x100 * image[at + 1] + 0x1_0000 * image[at + 2] + 0x100_0000 * image[at + 3]
  }

  /** The 32-bit word at `at`, highest byte first. */
  function ReadBe(image: seq<int>, at: nat): (w: int)
    requires at + 4 <= |image|
  {
    image[at + 3] + 0x100 * image[at + 2] + 0x1_0000 * image[at + 1] + 0x100_0000 * image[at]
  }

  function Read(image: seq<int>, big: bool, at: nat): (w: int)
    requires at + 4 <= |image|
  {
    if big then ReadBe(image, at) else ReadLe(image, at)
  }

  lemma ReadRange(image: seq<int>, big: bool, at: nat)
    requires AreBytes(image) && at + 4 <= |image|
    ensures 0 <= Read(image, big, at) < WORD32
  {
  }

  lemma LowByte(a: int, rest: int, n: int)
    requires 0 <= a < 256
    ensures a + 0x100 * rest == n <==> a == n % 256 && rest == n / 256
  {
  }

  /** A word determines its bytes. */
  lemma WordBytes(a: int, b: int, c: int, d: int, n: int)
    requires 0 <= a < 256 && 0 <= b < 256 && 0 <= c < 256
    ensures a + 0x100 * b + 0x1_0000 * c + 0x100_0000 * d == n <==>
            a == n % 256 && b == n / 256 % 256 && c == n / 256 / 256 % 256 && d == n / 256 / 256 / 256
  {
    LowByte(a, b + 0x100 * (c + 0x100 * d), n);
    LowByte(b, c + 0x100 * d, n / 256);
    LowByte(c, d, n / 256 / 256);
  }

  /** The two readers see the magic number of the other byte order swapped, so the order is recognised. */
  lemma MagicSwaps(image: seq<int>)
    requires AreBytes(image) && |image| >= 4
    ensures ReadBe(image, 0) == MAGIC <==> ReadLe(image, 0) == SWAPPED_MAGIC
  {
    WordBytes(image[3], image[2], image[1], image[0], MAGIC);
    WordBytes(image[0], image[1], image[2], image[3], SWAPPED_MAGIC);
  }

  /** A table entry: offset and length of the id and of the translation. */
  datatype Msg = Msg(id: nat, idLen: nat, str: nat, strLen: nat)

  datatype Parsed = Rejected | Outside | Accepted(msgs: seq<Msg>)

  datatype Entry = Entry(id: seq<int>, str: seq<int>)

  /** `text` and a terminating zero stand at `off` of the image. */
  ghost predicate TextAt(image: seq<int>, off: int, len: int, text: seq<int>) {
    && len == |text| && 0 <= off && off + len < |image|
    && image[off..off + len] == text && image[off + len] == 0
  }

  /** The descriptor at `at` (length, then offset) leads to `text`. */
  ghost predicate Placed(image: seq<int>, big: bool, at: nat, text: seq<int>)
    requires at + 8 <= |image|
  {
    TextAt(image, Read(image, big, at + 4), Read(image, big, at), text)
  }

  /**
   `image` is a compiled catalogue with exactly these entries, in either byte order.  The tables are
   addressed with 32-bit offsets, so their size is at most 2^32.
   */
  ghost predicate Describes(image: seq<int>, big: bool, entries: seq<Entry>) {
    && AreBytes(image) && |image| >= 28
    && Read(image, big, 0) == MAGIC && Read(image, big, 4) == 0 && Read(image, big, 8) == |entries|
    && var o, t := Read(image, big, 12), Read(image, big, 16);
       && 0 <= o < |image| && 0 <= t < |image|
       && o + 8 * |entries| <= |image| && t + 8 * |entries| <= |image| && 8 * |entries| <= WORD32
       && forall i | 0 <= i < |entries| ::
            && Placed(image, big, o + 8 * i, entries[i].id)
            && Placed(image, big, t + 8 * i, entries[i].str)
  }

  ghost predicate Matches(image: seq<int>, m: Msg, e: Entry) {
    TextAt(image, m.id, m.idLen, e.id) && TextAt(image, m.str, m.strLen, e.str)
  }

  datatype EntryRead = BadEntry | WildEntry | GoodEntry(msg: Msg)

  /** Entry `i` of the two tables; its position is computed in 32-bit words. */
  function ReadEntry(image: seq<int>, big: bool, o: nat, t: nat, i: nat): (e: EntryRead) {
    var step := (i * 8) % WORD32;
    if o + step + 8 > |image| || t + step + 8 > |image| then WildEntry
    else
      var oLen, oOffset := Read(image, big, o + step), Read(image, big, o + step + 4);
      var tLen, tOffset := Read(image, big, t + step), Read(image, big, t + step + 4);
      if oOffset + oLen > |image| || tOffset + tLen > |image| || oOffset < 0 || oLen < 0 || tOffset < 0 || tLen < 0
      then BadEntry
      else GoodEntry(Msg(oOffset, oLen, tOffset, tLen))
  }

  /** The entry loop from entry `i` on, with the entries read before. */
  function ReadEntries(image: seq<int>, big: bool, o: nat, t: nat, count: nat, msgs: seq<Msg>): (r: Parsed)
    decreases count - |msgs|
  {
    if |msgs| >= count then Accepted(msgs)
    else
      match ReadEntry(image, big, o, t, |msgs|)
      case WildEntry => Outside
      case BadEntry => Rejected
      case GoodEntry(msg) => ReadEntries(image, big, o, t, count, msgs + [msg])
  }

  /**
   `mo_parse` up to the header line; `Outside` is a read beyond the image, which the code does not guard
   against.  An image without entries is rejected, because the allocation of an empty table is.
   */
  function ParseTable(image: seq<int>): (r: Parsed) {
    if |image| < 28 then Rejected
    else
      var magic := ReadLe(image, 0);
      if magic != MAGIC && magic != SWAPPED_MAGIC then Rejected
      else
        var big := magic != MAGIC;
        var count, o, t := Read(image, big, 8), Read(image, big, 12), Read(image, big, 16);
        if Read(image, big, 4) != 0 || |image| <= o || |image| <= t || count <= 0 || o < 0 || t < 0 then Rejected
        else ReadEntries(image, big, o, t, count, [])
  }

  method Parse(image: seq<int>) returns (r: Parsed)
    requires AreBytes(image)
    ensures r == ParseTable(image)
  {
    hide ReadEntry, ReadLe, ReadBe;
    if |image| < 28 {
      return Rejected;
    }
    var magic := ReadLe(image, 0);
    var le := magic == MAGIC;
    var be := magic == SWAPPED_MAGIC;
    if !le && !be {
      return Rejected;
    }
    var big := !le;
    var version := Read(image, big, 4);
    if version != 0 {
      return Rejected;
    }
    var count := Read(image, big, 8);
    var o := Read(image, big, 12);
    var t := Read(image, big, 16);
    ReadRange(image, big, 8);
    ReadRange(image, big, 12);
    ReadRange(image, big, 16);
    if |image| <= o || |image| <= t {
      return Rejected;
    }
    if count == 0 {
      return Rejected;
    }
    hide Read;
    var msgs: seq<Msg> := [];
    var i := 0;
    while i < count
      invariant 0 <= i <= count && |msgs| == i
      invariant ReadEntries(image, big, o, t, count, []) == ReadEntries(image, big, o, t, count, msgs)
    {
      var e := EntryAt(image, big, o, t, i);
      if e.WildEntry? {
        return Outside;
      }
      if e.BadEntry? {
        return Rejected;
      }
      msgs := msgs + [e.msg];
      i := i + 1;
    }
    r := Accepted(msgs);
  }

  /** The body of the entry loop. */
  method EntryAt(image: seq<int>, big: bool, o: nat, t: nat, i: nat) returns (e: EntryRead)
    requires AreBytes(image)
    ensures e == ReadEntry(image, big, o, t, i)
  {
    var step := (i * 8) % WORD32;
    if o + step + 8 > |image| || t + step + 8 > |image| {
      return WildEntry;
    }
    ReadRange(image, big, o + step);
    ReadRange(image, big, o + step + 4);
    ReadRange(image, big, t + step);
    ReadRange(image, big, t + step + 4);
    hide Read;
    var oLen := Read(image, big, o + step);
    var oOffset := Read(image, big, o + step + 4);
    var tLen := Read(image, big, t + step);
    var tOffset := Read(image, big, t + step + 4);
    if oOffset + oLen > |image| || tOffset + tLen > |image| {
      return BadEntry;
    }
    e := GoodEntry(Msg(oOffset, oLen, tOffset, tLen));
  }

  ghost predicate AllMatch(image: seq<int>, msgs: seq<Msg>, entries: seq<Entry>) {
    |msgs| <= |entries| && forall i | 0 <= i < |msgs| :: Matches(image, msgs[i], entries[i])
  }

  lemma EntryMatches(image: seq<int>, big: bool, entries: seq<Entry>, i: nat)
    requires Describes(image, big, entries) && i < |entries|
    ensures var e := ReadEntry(image, big, Read(image, big, 12), Read(image, big, 16), i);
            e.GoodEntry? && Matches(image, e.msg, entries[i])
  {
    var o, t := Read(image, big, 12), Read(image, big, 16);
    DescribedEntry(image, big, entries, i);
    hide *;
    PlacedEntry(image, big, o, t, i, entries[i]);
  }

  lemma PlacedEntry(image: seq<int>, big: bool, o: nat, t: nat, i: nat, e: Entry)
    requires o + 8 * i + 8 <= |image| && t + 8 * i + 8 <= |image| && 8 * i < WORD32
    requires Placed(image, big, o + 8 * i, e.id) && Placed(image, big, t + 8 * i, e.str)
    ensures var r := ReadEntry(image, big, o, t, i);
            r.GoodEntry? && Matches(image, r.msg, e)
  {
    var oAt, tAt := o + 8 * i, t + 8 * i;
    TextInside(image, Read(image, big, oAt + 4), Read(image, big, oAt), e.id);
    TextInside(image, Read(image, big, tAt + 4), Read(image, big, tAt), e.str);
    SmallStep(i);
    hide Read, TextAt;
  }

  lemma TextInside(image: seq<int>, off: int, len: int, text: seq<int>)
    requires TextAt(image, off, len, text)
    ensures 0 <= off && 0 <= len && off + len < |image|
  {
  }

  lemma SmallStep(i: nat)
    requires 8 * i < WORD32
    ensures (i * 8) % WORD32 == 8 * i
  {
  }

  lemma DescribedEntry(image: seq<int>, big: bool, entries: seq<Entry>, i: nat)
    requires Describes(image, big, entries) && i < |entries|
    ensures var o, t := Read(image, big, 12), Read(image, big, 16);
            && 0 <= o && 0 <= t && o + 8 * i + 8 <= |image| && t + 8 * i + 8 <= |image| && 8 * i < WORD32
            && Placed(image, big, o + 8 * i, entries[i].id)
            && Placed(image, big, t + 8 * i, entries[i].str)
  {
    hide Read, Placed;
  }

  lemma {:induction false} EntriesMatch(image: seq<int>, big: bool, entries: seq<Entry>, msgs: seq<Msg>)
    requires Describes(image, big, entries) && AllMatch(image, msgs, entries)
    ensures var r := ReadEntries(image, big, Read(image, big, 12), Read(image, big, 16), |entries|, msgs);
            r.Accepted? && |r.msgs| == |entries| && AllMatch(image, r.msgs, entries)
    decreases |entries| - |msgs|
  {
    if |msgs| < |entries| {
      EntryMatches(image, big, entries, |msgs|);
      hide Read, Describes, ReadEntry, Matches;
      var e := ReadEntry(image, big, Read(image, big, 12), Read(image, big, 16), |msgs|);
      EntriesMatch(image, big, entries, msgs + [e.msg]);
    }
  }

  /** Parsing recovers the entries of every well-formed image that has some, in either byte order, in order ... */
  lemma ParseRecovers(image: seq<int>, big: bool, entries: seq<Entry>)
    requires Describes(image, big, entries) && entries != []
    ensures var r := ParseTable(image);
            r.Accepted? && |r.msgs| == |entries| && AllMatch(image, r.msgs, entries)
  {
    MagicSwaps(image);
    EntriesMatch(image, big, entries, []);
    hide ReadEntries, ReadLe, ReadBe, AllMatch;
  }

  /** ... and it rejects every one that has none. */
  lemma EmptyIsRejected(image: seq<int>, big: bool)
    requires Describes(image, big, [])
    ensures ParseTable(image) == Rejected
  {
    MagicSwaps(image);
    hide ReadEntries, ReadLe, ReadBe;
  }

  /** The readers see the word whose bytes stand there, in their order. */
  lemma ReadsBytes(image: seq<int>, at: nat, w: int)
    requires AreBytes(image) && at + 4 <= |image|
    ensures ReadLe(image, at) == w <==>
              && image[at] == w % 256 && image[at + 1] == w / 256 % 256
              && image[at + 2] == w / 256 / 256 % 256 && image[at + 3] == w / 256 / 256 / 256
    ensures ReadBe(image, at) == w <==>
              && image[at + 3] == w % 256 && image[at + 2] == w / 256 % 256
              && image[at + 1] == w / 256 / 256 % 256 && image[at] == w / 256 / 256 / 256
  {
    WordBytes(image[at], image[at + 1], image[at + 2], image[at + 3], w);
    WordBytes(image[at + 3], image[at + 2], image[at + 1], image[at], w);
  }

  /** What every accepted image starts with: the magic number, version 0 and the number of its entries. */
  lemma AcceptedHeader(image: seq<int>)
    requires AreBytes(image) && ParseTable(image).Accepted?
    ensures |image| >= 28 && image[4] == image[5] == image[6] == image[7] == 0
    ensures var n := |ParseTable(image).msgs|;
            || (&& image[0] == 0xde && image[1] == 0x12 && image[2] == 0x04 && image[3] == 0x95
                && n == image[8] + 0x100 * image[9] + 0x1_0000 * image[10] + 0x100_0000 * image[11])
            || (&& image[0] == 0x95 && image[1] == 0x04 && image[2] == 0x12 && image[3] == 0xde
                && n == image[11] + 0x100 * image[10] + 0x1_0000 * image[9] + 0x100_0000 * image[8])
  {
    var big := ReadLe(image, 0) != MAGIC;
    ReadsBytes(image, 0, MAGIC);
    ReadsBytes(image, 0, SWAPPED_MAGIC);
    ReadsBytes(image, 4, 0);
    ReadRange(image, big, 8);
    EntriesInside(image, big, Read(image, big, 12), Read(image, big, 16), Read(image, big, 8), []);
    hide ReadEntries, InImage;
  }

  /** An entry is accepted iff its two texts end inside the image or at its end. */
  lemma EntryFits(image: seq<int>, big: bool, o: nat, t: nat, i: nat)
    requires AreBytes(image) && 8 * i < WORD32 && o + 8 * i + 8 <= |image| && t + 8 * i + 8 <= |image|
    ensures var at, to := o + 8 * i, t + 8 * i;
            ReadEntry(image, big, o, t, i) ==
            if Read(image, big, at + 4) + Read(image, big, at) <= |image|
               && Read(image, big, to + 4) + Read(image, big, to) <= |image|
            then GoodEntry(Msg(Read(image, big, at + 4), Read(image, big, at), Read(image, big, to + 4), Read(image, big, to)))
            else BadEntry
  {
    SmallStep(i);
    ReadRange(image, big, o + 8 * i);
    ReadRange(image, big, o + 8 * i + 4);
    ReadRange(image, big, t + 8 * i);
    ReadRange(image, big, t + 8 * i + 4);
    hide Read;
  }

  /** An image whose tables do not begin inside it is rejected. */
  lemma TablesBeginInside(image: seq<int>)
    requires AreBytes(image) && |image| >= 28 && ParseTable(image) != Rejected
    ensures image[0] == 0xde ==> ReadLe(image, 12) < |image| && ReadLe(image, 16) < |image|
    ensures image[0] == 0x95 ==> ReadBe(image, 12) < |image| && ReadBe(image, 16) < |image|
  {
    ReadsBytes(image, 0, MAGIC);
    ReadsBytes(image, 0, SWAPPED_MAGIC);
    hide ReadEntries, ReadLe, ReadBe;
  }

  /** The texts that an entry points to. */
  function EntryAtMsg(image: seq<int>, m: Msg): (e: Entry)
    requires m.id + m.idLen <= |image| && m.str + m.strLen <= |image|
  {
    Entry(image[m.id..m.id + m.idLen], image[m.str..m.str + m.strLen])
  }

  function EntriesOf(image: seq<int>, msgs: seq<Msg>): (entries: seq<Entry>)
    requires InImage(image, msgs)
    ensures |entries| == |msgs| && forall i | 0 <= i < |entries| :: entries[i] == EntryAtMsg(image, msgs[i])
  {
    seq(|msgs|, i requires 0 <= i < |msgs| => EntryAtMsg(image, msgs[i]))
  }

  /** A zero byte follows both texts of every entry. */
  predicate AllClosed(image: seq<int>, msgs: seq<Msg>)
    requires InImage(image, msgs)
  {
    forall i | 0 <= i < |msgs| ::
      && msgs[i].id + msgs[i].idLen < |image| && image[msgs[i].id + msgs[i].idLen] == 0
      && msgs[i].str + msgs[i].strLen < |image| && image[msgs[i].str + msgs[i].strLen] == 0
  }

  /** Entry `i` has been read. */
  ghost predicate WasRead(image: seq<int>, big: bool, o: nat, t: nat, msgs: seq<Msg>, i: nat)
    requires i < |msgs|
  {
    ReadEntry(image, big, o, t, i) == GoodEntry(msgs[i])
  }

  ghost predicate AllRead(image: seq<int>, big: bool, o: nat, t: nat, msgs: seq<Msg>) {
    forall i: nat | i < |msgs| :: WasRead(image, big, o, t, msgs, i)
  }

  lemma OneMoreRead(image: seq<int>, big: bool, o: nat, t: nat, msgs: seq<Msg>, m: Msg)
    requires AllRead(image, big, o, t, msgs) && ReadEntry(image, big, o, t, |msgs|) == GoodEntry(m)
    ensures AllRead(image, big, o, t, msgs + [m])
  {
    hide ReadEntry;
    forall i: nat | i < |msgs + [m]|
      ensures WasRead(image, big, o, t, msgs + [m], i)
    {
      if i < |msgs| {
        assert WasRead(image, big, o, t, msgs, i);
      }
    }
  }

  lemma {:induction false} EveryEntryWasRead(image: seq<int>, big: bool, o: nat, t: nat, count: nat, msgs: seq<Msg>)
    requires |msgs| <= count && AllRead(image, big, o, t, msgs)
    ensures var r := ReadEntries(image, big, o, t, count, msgs);
            r.Accepted? ==> AllRead(image, big, o, t, r.msgs)
    decreases count - |msgs|
  {
    hide ReadEntry, AllRead;
    if |msgs| < count {
      var e := ReadEntry(image, big, o, t, |msgs|);
      if e.GoodEntry? {
        OneMoreRead(image, big, o, t, msgs, e.msg);
        EveryEntryWasRead(image, big, o, t, count, msgs + [e.msg]);
      }
    }
  }

  lemma ReadEntryIsPlaced(image: seq<int>, big: bool, o: nat, t: nat, i: nat, m: Msg)
    requires 8 * i < WORD32 && ReadEntry(image, big, o, t, i) == GoodEntry(m)
    requires m.id + m.idLen < |image| && image[m.id + m.idLen] == 0
    requires m.str + m.strLen < |image| && image[m.str + m.strLen] == 0
    ensures o + 8 * i + 8 <= |image| && t + 8 * i + 8 <= |image|
    ensures Placed(image, big, o + 8 * i, EntryAtMsg(image, m).id)
    ensures Placed(image, big, t + 8 * i, EntryAtMsg(image, m).str)
  {
    SmallStep(i);
    hide Read;
  }

  lemma AcceptedTable(image: seq<int>)
    requires AreBytes(image) && ParseTable(image).Accepted?
    ensures var big := ReadLe(image, 0) != MAGIC;
            var msgs := ParseTable(image).msgs;
            && |image| >= 28 && Read(image, big, 0) == MAGIC && Read(image, big, 4) == 0
            && Read(image, big, 8) == |msgs| > 0
            && 0 <= Read(image, big, 12) < |image| && 0 <= Read(image, big, 16) < |image|
            && AllRead(image, big, Read(image, big, 12), Read(image, big, 16), msgs)
  {
    var big := ReadLe(image, 0) != MAGIC;
    MagicSwaps(image);
    ReadRange(image, big, 8);
    EntriesInside(image, big, Read(image, big, 12), Read(image, big, 16), Read(image, big, 8), []);
    EveryEntryWasRead(image, big, Read(image, big, 12), Read(image, big, 16), Read(image, big, 8), []);
    hide ReadEntries, ReadEntry, ReadLe, ReadBe, InImage, AreBytes;
  }

  /** Both texts of an entry are where its descriptors say. */
  ghost predicate EntryPlaced(image: seq<int>, big: bool, o: nat, t: nat, e: Entry, i: nat) {
    && o + 8 * i + 8 <= |image| && t + 8 * i + 8 <= |image|
    && Placed(image, big, o + 8 * i, e.id) && Placed(image, big, t + 8 * i, e.str)
  }

  lemma EveryEntryIsPlaced(image: seq<int>, big: bool, o: nat, t: nat, msgs: seq<Msg>)
    requires AllRead(image, big, o, t, msgs) && InImage(image, msgs) && AllClosed(image, msgs)
    requires 8 * |msgs| <= WORD32
    ensures forall i: nat | i < |msgs| :: EntryPlaced(image, big, o, t, EntriesOf(image, msgs)[i], i)
  {
    hide ReadEntry, Placed, Read;
    forall i: nat | i < |msgs|
      ensures EntryPlaced(image, big, o, t, EntriesOf(image, msgs)[i], i)
    {
      assert WasRead(image, big, o, t, msgs, i);
      ReadEntryIsPlaced(image, big, o, t, i, msgs[i]);
    }
  }

  lemma DescribesEntries(image: seq<int>, big: bool, entries: seq<Entry>)
    requires AreBytes(image) && |image| >= 28 && Read(image, big, 0) == MAGIC && Read(image, big, 4) == 0
    requires Read(image, big, 8) == |entries| > 0 && 8 * |entries| <= WORD32
    requires 0 <= Read(image, big, 12) < |image| && 0 <= Read(image, big, 16) < |image|
    requires forall i: nat | i < |entries| ::
               EntryPlaced(image, big, Read(image, big, 12), Read(image, big, 16), entries[i], i)
    ensures Describes(image, big, entries)
  {
    hide Placed, Read, AreBytes;
    var o, t := Read(image, big, 12), Read(image, big, 16);
    assert EntryPlaced(image, big, o, t, entries[|entries| - 1], |entries| - 1);
    forall i | 0 <= i < |entries|
      ensures Placed(image, big, o + 8 * i, entries[i].id) && Placed(image, big, t + 8 * i, entries[i].str)
    {
      assert EntryPlaced(image, big, o, t, entries[i], i);
    }
  }

  /**
   The parser accepts nothing else: an accepted table, of 32-bit size and with all its texts closed, is
   that of an image that describes exactly its entries.
   */
  lemma AcceptedIsDescribed(image: seq<int>)
    requires AreBytes(image) && ParseTable(image).Accepted? && InImage(image, ParseTable(image).msgs)
    requires AllClosed(image, ParseTable(image).msgs) && 8 * |ParseTable(image).msgs| <= WORD32
    ensures Describes(image, ReadLe(image, 0) != MAGIC, EntriesOf(image, ParseTable(image).msgs))
  {
    AcceptedTable(image);
    var big := ReadLe(image, 0) != MAGIC;
    var msgs := ParseTable(image).msgs;
    hide ParseTable, Read, ReadLe, InImage, AreBytes, AllClosed, AllRead, EntryPlaced, Describes, EntriesOf;
    EveryEntryIsPlaced(image, big, Read(image, big, 12), Read(image, big, 16), msgs);
    DescribesEntries(image, big, EntriesOf(image, msgs));
  }

  // Lookup.

  predicate InImage(image: seq<int>, msgs: seq<Msg>) {
    forall i | 0 <= i < |msgs| :: msgs[i].id + msgs[i].idLen <= |image| && msgs[i].str + msgs[i].strLen <= |image|
  }

  lemma {:induction false} EntriesInside(image: seq<int>, big: bool, o: nat, t: nat, count: nat, msgs: seq<Msg>)
    requires InImage(image, msgs) && |msgs| <= count
    ensures var r := ReadEntries(image, big, o, t, count, msgs);
            r.Accepted? ==> InImage(image, r.msgs) && |r.msgs| == count
    decreases count - |msgs|
  {
    if |msgs| < count {
      hide Read;
      var e := ReadEntry(image, big, o, t, |msgs|);
      if e.GoodEntry? {
        EntriesInside(image, big, o, t, count, msgs + [e.msg]);
      }
    }
  }

  /** Every table that is accepted, of any image, has entries, and they point inside the image. */
  lemma ParsedInside(image: seq<int>)
    requires AreBytes(image)
    ensures var r := ParseTable(image);
            r.Accepted? ==> InImage(image, r.msgs) && 0 < |r.msgs| < WORD32
  {
    if ParseTable(image).Accepted? {
      var big := ReadLe(image, 0) != MAGIC;
      ReadRange(image, big, 8);
      EntriesInside(image, big, Read(image, big, 12), Read(image, big, 16), Read(image, big, 8), []);
      hide ReadEntries, ReadLe, ReadBe, Read, InImage;
    }
  }

  /** The image from the id pointers on. */
  function IdTails(image: seq<int>, msgs: seq<Msg>): (tails: seq<seq<int>>)
    requires InImage(image, msgs)
    ensures |tails| == |msgs| && forall i | 0 <= i < |tails| :: tails[i] == image[msgs[i].id..]
  {
    seq(|msgs|, i requires 0 <= i < |msgs| => image[msgs[i].id..])
  }

  /** The image from the translation pointers on. */
  function StrTails(image: seq<int>, msgs: seq<Msg>): (tails: seq<seq<int>>)
    requires InImage(image, msgs)
    ensures |tails| == |msgs| && forall i | 0 <= i < |tails| :: tails[i] == image[msgs[i].str..]
  {
    seq(|msgs|, i requires 0 <= i < |msgs| => image[msgs[i].str..])
  }

  lemma TailsAreBytes(image: seq<int>, msgs: seq<Msg>)
    requires AreBytes(image) && InImage(image, msgs)
    ensures AllBytes(IdTails(image, msgs))
  {
  }

  /** `Undefined` comes after an access outside the table, `Beyond` after reading a string beyond the image. */
  datatype Answer = Undefined | Beyond | Text(s: seq<int>)

  /** The C string at a pointer into the image, as the caller reads it. */
  function StringOf(tail: seq<int>): (r: Answer) {
    if 0 in tail then Text(UpToZero(tail)) else Beyond
  }

  /** The ids are as the file format demands, and the translations are terminated. */
  ghost predicate Orderly(image: seq<int>, msgs: seq<Msg>)
    requires InImage(image, msgs)
  {
    InOrder(IdTails(image, msgs)) && AllTerminated(StrTails(image, msgs))
  }

  ghost predicate IsEntry(image: seq<int>, msgs: seq<Msg>, i: int, key: seq<int>)
    requires InImage(image, msgs)
  {
    0 <= i < |msgs| && 0 in IdTails(image, msgs)[i] && UpToZero(IdTails(image, msgs)[i]) == key
  }

  /**
   What `mo_gettext` may answer: in any table the key or what stands in an entry with that id; in an
   orderly one the translation of the key, or the key when it has none.  Nothing is promised after a
   wild search.
   */
  ghost predicate Answers(image: seq<int>, msgs: seq<Msg>, key: seq<int>, r: Answer)
    requires InImage(image, msgs)
  {
    var ids := Strings(IdTails(image, msgs));
    && (r.Text? ==> r.s == key || exists i :: IsEntry(image, msgs, i, key) && r == StringOf(StrTails(image, msgs)[i]))
    && (Orderly(image, msgs) ==>
          && !r.Beyond?
          && (r.Undefined? <==> ids == [] || Less(key, ids[0]))
          && (r.Text? && key !in ids ==> r.s == key)
          && (forall i | 0 <= i < |ids| :: r.Text? && ids[i] == key ==> r == StringOf(StrTails(image, msgs)[i])))
  }

  lemma IncreasingIsInjective(ids: seq<seq<int>>, i: nat, j: nat)
    requires Increasing(ids) && i < |ids| && j < |ids| && ids[i] == ids[j]
    ensures i == j
  {
    CompareZero(ids[i], ids[j]);
    CompareZero(ids[j], ids[i]);
  }

  /** In order, an entry that was found is the only one with its id. */
  lemma OnlyEntry(tails: seq<seq<int>>, key: seq<int>, at: nat)
    requires InOrder(tails) && at < |tails| && UpToZero(tails[at]) == key
    ensures forall i | 0 <= i < |tails| :: Strings(tails)[i] == key ==> i == at
  {
    forall i | 0 <= i < |tails| && Strings(tails)[i] == key
      ensures i == at
    {
      IncreasingIsInjective(Strings(tails), i, at);
    }
  }

  lemma FoundAnswers(image: seq<int>, msgs: seq<Msg>, key: seq<int>, at: nat)
    requires InImage(image, msgs) && IsEntry(image, msgs, at, key)
    requires InOrder(IdTails(image, msgs)) ==> !Less(key, Strings(IdTails(image, msgs))[0])
    ensures Answers(image, msgs, key, StringOf(StrTails(image, msgs)[at]))
  {
    var tails := IdTails(image, msgs);
    if InOrder(tails) {
      OnlyEntry(tails, key, at);
    }
    hide InOrder, UpToZero, InImage, Less;
  }

  lemma MissedAnswers(image: seq<int>, msgs: seq<Msg>, key: seq<int>)
    requires InImage(image, msgs)
    requires InOrder(IdTails(image, msgs)) ==>
               && key !in Strings(IdTails(image, msgs))
               && msgs != [] && !Less(key, Strings(IdTails(image, msgs))[0])
    ensures Answers(image, msgs, key, Text(key))
  {
    hide InOrder, UpToZero, InImage, Less;
  }

  lemma WildAnswers(image: seq<int>, msgs: seq<Msg>, key: seq<int>)
    requires InImage(image, msgs)
    requires InOrder(IdTails(image, msgs)) ==> msgs == [] || Less(key, Strings(IdTails(image, msgs))[0])
    ensures Answers(image, msgs, key, Undefined)
  {
    hide InOrder, UpToZero, InImage, Less;
  }

  method Gettext(image: seq<int>, msgs: seq<Msg>, key: seq<int>) returns (r: Answer)
    requires AreBytes(image) && InImage(image, msgs) && |msgs| < WORD32 && IsCString(key)
    ensures Answers(image, msgs, key, r)
  {
    TailsAreBytes(image, msgs);
    var tails := IdTails(image, msgs);
    var found := Find(tails, key);
    hide Answers, AreBytes, UpToZero, InImage, Less, IsCString, InOrder;
    match found
    case Wild =>
      WildAnswers(image, msgs, key);
      r := Undefined;
    case Unterminated =>
      UnterminatedAnswers(image, msgs, key);
      r := Beyond;
    case NotFound =>
      MissedAnswers(image, msgs, key);
      r := Text(key);
    case Found(at) =>
      FoundAnswers(image, msgs, key, at);
      r := StringOf(StrTails(image, msgs)[at]);
  }

  lemma UnterminatedAnswers(image: seq<int>, msgs: seq<Msg>, key: seq<int>)
    requires InImage(image, msgs) && !AllTerminated(IdTails(image, msgs))
    ensures Answers(image, msgs, key, Beyond)
  {
  }

  /** The keys of the catalogue: an id with plural forms counts up to its first zero byte only. */
  function EntryIds(entries: seq<Entry>): (ids: seq<seq<int>>)
    ensures |ids| == |entries| && forall i | 0 <= i < |ids| :: ids[i] == UpToZero(entries[i].id)
  {
    seq(|entries|, i requires 0 <= i < |entries| => UpToZero(entries[i].id))
  }

  /** A catalogue with an empty first id (the header) and strictly increasing ids. */
  ghost predicate IsCatalogue(entries: seq<Entry>) {
    entries != [] && entries[0].id == [] && Increasing(EntryIds(entries))
  }

  lemma MatchingTails(image: seq<int>, msgs: seq<Msg>, entries: seq<Entry>)
    requires AllMatch(image, msgs, entries) && |msgs| == |entries|
    ensures InImage(image, msgs)
    ensures AllTerminated(IdTails(image, msgs)) && Strings(IdTails(image, msgs)) == EntryIds(entries)
    ensures forall i | 0 <= i < |msgs| :: StringOf(StrTails(image, msgs)[i]) == Text(UpToZero(entries[i].str))
  {
    forall i | 0 <= i < |msgs|
      ensures msgs[i].id + msgs[i].idLen <= |image| && msgs[i].str + msgs[i].strLen <= |image|
      ensures 0 in image[msgs[i].id..] && UpToZero(image[msgs[i].id..]) == UpToZero(entries[i].id)
      ensures StringOf(image[msgs[i].str..]) == Text(UpToZero(entries[i].str))
    {
      assert Matches(image, msgs[i], entries[i]);
      TextIs(image, msgs[i].id, msgs[i].idLen, entries[i].id);
      TextIs(image, msgs[i].str, msgs[i].strLen, entries[i].str);
    }
    hide UpToZero, StringOf, AllMatch;
  }

  /** The translation that the catalogue holds for a key, up to its first zero byte. */
  ghost predicate IsTranslation(entries: seq<Entry>, key: seq<int>, text: seq<int>) {
    || (key !in EntryIds(entries) && text == key)
    || (exists i | 0 <= i < |entries| :: EntryIds(entries)[i] == key && text == UpToZero(entries[i].str))
  }

  /**
   Catalogue lookup is map lookup: for every well-formed image of a catalogue in either byte order, any
   key is answered with its translation, or with itself when it has none; the search is never wild.
   */
  lemma LookUpIsMapLookUp(image: seq<int>, big: bool, entries: seq<Entry>, key: seq<int>, r: Answer)
    requires Describes(image, big, entries) && IsCatalogue(entries)
    ensures ParseTable(image).Accepted?
    ensures var msgs := ParseTable(image).msgs;
            && InImage(image, msgs) && Orderly(image, msgs)
            && (Answers(image, msgs, key, r) ==> r.Text? && IsTranslation(entries, key, r.s))
  {
    ParseRecovers(image, big, entries);
    hide Describes, ParseTable;
    var msgs := ParseTable(image).msgs;
    TableIsOrderly(image, msgs, entries);
    hide *;
    if Answers(image, msgs, key, r) {
      AnswerIsTranslation(image, msgs, entries, key, r);
    }
  }

  lemma TableIsOrderly(image: seq<int>, msgs: seq<Msg>, entries: seq<Entry>)
    requires AllMatch(image, msgs, entries) && |msgs| == |entries| && IsCatalogue(entries)
    ensures InImage(image, msgs) && Orderly(image, msgs)
  {
    MatchingTails(image, msgs, entries);
    hide AllMatch, UpToZero, Increasing, InImage;
  }

  lemma AnswerIsTranslation(image: seq<int>, msgs: seq<Msg>, entries: seq<Entry>, key: seq<int>, r: Answer)
    requires AllMatch(image, msgs, entries) && |msgs| == |entries| && IsCatalogue(entries)
    requires InImage(image, msgs) && Orderly(image, msgs) && Answers(image, msgs, key, r)
    ensures r.Text? && IsTranslation(entries, key, r.s)
  {
    MatchingTails(image, msgs, entries);
    EmptyIsLeast(key);
    assert EntryIds(entries)[0] == [];
    hide AllMatch, Orderly, Less, Increasing, InImage, UpToZero, StringOf;
    if key in EntryIds(entries) {
      var i :| 0 <= i < |entries| && EntryIds(entries)[i] == key;
      assert r == Text(UpToZero(entries[i].str));
    }
  }

  /** Lookup entry by entry: the text of the entry with the key, and the key itself when no entry has it. */
  lemma LookUpOfKey(image: seq<int>, big: bool, entries: seq<Entry>, key: seq<int>, r: Answer)
    requires Describes(image, big, entries) && IsCatalogue(entries)
    ensures ParseTable(image).Accepted? && InImage(image, ParseTable(image).msgs)
    ensures Answers(image, ParseTable(image).msgs, key, r) ==>
              && (forall i | 0 <= i < |entries| :: UpToZero(entries[i].id) == key ==> r == Text(UpToZero(entries[i].str)))
              && ((forall i | 0 <= i < |entries| :: UpToZero(entries[i].id) != key) ==> r == Text(key))
  {
    LookUpIsMapLookUp(image, big, entries, key, r);
    hide Describes, Answers, ParseTable, InImage, Orderly;
    if Answers(image, ParseTable(image).msgs, key, r) {
      TranslationOfKey(entries, key, r.s);
    }
  }

  lemma TranslationOfKey(entries: seq<Entry>, key: seq<int>, text: seq<int>)
    requires IsCatalogue(entries) && IsTranslation(entries, key, text)
    ensures forall i | 0 <= i < |entries| :: UpToZero(entries[i].id) == key ==> text == UpToZero(entries[i].str)
    ensures (forall i | 0 <= i < |entries| :: UpToZero(entries[i].id) != key) ==> text == key
  {
    forall i | 0 <= i < |entries| && UpToZero(entries[i].id) == key
      ensures text == UpToZero(entries[i].str)
    {
      assert EntryIds(entries)[i] == key;
      var j :| 0 <= j < |entries| && EntryIds(entries)[j] == key && text == UpToZero(entries[j].str);
      IncreasingIsInjective(EntryIds(entries), i, j);
    }
  }

  /** Whatever catalogue the image describes, `r` is the translation of the key. */
  ghost predicate Translated(image: seq<int>, key: seq<int>, r: Answer) {
    forall big, entries | Describes(image, big, entries) && IsCatalogue(entries) ::
      r.Text? && IsTranslation(entries, key, r.s)
  }

  lemma AnswersTranslate(image: seq<int>, key: seq<int>, r: Answer)
    requires var p := ParseTable(image);
             p.Accepted? && InImage(image, p.msgs) ==> Answers(image, p.msgs, key, r)
    ensures Translated(image, key, r)
  {
    hide Describes, IsCatalogue, ParseTable, Answers, InImage, IsTranslation;
    forall big, entries | Describes(image, big, entries) && IsCatalogue(entries)
      ensures r.Text? && IsTranslation(entries, key, r.s)
    {
      LookUpIsMapLookUp(image, big, entries, key, r);
    }
  }

  /** From the image to the answer; without a catalogue the key is its own translation. */
  method Translate(image: seq<int>, key: seq<int>) returns (r: Answer)
    requires AreBytes(image) && IsCString(key)
    ensures Translated(image, key, r)
    ensures ParseTable(image) == Rejected ==> r == Text(key)
  {
    hide *;
    var table := Parse(image);
    ParsedInside(image);
    match table {
      case Outside =>
        r := Beyond;
      case Rejected =>
        r := Text(key);
      case Accepted(msgs) =>
        r := Gettext(image, msgs, key);
    }
    AnswersTranslate(image, key, r);
  }

  /** The C string at a translation is its part before the first zero. */
  lemma TextIs(image: seq<int>, at: nat, len: int, text: seq<int>)
    requires TextAt(image, at, len, text)
    ensures 0 in image[at..] && UpToZero(image[at..]) == UpToZero(text)
    ensures at + len < |image|
  {
    var tail := image[at..];
    assert tail[len] == 0;
    assert tail == text + [0] + image[at + |text| + 1..];
    UpToZeroOfText(text, image[at + |text| + 1..]);
  }

  lemma {:induction false} UpToZeroOfText(text: seq<int>, rest: seq<int>)
    ensures UpToZero(text + [0] + rest) == UpToZero(text)
  {
    var s := text + [0] + rest;
    if text == [] {
      assert s[0] == 0;
    } else {
      UpToZeroOfText(text[1..], rest);
      assert s[0] == text[0] && s[1..] == text[1..] + [0] + rest;
    }
  }

  // A catalogue without a header.

  function HeaderlessByte(i: nat): (b: int)
    ensures 0 <= b < 256
  {
    match i
    case 0 => 0xde case 1 => 0x12 case 2 => 0x04 case 3 => 0x95
    case 8 => 1 case 12 => 28 case 16 => 36
    case 28 => 1 case 32 => 44
    case 36 => 0 case 40 => 46
    case 44 => 'b' as int
    case _ => 0
  }

  /** An image in the order of the format whose only id is "b", with an empty translation. */
  function HeaderlessImage(): (image: seq<int>)
    ensures AreBytes(image)
  {
    seq(47, i requires 0 <= i => HeaderlessByte(i))
  }

  lemma HeaderlessWords()
    ensures var image := HeaderlessImage();
            && |image| == 47
            && ReadLe(image, 0) == MAGIC && ReadLe(image, 4) == 0 && ReadLe(image, 8) == 1
            && ReadLe(image, 12) == 28 && ReadLe(image, 16) == 36
  {
  }

  lemma HeaderlessTables()
    ensures var image := HeaderlessImage();
            && ReadLe(image, 28) == 1 && ReadLe(image, 32) == 44
            && ReadLe(image, 36) == 0 && ReadLe(image, 40) == 46
            && image[44..] == [98, 0, 0] && image[46..] == [0]
  {
  }

  lemma HeaderlessIsAccepted()
    ensures Describes(HeaderlessImage(), false, [Entry([98], [])])
    ensures ParseTable(HeaderlessImage()) == Accepted([Msg(44, 1, 46, 0)])
  {
    HeaderlessWords();
    HeaderlessTables();
    var image := HeaderlessImage();
    hide HeaderlessImage, ReadLe, ReadBe;
    assert image[44] == image[44..][0] && image[45] == image[44..][1] && image[46] == image[46..][0];
    assert image[44..45] == [98] && image[46..46] == [];
    assert ReadEntry(image, false, 28, 36, 0) == GoodEntry(Msg(44, 1, 46, 0));
    assert [] + [Msg(44, 1, 46, 0)] == [Msg(44, 1, 46, 0)];
    assert ReadEntries(image, false, 28, 36, 1, [Msg(44, 1, 46, 0)]) == Accepted([Msg(44, 1, 46, 0)]);
  }

  lemma HeaderlessIsOrderly(msgs: seq<Msg>)
    requires msgs == [Msg(44, 1, 46, 0)]
    ensures InImage(HeaderlessImage(), msgs) && Orderly(HeaderlessImage(), msgs)
    ensures Strings(IdTails(HeaderlessImage(), msgs)) == [[98]]
  {
    var image := HeaderlessImage();
    HeaderlessWords();
    HeaderlessTables();
    hide HeaderlessImage;
    UpToZeroIs([98], [0]);
    assert [98] + [0] + [0] == [98, 0, 0];
    var tails := IdTails(image, msgs);
    assert tails[0] == [98, 0, 0] && StrTails(image, msgs)[0] == [0];
    hide UpToZero;
    assert Strings(tails) == [[98]];
  }

  lemma BelowIsUndefined(image: seq<int>, msgs: seq<Msg>, key: seq<int>, r: Answer)
    requires InImage(image, msgs) && Orderly(image, msgs) && Answers(image, msgs, key, r)
    requires msgs == [] || Less(key, Strings(IdTails(image, msgs))[0])
    ensures r.Undefined?
  {
    hide InOrder, AllTerminated, InImage, UpToZero, Less;
  }

  /** The code accepts it, and then looks outside the table for the key "a", which stands before "b". */
  lemma FindLeavesTable(r: Answer)
    ensures ParseTable(HeaderlessImage()).Accepted?
    ensures var image := HeaderlessImage();
            var msgs := ParseTable(image).msgs;
            InImage(image, msgs) && Orderly(image, msgs) && (Answers(image, msgs, [97], r) ==> r.Undefined?)
  {
    assert Less([97], [98]);
    hide *;
    HeaderlessIsAccepted();
    HeaderlessIsOrderly([Msg(44, 1, 46, 0)]);
    if Answers(HeaderlessImage(), [Msg(44, 1, 46, 0)], [97], r) {
      BelowIsUndefined(HeaderlessImage(), [Msg(44, 1, 46, 0)], [97], r);
    }
  }
}
