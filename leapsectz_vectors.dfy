/** Concrete leap-second files and tables that pin the TZif reader and
    writer down byte for byte. Byte strings are built from 4-byte rows, in
    file order. */
module LeapSecTzVectors {
  import opened BigEndian
  import opened Wrappers
  import opened LeapSecTz
  import opened LeapSecTzReader
  import opened LeapSecTzWriter

  const Z4: seq<Byte> := [0x00, 0x00, 0x00, 0x00]
  const One4: seq<Byte> := [0x00, 0x00, 0x00, 0x01]
  const Two4: seq<Byte> := [0x00, 0x00, 0x00, 0x02]
  const Four4: seq<Byte> := [0x00, 0x00, 0x00, 0x04]
  /** 78796800 big-endian. */
  const July1972: seq<Byte> := [0x04, 0xb2, 0x58, 0x00]
  /** 94694401 big-endian. */
  const January1973: seq<Byte> := [0x05, 0xa4, 0xec, 0x01]

  /** The rows above are the big-endian encodings of their values. */
  lemma RowValues()
    ensures EncodeU32(0) == Z4 && EncodeU32(1) == One4 && EncodeU32(2) == Two4 && EncodeU32(4) == Four4
    ensures EncodeU32(78796800) == July1972 && EncodeU32(94694401) == January1973
  {
    EncodeDecodeU32(Z4);
    EncodeDecodeU32(One4);
    EncodeDecodeU32(Two4);
    EncodeDecodeU32(Four4);
    EncodeDecodeU32(July1972);
    EncodeDecodeU32(January1973);
  }

  /** 1972-07-01T00:00:00Z, the first leap second. */
  const FirstLeap := LeapSecond(78796800, 1)
  /** 1973-01-01T00:00:00Z, the second one (one inserted second later). */
  const SecondLeap := LeapSecond(94694401, 2)

  /** The instants of the two leap seconds in Unix time. */
  lemma LeapTimes()
    ensures Time(FirstLeap) == 78796800
    ensures Time(SecondLeap) == 94694400
  {
  }

  /** A fixed header: magic, a row holding the version byte and three
      padding bytes, three rows of padding, then the 24 bytes of counts. */
  function HeaderBytes(v: Byte, counts: seq<Byte>): (r: seq<Byte>)
    requires |counts| == 24
    ensures |r| == HeaderSize
  {
    Magic + [v, 0x00, 0x00, 0x00] + Z4 + Z4 + Z4 + counts
  }

  /** Where the parser finds the parts of a header followed by `body`. */
  lemma HeaderBytesLayout(v: Byte, counts: seq<Byte>, body: seq<Byte>)
    requires |counts| == 24
    ensures var s := HeaderBytes(v, counts) + body;
      && |s| == HeaderSize + |body|
      && s[..4] == Magic && s[4] == v
      && s[20..HeaderSize] == counts && s[HeaderSize..] == body
  {
    var p := Magic + [v, 0x00, 0x00, 0x00] + Z4 + Z4 + Z4;
    var s := HeaderBytes(v, counts) + body;
    Assoc(p, counts, body);
    assert s[..4] == p[..4];
    assert s[20..HeaderSize] == counts;
  }

  /** A header that declares only leap records, followed by exactly those
      records, parses as a block. */
  lemma ParseHeaderBytes(v: Byte, counts: seq<Byte>, h: Header, body: seq<Byte>, wide: bool, leaps: seq<LeapSecond>)
    requires |counts| == 24 && SupportedVersion(v) && DecodeHeader(counts) == h
    requires SkipSize(h, wide) == 0 && TrailerSize(h) == 0 && |body| == LeapsSize(h.leapCnt, wide)
    requires DecodeLeaps(body, h.leapCnt, wide) == Some(leaps)
    ensures ParseBlock(HeaderBytes(v, counts) + body, wide) == Success(Block(v, leaps, HeaderSize + |body|))
  {
    HeaderBytesLayout(v, counts, body);
    ParseBlockOf(HeaderBytes(v, counts) + body, h, wide, leaps);
  }

  /** Counts with one leap record (or two), and nothing else. */
  const OneLeapCounts: seq<Byte> := Z4 + Z4 + One4 + Z4 + Z4 + Z4
  const TwoLeapsCounts: seq<Byte> := Z4 + Z4 + Two4 + Z4 + Z4 + Z4
  const NoCounts: seq<Byte> := Z4 + Z4 + Z4 + Z4 + Z4 + Z4

  lemma CountsDecode()
    ensures DecodeHeader(OneLeapCounts) == Header(0, 0, 1, 0, 0, 0)
    ensures DecodeHeader(TwoLeapsCounts) == Header(0, 0, 2, 0, 0, 0)
    ensures DecodeHeader(NoCounts) == Header(0, 0, 0, 0, 0, 0)
  {
    DecodeEncodeHeader(Header(0, 0, 1, 0, 0, 0));
    DecodeEncodeHeader(Header(0, 0, 2, 0, 0, 0));
    DecodeEncodeHeader(Header(0, 0, 0, 0, 0, 0));
    RowValues();
  }

  // ---------------------------------------------------------------------
  // Reading

  /** The two records of the 4-byte block, and of the 8-byte block. */
  const NarrowRecords: seq<Byte> := July1972 + One4 + January1973 + Two4
  const WideRecords: seq<Byte> := Z4 + July1972 + One4 + Z4 + January1973 + Two4

  /** A record is its time followed by its count. */
  lemma RecordParts(t: seq<Byte>, n: seq<Byte>, wide: bool)
    requires |t| == TimeSize(wide) && |n| == 4
    ensures DecodeLeap(t + n, wide) == LeapSecond(if wide then DecodeU64(t) else DecodeU32(t), DecodeI32(n))
  {
    assert (t + n)[..TimeSize(wide)] == t && (t + n)[TimeSize(wide)..] == n;
  }

  lemma OneRecordDecodes()
    ensures DecodeLeaps(July1972 + One4, 1, false) == Some([FirstLeap])
  {
    assert RecordAt(July1972 + One4, 0, false) == July1972 + One4;
    RecordParts(July1972, One4, false);
    assert DecodeLeaps(July1972 + One4, 1, false).value == [FirstLeap];
  }

  lemma NarrowRecordsDecode()
    ensures DecodeLeaps(NarrowRecords, 2, false) == Some([FirstLeap, SecondLeap])
  {
    assert RecordAt(NarrowRecords, 0, false) == July1972 + One4;
    assert RecordAt(NarrowRecords, 1, false) == January1973 + Two4;
    RecordParts(July1972, One4, false);
    RecordParts(January1973, Two4, false);
    assert DecodeLeaps(NarrowRecords, 2, false).value == [FirstLeap, SecondLeap];
  }

  lemma WideRecordsDecode()
    ensures DecodeLeaps(WideRecords, 2, true) == Some([FirstLeap, SecondLeap])
  {
    assert RecordAt(WideRecords, 0, true) == (Z4 + July1972) + One4;
    assert RecordAt(WideRecords, 1, true) == (Z4 + January1973) + Two4;
    RecordParts(Z4 + July1972, One4, true);
    RecordParts(Z4 + January1973, Two4, true);
    assert (Z4 + July1972)[..4] == Z4 && (Z4 + July1972)[4..] == July1972;
    assert (Z4 + January1973)[..4] == Z4 && (Z4 + January1973)[4..] == January1973;
    assert DecodeLeaps(WideRecords, 2, true).value == [FirstLeap, SecondLeap];
  }

  /** A version 1 file with one leap record. */
  const TzV1: seq<Byte> := HeaderBytes(Version1, OneLeapCounts) + (July1972 + One4)

  lemma ParseV1()
    ensures Parse(TzV1) == Parsed([FirstLeap], None)
  {
    CountsDecode();
    OneRecordDecodes();
    ParseSingleBlock(OneLeapCounts, Header(0, 0, 1, 0, 0, 0), July1972 + One4, [FirstLeap]);
  }

  /** A version 1 file whose header declares only leap records, followed
      by those records, is the table of those records. */
  lemma ParseSingleBlock(counts: seq<Byte>, h: Header, body: seq<Byte>, leaps: seq<LeapSecond>)
    requires |counts| == 24 && DecodeHeader(counts) == h
    requires SkipSize(h, false) == 0 && TrailerSize(h) == 0 && |body| == LeapsSize(h.leapCnt, false)
    requires DecodeLeaps(body, h.leapCnt, false) == Some(leaps) && leaps != []
    ensures Parse(HeaderBytes(Version1, counts) + body) == Parsed(leaps, None)
  {
    ParseHeaderBytes(Version1, counts, h, body, false, leaps);
  }

  /** Reading the version 1 file through a cursor. */
  method ReadV1() returns (ls: seq<LeapSecond>, err: Option<TzError>)
    ensures ls == [FirstLeap] && err == None
  {
    var r := new Reader(TzV1);
    ls, err := ParseVx(r);
    ParseV1();
  }

  /** A version '2' file with two leap records: the block with 4-byte
      times, the block with 8-byte times, then two zero bytes that no count
      declares and the footer (the zone name "UTC" between newlines). */
  const TzV2Narrow: seq<Byte> := HeaderBytes(Version2, TwoLeapsCounts) + NarrowRecords
  const TzV2Wide: seq<Byte> := HeaderBytes(Version2, TwoLeapsCounts) + WideRecords
  const TzV2Footer: seq<Byte> := [0x00, 0x00, 0x0a, 0x55, 0x54, 0x43, 0x0a]
  const TzV2: seq<Byte> := TzV2Narrow + TzV2Wide + TzV2Footer

  lemma ParseV2Narrow()
    ensures ParseBlock(TzV2Narrow, false) == Success(Block(Version2, [FirstLeap, SecondLeap], |TzV2Narrow|))
  {
    CountsDecode();
    NarrowRecordsDecode();
    ParseHeaderBytes(Version2, TwoLeapsCounts, Header(0, 0, 2, 0, 0, 0), NarrowRecords, false, [FirstLeap, SecondLeap]);
  }

  lemma ParseV2Wide()
    ensures ParseBlock(TzV2Wide, true) == Success(Block(Version2, [FirstLeap, SecondLeap], |TzV2Wide|))
  {
    CountsDecode();
    WideRecordsDecode();
    ParseHeaderBytes(Version2, TwoLeapsCounts, Header(0, 0, 2, 0, 0, 0), WideRecords, true, [FirstLeap, SecondLeap]);
  }

  /** The records come from the second block; the footer is not read. */
  lemma ParseV2()
    ensures Parse(TzV2) == Parsed([FirstLeap, SecondLeap], None)
  {
    Assoc(TzV2Narrow, TzV2Wide, TzV2Footer);
    ParseV2Narrow();
    ParseBlockPrefix(TzV2Narrow, TzV2Wide + TzV2Footer, false);
    assert TzV2[|TzV2Narrow|..] == TzV2Wide + TzV2Footer;
    ParseV2Wide();
    ParseBlockPrefix(TzV2Wide, TzV2Footer, true);
  }

  /** A version '2' block without any leap record. */
  const TzNoLeapsBlock: seq<Byte> := HeaderBytes(Version2, NoCounts)

  lemma ParseNoLeapsBlock(wide: bool)
    ensures ParseBlock(TzNoLeapsBlock, wide) == Success(Block(Version2, [], HeaderSize))
  {
    CountsDecode();
    ParseHeaderOnly(Version2, NoCounts, Header(0, 0, 0, 0, 0, 0), wide);
  }

  /** A header that declares no sections at all is a block by itself. */
  lemma ParseHeaderOnly(v: Byte, counts: seq<Byte>, h: Header, wide: bool)
    requires |counts| == 24 && SupportedVersion(v) && DecodeHeader(counts) == h
    requires SkipSize(h, wide) == 0 && TrailerSize(h) == 0 && h.leapCnt == 0
    ensures ParseBlock(HeaderBytes(v, counts), wide) == Success(Block(v, [], HeaderSize))
  {
    assert DecodeLeaps([], 0, wide).value == [];
    ParseHeaderBytes(v, counts, h, [], wide, []);
    assert HeaderBytes(v, counts) + [] == HeaderBytes(v, counts);
  }

  /** Two well-formed blocks without records make a table that is refused. */
  lemma ParseNoLeaps()
    ensures Parse(TzNoLeapsBlock + TzNoLeapsBlock) == Parsed([], Some(NoLeapSeconds))
  {
    ParseNoLeapsBlock(false);
    ParseBlockPrefix(TzNoLeapsBlock, TzNoLeapsBlock, false);
    assert (TzNoLeapsBlock + TzNoLeapsBlock)[HeaderSize..] == TzNoLeapsBlock;
    ParseNoLeapsBlock(true);
  }

  /** Magic "TZv2" instead of "TZif", otherwise the version 1 file. */
  const TzBadMagic: seq<Byte> :=
    [0x54, 0x5A, 0x76, 0x32] + Z4 + Z4 + Z4 + Z4 + OneLeapCounts + July1972 + One4

  /** A header cut short after 16 bytes. */
  const TzShort: seq<Byte> := Magic + Z4 + Z4 + Z4

  /** Version byte 2 rather than the character '2'. */
  const TzBadVersion: seq<Byte> := Magic + [0x02, 0x00, 0x00, 0x00] + Z4 + Z4 + Z4

  lemma HeaderRejections()
    ensures Parse(TzBadMagic) == Parsed([], Some(BadData))
    ensures Parse(TzShort) == Parsed([], Some(BadData))
    ensures Parse(TzBadVersion) == Parsed([], Some(UnsupportedVersion))
  {
    assert TzBadMagic[2] != Magic[2];
    ParseHeaderErrors(TzBadMagic);
    assert TzShort[..4] == Magic;
    ParseHeaderErrors(TzShort);
    assert TzBadVersion[..4] == Magic && TzBadVersion[4] == 0x02;
    ParseHeaderErrors(TzBadVersion);
  }

  /** Six distinct counts. */
  const Counts: seq<Byte> :=
    One4 + Two4 + [0x00, 0x00, 0x00, 0x03] + Four4 + [0x00, 0x00, 0x00, 0x05] + [0x00, 0x00, 0x00, 0x06]

  /** The counts are read in file order: UT/local, standard/wall, leap,
      transition, local time type, characters. */
  lemma HeaderCounts()
    ensures DecodeHeader(Counts) == Header(1, 2, 3, 4, 5, 6)
  {
    DecodeEncodeHeader(Header(1, 2, 3, 4, 5, 6));
    assert EncodeU32(1) == One4 && EncodeU32(2) == Two4 && EncodeU32(4) == Four4;
  }

  // ---------------------------------------------------------------------
  // Writing

  /** "UTC" */
  const Utc: seq<Byte> := [0x55, 0x54, 0x43]

  /** The header written for one leap record and the characters "UTC\0":
      one UT/local and one standard/wall indicator, one leap record, no
      transition, one local time type, four characters. */
  const WrittenHeader: seq<Byte> := HeaderBytes(Version2, One4 + One4 + One4 + Z4 + One4 + Four4)

  /** The version byte and its fifteen padding bytes fill four rows. */
  lemma PaddedVersion(v: Byte)
    ensures Magic + [v] + Zeros(15) == Magic + [v, 0x00, 0x00, 0x00] + Z4 + Z4 + Z4
  {
  }

  lemma PrepareHeaderVector()
    ensures PrepareHeader(Version2, 1, Designation(Utc)) == WrittenHeader
  {
    var h := Header(1, 1, 1, 0, 1, 4);
    RowValues();
    assert EncodeHeader(h) == One4 + One4 + One4 + Z4 + One4 + Four4;
    assert PrepareHeader(Version2, 1, Designation(Utc)) == Magic + [Version2] + Zeros(15) + EncodeHeader(h);
    PaddedVersion(Version2);
  }

  /** One all-zero local time type, then "UTC\0". */
  const WrittenPreData: seq<Byte> := Z4 + [0x00, 0x00, 0x55, 0x54] + [0x43, 0x00]

  lemma PreAndPostData()
    ensures PreData(Designation(Utc)) == WrittenPreData
    ensures PostData() == [0x00, 0x00]
  {
  }

  /** The record of the first leap second in a 4-byte block, and in an
      8-byte one. */
  lemma WrittenRecords()
    ensures EncodeLeaps([FirstLeap], false) == July1972 + One4
    ensures EncodeLeaps([FirstLeap], true) == Z4 + July1972 + One4
  {
    assert [FirstLeap][..0] == [];
    RowValues();
  }

  /** A version '2' file with one leap second, as written: each block is
      header, local time type and characters, record, indicators; then the
      footer. */
  const WrittenV2: seq<Byte> :=
    (WrittenHeader + WrittenPreData + (July1972 + One4) + [0x00, 0x00])
    + (WrittenHeader + WrittenPreData + (Z4 + July1972 + One4) + [0x00, 0x00])
    + [0x0a, 0x55, 0x54, 0x43, 0x0a]

  lemma WriteV2Vector()
    ensures Encoding([FirstLeap], Utc) == WrittenV2
  {
    PrepareHeaderVector();
    PreAndPostData();
    WrittenRecords();
    assert Footer(Utc) == [0x0a, 0x55, 0x54, 0x43, 0x0a];
  }

  /** Writing the table into an empty buffer. */
  method WriteV2() returns (bytes: seq<Byte>, err: Option<TzError>)
    ensures err == None && bytes == WrittenV2
  {
    var b := new Buffer();
    err := Write(b, Version2, [FirstLeap], Utc);
    bytes := b.bytes;
    WriteV2Vector();
  }

  /** Version '4' cannot be written, and nothing is. */
  method WriteWrongVersion() returns (bytes: seq<Byte>, err: Option<TzError>)
    ensures err == Some(UnsupportedVersion) && bytes == []
  {
    var b := new Buffer();
    err := Write(b, 0x34, [], Utc);
    bytes := b.bytes;
  }

  // ---------------------------------------------------------------------
  // The leap second in effect

  /** Once the second leap second is past, it is the one in effect. */
  lemma LatestOfV2(now: int)
    requires now >= 94694401
    ensures LatestOf(TzV2, now) == Success(SecondLeap)
  {
    ParseV2();
  }

  /** The record in effect is chosen on the leap-counting scale (`tleap`), not
      by the Unix time `Time` gives: at the second leap second's Unix time the
      first record is still in effect, and one second later the second is. */
  lemma LatestLagsTime()
    ensures Time(SecondLeap) == 94694400
    ensures LatestIn([FirstLeap, SecondLeap], 94694400) == Some(FirstLeap)
    ensures LatestIn([FirstLeap, SecondLeap], 94694401) == Some(SecondLeap)
  {
    assert [FirstLeap, SecondLeap][..1] == [FirstLeap];
  }

  /** A table whose last record is announced for the future. */
  const Scheduled := [LeapSecond(1649346016, 1), LeapSecond(1649346026, 2), LeapSecond(2649346018, 3)]

  lemma ScheduledLatest(now: int)
    ensures 1649346026 <= now < 2649346018 ==> LatestIn(Scheduled, now) == Some(LeapSecond(1649346026, 2))
    ensures now < 1649346016 ==> LatestIn(Scheduled, now) == None
  {
    assert Scheduled[..2] == [LeapSecond(1649346016, 1), LeapSecond(1649346026, 2)];
    assert Scheduled[..2][..1] == [LeapSecond(1649346016, 1)];
    assert Scheduled[..2][..1][..0] == [];
  }

  /** Between the second and the third record of a written table, the
      second is in effect. */
  lemma LatestSkipsFuture(now: int)
    requires 1649346026 <= now < 2649346018
    ensures LatestOf(Encoding(Scheduled, Utc), now) == Success(LeapSecond(1649346026, 2))
  {
    ScheduledLatest(now);
    LatestOfWritten(Scheduled, Utc, now);
  }

  /** Before its first record nothing is in effect. */
  lemma LatestBeforeFirst(now: int)
    requires now < 1649346016
    ensures LatestOf(Encoding(Scheduled, Utc), now) == Failure(NoPastLeapSecond)
  {
    ScheduledLatest(now);
    LatestOfWritten(Scheduled, Utc, now);
  }
}
