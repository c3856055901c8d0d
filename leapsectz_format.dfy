/** The leap-second table and its TZif file format (section 3 of RFC 8536):
    the records, the header, and the meaning of a file as pure functions.
    The imperative reader and writer are proved against these. */
module LeapSecTz {
  import opened BigEndian
  import opened Wrappers

  /** A leap-second transition: `tleap` is the time (in seconds of the time
      scale that counts leap seconds) at which it takes effect, `nleap` the
      total number of leap seconds inserted up to and including it. */
  datatype LeapSecond = LeapSecond(tleap: U64, nleap: I32)

  /** The six counts that follow the fixed prefix of each header, in file
      order. */
  datatype Header = Header(
    isUtcCnt: U32, isStdCnt: U32, leapCnt: U32, timeCnt: U32, typeCnt: U32, charCnt: U32)

  datatype TzError =
    | BadData             // bad magic, or the fixed header is cut short
    | UnsupportedVersion  // version byte not 0, '2' or '3'; or a write of another version than '2'
    | NoLeapSeconds       // a well-formed table with no leap records
    | Truncated           // the body is shorter than its header declares
    | NoPastLeapSecond    // every record lies in the future

  /** The Unix time of the transition: the count of inserted leap seconds is
      taken off the leap-counting time scale. */
  function Time(l: LeapSecond): int
  {
    l.tleap - l.nleap + 1
  }

  /** The record for the `nleap`-th leap second taking effect at Unix time
      `unix`. */
  function LeapAt(unix: int, nleap: I32): (l: LeapSecond)
    requires 0 <= unix + nleap - 1 < 0x1_0000_0000_0000_0000
    ensures Time(l) == unix && l.nleap == nleap
  {
    LeapSecond(unix + nleap - 1, nleap)
  }

  /** A record is determined by its Unix time and its count. */
  lemma LeapAtTime(l: LeapSecond)
    ensures LeapAt(Time(l), l.nleap) == l
  {
  }

  /** "TZif" */
  const Magic: seq<Byte> := [0x54, 0x5A, 0x69, 0x66]
  const Version1: Byte := 0x00
  const Version2: Byte := 0x32   // '2'
  const Version3: Byte := 0x33   // '3'
  const Newline: Byte := 0x0A

  /** Magic (4), version (1), padding (15), six counts (24). */
  const HeaderSize: nat := 44

  predicate SupportedVersion(v: Byte) {
    v == Version1 || v == Version2 || v == Version3
  }

  function DecodeHeader(b: seq<Byte>): (h: Header)
    requires |b| == 24
  {
    Header(DecodeU32(b[0..4]), DecodeU32(b[4..8]), DecodeU32(b[8..12]),
           DecodeU32(b[12..16]), DecodeU32(b[16..20]), DecodeU32(b[20..24]))
  }

  function EncodeHeader(h: Header): (b: seq<Byte>)
    ensures |b| == 24
  {
    EncodeU32(h.isUtcCnt) + EncodeU32(h.isStdCnt) + EncodeU32(h.leapCnt)
    + EncodeU32(h.timeCnt) + EncodeU32(h.typeCnt) + EncodeU32(h.charCnt)
  }

  lemma DecodeEncodeHeader(h: Header)
    ensures DecodeHeader(EncodeHeader(h)) == h
  {
    var b := EncodeHeader(h);
    assert b[0..4] == EncodeU32(h.isUtcCnt);
    assert b[4..8] == EncodeU32(h.isStdCnt);
    assert b[8..12] == EncodeU32(h.leapCnt);
    assert b[12..16] == EncodeU32(h.timeCnt);
    assert b[16..20] == EncodeU32(h.typeCnt);
    assert b[20..24] == EncodeU32(h.charCnt);
    DecodeEncodeU32(h.isUtcCnt);
    DecodeEncodeU32(h.isStdCnt);
    DecodeEncodeU32(h.leapCnt);
    DecodeEncodeU32(h.timeCnt);
    DecodeEncodeU32(h.typeCnt);
    DecodeEncodeU32(h.charCnt);
  }

  // ---------------------------------------------------------------------
  // Layout of one data block. The first block of every file stores times
  // in 4 bytes; the second block of a version '2'/'3' file in 8 bytes.

  function TimeSize(wide: bool): nat {
    if wide then 8 else 4
  }

  /** A leap record: a time, then a signed 32-bit count. */
  function RecordSize(wide: bool): nat {
    TimeSize(wide) + 4
  }

  /** Bytes between the header and the leap records: transition times, their
      type indices, 6-byte local time types and the designation characters. */
  function SkipSize(h: Header, wide: bool): nat {
    (if wide then 9 * h.timeCnt else 5 * h.timeCnt) + 6 * h.typeCnt + h.charCnt
  }

  /** Bytes after the leap records: the standard/wall and UT/local indicators. */
  function TrailerSize(h: Header): nat {
    h.isStdCnt + h.isUtcCnt
  }

  /** Size in bytes of `count` leap records. */
  function LeapsSize(count: nat, wide: bool): nat {
    if wide then 12 * count else 8 * count
  }

  function DecodeLeap(b: seq<Byte>, wide: bool): LeapSecond
    requires |b| == RecordSize(wide)
  {
    var w := TimeSize(wide);
    LeapSecond(if wide then DecodeU64(b[..w]) else DecodeU32(b[..w]), DecodeI32(b[w..]))
  }

  /** In a 4-byte block the time keeps only its low 32 bits. */
  function Narrow(l: LeapSecond, wide: bool): LeapSecond {
    if wide then l else LeapSecond(l.tleap % 0x1_0000_0000, l.nleap)
  }

  function EncodeLeap(l: LeapSecond, wide: bool): (b: seq<Byte>)
    ensures |b| == RecordSize(wide)
    ensures DecodeLeap(b, wide) == Narrow(l, wide)
  {
    var t := if wide then EncodeU64(l.tleap) else EncodeU32(l.tleap % 0x1_0000_0000);
    var b := t + EncodeI32(l.nleap);
    assert b[..TimeSize(wide)] == t && b[TimeSize(wide)..] == EncodeI32(l.nleap);
    DecodeEncodeU64(l.tleap);
    DecodeEncodeU32(l.tleap % 0x1_0000_0000);
    DecodeEncodeI32(l.nleap);
    b
  }

  /** The bytes of the record with index `i` in a run of records. */
  function RecordAt(s: seq<Byte>, i: nat, wide: bool): (b: seq<Byte>)
    requires LeapsSize(i + 1, wide) <= |s|
    ensures |b| == RecordSize(wide)
  {
    s[LeapsSize(i, wide)..LeapsSize(i + 1, wide)]
  }

  /** The first `count` records of `s`, or None when `s` is too short. */
  function DecodeLeaps(s: seq<Byte>, count: nat, wide: bool): Option<seq<LeapSecond>> {
    if |s| < LeapsSize(count, wide) then None
    else Some(seq(count, i requires 0 <= i < count => DecodeLeap(RecordAt(s, i, wide), wide)))
  }

  /** The records one after the other; the last one goes last. */
  function EncodeLeaps(ls: seq<LeapSecond>, wide: bool): (b: seq<Byte>)
    ensures |b| == LeapsSize(|ls|, wide)
  {
    if ls == [] then [] else EncodeLeaps(ls[..|ls| - 1], wide) + EncodeLeap(ls[|ls| - 1], wide)
  }

  function NarrowAll(ls: seq<LeapSecond>, wide: bool): (r: seq<LeapSecond>)
    ensures |r| == |ls|
    ensures forall i :: 0 <= i < |ls| ==> r[i] == Narrow(ls[i], wide)
  {
    seq(|ls|, i requires 0 <= i < |ls| => Narrow(ls[i], wide))
  }

  /** Record `k` of the written records is the encoding of `ls[k]`. */
  lemma {:induction false} EncodeLeapsAt(ls: seq<LeapSecond>, wide: bool, k: nat)
    requires k < |ls|
    ensures LeapsSize(k + 1, wide) <= |EncodeLeaps(ls, wide)|
    ensures RecordAt(EncodeLeaps(ls, wide), k, wide) == EncodeLeap(ls[k], wide)
  {
    var init, last := ls[..|ls| - 1], ls[|ls| - 1];
    var e := EncodeLeaps(init, wide);
    assert EncodeLeaps(ls, wide) == e + EncodeLeap(last, wide);
    if k < |ls| - 1 {
      EncodeLeapsAt(init, wide, k);
      assert init[k] == ls[k];
      SlicePrefix(e, EncodeLeap(last, wide), LeapsSize(k, wide), LeapsSize(k + 1, wide));
    } else {
      SliceSuffix(e, EncodeLeap(last, wide));
    }
  }

  lemma SlicePrefix(a: seq<Byte>, b: seq<Byte>, i: nat, j: nat)
    requires i <= j <= |a|
    ensures (a + b)[i..j] == a[i..j]
  {
  }

  lemma SliceSuffix(a: seq<Byte>, b: seq<Byte>)
    ensures (a + b)[|a|..|a| + |b|] == b
  {
  }

  /** Reading back written records gives them back (with 32-bit times in a
      4-byte block), whatever follows them. */
  lemma DecodeEncodeLeaps(ls: seq<LeapSecond>, wide: bool, rest: seq<Byte>)
    ensures DecodeLeaps(EncodeLeaps(ls, wide) + rest, |ls|, wide) == Some(NarrowAll(ls, wide))
  {
    var e := EncodeLeaps(ls, wide);
    forall k | 0 <= k < |ls|
      ensures DecodeLeap(RecordAt(e + rest, k, wide), wide) == Narrow(ls[k], wide)
    {
      EncodeLeapsAt(ls, wide, k);
      SlicePrefix(e, rest, LeapsSize(k, wide), LeapsSize(k + 1, wide));
    }
    assert DecodeLeaps(e + rest, |ls|, wide).value == NarrowAll(ls, wide);
  }

  /** Reading one more record extends the records read so far at the back,
      which is how a reader that reads them one at a time proceeds. */
  lemma DecodeLeapsSnoc(s: seq<Byte>, i: nat, wide: bool)
    requires |s| >= LeapsSize(i + 1, wide)
    ensures DecodeLeaps(s, i + 1, wide) == Some(DecodeLeaps(s, i, wide).value + [DecodeLeap(RecordAt(s, i, wide), wide)])
  {
    assert DecodeLeaps(s, i + 1, wide).value == DecodeLeaps(s, i, wide).value + [DecodeLeap(RecordAt(s, i, wide), wide)];
  }

  /** Appending one record to the written records. */
  lemma EncodeLeapsSnoc(ls: seq<LeapSecond>, l: LeapSecond, wide: bool)
    ensures EncodeLeaps(ls + [l], wide) == EncodeLeaps(ls, wide) + EncodeLeap(l, wide)
  {
    assert (ls + [l])[..|ls|] == ls;
  }

  lemma NarrowWide(ls: seq<LeapSecond>)
    ensures NarrowAll(ls, true) == ls
  {
  }

  // ---------------------------------------------------------------------
  // Meaning of a file

  /** One parsed data block: the version byte of its header, its leap
      records, and how many bytes it occupies. */
  datatype Block = Block(version: Byte, leaps: seq<LeapSecond>, size: nat)

  /** The fixed header at the front of `s`: it must be complete and start
      with the magic and a supported version. Yields the version byte and
      the six counts. */
  function ParseHeader(s: seq<Byte>): (r: Result<(Byte, Header), TzError>)
    ensures r.Success? <==> |s| >= HeaderSize && s[..4] == Magic && SupportedVersion(s[4])
    ensures r.Success? ==> r.value == (s[4], DecodeHeader(s[20..HeaderSize]))
    ensures r.Failure? ==> r.error == BadData || r.error == UnsupportedVersion
    ensures r.Failure? && r.error == UnsupportedVersion <==> |s| >= 5 && s[..4] == Magic && !SupportedVersion(s[4])
  {
    if |s| < 4 || s[..4] != Magic then Failure(BadData)
    else if |s| < 5 then Failure(BadData)
    else if !SupportedVersion(s[4]) then Failure(UnsupportedVersion)
    else if |s| < HeaderSize then Failure(BadData)
    else Success((s[4], DecodeHeader(s[20..HeaderSize])))
  }

  /** The leap records at the front of `t`, provided the indicators that
      follow them are present as well. */
  function ParseSections(t: seq<Byte>, h: Header, wide: bool): (r: Option<seq<LeapSecond>>)
    ensures r.Some? ==> |r.value| == h.leapCnt && LeapsSize(h.leapCnt, wide) + TrailerSize(h) <= |t|
  {
    match DecodeLeaps(t, h.leapCnt, wide)
    case None => None
    case Some(leaps) =>
      if |t| < LeapsSize(h.leapCnt, wide) + TrailerSize(h) then None else Some(leaps)
  }

  /** Parses what follows a header with counts `h`: the sections it
      declares, which must all be present. Yields the leap records and the
      number of bytes the sections occupy. */
  function ParseBody(s: seq<Byte>, h: Header, wide: bool): (r: Result<(seq<LeapSecond>, nat), TzError>)
    ensures r.Success? ==> r.value.1 <= |s| && |r.value.0| == h.leapCnt
    ensures r.Failure? ==> r.error == Truncated
  {
    var skip := SkipSize(h, wide);
    if |s| < skip then Failure(Truncated)
    else
      match ParseSections(s[skip..], h, wide)
      case None => Failure(Truncated)
      case Some(leaps) => Success((leaps, skip + LeapsSize(h.leapCnt, wide) + TrailerSize(h)))
  }

  /** Parses the block at the front of `s`: a header, then its body. */
  function ParseBlock(s: seq<Byte>, wide: bool): (r: Result<Block, TzError>)
    ensures r.Success? ==> HeaderSize <= r.value.size <= |s|
    ensures r.Success? ==> ParseHeader(s).Success? && r.value.version == ParseHeader(s).value.0
    ensures r.Failure? ==> r.error != NoLeapSeconds && r.error != NoPastLeapSecond
  {
    match ParseHeader(s)
    case Failure(e) => Failure(e)
    case Success((version, h)) =>
      match ParseBody(s[HeaderSize..], h, wide)
      case Failure(e) => Failure(e)
      case Success((leaps, n)) => Success(Block(version, leaps, HeaderSize + n))
  }

  /** What parsing hands back: the records, and an error instead of them. */
  datatype Parsed = Parsed(leaps: seq<LeapSecond>, err: Option<TzError>)

  /** An empty table is refused. */
  function Finish(leaps: seq<LeapSecond>): (r: Parsed)
    ensures r.err.None? <==> leaps != []
    ensures r.err.None? ==> r.leaps == leaps
    ensures r.err.Some? ==> r == Parsed([], Some(NoLeapSeconds))
  {
    if leaps == [] then Parsed([], Some(NoLeapSeconds)) else Parsed(leaps, None)
  }

  /** A version 1 file is one block with 4-byte times. A version '2' or '3'
      file repeats the block with 8-byte times after the first one, and only
      the second block's records count; the footer is not read. */
  function Parse(data: seq<Byte>): (r: Parsed)
    ensures r.err.Some? ==> r.leaps == []
    ensures r.err.None? ==> r.leaps != []
  {
    match ParseBlock(data, false)
    case Failure(e) => Parsed([], Some(e))
    case Success(first) =>
      if first.version == Version1 then Finish(first.leaps)
      else
        match ParseBlock(data[first.size..], true)
        case Failure(e) => Parsed([], Some(e))
        case Success(second) => Finish(second.leaps)
  }

  /** The three header failures, in the order they are checked. */
  lemma ParseHeaderErrors(data: seq<Byte>)
    ensures |data| < 4 || data[..4] != Magic ==> Parse(data) == Parsed([], Some(BadData))
    ensures |data| >= 5 && data[..4] == Magic && !SupportedVersion(data[4]) ==>
      Parse(data) == Parsed([], Some(UnsupportedVersion))
    ensures |data| >= 5 && data[..4] == Magic && SupportedVersion(data[4]) && |data| < HeaderSize ==>
      Parse(data) == Parsed([], Some(BadData))
  {
  }

  /** A successful parse has read every byte of the block(s) its records
      come from: a version 1 table is the block itself, a later version
      the second block right after the first. */
  lemma ParseConsumesBlocks(data: seq<Byte>)
    requires Parse(data).err.None?
    ensures ParseBlock(data, false).Success?
    ensures var first := ParseBlock(data, false).value;
      if first.version == Version1 then Parse(data).leaps == first.leaps
      else
        && ParseBlock(data[first.size..], true).Success?
        && first.size + ParseBlock(data[first.size..], true).value.size <= |data|
        && Parse(data).leaps == ParseBlock(data[first.size..], true).value.leaps
  {
  }

  /** Records are read from their own bytes only. */
  lemma DecodeLeapsPrefix(t: seq<Byte>, rest: seq<Byte>, count: nat, wide: bool)
    requires LeapsSize(count, wide) <= |t|
    ensures DecodeLeaps(t + rest, count, wide) == DecodeLeaps(t, count, wide)
  {
    forall i | 0 <= i < count
      ensures RecordAt(t + rest, i, wide) == RecordAt(t, i, wide)
    {
      assert LeapsSize(i + 1, wide) <= LeapsSize(count, wide);
      SlicePrefix(t, rest, LeapsSize(i, wide), LeapsSize(i + 1, wide));
    }
    assert DecodeLeaps(t + rest, count, wide).value == DecodeLeaps(t, count, wide).value;
  }

  /** A body that parses is not affected by what follows it. */
  lemma ParseBodyPrefix(s: seq<Byte>, rest: seq<Byte>, h: Header, wide: bool)
    requires ParseBody(s, h, wide).Success?
    ensures ParseBody(s + rest, h, wide) == ParseBody(s, h, wide)
  {
    var skip := SkipSize(h, wide);
    assert (s + rest)[skip..] == s[skip..] + rest;
    DecodeLeapsPrefix(s[skip..], rest, h.leapCnt, wide);
  }

  /** A block that parses is not affected by what follows it: the parser
      never looks past the sections the header declares. */
  lemma ParseBlockPrefix(b: seq<Byte>, rest: seq<Byte>, wide: bool)
    requires ParseBlock(b, wide).Success?
    ensures ParseBlock(b + rest, wide) == ParseBlock(b, wide)
  {
    var s := b + rest;
    assert s[..4] == b[..4];
    assert s[20..HeaderSize] == b[20..HeaderSize];
    assert s[HeaderSize..] == b[HeaderSize..] + rest;
    ParseBodyPrefix(b[HeaderSize..], rest, ParseHeader(b).value.1, wide);
  }

  /** A table that parses is not affected by what follows the block(s) its
      records come from; in particular by a second copy of the file. */
  lemma ParsePrefix(data: seq<Byte>, rest: seq<Byte>)
    requires ParseBlock(data, false).Success?
    requires ParseBlock(data, false).value.version != Version1 ==>
      ParseBlock(data[ParseBlock(data, false).value.size..], true).Success?
    ensures Parse(data + rest) == Parse(data)
  {
    var first := ParseBlock(data, false).value;
    if first.version == Version1 {
      ParseFirstPrefix(data, rest, first);
    } else {
      ParseSecondPrefix(data, rest, first, ParseBlock(data[first.size..], true).value);
    }
  }

  lemma ParseFirstPrefix(data: seq<Byte>, rest: seq<Byte>, first: Block)
    requires ParseBlock(data, false) == Success(first) && first.version == Version1
    ensures Parse(data + rest) == Parse(data)
  {
    ParseBlockPrefix(data, rest, false);
    ParseFirstBlock(data + rest, first);
    ParseFirstBlock(data, first);
  }

  lemma ParseSecondPrefix(data: seq<Byte>, rest: seq<Byte>, first: Block, second: Block)
    requires ParseBlock(data, false) == Success(first) && first.version != Version1
    requires ParseBlock(data[first.size..], true) == Success(second)
    ensures Parse(data + rest) == Parse(data)
  {
    var tail := data[first.size..];
    ParseBlockPrefix(data, rest, false);
    DropConcat(data, rest, first.size);
    ParseBlockPrefix(tail, rest, true);
    ParseSecondBlock(data + rest, first, second);
    ParseSecondBlock(data, first, second);
  }

  lemma DropConcat(a: seq<Byte>, b: seq<Byte>, k: nat)
    requires k <= |a|
    ensures (a + b)[k..] == a[k..] + b
  {
  }

  /** A version 1 table is the table of its one block. */
  lemma ParseFirstBlock(data: seq<Byte>, first: Block)
    requires ParseBlock(data, false) == Success(first) && first.version == Version1
    ensures Parse(data) == Finish(first.leaps)
  {
  }

  /** A table of a later version is the table of its second block. */
  lemma ParseSecondBlock(data: seq<Byte>, first: Block, second: Block)
    requires ParseBlock(data, false) == Success(first) && first.version != Version1
    requires ParseBlock(data[first.size..], true) == Success(second)
    ensures Parse(data) == Finish(second.leaps)
  {
  }

  // ---------------------------------------------------------------------
  // What the writer emits

  /** The fixed header the writer puts before each block: one local time
      type, one standard/wall and one UT/local indicator, no transitions,
      `leapCount` leap records and the designation characters. Counts are
      truncated to 32 bits. */
  function PrepareHeader(version: Byte, leapCount: nat, chars: seq<Byte>): (r: seq<Byte>)
    ensures |r| == HeaderSize
    ensures r[..4] == Magic && r[4] == version
    ensures forall i :: 5 <= i < 20 ==> r[i] == 0
    ensures DecodeHeader(r[20..]) ==
      Header(1, 1, leapCount % 0x1_0000_0000, 0, 1, |chars| % 0x1_0000_0000)
  {
    var h := Header(1, 1, leapCount % 0x1_0000_0000, 0, 1, |chars| % 0x1_0000_0000);
    DecodeEncodeHeader(h);
    var r := Magic + [version] + Zeros(15) + EncodeHeader(h);
    assert r[20..] == EncodeHeader(h);
    r
  }

  /** The local time type (six zero bytes) and the designation characters. */
  function PreData(chars: seq<Byte>): (r: seq<Byte>)
    ensures |r| == 6 + |chars| && r[6..] == chars
    ensures forall i :: 0 <= i < 6 ==> r[i] == 0
  {
    Zeros(6) + chars
  }

  /** The standard/wall and UT/local indicators, both zero. */
  function PostData(): (r: seq<Byte>)
    ensures r == [0, 0]
  {
    Zeros(2)
  }

  /** One block as written: 4-byte times when not `wide`. */
  function EncodeBlock(version: Byte, ls: seq<LeapSecond>, chars: seq<Byte>, wide: bool): seq<Byte> {
    PrepareHeader(version, |ls|, chars) + PreData(chars) + EncodeLeaps(ls, wide) + PostData()
  }

  /** The zoneinfo designation of a name: its bytes and a terminating NUL. */
  function Designation(name: seq<Byte>): seq<Byte> {
    name + [0]
  }

  /** The footer of a version '2' file: the name between two newlines. */
  function Footer(name: seq<Byte>): seq<Byte> {
    [Newline] + name + [Newline]
  }

  /** A whole file as written for version '2'. */
  function Encoding(ls: seq<LeapSecond>, name: seq<Byte>): seq<Byte> {
    EncodeBlock(Version2, ls, Designation(name), false)
    + EncodeBlock(Version2, ls, Designation(name), true)
    + Footer(name)
  }

  /** A written block parses as a block of the same size, whatever follows. */
  lemma ParseEncodedBlock(version: Byte, ls: seq<LeapSecond>, chars: seq<Byte>, wide: bool, rest: seq<Byte>)
    requires SupportedVersion(version)
    requires |ls| < 0x1_0000_0000 && |chars| < 0x1_0000_0000
    ensures ParseBlock(EncodeBlock(version, ls, chars, wide) + rest, wide)
      == Success(Block(version, NarrowAll(ls, wide), |EncodeBlock(version, ls, chars, wide)|))
  {
    BlockLayout(version, ls, chars, wide, rest);
    BlockParses(EncodeBlock(version, ls, chars, wide) + rest, version, |ls|, |chars|, wide, NarrowAll(ls, wide),
      |EncodeBlock(version, ls, chars, wide)|);
  }

  /** When the header is complete and the sections it declares are all
      present, a block parses to the records after the skipped sections. */
  lemma ParseBlockOf(s: seq<Byte>, h: Header, wide: bool, leaps: seq<LeapSecond>)
    requires |s| >= HeaderSize && s[..4] == Magic && SupportedVersion(s[4])
    requires DecodeHeader(s[20..HeaderSize]) == h
    requires HeaderSize + SkipSize(h, wide) + LeapsSize(h.leapCnt, wide) + TrailerSize(h) <= |s|
    requires DecodeLeaps(s[HeaderSize + SkipSize(h, wide)..], h.leapCnt, wide) == Some(leaps)
    ensures ParseBlock(s, wide)
      == Success(Block(s[4], leaps, HeaderSize + SkipSize(h, wide) + LeapsSize(h.leapCnt, wide) + TrailerSize(h)))
  {
    assert s[HeaderSize..][SkipSize(h, wide)..] == s[HeaderSize + SkipSize(h, wide)..];
  }

  /** How a written block with `n` records and `c` designation characters
      lies at the front of `s`. */
  predicate WrittenLayout(s: seq<Byte>, version: Byte, n: nat, c: nat, wide: bool, leaps: seq<LeapSecond>) {
    && n < 0x1_0000_0000 && c < 0x1_0000_0000
    && |s| >= HeaderSize + 6 + c + LeapsSize(n, wide) + 2
    && s[..4] == Magic && s[4] == version
    && DecodeHeader(s[20..HeaderSize]) == Header(1, 1, n, 0, 1, c)
    && DecodeLeaps(s[HeaderSize + 6 + c..], n, wide) == Some(leaps)
  }

  /** A block with the writer's counts parses to the records found after
      the designation characters. */
  lemma BlockParses(s: seq<Byte>, version: Byte, n: nat, c: nat, wide: bool, leaps: seq<LeapSecond>, size: nat)
    requires SupportedVersion(version) && WrittenLayout(s, version, n, c, wide, leaps)
    requires size == HeaderSize + 6 + c + LeapsSize(n, wide) + 2
    ensures ParseBlock(s, wide) == Success(Block(version, leaps, size))
  {
    var h := Header(1, 1, n, 0, 1, c);
    assert SkipSize(h, wide) == 6 + c && TrailerSize(h) == 2;
    ParseBlockOf(s, h, wide, leaps);
  }

  /** Counts that fit in 32 bits are written unchanged. */
  lemma WrittenCounts(version: Byte, leapCount: nat, chars: seq<Byte>)
    requires leapCount < 0x1_0000_0000 && |chars| < 0x1_0000_0000
    ensures DecodeHeader(PrepareHeader(version, leapCount, chars)[20..]) == Header(1, 1, leapCount, 0, 1, |chars|)
  {
  }

  /** Where the header and the records sit in a written block, and what
      they decode to. */
  lemma BlockLayout(version: Byte, ls: seq<LeapSecond>, chars: seq<Byte>, wide: bool, rest: seq<Byte>)
    requires |ls| < 0x1_0000_0000 && |chars| < 0x1_0000_0000
    ensures |EncodeBlock(version, ls, chars, wide)| == HeaderSize + 6 + |chars| + LeapsSize(|ls|, wide) + 2
    ensures WrittenLayout(EncodeBlock(version, ls, chars, wide) + rest, version, |ls|, |chars|, wide, NarrowAll(ls, wide))
  {
    WrittenCounts(version, |ls|, chars);
    DecodeEncodeLeaps(ls, wide, PostData() + rest);
    var hdr, pre, leaps, post := PrepareHeader(version, |ls|, chars), PreData(chars), EncodeLeaps(ls, wide), PostData();
    var tail := leaps + (post + rest);
    var s := EncodeBlock(version, ls, chars, wide) + rest;
    Assoc((hdr + pre) + leaps, post, rest);
    Assoc(hdr + pre, leaps, post + rest);
    assert s == (hdr + pre) + tail;
    assert s[|hdr + pre|..] == tail;
    Assoc(hdr, pre, tail);
    assert s[..HeaderSize] == hdr;
    assert s[..4] == hdr[..4];
    assert s[20..HeaderSize] == hdr[20..];
  }

  lemma Assoc(a: seq<Byte>, b: seq<Byte>, c: seq<Byte>)
    ensures (a + b) + c == a + (b + c)
  {
  }

  /** Writing a non-empty table and parsing the result gives the table back;
      an empty table is written but refused when read. */
  lemma WriteParseRoundTrip(ls: seq<LeapSecond>, name: seq<Byte>)
    requires |ls| < 0x1_0000_0000 && |name| + 1 < 0x1_0000_0000
    ensures Parse(Encoding(ls, name)) == Finish(ls)
    ensures ls != [] ==> Parse(Encoding(ls, name)) == Parsed(ls, None)
    ensures ls == [] ==> Parse(Encoding(ls, name)) == Parsed([], Some(NoLeapSeconds))
  {
    var chars := Designation(name);
    var b1 := EncodeBlock(Version2, ls, chars, false);
    var b2 := EncodeBlock(Version2, ls, chars, true);
    var data := Encoding(ls, name);
    assert data == b1 + (b2 + Footer(name));
    ParseEncodedBlock(Version2, ls, chars, false, b2 + Footer(name));
    assert data[|b1|..] == b2 + Footer(name);
    ParseEncodedBlock(Version2, ls, chars, true, Footer(name));
    NarrowWide(ls);
  }
}
