/** Reading a leap-second table: a cursor over the file's bytes, the block
    parser that consumes it section by section, and the query for the
    leap second in effect at a given instant. Each method is proved to
    compute what the functions of module LeapSecTz define. */
module LeapSecTzReader {
  import opened BigEndian
  import opened Wrappers
  import opened LeapSecTz

  /** A read cursor over an in-memory file. */
  class Reader {
    const data: seq<Byte>
    var pos: nat

    predicate Valid()
      reads this
    {
      pos <= |data|
    }

    /** The bytes not read yet. */
    function Remaining(): seq<Byte>
      reads this
      requires Valid()
    {
      data[pos..]
    }

    constructor (data: seq<Byte>)
      ensures Valid() && this.data == data && Remaining() == data
    {
      this.data := data;
      pos := 0;
    }

    /** Reads exactly `n` bytes. When fewer remain, fails and leaves the
        cursor at the end, as a short full read does. */
    method ReadFull(n: nat) returns (chunk: seq<Byte>, ok: bool)
      requires Valid()
      modifies this
      ensures Valid()
      ensures ok <==> n <= |old(Remaining())|
      ensures ok ==> chunk == old(Remaining())[..n] && Remaining() == old(Remaining())[n..]
      ensures !ok ==> Remaining() == []
    {
      if pos + n <= |data| {
        chunk := data[pos..pos + n];
        pos := pos + n;
        ok := true;
      } else {
        chunk := data[pos..];
        pos := |data|;
        ok := false;
      }
    }
  }

  /** Reads the fixed header: magic, version, padding and the six counts. */
  method ReadHeader(r: Reader) returns (res: Result<(Byte, Header), TzError>)
    requires r.Valid()
    modifies r
    ensures r.Valid()
    ensures res == ParseHeader(old(r.Remaining()))
    ensures res.Success? ==> r.Remaining() == old(r.Remaining())[HeaderSize..]
  {
    ghost var s := r.Remaining();
    var magic, ok := r.ReadFull(4);
    if !ok || magic != Magic {
      return Failure(BadData);
    }
    var ver;
    ver, ok := r.ReadFull(1);
    if !ok {
      return Failure(BadData);
    }
    assert ver[0] == s[4];
    if !SupportedVersion(ver[0]) {
      return Failure(UnsupportedVersion);
    }
    var pad;
    pad, ok := r.ReadFull(15);
    if !ok {
      return Failure(BadData);
    }
    var counts;
    counts, ok := r.ReadFull(24);
    if !ok {
      return Failure(BadData);
    }
    assert counts == s[20..HeaderSize];
    assert r.Remaining() == s[HeaderSize..];
    return Success((ver[0], DecodeHeader(counts)));
  }

  /** Reads `count` leap records one at a time. */
  method ReadLeaps(r: Reader, count: nat, wide: bool) returns (res: Option<seq<LeapSecond>>)
    requires r.Valid()
    modifies r
    ensures r.Valid()
    ensures res == DecodeLeaps(old(r.Remaining()), count, wide)
    ensures res.Some? ==> r.Remaining() == old(r.Remaining())[LeapsSize(count, wide)..]
  {
    ghost var body := r.Remaining();
    var leaps: seq<LeapSecond> := [];
    assert DecodeLeaps(body, 0, wide).value == [];
    var i: nat := 0;
    while i < count
      invariant r.Valid()
      invariant i <= count
      invariant LeapsSize(i, wide) <= |body|
      invariant r.Remaining() == body[LeapsSize(i, wide)..]
      invariant DecodeLeaps(body, i, wide) == Some(leaps)
    {
      var rec, ok := r.ReadFull(RecordSize(wide));
      if !ok {
        return None;
      }
      assert rec == RecordAt(body, i, wide);
      DecodeLeapsSnoc(body, i, wide);
      leaps := leaps + [DecodeLeap(rec, wide)];
      i := i + 1;
    }
    return Some(leaps);
  }

  /** Reads the leap records, then the indicators after them. */
  method ReadSections(r: Reader, h: Header, wide: bool) returns (res: Option<seq<LeapSecond>>)
    requires r.Valid()
    modifies r
    ensures r.Valid()
    ensures res == ParseSections(old(r.Remaining()), h, wide)
    ensures res.Some? ==> r.Remaining() == old(r.Remaining())[LeapsSize(h.leapCnt, wide) + TrailerSize(h)..]
  {
    ghost var t := r.Remaining();
    var leaps := ReadLeaps(r, h.leapCnt, wide);
    if leaps.None? {
      return None;
    }
    var trailer, ok := r.ReadFull(TrailerSize(h));
    if !ok {
      return None;
    }
    DropDrop(t, LeapsSize(h.leapCnt, wide), TrailerSize(h));
    return leaps;
  }

  /** Reads the sections that follow a header with counts `h`: the
      skipped sections, the leap records and the trailing indicators. */
  method ReadBody(r: Reader, h: Header, wide: bool) returns (res: Result<(seq<LeapSecond>, nat), TzError>)
    requires r.Valid()
    modifies r
    ensures r.Valid()
    ensures res == ParseBody(old(r.Remaining()), h, wide)
    ensures res.Success? ==> r.Remaining() == old(r.Remaining())[res.value.1..]
  {
    ghost var s := r.Remaining();
    var skip := SkipSize(h, wide);
    var skipped, ok := r.ReadFull(skip);
    if !ok {
      return Failure(Truncated);
    }
    var leaps := ReadSections(r, h, wide);
    if leaps.None? {
      return Failure(Truncated);
    }
    var n := LeapsSize(h.leapCnt, wide) + TrailerSize(h);
    DropDrop(s, skip, n);
    return Success((leaps.value, skip + n));
  }

  /** Reads one block. On success the cursor sits right after it. */
  method ReadBlock(r: Reader, wide: bool) returns (res: Result<Block, TzError>)
    requires r.Valid()
    modifies r
    ensures r.Valid()
    ensures res == ParseBlock(old(r.Remaining()), wide)
    ensures res.Success? ==> r.Remaining() == old(r.Remaining())[res.value.size..]
  {
    ghost var s := r.Remaining();
    var header := ReadHeader(r);
    if header.Failure? {
      return Failure(header.error);
    }
    var (version, h) := header.value;
    var body := ReadBody(r, h, wide);
    if body.Failure? {
      return Failure(body.error);
    }
    var (leaps, n) := body.value;
    DropDrop(s, HeaderSize, n);
    return Success(Block(version, leaps, HeaderSize + n));
  }

  lemma DropDrop(s: seq<Byte>, a: nat, b: nat)
    requires a + b <= |s|
    ensures s[a..][b..] == s[a + b..]
  {
  }

  /** Reads a whole table: the one block of a version 1 file, or the
      discarded first block and the authoritative second block of a later
      version. An error comes with no records. */
  method ParseVx(r: Reader) returns (ls: seq<LeapSecond>, err: Option<TzError>)
    requires r.Valid()
    modifies r
    ensures Parsed(ls, err) == Parse(old(r.Remaining()))
    ensures err.Some? ==> ls == []
  {
    ghost var data := r.Remaining();
    var first := ReadBlock(r, false);
    if first.Failure? {
      return [], Some(first.error);
    }
    var block := first.value;
    if block.version != Version1 {
      var second := ReadBlock(r, true);
      if second.Failure? {
        return [], Some(second.error);
      }
      block := second.value;
    }
    if block.leaps == [] {
      return [], Some(NoLeapSeconds);
    }
    return block.leaps, None;
  }

  // ---------------------------------------------------------------------
  // The leap second in effect

  /** The last record whose time is not after `now`, if any. */
  function LatestIn(ls: seq<LeapSecond>, now: int): (r: Option<LeapSecond>)
    ensures r.Some? ==> r.value in ls && r.value.tleap <= now
  {
    if ls == [] then None
    else if ls[|ls| - 1].tleap <= now then Some(ls[|ls| - 1])
    else LatestIn(ls[..|ls| - 1], now)
  }

  /** There is no result exactly when every record is in the future. */
  lemma {:induction false} LatestInNone(ls: seq<LeapSecond>, now: int)
    ensures LatestIn(ls, now).None? <==> forall i :: 0 <= i < |ls| ==> ls[i].tleap > now
  {
    if ls != [] && ls[|ls| - 1].tleap > now {
      var init := ls[..|ls| - 1];
      LatestInNone(init, now);
      assert forall i :: 0 <= i < |init| ==> init[i] == ls[i];
    }
  }

  /** A result is a past record whose successors are all in the future;
      `i` is its index. */
  lemma {:induction false} LatestInIndex(ls: seq<LeapSecond>, now: int) returns (i: nat)
    requires LatestIn(ls, now).Some?
    ensures i < |ls| && ls[i] == LatestIn(ls, now).value && ls[i].tleap <= now
    ensures forall j :: i < j < |ls| ==> ls[j].tleap > now
  {
    if ls[|ls| - 1].tleap <= now {
      i := |ls| - 1;
    } else {
      var init := ls[..|ls| - 1];
      i := LatestInIndex(init, now);
      assert forall j :: 0 <= j < |init| ==> init[j] == ls[j];
    }
  }

  /** There is a result exactly when some record is not in the future, and
      then it is one whose successors all are. */
  lemma LatestInIsLast(ls: seq<LeapSecond>, now: int)
    ensures LatestIn(ls, now).None? <==> forall i :: 0 <= i < |ls| ==> ls[i].tleap > now
    ensures LatestIn(ls, now).Some? ==>
      exists i :: 0 <= i < |ls| && ls[i] == LatestIn(ls, now).value && ls[i].tleap <= now
        && forall j :: i < j < |ls| ==> ls[j].tleap > now
  {
    LatestInNone(ls, now);
    if LatestIn(ls, now).Some? {
      var i := LatestInIndex(ls, now);
    }
  }

  /** Records ascending by time, as a table is stored. */
  predicate Ascending(ls: seq<LeapSecond>) {
    forall i, j :: 0 <= i < j < |ls| ==> ls[i].tleap <= ls[j].tleap
  }

  /** In an ascending table the last past record is the greatest past one. */
  lemma LatestIsGreatest(ls: seq<LeapSecond>, now: int)
    requires Ascending(ls)
    ensures LatestIn(ls, now).Some? ==>
      forall k :: 0 <= k < |ls| && ls[k].tleap <= now ==> ls[k].tleap <= LatestIn(ls, now).value.tleap
  {
    LatestInIsLast(ls, now);
  }

  /** Scans the table front to back, remembering the last past record. */
  method FindLatest(ls: seq<LeapSecond>, now: int) returns (r: Option<LeapSecond>)
    ensures r == LatestIn(ls, now)
  {
    r := None;
    for i := 0 to |ls|
      invariant r == LatestIn(ls[..i], now)
    {
      assert ls[..i + 1][..i] == ls[..i];
      if ls[i].tleap <= now {
        r := Some(ls[i]);
      }
    }
    assert ls[..|ls|] == ls;
  }

  /** What a query for the latest leap second answers: the parse error, or
      the last past record, or an error when every record is in the future. */
  function LatestOf(data: seq<Byte>, now: int): (r: Result<LeapSecond, TzError>)
    ensures r.Success? ==> Parse(data).err.None? && r.value in Parse(data).leaps && r.value.tleap <= now
    ensures r.Failure? && r.error == NoPastLeapSecond ==>
      Parse(data).err.None? && forall l :: l in Parse(data).leaps ==> l.tleap > now
  {
    var p := Parse(data);
    if p.err.Some? then Failure(p.err.value)
    else match LatestIn(p.leaps, now)
      case None => LatestInIsLast(p.leaps, now); Failure(NoPastLeapSecond)
      case Some(l) => Success(l)
  }

  /** Parses the file's contents and picks the leap second in effect at
      `now` (Unix seconds). */
  method Latest(data: seq<Byte>, now: int) returns (res: Result<LeapSecond, TzError>)
    ensures res == LatestOf(data, now)
  {
    var r := new Reader(data);
    var ls, err := ParseVx(r);
    if err.Some? {
      return Failure(err.value);
    }
    var l := FindLatest(ls, now);
    if l.None? {
      return Failure(NoPastLeapSecond);
    }
    return Success(l.value);
  }

  /** A table that was written answers the query from its own records. */
  lemma LatestOfWritten(ls: seq<LeapSecond>, name: seq<Byte>, now: int)
    requires |ls| < 0x1_0000_0000 && |name| + 1 < 0x1_0000_0000
    ensures ls == [] ==> LatestOf(Encoding(ls, name), now) == Failure(NoLeapSeconds)
    ensures ls != [] && LatestIn(ls, now).Some? ==>
      LatestOf(Encoding(ls, name), now) == Success(LatestIn(ls, now).value)
    ensures ls != [] && LatestIn(ls, now).None? ==>
      LatestOf(Encoding(ls, name), now) == Failure(NoPastLeapSecond)
  {
    WriteParseRoundTrip(ls, name);
  }
}
