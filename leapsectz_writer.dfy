/** Writing a leap-second table: an append-only output buffer and the
    writer that fills it with a version '2' file, proved to emit exactly
    the bytes that LeapSecTz.Encoding describes. */
module LeapSecTzWriter {
  import opened BigEndian
  import opened Wrappers
  import opened LeapSecTz

  /** An output buffer that only grows. */
  class Buffer {
    var bytes: seq<Byte>

    constructor ()
      ensures bytes == []
    {
      bytes := [];
    }

    method Write(chunk: seq<Byte>)
      modifies this
      ensures bytes == old(bytes) + chunk
    {
      bytes := bytes + chunk;
    }
  }

  /** The local time type (six zero bytes), then the designation characters. */
  method WritePreData(b: Buffer, chars: seq<Byte>)
    modifies b
    ensures b.bytes == old(b.bytes) + PreData(chars)
  {
    b.Write(Zeros(6));
    b.Write(chars);
    assert old(b.bytes) + Zeros(6) + chars == old(b.bytes) + PreData(chars);
  }

  /** The standard/wall and UT/local indicators. */
  method WritePostData(b: Buffer)
    modifies b
    ensures b.bytes == old(b.bytes) + PostData()
  {
    b.Write(Zeros(2));
  }

  /** The leap records, one at a time. */
  method WriteLeaps(b: Buffer, ls: seq<LeapSecond>, wide: bool)
    modifies b
    ensures b.bytes == old(b.bytes) + EncodeLeaps(ls, wide)
  {
    for i := 0 to |ls|
      invariant b.bytes == old(b.bytes) + EncodeLeaps(ls[..i], wide)
    {
      EncodeLeapsSnoc(ls[..i], ls[i], wide);
      assert ls[..i + 1] == ls[..i] + [ls[i]];
      Assoc(old(b.bytes), EncodeLeaps(ls[..i], wide), EncodeLeap(ls[i], wide));
      b.Write(EncodeLeap(ls[i], wide));
    }
    assert ls[..|ls|] == ls;
  }

  /** One block: header, local time type and characters, records,
      indicators. */
  method WriteBlock(b: Buffer, version: Byte, ls: seq<LeapSecond>, chars: seq<Byte>, wide: bool)
    modifies b
    ensures b.bytes == old(b.bytes) + EncodeBlock(version, ls, chars, wide)
  {
    ghost var o, hdr, pre, leaps, post :=
      b.bytes, PrepareHeader(version, |ls|, chars), PreData(chars), EncodeLeaps(ls, wide), PostData();
    b.Write(PrepareHeader(version, |ls|, chars));
    WritePreData(b, chars);
    WriteLeaps(b, ls, wide);
    WritePostData(b);
    Assoc(o, hdr, pre);
    Assoc(o, hdr + pre, leaps);
    Assoc(o, hdr + pre + leaps, post);
  }

  /** Writes a table under zone name `name`. Only version '2' can be
      written: the block with 32-bit times, the block with 64-bit times,
      then the footer. Any other version is refused and nothing is written. */
  method Write(b: Buffer, version: Byte, ls: seq<LeapSecond>, name: seq<Byte>) returns (err: Option<TzError>)
    modifies b
    ensures err.Some? <==> version != Version2
    ensures err.Some? ==> err.value == UnsupportedVersion && b.bytes == old(b.bytes)
    ensures err.None? ==> b.bytes == old(b.bytes) + Encoding(ls, name)
  {
    if version != Version2 {
      return Some(UnsupportedVersion);
    }
    var chars := Designation(name);
    ghost var o, narrow, wide := b.bytes, EncodeBlock(version, ls, chars, false), EncodeBlock(version, ls, chars, true);
    WriteBlock(b, version, ls, chars, false);
    WriteBlock(b, version, ls, chars, true);
    b.Write(Footer(name));
    Assoc(o, narrow, wide);
    Assoc(o, narrow + wide, Footer(name));
    return None;
  }
}
