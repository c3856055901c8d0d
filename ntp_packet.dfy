/** The 48-byte NTP packet (section 7.3 of RFC 5905): the in-memory record,
    its big-endian wire encoding and decoding, and the check a server applies
    to the packed first byte of a request. */
module NtpPacket {
  import opened BigEndian
  import opened Wrappers

  /** Size of every NTP packet on the wire. */
  const PacketSizeBytes: nat := 48

  /** Field order is wire order. Precision is a signed power of two; the
      root delay and dispersion are 16.16 fixed point; each timestamp is a
      (seconds since 1900, 2^-32 fractions of a second) pair. */
  datatype Packet = Packet(
    settings: Byte,
    stratum: Byte,
    poll: Byte,
    precision: I8,
    rootDelay: U32,
    rootDispersion: U32,
    referenceId: U32,
    refTimeSec: U32,
    refTimeFrac: U32,
    origTimeSec: U32,
    origTimeFrac: U32,
    rxTimeSec: U32,
    rxTimeFrac: U32,
    txTimeSec: U32,
    txTimeFrac: U32)

  /** The zero value of the record, returned alongside a decoding error. */
  const ZeroPacket := Packet(0, 0, 0, 0, 0, 0, 0, 0, 0, 0, 0, 0, 0, 0, 0)

  datatype DecodeError = NotEnoughData

  /** What decoding hands back: always a packet, and an error when the
      packet is not to be trusted. */
  datatype Decoded = Decoded(packet: Packet, err: Option<DecodeError>)

  // ---------------------------------------------------------------------
  // The packed first byte: leap indicator (bits 7-6), version (5-3), mode (2-0)

  const VnFirst: nat := 1
  const VnLast: nat := 4

  function LeapIndicator(settings: Byte): (li: nat)
    ensures li < 4
  {
    settings / 64
  }

  function VersionNumber(settings: Byte): (vn: nat)
    ensures vn < 8
  {
    settings / 8 % 8
  }

  function Mode(settings: Byte): (mode: nat)
    ensures mode < 8
  {
    settings % 8
  }

  function PackSettings(li: nat, vn: nat, mode: nat): (settings: Byte)
    requires li < 4 && vn < 8 && mode < 8
    ensures LeapIndicator(settings) == li
    ensures VersionNumber(settings) == vn
    ensures Mode(settings) == mode
  {
    var low := vn * 8 + mode;
    assert 0 <= low < 64 && low / 8 == vn && low % 8 == mode;
    var settings := li * 64 + low;
    assert settings / 64 == li && settings % 64 == low;
    assert settings / 8 == li * 8 + vn && settings % 8 == mode;
    settings
  }

  /** Every byte is some combination of the three subfields. */
  lemma UnpackPack(settings: Byte)
    ensures PackSettings(LeapIndicator(settings), VersionNumber(settings), Mode(settings)) == settings
  {
    var low := settings % 64;
    assert settings == 64 * LeapIndicator(settings) + low;
    assert settings / 8 == 8 * LeapIndicator(settings) + low / 8;
    assert VersionNumber(settings) == low / 8;
    assert Mode(settings) == low % 8;
    assert low == 8 * (low / 8) + low % 8;
  }

  /** The first byte is well formed when its version subfield names one of
      the protocol versions 1 to 4; a zero (unset) version is refused. */
  predicate ValidSettingsFormat(p: Packet)
  {
    VnFirst <= VersionNumber(p.settings) <= VnLast
  }

  /** Exactly the bytes packed from an accepted version, with any leap
      indicator and any mode, are accepted. */
  lemma ValidSettingsFormatIff(p: Packet)
    ensures ValidSettingsFormat(p) <==>
      exists li: nat, vn: nat, mode: nat | li < 4 && vn < 8 && mode < 8 ::
        1 <= vn <= 4 && p.settings == PackSettings(li, vn, mode)
  {
    if ValidSettingsFormat(p) {
      UnpackPack(p.settings);
      var li, vn, mode := LeapIndicator(p.settings), VersionNumber(p.settings), Mode(p.settings);
      assert p.settings == PackSettings(li, vn, mode);
    }
  }

  // ---------------------------------------------------------------------
  // Wire codec

  /** Serialises every field big-endian in declaration order. */
  function Bytes(p: Packet): (b: seq<Byte>)
    ensures |b| == PacketSizeBytes
    ensures b[0] == p.settings && b[1] == p.stratum && b[2] == p.poll
    ensures I8OfByte(b[3]) == p.precision
  {
    [p.settings, p.stratum, p.poll, ByteOfI8(p.precision)]
    + EncodeU32(p.rootDelay) + EncodeU32(p.rootDispersion) + EncodeU32(p.referenceId)
    + EncodeU32(p.refTimeSec) + EncodeU32(p.refTimeFrac)
    + EncodeU32(p.origTimeSec) + EncodeU32(p.origTimeFrac)
    + EncodeU32(p.rxTimeSec) + EncodeU32(p.rxTimeFrac)
    + EncodeU32(p.txTimeSec) + EncodeU32(p.txTimeFrac)
  }

  /** The big-endian 32-bit word at offset `i`. */
  function WordAt(b: seq<Byte>, i: nat): U32
    requires i + 4 <= |b|
  {
    DecodeU32(b[i..i + 4])
  }

  /** Reads the first 48 bytes; a shorter buffer is an error and yields the
      zero packet. Bytes past the 48th are never looked at. */
  function BytesToPacket(b: seq<Byte>): (r: Decoded)
    ensures r.err.Some? <==> |b| < PacketSizeBytes
    ensures r.err.Some? ==> r.packet == ZeroPacket
  {
    if |b| < PacketSizeBytes then
      Decoded(ZeroPacket, Some(NotEnoughData))
    else
      Decoded(Packet(
        b[0], b[1], b[2], I8OfByte(b[3]),
        WordAt(b, 4), WordAt(b, 8), WordAt(b, 12),
        WordAt(b, 16), WordAt(b, 20),
        WordAt(b, 24), WordAt(b, 28),
        WordAt(b, 32), WordAt(b, 36),
        WordAt(b, 40), WordAt(b, 44)), None)
  }

  /** Where each 32-bit field sits in the encoding. */
  lemma BytesWords(p: Packet)
    ensures var b := Bytes(p);
      && b[4..8] == EncodeU32(p.rootDelay) && b[8..12] == EncodeU32(p.rootDispersion)
      && b[12..16] == EncodeU32(p.referenceId)
      && b[16..20] == EncodeU32(p.refTimeSec) && b[20..24] == EncodeU32(p.refTimeFrac)
      && b[24..28] == EncodeU32(p.origTimeSec) && b[28..32] == EncodeU32(p.origTimeFrac)
      && b[32..36] == EncodeU32(p.rxTimeSec) && b[36..40] == EncodeU32(p.rxTimeFrac)
      && b[40..44] == EncodeU32(p.txTimeSec) && b[44..48] == EncodeU32(p.txTimeFrac)
  {
  }

  /** Decoding an encoded packet gives the packet back. */
  lemma DecodeEncode(p: Packet)
    ensures BytesToPacket(Bytes(p)) == Decoded(p, None)
  {
    BytesWords(p);
    DecodeEncodeU32(p.rootDelay); DecodeEncodeU32(p.rootDispersion); DecodeEncodeU32(p.referenceId);
    DecodeEncodeU32(p.refTimeSec); DecodeEncodeU32(p.refTimeFrac);
    DecodeEncodeU32(p.origTimeSec); DecodeEncodeU32(p.origTimeFrac);
    DecodeEncodeU32(p.rxTimeSec); DecodeEncodeU32(p.rxTimeFrac);
    DecodeEncodeU32(p.txTimeSec); DecodeEncodeU32(p.txTimeFrac);
  }

  /** Bytes past the 48th never influence the decoded packet. */
  lemma DecodeReadsPrefixOnly(b: seq<Byte>)
    requires |b| >= PacketSizeBytes
    ensures BytesToPacket(b) == BytesToPacket(b[..PacketSizeBytes])
  {
    var c := b[..PacketSizeBytes];
    WordAtPrefix(b, c, 4); WordAtPrefix(b, c, 8); WordAtPrefix(b, c, 12);
    WordAtPrefix(b, c, 16); WordAtPrefix(b, c, 20); WordAtPrefix(b, c, 24);
    WordAtPrefix(b, c, 28); WordAtPrefix(b, c, 32); WordAtPrefix(b, c, 36);
    WordAtPrefix(b, c, 40); WordAtPrefix(b, c, 44);
  }

  lemma WordAtPrefix(b: seq<Byte>, c: seq<Byte>, i: nat)
    requires i + 4 <= |c| <= |b| && c == b[..|c|]
    ensures WordAt(b, i) == WordAt(c, i)
  {
    assert b[i..i + 4] == c[i..i + 4];
  }

  lemma SliceConcat(b: seq<Byte>, i: nat, j: nat, k: nat)
    requires i <= j <= k <= |b|
    ensures b[i..j] + b[j..k] == b[i..k]
  {
  }

  /** Whenever decoding succeeds, re-encoding reproduces exactly the bytes
      that were consumed. */
  lemma EncodeDecode(b: seq<Byte>)
    requires |b| >= PacketSizeBytes
    ensures BytesToPacket(b).err.None?
    ensures Bytes(BytesToPacket(b).packet) == b[..PacketSizeBytes]
  {
    var p := BytesToPacket(b).packet;
    forall i | 0 <= i <= 44 && i % 4 == 0 ensures EncodeU32(WordAt(b, i)) == b[i..i + 4] {
      EncodeDecodeU32(b[i..i + 4]);
    }
    assert [b[0], b[1], b[2], ByteOfI8(I8OfByte(b[3]))] == b[0..4];
    var w := b[..PacketSizeBytes];
    calc {
      Bytes(p);
      b[0..4] + b[4..8] + b[8..12] + b[12..16] + b[16..20] + b[20..24] + b[24..28]
        + b[28..32] + b[32..36] + b[36..40] + b[40..44] + b[44..48];
      { SliceConcat(b, 0, 4, 8); SliceConcat(b, 0, 8, 12); SliceConcat(b, 0, 12, 16);
        SliceConcat(b, 0, 16, 20); SliceConcat(b, 0, 20, 24); SliceConcat(b, 0, 24, 28);
        SliceConcat(b, 0, 28, 32); SliceConcat(b, 0, 32, 36); SliceConcat(b, 0, 36, 40);
        SliceConcat(b, 0, 40, 44); SliceConcat(b, 0, 44, 48); }
      b[0..48];
    }
  }
}
