/** Concrete packets, byte strings and timestamps that pin the NTP codec
    and clock arithmetic down exactly. */
module NtpVectors {
  import opened BigEndian
  import opened Wrappers
  import opened NtpPacket
  import opened NtpClock

  /** A client request as sent by ntpdate. */
  const Request := Packet(227, 0, 3, -6, 65536, 65536, 0, 0, 0, 0, 0, 0, 0, 3794210679, 2718216404)

  /** The request on the wire, one field (or 32-bit word) per group. */
  const RequestBytes: seq<Byte> :=
    [227, 0, 3, 250] + [0, 1, 0, 0] + [0, 1, 0, 0] + [0, 0, 0, 0]
    + [0, 0, 0, 0] + [0, 0, 0, 0] + [0, 0, 0, 0] + [0, 0, 0, 0] + [0, 0, 0, 0] + [0, 0, 0, 0]
    + [226, 39, 15, 119] + [162, 4, 176, 212]

  /** A stratum-1 server's answer to it. */
  const Response := Packet(36, 1, 3, -32, 0, 10, 1178738720, 3794209800, 0,
    3794210679, 2718216404, 3794210679, 2718375472, 3794210679, 2719753478)

  const ResponseBytes: seq<Byte> :=
    [36, 1, 3, 224] + [0, 0, 0, 0] + [0, 0, 0, 10] + [70, 66, 32, 32]
    + [226, 39, 12, 8] + [0, 0, 0, 0] + [226, 39, 15, 119] + [162, 4, 176, 212]
    + [226, 39, 15, 119] + [162, 7, 30, 48] + [226, 39, 15, 119] + [162, 28, 37, 6]

  /** Precision -6 goes out as byte 250, and a root delay of one second in
      16.16 fixed point as 0, 1, 0, 0. */
  lemma RequestEncoding()
    ensures Bytes(Request) == RequestBytes
    ensures |RequestBytes| == PacketSizeBytes
    ensures RequestBytes[3] == 250 && RequestBytes[4..8] == [0, 1, 0, 0]
  {
    assert EncodeU32(65536) == [0, 1, 0, 0];
    assert EncodeU32(0) == [0, 0, 0, 0];
    assert EncodeU32(3794210679) == [226, 39, 15, 119];
    assert EncodeU32(2718216404) == [162, 4, 176, 212];
  }

  lemma ResponseEncoding()
    ensures Bytes(Response) == ResponseBytes
    ensures |ResponseBytes| == PacketSizeBytes
  {
    assert EncodeU32(0) == [0, 0, 0, 0];
    assert EncodeU32(10) == [0, 0, 0, 10];
    assert EncodeU32(1178738720) == [70, 66, 32, 32];
    assert EncodeU32(3794209800) == [226, 39, 12, 8];
    assert EncodeU32(3794210679) == [226, 39, 15, 119];
    assert EncodeU32(2718216404) == [162, 4, 176, 212];
    assert EncodeU32(2718375472) == [162, 7, 30, 48];
    assert EncodeU32(2719753478) == [162, 28, 37, 6];
  }

  lemma ResponseDecoding()
    ensures BytesToPacket(ResponseBytes) == Decoded(Response, None)
  {
    ResponseEncoding();
    DecodeEncode(Response);
  }

  /** An empty buffer is an error and leaves the zero packet. */
  lemma EmptyDecoding()
    ensures BytesToPacket([]).err.Some?
    ensures BytesToPacket([]).packet == ZeroPacket
  {
  }

  /** The request (leap alarm, version 4, client mode) and the reply
      (version 4, server mode) are accepted; a packet whose first byte is 0
      is not. */
  lemma SettingsChecks()
    ensures ValidSettingsFormat(Request)
    ensures ValidSettingsFormat(Response)
    ensures !ValidSettingsFormat(ZeroPacket)
  {
  }

  /** 2020-03-25T14:46:39.631495778Z in both time scales. */
  const UnixSeconds: int := 1585147599
  const UnixNanos: int := 631495778
  const NtpSeconds: int := 3794136399
  const NtpFraction: int := 2712253714

  lemma TimeConversion()
    ensures Time(UnixSeconds * NanosPerSecond + UnixNanos) == (NtpSeconds, NtpFraction)
  {
  }

  /** The scaled remainder 631495778 * 2^32 / 10^9 is 2712253714.07: its
      fraction is below one half, so rounding down and rounding to nearest
      give the same value and the vector does not tell the two apart. */
  lemma TimeVectorRounding()
    ensures (UnixNanos * FracPerSecond) / NanosPerSecond == NtpFraction
    ensures 2 * ((UnixNanos * FracPerSecond) % NanosPerSecond) < NanosPerSecond
  {
  }

  /** The way back yields the same second and one nanosecond less. */
  lemma UnixConversion()
    ensures Unix(NtpSeconds, NtpFraction) / NanosPerSecond == UnixSeconds
    ensures Unix(NtpSeconds, NtpFraction) % NanosPerSecond + 1 == UnixNanos
  {
  }

  const Millisecond: int := 1_000_000
  const Microsecond: int := 1_000

  /** Forward 10 ms, server 10 us, back 20 ms: 30 ms of delay, also when the
      client's clock reads 50 ms ahead of or behind the server's. */
  lemma RoundTripDelayVectors(origin: int)
    ensures var e := Observe(origin, 0, 10 * Millisecond, 10 * Microsecond, 20 * Millisecond);
      && RoundTripDelay(e.t1, e.t2, e.t3, e.t4) == 30 * Millisecond
      && RoundTripDelay(e.t1 + 50 * Millisecond, e.t2, e.t3, e.t4 + 50 * Millisecond) == 30 * Millisecond
      && RoundTripDelay(e.t1 - 50 * Millisecond, e.t2, e.t3, e.t4 - 50 * Millisecond) == 30 * Millisecond
  {
  }

  /** A symmetric 25 ms path gives no offset; 10 ms forward and 20 ms back
      gives -5 ms. */
  lemma OffsetVectors(origin: int)
    ensures var e := Observe(origin, 0, 25 * Millisecond, 10 * Microsecond, 25 * Millisecond);
      Offset(e.t1, e.t2, e.t3, e.t4) == 0
    ensures var e := Observe(origin, 0, 10 * Millisecond, 10 * Microsecond, 20 * Millisecond);
      Offset(e.t1, e.t2, e.t3, e.t4) == -5 * Millisecond
  {
  }

  lemma CorrectTimeVector(t: int)
    ensures CorrectTime(t, -5 * Millisecond) == t - 5 * Millisecond
  {
  }
}
