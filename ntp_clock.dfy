/** Conversion between Unix instants and NTP 32.32 timestamps, and the
    on-wire clock arithmetic of section 8 of RFC 5905. Instants are integer
    nanoseconds since the Unix epoch (1970-01-01T00:00:00Z). */
module NtpClock {

  const NanosPerSecond: int := 1_000_000_000
  /** One second in NTP fraction units. */
  const FracPerSecond: int := 0x1_0000_0000
  /** Seconds from the NTP epoch (1900-01-01) to the Unix epoch. */
  const NtpEpochOffsetSeconds: int := 2_208_988_800
  const NtpEpochOffsetNanos: int := NtpEpochOffsetSeconds * NanosPerSecond

  /** Integer division rounding toward zero, as Go's `/`
      on signed integers does (Dafny's own `/` is Euclidean). */
  function Quot(a: int, d: int): (q: int)
    requires d > 0
    ensures a >= 0 ==> 0 <= a - d * q < d
    ensures a < 0 ==> -d < a - d * q <= 0
  {
    if a >= 0 then a / d else -((-a) / d)
  }

  /** Truncation to an unsigned 32-bit value (keeps the low 32 bits). */
  function Wrap32(x: int): (r: int)
    ensures 0 <= r < 0x1_0000_0000
    ensures (x - r) % 0x1_0000_0000 == 0
  {
    x % 0x1_0000_0000
  }

  // ---------------------------------------------------------------------
  // Timestamp conversion

  /** Unix nanoseconds to NTP (seconds, fraction): shift to the NTP epoch,
      split into whole seconds and a remainder, and scale the remainder to
      2^-32 units rounding down. Seconds wrap to 32 bits (NTP eras). */
  function Time(t: int): (r: (int, int))
    ensures 0 <= r.0 < 0x1_0000_0000 && 0 <= r.1 < 0x1_0000_0000
    ensures t + NtpEpochOffsetNanos >= 0 ==>
      var n := t + NtpEpochOffsetNanos;
      && r.0 == (n / NanosPerSecond) % 0x1_0000_0000
      && r.1 * NanosPerSecond <= (n % NanosPerSecond) * FracPerSecond < (r.1 + 1) * NanosPerSecond
  {
    var n := t + NtpEpochOffsetNanos;
    var sec := Quot(n, NanosPerSecond);
    var rem := n - sec * NanosPerSecond;
    (Wrap32(sec), Wrap32(Quot(rem * FracPerSecond, NanosPerSecond)))
  }

  /** NTP (seconds, fraction) back to Unix nanoseconds; the fraction is
      scaled to nanoseconds rounding down. */
  function Unix(sec: int, frac: int): (t: int)
    requires 0 <= sec < 0x1_0000_0000 && 0 <= frac < 0x1_0000_0000
    ensures t / NanosPerSecond == sec - NtpEpochOffsetSeconds
    ensures (t % NanosPerSecond) * FracPerSecond <= frac * NanosPerSecond
    ensures frac * NanosPerSecond < (t % NanosPerSecond + 1) * FracPerSecond
  {
    var nanos := (frac * NanosPerSecond) / FracPerSecond;
    (sec - NtpEpochOffsetSeconds) * NanosPerSecond + nanos
  }

  /** Within the NTP era that starts in 1900, converting to NTP and back
      loses at most one nanosecond, and only ever downwards. */
  lemma UnixOfTime(t: int)
    requires 0 <= t + NtpEpochOffsetNanos < 0x1_0000_0000 * NanosPerSecond
    ensures t - 1 <= Unix(Time(t).0, Time(t).1) <= t
  {
    var n := t + NtpEpochOffsetNanos;
    var s, rem := n / NanosPerSecond, n % NanosPerSecond;
    assert n == s * NanosPerSecond + rem;
    assert s < 0x1_0000_0000;
    var (sec, frac) := Time(t);
    assert sec == s;
    var u := Unix(sec, frac);
    var nanos := u % NanosPerSecond;
    assert u == (s - NtpEpochOffsetSeconds) * NanosPerSecond + nanos;
    assert u - t == nanos - rem;
    // nanos * 2^32 <= frac * 10^9 <= rem * 2^32, so nanos <= rem
    assert nanos * FracPerSecond <= rem * FracPerSecond;
    // (rem - 1) * 2^32 < rem * 2^32 - 10^9 < frac * 10^9 < (nanos + 1) * 2^32
    assert (rem - 1) * FracPerSecond < (nanos + 1) * FracPerSecond;
  }

  /** Converting an NTP timestamp to Unix time and back keeps the seconds
      and loses at most five fraction units (about 1.2 ns). */
  lemma TimeOfUnix(sec: int, frac: int)
    requires 0 <= sec < 0x1_0000_0000 && 0 <= frac < 0x1_0000_0000
    ensures Time(Unix(sec, frac)).0 == sec
    ensures frac - 5 <= Time(Unix(sec, frac)).1 <= frac
  {
    var u := Unix(sec, frac);
    var nanos := u % NanosPerSecond;
    assert u == (sec - NtpEpochOffsetSeconds) * NanosPerSecond + nanos;
    var n := u + NtpEpochOffsetNanos;
    assert n == sec * NanosPerSecond + nanos;
    assert n / NanosPerSecond == sec && n % NanosPerSecond == nanos;
    var f := Time(u).1;
    // f * 10^9 <= nanos * 2^32 <= frac * 10^9, so f <= frac
    assert f * NanosPerSecond <= frac * NanosPerSecond;
    // frac * 10^9 < (nanos + 1) * 2^32 < (f + 1) * 10^9 + 2^32 < (f + 6) * 10^9
    assert frac * NanosPerSecond < (f + 6) * NanosPerSecond;
  }

  // ---------------------------------------------------------------------
  // On-wire arithmetic. T1: client transmit, T2: server receive,
  // T3: server transmit, T4: client receive.

  /** Round-trip delay (T4 - T1) - (T3 - T2). */
  function RoundTripDelay(t1: int, t2: int, t3: int, t4: int): int
  {
    (t4 - t1) - (t3 - t2)
  }

  /** Clock offset ((T2 - T1) + (T3 - T4)) / 2, truncated toward zero. */
  function Offset(t1: int, t2: int, t3: int, t4: int): int
  {
    Quot((t2 - t1) + (t3 - t4), 2)
  }

  /** The local instant moved by a signed offset. */
  function CorrectTime(t: int, offset: int): int
  {
    t + offset
  }

  /** The four timestamps of one request/response exchange in which the
      server clock runs `skew` nanoseconds ahead of the client clock, the
      request spends `forward`, the server `processing` and the reply `back`
      nanoseconds. `origin` is the client clock when the request leaves. */
  datatype Exchange = Exchange(t1: int, t2: int, t3: int, t4: int)

  function Observe(origin: int, skew: int, forward: int, processing: int, back: int): (e: Exchange)
    ensures e.t2 - e.t1 == forward + skew
    ensures e.t3 - e.t2 == processing
    ensures e.t4 - e.t3 == back - skew
  {
    Exchange(origin, origin + forward + skew, origin + forward + processing + skew,
             origin + forward + processing + back)
  }

  /** The delay is the time spent on the network, whatever the skew and
      whatever the server's processing time. */
  lemma DelayIsNetworkTime(origin: int, skew: int, forward: int, processing: int, back: int)
    ensures var e := Observe(origin, skew, forward, processing, back);
      RoundTripDelay(e.t1, e.t2, e.t3, e.t4) == forward + back
  {
  }

  /** Shifting the client's two readings by the same amount does not change
      the delay; neither does shifting the server's two readings. */
  lemma DelayIgnoresConstantShift(t1: int, t2: int, t3: int, t4: int, c: int)
    ensures RoundTripDelay(t1 + c, t2, t3, t4 + c) == RoundTripDelay(t1, t2, t3, t4)
    ensures RoundTripDelay(t1, t2 + c, t3 + c, t4) == RoundTripDelay(t1, t2, t3, t4)
  {
  }

  /** The offset estimate is the true skew plus half the asymmetry of the
      path, truncated toward zero. */
  lemma OffsetEstimate(origin: int, skew: int, forward: int, processing: int, back: int)
    ensures var e := Observe(origin, skew, forward, processing, back);
      Offset(e.t1, e.t2, e.t3, e.t4) == Quot(2 * skew + forward - back, 2)
  {
  }

  /** On a symmetric path the offset is exactly the skew, so correcting the
      client's receive time gives the server's clock at that instant. */
  lemma SymmetricPathRecoversSkew(origin: int, skew: int, delay: int, processing: int)
    ensures var e := Observe(origin, skew, delay, processing, delay);
      && Offset(e.t1, e.t2, e.t3, e.t4) == skew
      && CorrectTime(e.t4, Offset(e.t1, e.t2, e.t3, e.t4)) == e.t4 + skew
  {
    var e := Observe(origin, skew, delay, processing, delay);
    assert (e.t2 - e.t1) + (e.t3 - e.t4) == 2 * skew;
  }

  /** The error of the offset estimate is at most half the path asymmetry
      (rounded up). */
  lemma OffsetErrorBound(origin: int, skew: int, forward: int, processing: int, back: int)
    ensures var e := Observe(origin, skew, forward, processing, back);
      var err := Offset(e.t1, e.t2, e.t3, e.t4) - skew;
      -(if forward >= back then forward - back else back - forward) - 1 <= 2 * err
      && 2 * err <= (if forward >= back then forward - back else back - forward) + 1
  {
    var e := Observe(origin, skew, forward, processing, back);
    assert (e.t2 - e.t1) + (e.t3 - e.t4) == 2 * skew + forward - back;
  }
}
