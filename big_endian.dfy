/** Fixed-width integers and their big-endian (network order) byte encodings,
    shared by the NTP packet codec and the TZif leap-second codec. */
module BigEndian {

  type Byte = x: int | 0 <= x < 0x100
  type U32 = x: int | 0 <= x < 0x1_0000_0000
  type U64 = x: int | 0 <= x < 0x1_0000_0000_0000_0000
  type I8 = x: int | -0x80 <= x < 0x80
  type I32 = x: int | -0x8000_0000 <= x < 0x8000_0000

  /** The sequence of `n` zero bytes. */
  function Zeros(n: nat): (r: seq<Byte>)
    ensures |r| == n
    ensures forall i :: 0 <= i < n ==> r[i] == 0
  {
    seq(n, _ => 0)
  }

  /** Two's complement reinterpretation of a signed byte as an unsigned one. */
  function ByteOfI8(x: I8): (b: Byte)
    ensures x >= 0 ==> b == x
    ensures x < 0 ==> b == x + 0x100
  {
    if x < 0 then x + 0x100 else x
  }

  function I8OfByte(b: Byte): (x: I8)
    ensures ByteOfI8(x) == b
  {
    if b >= 0x80 then b - 0x100 else b
  }

  lemma I8RoundTrip(x: I8)
    ensures I8OfByte(ByteOfI8(x)) == x
  {
  }

  /** Most significant byte first. */
  function EncodeU32(x: U32): (r: seq<Byte>)
    ensures |r| == 4
  {
    [x / 0x100 / 0x100 / 0x100, x / 0x100 / 0x100 % 0x100, x / 0x100 % 0x100, x % 0x100]
  }

  function DecodeU32(b: seq<Byte>): (x: U32)
    requires |b| == 4
    ensures x / 0x100 / 0x100 / 0x100 == b[0] && x % 0x100 == b[3]
  {
    ((b[0] as int * 0x100 + b[1]) * 0x100 + b[2]) * 0x100 + b[3]
  }

  lemma DecodeEncodeU32(x: U32)
    ensures DecodeU32(EncodeU32(x)) == x
  {
    var q1 := x / 0x100;
    var q2 := q1 / 0x100;
    assert x == q1 * 0x100 + x % 0x100;
    assert q1 == q2 * 0x100 + q1 % 0x100;
    assert q2 == q2 / 0x100 * 0x100 + q2 % 0x100;
  }

  lemma EncodeDecodeU32(b: seq<Byte>)
    requires |b| == 4
    ensures EncodeU32(DecodeU32(b)) == b
  {
    var x := DecodeU32(b);
    var q2 := b[0] as int * 0x100 + b[1];
    var q1 := q2 * 0x100 + b[2];
    assert x / 0x100 == q1 && x % 0x100 == b[3];
    assert q1 / 0x100 == q2 && q1 % 0x100 == b[2];
    assert q2 / 0x100 == b[0] && q2 % 0x100 == b[1];
  }

  /** The upper half goes first on the wire. */
  function EncodeU64(x: U64): (r: seq<Byte>)
    ensures |r| == 8
  {
    EncodeU32(x / 0x1_0000_0000) + EncodeU32(x % 0x1_0000_0000)
  }

  function DecodeU64(b: seq<Byte>): (x: U64)
    requires |b| == 8
    ensures x / 0x1_0000_0000 == DecodeU32(b[..4])
    ensures x % 0x1_0000_0000 == DecodeU32(b[4..])
  {
    (DecodeU32(b[..4]) as int) * 0x1_0000_0000 + DecodeU32(b[4..])
  }

  lemma DecodeEncodeU64(x: U64)
    ensures DecodeU64(EncodeU64(x)) == x
  {
    var b := EncodeU64(x);
    assert b[..4] == EncodeU32(x / 0x1_0000_0000);
    assert b[4..] == EncodeU32(x % 0x1_0000_0000);
    DecodeEncodeU32(x / 0x1_0000_0000);
    DecodeEncodeU32(x % 0x1_0000_0000);
  }

  lemma EncodeDecodeU64(b: seq<Byte>)
    requires |b| == 8
    ensures EncodeU64(DecodeU64(b)) == b
  {
    EncodeDecodeU32(b[..4]);
    EncodeDecodeU32(b[4..]);
    assert b == b[..4] + b[4..];
  }

  /** A signed 32-bit value goes on the wire as its two's complement. */
  function EncodeI32(x: I32): (r: seq<Byte>)
    ensures |r| == 4
  {
    EncodeU32(if x < 0 then x + 0x1_0000_0000 else x)
  }

  function DecodeI32(b: seq<Byte>): (x: I32)
    requires |b| == 4
    ensures x < 0 <==> b[0] >= 0x80
  {
    var u := DecodeU32(b);
    if u >= 0x8000_0000 then u - 0x1_0000_0000 else u
  }

  lemma DecodeEncodeI32(x: I32)
    ensures DecodeI32(EncodeI32(x)) == x
  {
    DecodeEncodeU32(if x < 0 then x + 0x1_0000_0000 else x);
  }

  lemma EncodeDecodeI32(b: seq<Byte>)
    requires |b| == 4
    ensures EncodeI32(DecodeI32(b)) == b
  {
    EncodeDecodeU32(b);
  }
}
