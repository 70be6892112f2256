/** Byte-level building blocks of the model's biserial record layout.

    A biserial record is written to two streams: a fixed-length stream for
    fixed-width members and a variable-length stream for members whose size
    varies. The byte layout used here (little-endian 32-bit words, base-128
    length prefixes) is the model's own: the codec bodies of the repository are
    not part of this model, only the round-trip law they must satisfy. */
module Biserial {
  import opened NCodes

  type byte = x: int | 0 <= x < 256
  type uint32 = x: int | 0 <= x < 0x1_0000_0000

  /** A 32-bit word as four little-endian bytes. */
  function EncodeUint32(x: uint32): (b: seq<byte>)
    ensures |b| == 4
  {
    var q1 := x / 256;
    var q2 := q1 / 256;
    [x % 256, q1 % 256, q2 % 256, q2 / 256]
  }

  /** The 32-bit word held in the first four bytes of b. */
  function DecodeUint32(b: seq<byte>): uint32
    requires |b| >= 4
  {
    (b[0] as int) + 256 * ((b[1] as int) + 256 * ((b[2] as int) + 256 * (b[3] as int)))
  }

  lemma {:induction false} Uint32RoundTrip(x: uint32, rest: seq<byte>)
    ensures DecodeUint32(EncodeUint32(x) + rest) == x
  {
    var b := EncodeUint32(x) + rest;
    var q1 := x / 256;
    var q2 := q1 / 256;
    assert x == b[0] + 256 * q1;
    assert q1 == b[1] + 256 * q2;
    assert q2 == b[2] + 256 * b[3];
  }

  /** A length as a base-128 prefix: seven bits per byte, high bit set on
      every byte but the last. */
  function EncodeLength(n: nat): (b: seq<byte>)
    ensures |b| >= 1
    decreases n
  {
    if n < 128 then [n] else [128 + n % 128] + EncodeLength(n / 128)
  }

  /** The length at the head of b and the number of bytes it took, or None
      when b ends inside the prefix. */
  function DecodeLength(b: seq<byte>): (r: Option<(nat, nat)>)
    ensures r.Some? ==> 1 <= r.value.1 <= |b|
  {
    if |b| == 0 then None
    else if b[0] < 128 then Some((b[0], 1))
    else match DecodeLength(b[1..])
      case None => None
      case Some((v, k)) => Some((b[0] - 128 + 128 * v, k + 1))
  }

  lemma {:induction false} LengthRoundTrip(n: nat, rest: seq<byte>)
    ensures DecodeLength(EncodeLength(n) + rest) == Some((n, |EncodeLength(n)|))
    decreases n
  {
    var b := EncodeLength(n) + rest;
    if n >= 128 {
      assert b[1..] == EncodeLength(n / 128) + rest;
      LengthRoundTrip(n / 128, rest);
    }
  }
}
