/** Bytes and the big-endian integer fields of the TRAX2 wire format. */
module Bytes {

  newtype byte = x: int | 0 <= x < 256

  /** The unsigned 16-bit value of two bytes, most significant first
      (the byte order `DataView.getUint16` uses by default). */
  function U16(hi: byte, lo: byte): (v: nat)
    ensures v < 0x1_0000
  {
    hi as nat * 256 + lo as nat
  }

  /** The unsigned 32-bit value of four bytes, most significant first. */
  function U32(b: seq<byte>): (v: nat)
    requires |b| == 4
    ensures v < 0x1_0000_0000
  {
    ((b[0] as nat * 256 + b[1] as nat) * 256 + b[2] as nat) * 256 + b[3] as nat
  }

  /** The two bytes of a 16-bit value, most significant first: the inverse of `U16`. */
  function U16Bytes(v: nat): (b: seq<byte>)
    requires v < 0x1_0000
    ensures |b| == 2
  {
    [(v / 256) as byte, (v % 256) as byte]
  }

  /** The four bytes of a 32-bit value, most significant first: the inverse of `U32`. */
  function U32Bytes(v: nat): (b: seq<byte>)
    requires v < 0x1_0000_0000
    ensures |b| == 4
  {
    var hi := v / 0x1_0000;
    var lo := v % 0x1_0000;
    U16Bytes(hi) + U16Bytes(lo)
  }

  /** `U16` reads back the value `U16Bytes` writes. Stated apart from
      `U16Bytes` so that the read-back is only considered where it is asked for. */
  lemma {:induction false} U16RoundTrip(v: nat)
    requires v < 0x1_0000
    ensures U16(U16Bytes(v)[0], U16Bytes(v)[1]) == v
  {
  }

  /** `U32` reads back the value `U32Bytes` writes. */
  lemma {:induction false} U32RoundTrip(v: nat)
    requires v < 0x1_0000_0000
    ensures U32(U32Bytes(v)) == v
  {
    var b := U32Bytes(v);
    U16RoundTrip(v / 0x1_0000);
    U16RoundTrip(v % 0x1_0000);
    assert U16(b[0], b[1]) == v / 0x1_0000 && U16(b[2], b[3]) == v % 0x1_0000;
  }

  /** A base-256 digit and what lies above it are determined by the value. */
  lemma {:induction false} DigitSplit(q: nat, r: nat, q': nat, r': nat)
    requires r < 256 && r' < 256 && q * 256 + r == q' * 256 + r'
    ensures q == q' && r == r'
  {
  }

  /** Two bytes are determined by their 16-bit value, so `U16Bytes` is the
      only way to write a value in two bytes. */
  lemma {:induction false} U16Injective(a: seq<byte>, b: seq<byte>)
    requires |a| == 2 && |b| == 2 && U16(a[0], a[1]) == U16(b[0], b[1])
    ensures a == b
  {
    DigitSplit(a[0] as nat, a[1] as nat, b[0] as nat, b[1] as nat);
  }

  /** Four bytes are determined by their 32-bit value, so `U32Bytes` is the
      only way to write a value in four bytes. */
  lemma {:induction false} U32Injective(a: seq<byte>, b: seq<byte>)
    requires |a| == 4 && |b| == 4 && U32(a) == U32(b)
    ensures a == b
  {
    var ya := (a[0] as nat * 256 + a[1] as nat) * 256 + a[2] as nat;
    var yb := (b[0] as nat * 256 + b[1] as nat) * 256 + b[2] as nat;
    DigitSplit(ya, a[3] as nat, yb, b[3] as nat);
    DigitSplit(a[0] as nat * 256 + a[1] as nat, a[2] as nat, b[0] as nat * 256 + b[1] as nat, b[2] as nat);
    DigitSplit(a[0] as nat, a[1] as nat, b[0] as nat, b[1] as nat);
  }
}
