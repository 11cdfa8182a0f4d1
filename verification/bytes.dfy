/** Byte-level vocabulary shared by the reader, the writer and the codec: the unsigned
    widths of the wire format, big-endian packing of 16-bit values (what the `byteorder`
    crate's `BigEndian` does) and the ASCII tests of Rust's byte slices. */
module Bytes {
  type u8 = x: int | 0 <= x < 0x100
  type u16 = x: int | 0 <= x < 0x1_0000

  /** The 16-bit value stored big-endian as the two bytes `hi`, `lo`. */
  function FromBigEndian(hi: u8, lo: u8): (v: u16)
    ensures v / 0x100 == hi && v % 0x100 == lo
  {
    hi * 0x100 + lo
  }

  /** The two bytes that store `v` big-endian: `v >> 8`, then `v & 0xff`. */
  function ToBigEndian(v: u16): (b: seq<u8>)
    ensures |b| == 2 && FromBigEndian(b[0], b[1]) == v
  {
    [v / 0x100, v % 0x100]
  }

  /** Packing two bytes and unpacking them again gives the same two bytes. */
  lemma ToFromBigEndian(hi: u8, lo: u8)
    ensures ToBigEndian(FromBigEndian(hi, lo)) == [hi, lo]
  {
  }

  /** Every byte is 7-bit ASCII (`is_ascii`). */
  predicate IsAscii(s: seq<u8>) {
    forall i :: 0 <= i < |s| ==> s[i] < 0x80
  }

  /** `to_ascii_lowercase` on one byte: 'A'..'Z' map to 'a'..'z', every other byte to itself. */
  function AsciiLower(b: u8): u8 {
    if 0x41 <= b <= 0x5A then b + 0x20 else b
  }

  /** `eq_ignore_ascii_case` on byte slices. */
  predicate EqIgnoreAsciiCase(a: seq<u8>, b: seq<u8>) {
    |a| == |b| && forall i :: 0 <= i < |a| ==> AsciiLower(a[i]) == AsciiLower(b[i])
  }
}
