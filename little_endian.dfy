/** Fixed-width integers and little-endian field access over byte buffers.
    Every record of the reader is obtained by copying bytes at a fixed offset
    into a C struct; these are the primitives that give that copy a meaning. */
module LittleEndian {

  type Uint8 = x: int | 0 <= x < 0x100
  type Uint16 = x: int | 0 <= x < 0x1_0000
  type Int16 = x: int | -0x8000 <= x < 0x8000
  type Uint32 = x: int | 0 <= x < 0x1_0000_0000

  /** A block of `n` bytes starting at `off` lies inside `s`. */
  predicate Fits(s: seq<Uint8>, off: nat, n: nat)
  {
    off + n <= |s|
  }

  function U16At(s: seq<Uint8>, off: nat): Uint16
    requires off + 2 <= |s|
  {
    s[off] as int + 0x100 * s[off + 1] as int
  }

  function U32At(s: seq<Uint8>, off: nat): Uint32
    requires off + 4 <= |s|
  {
    var b0, b1, b2, b3 := s[off] as int, s[off + 1] as int, s[off + 2] as int, s[off + 3] as int;
    b0 + 0x100 * (b1 + 0x100 * (b2 + 0x100 * b3))
  }

  /** A two's-complement 16-bit value (the `Int16` Year of a timestamp). */
  function I16At(s: seq<Uint8>, off: nat): Int16
    requires off + 2 <= |s|
  {
    var u := U16At(s, off);
    if u >= 0x8000 then u - 0x1_0000 else u
  }

  function LeU16(v: Uint16): (r: seq<Uint8>)
    ensures |r| == 2
  {
    [v % 0x100, v / 0x100]
  }

  function LeU32(v: Uint32): (r: seq<Uint8>)
    ensures |r| == 4
  {
    [v % 0x100, (v / 0x100) % 0x100, (v / 0x100 / 0x100) % 0x100, v / 0x100 / 0x100 / 0x100]
  }

  function LeI16(v: Int16): (r: seq<Uint8>)
    ensures |r| == 2
  {
    LeU16(if v < 0 then v + 0x1_0000 else v)
  }

  /** Decoding what was encoded gives the value back ... */
  lemma U16RoundTrip(v: Uint16, s: seq<Uint8>, off: nat)
    requires off + 2 <= |s| && s[off..off + 2] == LeU16(v)
    ensures U16At(s, off) == v
  {
    assert s[off] == LeU16(v)[0] && s[off + 1] == LeU16(v)[1];
  }

  /** ... and encoding what was decoded gives the bytes back. */
  lemma U16Bytes(s: seq<Uint8>, off: nat)
    requires off + 2 <= |s|
    ensures LeU16(U16At(s, off)) == s[off..off + 2]
  {
  }

  lemma U32RoundTrip(v: Uint32, s: seq<Uint8>, off: nat)
    requires off + 4 <= |s| && s[off..off + 4] == LeU32(v)
    ensures U32At(s, off) == v
  {
    var e := LeU32(v);
    assert s[off] == e[0] && s[off + 1] == e[1] && s[off + 2] == e[2] && s[off + 3] == e[3];
    var q1 := v / 0x100;
    var q2 := q1 / 0x100;
    assert v == e[0] as int + 0x100 * q1;
    assert q1 == e[1] as int + 0x100 * q2;
    assert q2 == e[2] as int + 0x100 * e[3] as int;
  }

  lemma U32Bytes(s: seq<Uint8>, off: nat)
    requires off + 4 <= |s|
    ensures LeU32(U32At(s, off)) == s[off..off + 4]
  {
    var b0, b1, b2, b3 := s[off] as int, s[off + 1] as int, s[off + 2] as int, s[off + 3] as int;
    var v := U32At(s, off);
    DigitSplit(v, b0, b1 + 0x100 * (b2 + 0x100 * b3));
    DigitSplit(v / 0x100, b1, b2 + 0x100 * b3);
    DigitSplit(v / 0x100 / 0x100, b2, b3);
  }

  /** Base-256 digit arithmetic: the lowest digit and the rest of a number. */
  lemma DigitSplit(x: int, d: int, q: int)
    requires 0 <= d < 0x100 && 0 <= q && x == d + 0x100 * q
    ensures x % 0x100 == d && x / 0x100 == q
  {
  }

  lemma I16RoundTrip(v: Int16, s: seq<Uint8>, off: nat)
    requires off + 2 <= |s| && s[off..off + 2] == LeI16(v)
    ensures I16At(s, off) == v
  {
    U16RoundTrip(if v < 0 then v + 0x1_0000 else v, s, off);
  }

  lemma I16Bytes(s: seq<Uint8>, off: nat)
    requires off + 2 <= |s|
    ensures LeI16(I16At(s, off)) == s[off..off + 2]
  {
    U16Bytes(s, off);
  }
}
