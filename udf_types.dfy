/** The fixed ECMA-167 building blocks of udf_types.h: descriptor tag,
    timestamp, extent and allocation descriptors, charspec and entity
    identifier. Each record has a decoder that reads its fields at their
    little-endian byte offsets and an encoder that lays the fields out one
    after the other; the round-trip lemmas prove that the two agree, which
    pins every offset and every record size. */
module UdfTypes {
  import opened LittleEndian

  type Bytes5 = s: seq<Uint8> | |s| == 5 witness [0, 0, 0, 0, 0]
  type Bytes6 = s: seq<Uint8> | |s| == 6 witness [0, 0, 0, 0, 0, 0]
  type Bytes8 = s: seq<Uint8> | |s| == 8 witness [0, 0, 0, 0, 0, 0, 0, 0]
  type Bytes23 = s: seq<Uint8> | |s| == 23 witness seq(23, _ => 0)
  type Bytes63 = s: seq<Uint8> | |s| == 63 witness seq(63, _ => 0)

  // On-disk sizes (ECMA-167 1/7.2.1, 1/7.3, 1/7.4, 3/7.1, 4/7.2, 4/14.14.1, 4/14.14.2)
  const CHARSPEC_SIZE: nat := 64
  const TIMESTAMP_SIZE: nat := 12
  const ENTITY_ID_SIZE: nat := 32
  const EXTENT_AD_SIZE: nat := 8
  const LB_ADDR_SIZE: nat := 6
  const SHORT_AD_SIZE: nat := 8
  const LONG_AD_SIZE: nat := 16
  const TAG_SIZE: nat := 16

  /** `sizeof(struct long_ad)` as a C compiler with natural alignment lays it
      out: `Lb_addr` is padded from 6 to 8 bytes and the whole struct from 18
      to 20. A `memcpy` of a `long_ad` therefore copies 20 bytes; the fields
      ExtentLength, logicalBlockNumber and partitionReferenceNumber still sit
      at bytes 0-3, 4-7 and 8-9, as on disk. ImplementationUse, which the
      reader never consults, sits at bytes 12-17 of the struct but at 10-15
      on disk; the decoders here give the on-disk layout. */
  const LONG_AD_STRUCT_SIZE: nat := 20

  datatype Charspec = Charspec(characterSetType: Uint8, characterSetInfo: Bytes63)

  datatype Timestamp = Timestamp(
    typeAndTimezone: Uint16, year: Int16,
    month: Uint8, day: Uint8, hour: Uint8, minute: Uint8, second: Uint8,
    centiseconds: Uint8, hundredsOfMicroseconds: Uint8, microseconds: Uint8)

  datatype EntityId = EntityId(flags: Uint8, identifier: Bytes23, identifierSuffix: Bytes8)

  datatype ExtentAd = ExtentAd(length: Uint32, location: Uint32)

  datatype LbAddr = LbAddr(logicalBlockNumber: Uint32, partitionReferenceNumber: Uint16)

  datatype ShortAd = ShortAd(extentLength: Uint32, extentPosition: Uint32)

  datatype LongAd = LongAd(extentLength: Uint32, extentLocation: LbAddr, implementationUse: Bytes6)

  datatype Tag = Tag(
    tagIdentifier: Uint16, descriptorVersion: Uint16, tagChecksum: Uint8, reserved: Uint8,
    tagSerialNumber: Uint16, descriptorCrc: Uint16, descriptorCrcLength: Uint16, tagLocation: Uint32)

  // ---------------------------------------------------------------- decoders

  function DecodeCharspec(s: seq<Uint8>, off: nat): Charspec
    requires Fits(s, off, CHARSPEC_SIZE)
  {
    Charspec(s[off], s[off + 1..off + 64])
  }

  function DecodeTimestamp(s: seq<Uint8>, off: nat): Timestamp
    requires Fits(s, off, TIMESTAMP_SIZE)
  {
    Timestamp(U16At(s, off), I16At(s, off + 2),
              s[off + 4], s[off + 5], s[off + 6], s[off + 7],
              s[off + 8], s[off + 9], s[off + 10], s[off + 11])
  }

  function DecodeEntityId(s: seq<Uint8>, off: nat): EntityId
    requires Fits(s, off, ENTITY_ID_SIZE)
  {
    EntityId(s[off], s[off + 1..off + 24], s[off + 24..off + 32])
  }

  function DecodeExtentAd(s: seq<Uint8>, off: nat): ExtentAd
    requires Fits(s, off, EXTENT_AD_SIZE)
  {
    ExtentAd(U32At(s, off), U32At(s, off + 4))
  }

  function DecodeLbAddr(s: seq<Uint8>, off: nat): LbAddr
    requires Fits(s, off, LB_ADDR_SIZE)
  {
    LbAddr(U32At(s, off), U16At(s, off + 4))
  }

  /** The whole 32-bit ExtentLength is used as the length: the two extent-type
      bits of ECMA-167 4/14.14.1.1 are not masked off by the reader. */
  function DecodeShortAd(s: seq<Uint8>, off: nat): ShortAd
    requires Fits(s, off, SHORT_AD_SIZE)
  {
    ShortAd(U32At(s, off), U32At(s, off + 4))
  }

  function DecodeLongAd(s: seq<Uint8>, off: nat): LongAd
    requires Fits(s, off, LONG_AD_SIZE)
  {
    LongAd(U32At(s, off), DecodeLbAddr(s, off + 4), s[off + 10..off + 16])
  }

  function DecodeTag(s: seq<Uint8>, off: nat): Tag
    requires Fits(s, off, TAG_SIZE)
  {
    Tag(U16At(s, off), U16At(s, off + 2), s[off + 4], s[off + 5],
        U16At(s, off + 6), U16At(s, off + 8), U16At(s, off + 10), U32At(s, off + 12))
  }

  // ---------------------------------------------------------------- encoders

  function EncodeCharspec(c: Charspec): (r: seq<Uint8>)
    ensures |r| == CHARSPEC_SIZE
  {
    [c.characterSetType] + c.characterSetInfo
  }

  function EncodeTimestamp(t: Timestamp): (r: seq<Uint8>)
    ensures |r| == TIMESTAMP_SIZE
  {
    LeU16(t.typeAndTimezone) + LeI16(t.year)
      + [t.month, t.day, t.hour, t.minute, t.second,
         t.centiseconds, t.hundredsOfMicroseconds, t.microseconds]
  }

  function EncodeEntityId(e: EntityId): (r: seq<Uint8>)
    ensures |r| == ENTITY_ID_SIZE
  {
    [e.flags] + e.identifier + e.identifierSuffix
  }

  function EncodeExtentAd(e: ExtentAd): (r: seq<Uint8>)
    ensures |r| == EXTENT_AD_SIZE
  {
    LeU32(e.length) + LeU32(e.location)
  }

  function EncodeLbAddr(a: LbAddr): (r: seq<Uint8>)
    ensures |r| == LB_ADDR_SIZE
  {
    LeU32(a.logicalBlockNumber) + LeU16(a.partitionReferenceNumber)
  }

  function EncodeShortAd(a: ShortAd): (r: seq<Uint8>)
    ensures |r| == SHORT_AD_SIZE
  {
    LeU32(a.extentLength) + LeU32(a.extentPosition)
  }

  function EncodeLongAd(a: LongAd): (r: seq<Uint8>)
    ensures |r| == LONG_AD_SIZE
  {
    LeU32(a.extentLength) + EncodeLbAddr(a.extentLocation) + a.implementationUse
  }

  function EncodeTag(t: Tag): (r: seq<Uint8>)
    ensures |r| == TAG_SIZE
  {
    LeU16(t.tagIdentifier) + LeU16(t.descriptorVersion) + [t.tagChecksum, t.reserved]
      + LeU16(t.tagSerialNumber) + LeU16(t.descriptorCrc) + LeU16(t.descriptorCrcLength)
      + LeU32(t.tagLocation)
  }

  // ---------------------------------------------------------------- round trips

  /** The bytes `s[off + k .. off + k + n]` of a buffer whose window at `off`
      is `w` are the bytes `w[k .. k + n]`. */
  lemma Window(s: seq<Uint8>, off: nat, w: seq<Uint8>, k: nat, n: nat)
    requires off + |w| <= |s| && s[off..off + |w|] == w && k + n <= |w|
    ensures s[off + k..off + k + n] == w[k..k + n]
  {
    var a, b := s[off + k..off + k + n], w[k..k + n];
    forall i | 0 <= i < n ensures a[i] == b[i] {
      assert s[off + k + i] == s[off..off + |w|][k + i];
    }
  }

  lemma TimestampRoundTrip(t: Timestamp, s: seq<Uint8>, off: nat)
    requires Fits(s, off, TIMESTAMP_SIZE) && s[off..off + TIMESTAMP_SIZE] == EncodeTimestamp(t)
    ensures DecodeTimestamp(s, off) == t
  {
    var w := EncodeTimestamp(t);
    Window(s, off, w, 0, 2);
    assert w[0..2] == LeU16(t.typeAndTimezone);
    U16RoundTrip(t.typeAndTimezone, s, off);
    Window(s, off, w, 2, 2);
    assert w[2..4] == LeI16(t.year);
    I16RoundTrip(t.year, s, off + 2);
    assert forall i | 4 <= i < 12 :: s[off + i] == w[i];
  }

  lemma TimestampBytes(s: seq<Uint8>, off: nat)
    requires Fits(s, off, TIMESTAMP_SIZE)
    ensures EncodeTimestamp(DecodeTimestamp(s, off)) == s[off..off + TIMESTAMP_SIZE]
  {
    U16Bytes(s, off);
    I16Bytes(s, off + 2);
    var e := EncodeTimestamp(DecodeTimestamp(s, off));
    forall i | 0 <= i < TIMESTAMP_SIZE ensures e[i] == s[off..off + TIMESTAMP_SIZE][i] {
      if i < 2 {
        assert e[i] == s[off..off + 2][i];
      } else if i < 4 {
        assert e[i] == s[off + 2..off + 4][i - 2];
      }
    }
  }

  lemma ExtentAdRoundTrip(e: ExtentAd, s: seq<Uint8>, off: nat)
    requires Fits(s, off, EXTENT_AD_SIZE) && s[off..off + EXTENT_AD_SIZE] == EncodeExtentAd(e)
    ensures DecodeExtentAd(s, off) == e
  {
    var w := EncodeExtentAd(e);
    Window(s, off, w, 0, 4);
    assert w[0..4] == LeU32(e.length);
    U32RoundTrip(e.length, s, off);
    Window(s, off, w, 4, 4);
    assert w[4..8] == LeU32(e.location);
    U32RoundTrip(e.location, s, off + 4);
  }

  lemma ExtentAdBytes(s: seq<Uint8>, off: nat)
    requires Fits(s, off, EXTENT_AD_SIZE)
    ensures EncodeExtentAd(DecodeExtentAd(s, off)) == s[off..off + EXTENT_AD_SIZE]
  {
    U32Bytes(s, off);
    U32Bytes(s, off + 4);
    assert s[off..off + 8] == s[off..off + 4] + s[off + 4..off + 8];
  }

  lemma ShortAdRoundTrip(a: ShortAd, s: seq<Uint8>, off: nat)
    requires Fits(s, off, SHORT_AD_SIZE) && s[off..off + SHORT_AD_SIZE] == EncodeShortAd(a)
    ensures DecodeShortAd(s, off) == a
  {
    var w := EncodeShortAd(a);
    Window(s, off, w, 0, 4);
    assert w[0..4] == LeU32(a.extentLength);
    U32RoundTrip(a.extentLength, s, off);
    Window(s, off, w, 4, 4);
    assert w[4..8] == LeU32(a.extentPosition);
    U32RoundTrip(a.extentPosition, s, off + 4);
  }

  lemma ShortAdBytes(s: seq<Uint8>, off: nat)
    requires Fits(s, off, SHORT_AD_SIZE)
    ensures EncodeShortAd(DecodeShortAd(s, off)) == s[off..off + SHORT_AD_SIZE]
  {
    U32Bytes(s, off);
    U32Bytes(s, off + 4);
    assert s[off..off + 8] == s[off..off + 4] + s[off + 4..off + 8];
  }

  lemma LongAdRoundTrip(a: LongAd, s: seq<Uint8>, off: nat)
    requires Fits(s, off, LONG_AD_SIZE) && s[off..off + LONG_AD_SIZE] == EncodeLongAd(a)
    ensures DecodeLongAd(s, off) == a
  {
    var w := EncodeLongAd(a);
    Window(s, off, w, 0, 4);
    assert w[0..4] == LeU32(a.extentLength);
    U32RoundTrip(a.extentLength, s, off);
    Window(s, off, w, 4, 4);
    assert w[4..8] == LeU32(a.extentLocation.logicalBlockNumber);
    U32RoundTrip(a.extentLocation.logicalBlockNumber, s, off + 4);
    Window(s, off, w, 8, 2);
    assert w[8..10] == LeU16(a.extentLocation.partitionReferenceNumber);
    U16RoundTrip(a.extentLocation.partitionReferenceNumber, s, off + 8);
    Window(s, off, w, 10, 6);
    assert w[10..16] == a.implementationUse;
  }

  lemma LongAdBytes(s: seq<Uint8>, off: nat)
    requires Fits(s, off, LONG_AD_SIZE)
    ensures EncodeLongAd(DecodeLongAd(s, off)) == s[off..off + LONG_AD_SIZE]
  {
    U32Bytes(s, off);
    U32Bytes(s, off + 4);
    U16Bytes(s, off + 8);
    assert s[off..off + 16] == s[off..off + 4] + s[off + 4..off + 8] + s[off + 8..off + 10] + s[off + 10..off + 16];
  }

  lemma TagRoundTrip(t: Tag, s: seq<Uint8>, off: nat)
    requires Fits(s, off, TAG_SIZE) && s[off..off + TAG_SIZE] == EncodeTag(t)
    ensures DecodeTag(s, off) == t
  {
    var w := EncodeTag(t);
    Window(s, off, w, 0, 2);
    assert w[0..2] == LeU16(t.tagIdentifier);
    U16RoundTrip(t.tagIdentifier, s, off);
    Window(s, off, w, 2, 2);
    assert w[2..4] == LeU16(t.descriptorVersion);
    U16RoundTrip(t.descriptorVersion, s, off + 2);
    assert s[off + 4] == w[4] && s[off + 5] == w[5];
    Window(s, off, w, 6, 2);
    assert w[6..8] == LeU16(t.tagSerialNumber);
    U16RoundTrip(t.tagSerialNumber, s, off + 6);
    Window(s, off, w, 8, 2);
    assert w[8..10] == LeU16(t.descriptorCrc);
    U16RoundTrip(t.descriptorCrc, s, off + 8);
    Window(s, off, w, 10, 2);
    assert w[10..12] == LeU16(t.descriptorCrcLength);
    U16RoundTrip(t.descriptorCrcLength, s, off + 10);
    Window(s, off, w, 12, 4);
    assert w[12..16] == LeU32(t.tagLocation);
    U32RoundTrip(t.tagLocation, s, off + 12);
  }

  lemma TagBytes(s: seq<Uint8>, off: nat)
    requires Fits(s, off, TAG_SIZE)
    ensures EncodeTag(DecodeTag(s, off)) == s[off..off + TAG_SIZE]
  {
    U16Bytes(s, off);
    U16Bytes(s, off + 2);
    U16Bytes(s, off + 6);
    U16Bytes(s, off + 8);
    U16Bytes(s, off + 10);
    U32Bytes(s, off + 12);
    assert s[off..off + 16] == s[off..off + 2] + s[off + 2..off + 4] + s[off + 4..off + 6]
      + s[off + 6..off + 8] + s[off + 8..off + 10] + s[off + 10..off + 12] + s[off + 12..off + 16];
  }

  lemma CharspecRoundTrip(c: Charspec, s: seq<Uint8>, off: nat)
    requires Fits(s, off, CHARSPEC_SIZE) && s[off..off + CHARSPEC_SIZE] == EncodeCharspec(c)
    ensures DecodeCharspec(s, off) == c
  {
    Window(s, off, EncodeCharspec(c), 1, 63);
  }

  lemma EntityIdRoundTrip(e: EntityId, s: seq<Uint8>, off: nat)
    requires Fits(s, off, ENTITY_ID_SIZE) && s[off..off + ENTITY_ID_SIZE] == EncodeEntityId(e)
    ensures DecodeEntityId(s, off) == e
  {
    var w := EncodeEntityId(e);
    Window(s, off, w, 1, 23);
    Window(s, off, w, 24, 8);
    assert w[1..24] == e.identifier && w[24..32] == e.identifierSuffix;
  }
}
