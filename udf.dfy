/** The volume-level layouts of udf.h: sector geometry, the Volume Structure
    Descriptors of the recognition sequence, the Anchor Volume Descriptor
    Pointer, the Partition and Logical Volume Descriptors, and the File Set
    Descriptor, together with the constants and checks that the reader uses
    whose defining header is not part of this model (VRS, OFFSET,
    VRS_SECTOR, AVDP_SECTOR, the tag identifiers, FSD_CHECK_TAG, FE_CHECK_TAG).
    Only the fields the reader consults are kept in the datatypes; the
    encoders write zeros for the others. */
module Udf {
  import opened LittleEndian
  import opened UdfTypes

  const SECTOR_SIZE: nat := 2048

  /** OFFSET(sector): the absolute byte offset of a device sector. */
  function Offset(sector: nat): nat
  {
    sector * SECTOR_SIZE
  }

  const VRS_OFFSET: nat := 16 * SECTOR_SIZE
  const AVDP_OFFSET: nat := 256 * SECTOR_SIZE
  const VRS_SECTOR: nat := VRS_OFFSET / SECTOR_SIZE
  const AVDP_SECTOR: nat := AVDP_OFFSET / SECTOR_SIZE

  // Tag identifiers of ECMA-167 3/7.2.1 and 4/7.2.1
  const PVD_TAG_ID := 1
  const VDS_PD_TAG_IDENTIFIER := 5
  const VDS_LVD_TAG_IDENTIFIER := 6
  const FSD_TAG_ID := 256
  const FID_TAG_ID := 257
  const FE_TAG_ID := 261

  // Standard identifiers of ECMA-167 2/9.1 and 3/9.1, as ASCII bytes
  const BEA01: Bytes5 := [0x42, 0x45, 0x41, 0x30, 0x31]
  const NSR02: Bytes5 := [0x4E, 0x53, 0x52, 0x30, 0x32]
  const NSR03: Bytes5 := [0x4E, 0x53, 0x52, 0x30, 0x33]
  const TEA01: Bytes5 := [0x54, 0x45, 0x41, 0x30, 0x31]

  function Zeros(n: nat): (r: seq<Uint8>)
    ensures |r| == n
  {
    seq(n, _ => 0)
  }

  // ---------------------------------------------------------------- VRS

  type Bytes2041 = s: seq<Uint8> | |s| == 2041 witness seq(2041, _ => 0)

  /** One sector: type byte 0, identifier bytes 1-5, version byte 6, data 7-2047. */
  const VSD_SIZE: nat := 2048
  datatype VolumeStructureDescriptor =
    VolumeStructureDescriptor(structureType: Uint8, identifier: Bytes5, version: Uint8, data: Bytes2041)

  function DecodeVsd(s: seq<Uint8>, off: nat): VolumeStructureDescriptor
    requires Fits(s, off, VSD_SIZE)
  {
    VolumeStructureDescriptor(s[off], s[off + 1..off + 6], s[off + 6], s[off + 7..off + 2048])
  }

  function EncodeVsd(d: VolumeStructureDescriptor): (r: seq<Uint8>)
    ensures |r| == VSD_SIZE
  {
    [d.structureType] + d.identifier + [d.version] + d.data
  }

  lemma VsdRoundTrip(d: VolumeStructureDescriptor, s: seq<Uint8>, off: nat)
    requires Fits(s, off, VSD_SIZE) && s[off..off + VSD_SIZE] == EncodeVsd(d)
    ensures DecodeVsd(s, off) == d
  {
    var w := EncodeVsd(d);
    Window(s, off, w, 1, 5);
    Window(s, off, w, 7, 2041);
    var head := [d.structureType] + d.identifier + [d.version];
    assert w == head + d.data;
    assert w[7..2048] == d.data;
    forall i | 0 <= i < 5 ensures w[1..6][i] == d.identifier[i] {
      assert w[1 + i] == head[1 + i] == d.identifier[i];
    }
    assert w[1..6] == d.identifier;
    assert s[off] == w[0] && s[off + 6] == w[6];
  }

  lemma VsdBytes(s: seq<Uint8>, off: nat)
    requires Fits(s, off, VSD_SIZE)
    ensures EncodeVsd(DecodeVsd(s, off)) == s[off..off + VSD_SIZE]
  {
    assert s[off..off + 2048] == [s[off]] + s[off + 1..off + 6] + [s[off + 6]] + s[off + 7..off + 2048];
  }

  /** The `VRS` the recognition scan reads at each sector: a Beginning Extended
      Area Descriptor, an NSR descriptor and a Terminating Extended Area
      Descriptor in three consecutive sectors. */
  const VRS_SIZE: nat := 3 * VSD_SIZE

  /** VRS_IS_VALID_SEQUENCE: BEA01, then NSR02 or NSR03, then TEA01. */
  predicate VrsIsValidSequence(vrs: seq<Uint8>)
    requires |vrs| >= VRS_SIZE
  {
    && DecodeVsd(vrs, 0).identifier == BEA01
    && DecodeVsd(vrs, VSD_SIZE).identifier in {NSR02, NSR03}
    && DecodeVsd(vrs, 2 * VSD_SIZE).identifier == TEA01
  }

  // ---------------------------------------------------------------- AVDP

  /** ECMA-167 3/10.2: tag, main VDS extent at 16-23, reserve VDS extent at 24-31, 480 reserved bytes. */
  const AVDP_SIZE: nat := 512
  datatype AnchorVolumeDescriptorPointer =
    AnchorVolumeDescriptorPointer(descriptorTag: Tag, mainVds: ExtentAd, reserveVds: ExtentAd)

  function DecodeAvdp(b: seq<Uint8>): AnchorVolumeDescriptorPointer
    requires |b| >= AVDP_SIZE
  {
    AnchorVolumeDescriptorPointer(DecodeTag(b, 0), DecodeExtentAd(b, 16), DecodeExtentAd(b, 24))
  }

  function EncodeAvdp(a: AnchorVolumeDescriptorPointer): (r: seq<Uint8>)
    ensures |r| == AVDP_SIZE
  {
    EncodeTag(a.descriptorTag) + EncodeExtentAd(a.mainVds) + EncodeExtentAd(a.reserveVds) + Zeros(480)
  }

  lemma AvdpRoundTrip(a: AnchorVolumeDescriptorPointer, b: seq<Uint8>)
    requires |b| >= AVDP_SIZE && b[..AVDP_SIZE] == EncodeAvdp(a)
    ensures DecodeAvdp(b) == a
  {
    var w := EncodeAvdp(a);
    assert b[0..AVDP_SIZE] == w;
    Window(b, 0, w, 0, 16);
    Window(b, 0, w, 16, 8);
    Window(b, 0, w, 24, 8);
    assert w[0..16] == EncodeTag(a.descriptorTag);
    assert w[16..24] == EncodeExtentAd(a.mainVds);
    assert w[24..32] == EncodeExtentAd(a.reserveVds);
    TagRoundTrip(a.descriptorTag, b, 0);
    ExtentAdRoundTrip(a.mainVds, b, 16);
    ExtentAdRoundTrip(a.reserveVds, b, 24);
  }

  // ---------------------------------------------------------------- PD

  /** ECMA-167 3/10.5: 512 bytes; PartitionNumber at 22, AccessType at 184,
      PartitionStartingLocation at 188, PartitionLength at 192. */
  const PD_SIZE: nat := 512
  datatype PartitionDescriptor = PartitionDescriptor(
    descriptorTag: Tag, partitionNumber: Uint16, accessType: Uint32,
    partitionStartingLocation: Uint32, partitionLength: Uint32)

  function DecodePd(b: seq<Uint8>): PartitionDescriptor
    requires |b| >= PD_SIZE
  {
    PartitionDescriptor(DecodeTag(b, 0), U16At(b, 22), U32At(b, 184), U32At(b, 188), U32At(b, 192))
  }

  function EncodePd(p: PartitionDescriptor): (r: seq<Uint8>)
    ensures |r| == PD_SIZE
  {
    EncodeTag(p.descriptorTag)
      + Zeros(6)                                  // VolumeDescriptorSequenceNumber, PartitionFlags
      + LeU16(p.partitionNumber)
      + Zeros(160)                                // PartitionContents, PartitionContentsUse
      + LeU32(p.accessType) + LeU32(p.partitionStartingLocation) + LeU32(p.partitionLength)
      + Zeros(316)                                // ImplementationIdentifier, ImplementationUse, Reserved
  }

  lemma PdRoundTrip(p: PartitionDescriptor, b: seq<Uint8>)
    requires |b| >= PD_SIZE && b[..PD_SIZE] == EncodePd(p)
    ensures DecodePd(b) == p
  {
    var w := EncodePd(p);
    assert b[0..PD_SIZE] == w;
    Window(b, 0, w, 0, 16);
    assert w[0..16] == EncodeTag(p.descriptorTag);
    TagRoundTrip(p.descriptorTag, b, 0);
    Window(b, 0, w, 22, 2);
    assert w[22..24] == LeU16(p.partitionNumber);
    U16RoundTrip(p.partitionNumber, b, 22);
    Window(b, 0, w, 184, 4);
    assert w[184..188] == LeU32(p.accessType);
    U32RoundTrip(p.accessType, b, 184);
    Window(b, 0, w, 188, 4);
    assert w[188..192] == LeU32(p.partitionStartingLocation);
    U32RoundTrip(p.partitionStartingLocation, b, 188);
    Window(b, 0, w, 192, 4);
    assert w[192..196] == LeU32(p.partitionLength);
    U32RoundTrip(p.partitionLength, b, 192);
  }

  // ---------------------------------------------------------------- LVD

  /** ECMA-167 3/10.6: a 440-byte header; LogicalBlockSize at 212, the 16-byte
      LogicalVolumeContentsUse at 248 (it holds the File Set Descriptor's
      long_ad), IntegritySequenceExtent at 432. */
  const LVD_SIZE: nat := 440
  datatype LogicalVolumeDescriptor = LogicalVolumeDescriptor(
    descriptorTag: Tag, logicalBlockSize: Uint32,
    logicalVolumeContentsUse: LongAd, integritySequenceExtent: ExtentAd)

  function DecodeLvd(b: seq<Uint8>): LogicalVolumeDescriptor
    requires |b| >= LVD_SIZE
  {
    LogicalVolumeDescriptor(DecodeTag(b, 0), U32At(b, 212), DecodeLongAd(b, 248), DecodeExtentAd(b, 432))
  }

  function EncodeLvd(l: LogicalVolumeDescriptor): (r: seq<Uint8>)
    ensures |r| == LVD_SIZE
  {
    EncodeTag(l.descriptorTag)
      + Zeros(196)                                // VolumeDescriptorSequenceNumber, DescriptorCharacterSet, LogicalVolumeIdentifier
      + LeU32(l.logicalBlockSize)
      + Zeros(32)                                 // DomainIdentifier
      + EncodeLongAd(l.logicalVolumeContentsUse)
      + Zeros(168)                                // MapTableLength, NumberofPartitionMaps, ImplementationIdentifier, ImplementationUse
      + EncodeExtentAd(l.integritySequenceExtent)
  }

  lemma LvdRoundTrip(l: LogicalVolumeDescriptor, b: seq<Uint8>)
    requires |b| >= LVD_SIZE && b[..LVD_SIZE] == EncodeLvd(l)
    ensures DecodeLvd(b) == l
  {
    var w := EncodeLvd(l);
    assert b[0..LVD_SIZE] == w;
    Window(b, 0, w, 0, 16);
    assert w[0..16] == EncodeTag(l.descriptorTag);
    TagRoundTrip(l.descriptorTag, b, 0);
    Window(b, 0, w, 212, 4);
    assert w[212..216] == LeU32(l.logicalBlockSize);
    U32RoundTrip(l.logicalBlockSize, b, 212);
    Window(b, 0, w, 248, 16);
    assert w[248..264] == EncodeLongAd(l.logicalVolumeContentsUse);
    LongAdRoundTrip(l.logicalVolumeContentsUse, b, 248);
    Window(b, 0, w, 432, 8);
    assert w[432..440] == EncodeExtentAd(l.integritySequenceExtent);
    ExtentAdRoundTrip(l.integritySequenceExtent, b, 432);
  }

  // ---------------------------------------------------------------- FSD

  /** ECMA-167 4/14.1: 512 bytes on disk; RecordingDateandTime at 16,
      RootDirectoryICB (a long_ad) at 400. */
  const FSD_SIZE: nat := 512

  /** `sizeof(struct FileSetDescriptor)`, the length the reader reads: its three
      `long_ad` members are 20 bytes each in C (see LONG_AD_STRUCT_SIZE). */
  const FSD_STRUCT_SIZE: nat := 524

  datatype FileSetDescriptor = FileSetDescriptor(
    descriptorTag: Tag, recordingDateAndTime: Timestamp, rootDirectoryIcb: LongAd)

  function DecodeFsd(b: seq<Uint8>): FileSetDescriptor
    requires |b| >= FSD_SIZE
  {
    FileSetDescriptor(DecodeTag(b, 0), DecodeTimestamp(b, 16), DecodeLongAd(b, 400))
  }

  function EncodeFsd(f: FileSetDescriptor): (r: seq<Uint8>)
    ensures |r| == FSD_SIZE
  {
    EncodeTag(f.descriptorTag) + EncodeTimestamp(f.recordingDateAndTime)
      + Zeros(372)                                // levels, character sets, numbers, identifiers
      + EncodeLongAd(f.rootDirectoryIcb)
      + Zeros(96)                                 // DomainIdentifier, NextExtent, SystemStreamDirectoryICB, Reserved
  }

  lemma FsdRoundTrip(f: FileSetDescriptor, b: seq<Uint8>)
    requires |b| >= FSD_SIZE && b[..FSD_SIZE] == EncodeFsd(f)
    ensures DecodeFsd(b) == f
  {
    var w := EncodeFsd(f);
    assert b[0..FSD_SIZE] == w;
    Window(b, 0, w, 0, 16);
    assert w[0..16] == EncodeTag(f.descriptorTag);
    TagRoundTrip(f.descriptorTag, b, 0);
    Window(b, 0, w, 16, 12);
    assert w[16..28] == EncodeTimestamp(f.recordingDateAndTime);
    TimestampRoundTrip(f.recordingDateAndTime, b, 16);
    Window(b, 0, w, 400, 16);
    assert w[400..416] == EncodeLongAd(f.rootDirectoryIcb);
    LongAdRoundTrip(f.rootDirectoryIcb, b, 400);
  }

  /** FSD_CHECK_TAG */
  predicate FsdCheckTag(f: FileSetDescriptor)
  {
    f.descriptorTag.tagIdentifier == FSD_TAG_ID
  }

  /** FE_CHECK_TAG over the raw bytes of a File Entry: the tag identifier,
      the first field of the descriptor tag, read in place. A buffer too short
      to hold a tag fails the check (the reader would read past its
      allocation). */
  predicate FeCheckTag(fe: seq<Uint8>)
  {
    Fits(fe, 0, TAG_SIZE) && U16At(fe, 0) == FE_TAG_ID
  }
}
