/** What the operations of `FsEntry` (fsentry.cpp) compute, as functions of
    the device, the entry's address and a snapshot of the entry's state:
    loading and decoding the File Entry (ECMA-167 4/14.9), the directory
    scan over File Identifier Descriptors, the size text and the chunked
    copy of a file's data. The methods of `DirectoryTree.FsEntry` are proved
    to compute exactly these; the lemmas here state what they promise. */
module FsEntrySpec {
  import opened Wrappers
  import opened LittleEndian
  import opened UdfTypes
  import opened Udf
  import opened Streams
  import opened Fid

  // ================================================================ addresses

  /** The byte offset of block `block` of the partition that starts at sector
      `partitionSector`, with every block one sector long. */
  function EntryOffset(partitionSector: Uint32, block: Uint32): (r: nat)
  {
    Offset(partitionSector + block)
  }

  /** `FsEntry`'s rule, blocks of one 2048-byte sector, against the rule by
      which `loadFSD` finds the root File Entry, `(partition + block) *
      LogicalBlockSize`: they agree exactly when the sector index is zero or
      logical blocks are device sectors. */
  lemma FsEntryAgreesWithRootRule(ps: Uint32, lbn: Uint32, lbs: nat)
    ensures EntryOffset(ps, lbn) == (ps + lbn) * lbs <==> ps + lbn == 0 || lbs == SECTOR_SIZE
  {
    var s: nat := ps + lbn;
    if s != 0 && s * SECTOR_SIZE == s * lbs {
      assert s * (SECTOR_SIZE - lbs) == 0;
    }
  }

  /** Distinct blocks of a partition occupy disjoint sectors. */
  lemma EntryOffsetsDisjoint(partitionSector: Uint32, b1: Uint32, b2: Uint32)
    requires b1 < b2
    ensures EntryOffset(partitionSector, b1) + SECTOR_SIZE <= EntryOffset(partitionSector, b2)
  {
  }

  /** The offset as fsentry.cpp writes it: `(partition + block) * SECTOR_SIZE`
      is evaluated in 32-bit unsigned arithmetic, sum and product both
      wrapping, before it is widened to the 64-bit offset. */
  function EntryOffsetAsWritten(partitionSector: Uint32, block: Uint32): (r: Uint32)
  {
    var sum := (partitionSector + block) % 0x1_0000_0000;
    (sum * SECTOR_SIZE) % 0x1_0000_0000
  }

  /** The two agree exactly on the first 4 GiB of the device. */
  lemma AsWrittenAgreesBelow4GiB(partitionSector: Uint32, block: Uint32)
    ensures EntryOffsetAsWritten(partitionSector, block) == EntryOffset(partitionSector, block)
            <==> partitionSector + block < 0x20_0000
  {
    var s := partitionSector + block;
    if s < 0x20_0000 {
      assert s % 0x1_0000_0000 == s;
      assert s * SECTOR_SIZE < 0x1_0000_0000;
    } else {
      assert EntryOffset(partitionSector, block) >= 0x1_0000_0000;
    }
  }

  /** On a volume larger than 4 GiB the written offset of block 0x200000
      (4 GiB from the partition start at sector 0) is that of block 0: the
      reader would load the wrong sector. */
  lemma WrappedOffsetAliasesBlockZero()
    ensures EntryOffsetAsWritten(0, 0x20_0000) == EntryOffsetAsWritten(0, 0) == 0
    ensures EntryOffset(0, 0x20_0000) == 0x1_0000_0000 != EntryOffset(0, 0)
  {
  }

  // ================================================================ File Entry header

  // Byte offsets inside a File Entry
  const FE_ACCESS_TIME_OFFSET: nat := 72
  const FE_MODIFICATION_TIME_OFFSET: nat := 84
  const FE_ATTRIBUTE_TIME_OFFSET: nat := 96
  const FE_L_EA_OFFSET: nat := 168
  const FE_L_AD_OFFSET: nat := 172
  /** Where the extended attributes start; the allocation descriptors follow
      them. */
  const FE_HEADER_SIZE: nat := 176

  datatype FeHeader = FeHeader(
    descriptorTag: Tag, lEa: Uint32, lAd: Uint32,
    accessTime: Timestamp, modificationTime: Timestamp, attributeTime: Timestamp)

  /** The fields `initialize` takes from a File Entry: none unless the
      buffer holds the fixed part and the tag says File Entry. */
  function DecodeFeHeader(fe: seq<Uint8>): (r: Option<FeHeader>)
    ensures r.Some? ==> FeCheckTag(fe) && |fe| >= FE_HEADER_SIZE
    ensures r.Some? ==> r.value.descriptorTag.tagIdentifier == FE_TAG_ID
  {
    if |fe| < FE_HEADER_SIZE || DecodeTag(fe, 0).tagIdentifier != FE_TAG_ID then None
    else Some(FeHeader(DecodeTag(fe, 0), U32At(fe, FE_L_EA_OFFSET), U32At(fe, FE_L_AD_OFFSET),
                       DecodeTimestamp(fe, FE_ACCESS_TIME_OFFSET),
                       DecodeTimestamp(fe, FE_MODIFICATION_TIME_OFFSET),
                       DecodeTimestamp(fe, FE_ATTRIBUTE_TIME_OFFSET)))
  }

  /** The `short_ad` after the extended attributes: the extent that holds a
      directory's records or a file's data. None when it lies beyond the
      buffer. */
  function AllocationDescriptor(fe: seq<Uint8>, lEa: Uint32): (r: Option<ShortAd>)
    ensures r.Some? <==> Fits(fe, FE_HEADER_SIZE + lEa, SHORT_AD_SIZE)
  {
    if Fits(fe, FE_HEADER_SIZE + lEa, SHORT_AD_SIZE) then Some(DecodeShortAd(fe, FE_HEADER_SIZE + lEa)) else None
  }

  /** A File Entry laid out field by field: tag, the 56 bytes of ICB tag,
      owner, permissions and lengths, the three timestamps, the 60 bytes up
      to L_EA, L_EA and L_AD, the extended attributes and one short
      allocation descriptor. */
  function EncodeFileEntry(h: FeHeader, extendedAttributes: seq<Uint8>, ad: ShortAd): (r: seq<Uint8>)
    requires |extendedAttributes| == h.lEa
    ensures |r| == FE_HEADER_SIZE + h.lEa + SHORT_AD_SIZE
  {
    EncodeTag(h.descriptorTag) + Zeros(56)
      + EncodeTimestamp(h.accessTime) + EncodeTimestamp(h.modificationTime) + EncodeTimestamp(h.attributeTime)
      + Zeros(60) + LeU32(h.lEa) + LeU32(h.lAd)
      + extendedAttributes + EncodeShortAd(ad)
  }

  /** Decoding an encoded File Entry gives back its header and its
      allocation descriptor. */
  lemma FileEntryRoundTrip(h: FeHeader, extendedAttributes: seq<Uint8>, ad: ShortAd)
    requires |extendedAttributes| == h.lEa && h.descriptorTag.tagIdentifier == FE_TAG_ID
    ensures DecodeFeHeader(EncodeFileEntry(h, extendedAttributes, ad)) == Some(h)
    ensures AllocationDescriptor(EncodeFileEntry(h, extendedAttributes, ad), h.lEa) == Some(ad)
  {
    var b := EncodeFileEntry(h, extendedAttributes, ad);
    assert b[..|b|] == b;
    Window(b, 0, b, 0, TAG_SIZE);
    assert b[0..TAG_SIZE] == EncodeTag(h.descriptorTag);
    TagRoundTrip(h.descriptorTag, b, 0);
    assert b[72..84] == EncodeTimestamp(h.accessTime);
    TimestampRoundTrip(h.accessTime, b, FE_ACCESS_TIME_OFFSET);
    assert b[84..96] == EncodeTimestamp(h.modificationTime);
    TimestampRoundTrip(h.modificationTime, b, FE_MODIFICATION_TIME_OFFSET);
    assert b[96..108] == EncodeTimestamp(h.attributeTime);
    TimestampRoundTrip(h.attributeTime, b, FE_ATTRIBUTE_TIME_OFFSET);
    assert b[168..172] == LeU32(h.lEa);
    U32RoundTrip(h.lEa, b, FE_L_EA_OFFSET);
    assert b[172..176] == LeU32(h.lAd);
    U32RoundTrip(h.lAd, b, FE_L_AD_OFFSET);
    var at := FE_HEADER_SIZE + h.lEa;
    assert b[at..at + SHORT_AD_SIZE] == EncodeShortAd(ad);
    ShortAdRoundTrip(ad, b, at);
  }

  // ================================================================ entry state

  /** The mutable state of an `FsEntry` apart from its children: the flags,
      the decoded header fields and the cached File Entry bytes. */
  datatype EntryState = EntryState(
    isValid: bool, isInitialized: bool, isDirectory: bool,
    header: FeHeader, feBuffer: Option<seq<Uint8>>)

  /** The outcome of one operation: its result, the new state and the
      requests it issues, in order. */
  datatype Step = Step(ok: bool, state: EntryState, requests: seq<(nat, nat)>)

  /** `loadBuffer`: keep a loaded buffer, otherwise read the whole File Entry
      extent; a failed read leaves no buffer. */
  function LoadBufferStep(device: Device, partitionSector: Uint32, ad: LongAd, s: EntryState): (r: Step)
    ensures r.ok == r.state.feBuffer.Some?
    ensures s.feBuffer.Some? ==> r == Step(true, s, [])
    ensures s.feBuffer.None? ==>
      && r.requests == [(EntryOffset(partitionSector, ad.extentLocation.logicalBlockNumber), ad.extentLength)]
      && r.state == s.(feBuffer := ReadAt(device, r.requests[0].0, r.requests[0].1))
  {
    if s.feBuffer.Some? then Step(true, s, [])
    else
      var offset := EntryOffset(partitionSector, ad.extentLocation.logicalBlockNumber);
      var data := ReadAt(device, offset, ad.extentLength);
      Step(data.Some?, s.(feBuffer := data), [(offset, ad.extentLength)])
  }

  /** `initialize`: nothing to do once initialized; otherwise load the
      buffer, copy the tag, and on a File Entry tag take the header fields
      and mark the entry valid and initialized. */
  function InitializeStep(device: Device, partitionSector: Uint32, ad: LongAd, s: EntryState): (r: Step)
    ensures s.isInitialized ==> r == Step(true, s, [])
    ensures r.ok == r.state.isInitialized
    ensures r.state.isDirectory == s.isDirectory
    ensures !s.isInitialized && r.ok ==>
      && r.state.feBuffer.Some? && r.state.isValid
      && DecodeFeHeader(r.state.feBuffer.value) == Some(r.state.header)
    ensures !r.ok ==> r.state.isValid == s.isValid
  {
    if s.isInitialized then Step(true, s, [])
    else
      var l := LoadBufferStep(device, partitionSector, ad, s);
      if !l.ok then Step(false, l.state, l.requests)
      else
        var d := TakeHeaderStep(l.state);
        TakeHeaderOutcome(l.state);
        Step(d.ok, d.state, l.requests)
  }

  /** The decoding half of `initialize`, on a loaded buffer: copy the tag
      when the buffer holds one, and on a File Entry take the header fields
      and mark the entry valid and initialized. It reads nothing. */
  function TakeHeaderStep(s: EntryState): (r: Step)
    requires s.feBuffer.Some?
    ensures r.requests == [] && r.state.feBuffer == s.feBuffer && r.state.isDirectory == s.isDirectory
  {
    var fe := s.feBuffer.value;
    if !Fits(fe, 0, TAG_SIZE) then Step(false, s, [])
    else
      var tagged := s.(header := s.header.(descriptorTag := DecodeTag(fe, 0)));
      match DecodeFeHeader(fe)
      case None => Step(false, tagged, [])
      case Some(h) => Step(true, tagged.(isValid := true, isInitialized := true, header := h), [])
  }

  /** Decoding succeeds exactly on a File Entry header; it then marks the
      entry valid and initialized with the decoded header, and a failure
      leaves both flags as they were. */
  lemma TakeHeaderOutcome(s: EntryState)
    requires s.feBuffer.Some?
    ensures var r := TakeHeaderStep(s);
      && (r.ok <==> DecodeFeHeader(s.feBuffer.value).Some?)
      && (r.ok ==> r.state == s.(isValid := true, isInitialized := true, header := DecodeFeHeader(s.feBuffer.value).value))
      && (!r.ok ==> r.state.isValid == s.isValid && r.state.isInitialized == s.isInitialized)
  {
  }

  /** Once an entry is initialized, `initialize` changes nothing and reads
      nothing: the header is decoded once. */
  lemma InitializeOnce(device: Device, partitionSector: Uint32, ad: LongAd, s: EntryState)
    ensures var r := InitializeStep(device, partitionSector, ad, s);
      r.ok ==> InitializeStep(device, partitionSector, ad, r.state) == Step(true, r.state, [])
  {
  }

  // ================================================================ directory scan

  /** The record at the start of `b` carries the File Identifier tag. */
  predicate FidTagged(b: seq<Uint8>)
  {
    Fits(b, 0, TAG_SIZE) && DecodeTag(b, 0).tagIdentifier == FID_TAG_ID
  }

  /** The records of a directory's extent from the record at the start of
      `b` on, and whether the scan reached the end of the extent: it stops
      at a record whose tag is not a File Identifier tag or that does not
      fit, and otherwise moves on by each record's padded length, valid or
      not. */
  datatype FidScan = FidScan(records: seq<FidEntry>, complete: bool)

  function ScanFids(b: seq<Uint8>): FidScan
    decreases |b|
  {
    if b == [] then FidScan([], true)
    else if !FidTagged(b) || !FidFits(b) then FidScan([], false)
    else
      var f := DecodeFid(b);
      var rest := if f.totalSize >= |b| then FidScan([], true) else ScanFids(b[f.totalSize..]);
      FidScan([f] + rest.records, rest.complete)
  }

  /** The links a directory keeps: the valid records, in order. */
  function Links(records: seq<FidEntry>): (r: seq<FidEntry>)
    ensures |r| <= |records|
    ensures forall i :: 0 <= i < |r| ==> IsValid(r[i])
  {
    if records == [] then []
    else Links(records[..|records| - 1]) + (if IsValid(records[|records| - 1]) then [records[|records| - 1]] else [])
  }

  /** Keeping the valid records works piece by piece and keeps their order. */
  lemma {:induction false} LinksConcat(a: seq<FidEntry>, b: seq<FidEntry>)
    ensures Links(a + b) == Links(a) + Links(b)
    decreases |b|
  {
    if b == [] {
      assert a + b == a;
    } else {
      var b' := b[..|b| - 1];
      assert (a + b)[..|a + b| - 1] == a + b';
      assert (a + b)[|a + b| - 1] == b[|b| - 1];
      LinksConcat(a, b');
    }
  }

  /** A record is kept exactly when it is valid: every valid record of a
      scan appears among the links, and only those. */
  lemma {:induction false} LinksKeepValid(records: seq<FidEntry>, f: FidEntry)
    ensures f in Links(records) <==> f in records && IsValid(f)
  {
    if records != [] {
      var init := records[..|records| - 1];
      LinksKeepValid(init, f);
      assert records == init + [records[|records| - 1]];
    }
  }

  /** A directory record to be laid out on disk. */
  datatype FidRecord = FidRecord(header: FidHeader, implementationUse: seq<Uint8>, name: seq<Uint8>)

  predicate WellFormed(r: FidRecord)
  {
    && |r.implementationUse| == r.header.lengthOfImplementationUse
    && |r.name| == r.header.lengthOfFileIdentifier
    && r.header.descriptorTag.tagIdentifier == FID_TAG_ID
  }

  function EncodeFids(rs: seq<FidRecord>): seq<Uint8>
    requires forall i :: 0 <= i < |rs| ==> WellFormed(rs[i])
  {
    if rs == [] then []
    else
      assert WellFormed(rs[0]);
      EncodeFid(rs[0].header, rs[0].implementationUse, rs[0].name) + EncodeFids(rs[1..])
  }

  function LinksOfRecords(rs: seq<FidRecord>): (r: seq<FidEntry>)
    ensures |r| == |rs|
  {
    if rs == [] then [] else [LinkOf(rs[0].header, rs[0].name)] + LinksOfRecords(rs[1..])
  }

  /** The scan inverts the layout: the extent made of well-formed records,
      one after the other, scans to the end and yields one link per record,
      in order. */
  lemma {:induction false} ScanEncoded(rs: seq<FidRecord>)
    requires forall i :: 0 <= i < |rs| ==> WellFormed(rs[i])
    ensures ScanFids(EncodeFids(rs)) == FidScan(LinksOfRecords(rs), true)
  {
    if rs != [] {
      var r := rs[0];
      assert WellFormed(r);
      var w := EncodeFid(r.header, r.implementationUse, r.name);
      var t := EncodeFids(rs[1..]);
      assert EncodeFids(rs) == w + t;
      FidRoundTrip(r.header, r.implementationUse, r.name, t);
      assert DecodeFidHeader(w + t).descriptorTag == r.header.descriptorTag;
      assert FidTagged(w + t);
      assert (w + t)[|w|..] == t;
      ScanEncoded(rs[1..]);
    }
  }

  /** The scan stops with failure at the first record that does not carry the
      File Identifier tag: the well-formed records before it are all kept,
      in order, and the scan is marked incomplete. */
  lemma {:induction false} ScanStopsAtForeignTag(rs: seq<FidRecord>, rest: seq<Uint8>)
    requires forall i :: 0 <= i < |rs| ==> WellFormed(rs[i])
    requires rest != [] && !FidTagged(rest)
    ensures ScanFids(EncodeFids(rs) + rest) == FidScan(LinksOfRecords(rs), false)
  {
    if rs == [] {
      assert EncodeFids(rs) + rest == rest;
    } else {
      var r := rs[0];
      assert WellFormed(r);
      var w := EncodeFid(r.header, r.implementationUse, r.name);
      var t := EncodeFids(rs[1..]);
      assert EncodeFids(rs) + rest == w + (t + rest);
      FidRoundTrip(r.header, r.implementationUse, r.name, t + rest);
      assert DecodeFidHeader(w + (t + rest)).descriptorTag == r.header.descriptorTag;
      assert FidTagged(w + (t + rest));
      assert (w + (t + rest))[|w|..] == t + rest;
      ScanStopsAtForeignTag(rs[1..], rest);
    }
  }

  /** The outcome of `populate`: its result, the new state, the links it
      appends to the children (in order) and the requests it issues. */
  datatype PopulateResult = PopulateResult(ok: bool, state: EntryState, links: seq<FidEntry>, requests: seq<(nat, nat)>)

  /** The situations in which `populate` dereferences the File Entry buffer
      have one: an initialized directory with no children must still hold
      its buffer. The source reads through a null buffer otherwise. */
  predicate PopulateSafe(s: EntryState, populated: bool)
  {
    s.isDirectory && s.isInitialized && !populated ==> s.feBuffer.Some?
  }

  /** `populate`: refuse a file; initialize; stop if already populated;
      otherwise read the extent named by the allocation descriptor, scan it,
      append the valid links, and drop the File Entry buffer after a
      complete scan. `populated` says whether the entry already has
      children. */
  function PopulateStep(device: Device, partitionSector: Uint32, ad: LongAd, s: EntryState, populated: bool): (r: PopulateResult)
    requires PopulateSafe(s, populated)
    ensures !s.isDirectory ==> r == PopulateResult(false, s, [], [])
    ensures r.state.isDirectory == s.isDirectory
    ensures populated ==> r.links == []
    ensures forall i :: 0 <= i < |r.links| ==> IsValid(r.links[i])
  {
    if !s.isDirectory then PopulateResult(false, s, [], [])
    else
      var i := InitializeStep(device, partitionSector, ad, s);
      if !i.ok then PopulateResult(false, i.state, [], i.requests)
      else if populated then PopulateResult(true, i.state, [], i.requests)
      else
        var c := ReadChildrenStep(device, partitionSector, i.state);
        PopulateResult(c.ok, c.state, c.links, i.requests + c.requests)
  }

  /** The part of `populate` that reads the children of an initialized
      directory: the extent named by the allocation descriptor in its buffer
      is read and scanned, the valid links are kept, and a complete scan
      drops the buffer. */
  function ReadChildrenStep(device: Device, partitionSector: Uint32, s: EntryState): (r: PopulateResult)
    requires s.feBuffer.Some?
    ensures r.state.isDirectory == s.isDirectory && r.state.isInitialized == s.isInitialized
    ensures r.state == s || r.state == s.(feBuffer := None)
    ensures forall i :: 0 <= i < |r.links| ==> IsValid(r.links[i])
  {
    match AllocationDescriptor(s.feBuffer.value, s.header.lEa)
    case None => PopulateResult(false, s, [], [])
    case Some(fid) =>
      var offset := EntryOffset(partitionSector, fid.extentPosition);
      var requests := [(offset, fid.extentLength)];
      match ReadAt(device, offset, fid.extentLength)
      case None => PopulateResult(false, s, [], requests)
      case Some(ext) =>
        var scan := ScanFids(ext);
        PopulateResult(scan.complete, if scan.complete then s.(feBuffer := None) else s,
                       Links(scan.records), requests)
  }

  /** A second `populate` of a directory whose first one found children
      changes nothing and reads nothing: children are decoded once. */
  lemma PopulateOnce(device: Device, partitionSector: Uint32, ad: LongAd, s: EntryState)
    requires PopulateSafe(s, false)
    ensures var r := PopulateStep(device, partitionSector, ad, s, false);
      r.ok && r.links != [] ==>
        PopulateSafe(r.state, true) && PopulateStep(device, partitionSector, ad, r.state, true) == PopulateResult(true, r.state, [], [])
  {
  }

  /** A directory whose records hold no valid link is left initialized,
      childless and without its buffer: a second `populate` then reads
      through the missing buffer. */
  lemma EmptyDirectoryRepopulateUnsafe(device: Device, partitionSector: Uint32, ad: LongAd, s: EntryState)
    requires PopulateSafe(s, false)
    ensures var r := PopulateStep(device, partitionSector, ad, s, false);
      r.ok && r.links == [] ==> !PopulateSafe(r.state, false)
  {
    var r := PopulateStep(device, partitionSector, ad, s, false);
    if r.ok {
      var i := InitializeStep(device, partitionSector, ad, s);
      assert i.ok && i.state.isInitialized;
    }
  }

  /** A successful `populate` of a directory on a healthy image links exactly
      the valid records of its extent, in order, when the extent is made of
      well-formed records. */
  lemma PopulateLinksRecords(device: Device, image: seq<Uint8>, partitionSector: Uint32, ad: LongAd,
                             s: EntryState, fid: ShortAd, rs: seq<FidRecord>)
    requires ImageBacked(device, image)
    requires PopulateSafe(s, false) && s.isDirectory
    requires InitializeStep(device, partitionSector, ad, s).ok
    requires var i := InitializeStep(device, partitionSector, ad, s);
      AllocationDescriptor(i.state.feBuffer.value, i.state.header.lEa) == Some(fid)
    requires forall k :: 0 <= k < |rs| ==> WellFormed(rs[k])
    requires var offset := EntryOffset(partitionSector, fid.extentPosition);
      offset + fid.extentLength <= |image| && image[offset..offset + fid.extentLength] == EncodeFids(rs)
    ensures var r := PopulateStep(device, partitionSector, ad, s, false);
      r.ok && r.links == Links(LinksOfRecords(rs)) && r.state.feBuffer.None?
  {
    var i := InitializeStep(device, partitionSector, ad, s);
    assert i.state.feBuffer.Some?;
    ScanEncoded(rs);
    ReadChildrenOnImage(device, image, partitionSector, i.state, fid, EncodeFids(rs), LinksOfRecords(rs));
    var c := ReadChildrenStep(device, partitionSector, i.state);
    assert PopulateStep(device, partitionSector, ad, s, false) == PopulateResult(c.ok, c.state, c.links, i.requests + c.requests);
  }

  /** A directory whose extent holds well-formed records followed by a
      record without the File Identifier tag fails to populate, yet keeps
      the links decoded before that record and its File Entry buffer. When
      some link was kept, the next `populate` takes the directory for
      populated and succeeds on the truncated listing without reading. */
  lemma PopulateStopsAtForeignTag(device: Device, image: seq<Uint8>, partitionSector: Uint32, ad: LongAd,
                                  s: EntryState, fid: ShortAd, rs: seq<FidRecord>, rest: seq<Uint8>)
    requires ImageBacked(device, image)
    requires PopulateSafe(s, false) && s.isDirectory
    requires InitializeStep(device, partitionSector, ad, s).ok
    requires var i := InitializeStep(device, partitionSector, ad, s);
      AllocationDescriptor(i.state.feBuffer.value, i.state.header.lEa) == Some(fid)
    requires forall k :: 0 <= k < |rs| ==> WellFormed(rs[k])
    requires rest != [] && !FidTagged(rest)
    requires var offset := EntryOffset(partitionSector, fid.extentPosition);
      offset + fid.extentLength <= |image| && image[offset..offset + fid.extentLength] == EncodeFids(rs) + rest
    ensures var r := PopulateStep(device, partitionSector, ad, s, false);
      && !r.ok && r.links == Links(LinksOfRecords(rs))
      && r.state == InitializeStep(device, partitionSector, ad, s).state && r.state.feBuffer.Some?
      && (r.links != [] ==> PopulateStep(device, partitionSector, ad, r.state, true) == PopulateResult(true, r.state, [], []))
  {
    var i := InitializeStep(device, partitionSector, ad, s);
    assert i.state.feBuffer.Some?;
    ScanStopsAtForeignTag(rs, rest);
    ReadChildrenStopsOnImage(device, image, partitionSector, i.state, fid, EncodeFids(rs) + rest, LinksOfRecords(rs));
    var c := ReadChildrenStep(device, partitionSector, i.state);
    assert PopulateStep(device, partitionSector, ad, s, false) == PopulateResult(c.ok, c.state, c.links, i.requests + c.requests);
  }

  /** On a healthy image, reading the children of a loaded directory whose
      extent scan stops early fails, keeps the valid records scanned before
      the stop and keeps the File Entry buffer. */
  lemma ReadChildrenStopsOnImage(device: Device, image: seq<Uint8>, partitionSector: Uint32,
                                 s: EntryState, fid: ShortAd, ext: seq<Uint8>, records: seq<FidEntry>)
    requires ImageBacked(device, image)
    requires s.feBuffer.Some? && AllocationDescriptor(s.feBuffer.value, s.header.lEa) == Some(fid)
    requires var offset := EntryOffset(partitionSector, fid.extentPosition);
      offset + fid.extentLength <= |image| && image[offset..offset + fid.extentLength] == ext
    requires ScanFids(ext) == FidScan(records, false)
    ensures var c := ReadChildrenStep(device, partitionSector, s);
      !c.ok && c.links == Links(records) && c.state == s
  {
    ImageRead(device, image, EntryOffset(partitionSector, fid.extentPosition), fid.extentLength);
  }

  /** On a healthy image, reading the children of a loaded directory whose
      extent scans to the end succeeds, links exactly the valid records of
      the scan in order, and drops the File Entry buffer. */
  lemma ReadChildrenOnImage(device: Device, image: seq<Uint8>, partitionSector: Uint32,
                            s: EntryState, fid: ShortAd, ext: seq<Uint8>, records: seq<FidEntry>)
    requires ImageBacked(device, image)
    requires s.feBuffer.Some? && AllocationDescriptor(s.feBuffer.value, s.header.lEa) == Some(fid)
    requires var offset := EntryOffset(partitionSector, fid.extentPosition);
      offset + fid.extentLength <= |image| && image[offset..offset + fid.extentLength] == ext
    requires ScanFids(ext) == FidScan(records, true)
    ensures var c := ReadChildrenStep(device, partitionSector, s);
      c.ok && c.links == Links(records) && c.state == s.(feBuffer := None)
  {
    ImageRead(device, image, EntryOffset(partitionSector, fid.extentPosition), fid.extentLength);
  }

  // ================================================================ lookup

  /** The index of the first link whose name is `name`. */
  function FirstMatch(links: seq<FidEntry>, name: CString): (r: Option<nat>)
    ensures r.Some? ==> r.value < |links| && MatchName(links[r.value], name)
    ensures r.Some? ==> forall j :: 0 <= j < r.value ==> !MatchName(links[j], name)
    ensures r.None? ==> forall j :: 0 <= j < |links| ==> !MatchName(links[j], name)
  {
    if links == [] then None
    else if MatchName(links[0], name) then Some(0)
    else match FirstMatch(links[1..], name)
      case None => None
      case Some(k) => Some(k + 1)
  }

  // ================================================================ size text

  /** `getFileSizeAsString`'s scaling: bytes up to 5000, then kilobytes,
      then megabytes, each step a truncating division by 1024. */
  function ScaledSize(size: nat): (nat, string)
  {
    var (n, unit) := if size > 5000 then (size / 1024, "KB") else (size, "B");
    if n > 5000 then (n / 1024, "MB") else (n, unit)
  }

  lemma ScaledSizeUnits(size: Uint32)
    ensures ScaledSize(size).1 == "B" <==> size <= 5000
    ensures ScaledSize(size).1 == "KB" <==> 5000 < size && size / 1024 <= 5000
    ensures ScaledSize(size).1 == "MB" <==> size / 1024 > 5000
    ensures ScaledSize(size).1 == "B" ==> ScaledSize(size).0 == size
    ensures ScaledSize(size).1 == "KB" ==> ScaledSize(size).0 == size / 1024
    ensures ScaledSize(size).1 == "MB" ==> ScaledSize(size).0 == size / 1024 / 1024
    ensures ScaledSize(size).0 <= 5000
  {
    assert "KB" != "B" && "MB" != "B" && "MB" != "KB";
    if size / 1024 > 5000 {
      assert size / 1024 / 1024 < 4096;
    }
  }

  function Digit(d: nat): (c: char)
    requires d < 10
    ensures '0' <= c <= '9'
  {
    "0123456789"[d]
  }

  /** The decimal text `operator<<` prints for an unsigned number. */
  function DecimalString(n: nat): (r: string)
    ensures |r| >= 1
    ensures forall i :: 0 <= i < |r| ==> '0' <= r[i] <= '9'
    ensures n > 0 ==> r[0] != '0'
  {
    if n < 10 then [Digit(n)] else DecimalString(n / 10) + [Digit(n % 10)]
  }

  /** The number a string of decimal digits denotes. */
  function DecimalValue(s: string): nat
    requires forall i :: 0 <= i < |s| ==> '0' <= s[i] <= '9'
  {
    if s == [] then 0 else 10 * DecimalValue(s[..|s| - 1]) + (s[|s| - 1] as int - '0' as int)
  }

  /** The printed digits read back as the number. */
  lemma {:induction false} DecimalRoundTrip(n: nat)
    ensures DecimalValue(DecimalString(n)) == n
  {
    var r := DecimalString(n);
    if n < 10 {
      assert r[..0] == [];
      assert "0123456789"[n] as int - '0' as int == n;
    } else {
      DecimalRoundTrip(n / 10);
      assert r[..|r| - 1] == DecimalString(n / 10);
      assert "0123456789"[n % 10] as int - '0' as int == n % 10;
    }
  }

  function SizeString(size: Uint32): string
  {
    var (n, unit) := ScaledSize(size);
    DecimalString(n) + unit
  }

  datatype TextResult = TextResult(text: string, state: EntryState, requests: seq<(nat, nat)>)

  /** `getFileSizeAsString`: "unknown" when the entry cannot be initialized
      or its data extent cannot be found, "<dir>" for a directory, otherwise
      the scaled extent length with its unit; the File Entry buffer is
      dropped once the length is known. */
  function FileSizeStep(device: Device, partitionSector: Uint32, ad: LongAd, s: EntryState): (r: TextResult)
  {
    var i := InitializeStep(device, partitionSector, ad, s);
    if !i.ok then TextResult("unknown", i.state, i.requests)
    else if i.state.isDirectory then TextResult("<dir>", i.state, i.requests)
    else
      var l := LoadBufferStep(device, partitionSector, ad, i.state);
      if !l.ok then TextResult("unknown", l.state, i.requests + l.requests)
      else match AllocationDescriptor(l.state.feBuffer.value, l.state.header.lEa)
        case None => TextResult("unknown", l.state, i.requests + l.requests)
        case Some(file) => TextResult(SizeString(file.extentLength), l.state.(feBuffer := None), i.requests + l.requests)
  }

  /** The size text is "<dir>" exactly for an initialized directory, and
      otherwise either "unknown" or digits followed by the unit the scaling
      rule picks for the file's extent length. */
  lemma FileSizeText(device: Device, partitionSector: Uint32, ad: LongAd, s: EntryState)
    ensures var r := FileSizeStep(device, partitionSector, ad, s);
      var i := InitializeStep(device, partitionSector, ad, s);
      && (r.text == "<dir>" <==> i.ok && s.isDirectory)
      && (!i.ok ==> r.text == "unknown")
      && (r.text != "<dir>" && r.text != "unknown" ==>
            && i.ok && !s.isDirectory
            && var l := LoadBufferStep(device, partitionSector, ad, i.state);
               && l.ok && AllocationDescriptor(l.state.feBuffer.value, l.state.header.lEa).Some?
               && r.text == SizeString(AllocationDescriptor(l.state.feBuffer.value, l.state.header.lEa).value.extentLength))
      && (r.text != "<dir>" && r.text != "unknown" ==>
            exists size: Uint32 :: r.text == DecimalString(ScaledSize(size).0) + ScaledSize(size).1)
  {
    var r := FileSizeStep(device, partitionSector, ad, s);
    var i := InitializeStep(device, partitionSector, ad, s);
    assert "unknown" != "<dir>";
    if i.ok && !s.isDirectory {
      var l := LoadBufferStep(device, partitionSector, ad, i.state);
      if l.ok {
        var a := AllocationDescriptor(l.state.feBuffer.value, l.state.header.lEa);
        if a.Some? {
          var size := a.value.extentLength;
          var t := SizeString(size);
          assert t == DecimalString(ScaledSize(size).0) + ScaledSize(size).1;
          assert t[0] != '<' by { assert '0' <= t[0] <= '9'; }
        }
      }
    }
  }

  // ================================================================ copy

  /** DEFAULT_COPY_SIZE: the chunk length of the copy loop. */
  const DEFAULT_COPY_SIZE: nat := 2048

  function Min(a: nat, b: nat): nat
  {
    if a <= b then a else b
  }

  /** The chunks (offset within the extent, length) of the copy loop from
      `from` on: each as long as DEFAULT_COPY_SIZE or the rest of the extent,
      whichever is smaller. */
  function CopyPlan(length: nat, from: nat): seq<(nat, nat)>
    decreases length - from
  {
    if from >= length then []
    else
      var n := Min(DEFAULT_COPY_SIZE, length - from);
      [(from, n)] + CopyPlan(length, from + n)
  }

  function ChunkSum(plan: seq<(nat, nat)>): nat
  {
    if plan == [] then 0 else plan[0].1 + ChunkSum(plan[1..])
  }

  /** The chunk lengths add up to the rest of the extent. */
  lemma {:induction false} CopyPlanSum(length: nat, from: nat)
    requires from <= length
    ensures ChunkSum(CopyPlan(length, from)) == length - from
    decreases length - from
  {
    if from < length {
      var n := Min(DEFAULT_COPY_SIZE, length - from);
      CopyPlanSum(length, from + n);
      assert CopyPlan(length, from)[1..] == CopyPlan(length, from + n);
    }
  }

  /** A chunk of the copy from `from` on: inside the extent, not empty, and
      as long as DEFAULT_COPY_SIZE or the rest of the extent, whichever is
      smaller. */
  predicate ChunkOk(length: nat, from: nat, c: (nat, nat))
  {
    && from <= c.0 && c.0 + c.1 <= length
    && 0 < c.1 <= DEFAULT_COPY_SIZE
    && c.1 == Min(DEFAULT_COPY_SIZE, length - c.0)
  }

  lemma {:induction false} CopyPlanChunks(length: nat, from: nat)
    ensures forall c :: c in CopyPlan(length, from) ==> ChunkOk(length, from, c)
    decreases length - from
  {
    if from < length {
      var n := Min(DEFAULT_COPY_SIZE, length - from);
      CopyPlanChunks(length, from + n);
      assert CopyPlan(length, from) == [(from, n)] + CopyPlan(length, from + n);
      forall c | c in CopyPlan(length, from)
        ensures ChunkOk(length, from, c)
      {
        if c != (from, n) {
          assert c in CopyPlan(length, from + n);
          assert ChunkOk(length, from + n, c);
        }
      }
    }
  }

  /** The chunks start at `from` and each starts where the previous one
      ended. */
  lemma {:induction false} CopyPlanContiguous(length: nat, from: nat)
    ensures var plan := CopyPlan(length, from);
      && (plan != [] ==> plan[0].0 == from)
      && (forall i :: 0 <= i < |plan| - 1 ==> plan[i + 1].0 == plan[i].0 + plan[i].1)
    decreases length - from
  {
    if from < length {
      var n := Min(DEFAULT_COPY_SIZE, length - from);
      CopyPlanContiguous(length, from + n);
      var plan := CopyPlan(length, from);
      var rest := CopyPlan(length, from + n);
      assert plan == [(from, n)] + rest;
      forall i | 0 <= i < |plan| - 1
        ensures plan[i + 1].0 == plan[i].0 + plan[i].1
      {
        if i > 0 {
          assert plan[i] == rest[i - 1] && plan[i + 1] == rest[i];
        }
      }
    }
  }

  /** The outcome of the copy loop: whether it reached the end, the bytes it
      wrote (up to the failed read) and the requests it issued. */
  datatype CopyResult = CopyResult(ok: bool, written: seq<Uint8>, requests: seq<(nat, nat)>)

  function CopyExtent(device: Device, position: nat, length: nat, from: nat): CopyResult
    decreases length - from
  {
    if from >= length then CopyResult(true, [], [])
    else
      var n := Min(DEFAULT_COPY_SIZE, length - from);
      var request := (position + from, n);
      match ReadAt(device, position + from, n)
      case None => CopyResult(false, [], [request])
      case Some(data) =>
        var rest := CopyExtent(device, position, length, from + n);
        CopyResult(rest.ok, data + rest.written, [request] + rest.requests)
  }

  /** The requests of the copy, one per chunk of the plan, at the file's
      position plus the chunk's offset. */
  function PlanReads(position: nat, plan: seq<(nat, nat)>): (r: seq<(nat, nat)>)
    ensures |r| == |plan|
  {
    if plan == [] then [] else [(position + plan[0].0, plan[0].1)] + PlanReads(position, plan[1..])
  }

  /** On a healthy image that holds the whole extent, the copy succeeds,
      writes exactly the extent's bytes and reads chunk by chunk along the
      plan. */
  lemma {:induction false} CopyFromImage(device: Device, image: seq<Uint8>, position: nat, length: nat, from: nat)
    requires ImageBacked(device, image) && position + length <= |image| && from <= length
    ensures var c := CopyExtent(device, position, length, from);
      && c.ok
      && c.written == image[position + from..position + length]
      && c.requests == PlanReads(position, CopyPlan(length, from))
    decreases length - from
  {
    if from < length {
      var n := Min(DEFAULT_COPY_SIZE, length - from);
      ImageRead(device, image, position + from, n);
      CopyFromImage(device, image, position, length, from + n);
      assert image[position + from..position + length]
          == image[position + from..position + from + n] + image[position + from + n..position + length];
    }
  }

  /** Every copy, successful or not, issues a prefix of the plan's requests,
      all of them when it succeeds. */
  lemma {:induction false} CopyFollowsPlan(device: Device, position: nat, length: nat, from: nat)
    ensures var c := CopyExtent(device, position, length, from);
      var planned := PlanReads(position, CopyPlan(length, from));
      && |c.requests| <= |planned| && c.requests == planned[..|c.requests|]
      && (c.ok ==> c.requests == planned)
    decreases length - from
  {
    if from < length {
      CopyFollowsPlan(device, position, length, from + Min(DEFAULT_COPY_SIZE, length - from));
    }
  }

  // ================================================================ destination path

  /** The destination of a copy: the directory, a '/' unless it already ends
      in one, then the name. */
  function JoinPath(dir: string, name: string): (r: string)
    requires |dir| > 0
  {
    if dir[|dir| - 1] != '/' then dir + "/" + name else dir + name
  }

  lemma JoinPathShape(dir: string, name: string)
    requires |dir| > 0
    ensures var r := JoinPath(dir, name);
      && r[..|dir|] == dir
      && r[|r| - |name|..] == name
      && r[|r| - |name| - 1] == '/'
      && |r| == |dir| + |name| + (if dir[|dir| - 1] == '/' then 0 else 1)
  {
  }

  /** The outcome of `writeDataToFile`: whether the copy completed, the
      destination path it opened (none when it stopped before), the bytes
      written there, the new state and the requests issued. `openSucceeded` is the
      outcome of opening that path. */
  datatype WriteResult = WriteResult(
    ok: bool, destination: Option<string>, written: seq<Uint8>, state: EntryState, requests: seq<(nat, nat)>)

  function WriteStep(device: Device, partitionSector: Uint32, ad: LongAd, s: EntryState,
                     name: string, destDir: string, openSucceeded: bool): (r: WriteResult)
    requires s.isDirectory || |destDir| > 0 || !InitializeStep(device, partitionSector, ad, s).ok
    ensures s.isDirectory ==> !r.ok && r.state == s && r.requests == []
    ensures !s.isDirectory && !InitializeStep(device, partitionSector, ad, s).ok ==>
      !r.ok && r.destination.None? && r.written == []
  {
    if s.isDirectory then WriteResult(false, None, [], s, [])
    else
      var i := InitializeStep(device, partitionSector, ad, s);
      if !i.ok then WriteResult(false, None, [], i.state, i.requests)
      else
        var destination := JoinPath(destDir, name);
        if !openSucceeded then WriteResult(false, Some(destination), [], i.state, i.requests)
        else
          var l := LoadBufferStep(device, partitionSector, ad, i.state);
          if !l.ok then WriteResult(false, Some(destination), [], l.state, i.requests + l.requests)
          else match AllocationDescriptor(l.state.feBuffer.value, l.state.header.lEa)
            case None => WriteResult(false, Some(destination), [], l.state, i.requests + l.requests)
            case Some(file) =>
              var c := CopyExtent(device, EntryOffset(partitionSector, file.extentPosition), file.extentLength, 0);
              WriteResult(c.ok, Some(destination), c.written, l.state, i.requests + l.requests + c.requests)
  }
}
