/** What the four stages of `FileSystem::load` (fs.cpp) compute, as functions
    of the device: the recognition scan, the anchor's choice of Volume
    Descriptor Sequence extent, the sector scan of that sequence, and the
    File Set Descriptor / root File Entry step. The methods of class
    `FileSystem` are proved to compute exactly these; the lemmas here state
    what the stages promise. */
module Bootstrap {
  import opened Wrappers
  import opened LittleEndian
  import opened UdfTypes
  import opened Udf
  import opened Streams

  // ================================================================ stage 1: VRS

  /** The last sector at which a recognition triplet is read: the triplet at
      this sector ends just before the anchor sector. */
  const VRS_LAST_SECTOR: nat := AVDP_SECTOR - 3

  /** The triplet at `sector` can be read and is a valid sequence. */
  predicate VrsMatchAt(device: Device, sector: nat)
  {
    var r := ReadAt(device, Offset(sector), VRS_SIZE);
    r.Some? && VrsIsValidSequence(r.value)
  }

  /** The triplet at `sector` can be read but is not a valid sequence. */
  predicate VrsMissAt(device: Device, sector: nat)
  {
    var r := ReadAt(device, Offset(sector), VRS_SIZE);
    r.Some? && !VrsIsValidSequence(r.value)
  }

  /** The recognition scan from `sector` on: stop with success at the first
      valid triplet, stop with failure at the first failed read or after
      VRS_LAST_SECTOR. */
  function VrsScan(device: Device, sector: nat): bool
    decreases VRS_LAST_SECTOR + 1 - sector
  {
    if sector > VRS_LAST_SECTOR then false
    else VrsMatchAt(device, sector) || (VrsMissAt(device, sector) && VrsScan(device, sector + 1))
  }

  /** How many triplets the recognition scan from `sector` reads: one per
      sector, until a read fails, a triplet is valid or the window ends. */
  function VrsCount(device: Device, sector: nat): nat
    decreases VRS_LAST_SECTOR + 1 - sector
  {
    if sector > VRS_LAST_SECTOR then 0
    else 1 + (if VrsMissAt(device, sector) then VrsCount(device, sector + 1) else 0)
  }

  /** `count` triplet requests for consecutive sectors from `sector`. */
  function TripletRequests(sector: nat, count: nat): (r: seq<(nat, nat)>)
    ensures |r| == count
  {
    seq(count, i requires 0 <= i < count => (Offset(sector + i), VRS_SIZE))
  }

  /** The requests the recognition scan from `sector` issues. */
  function VrsReads(device: Device, sector: nat): seq<(nat, nat)>
  {
    TripletRequests(sector, VrsCount(device, sector))
  }

  /** The scan succeeds exactly when some sector of the window holds a valid
      triplet and every sector before it was read and held none. */
  lemma {:induction false} VrsScanIff(device: Device, from: nat)
    ensures VrsScan(device, from) <==>
      exists s :: from <= s <= VRS_LAST_SECTOR && VrsMatchAt(device, s)
        && forall t :: from <= t < s ==> VrsMissAt(device, t)
    decreases VRS_LAST_SECTOR + 1 - from
  {
    if from > VRS_LAST_SECTOR {
    } else if VrsMatchAt(device, from) {
      assert from <= from <= VRS_LAST_SECTOR && VrsMatchAt(device, from);
    } else if VrsMissAt(device, from) {
      VrsScanIff(device, from + 1);
      if VrsScan(device, from + 1) {
        var s :| from + 1 <= s <= VRS_LAST_SECTOR && VrsMatchAt(device, s)
          && forall t :: from + 1 <= t < s ==> VrsMissAt(device, t);
        assert forall t :: from <= t < s ==> VrsMissAt(device, t);
      } else {
        forall s | from <= s <= VRS_LAST_SECTOR && VrsMatchAt(device, s)
          ensures !forall t :: from <= t < s ==> VrsMissAt(device, t)
        {
          assert s != from;
          assert !forall t :: from + 1 <= t < s ==> VrsMissAt(device, t);
        }
      }
    } else {
      forall s | from <= s <= VRS_LAST_SECTOR && VrsMatchAt(device, s)
        ensures !forall t :: from <= t < s ==> VrsMissAt(device, t)
      {
        assert s != from;
        assert !VrsMissAt(device, from);
      }
    }
  }

  /** The scan reads one triplet per sector, consecutively from `from`, and
      never at a sector past VRS_LAST_SECTOR, so never the anchor. */
  lemma VrsReadsInWindow(device: Device, from: nat)
    ensures forall i :: 0 <= i < |VrsReads(device, from)| ==>
      VrsReads(device, from)[i] == (Offset(from + i), VRS_SIZE) && from + i <= VRS_LAST_SECTOR
  {
    VrsCountInWindow(device, from);
    var r := VrsReads(device, from);
    forall i | 0 <= i < |r| ensures r[i] == (Offset(from + i), VRS_SIZE) && from + i <= VRS_LAST_SECTOR {
    }
  }

  /** The sectors the scan reads end at VRS_LAST_SECTOR at the latest. */
  lemma {:induction false} VrsCountInWindow(device: Device, from: nat)
    ensures VrsCount(device, from) > 0 ==> from + VrsCount(device, from) <= VRS_LAST_SECTOR + 1
    decreases VRS_LAST_SECTOR + 1 - from
  {
    if from <= VRS_LAST_SECTOR && VrsMissAt(device, from) {
      VrsCountInWindow(device, from + 1);
    }
  }

  // ================================================================ stage 2: AVDP

  /** An extent the anchor stage accepts: non-zero length and non-zero sector. */
  predicate ExtentUsable(e: ExtentAd)
  {
    e.length != 0 && e.location != 0
  }

  /** The anchor's choice of Volume Descriptor Sequence: the main extent when
      usable, otherwise the reserve extent when usable, otherwise none. */
  function SelectVds(a: AnchorVolumeDescriptorPointer): (r: Option<ExtentAd>)
    ensures r.Some? ==> ExtentUsable(r.value) && (r.value == a.mainVds || r.value == a.reserveVds)
    ensures ExtentUsable(a.mainVds) ==> r == Some(a.mainVds)
    ensures r.None? ==> !ExtentUsable(a.mainVds) && !ExtentUsable(a.reserveVds)
  {
    if ExtentUsable(a.mainVds) then Some(a.mainVds)
    else if ExtentUsable(a.reserveVds) then Some(a.reserveVds)
    else None
  }

  /** Stage 2 as a whole: read the anchor at AVDP_OFFSET and choose. */
  function AnchorSelection(device: Device): Option<ExtentAd>
  {
    match ReadAt(device, AVDP_OFFSET, AVDP_SIZE)
    case None => None
    case Some(b) => SelectVds(DecodeAvdp(b))
  }

  /** An anchor whose main extent is zero and whose reserve extent is usable
      makes the reader use the reserve extent. */
  lemma CraftedAnchorSelectsReserve(device: Device, t: Tag, reserve: ExtentAd)
    requires ReadAt(device, AVDP_OFFSET, AVDP_SIZE)
             == Some(EncodeAvdp(AnchorVolumeDescriptorPointer(t, ExtentAd(0, 0), reserve)))
    requires ExtentUsable(reserve)
    ensures AnchorSelection(device) == Some(reserve)
  {
    var b := ReadAt(device, AVDP_OFFSET, AVDP_SIZE).value;
    AvdpRoundTrip(AnchorVolumeDescriptorPointer(t, ExtentAd(0, 0), reserve), b);
  }

  // ================================================================ stage 3: VDS

  /** `vds_sector + (vds_length - 1) / SECTOR_SIZE` with C's division, which
      truncates toward zero, so that a zero length gives the start sector. */
  function VdsEndSector(sector: nat, length: nat): nat
  {
    sector + (if length == 0 then 0 else (length - 1) / SECTOR_SIZE)
  }

  /** The tag identifier peeked at a sector, if the 16-byte read succeeds:
      the first field of the descriptor tag, `DecodeTag(t, 0).tagIdentifier`. */
  function TagIdAt(device: Device, sector: nat): Option<Uint16>
  {
    match ReadAt(device, Offset(sector), TAG_SIZE)
    case None => None
    case Some(t) => Some(U16At(t, 0))
  }

  /** The bytes of a whole Partition Descriptor, or Logical Volume Descriptor. */
  type PdBytes = b: seq<Uint8> | |b| == PD_SIZE witness Zeros(PD_SIZE)
  type LvdBytes = b: seq<Uint8> | |b| == LVD_SIZE witness Zeros(LVD_SIZE)

  /** The last Partition and Logical Volume Descriptor read so far, as the
      bytes read; the members hold them decoded. */
  datatype VdsFound = VdsFound(pd: Option<PdBytes>, lvd: Option<LvdBytes>)

  /** The Partition Descriptor member after a scan that found `found`: the
      last one read, or the one it held before, `pd0`, when none was read. */
  function KeptPd(found: VdsFound, pd0: Option<PartitionDescriptor>): (r: Option<PartitionDescriptor>)
    ensures r.Some? <==> found.pd.Some? || pd0.Some?
  {
    match found.pd
    case None => pd0
    case Some(b) => Some(DecodePd(b))
  }

  /** The same for the Logical Volume Descriptor member. */
  function KeptLvd(found: VdsFound, lvd0: Option<LogicalVolumeDescriptor>): (r: Option<LogicalVolumeDescriptor>)
    ensures r.Some? <==> found.lvd.Some? || lvd0.Some?
  {
    match found.lvd
    case None => lvd0
    case Some(b) => Some(DecodeLvd(b))
  }

  /** Where the scan stands when it stops: whether it ran to the end sector,
      and what it had found by then. */
  datatype VdsOutcome = VdsOutcome(completed: bool, found: VdsFound)

  /** What one sector does to the descriptors found so far: a Partition
      Descriptor tag makes the scan read and keep a Partition Descriptor, a
      Logical Volume Descriptor tag a Logical Volume Descriptor, any other tag
      nothing. None when one of the reads fails. */
  function VdsStep(device: Device, sector: nat, found: VdsFound): Option<VdsFound>
  {
    match TagIdAt(device, sector)
    case None => None
    case Some(id) =>
      if id == VDS_PD_TAG_IDENTIFIER then
        match ReadAt(device, Offset(sector), PD_SIZE)
        case None => None
        case Some(b) => Some(found.(pd := Some(b)))
      else if id == VDS_LVD_TAG_IDENTIFIER then
        match ReadAt(device, Offset(sector), LVD_SIZE)
        case None => None
        case Some(b) => Some(found.(lvd := Some(b)))
      else Some(found)
  }

  /** The sector scan from `sector` up to, not including, `end`. */
  function VdsScan(device: Device, sector: nat, end: nat, found: VdsFound): VdsOutcome
    requires sector <= end
    decreases end - sector
  {
    if sector == end then VdsOutcome(true, found)
    else match VdsStep(device, sector, found)
      case None => VdsOutcome(false, found)
      case Some(f) => VdsScan(device, sector + 1, end, f)
  }

  /** Every read the scan needs at `sector` succeeds. */
  predicate VdsSectorReadable(device: Device, sector: nat)
  {
    var id := TagIdAt(device, sector);
    && id.Some?
    && (id.value == VDS_PD_TAG_IDENTIFIER ==> ReadAt(device, Offset(sector), PD_SIZE).Some?)
    && (id.value == VDS_LVD_TAG_IDENTIFIER ==> ReadAt(device, Offset(sector), LVD_SIZE).Some?)
  }

  /** The requests the scan issues at one sector: the tag, then the
      descriptor the tag announces. */
  function VdsSectorReads(device: Device, sector: nat): seq<(nat, nat)>
  {
    [(Offset(sector), TAG_SIZE)] +
      match TagIdAt(device, sector)
      case None => []
      case Some(id) =>
        if id == VDS_PD_TAG_IDENTIFIER then [(Offset(sector), PD_SIZE)]
        else if id == VDS_LVD_TAG_IDENTIFIER then [(Offset(sector), LVD_SIZE)]
        else []
  }

  /** The requests the whole scan issues. */
  function VdsReads(device: Device, sector: nat, end: nat): seq<(nat, nat)>
    requires sector <= end
    decreases end - sector
  {
    if sector == end then []
    else
      VdsSectorReads(device, sector)
        + (if VdsSectorReadable(device, sector) then VdsReads(device, sector + 1, end) else [])
  }

  /** The requests of the sector scan over the sectors `sector` up to, not
      including, `upto`, when none of them fails. */
  function VdsReadsBetween(device: Device, sector: nat, upto: nat): seq<(nat, nat)>
    requires sector <= upto
    decreases upto - sector
  {
    if upto == sector then [] else VdsReadsBetween(device, sector, upto - 1) + VdsSectorReads(device, upto - 1)
  }

  lemma {:induction false} VdsReadsBetweenCons(device: Device, sector: nat, upto: nat)
    requires sector < upto
    ensures VdsReadsBetween(device, sector, upto)
            == VdsSectorReads(device, sector) + VdsReadsBetween(device, sector + 1, upto)
    decreases upto - sector
  {
    if upto > sector + 1 {
      VdsReadsBetweenCons(device, sector, upto - 1);
    }
  }

  lemma AppendAssoc<T>(a: seq<T>, b: seq<T>, c: seq<T>)
    ensures a + (b + c) == (a + b) + c
  {
  }

  /** Over a run of readable sectors the scan's requests are those of the
      run followed by those of the rest of the scan. */
  lemma {:induction false} VdsReadsSplit(device: Device, sector: nat, upto: nat, end: nat)
    requires sector <= upto <= end
    requires forall t :: sector <= t < upto ==> VdsSectorReadable(device, t)
    ensures VdsReads(device, sector, end) == VdsReadsBetween(device, sector, upto) + VdsReads(device, upto, end)
    decreases upto - sector
  {
    if sector < upto {
      VdsReadsSplit(device, sector + 1, upto, end);
      VdsReadsBetweenCons(device, sector, upto);
      assert VdsReads(device, sector, end) == VdsSectorReads(device, sector) + VdsReads(device, sector + 1, end);
      AppendAssoc(VdsSectorReads(device, sector), VdsReadsBetween(device, sector + 1, upto), VdsReads(device, upto, end));
    }
  }

  /** Stage 3 succeeds: the scan ran to its end and found both descriptors. */
  predicate VdsSucceeded(o: VdsOutcome)
  {
    o.completed && o.found.pd.Some? && o.found.lvd.Some?
  }

  /** The step fails exactly at the sectors that are not readable, whatever
      was found before. */
  lemma VdsStepDefined(device: Device, sector: nat, found: VdsFound)
    ensures VdsStep(device, sector, found).Some? <==> VdsSectorReadable(device, sector)
  {
  }

  /** A sequence of at most one sector scans no sector at all, reads nothing,
      and so finds neither descriptor. */
  lemma VdsShortSequenceScansNothing(device: Device, sector: nat, length: nat)
    requires length <= SECTOR_SIZE
    ensures VdsEndSector(sector, length) == sector
    ensures VdsReads(device, sector, VdsEndSector(sector, length)) == []
    ensures !VdsSucceeded(VdsScan(device, sector, VdsEndSector(sector, length), VdsFound(None, None)))
  {
  }

  /** The scan runs to its end exactly when every sector of the window is
      readable. */
  lemma {:induction false} VdsCompletedIff(device: Device, sector: nat, end: nat, found: VdsFound)
    requires sector <= end
    ensures VdsScan(device, sector, end, found).completed
            <==> forall k :: sector <= k < end ==> VdsSectorReadable(device, k)
    decreases end - sector
  {
    if sector < end {
      VdsStepDefined(device, sector, found);
      if VdsSectorReadable(device, sector) {
        VdsCompletedIff(device, sector + 1, end, VdsStep(device, sector, found).value);
      }
    }
  }

  /** Every request of the scan is at the start of a sector of the window, and
      the scan reads the tag of every sector of the window when it runs to
      its end. */
  lemma {:induction false} VdsReadsInWindow(device: Device, sector: nat, end: nat)
    requires sector <= end
    ensures forall i :: 0 <= i < |VdsReads(device, sector, end)| ==>
      exists k :: sector <= k < end && VdsReads(device, sector, end)[i].0 == Offset(k)
    ensures (forall k :: sector <= k < end ==> VdsSectorReadable(device, k)) ==>
      forall k :: sector <= k < end ==> (Offset(k), TAG_SIZE) in VdsReads(device, sector, end)
    decreases end - sector
  {
    if sector < end {
      VdsReadsInWindow(device, sector + 1, end);
      var here := VdsSectorReads(device, sector);
      var rest := VdsReads(device, sector + 1, end);
      var r := VdsReads(device, sector, end);
      assert forall i :: 0 <= i < |here| ==> here[i].0 == Offset(sector);
      assert r == here + (if VdsSectorReadable(device, sector) then rest else []);
      forall i | 0 <= i < |VdsReads(device, sector, end)|
        ensures exists k :: sector <= k < end && VdsReads(device, sector, end)[i].0 == Offset(k)
      {
        if i < |here| {
          assert r[i] == here[i];
          assert sector <= sector < end && r[i].0 == Offset(sector);
        } else {
          assert r[i] == rest[i - |here|];
          var k :| sector + 1 <= k < end && rest[i - |here|].0 == Offset(k);
          assert sector <= k < end && r[i].0 == Offset(k);
        }
      }
      if forall k :: sector <= k < end ==> VdsSectorReadable(device, k) {
        assert r == here + rest;
        forall k | sector <= k < end ensures (Offset(k), TAG_SIZE) in r {
          if k == sector {
            assert r[0] == (Offset(sector), TAG_SIZE);
          } else {
            assert (Offset(k), TAG_SIZE) in rest;
          }
        }
      }
    } else {
      assert VdsReads(device, sector, end) == [];
    }
  }

  /** A scan that meets no Partition Descriptor tag keeps the Partition
      Descriptor it started with, and likewise for Logical Volume Descriptors. */
  lemma {:induction false} VdsUntouched(device: Device, sector: nat, end: nat, found: VdsFound)
    requires sector <= end
    ensures (forall k :: sector <= k < end ==> TagIdAt(device, k) != Some(VDS_PD_TAG_IDENTIFIER))
            ==> VdsScan(device, sector, end, found).found.pd == found.pd
    ensures (forall k :: sector <= k < end ==> TagIdAt(device, k) != Some(VDS_LVD_TAG_IDENTIFIER))
            ==> VdsScan(device, sector, end, found).found.lvd == found.lvd
    decreases end - sector
  {
    if sector < end && VdsStep(device, sector, found).Some? {
      VdsUntouched(device, sector + 1, end, VdsStep(device, sector, found).value);
    }
  }

  /** A later match overwrites an earlier one: once the scan has run to its
      end, its Partition Descriptor is the one read at the last sector of the
      window that carries a Partition Descriptor tag. */
  lemma {:induction false} VdsLastPartitionWins(device: Device, sector: nat, end: nat, found: VdsFound, k: nat)
    requires sector <= k < end
    requires TagIdAt(device, k) == Some(VDS_PD_TAG_IDENTIFIER)
    requires forall k' :: k < k' < end ==> TagIdAt(device, k') != Some(VDS_PD_TAG_IDENTIFIER)
    requires VdsScan(device, sector, end, found).completed
    ensures ReadAt(device, Offset(k), PD_SIZE).Some?
    ensures VdsScan(device, sector, end, found).found.pd == ReadAt(device, Offset(k), PD_SIZE)
    decreases end - sector
  {
    var next := VdsStep(device, sector, found);
    assert next.Some?;
    if sector == k {
      VdsUntouched(device, sector + 1, end, next.value);
    } else {
      VdsLastPartitionWins(device, sector + 1, end, next.value, k);
    }
  }

  /** The same for Logical Volume Descriptors. */
  lemma {:induction false} VdsLastLogicalVolumeWins(device: Device, sector: nat, end: nat, found: VdsFound, k: nat)
    requires sector <= k < end
    requires TagIdAt(device, k) == Some(VDS_LVD_TAG_IDENTIFIER)
    requires forall k' :: k < k' < end ==> TagIdAt(device, k') != Some(VDS_LVD_TAG_IDENTIFIER)
    requires VdsScan(device, sector, end, found).completed
    ensures ReadAt(device, Offset(k), LVD_SIZE).Some?
    ensures VdsScan(device, sector, end, found).found.lvd == ReadAt(device, Offset(k), LVD_SIZE)
    decreases end - sector
  {
    var next := VdsStep(device, sector, found);
    assert next.Some?;
    if sector == k {
      VdsUntouched(device, sector + 1, end, next.value);
    } else {
      VdsLastLogicalVolumeWins(device, sector + 1, end, next.value, k);
    }
  }

  /** A scan that runs to its end holds a Partition Descriptor exactly when it
      started with one or some sector of the window carries its tag; likewise
      for Logical Volume Descriptors. */
  lemma {:induction false} VdsFoundIff(device: Device, sector: nat, end: nat, found: VdsFound)
    requires sector <= end
    requires VdsScan(device, sector, end, found).completed
    ensures VdsScan(device, sector, end, found).found.pd.Some? <==>
      found.pd.Some? || exists k :: sector <= k < end && TagIdAt(device, k) == Some(VDS_PD_TAG_IDENTIFIER)
    ensures VdsScan(device, sector, end, found).found.lvd.Some? <==>
      found.lvd.Some? || exists k :: sector <= k < end && TagIdAt(device, k) == Some(VDS_LVD_TAG_IDENTIFIER)
    decreases end - sector
  {
    if sector < end {
      var next := VdsStep(device, sector, found).value;
      VdsFoundIff(device, sector + 1, end, next);
      assert next.pd.Some? <==> found.pd.Some? || TagIdAt(device, sector) == Some(VDS_PD_TAG_IDENTIFIER);
      assert next.lvd.Some? <==> found.lvd.Some? || TagIdAt(device, sector) == Some(VDS_LVD_TAG_IDENTIFIER);
      if exists k :: sector <= k < end && TagIdAt(device, k) == Some(VDS_PD_TAG_IDENTIFIER) {
        var k :| sector <= k < end && TagIdAt(device, k) == Some(VDS_PD_TAG_IDENTIFIER);
        if k > sector {
          assert sector + 1 <= k < end;
        }
      }
      if exists k :: sector <= k < end && TagIdAt(device, k) == Some(VDS_LVD_TAG_IDENTIFIER) {
        var k :| sector <= k < end && TagIdAt(device, k) == Some(VDS_LVD_TAG_IDENTIFIER);
        if k > sector {
          assert sector + 1 <= k < end;
        }
      }
    }
  }

  /** Stage 3 succeeds exactly when every sector of the window is readable and
      the window holds both a Partition and a Logical Volume Descriptor tag. */
  lemma VdsSuccessIff(device: Device, sector: nat, end: nat)
    requires sector <= end
    ensures VdsSucceeded(VdsScan(device, sector, end, VdsFound(None, None))) <==>
      && (forall k :: sector <= k < end ==> VdsSectorReadable(device, k))
      && (exists k :: sector <= k < end && TagIdAt(device, k) == Some(VDS_PD_TAG_IDENTIFIER))
      && (exists k :: sector <= k < end && TagIdAt(device, k) == Some(VDS_LVD_TAG_IDENTIFIER))
  {
    VdsCompletedIff(device, sector, end, VdsFound(None, None));
    if VdsScan(device, sector, end, VdsFound(None, None)).completed {
      VdsFoundIff(device, sector, end, VdsFound(None, None));
    }
  }

  /** The descriptors the scan keeps carry their tags. */
  predicate FoundTagged(found: VdsFound)
  {
    && (found.pd.Some? ==> DecodePd(found.pd.value).descriptorTag.tagIdentifier == VDS_PD_TAG_IDENTIFIER)
    && (found.lvd.Some? ==> DecodeLvd(found.lvd.value).descriptorTag.tagIdentifier == VDS_LVD_TAG_IDENTIFIER)
  }

  /** On a device that serves one image, the descriptor the scan decodes at a
      sector has the tag identifier the scan peeked there: the 16-byte tag
      read and the full descriptor read start at the same byte. */
  lemma {:induction false} VdsKeepsTaggedDescriptors(device: Device, image: seq<Uint8>, sector: nat, end: nat, found: VdsFound)
    requires ImageBacked(device, image)
    requires sector <= end
    requires FoundTagged(found)
    ensures FoundTagged(VdsScan(device, sector, end, found).found)
    decreases end - sector
  {
    if sector < end {
      var o := Offset(sector);
      ImageRead(device, image, o, TAG_SIZE);
      ImageRead(device, image, o, PD_SIZE);
      ImageRead(device, image, o, LVD_SIZE);
      var next := VdsStep(device, sector, found);
      if next.Some? {
        match TagIdAt(device, sector)
        case Some(id) =>
          var t := ReadAt(device, o, TAG_SIZE).value;
          if id == VDS_PD_TAG_IDENTIFIER {
            var b := ReadAt(device, o, PD_SIZE).value;
            assert t[0] == b[0] && t[1] == b[1];
          } else if id == VDS_LVD_TAG_IDENTIFIER {
            var b := ReadAt(device, o, LVD_SIZE).value;
            assert t[0] == b[0] && t[1] == b[1];
          }
        VdsKeepsTaggedDescriptors(device, image, sector + 1, end, next.value);
      }
    }
  }

  // ================================================================ stage 4: FSD

  /** Where the File Set Descriptor is read: the partition's first sector in
      device sectors, plus the descriptor's logical block in logical blocks. */
  function FsdOffset(partitionSector: nat, lvd: LogicalVolumeDescriptor): nat
  {
    Offset(partitionSector) + lvd.logicalVolumeContentsUse.extentLocation.logicalBlockNumber * lvd.logicalBlockSize
  }

  /** Where the root File Entry is read: partition start and the root ICB's
      logical block added together, then scaled by the logical block size. */
  function RootEntryOffset(partitionSector: nat, lvd: LogicalVolumeDescriptor, fsd: FileSetDescriptor): nat
  {
    (partitionSector + fsd.rootDirectoryIcb.extentLocation.logicalBlockNumber) * lvd.logicalBlockSize
  }

  /** The two address rules agree, that is the root File Entry is found the way
      the File Set Descriptor is, exactly when the partition starts at sector
      zero or logical blocks are device sectors. */
  lemma RootOffsetAgreesWithFsdRule(partitionSector: nat, lvd: LogicalVolumeDescriptor, fsd: FileSetDescriptor)
    ensures RootEntryOffset(partitionSector, lvd, fsd)
            == Offset(partitionSector) + fsd.rootDirectoryIcb.extentLocation.logicalBlockNumber * lvd.logicalBlockSize
            <==> partitionSector == 0 || lvd.logicalBlockSize == SECTOR_SIZE
  {
    var lbn: int := fsd.rootDirectoryIcb.extentLocation.logicalBlockNumber;
    var lbs: int := lvd.logicalBlockSize;
    assert (partitionSector + lbn) * lbs == partitionSector * lbs + lbn * lbs;
    assert partitionSector * lbs == partitionSector * SECTOR_SIZE <==> partitionSector == 0 || lbs == SECTOR_SIZE;
  }

  /** Stage 4's result: whether it succeeded, the File Set Descriptor member
      and the root File Entry buffer after it. */
  datatype FsdOutcome = FsdOutcome(ok: bool, fsd: Option<FileSetDescriptor>, rootFileEntry: Option<seq<Uint8>>)

  /** Stage 4: read the File Set Descriptor, check its tag, read the root File
      Entry (as many bytes as the root ICB's extent length) and check its tag.
      A failed read leaves the member it targets as it was. */
  function FsdStage(device: Device, pd: PartitionDescriptor, lvd: LogicalVolumeDescriptor,
                    fsd0: Option<FileSetDescriptor>, root0: Option<seq<Uint8>>): (r: FsdOutcome)
    ensures r.ok ==> r.fsd.Some? && r.rootFileEntry.Some?
  {
    var ps := pd.partitionStartingLocation;
    match ReadAt(device, FsdOffset(ps, lvd), FSD_STRUCT_SIZE)
    case None => FsdOutcome(false, fsd0, root0)
    case Some(b) =>
      var fsd := DecodeFsd(b);
      if !FsdCheckTag(fsd) then FsdOutcome(false, Some(fsd), root0)
      else
        var root := ReadAt(device, RootEntryOffset(ps, lvd, fsd), fsd.rootDirectoryIcb.extentLength);
        match root
        case None => FsdOutcome(false, Some(fsd), None)
        case Some(fe) => FsdOutcome(FeCheckTag(fe), Some(fsd), root)
  }

  /** The requests stage 4 issues. */
  function FsdReads(device: Device, pd: PartitionDescriptor, lvd: LogicalVolumeDescriptor): seq<(nat, nat)>
  {
    var ps := pd.partitionStartingLocation;
    [(FsdOffset(ps, lvd), FSD_STRUCT_SIZE)] +
      match ReadAt(device, FsdOffset(ps, lvd), FSD_STRUCT_SIZE)
      case None => []
      case Some(b) =>
        var fsd := DecodeFsd(b);
        if !FsdCheckTag(fsd) then []
        else [(RootEntryOffset(ps, lvd, fsd), fsd.rootDirectoryIcb.extentLength)]
  }

  /** Stage 4 succeeds exactly when both reads succeed and both tags check,
      and then the root buffer is the bytes read at the root offset. */
  lemma FsdStageSucceeds(device: Device, pd: PartitionDescriptor, lvd: LogicalVolumeDescriptor,
                         fsd0: Option<FileSetDescriptor>, root0: Option<seq<Uint8>>)
    ensures var o := FsdStage(device, pd, lvd, fsd0, root0);
      var ps := pd.partitionStartingLocation;
      o.ok <==>
        && ReadAt(device, FsdOffset(ps, lvd), FSD_STRUCT_SIZE).Some?
        && o.fsd == Some(DecodeFsd(ReadAt(device, FsdOffset(ps, lvd), FSD_STRUCT_SIZE).value))
        && FsdCheckTag(o.fsd.value)
        && o.rootFileEntry == ReadAt(device, RootEntryOffset(ps, lvd, o.fsd.value), o.fsd.value.rootDirectoryIcb.extentLength)
        && o.rootFileEntry.Some?
        && FeCheckTag(o.rootFileEntry.value)
  {
  }

  // ================================================================ load

  /** The stage at which `load` gives up. */
  datatype Stage = Recognition | Anchor | VolumeSequence | RootDirectory

  /** What a successful `load` has established about the volume. */
  datatype Volume = Volume(vds: ExtentAd, pd: PartitionDescriptor, lvd: LogicalVolumeDescriptor,
                           fsd: FileSetDescriptor, rootFileEntry: seq<Uint8>)

  datatype LoadOutcome = Mounted(volume: Volume) | Failed(stage: Stage)

  /** The four stages in order, each gating the next. */
  function LoadVolume(device: Device): LoadOutcome
  {
    if !VrsScan(device, VRS_SECTOR) then Failed(Recognition)
    else match AnchorSelection(device)
      case None => Failed(Anchor)
      case Some(e) =>
        var v := VdsScan(device, e.location, VdsEndSector(e.location, e.length), VdsFound(None, None));
        if !VdsSucceeded(v) then Failed(VolumeSequence)
        else
          var f := FsdStage(device, DecodePd(v.found.pd.value), DecodeLvd(v.found.lvd.value), None, None);
          if !f.ok then Failed(RootDirectory)
          else Mounted(Volume(e, DecodePd(v.found.pd.value), DecodeLvd(v.found.lvd.value), f.fsd.value, f.rootFileEntry.value))
  }

  /** The requests `load` issues, stage after stage, until one fails. */
  function LoadReads(device: Device): seq<(nat, nat)>
  {
    VrsReads(device, VRS_SECTOR)
      + (if !VrsScan(device, VRS_SECTOR) then [] else [(AVDP_OFFSET, AVDP_SIZE)] + AnchorThenReads(device))
  }

  /** The requests of stages 3 and 4, once the anchor has been read. */
  function AnchorThenReads(device: Device): seq<(nat, nat)>
  {
    match AnchorSelection(device)
    case None => []
    case Some(e) =>
      var end := VdsEndSector(e.location, e.length);
      var v := VdsScan(device, e.location, end, VdsFound(None, None));
      VdsReads(device, e.location, end)
        + (if !VdsSucceeded(v) then [] else FsdReads(device, DecodePd(v.found.pd.value), DecodeLvd(v.found.lvd.value)))
  }

  /** `load` gives up after the recognition scan. */
  lemma LoadStopsAtRecognition(device: Device)
    requires !VrsScan(device, VRS_SECTOR)
    ensures LoadVolume(device) == Failed(Recognition)
    ensures LoadReads(device) == VrsReads(device, VRS_SECTOR)
  {
  }

  /** `load` gives up after reading the anchor. */
  lemma LoadStopsAtAnchor(device: Device, log0: seq<(nat, nat)>)
    requires VrsScan(device, VRS_SECTOR) && AnchorSelection(device).None?
    ensures LoadVolume(device) == Failed(Anchor)
    ensures (log0 + VrsReads(device, VRS_SECTOR)) + [(AVDP_OFFSET, AVDP_SIZE)] == log0 + LoadReads(device)
  {
    assert AnchorThenReads(device) == [];
  }

  /** `load` gives up after the sequence scan. */
  lemma LoadStopsAtVds(device: Device, e: ExtentAd, log0: seq<(nat, nat)>)
    requires VrsScan(device, VRS_SECTOR) && AnchorSelection(device) == Some(e)
    requires var end := VdsEndSector(e.location, e.length);
      !VdsSucceeded(VdsScan(device, e.location, end, VdsFound(None, None)))
    ensures LoadVolume(device) == Failed(VolumeSequence)
    ensures ((log0 + VrsReads(device, VRS_SECTOR)) + [(AVDP_OFFSET, AVDP_SIZE)])
              + VdsReads(device, e.location, VdsEndSector(e.location, e.length))
            == log0 + LoadReads(device)
  {
    var vdsReads := VdsReads(device, e.location, VdsEndSector(e.location, e.length));
    assert AnchorThenReads(device) == vdsReads + [];
    SeqAssoc(log0, VrsReads(device, VRS_SECTOR), [(AVDP_OFFSET, AVDP_SIZE)], vdsReads);
  }

  /** `load` reaches the root directory stage with the descriptors the
      sequence scan kept: it mounts exactly when that stage succeeds,
      whatever the File Set Descriptor and root members held before it. */
  lemma LoadRunsFsd(device: Device, e: ExtentAd, pd: PartitionDescriptor, lvd: LogicalVolumeDescriptor,
                    fsd0: Option<FileSetDescriptor>, root0: Option<seq<Uint8>>, log0: seq<(nat, nat)>)
    requires VrsScan(device, VRS_SECTOR) && AnchorSelection(device) == Some(e)
    requires var v := VdsScan(device, e.location, VdsEndSector(e.location, e.length), VdsFound(None, None));
      && VdsSucceeded(v) && pd == DecodePd(v.found.pd.value) && lvd == DecodeLvd(v.found.lvd.value)
    ensures var o := FsdStage(device, pd, lvd, fsd0, root0);
      && (((log0 + VrsReads(device, VRS_SECTOR)) + [(AVDP_OFFSET, AVDP_SIZE)])
            + VdsReads(device, e.location, VdsEndSector(e.location, e.length)))
           + FsdReads(device, pd, lvd)
         == log0 + LoadReads(device)
      && (o.ok <==> LoadVolume(device).Mounted?)
      && (o.ok ==> LoadVolume(device).volume == Volume(e, pd, lvd, o.fsd.value, o.rootFileEntry.value))
  {
    var end := VdsEndSector(e.location, e.length);
    var vdsReads := VdsReads(device, e.location, end);
    var fsdReads := FsdReads(device, pd, lvd);
    assert AnchorThenReads(device) == vdsReads + fsdReads;
    SeqAssoc(log0 + VrsReads(device, VRS_SECTOR), [(AVDP_OFFSET, AVDP_SIZE)], vdsReads, fsdReads);
    SeqAssoc(log0, VrsReads(device, VRS_SECTOR), [(AVDP_OFFSET, AVDP_SIZE)], vdsReads + fsdReads);
  }

  lemma SeqAssoc<T>(a: seq<T>, b: seq<T>, c: seq<T>, d: seq<T>)
    ensures a + b + (c + d) == a + (b + (c + d))
    ensures (a + b) + c + d == a + (b + (c + d))
  {
  }

  /** What a mounted volume guarantees: the device was recognised, the
      sequence extent is the anchor's choice and usable, and the descriptors
      at its end carry the expected tags. On a device that serves one image
      the Partition and Logical Volume Descriptors carry their tags too. */
  lemma MountedVolume(device: Device)
    requires LoadVolume(device).Mounted?
    ensures var m := LoadVolume(device).volume;
      && VrsScan(device, VRS_SECTOR)
      && AnchorSelection(device) == Some(m.vds) && ExtentUsable(m.vds)
      && FsdCheckTag(m.fsd) && FeCheckTag(m.rootFileEntry)
      && |m.rootFileEntry| == m.fsd.rootDirectoryIcb.extentLength
      && (forall image :: ImageBacked(device, image) ==>
            m.pd.descriptorTag.tagIdentifier == VDS_PD_TAG_IDENTIFIER
            && m.lvd.descriptorTag.tagIdentifier == VDS_LVD_TAG_IDENTIFIER)
  {
    var e := AnchorSelection(device).value;
    forall image | ImageBacked(device, image)
      ensures var m := LoadVolume(device).volume;
        m.pd.descriptorTag.tagIdentifier == VDS_PD_TAG_IDENTIFIER
        && m.lvd.descriptorTag.tagIdentifier == VDS_LVD_TAG_IDENTIFIER
    {
      VdsKeepsTaggedDescriptors(device, image, e.location, VdsEndSector(e.location, e.length), VdsFound(None, None));
    }
  }
}
