/** `FileSystem` (fs.cpp, fs.h): the object that mounts a volume. Its
    `Load` runs the four stages in order, each gating the next; each stage is
    proved to compute what its specification in module Bootstrap says, to
    issue exactly the requests that specification lists, and to change only
    the members the source assigns. */
module FileSystems {
  import opened Wrappers
  import opened LittleEndian
  import opened UdfTypes
  import opened Udf
  import opened Streams
  import opened Bootstrap

  class FileSystem {
    const stream: DataStream
    var isLoaded: bool
    // VDS extent chosen by the anchor stage
    var vdsLength: Uint32
    var vdsSector: Uint32
    // the descriptors the reader keeps; None while never read
    var pd: Option<PartitionDescriptor>
    var lvd: Option<LogicalVolumeDescriptor>
    var fsd: Option<FileSetDescriptor>
    var rootFileEntry: Option<seq<Uint8>>
    /** Declared beside `pd` and returned by `GetPartitionSectorNumber`, but
        assigned nowhere: `loadFSD` reads the partition start into a local
        of the same name. Its value is whatever the object held. */
    var partitionSector: Uint32

    constructor (stream: DataStream)
      ensures this.stream == stream
      ensures !isLoaded && vdsLength == 0 && vdsSector == 0
      ensures pd == None && lvd == None && fsd == None && rootFileEntry == None
    {
      this.stream := stream;
      isLoaded := false;
      vdsLength := 0;
      vdsSector := 0;
      pd := None;
      lvd := None;
      fsd := None;
      rootFileEntry := None;
    }

    function GetPartitionSectorNumber(): (r: Uint32)
      reads this
      ensures r == partitionSector
    {
      partitionSector
    }

    /** Stage 1: scan for a valid recognition triplet from VRS_SECTOR up to
        AVDP_SECTOR - 3, stopping at the first failed read. */
    method CheckVolumeRecognitionSequence() returns (valid: bool)
      modifies stream
      ensures valid == VrsScan(stream.device, VRS_SECTOR)
      ensures stream.log == old(stream.log) + VrsReads(stream.device, VRS_SECTOR)
    {
      var sector: nat := VRS_SECTOR;
      valid := false;
      ghost var device := stream.device;
      ghost var total := VrsCount(device, VRS_SECTOR);
      ghost var outcome := VrsScan(device, VRS_SECTOR);
      ghost var n: nat := 0;
      while !valid && sector <= VRS_LAST_SECTOR
        invariant VRS_SECTOR <= sector <= VRS_LAST_SECTOR + 1
        invariant stream.log == old(stream.log) + TripletRequests(VRS_SECTOR, n)
        invariant valid ==> outcome && n == total
        invariant !valid ==> n == sector - VRS_SECTOR && n + VrsCount(device, sector) == total
        invariant !valid ==> VrsScan(device, sector) == outcome
        decreases VRS_LAST_SECTOR + 1 - sector
      {
        var readable, isValid := ReadVrsAt(sector);
        VrsLoopStep(device, sector, n, total, outcome);
        TripletRequestsSnoc(old(stream.log), VRS_SECTOR, n);
        n := n + 1;
        if !readable {
          break;
        }
        valid := isValid;
        sector := sector + 1;
      }
    }

    /** The body of the stage 1 loop for one sector: read the triplet and
        test it. */
    method ReadVrsAt(sector: nat) returns (readable: bool, isValid: bool)
      modifies stream
      ensures readable && isValid <==> VrsMatchAt(stream.device, sector)
      ensures readable && !isValid <==> VrsMissAt(stream.device, sector)
      ensures stream.log == old(stream.log) + [(Offset(sector), VRS_SIZE)]
    {
      var vrs := stream.Read(Offset(sector), VRS_SIZE);
      if vrs.None? {
        return false, false;
      }
      return true, VrsIsValidSequence(vrs.value);
    }

    /** Stage 2: read the anchor and take the main sequence extent, or else
        the reserve one; neither usable leaves the extent members as they
        were. */
    method LoadAvdp() returns (ok: bool)
      modifies this`vdsLength, this`vdsSector, stream
      ensures ok == AnchorSelection(stream.device).Some?
      ensures ok ==> AnchorSelection(stream.device) == Some(ExtentAd(vdsLength, vdsSector))
      ensures !ok ==> vdsLength == old(vdsLength) && vdsSector == old(vdsSector)
      ensures stream.log == old(stream.log) + [(AVDP_OFFSET, AVDP_SIZE)]
    {
      var data := stream.Read(AVDP_OFFSET, AVDP_SIZE);
      if data.None? {
        return false;
      }
      var avdp := DecodeAvdp(data.value);
      if avdp.mainVds.length != 0 && avdp.mainVds.location != 0 {
        vdsLength := avdp.mainVds.length;
        vdsSector := avdp.mainVds.location;
        return true;
      }
      if avdp.reserveVds.length != 0 && avdp.reserveVds.location != 0 {
        vdsLength := avdp.reserveVds.length;
        vdsSector := avdp.reserveVds.location;
        return true;
      }
      return false;
    }

    /** Stage 3: peek at the tag of every sector of the sequence extent and
        read the Partition or Logical Volume Descriptor it announces; both
        must have been seen. A member is overwritten by every descriptor of
        its kind, so the last one stays. */
    method LoadVds() returns (ok: bool)
      modifies this`pd, this`lvd, stream
      ensures var v := VdsScan(stream.device, vdsSector, VdsEndSector(vdsSector, vdsLength), VdsFound(None, None));
        && ok == VdsSucceeded(v)
        && pd == KeptPd(v.found, old(pd))
        && lvd == KeptLvd(v.found, old(lvd))
      ensures stream.log == old(stream.log) + VdsReads(stream.device, vdsSector, VdsEndSector(vdsSector, vdsLength))
    {
      var sector := vdsSector;
      var end := VdsEndSector(vdsSector, vdsLength);
      var pdFound, lvdFound := false, false;
      ghost var device := stream.device;
      ghost var outcome := VdsScan(device, sector, end, VdsFound(None, None));
      ghost var found := VdsFound(None, None);
      ghost var log0 := stream.log;
      while sector != end
        invariant vdsSector <= sector <= end
        invariant found.pd.Some? == pdFound && found.lvd.Some? == lvdFound
        invariant pd == KeptPd(found, old(pd))
        invariant lvd == KeptLvd(found, old(lvd))
        invariant VdsScan(device, sector, end, found) == outcome
        invariant forall t :: vdsSector <= t < sector ==> VdsSectorReadable(device, t)
        invariant stream.log == log0 + VdsReadsBetween(device, vdsSector, sector)
        decreases end - sector
      {
        var readable, sawPd, sawLvd := LoadVdsSector(sector, found, old(pd), old(lvd));
        VdsLoopStep(device, vdsSector, sector, end, found, outcome, log0);
        if !readable {
          VdsReadsSplit(device, vdsSector, sector, end);
          return false;
        }
        pdFound := pdFound || sawPd;
        lvdFound := lvdFound || sawLvd;
        found := VdsStep(device, sector, found).value;
        sector := sector + 1;
      }
      VdsReadsSplit(device, vdsSector, end, end);
      return lvdFound && pdFound;
    }

    /** The body of the stage 3 loop for one sector: the tag peek, then the
        read of the descriptor the tag announces into its member. `found` is
        what the scan had found before this sector, `pd0` and `lvd0` the
        members before the scan. */
    method LoadVdsSector(sector: nat, ghost found: VdsFound,
                         ghost pd0: Option<PartitionDescriptor>, ghost lvd0: Option<LogicalVolumeDescriptor>)
      returns (readable: bool, sawPd: bool, sawLvd: bool)
      requires pd == KeptPd(found, pd0)
      requires lvd == KeptLvd(found, lvd0)
      modifies this`pd, this`lvd, stream
      ensures readable == VdsSectorReadable(stream.device, sector)
      ensures readable ==> var next := VdsStep(stream.device, sector, found).value;
        && (found.pd.Some? || sawPd) == next.pd.Some?
        && (found.lvd.Some? || sawLvd) == next.lvd.Some?
        && pd == KeptPd(next, pd0)
        && lvd == KeptLvd(next, lvd0)
      ensures !readable ==> pd == old(pd) && lvd == old(lvd)
      ensures stream.log == old(stream.log) + VdsSectorReads(stream.device, sector)
    {
      sawPd, sawLvd := false, false;
      var tag := stream.Read(Offset(sector), TAG_SIZE);
      if tag.None? {
        return false, false, false;
      }
      var id := DecodeTag(tag.value, 0).tagIdentifier;
      if id == VDS_PD_TAG_IDENTIFIER {
        sawPd := true;
        var data := stream.Read(Offset(sector), PD_SIZE);
        if data.None? {
          return false, sawPd, sawLvd;
        }
        pd := Some(DecodePd(data.value));
      } else if id == VDS_LVD_TAG_IDENTIFIER {
        sawLvd := true;
        var data := stream.Read(Offset(sector), LVD_SIZE);
        if data.None? {
          return false, sawPd, sawLvd;
        }
        lvd := Some(DecodeLvd(data.value));
      }
      readable := true;
    }

    /** Stage 4: read the File Set Descriptor from the partition using the
        logical block of the volume's contents-use long_ad, check its tag,
        then read and check the root File Entry. */
    method LoadFsd() returns (ok: bool)
      requires pd.Some? && lvd.Some?
      modifies this`fsd, this`rootFileEntry, stream
      ensures var o := FsdStage(stream.device, pd.value, lvd.value, old(fsd), old(rootFileEntry));
        ok == o.ok && fsd == o.fsd && rootFileEntry == o.rootFileEntry
      ensures stream.log == old(stream.log) + FsdReads(stream.device, pd.value, lvd.value)
    {
      var ps := pd.value.partitionStartingLocation;
      var fsdOffset := FsdOffset(ps, lvd.value);
      var data := stream.Read(fsdOffset, FSD_STRUCT_SIZE);
      if data.None? {
        return false;
      }
      var f := DecodeFsd(data.value);
      fsd := Some(f);
      if !FsdCheckTag(f) {
        return false;
      }
      var rootOffset := RootEntryOffset(ps, lvd.value, f);
      var rootLength := f.rootDirectoryIcb.extentLength;
      // the buffer is allocated before the read, so the old entry is gone
      // even when the read fails
      rootFileEntry := None;
      var fe := stream.Read(rootOffset, rootLength);
      if fe.None? {
        return false;
      }
      rootFileEntry := fe;
      if !FeCheckTag(fe.value) {
        return false;
      }
      return true;
    }

    /** `load`: refuses a second mount; otherwise runs the four stages and
        records success. It never assigns the partition sector member. */
    method Load() returns (ok: bool)
      modifies this, stream
      ensures old(isLoaded) ==> !ok && isLoaded && stream.log == old(stream.log)
      ensures old(isLoaded) ==> (vdsLength == old(vdsLength) && vdsSector == old(vdsSector)
        && pd == old(pd) && lvd == old(lvd) && fsd == old(fsd) && rootFileEntry == old(rootFileEntry))
      ensures !old(isLoaded) ==> ok == LoadVolume(stream.device).Mounted? && isLoaded == ok
      ensures !old(isLoaded) ==> stream.log == old(stream.log) + LoadReads(stream.device)
      ensures ok ==>
        && pd.Some? && lvd.Some? && fsd.Some? && rootFileEntry.Some?
        && LoadVolume(stream.device)
           == Mounted(Volume(ExtentAd(vdsLength, vdsSector), pd.value, lvd.value, fsd.value, rootFileEntry.value))
      ensures partitionSector == old(partitionSector)
    {
      if isLoaded {
        return false;
      }
      ghost var device := stream.device;
      ghost var log0 := stream.log;
      ghost var ps0 := partitionSector;
      ok := CheckVolumeRecognitionSequence();
      assert partitionSector == ps0 && !isLoaded;
      if !ok {
        LoadStopsAtRecognition(device);
        return;
      }
      ok := LoadAvdp();
      assert partitionSector == ps0 && !isLoaded;
      if !ok {
        LoadStopsAtAnchor(device, log0);
        return;
      }
      ghost var e := AnchorSelection(device).value;
      ok := LoadVds();
      assert partitionSector == ps0 && !isLoaded && e == ExtentAd(vdsLength, vdsSector);
      if !ok {
        LoadStopsAtVds(device, e, log0);
        return;
      }
      LoadRunsFsd(device, e, pd.value, lvd.value, fsd, rootFileEntry, log0);
      ok := LoadFsd();
      assert partitionSector == ps0 && !isLoaded && e == ExtentAd(vdsLength, vdsSector);
      if !ok {
        return;
      }
      isLoaded := true;
    }
  }

  /** One turn of the recognition loop, with `n` triplets read before it:
      what a failed read, a valid triplet and an invalid one each leave of
      the scan. */
  lemma VrsLoopStep(device: Device, sector: nat, n: nat, total: nat, outcome: bool)
    requires sector <= VRS_LAST_SECTOR
    requires n + VrsCount(device, sector) == total && VrsScan(device, sector) == outcome
    ensures !VrsMatchAt(device, sector) && !VrsMissAt(device, sector) ==> n + 1 == total && !outcome
    ensures VrsMatchAt(device, sector) ==> n + 1 == total && outcome
    ensures VrsMissAt(device, sector) ==>
      n + 1 + VrsCount(device, sector + 1) == total && VrsScan(device, sector + 1) == outcome
  {
  }

  /** Logging one more triplet request. */
  lemma TripletRequestsSnoc(log: seq<(nat, nat)>, sector: nat, n: nat)
    ensures (log + TripletRequests(sector, n)) + [(Offset(sector + n), VRS_SIZE)]
            == log + TripletRequests(sector, n + 1)
  {
    assert TripletRequests(sector, n + 1) == TripletRequests(sector, n) + [(Offset(sector + n), VRS_SIZE)];
  }

  /** One sector of the sequence scan, with the requests of the sectors
      from `start` logged before it: an unreadable sector ends the scan
      there, a readable one hands the rest of the scan to the next sector. */
  lemma VdsLoopStep(device: Device, start: nat, sector: nat, end: nat, found: VdsFound,
                    outcome: VdsOutcome, log0: seq<(nat, nat)>)
    requires start <= sector < end
    requires VdsScan(device, sector, end, found) == outcome
    ensures !VdsSectorReadable(device, sector) ==>
      && outcome == VdsOutcome(false, found)
      && VdsReads(device, sector, end) == VdsSectorReads(device, sector)
    ensures VdsSectorReadable(device, sector) ==>
      && VdsStep(device, sector, found).Some?
      && VdsScan(device, sector + 1, end, VdsStep(device, sector, found).value) == outcome
    ensures (log0 + VdsReadsBetween(device, start, sector)) + VdsSectorReads(device, sector)
            == log0 + VdsReadsBetween(device, start, sector + 1)
  {
    VdsStepDefined(device, sector, found);
    AppendAssoc(log0, VdsReadsBetween(device, start, sector), VdsSectorReads(device, sector));
  }


}
