/** The lazy directory tree: `FsEntry` (fsentry.cpp), one file or directory
    whose File Entry is read and decoded on demand and whose children are
    decoded on the first listing, and `FsEntryPtr` (fsentryptr.cpp), the
    link from a directory to one child, decoded from a File Identifier
    Descriptor. Every `FsEntry` operation is proved to compute what its
    function in module FsEntrySpec says, over the same device, and to issue
    exactly the requests that function lists. */
module DirectoryTree {
  import opened Wrappers
  import opened LittleEndian
  import opened UdfTypes
  import opened Udf
  import opened Streams
  import opened Fid
  import opened FsEntrySpec

  /** The links a sequence of pointers stands for. */
  function PtrLinks(ps: seq<FsEntryPtr>): (r: seq<FidEntry>)
    ensures |r| == |ps|
    ensures forall i :: 0 <= i < |ps| ==> r[i] == ps[i].Link()
  {
    if ps == [] then [] else PtrLinks(ps[..|ps| - 1]) + [ps[|ps| - 1].Link()]
  }

  class FsEntry {
    /** The children, in on-disk order; empty until the first `Populate`. */
    var subEntries: seq<FsEntryPtr>
    /** The directory this entry was listed in; none for the root. */
    const parentEntry: FsEntry?
    /** The address of this entry's File Entry. */
    const feAd: LongAd
    /** The device of the file system, shared by all entries. */
    const stream: DataStream
    /** The partition start the file system hands out (its
        `getPartitionSectorNumber`). */
    const partitionSector: Uint32

    var isValid: bool
    var isInitialized: bool
    var isDirectory: bool

    // Taken from the File Entry by `Initialize`; unset before.
    var descriptorTag: Tag
    var lEa: Uint32
    var lAd: Uint32
    var accessTime: Timestamp
    var modificationTime: Timestamp
    var attributeTime: Timestamp

    /** The cached bytes of the File Entry, none when not loaded. */
    var feBuffer: Option<seq<Uint8>>

    constructor (stream: DataStream, partitionSector: Uint32, feAd: LongAd, isDirectory: bool, parent: FsEntry?)
      ensures this.stream == stream && this.partitionSector == partitionSector && this.feAd == feAd
      ensures this.isDirectory == isDirectory && parentEntry == parent
      ensures IsStub()
    {
      subEntries := [];
      parentEntry := parent;
      this.feAd := feAd;
      this.stream := stream;
      this.partitionSector := partitionSector;
      isValid := false;
      isInitialized := false;
      this.isDirectory := isDirectory;
      feBuffer := None;
    }

    function State(): EntryState
      reads this`isValid, this`isInitialized, this`isDirectory, this`descriptorTag, this`lEa, this`lAd,
            this`accessTime, this`modificationTime, this`attributeTime, this`feBuffer
    {
      EntryState(isValid, isInitialized, isDirectory,
                 FeHeader(descriptorTag, lEa, lAd, accessTime, modificationTime, attributeTime), feBuffer)
    }

    /** Just created: address only, nothing read or decoded. */
    predicate IsStub()
      reads this`isValid, this`isInitialized, this`feBuffer, this`subEntries
    {
      !isValid && !isInitialized && feBuffer.None? && subEntries == []
    }

    /** Every child is an entry of the same device, other than this one. */
    predicate SharesStream()
      reads this`subEntries
    {
      forall i :: 0 <= i < |subEntries| ==> subEntries[i].entry.stream == stream && subEntries[i].entry != this
    }

    method LoadBuffer() returns (ok: bool)
      modifies this`feBuffer, stream
      ensures var r := LoadBufferStep(stream.device, partitionSector, feAd, old(State()));
        ok == r.ok && State() == r.state && stream.log == old(stream.log) + r.requests
    {
      if feBuffer.Some? {
        return true;
      }
      var offset := EntryOffset(partitionSector, feAd.extentLocation.logicalBlockNumber);
      var length := feAd.extentLength;
      var data := stream.Read(offset, length);
      if data.None? {
        feBuffer := None;
        return false;
      }
      feBuffer := data;
      return true;
    }

    method ClearBuffer() returns (ok: bool)
      modifies this`feBuffer
      ensures ok && feBuffer.None?
    {
      feBuffer := None;
      return true;
    }

    method Initialize() returns (ok: bool)
      modifies this`feBuffer, this`isValid, this`isInitialized, this`descriptorTag, this`lEa, this`lAd,
               this`accessTime, this`modificationTime, this`attributeTime, stream
      ensures var r := InitializeStep(stream.device, partitionSector, feAd, old(State()));
        ok == r.ok && State() == r.state && stream.log == old(stream.log) + r.requests
    {
      if isInitialized {
        return true;
      }
      var loaded := LoadBuffer();
      if !loaded {
        return false;
      }
      ok := TakeHeader();
    }

    /** Decodes the header of the loaded File Entry into the fields. */
    method TakeHeader() returns (ok: bool)
      requires feBuffer.Some?
      modifies this`isValid, this`isInitialized, this`descriptorTag, this`lEa, this`lAd,
               this`accessTime, this`modificationTime, this`attributeTime
      ensures var d := TakeHeaderStep(old(State()));
        ok == d.ok && State() == d.state
    {
      var fe := feBuffer.value;
      if !Fits(fe, 0, TAG_SIZE) {
        return false;
      }
      descriptorTag := DecodeTag(fe, 0);
      var decoded := DecodeFeHeader(fe);
      if decoded.None? {
        return false;
      }
      var h := decoded.value;
      isValid, lEa, lAd, accessTime, modificationTime, attributeTime, isInitialized
        := true, h.lEa, h.lAd, h.accessTime, h.modificationTime, h.attributeTime, true;
      return true;
    }

    /** The scan of the directory's records read from `ext`, appending one
        child per valid record; it stops with false at a record that is not
        a File Identifier Descriptor or does not fit. */
    method ScanExtent(ext: seq<Uint8>) returns (ok: bool)
      requires subEntries == [] && |ext| < 0x1_0000_0000
      modifies this`subEntries
      ensures ok == ScanFids(ext).complete
      ensures PtrLinks(subEntries) == Links(ScanFids(ext).records)
      ensures forall i :: 0 <= i < |subEntries| ==> fresh(subEntries[i]) && fresh(subEntries[i].entry)
      ensures forall i :: 0 <= i < |subEntries| ==> subEntries[i].entry != this && subEntries[i].ChildOf(this)
    {
      ghost var all := ScanFids(ext);
      ghost var done: seq<FidEntry> := [];
      var completion: nat := 0;
      var record := ext;
      while completion < |ext|
        invariant |record| == if completion >= |ext| then 0 else |ext| - completion
        invariant ScanSoFar(all, done, ScanFids(record))
        invariant PtrLinks(subEntries) == Links(done)
        invariant forall i :: 0 <= i < |subEntries| ==>
          fresh(subEntries[i]) && fresh(subEntries[i].entry) && subEntries[i].ChildOf(this)
        decreases |ext| - completion
      {
        if !FidTagged(record) || !FidFits(record) {
          assert all.records == done + [] == done;
          return false;
        }
        ghost var link := DecodeFid(record);
        ScanAdvance(record, done, all, link);
        LinksSnoc(done, link);
        var total := AddChild(record, (|ext| - completion) as Uint32);
        done := done + [link];
        completion := completion + total;
        record := if total >= |record| then [] else record[total..];
      }
      assert all.records == done + [] == done;
      return true;
    }

    /** Decodes the record at the start of `record` into a new child, kept
        when the record is valid; the padded length of the record. */
    method AddChild(record: seq<Uint8>, len: Uint32) returns (total: nat)
      requires FidFits(record)
      requires forall i :: 0 <= i < |subEntries| ==> subEntries[i].entry != this && subEntries[i].ChildOf(this)
      modifies this`subEntries
      ensures total == DecodeFid(record).totalSize
      ensures PtrLinks(subEntries) == PtrLinks(old(subEntries)) + (if Fid.IsValid(DecodeFid(record)) then [DecodeFid(record)] else [])
      ensures |old(subEntries)| <= |subEntries| <= |old(subEntries)| + 1
      ensures forall i :: 0 <= i < |old(subEntries)| ==> subEntries[i] == old(subEntries[i])
      ensures forall i :: |old(subEntries)| <= i < |subEntries| ==> fresh(subEntries[i]) && fresh(subEntries[i].entry)
      ensures forall i :: 0 <= i < |subEntries| ==> subEntries[i].entry != this && subEntries[i].ChildOf(this)
    {
      var fsp := new FsEntryPtr(stream, partitionSector, record, len, this);
      if fsp.IsValid() {
        PtrLinksSnoc(subEntries, fsp);
        subEntries := subEntries + [fsp];
      }
      total := fsp.GetTotalLength();
    }

    method Populate() returns (ok: bool)
      requires PopulateSafe(State(), subEntries != [])
      modifies this, stream
      ensures var r := PopulateStep(stream.device, partitionSector, feAd, old(State()), old(subEntries) != []);
        ok == r.ok && State() == r.state && stream.log == old(stream.log) + r.requests
      ensures old(subEntries) != [] ==> subEntries == old(subEntries)
      ensures old(subEntries) == [] ==>
        && PtrLinks(subEntries) == PopulateStep(stream.device, partitionSector, feAd, old(State()), false).links
        && forall i :: 0 <= i < |subEntries| ==>
             fresh(subEntries[i]) && fresh(subEntries[i].entry) && subEntries[i].ChildOf(this)
    {
      ghost var init := InitializeStep(stream.device, partitionSector, feAd, State());
      if !isDirectory {
        return false;
      }
      if !isInitialized {
        var initialized := Initialize();
        if !initialized {
          return false;
        }
      }
      assert State() == init.state;
      if subEntries != [] {
        return true;
      }
      ghost var c := ReadChildrenStep(stream.device, partitionSector, State());
      ok := ReadChildren();
      assert old(stream.log) + init.requests + c.requests == old(stream.log) + (init.requests + c.requests);
    }

    /** Reads and scans the records of an initialized, childless directory. */
    method ReadChildren() returns (ok: bool)
      requires feBuffer.Some? && subEntries == []
      modifies this`subEntries, this`feBuffer, stream
      ensures var c := ReadChildrenStep(stream.device, partitionSector, old(State()));
        && ok == c.ok && State() == c.state && stream.log == old(stream.log) + c.requests
        && PtrLinks(subEntries) == c.links
        && forall i :: 0 <= i < |subEntries| ==>
             fresh(subEntries[i]) && fresh(subEntries[i].entry) && subEntries[i].ChildOf(this)
    {
      var ad := AllocationDescriptor(feBuffer.value, lEa);
      if ad.None? {
        return false;
      }
      var fidAd := ad.value;
      var fidBuffer := stream.Read(EntryOffset(partitionSector, fidAd.extentPosition), fidAd.extentLength);
      if fidBuffer.None? {
        return false;
      }
      ok := ScanExtent(fidBuffer.value);
      if ok {
        var cleared := ClearBuffer();
      }
    }

    /** `getSubEntry`: populate, then the first child named `name`,
        initialized, or null. `before` is the state that child had when it
        was looked up: a stub when this call created it, otherwise the state
        it had on entry. */
    method GetSubEntry(name: CString) returns (r: FsEntry?, ghost before: EntryState)
      requires PopulateSafe(State(), subEntries != []) && SharesStream()
      modifies this, stream, set i | 0 <= i < |subEntries| :: subEntries[i].entry
      ensures var p := PopulateStep(stream.device, partitionSector, feAd, old(State()), old(subEntries) != []);
        && State() == p.state
        && (old(subEntries) != [] ==> subEntries == old(subEntries))
        && (old(subEntries) == [] ==> PtrLinks(subEntries) == p.links)
        && SharesStream()
        && var m := FirstMatch(PtrLinks(subEntries), name);
           && (r != null <==> p.ok && m.Some?)
           && (r == null ==> stream.log == old(stream.log) + p.requests)
           && (r != null ==>
                 var i := InitializeStep(stream.device, r.partitionSector, r.feAd, before);
                 && r == subEntries[m.value].entry
                 && r.State() == i.state
                 && stream.log == old(stream.log) + p.requests + i.requests)
      ensures old(subEntries) == [] ==>
        && (r != null ==> !before.isValid && !before.isInitialized && before.feBuffer.None?
                          && before.isDirectory == r.isDirectory)
        && forall i :: 0 <= i < |subEntries| && subEntries[i].entry != r ==> subEntries[i].ChildOf(this)
      ensures old(subEntries) != [] ==>
        && (r != null ==> before == old(r.State()))
        && forall i :: 0 <= i < |subEntries| && subEntries[i].entry != r ==> unchanged(subEntries[i].entry)
    {
      before := State();
      ghost var p := PopulateStep(stream.device, partitionSector, feAd, State(), subEntries != []);
      var populated := Populate();
      if !populated {
        return null, before;
      }
      r, before := OpenChild(name);
      if r != null {
        assert stream.log == old(stream.log) + p.requests
          + InitializeStep(stream.device, r.partitionSector, r.feAd, before).requests;
      }
    }

    /** The first child named `name`, initialized, or null when there is
        none. `before` is that child's state before its initialization. */
    method OpenChild(name: CString) returns (r: FsEntry?, ghost before: EntryState)
      requires SharesStream()
      modifies stream, set i | 0 <= i < |subEntries| :: subEntries[i].entry
      ensures subEntries == old(subEntries)
      ensures var m := FirstMatch(PtrLinks(subEntries), name);
        && (r != null <==> m.Some?)
        && (r == null ==> stream.log == old(stream.log))
        && (r != null ==>
              var i := InitializeStep(stream.device, r.partitionSector, r.feAd, before);
              && r == subEntries[m.value].entry && before == old(r.State())
              && r.State() == i.state && stream.log == old(stream.log) + i.requests)
      ensures forall i :: 0 <= i < |subEntries| && subEntries[i].entry != r ==> unchanged(subEntries[i].entry)
    {
      before := State();
      var k := FindChild(name);
      if k == |subEntries| {
        return null, before;
      }
      before := subEntries[k].entry.State();
      r := subEntries[k].GetEntry();
    }

    /** The position of the first child named `name`, or the number of
        children when there is none. */
    method FindChild(name: CString) returns (k: nat)
      ensures k <= |subEntries|
      ensures k < |subEntries| <==> FirstMatch(PtrLinks(subEntries), name).Some?
      ensures k < |subEntries| ==> FirstMatch(PtrLinks(subEntries), name) == Some(k)
    {
      ghost var links := PtrLinks(subEntries);
      k := 0;
      while k < |subEntries| && !subEntries[k].MatchName(name)
        invariant 0 <= k <= |subEntries|
        invariant forall j :: 0 <= j < k ==> !Fid.MatchName(links[j], name)
      {
        k := k + 1;
      }
      if k < |subEntries| {
        FirstMatchIs(links, name, k);
      }
    }

    function GetParentEntry(): (r: FsEntry)
      ensures parentEntry == null ==> r == this
      ensures parentEntry != null ==> r == parentEntry
    {
      if parentEntry == null then this else parentEntry
    }

    method GetFileSizeAsString() returns (text: string)
      modifies this`feBuffer, this`isValid, this`isInitialized, this`descriptorTag, this`lEa, this`lAd,
               this`accessTime, this`modificationTime, this`attributeTime, stream
      ensures var r := FileSizeStep(stream.device, partitionSector, feAd, old(State()));
        text == r.text && State() == r.state && stream.log == old(stream.log) + r.requests
    {
      var initialized := Initialize();
      if !initialized {
        return "unknown";
      }
      if isDirectory {
        return "<dir>";
      }
      var loaded := LoadBuffer();
      if !loaded {
        return "unknown";
      }
      var ad := AllocationDescriptor(feBuffer.value, lEa);
      if ad.None? {
        return "unknown";
      }
      var fileAd := ad.value;
      var cleared := ClearBuffer();
      var size: nat := fileAd.extentLength;
      var unit := "B";
      if size > 5000 {
        size := size / 1024;
        unit := "KB";
      }
      if size > 5000 {
        size := size / 1024;
        unit := "MB";
      }
      text := DecimalString(size) + unit;
    }

    /** Copies the file's data extent to the file `name` in `destDir`.
        `openSucceeded` is the outcome of creating that file; `destination`
        is the path created and `written` the bytes written to it, in order. */
    method WriteDataToFile(name: string, destDir: string, openSucceeded: bool)
      returns (ok: bool, destination: Option<string>, written: seq<Uint8>)
      requires isDirectory || |destDir| > 0 || !InitializeStep(stream.device, partitionSector, feAd, State()).ok
      modifies this`feBuffer, this`isValid, this`isInitialized, this`descriptorTag, this`lEa, this`lAd,
               this`accessTime, this`modificationTime, this`attributeTime, stream
      ensures var r := WriteStep(stream.device, partitionSector, feAd, old(State()), name, destDir, openSucceeded);
        && ok == r.ok && destination == r.destination && written == r.written
        && State() == r.state && stream.log == old(stream.log) + r.requests
    {
      destination, written := None, [];
      if isDirectory {
        return false, destination, written;
      }
      var initialized := Initialize();
      if !initialized {
        return false, destination, written;
      }
      var dest := destDir;
      if dest[|dest| - 1] != '/' {
        dest := dest + "/";
      }
      dest := dest + name;
      destination := Some(dest);
      if !openSucceeded {
        return false, destination, written;
      }
      var loaded := LoadBuffer();
      if !loaded {
        return false, destination, written;
      }
      var ad := AllocationDescriptor(feBuffer.value, lEa);
      if ad.None? {
        return false, destination, written;
      }
      var fileAd := ad.value;
      var filePosition := EntryOffset(partitionSector, fileAd.extentPosition);
      ok, written := CopyData(filePosition, fileAd.extentLength);
    }

    /** The copy loop: chunk by chunk from `filePosition`, each chunk read
        and then written out, stopping at the first failed read. */
    method CopyData(filePosition: nat, length: nat) returns (ok: bool, written: seq<Uint8>)
      modifies stream
      ensures var c := CopyExtent(stream.device, filePosition, length, 0);
        ok == c.ok && written == c.written && stream.log == old(stream.log) + c.requests
    {
      ghost var all := CopyExtent(stream.device, filePosition, length, 0);
      ghost var done: seq<(nat, nat)> := [];
      written := [];
      var cpOffset: nat := 0;
      while cpOffset < length
        invariant cpOffset <= length
        invariant CopySoFar(all, written, done, CopyExtent(stream.device, filePosition, length, cpOffset))
        invariant stream.log == old(stream.log) + done
        decreases length - cpOffset
      {
        var toCopy := DEFAULT_COPY_SIZE;
        if toCopy > length - cpOffset {
          toCopy := length - cpOffset;
        }
        assert toCopy == Min(DEFAULT_COPY_SIZE, length - cpOffset);
        CopyAdvance(stream.device, filePosition, length, cpOffset, written, done, all);
        var data := stream.Read(filePosition + cpOffset, toCopy);
        ghost var request: (nat, nat) := (filePosition + cpOffset, toCopy);
        done := done + [request];
        if data.None? {
          assert !all.ok && all.written == written && all.requests == done;
          return false, written;
        }
        written := written + data.value;
        cpOffset := cpOffset + toCopy;
      }
      assert CopyExtent(stream.device, filePosition, length, cpOffset) == CopyResult(true, [], []);
      assert written + [] == written && done + [] == done;
      return true, written;
    }
  }

  /** The copy so far (`written`, `done`) followed by what is left of it
      (`rest`) is the whole copy `all`. */
  predicate CopySoFar(all: CopyResult, written: seq<Uint8>, done: seq<(nat, nat)>, rest: CopyResult)
  {
    all.ok == rest.ok && all.written == written + rest.written && all.requests == done + rest.requests
  }

  /** One chunk of the copy: its read fails and the copy ends there, or the
      copy goes on after it. */
  lemma CopyAdvance(device: Device, position: nat, length: nat, from: nat,
                    written: seq<Uint8>, done: seq<(nat, nat)>, all: CopyResult)
    requires from < length && CopySoFar(all, written, done, CopyExtent(device, position, length, from))
    ensures var n := Min(DEFAULT_COPY_SIZE, length - from);
      var request: (nat, nat) := (position + from, n);
      match ReadAt(device, position + from, n)
      case None => !all.ok && all.written == written && all.requests == done + [request]
      case Some(data) => CopySoFar(all, written + data, done + [request], CopyExtent(device, position, length, from + n))
  {
    var n := Min(DEFAULT_COPY_SIZE, length - from);
    var request: (nat, nat) := (position + from, n);
    var rest := CopyExtent(device, position, length, from + n);
    assert done + [request] + rest.requests == done + ([request] + rest.requests);
    match ReadAt(device, position + from, n)
    case None =>
      assert written + [] == written;
    case Some(data) =>
      assert written + data + rest.written == written + (data + rest.written);
  }

  /** The records scanned so far (`done`) followed by what is left of the
      scan (`rest`) make the whole scan `all`. */
  predicate ScanSoFar(all: FidScan, done: seq<FidEntry>, rest: FidScan)
  {
    all.records == done + rest.records && all.complete == rest.complete
  }

  /** One step of the scan: the record at the start of `record` is decoded
      and the scan goes on after its padded length. */
  lemma ScanAdvance(record: seq<Uint8>, done: seq<FidEntry>, all: FidScan, f: FidEntry)
    requires record != [] && FidTagged(record) && FidFits(record) && f == DecodeFid(record)
    requires ScanSoFar(all, done, ScanFids(record))
    ensures ScanSoFar(all, done + [f], ScanFids(if f.totalSize >= |record| then [] else record[f.totalSize..]))
  {
    var rest := ScanFids(if f.totalSize >= |record| then [] else record[f.totalSize..]);
    assert ScanFids(record) == FidScan([f] + rest.records, rest.complete);
    assert done + ([f] + rest.records) == done + [f] + rest.records;
  }

  lemma LinksSnoc(records: seq<FidEntry>, f: FidEntry)
    ensures Links(records + [f]) == Links(records) + (if IsValid(f) then [f] else [])
  {
    assert (records + [f])[..|records|] == records;
  }

  lemma PtrLinksSnoc(ps: seq<FsEntryPtr>, p: FsEntryPtr)
    ensures PtrLinks(ps + [p]) == PtrLinks(ps) + [p.Link()]
  {
    assert (ps + [p])[..|ps|] == ps;
  }

  lemma FirstMatchIs(links: seq<FidEntry>, name: CString, k: nat)
    requires k < |links| && MatchName(links[k], name)
    requires forall j :: 0 <= j < k ==> !MatchName(links[j], name)
    ensures FirstMatch(links, name) == Some(k)
  {
  }

  class FsEntryPtr {
    /** The filtered name; none when the record's name is empty. */
    const identifier: Option<seq<Uint8>>
    const identifierLength: nat
    /** The child entry, created with the link. */
    const entry: FsEntry
    const isDirectory: bool
    const totalSize: Uint32
    const isHidden: bool

    /** The decoded record this pointer holds. */
    function Link(): FidEntry
    {
      FidEntry(identifier, identifierLength, isDirectory, totalSize, isHidden, entry.feAd)
    }

    /** The child is a fresh stub of `parent`'s device and partition, with
        the record's directory flag and `parent` as its parent. */
    predicate ChildOf(parent: FsEntry)
      reads entry`isValid, entry`isInitialized, entry`feBuffer, entry`subEntries, entry`isDirectory
    {
      && entry.IsStub()
      && entry.isDirectory == isDirectory
      && entry.parentEntry == parent
      && entry.stream == parent.stream && entry.partitionSector == parent.partitionSector
    }

    /** Decodes the record at the start of `buffer`; `len`, the bytes left in
        the extent, is not consulted. The two loops that filter the name are
        those of `FilterIdentifier`. */
    constructor (stream: DataStream, partitionSector: Uint32, buffer: seq<Uint8>, len: Uint32, parent: FsEntry)
      requires FidFits(buffer)
      ensures Link() == DecodeFid(buffer)
      ensures fresh(entry) && entry.IsStub() && entry.isDirectory == isDirectory && entry.parentEntry == parent
      ensures entry.stream == stream && entry.partitionSector == partitionSector
    {
      var h := DecodeFidHeader(buffer);
      if h.lengthOfFileIdentifier == 0 {
        identifier := None;
        identifierLength := 0;
      } else {
        var n := NameOffset(h);
        var filtered := FilterIdentifier(buffer[n..n + h.lengthOfFileIdentifier]);
        identifier := Some(filtered);
        identifierLength := |filtered|;
      }
      totalSize := TotalLength(h.lengthOfFileIdentifier, h.lengthOfImplementationUse);
      isHidden := false;
      var directory := DirectoryFlag(h.fileCharacteristics);
      isDirectory := directory;
      entry := new FsEntry(stream, partitionSector, h.icb, directory, parent);
    }

    predicate IsValid()
    {
      Fid.IsValid(Link())
    }

    function GetTotalLength(): (r: Uint32)
      ensures r == Link().totalSize
    {
      totalSize
    }

    predicate MatchName(name: CString)
    {
      Fid.MatchName(Link(), name)
    }

    /** The child, after its `Initialize`. */
    method GetEntry() returns (e: FsEntry)
      modifies entry`feBuffer, entry`isValid, entry`isInitialized, entry`descriptorTag, entry`lEa, entry`lAd,
               entry`accessTime, entry`modificationTime, entry`attributeTime, entry.stream
      ensures e == entry
      ensures var r := InitializeStep(entry.stream.device, entry.partitionSector, entry.feAd, old(entry.State()));
        entry.State() == r.state && entry.stream.log == old(entry.stream.log) + r.requests
    {
      var initialized := entry.Initialize();
      return entry;
    }
  }
}
