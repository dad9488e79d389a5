# udf-reader in Dafny

A model of a small reader for UDF file systems (ECMA-167 with the OSTA UDF
profile), together with proofs about it. The reader mounts an image or a block
device, walks its directory tree lazily, and copies files out of it. The model
covers the core of the reader:

- **On-disk layouts** (`udf_types.dfy`, `udf.dfy`). These are the fixed
  little-endian records the reader copies out of sectors:
  - the descriptor tag, timestamp, `extent_ad`, `short_ad`, `long_ad`,
    `charspec` and `EntityID`;
  - the Volume Structure Descriptor, the Anchor Volume Descriptor Pointer, the
    Partition, Logical Volume and File Set Descriptors.

  Each record has a decoder that reads the fields at their offsets and an
  encoder that lays the fields out in order. A round-trip lemma for every
  record pins each field offset and each record size.
- **Mounting** (`bootstrap.dfy`, `file_system.dfy`). Class `FileSystem`
  mirrors the reader's object. Its `Load` runs four stages, each gating the
  next:
  1. the Volume Recognition Sequence scan;
  2. the anchor's choice of the main or reserve Volume Descriptor Sequence;
  3. the sector scan of that sequence for the Partition and Logical Volume
     Descriptors;
  4. the File Set Descriptor and root File Entry reads with their tag checks.

  Every stage method is proved equal to a specification function of the
  device. Each method also issues exactly the reads that function lists and
  assigns only the members the source assigns. The lemmas state what the
  stages promise: where the scans stop, which descriptor wins, when a mount
  succeeds, and which offsets are read.
- **Directory tree** (`fid.dfy`, `fs_entry_spec.dfy`, `directory_tree.dfy`).
  - Class `FsEntryPtr` is the link decoded from a File Identifier Descriptor.
    It holds the padded record length, the name filtered down to printable
    ASCII, the directory bit and the child's address.
  - Class `FsEntry` is one file or directory. It loads and decodes its File
    Entry on demand, and decodes its children on the first listing.
  - The remaining operations are child lookup, the size text and the chunked
    copy of a file's data.

  Each method is proved against a function of `FsEntrySpec` over the same
  device.
- **Helpers**:
  - `CompressUnicode` (`unicode.dfy`), the OSTA Compressed Unicode writer, on
    arrays;
  - `Console::split` (`console.dfy`), the command-line tokenizer.

The device is an abstract read oracle, `Device = (offset, length) -> bytes or
failure`. A read that yields the wrong number of bytes counts as a failure.
`DataStream` forwards every request to the device and records it in a ghost
log, so the model can state which reads an operation issues.

Some names the reader uses come from a header that is not part of this model.
They are:
- `VRS`, `VRS_IS_VALID_SEQUENCE`, `OFFSET`, `VRS_SECTOR` and `AVDP_SECTOR`;
- the `AVDP_GET_*` accessors, `FSD_CHECK_TAG`, `FE_CHECK_TAG` and the tag
  identifiers;
- `DEFAULT_COPY_SIZE`;
- the `fsd` object that `FileSystem::loadFSD` reads into (fs.cpp:163-185),
  which fs.h does not declare;
- the `unicode_t` type of `CompressUnicode` (unicode.cpp:31).

All of them are named constants, predicates, members or types of the model:
- `VRS` is the three Volume Structure Descriptors at one sector.
- The tag identifiers take their ECMA-167 values: 5, 6, 256, 257 and 261.
- `DEFAULT_COPY_SIZE` is 2048.
- `fsd` is a member of `FileSystem`, an optional File Set Descriptor.
- `unicode_t` is a 16-bit unsigned character, `Uint16`.

Struct sizes follow a C compiler with natural alignment. `Lb_addr` pads to 8
bytes and `long_ad` to 20. The reader therefore reads 524 bytes for a File Set
Descriptor, and the padding does not move any field it uses.

`FileSystem::loadFSD` declares a local `partition_sector` that shadows the
member of the same name. As a result, `getPartitionSectorNumber` returns a
member that nothing assigns. The model keeps that member and proves `Load`
leaves it unchanged. `FsEntry` takes the partition start it uses as an
explicit constructor argument.

The block size is also inconsistent. `loadFSD` finds the File Set Descriptor
at `partition * 2048 + block * LogicalBlockSize` but the root File Entry at
`(partition + block) * LogicalBlockSize`; `RootOffsetAgreesWithFsdRule` states
exactly when those two rules agree. `FsEntry` then addresses every block as
one 2048-byte device sector; `FsEntryAgreesWithRootRule` states exactly when
that rule agrees with `loadFSD`'s root rule.

## Model

| member | source | states |
|---|---|---|
| LittleEndian.LeU16 | udf_types.h:9 | a `Uint16` field occupies two bytes |
| LittleEndian.LeU32 | udf_types.h:11 | a `Uint32` field occupies four bytes |
| LittleEndian.LeI16 | udf_types.h:10 | an `Int16` field occupies two bytes |
| LittleEndian.U16RoundTrip | udf_types.h:9 | reading two bytes laid out little-endian gives back the 16-bit value |
| LittleEndian.U16Bytes | udf_types.h:9 | any two bytes are the little-endian layout of the value read from them |
| LittleEndian.U32RoundTrip | udf_types.h:11 | reading four bytes laid out little-endian gives back the 32-bit value |
| LittleEndian.U32Bytes | udf_types.h:11 | any four bytes are the layout of the value read from them |
| LittleEndian.I16RoundTrip | udf_types.h:10 | a signed 16-bit value, two's complement, reads back from its two bytes |
| LittleEndian.I16Bytes | udf_types.h:10 | any two bytes are the layout of the signed value read from them |
| UdfTypes.EncodeCharspec | udf_types.h:14-18 | a charspec is 1 + 63 = 64 bytes |
| UdfTypes.EncodeTimestamp | udf_types.h:20-32 | a timestamp is 12 bytes |
| UdfTypes.EncodeEntityId | udf_types.h:34-39 | an EntityID is 1 + 23 + 8 = 32 bytes |
| UdfTypes.EncodeExtentAd | udf_types.h:41-45 | an extent_ad is 8 bytes |
| UdfTypes.EncodeLbAddr | udf_types.h:47-52 | an Lb_addr is 6 bytes on disk |
| UdfTypes.EncodeShortAd | udf_types.h:54-57 | a short_ad is 8 bytes |
| UdfTypes.EncodeLongAd | udf_types.h:60-65 | a long_ad is 16 bytes on disk |
| UdfTypes.EncodeTag | udf_types.h:67-77 | a tag is 16 bytes |
| UdfTypes.CharspecRoundTrip | udf_types.h:14-18 | the character set type is byte 0 and its information bytes 1-63 |
| UdfTypes.TimestampRoundTrip | udf_types.h:20-32 | TypeAndTimezone is the u16 at 0, Year the signed i16 at 2, then Month to Microseconds one byte each at 4-11 |
| UdfTypes.TimestampBytes | udf_types.h:20-32 | every 12 bytes are the layout of the timestamp decoded from them |
| UdfTypes.EntityIdRoundTrip | udf_types.h:34-39 | Flags is byte 0, Identifier bytes 1-23, IdentifierSuffix bytes 24-31 |
| UdfTypes.ExtentAdRoundTrip | udf_types.h:41-45 | the length is the u32 at 0 and the location the u32 at 4 |
| UdfTypes.ExtentAdBytes | udf_types.h:41-45 | every 8 bytes are the layout of the extent decoded from them |
| UdfTypes.ShortAdRoundTrip | udf_types.h:54-57 | ExtentLength is the whole u32 at 0 and ExtentPosition the u32 at 4 |
| UdfTypes.ShortAdBytes | udf_types.h:54-57 | every 8 bytes are the layout of the short_ad decoded from them |
| UdfTypes.LongAdRoundTrip | udf_types.h:47-65 | on disk, ExtentLength is at 0-3, logicalBlockNumber at 4-7, partitionReferenceNumber at 8-9 and implementation use at 10-15 (the C struct puts implementation use at 12-17) |
| UdfTypes.LongAdBytes | udf_types.h:47-65 | every 16 bytes are the layout of the long_ad decoded from them |
| UdfTypes.TagRoundTrip | udf_types.h:67-77 | TagIdentifier is the u16 at bytes 0-1, and the other eight fields follow at their offsets up to TagLocation at 12-15 |
| UdfTypes.TagBytes | udf_types.h:67-77 | every 16 bytes are the layout of the tag decoded from them |
| Udf.EncodeVsd | udf.h:74-80 | a Volume Structure Descriptor fills exactly one 2048-byte sector |
| Udf.VsdRoundTrip | udf.h:74-80 | the type is byte 0, the identifier bytes 1-5, the version byte 6, the data bytes 7-2047 |
| Udf.VsdBytes | udf.h:74-80 | every sector is the layout of the descriptor decoded from it |
| Udf.EncodeAvdp | udf.h:108-114 | the anchor is 512 bytes |
| Udf.AvdpRoundTrip | udf.h:108-114 | the main sequence extent is at bytes 16-23 and the reserve extent at bytes 24-31 |
| Udf.EncodePd | udf.h:137-151 | a Partition Descriptor is 512 bytes |
| Udf.PdRoundTrip | udf.h:137-151 | PartitionNumber is at 22, AccessType at 184, PartitionStartingLocation the u32 at 188, PartitionLength at 192 |
| Udf.EncodeLvd | udf.h:166-181 | the Logical Volume Descriptor header is 440 bytes |
| Udf.LvdRoundTrip | udf.h:166-181 | LogicalBlockSize is the u32 at 212; LogicalVolumeContentsUse is 16 bytes at 248 and holds the File Set Descriptor's long_ad; the integrity extent is at 432 |
| Udf.EncodeFsd | udf.h:187-207 | a File Set Descriptor is 512 bytes on disk |
| Udf.FsdRoundTrip | udf.h:187-207 | the recording time is at 16 and RootDirectoryICB the long_ad at 400 |
| Streams.ReadAt | datastream.cpp:37-91 | a read succeeds only with exactly the requested number of bytes, and then they are the device's bytes |
| Streams.ImageRead | datastream.cpp:68-88 | on a device that serves one image file, a read inside the image yields its bytes, a read of no bytes succeeds empty wherever it seeks, and any other read fails |
| Streams.DataStream.constructor | datastream.cpp:10-15 | a stream is bound to its device and has issued no read |
| Streams.DataStream.Read | datastream.cpp:37-91 | the result is the device's answer, and the request is appended to the log |
| Bootstrap.VrsScan | fs.cpp:26-52 | defines the recognition scan: from sector 16, success at the first readable valid triplet, failure at the first failed read or after sector AVDP_SECTOR - 3 |
| Bootstrap.VrsScanIff | fs.cpp:26-52 | the scan succeeds iff some sector from VRS_SECTOR to AVDP_SECTOR - 3 holds a valid triplet and every sector before it was read and held none |
| Bootstrap.VrsReadsInWindow | fs.cpp:32-43 | the scan reads one triplet per sector, consecutively from VRS_SECTOR, and never past AVDP_SECTOR - 3 |
| Bootstrap.VrsCountInWindow | fs.cpp:32 | the sectors read end at AVDP_SECTOR - 3 at the latest |
| Bootstrap.SelectVds | fs.cpp:66-81 | the choice is the main extent when its length and sector are both non-zero, else the reserve extent under the same condition, else nothing |
| Bootstrap.AnchorSelection | fs.cpp:59-88 | defines stage 2: a failed anchor read selects nothing, otherwise `SelectVds` of the decoded anchor |
| Bootstrap.CraftedAnchorSelectsReserve | fs.cpp:74-81 | an anchor with a zero main extent and a usable reserve extent makes the reader use the reserve |
| Bootstrap.KeptPd | fs.cpp:111-117 | the Partition Descriptor member is set iff the scan read one or it was set before |
| Bootstrap.KeptLvd | fs.cpp:118-124 | the same rule for the Logical Volume Descriptor member |
| Bootstrap.VdsStep | fs.cpp:106-127 | defines one sector of the scan: peek the tag; tag 5 re-reads the sector as a Partition Descriptor, tag 6 as a Logical Volume Descriptor, any other tag keeps what was found; any failed read ends the scan |
| Bootstrap.VdsScan | fs.cpp:94-128 | defines the sector loop from the start sector up to, not including, the end sector, stopping at the first sector whose reads fail |
| Bootstrap.VdsStepDefined | fs.cpp:106-124 | one sector fails exactly when its tag read, or the descriptor read the tag announces, fails |
| Bootstrap.VdsShortSequenceScansNothing | fs.cpp:96-104 | a sequence of at most 2048 bytes has end sector equal to its start, so it scans nothing, reads nothing and fails |
| Bootstrap.VdsCompletedIff | fs.cpp:104-128 | the scan runs to `end_sector` iff every sector before it is readable |
| Bootstrap.VdsReadsSplit | fs.cpp:104-128 | over readable sectors, the requests of the scan are those of each sector in turn |
| Bootstrap.VdsReadsInWindow | fs.cpp:104-128 | every read is at the start of a sector from `vds_sector` up to, not including, `end_sector`, and a complete scan reads every such sector's tag |
| Bootstrap.VdsUntouched | fs.cpp:111-124 | without a Partition (Logical Volume) Descriptor tag in the window, the scan keeps what it started with |
| Bootstrap.VdsLastPartitionWins | fs.cpp:111-117 | a later Partition Descriptor overwrites an earlier one: the member holds the descriptor at the last sector tagged 5 |
| Bootstrap.VdsLastLogicalVolumeWins | fs.cpp:118-124 | likewise, the member holds the Logical Volume Descriptor at the last sector tagged 6 |
| Bootstrap.VdsFoundIff | fs.cpp:111-124 | a complete scan holds a descriptor iff it started with one or some sector of the window carries its tag |
| Bootstrap.VdsSuccessIff | fs.cpp:94-139 | stage 3 succeeds iff every sector of the window is readable and the window holds both a tag 5 and a tag 6 |
| Bootstrap.VdsKeepsTaggedDescriptors | fs.cpp:106-124 | on one image, every kept descriptor carries the tag identifier the scan peeked at its sector |
| Bootstrap.RootOffsetAgreesWithFsdRule | fs.cpp:160-184 | the root offset `(partition + lbn) * block size` equals the File Set Descriptor rule `partition * 2048 + lbn * block size` iff the partition starts at 0 or blocks are 2048 bytes |
| Bootstrap.FsdStage | fs.cpp:145-236 | stage 4 succeeds only with both a File Set Descriptor and a root File Entry in hand |
| Bootstrap.FsdStageSucceeds | fs.cpp:160-208 | stage 4 succeeds iff the File Set Descriptor read at `partition * 2048 + lbn * block size` checks, and the root entry read at `(partition + lbn) * block size` for RootDirectoryICB.ExtentLength bytes checks |
| Bootstrap.LoadVolume | fs.cpp:244-263 | defines the four stages in order, each run only when the previous one succeeded, and the mounted volume made of their results |
| Bootstrap.LoadStopsAtRecognition | fs.cpp:249-250 | a failed recognition scan fails the mount, and nothing after it is read |
| Bootstrap.LoadStopsAtAnchor | fs.cpp:252-253 | a failed anchor stage fails the mount, and nothing after it is read |
| Bootstrap.LoadStopsAtVds | fs.cpp:255-256 | a failed sequence scan fails the mount, and nothing after it is read |
| Bootstrap.LoadRunsFsd | fs.cpp:258-262 | once stage 3 succeeds, the mount succeeds iff stage 4 does, and the volume is made of the four stages' results |
| Bootstrap.MountedVolume | fs.cpp:244-263 | a mounted volume was recognised; its sequence extent is the anchor's usable choice; its File Set Descriptor and root File Entry carry their tags; the root is as long as the ICB says; on one image its PD and LVD carry tags 5 and 6 |
| FileSystems.FileSystem.constructor | fs.cpp:14-19 | a new file system is not loaded, has a zero sequence extent and holds no descriptor or root entry |
| FileSystems.FileSystem.GetPartitionSectorNumber | fs.h:65 | returns the partition sector member |
| FileSystems.FileSystem.CheckVolumeRecognitionSequence | fs.cpp:26-52 | the result is the recognition scan's, and the triplets read are exactly those the scan lists |
| FileSystems.FileSystem.ReadVrsAt | fs.cpp:34-40 | one loop step reads one triplet and tells a valid triplet, an invalid one and a failed read apart |
| FileSystems.FileSystem.LoadAvdp | fs.cpp:59-88 | succeeds iff the anchor is read and selects an extent; the extent members then hold it, and are unchanged on failure; one read at AVDP_OFFSET |
| FileSystems.FileSystem.LoadVds | fs.cpp:94-139 | succeeds iff the sector scan completes with both descriptors; the members hold the last descriptor of each kind read, or their old value; the reads are the scan's |
| FileSystems.FileSystem.LoadVdsSector | fs.cpp:106-124 | one loop step: the tag read, then the announced descriptor read into its member; it fails iff the sector is unreadable |
| FileSystems.FileSystem.LoadFsd | fs.cpp:145-236 | the result and the File Set Descriptor and root members are stage 4's; the reads are stage 4's |
| FileSystems.FileSystem.Load | fs.cpp:244-263 | a second call fails and changes nothing; otherwise the result is whether the four stages mount the volume, `isLoaded` records success, the reads are the stages' up to the first failure, the members hold the mounted volume, and the partition sector member is untouched |
| Fid.RawName | fsentryptr.cpp:40-41 | the name is the L_FI bytes at 38 + L_IU |
| Fid.Padding | fsentryptr.cpp:27 | the padding is between 0 and 3 and brings the record to a multiple of 4 |
| Fid.TotalLength | fsentryptr.cpp:27-28 | the record length is the least multiple of 4 holding 38 + L_FI + L_IU bytes, and at least 40 |
| Fid.FilterPrintable | fsentryptr.cpp:43-59 | the kept name has only bytes 32 to 126, as many as the name holds |
| Fid.FilterConcat | fsentryptr.cpp:55-57 | the filter keeps bytes in their order: filtering a concatenation concatenates the filtered parts |
| Fid.FilterKeepsPrintable | fsentryptr.cpp:43-59 | a printable name passes unchanged |
| Fid.FilterNonEmptyIff | fsentryptr.cpp:43-59 | the kept name is non-empty iff some byte is printable |
| Fid.FilterIdentifier | fsentryptr.cpp:43-59 | the counting loop and the copying loop give exactly the printable bytes, in order, and their count |
| Fid.DirectoryFlag | fsentryptr.cpp:73-79 | the shifts on an unsigned byte keep bit 1, the Directory bit, and nothing else |
| Fid.DecodeFid | fsentryptr.cpp:6-82 | there is no identifier iff L_FI is 0; the stored length is that of the filtered name; the link is never hidden and is a directory iff the directory bit of the characteristics is set |
| Fid.ValidIff | fsentryptr.cpp:101-104 | a link is valid iff its name holds a printable byte; L_FI = 0 is never valid |
| Fid.MatchedNameIsPrintable | fsentryptr.cpp:119-124 | a matched name is printable, and the link it matched is valid iff the name is non-empty |
| Fid.EncodeFidHeader | fsentryptr.cpp:16-25 | the fixed part of a File Identifier Descriptor is 38 bytes |
| Fid.EncodeFid | fsentryptr.cpp:27-28 | an encoded record is as long as the total length the decoder computes |
| Fid.FidHeaderRoundTrip | fsentryptr.cpp:16-25 | FileCharacteristics is at byte 18, L_FI at 19, the ICB long_ad at 20 and L_IU the u16 at 36 |
| Fid.FidRoundTrip | fsentryptr.cpp:6-82 | an encoded record, whatever follows it, decodes to its header and to the link of its name |
| FsEntrySpec.EntryOffset | fsentry.cpp:31-32 | defines the byte offset of a block as (partition start + block) sectors of 2048 bytes, in unbounded arithmetic |
| FsEntrySpec.FsEntryAgreesWithRootRule | fsentry.cpp:31-32 | `FsEntry`'s offset `(partition + block) * 2048` equals `loadFSD`'s root rule `(partition + block) * block size` iff partition + block is 0 or blocks are 2048 bytes |
| FsEntrySpec.EntryOffsetsDisjoint | fsentry.cpp:31-32 | distinct blocks of a partition lie in disjoint sectors |
| FsEntrySpec.AsWrittenAgreesBelow4GiB | fsentry.cpp:31-32 | the 32-bit offset equals the true one iff partition start plus block is below 0x200000, the first 4 GiB |
| FsEntrySpec.WrappedOffsetAliasesBlockZero | fsentry.cpp:31-32 | as written, block 0x200000 of a partition at sector 0 is read at offset 0 |
| FsEntrySpec.DecodeFeHeader | fsentry.cpp:70-81 | a header is decoded only from a buffer holding the fixed part whose tag is 261 |
| FsEntrySpec.AllocationDescriptor | fsentry.cpp:99 | the short_ad at 176 + L_EA is found iff it lies inside the buffer |
| FsEntrySpec.EncodeFileEntry | fsentry.cpp:77-81 | the fixed part of a File Entry is 176 bytes, followed by the extended attributes and the allocation descriptor |
| FsEntrySpec.FileEntryRoundTrip | fsentry.cpp:70-99 | L_EA is the u32 at 168, L_AD at 172, the access, modification and attribute times at 72, 84 and 96, and the allocation descriptor at 176 + L_EA |
| FsEntrySpec.LoadBufferStep | fsentry.cpp:23-47 | a loaded buffer is kept with no read; otherwise one read of ExtentLength bytes at `(partition + lbn) * 2048`; the result says whether a buffer is now held |
| FsEntrySpec.InitializeStep | fsentry.cpp:59-84 | an initialized entry is left alone with no read; success means initialized, valid and holding the header decoded from the buffer; failure leaves `is_valid` as it was |
| FsEntrySpec.TakeHeaderStep | fsentry.cpp:70-83 | decoding reads nothing and keeps the buffer and the directory flag |
| FsEntrySpec.TakeHeaderOutcome | fsentry.cpp:70-83 | decoding succeeds iff the buffer holds a File Entry header; then exactly the flags and the header change; on failure both flags are kept |
| FsEntrySpec.InitializeOnce | fsentry.cpp:61-62 | after success, a second `initialize` changes nothing and reads nothing |
| FsEntrySpec.Links | fsentry.cpp:129-136 | only valid records become links, and there are no more links than records |
| FsEntrySpec.LinksConcat | fsentry.cpp:129-136 | keeping valid records preserves on-disk order |
| FsEntrySpec.LinksKeepValid | fsentry.cpp:129-136 | a record is linked iff it is a valid record of the scan |
| FsEntrySpec.ScanFids | fsentry.cpp:116-139 | defines the directory scan: stop with failure at a record without the File Identifier tag or that does not fit, otherwise decode it and move on by its padded length, until the end of the extent |
| FsEntrySpec.ScanEncoded | fsentry.cpp:116-139 | an extent of well-formed records scans to the end and yields one link per record, in order: the cursor moves by each record's padded length |
| FsEntrySpec.PopulateStep | fsentry.cpp:86-144 | a file is refused with no change; an already populated directory gains no link; every link kept is valid |
| FsEntrySpec.ReadChildrenStep | fsentry.cpp:98-143 | children are read without touching the flags; the buffer is kept or dropped and nothing else changes; every link is valid |
| FsEntrySpec.PopulateOnce | fsentry.cpp:95-96 | once populated with children, `populate` returns true, changes nothing and reads nothing |
| FsEntrySpec.EmptyDirectoryRepopulateUnsafe | fsentry.cpp:95-99 | a directory whose scan leaves no valid link ends without its buffer, so the next `populate` dereferences a missing buffer |
| FsEntrySpec.PopulateLinksRecords | fsentry.cpp:86-144 | on one image with well-formed records, `populate` succeeds, links exactly the valid records in order, and drops the buffer |
| FsEntrySpec.ScanStopsAtForeignTag | fsentry.cpp:116-124 | well-formed records followed by a record without the File Identifier tag scan to that record's links in order and mark the scan incomplete |
| FsEntrySpec.PopulateStopsAtForeignTag | fsentry.cpp:95-124 | on one image, such an extent makes `populate` return false while keeping the links decoded before the bad record and the File Entry buffer; when a link was kept, the next `populate` returns true without reading |
| FsEntrySpec.ReadChildrenStopsOnImage | fsentry.cpp:111-124 | on one image, an extent whose scan stops early fails, keeps the valid links scanned before the stop and keeps the buffer |
| FsEntrySpec.ReadChildrenOnImage | fsentry.cpp:111-143 | on one image, an extent that scans to its end yields exactly the valid records' links and drops the buffer |
| FsEntrySpec.FirstMatch | fsentry.cpp:161-169 | the index found is that of the first link whose name equals `name`; none iff no link matches |
| FsEntrySpec.ScaledSizeUnits | fsentry.cpp:289-301 | "B" iff the size is at most 5000; "KB" iff above 5000 with size / 1024 at most 5000; "MB" iff size / 1024 is above 5000, and then the number is size / 1024 / 1024 |
| FsEntrySpec.DecimalString | fsentry.cpp:303-305 | digits only, at least one, no leading zero |
| FsEntrySpec.DecimalRoundTrip | fsentry.cpp:303-305 | the printed digits denote the number |
| FsEntrySpec.FileSizeStep | fsentry.cpp:274-306 | defines `getFileSizeAsString`: "unknown" when initialize, loadBuffer or the allocation descriptor fails, "<dir>" for a directory, else the scaled length and unit, with the buffer dropped |
| FsEntrySpec.FileSizeText | fsentry.cpp:274-306 | the text is "<dir>" iff an initialized directory; "unknown" when `initialize` fails; any other text is an initialized file whose File Entry loaded with an allocation descriptor, and it is the size string of that descriptor's extent length (digits of the scaled size followed by its unit) |
| FsEntrySpec.CopyPlanSum | fsentry.cpp:239-265 | the chunk lengths add up to ExtentLength |
| FsEntrySpec.CopyPlanChunks | fsentry.cpp:241-243 | each chunk is non-empty, inside the extent, and `min(DEFAULT_COPY_SIZE, remaining)` long |
| FsEntrySpec.CopyPlanContiguous | fsentry.cpp:239-265 | chunks start at 0 and each starts where the previous one ended |
| FsEntrySpec.CopyExtent | fsentry.cpp:239-265 | defines the copy loop: chunks of min(2048, rest) read at the file position plus the copied length, ending with failure at the first failed read |
| FsEntrySpec.CopyFromImage | fsentry.cpp:237-265 | on one image holding the extent, the copy succeeds, writes exactly the extent's bytes and reads at `file_position + cp_offset` chunk by chunk |
| FsEntrySpec.CopyFollowsPlan | fsentry.cpp:239-265 | any copy issues a prefix of the planned reads, and all of them when it succeeds |
| FsEntrySpec.JoinPath | fsentry.cpp:216-218 | defines the destination path: the directory, a '/' unless it ends in one, then the name |
| FsEntrySpec.JoinPathShape | fsentry.cpp:216-218 | the destination is the directory, one '/' unless it already ends in one, then the name |
| FsEntrySpec.WriteStep | fsentry.cpp:206-214 | a directory is refused with no change and no read; a file whose `initialize` fails is refused with no destination opened and nothing written |
| DirectoryTree.FsEntry.constructor | fsentry.cpp:6-16 | a new entry has its address, directory flag and parent, no buffer, no children, and is neither valid nor initialized |
| DirectoryTree.FsEntry.LoadBuffer | fsentry.cpp:23-47 | computes `LoadBufferStep`: the buffer, the result and the reads |
| DirectoryTree.FsEntry.ClearBuffer | fsentry.cpp:49-57 | returns true with no buffer held |
| DirectoryTree.FsEntry.Initialize | fsentry.cpp:59-84 | computes `InitializeStep`: the result, every field it assigns and the reads |
| DirectoryTree.FsEntry.TakeHeader | fsentry.cpp:70-83 | computes `TakeHeaderStep` on the loaded buffer |
| DirectoryTree.FsEntry.ScanExtent | fsentry.cpp:116-139 | the loop succeeds iff the scan completes; the children's links are the scan's valid records in order; each child is a fresh stub of this entry |
| DirectoryTree.FsEntry.AddChild | fsentry.cpp:126-138 | one record: a new child is appended iff the record is valid, and the cursor advances by its padded length |
| DirectoryTree.FsEntry.Populate | fsentry.cpp:86-144 | computes `PopulateStep`; existing children are kept; new children are fresh stubs whose links are the step's |
| DirectoryTree.FsEntry.ReadChildren | fsentry.cpp:98-143 | computes `ReadChildrenStep`, with the links as children |
| DirectoryTree.FsEntry.GetSubEntry | fsentry.cpp:156-170 | this entry ends in the state `populate` leaves; non-null iff `populate` succeeds and some child's name equals `name`, and then the first such child, initialized from its prior state (a stub when just created); the requests are populate's, then the child's initialize's; the other children are untouched and the children stay on this device |
| DirectoryTree.FsEntry.OpenChild | fsentry.cpp:161-169 | non-null iff some child matches, and then the first such child's entry after its `initialize`, with exactly that initialize's requests; no request when none matches, and the other children are untouched |
| DirectoryTree.FsEntry.FindChild | fsentry.cpp:161-168 | the loop stops at the first matching child, or after the last |
| DirectoryTree.FsEntry.GetParentEntry | fsentry.cpp:172-177 | the parent, or the entry itself when it has none |
| DirectoryTree.FsEntry.GetFileSizeAsString | fsentry.cpp:274-306 | computes `FileSizeStep`: the text, the new state and the reads |
| DirectoryTree.FsEntry.WriteDataToFile | fsentry.cpp:206-272 | computes `WriteStep`: the result, the destination path, the bytes written, the new state and the reads |
| DirectoryTree.FsEntry.CopyData | fsentry.cpp:233-265 | the copy loop computes `CopyExtent`: result, bytes written in order and the reads |
| DirectoryTree.FsEntryPtr.constructor | fsentryptr.cpp:6-82 | the link is the decoded record; the child is a fresh stub with the record's ICB address, its directory flag and the parent |
| DirectoryTree.FsEntryPtr.GetTotalLength | fsentryptr.cpp:106-109 | the padded record length of the decoded link |
| DirectoryTree.FsEntryPtr.GetEntry | fsentryptr.cpp:111-117 | the child, after its `initialize` |
| Unicode.Width | unicode.cpp:49-58 | one byte per character under ID 8, two under ID 16 |
| Unicode.Unit | unicode.cpp:49-58 | each character contributes exactly that many bytes |
| Unicode.Compressed | unicode.cpp:47-60 | the output holds `numberOfChars` bytes under ID 8 and twice as many under ID 16 |
| Unicode.Compressed16At | unicode.cpp:49-58 | under ID 16, the character at i is stored high byte first at 2i |
| Unicode.Compressed8At | unicode.cpp:58 | under ID 8, the character at i is stored as its low byte at i |
| Unicode.CompressedSnoc | unicode.cpp:47-60 | characters are written in input order |
| Unicode.Wide16RoundTrip | unicode.cpp:49-58 | ID 16 loses nothing |
| Unicode.Narrow8RoundTrip | unicode.cpp:10-13 | ID 8 loses nothing iff every character fits in 8 bits, which the routine does not check |
| Unicode.CompressUnicode | unicode.cpp:24-63 | -1 and nothing written for an unsupported ID; otherwise the compressed form of the first `numberOfChars` characters from index 0, with its length returned (0 when `numberOfChars` is not positive) and the rest of the buffer untouched |
| Console.Find | console.cpp:22 | the first separator at or after `start`, none iff there is none |
| Console.Split | console.cpp:19-31 | the tokens are appended to the existing ones, in left-to-right order |
| Console.SplitNotEmpty | console.cpp:30 | one call always appends at least one token |
| Console.OnlyLastMayBeEmpty | console.cpp:22-30 | only the final token can be empty |
| Console.NoSeparatorInTokens | console.cpp:22-30 | no token contains the separator |
| Console.NoSeparatorIsSingleToken | console.cpp:22-30 | the text comes back as the only token iff it holds no separator |
| Console.TokensRebuildText | console.cpp:19-31 | the tokens laid end to end are the text with its separators removed |

## Left out

- Device I/O (datastream.cpp:37-91). Opening, seeking and reading are one abstract read per request. `DataStream.Read`: a short read may partly fill the C buffer before it fails, but in the model a failed read leaves its target member as it was.
- Streams.ReadAt and Streams.DataStream.Read: datastream.h:23 declares `read(int seek, …)` while datastream.cpp:37 defines `read(Uint64 seek, …)`, so callers compiled against the header pass an `int` offset and a read at 2 GiB or beyond fails or lands elsewhere. The model takes every offset as an unbounded natural.
- Streams.ReadAt and Streams.DataStream.Read: datastream.cpp:84 compares `ret < (int)len`, which accepts a short read when `len` is 2^31 or more. The model rejects every short read.
- The `vrs` and `avdp` members are not kept. The stage methods decode the bytes they read into locals (fs.cpp:34, 61).
- FileSystems.FileSystem.LoadAvdp: `vds_length` and `vds_sector` are `int` in fs.h:27-28, so an extent field of 2^31 or more becomes negative there. A negative `vds_length` puts `end_sector` (fs.cpp:97) below `sector`, and the `sector != end_sector` loop of fs.cpp:104 then runs on past the sequence until a read fails. The model keeps the unsigned value and does not model that wrap; `Bootstrap.VdsScan`'s `requires sector <= end` holds only because the length is kept unsigned.
- Bootstrap.FsdStage: the offsets of fs.cpp:160-161 and 183-184 are 32-bit unsigned and `int` arithmetic in the source. The model computes them without wrap-around. Likewise `root_length` is an `int` (fs.cpp:185), so a root ICB `ExtentLength` of 2^31 or more is negative before the `malloc` and the read of fs.cpp:191-193; the model keeps the unsigned length.
- Bootstrap.FsdStage: a failed root read leaves no root entry. The source's fresh `malloc` buffer has unspecified contents, and `root_file_entry` is declared `FsEntry*` (fs.h:36) while fs.cpp:191 uses it as a File Entry.
- Reads past the end of a buffer at a fixed offset are undefined behaviour in C. In the model they are failures: a File Entry shorter than its header, a short_ad beyond the buffer, and FID records that do not fit in the extent (fsentryptr.cpp:22 ignores `len`).
- FsEntrySpec.PopulateStep: requires the buffer to be present where fsentry.cpp:99 dereferences it. The source crashes there, and `EmptyDirectoryRepopulateUnsafe` shows when.
- The use-after-free at fsentry.cpp:135-138 is modelled as intended: the cursor advances by the record's length, valid or not.
- DirectoryTree.FsEntry.WriteDataToFile: `open`, `write` and `close` are not modelled. The outcome of opening is a parameter, and the bytes written are returned instead of written. The failure of `write(2)` and the progress percentage (fsentry.cpp:252-262) are left out.
- DirectoryTree.FsEntry.WriteDataToFile: a failed `loadBuffer` at fsentry.cpp:228 ends the copy with false; the source ignores it and reads through a null buffer.
- FsEntrySpec.JoinPathShape requires a non-empty destination directory, because fsentry.cpp:216 reads `dest[-1]` otherwise.
- FsEntrySpec.WriteStep and DirectoryTree.FsEntry.WriteDataToFile require a non-empty destination directory only for a file whose `initialize` succeeds, the one case that reaches `dest[-1]` at fsentry.cpp:216.
- FileSystems.FileSystem.Load: after a failed mount the contract leaves `vdsLength`, `vdsSector`, `pd`, `lvd`, `fsd` and `rootFileEntry` unspecified. The source leaves there whatever the stages wrote before the failure (the chosen extent, descriptors already read, a File Set Descriptor whose tag failed), and a retried `load` starts from those values.
- `print` (fsentry.cpp:179-204, fsentryptr.cpp:126-166), `destroy`, the destructors, `setDirectory`, `isDirectory`, and the `LOG`/`raise` macros: these are output and memory management.
- `Console::run` and `displayPrompt`: this is the interactive loop. `SplitNotEmpty` shows that its `continue` at console.cpp:47-48 never runs.
- Console.Split: the `int` indices and the `(int)npos` comparison (console.cpp:21-22) are modelled as unbounded naturals.
- Unicode.CompressUnicode: the compression-ID byte is not written, as in unicode.cpp:44. `Uncompressed` is a reference decoder for the round-trip lemmas, not part of the reader.
- Primary Volume Descriptor, integrity descriptors, tag checksum and CRC, the extent-type bits of `ExtentLength`, and the `ls`/`cd`/`cp`/`fdisk` commands: these are only declared (fs.h:56-63) or not defined at all, and are not part of this model.

## Findings

| source | as written | input that shows it | evidently intended | confidence | as-written member | corrected member |
|---|---|---|---|---|---|---|
| fsentry.cpp:31-32 | `(partition sector + block) * SECTOR_SIZE` is computed in 32-bit unsigned arithmetic before it is widened to the 64-bit offset; the same expression is used at fsentry.cpp:111 and 237-238 | partition start 0, block 0x200000, on a volume over 4 GiB: the offset is 0 instead of 4 GiB | the 64-bit byte offset of the block | medium, not executed | FsEntrySpec.WrappedOffsetAliasesBlockZero | FsEntrySpec.EntryOffsetsDisjoint |
