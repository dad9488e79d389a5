/** The File Identifier Descriptor (ECMA-167 4/14.4) as the `FsEntryPtr`
    constructor (fsentryptr.cpp) decodes it: the fixed header, the padded
    record length that finds the next sibling, the name filtered down to
    printable ASCII and the directory bit. An encoder lays a record out
    field by field; the round trip pins every offset. */
module Fid {
  import opened Wrappers
  import opened LittleEndian
  import opened UdfTypes
  import opened Udf

  // Byte offsets inside a File Identifier Descriptor
  const FID_CHARACTERISTICS_OFFSET: nat := 18
  const FID_L_FI_OFFSET: nat := 19
  const FID_ICB_OFFSET: nat := 20
  const FID_L_IU_OFFSET: nat := 36
  /** The fixed part of a record; the implementation use and the name follow. */
  const FID_HEADER_SIZE: nat := 38

  /** The bytes the decoder copies from the start of a record whatever the
      record holds: the `long_ad` copied from byte 20 is sizeof(long_ad) =
      20 bytes long, so the copy ends at byte 40. */
  const FID_DECODE_SPAN: nat := FID_ICB_OFFSET + LONG_AD_STRUCT_SIZE

  datatype FidHeader = FidHeader(
    descriptorTag: Tag, fileCharacteristics: Uint8, lengthOfFileIdentifier: Uint8,
    icb: LongAd, lengthOfImplementationUse: Uint16)

  function DecodeFidHeader(b: seq<Uint8>): FidHeader
    requires Fits(b, 0, FID_DECODE_SPAN)
  {
    FidHeader(DecodeTag(b, 0), b[FID_CHARACTERISTICS_OFFSET], b[FID_L_FI_OFFSET],
              DecodeLongAd(b, FID_ICB_OFFSET), U16At(b, FID_L_IU_OFFSET))
  }

  /** Where the name starts: after the header and the implementation use. */
  function NameOffset(h: FidHeader): nat
  {
    FID_HEADER_SIZE + h.lengthOfImplementationUse
  }

  /** Every byte the constructor copies lies inside `b`; the name is copied
      only when it is not empty. */
  predicate FidFits(b: seq<Uint8>)
  {
    && Fits(b, 0, FID_DECODE_SPAN)
    && var h := DecodeFidHeader(b);
       h.lengthOfFileIdentifier == 0 || Fits(b, NameOffset(h), h.lengthOfFileIdentifier)
  }

  /** The raw name bytes of a record whose name is not empty. */
  function RawName(b: seq<Uint8>): (r: seq<Uint8>)
    requires FidFits(b) && DecodeFidHeader(b).lengthOfFileIdentifier != 0
    ensures |r| == DecodeFidHeader(b).lengthOfFileIdentifier
  {
    var h := DecodeFidHeader(b);
    b[NameOffset(h)..NameOffset(h) + h.lengthOfFileIdentifier]
  }

  // ---------------------------------------------------------------- record length

  /** The padding term as the source computes it. */
  function Padding(lFi: Uint8, lIu: Uint16): (p: int)
    ensures 0 <= p <= 3
    ensures (FID_HEADER_SIZE + lFi + lIu + p) % 4 == 0
  {
    4 * ((lFi + lIu + 38 + 3) / 4) - (lFi + lIu + 38)
  }

  /** `total_size`: header, name, implementation use and padding. It is the
      least multiple of 4 that holds the unpadded record. */
  function TotalLength(lFi: Uint8, lIu: Uint16): (t: Uint32)
    ensures t % 4 == 0
    ensures FID_HEADER_SIZE + lFi + lIu <= t < FID_HEADER_SIZE + lFi + lIu + 4
    ensures t >= 40
  {
    FID_HEADER_SIZE + lFi + lIu + Padding(lFi, lIu)
  }

  // ---------------------------------------------------------------- name filter

  /** The bytes the constructor keeps in a name: 32 to 126, printable ASCII. */
  predicate Printable(c: Uint8)
  {
    32 <= c <= 126
  }

  function CountPrintable(raw: seq<Uint8>): nat
  {
    if raw == [] then 0
    else CountPrintable(raw[..|raw| - 1]) + (if Printable(raw[|raw| - 1]) then 1 else 0)
  }

  /** The printable bytes of `raw`, in their order. */
  function FilterPrintable(raw: seq<Uint8>): (r: seq<Uint8>)
    ensures |r| == CountPrintable(raw) <= |raw|
    ensures forall i :: 0 <= i < |r| ==> Printable(r[i])
  {
    if raw == [] then []
    else FilterPrintable(raw[..|raw| - 1]) + (if Printable(raw[|raw| - 1]) then [raw[|raw| - 1]] else [])
  }

  /** The filter works piece by piece: filtering a concatenation filters each
      part and keeps them in order. */
  lemma {:induction false} FilterConcat(a: seq<Uint8>, b: seq<Uint8>)
    ensures FilterPrintable(a + b) == FilterPrintable(a) + FilterPrintable(b)
    decreases |b|
  {
    if b == [] {
      assert a + b == a;
    } else {
      var b' := b[..|b| - 1];
      assert (a + b)[..|a + b| - 1] == a + b';
      assert (a + b)[|a + b| - 1] == b[|b| - 1];
      FilterConcat(a, b');
    }
  }

  /** A name that is printable already passes the filter unchanged. */
  lemma {:induction false} FilterKeepsPrintable(raw: seq<Uint8>)
    requires forall i :: 0 <= i < |raw| ==> Printable(raw[i])
    ensures FilterPrintable(raw) == raw
  {
    if raw != [] {
      FilterKeepsPrintable(raw[..|raw| - 1]);
      assert raw[..|raw| - 1] + [raw[|raw| - 1]] == raw;
    }
  }

  /** The filter leaves something exactly when some byte of the name is
      printable. */
  lemma {:induction false} FilterNonEmptyIff(raw: seq<Uint8>)
    ensures FilterPrintable(raw) != [] <==> exists i :: 0 <= i < |raw| && Printable(raw[i])
  {
    if raw != [] {
      var init := raw[..|raw| - 1];
      FilterNonEmptyIff(init);
      if exists i :: 0 <= i < |init| && Printable(init[i]) {
        var i :| 0 <= i < |init| && Printable(init[i]);
        assert raw[i] == init[i];
      }
      if exists i :: 0 <= i < |raw| && Printable(raw[i]) {
        var i :| 0 <= i < |raw| && Printable(raw[i]);
        if i < |init| {
          assert init[i] == raw[i];
        }
      }
    }
  }

  lemma {:induction false} CountPrefix(raw: seq<Uint8>, i: nat)
    requires i <= |raw|
    ensures CountPrintable(raw[..i]) <= CountPrintable(raw)
    decreases |raw| - i
  {
    if i < |raw| {
      CountPrefix(raw, i + 1);
      assert raw[..i + 1][..i] == raw[..i];
    } else {
      assert raw[..i] == raw;
    }
  }

  /** The two loops of the constructor: count the printable bytes of the
      name, allocate that many, then copy them one by one. */
  method FilterIdentifier(tmp: seq<Uint8>) returns (identifier: seq<Uint8>)
    ensures identifier == FilterPrintable(tmp)
    ensures |identifier| == CountPrintable(tmp)
  {
    var len := 0;
    var i := 0;
    while i < |tmp|
      invariant 0 <= i <= |tmp|
      invariant len == CountPrintable(tmp[..i])
    {
      assert tmp[..i + 1][..i] == tmp[..i];
      if Printable(tmp[i]) {
        len := len + 1;
      }
      i := i + 1;
    }
    assert tmp[..i] == tmp;
    var buffer := new Uint8[len];
    var j := 0;
    i := 0;
    while i < |tmp|
      invariant 0 <= i <= |tmp|
      invariant j == CountPrintable(tmp[..i]) && j <= len
      invariant buffer[..j] == FilterPrintable(tmp[..i])
    {
      assert tmp[..i + 1][..i] == tmp[..i];
      CountPrefix(tmp, i + 1);
      if Printable(tmp[i]) {
        buffer[j] := tmp[i];
        j := j + 1;
      }
      i := i + 1;
    }
    assert tmp[..i] == tmp;
    assert buffer[..len] == buffer[..j];
    identifier := buffer[..len];
  }

  // ---------------------------------------------------------------- directory bit

  /** `fileCharacteristics >>= 1; <<= 7; >>= 7;` on an unsigned byte (each
      compound assignment truncates to 8 bits): it keeps bit 1, the
      Directory bit of ECMA-167 4/14.4.3, and nothing else. */
  function DirectoryFlag(fileCharacteristics: Uint8): (isDirectory: bool)
    ensures isDirectory == (fileCharacteristics as bv8 & 2 != 0)
  {
    var c := fileCharacteristics as bv8;
    var c1 := c >> 1;
    var c2 := c1 << 7;
    var c3 := c2 >> 7;
    c3 != 0
  }

  // ---------------------------------------------------------------- decoded link

  /** What an `FsEntryPtr` holds once constructed: the filtered name (no
      name at all when L_FI is 0), its length, the directory flag, the
      record length, the hidden flag and the child's File Entry address. */
  datatype FidEntry = FidEntry(
    identifier: Option<seq<Uint8>>, identifierLength: nat, isDirectory: bool,
    totalSize: Uint32, isHidden: bool, icb: LongAd)

  function DecodeFid(b: seq<Uint8>): (r: FidEntry)
    requires FidFits(b)
    ensures r.identifier.None? <==> DecodeFidHeader(b).lengthOfFileIdentifier == 0
    ensures r.identifier.Some? ==> r.identifierLength == |r.identifier.value|
    ensures !r.isHidden && r.isDirectory == DirectoryFlag(DecodeFidHeader(b).fileCharacteristics)
  {
    var h := DecodeFidHeader(b);
    var identifier := if h.lengthOfFileIdentifier == 0 then None else Some(FilterPrintable(RawName(b)));
    FidEntry(identifier, if identifier.Some? then |identifier.value| else 0,
             DirectoryFlag(h.fileCharacteristics),
             TotalLength(h.lengthOfFileIdentifier, h.lengthOfImplementationUse),
             false, h.icb)
  }

  /** `isValid`: the link has a name and the name is not empty. */
  predicate IsValid(f: FidEntry)
  {
    !(f.identifierLength == 0 || f.identifier.None?)
  }

  /** A record yields a valid link exactly when its name holds at least one
      printable byte; an empty name (L_FI = 0) never does. */
  lemma ValidIff(b: seq<Uint8>)
    requires FidFits(b)
    ensures DecodeFidHeader(b).lengthOfFileIdentifier == 0 ==> !IsValid(DecodeFid(b))
    ensures DecodeFidHeader(b).lengthOfFileIdentifier != 0 ==>
      (IsValid(DecodeFid(b)) <==> exists i :: 0 <= i < |RawName(b)| && Printable(RawName(b)[i]))
  {
    if DecodeFidHeader(b).lengthOfFileIdentifier != 0 {
      FilterNonEmptyIff(RawName(b));
    }
  }

  /** A C string: the bytes before its terminating NUL. */
  type CString = s: seq<Uint8> | forall i :: 0 <= i < |s| ==> s[i] != 0

  /** `matchName`: `strcmp` of the stored name with `name`; a link without a
      name matches nothing. */
  predicate MatchName(f: FidEntry, name: CString)
  {
    f.identifier.Some? && f.identifier.value == name
  }

  /** Only printable, non-empty names can match a decoded link, and a link
      that matches some name is valid. */
  lemma MatchedNameIsPrintable(b: seq<Uint8>, name: CString)
    requires FidFits(b) && MatchName(DecodeFid(b), name)
    ensures IsValid(DecodeFid(b)) <==> name != []
    ensures forall i :: 0 <= i < |name| ==> Printable(name[i])
  {
  }

  // ---------------------------------------------------------------- encoder

  /** A record laid out field by field: the fixed header, then the
      implementation use, the name, and zero padding up to a multiple of 4. */
  function EncodeFid(h: FidHeader, implementationUse: seq<Uint8>, name: seq<Uint8>): (r: seq<Uint8>)
    requires |implementationUse| == h.lengthOfImplementationUse && |name| == h.lengthOfFileIdentifier
    ensures |r| == TotalLength(h.lengthOfFileIdentifier, h.lengthOfImplementationUse)
  {
    EncodeFidHeader(h)
      + (implementationUse + name + Zeros(Padding(h.lengthOfFileIdentifier, h.lengthOfImplementationUse)))
  }

  /** The fixed header: tag, file version number, the characteristics and
      L_FI bytes, the ICB and L_IU. */
  function EncodeFidHeader(h: FidHeader): (r: seq<Uint8>)
    ensures |r| == FID_HEADER_SIZE
  {
    EncodeTag(h.descriptorTag) + [0, 0] + [h.fileCharacteristics, h.lengthOfFileIdentifier]
      + EncodeLongAd(h.icb) + LeU16(h.lengthOfImplementationUse)
  }

  /** The header decodes from its layout, whatever the following bytes. */
  lemma FidHeaderRoundTrip(h: FidHeader, b: seq<Uint8>)
    requires |b| >= FID_DECODE_SPAN && b[..FID_HEADER_SIZE] == EncodeFidHeader(h)
    ensures DecodeFidHeader(b) == h
  {
    var w := EncodeFidHeader(h);
    Window(b, 0, w, 0, TAG_SIZE);
    assert w[0..TAG_SIZE] == EncodeTag(h.descriptorTag);
    TagRoundTrip(h.descriptorTag, b, 0);
    assert b[FID_CHARACTERISTICS_OFFSET] == w[FID_CHARACTERISTICS_OFFSET] == h.fileCharacteristics;
    assert b[FID_L_FI_OFFSET] == w[FID_L_FI_OFFSET] == h.lengthOfFileIdentifier;
    Window(b, 0, w, FID_ICB_OFFSET, LONG_AD_SIZE);
    assert w[FID_ICB_OFFSET..FID_ICB_OFFSET + LONG_AD_SIZE] == EncodeLongAd(h.icb);
    LongAdRoundTrip(h.icb, b, FID_ICB_OFFSET);
    Window(b, 0, w, FID_L_IU_OFFSET, 2);
    assert w[FID_L_IU_OFFSET..FID_L_IU_OFFSET + 2] == LeU16(h.lengthOfImplementationUse);
    U16RoundTrip(h.lengthOfImplementationUse, b, FID_L_IU_OFFSET);
  }

  /** The link the constructor is meant to make of an encoded record. */
  function LinkOf(h: FidHeader, name: seq<Uint8>): FidEntry
  {
    var identifier := if h.lengthOfFileIdentifier == 0 then None else Some(FilterPrintable(name));
    FidEntry(identifier, if identifier.Some? then |identifier.value| else 0,
             DirectoryFlag(h.fileCharacteristics),
             TotalLength(h.lengthOfFileIdentifier, h.lengthOfImplementationUse),
             false, h.icb)
  }

  /** Decoding an encoded record, whatever follows it, gives back its header,
      its name and its link. */
  lemma FidRoundTrip(h: FidHeader, implementationUse: seq<Uint8>, name: seq<Uint8>, rest: seq<Uint8>)
    requires |implementationUse| == h.lengthOfImplementationUse && |name| == h.lengthOfFileIdentifier
    ensures FidFits(EncodeFid(h, implementationUse, name) + rest)
    ensures DecodeFidHeader(EncodeFid(h, implementationUse, name) + rest) == h
    ensures DecodeFid(EncodeFid(h, implementationUse, name) + rest) == LinkOf(h, name)
  {
    var head := EncodeFidHeader(h);
    var tail := implementationUse + name + Zeros(Padding(h.lengthOfFileIdentifier, h.lengthOfImplementationUse));
    var b := EncodeFid(h, implementationUse, name) + rest;
    assert b == head + (tail + rest);
    assert b[..FID_HEADER_SIZE] == head;
    FidHeaderRoundTrip(h, b);
    if h.lengthOfFileIdentifier != 0 {
      var n := NameOffset(h);
      assert b[FID_HEADER_SIZE..FID_HEADER_SIZE + |tail|] == tail;
      Window(b, FID_HEADER_SIZE, tail, |implementationUse|, |name|);
      assert tail[|implementationUse|..|implementationUse| + |name|] == name;
      assert RawName(b) == name;
    }
  }
}
