/** OSTA Compressed Unicode (section 2.1.1 of OSTA UDF 2.01): a string of
    16-bit characters stored with compression ID 8 (one byte per character,
    its low eight bits) or 16 (two bytes per character, most significant
    first). The reader's compressor writes the character bytes only; the
    compression-ID byte itself is left to the caller. */
module Unicode {
  import opened LittleEndian

  /** Bytes per character for a supported compression ID. */
  function Width(compId: int): (w: nat)
    requires compId == 8 || compId == 16
    ensures w == compId / 8
  {
    if compId == 16 then 2 else 1
  }

  /** The bytes one character contributes: its high byte first under ID 16,
      its low byte alone under ID 8. */
  function Unit(c: Uint16, compId: int): (r: seq<Uint8>)
    requires compId == 8 || compId == 16
    ensures |r| == Width(compId)
  {
    if compId == 16 then [c / 0x100, c % 0x100] else [c % 0x100]
  }

  /** The compressed form of `chars`: the units of its characters, in order. */
  function Compressed(chars: seq<Uint16>, compId: int): (r: seq<Uint8>)
    requires compId == 8 || compId == 16
    ensures compId == 8 ==> |r| == |chars|
    ensures compId == 16 ==> |r| == 2 * |chars|
  {
    if chars == [] then [] else Unit(chars[0], compId) + Compressed(chars[1..], compId)
  }

  /** Under ID 16 the character at `i` is stored, high byte first, at `2 * i`. */
  lemma {:induction false} Compressed16At(chars: seq<Uint16>, i: nat)
    requires i < |chars|
    ensures var r := Compressed(chars, 16);
      r[2 * i] == chars[i] / 0x100 && r[2 * i + 1] == chars[i] % 0x100
  {
    if i > 0 {
      Compressed16At(chars[1..], i - 1);
      assert chars[1..][i - 1] == chars[i];
    }
  }

  /** Under ID 8 the character at `i` is stored as its low byte at `i`. */
  lemma {:induction false} Compressed8At(chars: seq<Uint16>, i: nat)
    requires i < |chars|
    ensures Compressed(chars, 8)[i] == chars[i] % 0x100
  {
    if i > 0 {
      Compressed8At(chars[1..], i - 1);
      assert chars[1..][i - 1] == chars[i];
    }
  }

  /** Compressing one more character appends its unit. */
  lemma {:induction false} CompressedSnoc(chars: seq<Uint16>, c: Uint16, compId: int)
    requires compId == 8 || compId == 16
    ensures Compressed(chars + [c], compId) == Compressed(chars, compId) + Unit(c, compId)
  {
    if chars == [] {
      assert [] + [c] == [c];
      assert [c][1..] == [];
    } else {
      assert (chars + [c])[1..] == chars[1..] + [c];
      CompressedSnoc(chars[1..], c, compId);
    }
  }

  /** The reverse direction, as a reader of a compressed identifier performs it. */
  function Uncompressed(bytes: seq<Uint8>, compId: int): (r: seq<Uint16>)
    requires compId == 8 || compId == 16
    decreases |bytes|
  {
    if bytes == [] then []
    else if compId == 16 then
      if |bytes| == 1 then [bytes[0] * 0x100] else [bytes[0] * 0x100 + bytes[1]] + Uncompressed(bytes[2..], compId)
    else [bytes[0]] + Uncompressed(bytes[1..], compId)
  }

  /** Every character fits in eight bits. */
  predicate Narrow(chars: seq<Uint16>)
  {
    forall i :: 0 <= i < |chars| ==> chars[i] < 0x100
  }

  /** Compression ID 16 loses nothing. */
  lemma {:induction false} Wide16RoundTrip(chars: seq<Uint16>)
    ensures Uncompressed(Compressed(chars, 16), 16) == chars
  {
    if chars != [] {
      var b := Compressed(chars, 16);
      assert b[2..] == Compressed(chars[1..], 16);
      Wide16RoundTrip(chars[1..]);
    }
  }

  /** Compression ID 8 loses nothing exactly when every character fits in
      eight bits: the compressor does not check this, it drops the high bits. */
  lemma {:induction false} Narrow8RoundTrip(chars: seq<Uint16>)
    ensures Uncompressed(Compressed(chars, 8), 8) == chars <==> Narrow(chars)
  {
    if chars != [] {
      var b := Compressed(chars, 8);
      assert b[1..] == Compressed(chars[1..], 8);
      Narrow8RoundTrip(chars[1..]);
      var u := Uncompressed(b, 8);
      assert u == [b[0] as Uint16] + Uncompressed(b[1..], 8);
      var tail := chars[1..];
      assert Narrow(chars) <==> chars[0] < 0x100 && Narrow(tail) by {
        if chars[0] < 0x100 && Narrow(tail) {
          forall i | 0 <= i < |chars| ensures chars[i] < 0x100 {
            if i > 0 { assert chars[i] == tail[i - 1]; }
          }
        }
        if Narrow(chars) {
          forall i | 0 <= i < |tail| ensures tail[i] < 0x100 {
            assert tail[i] == chars[i + 1];
          }
        }
      }
      assert u == chars <==> u[0] == chars[0] && u[1..] == tail;
    }
  }

  /** The source's CompressUnicode: writes the compressed form of the first
      `numberOfChars` characters into `compressed` from index 0 and returns
      the number of bytes written; -1 and nothing written for an
      unsupported compression ID. */
  method CompressUnicode(numberOfChars: int, compId: int, unicode: array<Uint16>, compressed: array<Uint8>)
    returns (byteIndex: int)
    requires compId == 8 ==> numberOfChars <= unicode.Length && numberOfChars <= compressed.Length
    requires compId == 16 ==> numberOfChars <= unicode.Length && 2 * numberOfChars <= compressed.Length
    modifies compressed
    ensures compId != 8 && compId != 16 ==> byteIndex == -1 && compressed[..] == old(compressed[..])
    ensures compId == 8 ==> byteIndex == (if numberOfChars < 0 then 0 else numberOfChars)
    ensures compId == 16 ==> byteIndex == (if numberOfChars < 0 then 0 else 2 * numberOfChars)
    ensures compId == 8 || compId == 16 ==>
      && 0 <= byteIndex <= compressed.Length
      && compressed[..byteIndex] == Compressed(unicode[..if numberOfChars < 0 then 0 else numberOfChars], compId)
      && compressed[byteIndex..] == old(compressed[byteIndex..])
  {
    if compId != 8 && compId != 16 {
      byteIndex := -1;
    } else {
      byteIndex := 0;
      var unicodeIndex := 0;
      while unicodeIndex < numberOfChars
        invariant 0 <= unicodeIndex <= unicode.Length
        invariant numberOfChars >= 0 ==> unicodeIndex <= numberOfChars
        invariant numberOfChars < 0 ==> unicodeIndex == 0
        invariant compId == 8 ==> byteIndex == unicodeIndex
        invariant compId == 16 ==> byteIndex == 2 * unicodeIndex
        invariant compressed[..byteIndex] == Compressed(unicode[..unicodeIndex], compId)
        invariant compressed[byteIndex..] == old(compressed[byteIndex..])
      {
        ghost var front := compressed[..byteIndex];
        var c := unicode[unicodeIndex];
        if compId == 16 {
          compressed[byteIndex] := c / 0x100;
          byteIndex := byteIndex + 1;
        }
        compressed[byteIndex] := c % 0x100;
        byteIndex := byteIndex + 1;
        assert compressed[..byteIndex] == front + Unit(c, compId);
        assert unicode[..unicodeIndex + 1] == unicode[..unicodeIndex] + [c];
        CompressedSnoc(unicode[..unicodeIndex], c, compId);
        unicodeIndex := unicodeIndex + 1;
      }
    }
  }
}
