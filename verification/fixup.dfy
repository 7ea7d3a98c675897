/** A fixup record of the LE fixup record table (`le/fixup.h`): only
    single-source internal references are supported. */
module Fixups {
  import opened Common
  import opened LittleEndian
  import opened ObjectHeaders

  /** Source-type flag: a source list follows the record. */
  const SourceList: nat := 0x20
  /** Source type of a 16-bit selector fixup: no destination offset. */
  const Selector16: nat := 0x2
  /** Target flag: the destination offset is 32-bit. */
  const Target32: nat := 0x10

  /** Where the fixup is (object-relative) and what it points at. */
  datatype Fixup = Fixup(offset: nat, address: nat)

  /** A record read at a cursor, and the cursor after it. */
  datatype ParsedFixup = ParsedFixup(fixup: Fixup, next: nat)

  predicate IsSourceList(addrFlags: nat)
  {
    (addrFlags / SourceList) % 2 == 1
  }

  predicate IsInternalReference(relocFlags: nat)
  {
    relocFlags % 4 == 0
  }

  predicate HasTarget32(relocFlags: nat)
  {
    (relocFlags / Target32) % 2 == 1
  }

  /** Bytes of destination offset a record carries. */
  function DestWidth(addrFlags: nat, relocFlags: nat): (w: nat)
    ensures w == 4 || w == 2 || w == 0
  {
    if HasTarget32(relocFlags) then 4 else if addrFlags % 16 != Selector16 then 2 else 0
  }

  /** The record at `p` of a page whose object-relative start is
      `pageOffset`: its offset is the page offset plus the signed 16-bit
      source offset and its address the target object's base plus the
      destination offset, both in `uint32_t` arithmetic; a selector fixup
      without destination offset yields the 1-based object number. */
  function FixupAt(s: seq<byte>, p: nat, objects: seq<ObjectHeader>, pageOffset: nat): (r: Result<ParsedFixup>)
    ensures r.Ok? ==> p + 5 <= |s| && r.value.next == p + 5 + DestWidth(s[p], s[p + 1]) && r.value.next <= |s|
    ensures r.Ok? ==> r.value.fixup.offset < U32 && r.value.fixup.address < U32
  {
    if p + 1 > |s| then Err(Eof)
    else if IsSourceList(s[p]) then Err(FixupListsNotSupported)
    else if p + 2 > |s| then Err(Eof)
    else if !IsInternalReference(s[p + 1]) then Err(UnsupportedRelocType)
    else if p + 4 > |s| then Err(Eof)
    else
      var offset := Wrap32(pageOffset + DecodeSigned(s[p + 2..p + 4]));
      if p + 5 > |s| then Err(Eof)
      else if s[p + 4] < 1 || s[p + 4] > |objects| then Err(UnexpectedObjectIndex)
      else
        var base := objects[s[p + 4] - 1].baseAddress;
        var width := DestWidth(s[p], s[p + 1]);
        if p + 5 + width > |s| then Err(Eof)
        else if width == 0 then Ok(ParsedFixup(Fixup(offset, s[p + 4]), p + 5))
        else Ok(ParsedFixup(Fixup(offset, Wrap32(base + Decode(s[p + 5..p + 5 + width]))), p + 5 + width))
  }

  /** The failures, in the order the record's bytes are checked: a source
      list, then a non-internal reference, then an object number outside
      1..|objects|; any other failure is a short read. */
  lemma FixupErrors(s: seq<byte>, p: nat, objects: seq<ObjectHeader>, pageOffset: nat)
    ensures FixupAt(s, p, objects, pageOffset) == Err(FixupListsNotSupported) <==>
      p < |s| && IsSourceList(s[p])
    ensures FixupAt(s, p, objects, pageOffset) == Err(UnsupportedRelocType) <==>
      p + 1 < |s| && !IsSourceList(s[p]) && !IsInternalReference(s[p + 1])
    ensures FixupAt(s, p, objects, pageOffset) == Err(UnexpectedObjectIndex) <==>
      p + 4 < |s| && !IsSourceList(s[p]) && IsInternalReference(s[p + 1]) &&
      (s[p + 4] < 1 || s[p + 4] > |objects|)
    ensures FixupAt(s, p, objects, pageOffset).Err? ==>
      FixupAt(s, p, objects, pageOffset).error in
        {Eof, FixupListsNotSupported, UnsupportedRelocType, UnexpectedObjectIndex}
  {
  }

  /** The fields of a fixup record as stored. */
  datatype FixupRecord = FixupRecord(
    addrFlags: byte, relocFlags: byte, sourceOffset: int, objectNumber: byte, destOffset: nat)
  {
    /** A record this parser accepts. */
    predicate Supported(objects: seq<ObjectHeader>)
    {
      !IsSourceList(addrFlags) && IsInternalReference(relocFlags) &&
      -0x8000 <= sourceOffset < 0x8000 &&
      1 <= objectNumber <= |objects| &&
      destOffset < Pow256(DestWidth(addrFlags, relocFlags))
    }
  }

  function EncodeFixup(f: FixupRecord): (bs: seq<byte>)
    ensures |bs| == 5 + DestWidth(f.addrFlags, f.relocFlags)
  {
    [f.addrFlags, f.relocFlags] +
    Encode(f.sourceOffset % 0x1_0000, 2) +
    [f.objectNumber] +
    Encode(f.destOffset, DestWidth(f.addrFlags, f.relocFlags))
  }

  /** The fixup a supported record describes for a page at `pageOffset`. */
  function Described(f: FixupRecord, objects: seq<ObjectHeader>, pageOffset: nat): Fixup
    requires f.Supported(objects)
  {
    Fixup(Wrap32(pageOffset + f.sourceOffset),
          if DestWidth(f.addrFlags, f.relocFlags) == 0 then f.objectNumber
          else Wrap32(objects[f.objectNumber - 1].baseAddress + f.destOffset))
  }

  /** Byte length of a stored record. */
  function RecordSize(f: FixupRecord): (n: nat)
    ensures n == |EncodeFixup(f)|
  {
    5 + DestWidth(f.addrFlags, f.relocFlags)
  }

  /** The bytes of `f` are stored at `p`, field by field. */
  predicate StoredAt(s: seq<byte>, p: nat, f: FixupRecord)
  {
    p + RecordSize(f) <= |s| &&
    s[p] == f.addrFlags && s[p + 1] == f.relocFlags &&
    s[p + 2..p + 4] == Encode(f.sourceOffset % 0x1_0000, 2) &&
    s[p + 4] == f.objectNumber &&
    s[p + 5..p + RecordSize(f)] == Encode(f.destOffset, DestWidth(f.addrFlags, f.relocFlags))
  }

  /** An encoded record is stored where it is placed. */
  lemma EncodedStored(prefix: seq<byte>, f: FixupRecord, suffix: seq<byte>)
    ensures StoredAt(prefix + EncodeFixup(f) + suffix, |prefix|, f)
  {
    var s := prefix + EncodeFixup(f) + suffix;
    var p := |prefix|;
    var w := DestWidth(f.addrFlags, f.relocFlags);
    var e := EncodeFixup(f);
    assert s[p..p + |e|] == e;
    assert e[2..4] == Encode(f.sourceOffset % 0x1_0000, 2);
    assert s[p + 2..p + 4] == e[2..4];
    assert e[5..5 + w] == Encode(f.destOffset, w);
    assert s[p + 5..p + 5 + w] == e[5..5 + w];
  }

  /** Reading a stored record gives the offset and address it describes
      and consumes exactly its bytes. */
  lemma FixupRoundTrip(s: seq<byte>, p: nat, f: FixupRecord, objects: seq<ObjectHeader>, pageOffset: nat)
    requires f.Supported(objects) && StoredAt(s, p, f)
    ensures FixupAt(s, p, objects, pageOffset) ==
      Ok(ParsedFixup(Described(f, objects, pageOffset), p + RecordSize(f)))
  {
    var stored := f.sourceOffset % 0x1_0000;
    assert stored == if f.sourceOffset < 0 then f.sourceOffset + Pow256(2) else f.sourceOffset;
    SignedRoundTrip(f.sourceOffset, 2);
    RoundTrip(f.destOffset, DestWidth(f.addrFlags, f.relocFlags));
  }

  /** The `Fixup` constructor: address flags, relocation flags and source
      offset (`readUpToSourceOffset`), then the object number and the
      destination offset (`readDestOffset`), advancing the cursor by each
      byte read. */
  method ReadFixup(s: seq<byte>, pos: nat, objects: seq<ObjectHeader>, pageOffset: nat) returns (r: Result<ParsedFixup>)
    ensures r == FixupAt(s, pos, objects, pageOffset)
  {
    var cursor := pos;
    var addrFlags;
    addrFlags, cursor := ReadLeStream(s, cursor, 1);
    if addrFlags.Err? {
      return Err(Eof);
    }
    assert s[pos..pos + 1][1..] == [];
    if IsSourceList(addrFlags.value) {
      return Err(FixupListsNotSupported);
    }
    var relocFlags;
    relocFlags, cursor := ReadLeStream(s, cursor, 1);
    if relocFlags.Err? {
      return Err(Eof);
    }
    assert s[pos + 1..pos + 2][1..] == [];
    if !IsInternalReference(relocFlags.value) {
      return Err(UnsupportedRelocType);
    }
    var source;
    source, cursor := ReadLeStream(s, cursor, 2);
    if source.Err? {
      return Err(Eof);
    }
    DecodeBound(s[pos + 2..pos + 4]);
    var offset := Wrap32(pageOffset + ToSigned(source.value, 2));
    var objectNumber;
    objectNumber, cursor := ReadLeStream(s, cursor, 1);
    if objectNumber.Err? {
      return Err(Eof);
    }
    assert s[pos + 4..pos + 5][1..] == [];
    if objectNumber.value < 1 || objectNumber.value > |objects| {
      return Err(UnexpectedObjectIndex);
    }
    var base := objects[objectNumber.value - 1].baseAddress;
    var dest;
    if HasTarget32(relocFlags.value) {
      dest, cursor := ReadLeStream(s, cursor, 4);
    } else if addrFlags.value % 16 != Selector16 {
      dest, cursor := ReadLeStream(s, cursor, 2);
    } else {
      return Ok(ParsedFixup(Fixup(offset, objectNumber.value), cursor));
    }
    if dest.Err? {
      return Err(Eof);
    }
    r := Ok(ParsedFixup(Fixup(offset, Wrap32(base + dest.value)), cursor));
  }
}
