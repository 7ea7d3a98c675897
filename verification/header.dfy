/** The LE module header (`le/header.h`): the signature check that finds
    the header behind an optional DOS MZ stub, then the header fields in
    declaration order. */
module Headers {
  import opened Common
  import opened LittleEndian
  import opened Records

  const MZ: seq<byte> := [0x4D, 0x5A]
  const LE: seq<byte> := [0x4C, 0x45]
  const LX: seq<byte> := [0x4C, 0x58]

  /** Offset in an MZ stub of the byte that must be at least 0x40. */
  const StubRelocOffset: nat := 0x18
  /** Offset in an MZ stub of the 32-bit offset of the LE header. */
  const StubHeaderOffset: nat := 0x3c

  datatype Header = Header(
    byteOrder: nat,
    wordOrder: nat,
    formatVersion: nat,
    cpuType: nat,
    osType: nat,
    moduleVersion: nat,
    moduleFlags: nat,
    pageCount: nat,
    eipObjectIndex: nat,
    eipOffset: nat,
    espObjectIndex: nat,
    espOffset: nat,
    pageSize: nat,
    lastPageSize: nat,
    fixupSectionSize: nat,
    fixupSectionCheckSum: nat,
    loaderSectionSize: nat,
    loaderSectionCheckSum: nat,
    objectTableOffset: nat,
    objectCount: nat,
    objectPageTableOffset: nat,
    objectIteratedPagesOffset: nat,
    resourceTableOffset: nat,
    resourceEntryCount: nat,
    residentNameTableOffset: nat,
    entryTableOffset: nat,
    moduleDirectivesOffset: nat,
    moduleDirectivesCount: nat,
    fixupPageTableOffset: nat,
    fixupRecordTableOffset: nat,
    importModuleNameTableOffset: nat,
    importModuleNameEntryCount: nat,
    importProcedureNameTableOffset: nat,
    perPageCheckSumTableOffset: nat,
    dataPagesOffset: nat,
    preloadPagesCount: nat,
    nonResidentNameTableOffset: nat,
    nonResidentNameEntryCount: nat,
    nonResidentNameTableCheckSum: nat,
    autoDataSegmentObjectIndex: nat,
    debugInfoOffset: nat,
    debugInfoSize: nat,
    instancePagesCount: nat,
    instancePagesDemandCount: nat,
    heapSize: nat)
  {
    /** What a successful read produces: little-endian orders, format
        version 0, every field within its stored width. */
    predicate Valid()
    {
      byteOrder == 0 && wordOrder == 0 && formatVersion == 0 &&
      Fits(ToFields(this), FieldLayout) && eipObjectIndex < U32 && espObjectIndex < U32
    }
  }

  /** The 42 fields after format_version: cpu_type and os_type are 16-bit,
      the remaining 40 are 32-bit. */
  const FieldLayout: seq<nat> := [2, 2] + Repeat(40, 4)
  const FieldBytes: nat := 164

  lemma FieldLayoutSize()
    ensures |FieldLayout| == 42 && Sum(FieldLayout) == FieldBytes
  {
    SumAppend([2, 2], Repeat(40, 4));
    SumConst(40, 4);
    assert [2, 2][..1] == [2] && [2][..0] == [];
  }

  /** The header the field values describe; the stored 1-based entry and
      stack object numbers are decremented in `uint32_t` arithmetic. */
  function FromFields(v: seq<nat>): Header
    requires |v| == 42
  {
    Header(0, 0, 0,
      v[0], v[1], v[2], v[3],
      v[4], Wrap32(v[5] as int - 1), v[6], Wrap32(v[7] as int - 1),
      v[8], v[9], v[10], v[11],
      v[12], v[13], v[14], v[15],
      v[16], v[17], v[18], v[19],
      v[20], v[21], v[22], v[23],
      v[24], v[25], v[26], v[27],
      v[28], v[29], v[30], v[31],
      v[32], v[33], v[34], v[35],
      v[36], v[37], v[38], v[39],
      v[40], v[41])
  }

  /** The field values a header is stored as. */
  function ToFields(h: Header): (v: seq<nat>)
    ensures |v| == 42
  {
    [
      h.cpuType, h.osType, h.moduleVersion, h.moduleFlags,
      h.pageCount, Wrap32(h.eipObjectIndex + 1), h.eipOffset, Wrap32(h.espObjectIndex + 1),
      h.espOffset, h.pageSize, h.lastPageSize, h.fixupSectionSize,
      h.fixupSectionCheckSum, h.loaderSectionSize, h.loaderSectionCheckSum, h.objectTableOffset,
      h.objectCount, h.objectPageTableOffset, h.objectIteratedPagesOffset, h.resourceTableOffset,
      h.resourceEntryCount, h.residentNameTableOffset, h.entryTableOffset, h.moduleDirectivesOffset,
      h.moduleDirectivesCount, h.fixupPageTableOffset, h.fixupRecordTableOffset, h.importModuleNameTableOffset,
      h.importModuleNameEntryCount, h.importProcedureNameTableOffset, h.perPageCheckSumTableOffset, h.dataPagesOffset,
      h.preloadPagesCount, h.nonResidentNameTableOffset, h.nonResidentNameEntryCount, h.nonResidentNameTableCheckSum,
      h.autoDataSegmentObjectIndex, h.debugInfoOffset, h.debugInfoSize, h.instancePagesCount,
      h.instancePagesDemandCount, h.heapSize
    ]
  }

  lemma FieldsInverse(h: Header)
    requires h.byteOrder == 0 && h.wordOrder == 0 && h.formatVersion == 0
    requires h.eipObjectIndex < U32 && h.espObjectIndex < U32
    ensures FromFields(ToFields(h)) == h
  {
    if h.eipObjectIndex + 1 == U32 {
      assert Wrap32(Wrap32(h.eipObjectIndex + 1) - 1) == h.eipObjectIndex;
    }
    if h.espObjectIndex + 1 == U32 {
      assert Wrap32(Wrap32(h.espObjectIndex + 1) - 1) == h.espObjectIndex;
    }
  }

  lemma ValidFieldsInverse(h: Header)
    requires h.Valid()
    ensures FromFields(ToFields(h)) == h
  {
    FieldsInverse(h);
  }

  /** Where the header data starts: the header offset the caller keeps, and
      the cursor just past the two signature bytes. */
  datatype Located = Located(headerOffset: nat, cursor: nat)

  /** A header read from a file, with the header offset it was found at. */
  datatype ParsedHeader = ParsedHeader(header: Header, headerOffset: nat)

  predicate KnownSignature(s: seq<byte>)
  {
    |s| >= 2 && (s[..2] == MZ || s[..2] == LE || s[..2] == LX)
  }

  /** `throwOnInvalidSignature`: a bare LE or LX signature leaves the caller's
      header offset as it is; an MZ stub must mark itself as a new-style
      executable and point at an "LE" signature. */
  function SignatureAt(s: seq<byte>, headerOffset: nat): (r: Result<Located>)
    ensures r.Ok? ==> r.value.cursor == r.value.headerOffset + 2 || r.value.cursor == 2
    ensures r.Ok? ==> r.value.cursor <= |s|
  {
    if !KnownSignature(s) then Err(InvalidMzSignature)
    else if s[..2] != MZ then Ok(Located(headerOffset, 2))
    else if StubRelocOffset + 1 > |s| then Err(Eof)
    else if s[StubRelocOffset] < 0x40 then Err(NotLeExecutable)
    else if StubHeaderOffset + 4 > |s| then Err(Eof)
    else
      var ho := Decode(s[StubHeaderOffset..StubHeaderOffset + 4]);
      if ho + 2 > |s| || s[ho..ho + 2] != LE then Err(InvalidLeSignature)
      else Ok(Located(ho, ho + 2))
  }

  /** The header data after the signature, starting at cursor `c`. */
  function BodyAt(s: seq<byte>, c: nat): Result<Header>
  {
    FieldLayoutSize();
    if c + 1 > |s| then Err(Eof)
    else if s[c] != 0 then Err(ByteOrderNotLittleEndian)
    else if c + 2 > |s| then Err(Eof)
    else if s[c + 1] != 0 then Err(WordOrderNotLittleEndian)
    else if c + 6 > |s| then Err(Eof)
    else if Decode(s[c + 2..c + 6]) > 0 then Err(UnknownFormatVersion)
    else if c + 6 + FieldBytes > |s| then Err(Eof)
    else Ok(FromFields(FieldsAt(s, c + 6, FieldLayout)))
  }

  /** The `Header` constructor, given the header offset the caller holds. */
  function HeaderAt(s: seq<byte>, headerOffset: nat): (r: Result<ParsedHeader>)
    ensures !KnownSignature(s) ==> r == Err(InvalidMzSignature)
    ensures r.Ok? ==> |s| >= 2 && (s[..2] != MZ ==> r.value.headerOffset == headerOffset)
    ensures r.Ok? ==> SignatureAt(s, headerOffset).Ok? && BodyAt(s, SignatureAt(s, headerOffset).value.cursor) == Ok(r.value.header)
  {
    var loc :- SignatureAt(s, headerOffset);
    var h :- BodyAt(s, loc.cursor);
    Ok(ParsedHeader(h, loc.headerOffset))
  }

  /** The header data as stored after the signature. */
  function EncodeBody(h: Header): (bs: seq<byte>)
    ensures |bs| == 6 + FieldBytes
  {
    FieldLayoutSize();
    Encode(h.byteOrder, 1) + Encode(h.wordOrder, 1) + Encode(h.formatVersion, 4) +
    EncodeFields(ToFields(h), FieldLayout)
  }

  /** Only the three signatures pass; anything else is an invalid MZ
      signature, and no later check reports that error. */
  lemma SignatureRejected(s: seq<byte>, headerOffset: nat)
    ensures HeaderAt(s, headerOffset) == Err(InvalidMzSignature) <==> !KnownSignature(s)
  {
  }

  /** A bare LE or LX signature keeps the caller's header offset and the
      header data follows it directly. */
  lemma BareSignatureKeepsOffset(s: seq<byte>, headerOffset: nat)
    requires |s| >= 2 && (s[..2] == LE || s[..2] == LX)
    ensures HeaderAt(s, headerOffset) == (
      var h :- BodyAt(s, 2); Ok(ParsedHeader(h, headerOffset)))
  {
    assert s[..2] != MZ by {
      assert s[1] != MZ[1];
    }
  }

  /** An MZ stub whose byte at 0x18 is below 0x40 is not an LE executable. */
  lemma StubNotLe(s: seq<byte>, headerOffset: nat)
    requires |s| > StubRelocOffset && s[..2] == MZ
    ensures HeaderAt(s, headerOffset) == Err(NotLeExecutable) <==> s[StubRelocOffset] < 0x40
  {
  }

  /** Behind an MZ stub only "LE" is accepted: an "LX" signature there is
      an invalid LE signature. */
  lemma StubRejectsLx(s: seq<byte>, headerOffset: nat)
    requires |s| >= StubHeaderOffset + 4 && s[..2] == MZ && s[StubRelocOffset] >= 0x40
    requires Decode(s[StubHeaderOffset..StubHeaderOffset + 4]) + 2 <= |s|
    requires s[Decode(s[StubHeaderOffset..StubHeaderOffset + 4])..][..2] == LX
    ensures HeaderAt(s, headerOffset) == Err(InvalidLeSignature)
  {
    var ho := Decode(s[StubHeaderOffset..StubHeaderOffset + 4]);
    assert s[ho..ho + 2] == LX;
    assert LX != LE by {
      assert LX[1] != LE[1];
    }
  }

  /** The order checks come first: a non-zero byte order, then a non-zero
      word order, then a positive format version is reported before any
      later field is read. */
  lemma BodyChecks(s: seq<byte>, c: nat)
    ensures BodyAt(s, c) == Err(ByteOrderNotLittleEndian) <==> c < |s| && s[c] != 0
    ensures BodyAt(s, c) == Err(WordOrderNotLittleEndian) <==> c + 1 < |s| && s[c] == 0 && s[c + 1] != 0
    ensures BodyAt(s, c) == Err(UnknownFormatVersion) <==>
      c + 6 <= |s| && s[c] == 0 && s[c + 1] == 0 && Decode(s[c + 2..c + 6]) > 0
  {
  }

  /** Stored header data reads back as the same header. */
  lemma BodyRoundTrip(prefix: seq<byte>, h: Header, suffix: seq<byte>)
    requires h.Valid()
    ensures BodyAt(prefix + EncodeBody(h) + suffix, |prefix|) == Ok(h)
  {
    FieldLayoutSize();
    var s := prefix + EncodeBody(h) + suffix;
    var c := |prefix|;
    var fields := ToFields(h);
    var head := Encode(h.byteOrder, 1) + Encode(h.wordOrder, 1) + Encode(h.formatVersion, 4);
    assert head == [0, 0, 0, 0, 0, 0];
    assert s == (prefix + head) + EncodeFields(fields, FieldLayout) + suffix;
    FieldsRoundTrip(prefix + head, fields, FieldLayout, suffix);
    BodyFromFields(s, c);
    ValidFieldsInverse(h);
  }

  /** Header data with zero orders and version is made of its fields. */
  lemma BodyFromFields(s: seq<byte>, c: nat)
    requires c + 6 + FieldBytes <= |s| && s[c..c + 6] == [0, 0, 0, 0, 0, 0]
    ensures FieldBytes == Sum(FieldLayout)
    ensures BodyAt(s, c) == Ok(FromFields(FieldsAt(s, c + 6, FieldLayout)))
  {
    FieldLayoutSize();
    assert s[c + 2..c + 6] == Encode(0, 4);
    RoundTrip(0, 4);
    assert s[c] == s[c..c + 6][0] && s[c + 1] == s[c..c + 6][1];
  }

  /** A file that starts with a bare signature and the stored header reads
      back as that header, at the caller's header offset. */
  lemma BareRoundTrip(signature: seq<byte>, h: Header, suffix: seq<byte>, headerOffset: nat)
    requires signature == LE || signature == LX
    requires h.Valid()
    ensures HeaderAt(signature + EncodeBody(h) + suffix, headerOffset) == Ok(ParsedHeader(h, headerOffset))
  {
    var s := signature + EncodeBody(h) + suffix;
    assert s[..2] == signature;
    BareSignatureKeepsOffset(s, headerOffset);
    assert s == signature + EncodeBody(h) + suffix;
    BodyRoundTrip(signature, h, suffix);
  }

  /** Behind a valid MZ stub that points just past itself, the header is
      found at the stub's length, whatever offset the caller held. */
  lemma StubRoundTrip(stub: seq<byte>, h: Header, suffix: seq<byte>, headerOffset: nat)
    requires |stub| >= StubHeaderOffset + 4 && stub[..2] == MZ && stub[StubRelocOffset] >= 0x40
    requires Decode(stub[StubHeaderOffset..StubHeaderOffset + 4]) == |stub|
    requires h.Valid()
    ensures HeaderAt(stub + LE + EncodeBody(h) + suffix, headerOffset) == Ok(ParsedHeader(h, |stub|))
  {
    var s := stub + LE + EncodeBody(h) + suffix;
    assert s[..2] == stub[..2];
    assert s[StubRelocOffset] == stub[StubRelocOffset];
    assert s[StubHeaderOffset..StubHeaderOffset + 4] == stub[StubHeaderOffset..StubHeaderOffset + 4];
    assert s[|stub|..|stub| + 2] == LE;
    assert SignatureAt(s, headerOffset) == Ok(Located(|stub|, |stub| + 2));
    assert s == (stub + LE) + EncodeBody(h) + suffix;
    BodyRoundTrip(stub + LE, h, suffix);
  }

  /** `throwOnInvalidSignature`, reading the stub fields with `read_le`. */
  method CheckSignature(s: seq<byte>, headerOffset: nat) returns (r: Result<Located>)
    ensures r == SignatureAt(s, headerOffset)
  {
    if |s| < 2 || (s[..2] != MZ && s[..2] != LE && s[..2] != LX) {
      return Err(InvalidMzSignature);
    }
    if s[..2] != MZ {
      return Ok(Located(headerOffset, 2));
    }
    var b, _ := ReadLeStream(s, StubRelocOffset, 1);
    if b.Err? {
      return Err(Eof);
    }
    assert s[StubRelocOffset..StubRelocOffset + 1][1..] == [];
    if b.value < 0x40 {
      return Err(NotLeExecutable);
    }
    var offset, _ := ReadLeStream(s, StubHeaderOffset, 4);
    if offset.Err? {
      return Err(Eof);
    }
    var ho := offset.value;
    if ho + 2 > |s| || s[ho..ho + 2] != LE {
      return Err(InvalidLeSignature);
    }
    r := Ok(Located(ho, ho + 2));
  }

  /** The `Header` constructor: the signature, the two order bytes and the
      format version, each checked as soon as it is read, then the
      remaining fields in declaration order. */
  method ReadHeader(s: seq<byte>, headerOffset: nat) returns (r: Result<ParsedHeader>)
    ensures r == HeaderAt(s, headerOffset)
  {
    var loc := CheckSignature(s, headerOffset);
    if loc.Err? {
      return Err(loc.error);
    }
    var c := loc.value.cursor;
    var byteOrder, c1 := ReadLeStream(s, c, 1);
    if byteOrder.Err? {
      return Err(Eof);
    }
    assert s[c..c + 1][1..] == [];
    if byteOrder.value != 0 {
      return Err(ByteOrderNotLittleEndian);
    }
    var wordOrder, c2 := ReadLeStream(s, c1, 1);
    if wordOrder.Err? {
      return Err(Eof);
    }
    assert s[c1..c1 + 1][1..] == [];
    if wordOrder.value != 0 {
      return Err(WordOrderNotLittleEndian);
    }
    var version, c3 := ReadLeStream(s, c2, 4);
    if version.Err? {
      return Err(Eof);
    }
    if version.value > 0 {
      return Err(UnknownFormatVersion);
    }
    FieldLayoutSize();
    var fields, _ := ReadFields(s, c3, FieldLayout);
    if fields.Err? {
      return Err(Eof);
    }
    r := Ok(ParsedHeader(FromFields(fields.value), loc.value.headerOffset));
  }
}
