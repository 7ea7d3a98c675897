/** An entry of the LE object table (`le/object_header.h`): six 32-bit
    little-endian fields, 24 bytes. */
module ObjectHeaders {
  import opened Common
  import opened LittleEndian
  import opened Records

  /** Object flag bits. */
  const Readable: nat := 0x1
  const Writable: nat := 0x2
  const Executable: nat := 0x4
  const Resource: nat := 0x8
  const Discardable: nat := 0x10
  const Shared: nat := 0x20
  const Preloaded: nat := 0x40
  const InvalidObject: nat := 0x80

  const ObjectHeaderSize: nat := 24

  /** virtual_size, base_address, flags, first_page_index, page_count, reserved. */
  const Layout: seq<nat> := Repeat(6, 4)

  datatype ObjectHeader = ObjectHeader(
    virtualSize: nat,
    baseAddress: nat,
    flags: nat,
    firstPageIndex: nat,  // 0-based, after the decrement
    pageCount: nat,
    reserved: nat)
  {
    /** Every field is a `uint32_t`. */
    predicate Valid()
    {
      virtualSize < U32 && baseAddress < U32 && flags < U32 &&
      firstPageIndex < U32 && pageCount < U32 && reserved < U32
    }

    /** `isExecutable()`: the EXECUTABLE bit of the flags is set. */
    predicate IsExecutable()
    {
      (flags / Executable) % 2 == 1
    }
  }

  lemma LayoutSize()
    ensures Sum(Layout) == ObjectHeaderSize
  {
    SumConst(6, 4);
  }

  /** The header the six stored values describe; the stored first page
      number is 1-based and is decremented in `uint32_t` arithmetic. */
  function FromFields(v: seq<nat>): ObjectHeader
    requires |v| == 6
  {
    ObjectHeader(v[0], v[1], v[2], Wrap32(v[3] as int - 1), v[4], v[5])
  }

  /** The field values an object table entry stores for `h`. */
  function ToFields(h: ObjectHeader): seq<nat>
  {
    [h.virtualSize, h.baseAddress, h.flags, Wrap32(h.firstPageIndex + 1), h.pageCount, h.reserved]
  }

  /** The entry at byte `p` of the file: EOF when fewer than 24 bytes remain. */
  function ObjectHeaderAt(s: seq<byte>, p: nat): (r: Result<ObjectHeader>)
    ensures r.Err? <==> p + ObjectHeaderSize > |s|
    ensures r.Err? ==> r.error == Eof
    ensures r.Ok? ==> r.value.Valid()
  {
    LayoutSize();
    if p + ObjectHeaderSize > |s| then Err(Eof)
    else
      var v := FieldsAt(s, p, Layout);
      FieldsFit(s, p, Layout);
      assert Pow256(4) == U32;
      Ok(FromFields(v))
  }

  function EncodeObjectHeader(h: ObjectHeader): (bs: seq<byte>)
    ensures |bs| == ObjectHeaderSize
  {
    LayoutSize();
    EncodeFields(ToFields(h), Layout)
  }

  /** Reading an encoded entry gives back the header, first page included. */
  lemma ObjectHeaderRoundTrip(prefix: seq<byte>, h: ObjectHeader, suffix: seq<byte>)
    requires h.Valid()
    ensures ObjectHeaderAt(prefix + EncodeObjectHeader(h) + suffix, |prefix|) == Ok(h)
  {
    LayoutSize();
    assert Pow256(4) == U32;
    FieldsRoundTrip(prefix, ToFields(h), Layout, suffix);
    if h.firstPageIndex + 1 == U32 {
      assert Wrap32(Wrap32(h.firstPageIndex + 1) - 1) == h.firstPageIndex;
    }
  }

  /** The executable bit lives in the low byte of the flags field, at
      offset 8 of the entry. */
  lemma ExecutableFlagByte(s: seq<byte>, p: nat)
    requires p + ObjectHeaderSize <= |s|
    ensures ObjectHeaderAt(s, p).value.IsExecutable() <==> (s[p + 8] / 4) % 2 == 1
  {
    LayoutSize();
    var flags := FieldsAt(s, p, Layout)[2];
    assert Layout[..2] == Repeat(2, 4);
    SumConst(2, 4);
    FieldAt(s, p, Layout, 2);
    assert flags == Decode(s[p + 8..p + 12]);
    var rest := Decode(s[p + 9..p + 12]);
    assert s[p + 8..p + 12][1..] == s[p + 9..p + 12];
    assert flags == s[p + 8] + 256 * rest;
    assert flags / 4 == s[p + 8] / 4 + 64 * rest;
  }

  /** `readFrom`: six `read_le` calls in declaration order, then the
      decrement of first_page_index. */
  method ReadObjectHeader(s: seq<byte>, pos: nat) returns (r: Result<ObjectHeader>, next: nat)
    ensures r == ObjectHeaderAt(s, pos)
    ensures r.Ok? ==> next == pos + ObjectHeaderSize
  {
    LayoutSize();
    var v;
    v, next := ReadFields(s, pos, Layout);
    if v.Err? {
      return Err(v.error), next;
    }
    r := Ok(FromFields(v.value));
  }
}
