/** The loaded LE module (`le/lin_ex.h`): header, object table, object page
    table, and the fixups of every object, keyed by object-relative offset. */
module LinExes {
  import opened Common
  import opened LittleEndian
  import opened Records
  import opened ObjectHeaders
  import opened ObjectPageHeaders
  import opened Headers
  import opened Fixups

  datatype LinearExecutable = LinearExecutable(
    header: Header,
    objects: seq<ObjectHeader>,
    objectPages: seq<ObjectPageHeader>,
    fixups: seq<map<nat, nat>>,  // per object: offset -> address
    fixupAddresses: set<nat>)

  /** `entryPointAddress`: base of the entry object plus eip_offset, in
      `uint32_t` arithmetic. The source indexes the object vector without a
      check; an index outside it is an internal error here. */
  function EntryPointAddress(le: LinearExecutable): (r: Result<nat>)
    ensures r.Ok? <==> le.header.eipObjectIndex < |le.objects|
    ensures r.Ok? ==> r.value < U32
    ensures r.Ok? ==> (r.value - le.objects[le.header.eipObjectIndex].baseAddress - le.header.eipOffset) % U32 == 0
  {
    if le.header.eipObjectIndex >= |le.objects| then Err(Internal("entry object out of range"))
    else Ok(Wrap32(le.objects[le.header.eipObjectIndex].baseAddress + le.header.eipOffset))
  }

  /** `offsetOfPageInFile`: 0 for an index outside the page table, else the
      file offset of the page numbered first_number + second_number (1-based)
      in the data pages, computed in `uint32_t`. */
  function OffsetOfPageInFile(le: LinearExecutable, index: int): (r: nat)
    ensures index < 0 || index >= |le.objectPages| ==> r == 0
    ensures r < U32
  {
    if index < 0 || index >= |le.objectPages| then 0
    else
      var page := le.objectPages[index];
      Wrap32((page.firstNumber + page.secondNumber - 1) * le.header.pageSize + le.header.dataPagesOffset)
  }

  /** `count` fixed-size table entries from `at`, each parsed by `read`,
      the first failing read deciding the error. */
  function TableAt<T>(read: (seq<byte>, nat) -> Result<T>, size: nat, s: seq<byte>, at: nat, count: nat): (r: Result<seq<T>>)
    ensures r.Ok? ==> |r.value| == count
    ensures r.Ok? ==> forall i :: 0 <= i < count ==> read(s, at + size * i) == Ok(r.value[i])
    ensures r.Err? ==> exists i :: 0 <= i < count && read(s, at + size * i) == Err(r.error)
  {
    if count == 0 then Ok([])
    else
      var prefix :- TableAt(read, size, s, at, count - 1);
      var h :- read(s, at + size * (count - 1));
      Ok(prefix + [h])
  }

  /** One more entry: the table so far, then the entry at `cursor`. */
  lemma TableSnoc<T>(read: (seq<byte>, nat) -> Result<T>, size: nat, s: seq<byte>, at: nat, n: nat, cursor: nat)
    requires cursor == at + size * n
    ensures TableAt(read, size, s, at, n + 1) ==
      match TableAt(read, size, s, at, n)
      case Err(e) => Err(e)
      case Ok(t) => (match read(s, cursor) case Err(e) => Err(e) case Ok(h) => Ok(t + [h]))
  {
    assert at + size * (n + 1 - 1) == cursor;
  }

  /** Once a prefix of a table fails, the whole table fails the same way. */
  lemma {:induction false} TablePrefixFails<T>(read: (seq<byte>, nat) -> Result<T>, size: nat, s: seq<byte>, at: nat, n: nat, count: nat)
    requires n <= count && TableAt(read, size, s, at, n).Err?
    ensures TableAt(read, size, s, at, count) == TableAt(read, size, s, at, n)
    decreases count - n
  {
    if n < count {
      TablePrefixFails(read, size, s, at, n, count - 1);
    }
  }

  /** The object table is read completely or not at all: it fails with EOF
      exactly when the file ends inside it. */
  lemma {:induction false} ObjectTableEof(s: seq<byte>, at: nat, count: nat)
    ensures TableAt(ObjectHeaderAt, ObjectHeaderSize, s, at, count).Err? <==> count > 0 && at + ObjectHeaderSize * count > |s|
    ensures TableAt(ObjectHeaderAt, ObjectHeaderSize, s, at, count).Err? ==>
      TableAt(ObjectHeaderAt, ObjectHeaderSize, s, at, count).error == Eof
  {
    if count > 0 {
      ObjectTableEof(s, at, count - 1);
      var last := at + ObjectHeaderSize * (count - 1);
      TableSnoc(ObjectHeaderAt, ObjectHeaderSize, s, at, count - 1, last);
      assert at + ObjectHeaderSize * count == last + ObjectHeaderSize;
    }
  }

  /** `loadTable` for the object table: `readFrom` once per entry. */
  method LoadObjectTable(s: seq<byte>, at: nat, count: nat) returns (r: Result<seq<ObjectHeader>>)
    ensures r == TableAt(ObjectHeaderAt, ObjectHeaderSize, s, at, count)
  {
    var table: seq<ObjectHeader> := [];
    var cursor := at;
    var n := 0;
    while n < count
      invariant 0 <= n <= count
      invariant cursor == at + ObjectHeaderSize * n
      invariant TableAt(ObjectHeaderAt, ObjectHeaderSize, s, at, n) == Ok(table)
    {
      TableSnoc(ObjectHeaderAt, ObjectHeaderSize, s, at, n, cursor);
      var h;
      h, cursor := ReadObjectHeader(s, cursor);
      if h.Err? {
        TablePrefixFails(ObjectHeaderAt, ObjectHeaderSize, s, at, n + 1, count);
        return Err(h.error);
      }
      table := table + [h.value];
      n := n + 1;
    }
    r := Ok(table);
  }

  /** `loadTable` for the object page table. */
  method LoadPageTable(s: seq<byte>, at: nat, count: nat) returns (r: Result<seq<ObjectPageHeader>>)
    ensures r == TableAt(ObjectPageHeaderAt, ObjectPageHeaderSize, s, at, count)
  {
    var table: seq<ObjectPageHeader> := [];
    var cursor := at;
    var n := 0;
    while n < count
      invariant 0 <= n <= count
      invariant cursor == at + ObjectPageHeaderSize * n
      invariant TableAt(ObjectPageHeaderAt, ObjectPageHeaderSize, s, at, n) == Ok(table)
    {
      TableSnoc(ObjectPageHeaderAt, ObjectPageHeaderSize, s, at, n, cursor);
      var h;
      h, cursor := ReadObjectPageHeader(s, cursor);
      if h.Err? {
        TablePrefixFails(ObjectPageHeaderAt, ObjectPageHeaderSize, s, at, n + 1, count);
        return Err(h.error);
      }
      table := table + [h.value];
      n := n + 1;
    }
    r := Ok(table);
  }

  /** Fixups collected so far for one object, and all destinations seen. */
  datatype Collected = Collected(entries: map<nat, nat>, addresses: set<nat>)
  {
    /** Every recorded destination is in the destination set. */
    predicate Covered()
    {
      forall k :: k in entries ==> entries[k] in addresses
    }

    /** Record one fixup; a later record at the same offset overwrites. */
    function Add(f: Fixup): (c: Collected)
      ensures c.entries.Keys == entries.Keys + {f.offset}
      ensures c.entries[f.offset] == f.address && c.addresses == addresses + {f.address}
      ensures forall k :: k in entries && k != f.offset ==> c.entries[k] == entries[k]
      ensures Covered() ==> c.Covered()
    {
      Collected(entries[f.offset := f.address], addresses + {f.address})
    }
  }

  /** The records of one page's slice of the fixup record table: parsed
      from `cursor` while the cursor is below `end`. */
  function PageFixupsAt(s: seq<byte>, cursor: nat, end: nat, objects: seq<ObjectHeader>, pageOffset: nat, acc: Collected): (r: Result<Collected>)
    ensures r.Ok? ==> acc.entries.Keys <= r.value.entries.Keys && acc.addresses <= r.value.addresses
    ensures r.Ok? && acc.Covered() ==> r.value.Covered()
    decreases end - cursor
  {
    if cursor >= end then Ok(acc)
    else
      var parsed :- FixupAt(s, cursor, objects, pageOffset);
      PageFixupsAt(s, parsed.next, end, objects, pageOffset, acc.Add(parsed.fixup))
  }

  /** Pages `n` up to (excluding) `stop` of one object: page `n`'s records
      lie between `table + offsets[n]` and `table + offsets[n + 1]`, with
      offsets relative to the object's first page. An index past the fixup
      page table is an internal error here (undefined behaviour in the
      source). */
  function ObjectFixupsAt(s: seq<byte>, offsets: seq<nat>, table: nat, objects: seq<ObjectHeader>,
                          first: nat, n: nat, stop: nat, pageSize: nat, acc: Collected): (r: Result<Collected>)
    requires first <= n
    ensures r.Ok? ==> acc.entries.Keys <= r.value.entries.Keys && acc.addresses <= r.value.addresses
    ensures r.Ok? && acc.Covered() ==> r.value.Covered()
    decreases stop - n
  {
    if n >= stop then Ok(acc)
    else if n + 1 >= |offsets| then Err(Internal("fixup page table index out of range"))
    else
      var pageOffset := PageOffset(n, first, pageSize);
      var afterPage :- PageFixupsAt(s, table + offsets[n], table + offsets[n + 1], objects, pageOffset, acc);
      ObjectFixupsAt(s, offsets, table, objects, first, n + 1, stop, pageSize, afterPage)
  }

  /** Object-relative offset of page `n` of an object whose first page is
      `first`, as the `uint32_t` page offset the record parser receives. */
  function PageOffset(n: nat, first: nat, pageSize: nat): (r: nat)
    requires first <= n
    ensures r < U32
  {
    Wrap32((n - first) * pageSize)
  }

  /** One page of `ObjectFixupsAt`: its records, then the later pages. */
  lemma ObjectFixupsStep(s: seq<byte>, offsets: seq<nat>, table: nat, objects: seq<ObjectHeader>,
                         first: nat, n: nat, stop: nat, pageSize: nat, acc: Collected)
    requires first <= n < stop && n + 1 < |offsets|
    ensures var page := PageFixupsAt(s, table + offsets[n], table + offsets[n + 1], objects, PageOffset(n, first, pageSize), acc);
      ObjectFixupsAt(s, offsets, table, objects, first, n, stop, pageSize, acc) ==
        if page.Err? then Err(page.error)
        else ObjectFixupsAt(s, offsets, table, objects, first, n + 1, stop, pageSize, page.value)
  {
  }

  /** The page range of object `oi`: from its first page while below
      first_page_index + page_count, the sum taken in `uint32_t`. */
  function ObjectPageStop(o: ObjectHeader): nat
  {
    Wrap32(o.firstPageIndex + o.pageCount)
  }

  /** Fixups of objects `oi` and later, each in its own map. */
  function FixupTableAt(s: seq<byte>, offsets: seq<nat>, table: nat, objects: seq<ObjectHeader>, pageSize: nat,
                        oi: nat, maps: seq<map<nat, nat>>, addresses: set<nat>): (r: Result<(seq<map<nat, nat>>, set<nat>)>)
    requires oi <= |objects| && |maps| == oi
    ensures r.Ok? ==> |r.value.0| == |objects| && r.value.0[..oi] == maps && addresses <= r.value.1
    ensures r.Ok? && (forall i, k :: 0 <= i < oi && k in maps[i] ==> maps[i][k] in addresses) ==>
      forall i, k :: 0 <= i < |objects| && k in r.value.0[i] ==> r.value.0[i][k] in r.value.1
    decreases |objects| - oi
  {
    if oi == |objects| then Ok((maps, addresses))
    else
      var o := objects[oi];
      var c :- ObjectFixupsAt(s, offsets, table, objects, o.firstPageIndex, o.firstPageIndex,
                              ObjectPageStop(o), pageSize, Collected(map[], addresses));
      assert forall i, k :: 0 <= i < oi && k in maps[i] && maps[i][k] in addresses ==> maps[i][k] in c.addresses;
      var r := FixupTableAt(s, offsets, table, objects, pageSize, oi + 1, maps + [c.entries], c.addresses);
      if r.Ok? then
        assert (maps + [c.entries])[..oi] == maps;
        assert r.value.0[..oi] == r.value.0[..oi + 1][..oi];
        r
      else r
  }

  /** One record of `PageFixupsAt`. */
  lemma PageFixupsStep(s: seq<byte>, cursor: nat, end: nat, objects: seq<ObjectHeader>, pageOffset: nat, acc: Collected)
    requires cursor < end
    ensures var parsed := FixupAt(s, cursor, objects, pageOffset);
      PageFixupsAt(s, cursor, end, objects, pageOffset, acc) ==
        if parsed.Err? then Err(parsed.error)
        else PageFixupsAt(s, parsed.value.next, end, objects, pageOffset, acc.Add(parsed.value.fixup))
  {
  }

  lemma PageFixupsDone(s: seq<byte>, cursor: nat, end: nat, objects: seq<ObjectHeader>, pageOffset: nat, acc: Collected)
    requires cursor >= end
    ensures PageFixupsAt(s, cursor, end, objects, pageOffset, acc) == Ok(acc)
  {
  }

  /** The inner loop of `loadObjectFixups`: the records of one page, each
      recorded at its offset and its destination added to the set. */
  method LoadPageFixups(s: seq<byte>, start: nat, end: nat, objects: seq<ObjectHeader>, pageOffset: nat, acc: Collected)
    returns (r: Result<Collected>)
    ensures r == PageFixupsAt(s, start, end, objects, pageOffset, acc)
  {
    var cursor := start;
    var collected := acc;
    while cursor < end
      invariant PageFixupsAt(s, cursor, end, objects, pageOffset, collected) == PageFixupsAt(s, start, end, objects, pageOffset, acc)
      decreases end - cursor
    {
      var parsed := ReadFixup(s, cursor, objects, pageOffset);
      if parsed.Err? {
        return Err(parsed.error);
      }
      collected := collected.Add(parsed.value.fixup);
      cursor := parsed.value.next;
    }
    r := Ok(collected);
  }

  /** `loadObjectFixups`: pages `first` up to `stop` of one object, into a
      fresh map. */
  method LoadObjectFixups(s: seq<byte>, offsets: seq<nat>, table: nat, objects: seq<ObjectHeader>,
                          first: nat, stop: nat, pageSize: nat, addresses: set<nat>) returns (r: Result<Collected>)
    ensures r == ObjectFixupsAt(s, offsets, table, objects, first, first, stop, pageSize, Collected(map[], addresses))
  {
    var collected := Collected(map[], addresses);
    var n := first;
    while n < stop
      invariant first <= n
      invariant ObjectFixupsAt(s, offsets, table, objects, first, n, stop, pageSize, collected) ==
                ObjectFixupsAt(s, offsets, table, objects, first, first, stop, pageSize, Collected(map[], addresses))
      decreases stop - n
    {
      if n + 1 >= |offsets| {
        return Err(Internal("fixup page table index out of range"));
      }
      var page := LoadPageFixups(s, table + offsets[n], table + offsets[n + 1], objects, PageOffset(n, first, pageSize), collected);
      ObjectFixupsStep(s, offsets, table, objects, first, n, stop, pageSize, collected);
      if page.Err? {
        return Err(page.error);
      }
      collected := page.value;
      n := n + 1;
    }
    r := Ok(collected);
  }

  /** `loadFixupTable`: one map per object, in object order. */
  method LoadFixupTable(s: seq<byte>, offsets: seq<nat>, table: nat, objects: seq<ObjectHeader>, pageSize: nat)
    returns (r: Result<(seq<map<nat, nat>>, set<nat>)>)
    ensures r == FixupTableAt(s, offsets, table, objects, pageSize, 0, [], {})
  {
    var maps: seq<map<nat, nat>> := [];
    var addresses: set<nat> := {};
    var oi := 0;
    while oi < |objects|
      invariant oi <= |objects| && |maps| == oi
      invariant FixupTableAt(s, offsets, table, objects, pageSize, oi, maps, addresses) ==
                FixupTableAt(s, offsets, table, objects, pageSize, 0, [], {})
    {
      var c := LoadObjectFixups(s, offsets, table, objects, objects[oi].firstPageIndex, ObjectPageStop(objects[oi]), pageSize, addresses);
      if c.Err? {
        return Err(c.error);
      }
      maps := maps + [c.value.entries];
      addresses := c.value.addresses;
      oi := oi + 1;
    }
    r := Ok((maps, addresses));
  }

  /** The `LinearExecutable` constructor: the header, then the tables, each
      at the header offset plus its table offset (a `uint32_t` sum). */
  function LinearExecutableAt(s: seq<byte>, headerOffset: nat): (r: Result<LinearExecutable>)
    ensures r.Ok? ==> |r.value.objects| == r.value.header.objectCount
    ensures r.Ok? ==> |r.value.objectPages| == r.value.header.pageCount
    ensures r.Ok? ==> |r.value.fixups| == |r.value.objects|
    ensures r.Ok? ==> forall i, k :: 0 <= i < |r.value.fixups| && k in r.value.fixups[i] ==>
      r.value.fixups[i][k] in r.value.fixupAddresses
  {
    var parsed :- HeaderAt(s, headerOffset);
    TablesAt(s, parsed.header, TablePlaces(parsed))
  }

  /** File offsets of the four tables the loader reads. */
  datatype Places = Places(objectTable: nat, objectPageTable: nat, fixupPageTable: nat, fixupRecordTable: nat)

  function TablePlaces(parsed: ParsedHeader): (r: Places)
    ensures r.objectTable < U32 && r.objectPageTable < U32 && r.fixupPageTable < U32 && r.fixupRecordTable < U32
    ensures (r.objectTable - parsed.headerOffset - parsed.header.objectTableOffset) % U32 == 0
    ensures (r.fixupRecordTable - parsed.headerOffset - parsed.header.fixupRecordTableOffset) % U32 == 0
  {
    var ho := parsed.headerOffset;
    var h := parsed.header;
    Places(Wrap32(ho + h.objectTableOffset), Wrap32(ho + h.objectPageTableOffset),
           Wrap32(ho + h.fixupPageTableOffset), Wrap32(ho + h.fixupRecordTableOffset))
  }

  /** The tables after the header: the object table, the object page
      table, the page_count + 1 entries of the fixup page table and the
      fixup records. */
  function TablesAt(s: seq<byte>, h: Header, at: Places): (r: Result<LinearExecutable>)
    ensures r.Ok? ==> r.value.header == h
    ensures r.Ok? ==> |r.value.objects| == h.objectCount
    ensures r.Ok? ==> |r.value.objectPages| == h.pageCount
    ensures r.Ok? ==> |r.value.fixups| == |r.value.objects|
    ensures r.Ok? ==> forall i, k :: 0 <= i < |r.value.fixups| && k in r.value.fixups[i] ==>
      r.value.fixups[i][k] in r.value.fixupAddresses
  {
    var objects :- TableAt(ObjectHeaderAt, ObjectHeaderSize, s, at.objectTable, h.objectCount);
    var pages :- TableAt(ObjectPageHeaderAt, ObjectPageHeaderSize, s, at.objectPageTable, h.pageCount);
    var offsets :- FixupPageTableAt(s, at.fixupPageTable, h.pageCount + 1);
    var tables :- FixupTableAt(s, offsets, at.fixupRecordTable, objects, h.pageSize, 0, [], {});
    Ok(LinearExecutable(h, objects, pages, tables.0, tables.1))
  }

  /** The fixup page table: `count` 32-bit offsets into the fixup record
      table. */
  function FixupPageTableAt(s: seq<byte>, at: nat, count: nat): (r: Result<seq<nat>>)
    ensures r.Ok? <==> at + 4 * count <= |s|
    ensures r.Ok? ==> |r.value| == count && forall i :: 0 <= i < count ==> r.value[i] < U32
  {
    SumConst(count, 4);
    if at + Sum(Repeat(count, 4)) > |s| then Err(Eof)
    else
      var offsets := FieldsAt(s, at, Repeat(count, 4));
      FieldsFit(s, at, Repeat(count, 4));
      assert forall i :: 0 <= i < count ==> offsets[i] < Pow256(4);
      Ok(offsets)
  }

  /** Reading the fixup page table: `count` stream reads. */
  method ReadFixupPageTable(s: seq<byte>, at: nat, count: nat) returns (r: Result<seq<nat>>)
    requires count > 0
    ensures r == FixupPageTableAt(s, at, count)
  {
    SumConst(count, 4);
    var next;
    r, next := ReadFields(s, at, Repeat(count, 4));
  }

  /** The constructor, reading the header and then each table in turn. */
  method LoadLinearExecutable(s: seq<byte>, headerOffset: nat) returns (r: Result<LinearExecutable>)
    ensures r == LinearExecutableAt(s, headerOffset)
  {
    var parsed := ReadHeader(s, headerOffset);
    if parsed.Err? {
      return Err(parsed.error);
    }
    r := LoadTables(s, parsed.value.header, TablePlaces(parsed.value));
  }

  method LoadTables(s: seq<byte>, h: Header, at: Places) returns (r: Result<LinearExecutable>)
    ensures r == TablesAt(s, h, at)
  {
    var objects := LoadObjectTable(s, at.objectTable, h.objectCount);
    if objects.Err? {
      return Err(objects.error);
    }
    var pages := LoadPageTable(s, at.objectPageTable, h.pageCount);
    if pages.Err? {
      return Err(pages.error);
    }
    var offsets := ReadFixupPageTable(s, at.fixupPageTable, h.pageCount + 1);
    if offsets.Err? {
      return Err(offsets.error);
    }
    var tables := LoadFixupTable(s, offsets.value, at.fixupRecordTable, objects.value, h.pageSize);
    if tables.Err? {
      return Err(tables.error);
    }
    r := Ok(LinearExecutable(h, objects.value, pages.value, tables.value.0, tables.value.1));
  }

  /** The bytes of a page's fixup records, one after another. */
  function EncodeRecords(rs: seq<FixupRecord>): (bs: seq<byte>)
    ensures |bs| == RecordsSize(rs)
  {
    if |rs| == 0 then [] else EncodeFixup(rs[0]) + EncodeRecords(rs[1..])
  }

  function RecordsSize(rs: seq<FixupRecord>): nat
  {
    if |rs| == 0 then 0 else RecordSize(rs[0]) + RecordsSize(rs[1..])
  }

  /** The records `rs` are stored one after another from `p`. */
  predicate RecordsStoredAt(s: seq<byte>, p: nat, rs: seq<FixupRecord>)
    decreases |rs|
  {
    |rs| == 0 || (StoredAt(s, p, rs[0]) && RecordsStoredAt(s, p + RecordSize(rs[0]), rs[1..]))
  }

  /** Encoded records are stored where they are placed. */
  lemma {:induction false} EncodedRecordsStored(prefix: seq<byte>, rs: seq<FixupRecord>, suffix: seq<byte>)
    ensures RecordsStoredAt(prefix + EncodeRecords(rs) + suffix, |prefix|, rs)
    decreases |rs|
  {
    if |rs| > 0 {
      var head := EncodeFixup(rs[0]);
      var rest := EncodeRecords(rs[1..]);
      assert prefix + EncodeRecords(rs) + suffix == prefix + head + (rest + suffix);
      EncodedStored(prefix, rs[0], rest + suffix);
      assert prefix + EncodeRecords(rs) + suffix == (prefix + head) + rest + suffix;
      EncodedRecordsStored(prefix + head, rs[1..], suffix);
    }
  }

  /** Recording the fixups `rs` describe, in order. */
  function AddAll(acc: Collected, rs: seq<FixupRecord>, objects: seq<ObjectHeader>, pageOffset: nat): Collected
    requires forall i :: 0 <= i < |rs| ==> rs[i].Supported(objects)
    decreases |rs|
  {
    if |rs| == 0 then acc else AddAll(acc.Add(Described(rs[0], objects, pageOffset)), rs[1..], objects, pageOffset)
  }

  /** A page slice holding stored records yields exactly their fixups, in
      order: the later of two records at one offset wins. */
  lemma {:induction false} PageRoundTrip(s: seq<byte>, cursor: nat, end: nat, rs: seq<FixupRecord>,
                                         objects: seq<ObjectHeader>, pageOffset: nat, acc: Collected)
    requires forall i :: 0 <= i < |rs| ==> rs[i].Supported(objects)
    requires RecordsStoredAt(s, cursor, rs) && end == cursor + RecordsSize(rs)
    ensures PageFixupsAt(s, cursor, end, objects, pageOffset, acc) == Ok(AddAll(acc, rs, objects, pageOffset))
    decreases |rs|
  {
    if |rs| > 0 {
      var next := cursor + RecordSize(rs[0]);
      var after := acc.Add(Described(rs[0], objects, pageOffset));
      FixupRoundTrip(s, cursor, rs[0], objects, pageOffset);
      PageFixupsStep(s, cursor, end, objects, pageOffset, acc);
      PageRoundTrip(s, next, end, rs[1..], objects, pageOffset, after);
    } else {
      PageFixupsDone(s, cursor, end, objects, pageOffset, acc);
    }
  }
}
