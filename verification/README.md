# le_disasm in Dafny

This project models the core of le_disasm, a disassembler for DOS/4GW-era
Linear Executable (LE/LX) modules, and proves properties of that model.

The model follows the program's stages:

1. **Loader.** The loader reads the MZ stub and the LE/LX header, the object
   table, the object page table and the fixup page and record tables. The
   input is a byte sequence read at an explicit cursor, and every rejection
   the program makes is an `Error` value. It builds the per-object maps from
   fixup source offset to destination address, and the set of all
   destinations.
2. **Image.** The image holds one zero-filled buffer per object, filled
   from its pages and then patched in place with the fixup values.
3. **Regions and labels.** The address space is a partition into UNKNOWN,
   CODE, DATA and SWITCH regions keyed by start address, plus a map from
   address to label role. The model covers split-insert, merging with
   neighbours, and lookups.
4. **Analyzer.** The analyzer is a FIFO worklist that traces code from the
   entry point. It reclassifies spans as DATA, finds switch tables among the
   fixups, and sweeps the remaining fixup destinations.
5. **Printers.** The DATA printer, the switch-table printer, label naming,
   address-literal rewriting in instruction text, the instruction line, the
   section switch, and the dump of skipped regions.
6. **Symbol map.** The reader of a text map of named symbols.

Each source file has one module:

| module | models |
|---|---|
| `LittleEndian` (little_endian.dfy) | little_endian.h |
| `Records` (records.dfy) | fixed-layout runs of little-endian fields |
| `ObjectHeaders`, `ObjectPageHeaders`, `Headers`, `Fixups`, `LinExes` | le/object_header.h, le/object_page_header.h, le/header.h, le/fixup.h, le/lin_ex.h |
| `ImageObjects`, `Images` | le/image_object.h, le/image.h |
| `Types`, `RegionValues`, `RegionMaps` | type.h, region.h, regions.h |
| `Insns` | insn.h |
| `TraceRules`, `Analysis`, `Analyzers` | dis_info.h and analyzer.h |
| `PrintData`, `Printer` | print_data.h, print.h |
| `SymbolMaps` | symbol_map.h |
| `Common`, `Text`, `OrderedKeys` | errors, 32-bit arithmetic, hex text, ordered map keys |

Code that updates state in place is modelled as methods that do the same:
- `ImageObjects.ImageObject`, `RegionMaps.Regions`, `Insns.Insn`,
  `Analyzers.Analyzer` and `SymbolMaps.SymbolMap` are classes.
- The `Images` module keeps each object's buffer in an `array<byte>`. Its
  methods fill the buffer page by page and patch the fixups into it in place.
- Their loops carry invariants.
- Each method is proved against a specification function of the old
  state, and the properties are proved about those functions.

The analyzer's specification functions live in `Analysis`. The `Analyzer`
class in `Analyzers` performs the same steps on its fields.

Modelling conventions:
- The external x86 decoder (libopcodes) is a function parameter `Decoder`.
  It maps an address and the available bytes to a size, a text and a printed
  memory address. A negative size is the program's "failed to disassemble"
  error.
- Standard output is modelled as values. The DATA printer yields a sequence
  of `Directive`s, whose characters `PrintData.Render` gives. The switch
  printer yields `SwitchLine`s, and `print_region` yields a `RegionListing`.
- A bounds error the program does not check (an index past a vector, a
  pointer past an object buffer, a region lost after a split) is an
  `Internal` error in the model.
- A decoder result of size 0, or larger than the bytes offered, is also an
  `Internal` error. The program would loop forever on a size of 0.

## Model

| member | source | states |
|---|---|---|
| LittleEndian.ToSigned | insn.h:116-124 | the signed reading of a stored value lies in the two's-complement range and differs from the unsigned value by 0 or 256^width |
| LittleEndian.Encode | little_endian.h:33-45 | `write_le` stores exactly `width` bytes |
| LittleEndian.DecodeBound | little_endian.h:8-15 | a value read from n bytes is below 256^n |
| LittleEndian.DecodeSnoc | little_endian.h:12-14 | byte n contributes `p[n] << 8n`: one more byte adds it at the next position |
| LittleEndian.RoundTrip | little_endian.h:33-45 | reading back the bytes `write_le` stored gives the value, for every value that fits |
| LittleEndian.EncodeDecode | little_endian.h:8-15 | writing back the value `read_le` read gives the same bytes |
| LittleEndian.EncodeSnoc | little_endian.h:36-39 | each further byte stored is the low byte of the value shifted right by 8 once more |
| LittleEndian.ReadLe | little_endian.h:8-15 | the loop ORs every byte in at its shift: the result is the little-endian value of the first `width` bytes, below 256^width |
| LittleEndian.WriteLe | little_endian.h:33-40 | the loop stores exactly the little-endian encoding at `at`, and no byte outside it changes |
| LittleEndian.ReadLeStream | little_endian.h:17-24 | a read with enough bytes left gives their value and advances the cursor by `width`; a short read is the EOF error |
| LittleEndian.DecodeSigned | insn.h:116-124 | `read_le<int8_t/int16_t/int32_t>`: the stored bytes read as two's complement, in range and congruent to the unsigned reading |
| LittleEndian.SignedRoundTrip | insn.h:116-124 | every value in the signed range round-trips through its two's-complement encoding |
| Fixups.DestWidth | le/fixup.h:57-68 | a record carries a 4-byte target when the relocation flags ask for 32 bits, else 2 bytes unless the address type is 2, else none |
| Fixups.FixupAt | le/fixup.h:40-75 | a parsed record ends 5 bytes plus its target width after its start, inside the stream; its offset and address are 32-bit values |
| Fixups.FixupErrors | le/fixup.h:11-38 | each error exactly when its condition holds in check order: source lists (bit 0x20), non-internal references, an object index outside 1..count; any other error is EOF |
| Fixups.EncodeFixup | le/fixup.h:40-70 | the record's bytes are 5 plus its target width long |
| Fixups.EncodedStored | le/fixup.h:40-70 | an encoded record placed anywhere in a stream is found there |
| Fixups.FixupRoundTrip | le/fixup.h:40-75 | parsing a stored supported record gives its described fixup (page offset plus signed source offset; object base plus target, or the object number) and the position after it |
| Fixups.ReadFixup | le/fixup.h:72-75 | the constructor's stream reads give exactly `FixupAt` |
| Headers.FieldLayoutSize | le/header.h:92-133 | after the three checked fields come 42 fixed-width fields, 164 bytes in all |
| Headers.ToFields | le/header.h:92-135 | a header has exactly 42 stored fields |
| Headers.FieldsInverse | le/header.h:92-135 | reading back the stored fields gives the header, with the object indices decremented on reading and incremented on storing |
| Headers.ValidFieldsInverse | le/header.h:78-135 | the same for every header the constructor can produce |
| Headers.SignatureAt | le/header.h:55-76 | an accepted signature leaves the cursor right after "LE"/"LX" at offset 0, or after "LE" at the stub's header offset, inside the file |
| Headers.EncodeBody | le/header.h:80-133 | a stored header body is 6 + 164 bytes long |
| Headers.SignatureRejected | le/header.h:59-60 | "Invalid MZ signature" exactly when the file starts with none of "MZ", "LE", "LX" |
| Headers.BareSignatureKeepsOffset | le/header.h:59-61 | a bare "LE"/"LX" file is read from offset 2 and the caller's header offset is left as it was |
| Headers.StubNotLe | le/header.h:61-67 | an "MZ" stub is "Not a LE executable" exactly when its byte at 0x18 is below 0x40 |
| Headers.StubRejectsLx | le/header.h:68-74 | a stub pointing at an "LX" header is rejected: only "LE" may follow a stub |
| Headers.BodyChecks | le/header.h:80-91 | each of the byte-order, word-order and format-version errors exactly when its field is the first one out of range |
| Headers.BodyRoundTrip | le/header.h:78-136 | a valid header stored anywhere in a stream reads back as itself |
| Headers.BodyFromFields | le/header.h:92-135 | with the three checks passed, the header is the 42 fields read in order |
| Headers.BareRoundTrip | le/header.h:55-136 | a bare "LE"/"LX" file holding a valid header parses to that header, the header offset unchanged |
| Headers.StubRoundTrip | le/header.h:55-136 | an "MZ" stub whose offset at 0x3c points at "LE" parses to the header there, and reports the stub's length as the header offset |
| Headers.CheckSignature | le/header.h:55-76 | `throwOnInvalidSignature`'s stream reads give exactly `SignatureAt` |
| Headers.ReadHeader | le/header.h:78-136 | the constructor's reads give exactly `HeaderAt` |
| Headers.HeaderAt | le/header.h:78-136 | the `Header` constructor: an unknown signature is "Invalid MZ signature"; a bare LE/LX file keeps the caller's header offset; a parsed header is the body read at the cursor the signature check leaves |
| ObjectHeaders.LayoutSize | le/object_header.h:21-26 | an object table entry is six 32-bit fields, 24 bytes |
| ObjectHeaders.ObjectHeaderAt | le/object_header.h:28-36 | reading fails with EOF exactly when fewer than 24 bytes remain; a read entry has 32-bit fields and a decremented first page index |
| ObjectHeaders.EncodeObjectHeader | le/object_header.h:21-26 | a stored entry is 24 bytes |
| ObjectHeaders.ObjectHeaderRoundTrip | le/object_header.h:28-36 | an entry stored anywhere in a stream reads back as itself |
| ObjectHeaders.ExecutableFlagByte | le/object_header.h:38-40 | `isExecutable()` is bit 2 of the flags' low byte, at offset 8 of the entry |
| ObjectHeaders.ReadObjectHeader | le/object_header.h:28-36 | `readFrom`'s stream reads give exactly `ObjectHeaderAt` and advance by 24 bytes |
| ObjectPageHeaders.PageTypeOf | le/object_page_header.h:8-21 | the page type stored as a byte 0..4 is the enumerator with that value |
| ObjectPageHeaders.LayoutSize | le/object_page_header.h:10-12 | a page table entry is 2 + 1 + 1 bytes |
| ObjectPageHeaders.ObjectPageHeaderAt | le/object_page_header.h:14-22 | a read entry has a 16-bit first number, an 8-bit second number and a page type |
| ObjectPageHeaders.PageHeaderOutcomes | le/object_page_header.h:14-22 | EOF exactly when fewer than 4 bytes remain, "Invalid object page type" exactly when the type byte is above 4, and otherwise the type is that byte |
| ObjectPageHeaders.EncodeObjectPageHeader | le/object_page_header.h:10-12 | a stored entry is 4 bytes |
| ObjectPageHeaders.ObjectPageHeaderRoundTrip | le/object_page_header.h:14-22 | an entry stored anywhere in a stream reads back as itself |
| ObjectPageHeaders.ReadObjectPageHeader | le/object_page_header.h:14-22 | `readFrom`'s reads give exactly `ObjectPageHeaderAt` and advance by 4 bytes |
| ObjectPageHeaders.PageType.Ordinal | le/object_page_header.h:8 | the page types are numbered 0 to 4 |
| LinExes.EntryPointAddress | le/lin_ex.h:18-20 | the entry point is the entry object's base plus EIP, as a 32-bit sum; an entry object index past the table is an error |
| LinExes.OffsetOfPageInFile | le/lin_ex.h:22-28 | a page index outside the page table gives 0; otherwise a 32-bit file offset |
| LinExes.TableAt | le/lin_ex.h:30-36 | `loadTable`: on success `count` entries, entry i read at `at + size*i`; on failure the error of some entry's read |
| LinExes.TablePrefixFails | le/lin_ex.h:33-35 | once an entry fails to read, reading more entries fails with the same error |
| LinExes.ObjectTableEof | le/lin_ex.h:63-64 | the object table fails to load exactly when it runs past the end of the file, and then with EOF |
| LinExes.LoadObjectTable | le/lin_ex.h:62-64 | the loop reads the object table as `TableAt` describes |
| LinExes.LoadPageTable | le/lin_ex.h:66-67 | the loop reads the object page table as `TableAt` describes |
| LinExes.Collected.Add | le/lin_ex.h:48-49 | a fixup stores its address at its offset, overwriting only that offset, and its address joins the address set |
| LinExes.PageFixupsAt | le/lin_ex.h:45-51 | reading a page's fixups only adds offsets and addresses, and keeps every stored address in the address set |
| LinExes.ObjectFixupsAt | le/lin_ex.h:41-52 | the same for all pages of an object |
| LinExes.PageOffset | le/lin_ex.h:44 | a page's offset within its object is a 32-bit value |
| LinExes.FixupTableAt | le/lin_ex.h:55-60 | one fixup map per object, the maps already read unchanged, and every stored address in the address set |
| LinExes.LoadPageFixups | le/lin_ex.h:45-51 | the inner loop reads records until the page's end as `PageFixupsAt` describes |
| LinExes.LoadObjectFixups | le/lin_ex.h:38-53 | the page loop as `ObjectFixupsAt` describes |
| LinExes.LoadFixupTable | le/lin_ex.h:55-60 | the object loop as `FixupTableAt` describes |
| LinExes.LinearExecutableAt | le/lin_ex.h:62-77 | a loaded executable has `object_count` objects, `page_count` pages, one fixup map per object, and every fixup address in `fixup_addresses` |
| LinExes.TablePlaces | le/lin_ex.h:62-76 | each table's position is the header offset plus the table offset, as a 32-bit sum |
| LinExes.TablesAt | le/lin_ex.h:63-76 | the same shape facts as `LinearExecutableAt`, with the header kept |
| LinExes.FixupPageTableAt | le/lin_ex.h:69-74 | the fixup page table reads `count` 32-bit offsets (the constructor asks for `page_count + 1`), failing exactly when they run past the file |
| LinExes.ReadFixupPageTable | le/lin_ex.h:71-74 | the loop reads the offsets as `FixupPageTableAt` describes |
| LinExes.LoadLinearExecutable | le/lin_ex.h:62-77 | the constructor gives exactly `LinearExecutableAt` |
| LinExes.LoadTables | le/lin_ex.h:63-76 | the table loads give exactly `TablesAt` |
| LinExes.EncodeRecords | le/lin_ex.h:45-51 | records stored back to back take the sum of their sizes |
| LinExes.EncodedRecordsStored | le/lin_ex.h:45-51 | records stored back to back are found one after another |
| LinExes.PageRoundTrip | le/lin_ex.h:45-51 | a page holding stored supported records reads back as those records' fixups added in order |
| Images.FirstHolding | le/image.h:13-21 | the scan returns the first object from `n` on that holds the address, or the out-of-range error exactly when none does |
| Images.ObjectAt | le/image.h:13-21 | `objectAt` finds an object of the image holding the address, and fails exactly when no object holds it |
| Images.Zeroed | le/image.h:54-55 | the cleared, resized buffer is `virtual_size` zero bytes |
| Images.Splice | le/image.h:28 | a read into the buffer at `off` replaces exactly those bytes and keeps the length |
| Images.PageBytes | le/image.h:26 | a page's read stays inside the buffer and is at most the page size, or the last page's size for the last page |
| Images.PagesLoaded | le/image.h:24-32 | loading keeps the buffer's length; its only error is EOF |
| Images.PagesStep | le/image.h:26-31 | one page: a short read fails with EOF, a zero-sized read changes nothing, otherwise the page is spliced in at the running offset |
| Images.LoadedLength | le/image.h:24-32 | the pages fill the buffer up to some point inside it |
| Images.TailUntouched | le/image.h:24-32 | bytes past what the pages fill keep their old (zero) value |
| Images.HeadUntouched | le/image.h:24-32 | bytes before the running offset are not changed by later pages |
| Images.CopyInto | le/image.h:28 | `is.read` into the buffer: exactly the read bytes at `off` change |
| Images.LoadObjectData | le/image.h:23-33 | the page loop fills the buffer in place exactly as `PagesLoaded` describes, or fails with its error |
| Images.FixupWidth | le/image.h:41-45 | a target below 256 is stored in 2 bytes, any other in 4 |
| Images.GuardWrapsAround | le/image.h:37 | as written, the 32-bit sum `offset + 4` wraps: the offset 0xfffffffe passes the check on an 8-byte buffer although the write lies outside it |
| Images.GuardIntended | le/image.h:37-45 | the corrected check (offset + 4 >= size, computed without wrapping) keeps every write inside the buffer, and agrees with the check as written whenever the sum does not wrap |
| Images.FixupsFrom | le/image.h:36-46 | applying fixups keeps the buffer's length; its only error is "Fixup points outside object boundaries" |
| Images.OutsideAsWritten | le/image.h:37 | the guard as written agrees with `Outside` whenever offset + 4 fits in 32 bits, and otherwise compares the wrapped sum offset + 4 − 2^32 with the length |
| Images.Outside | le/image.h:37-39 | the intended guard: a fixup that passes it has all four bytes inside the buffer |
| Images.FixupsStep | le/image.h:37-45 | one fixup: outside the object fails, otherwise its value's little-endian encoding of its width is spliced in at its offset |
| Images.FixupsKeepOthers | le/image.h:36-46 | a byte no remaining fixup writes keeps its value |
| Images.FixupsKeepUnpatched | le/image.h:35-47 | after `applyFixups`, a byte no fixup writes is unchanged |
| Images.FixupReadsBackFrom | le/image.h:35-47 | a fixup no later fixup overlaps reads back, little-endian over its width, as its target address |
| Images.WriteFixup | le/image.h:40-45 | `write_le` of the target: exactly its encoding at the offset changes |
| Images.ApplyFixup | le/image.h:37-45 | one iteration of the loop does what `FixupsStep` describes, in place |
| Images.ApplyFixups | le/image.h:35-47 | the loop over the fixups in ascending offset order patches the buffer in place exactly as `FixupsApplied` describes, or fails with its error |
| Images.FixupsApplied | le/image.h:35-47 | `applyFixups` keeps the buffer length, fails only with "Fixup points outside object boundaries", succeeds only when every fixup offset passes the guard, and leaves the buffer as it is when there are no fixups |
| Images.ObjectImage | le/image.h:52-57 | an object's loaded and patched data is `virtual_size` bytes |
| Images.Collect | le/image.h:52-59 | collecting the objects' results in order gives one value per object |
| Images.CollectEach | le/image.h:52-59 | each collected value is its object's result |
| Images.CollectFails | le/image.h:52-59 | the first failing object's error is the image's error |
| Images.CollectOk | le/image.h:52-59 | when every object loads, the image loads |
| Images.ObjectImages | le/image.h:52-59 | one result per object of the executable, each `ObjectImage` |
| Images.LoadObject | le/image.h:53-58 | one object: loaded, patched and initialised with its index, base address and executable flag, or the error of its load |
| Images.BuildImage | le/image.h:49-60 | the constructor builds one image object per executable object, each as `LoadObject` describes, or fails with the first object's error |
| ImageObjects.ImageObject.Init | le/image_object.h:9-15 | `init` stores index, base address, executable flag, bitness and data |
| ImageObjects.ImageObject.DataAt | le/image_object.h:17 | `get_data_at(address)` is the object's data from `address - base_address` on |
| Insns.CsPrefixSkipped | insn.h:62-68 | after a CS override prefix the opcode bytes are read one byte further on |
| Insns.RegField | insn.h:102 | the ModR/M reg field is a value below 8 |
| Insns.ClassifyMatchesTable | insn.h:73-109 | the opcode classes are disjoint; the decision chain gives CALL, JUMP, COND_JUMP or RET by the opcode table and otherwise keeps the type; an indirect 0xff instruction has no relative target |
| Insns.Classify | insn.h:73-109 | the decision chain yields the current type or one of CALL, JUMP, COND_JUMP and RET; an 0xff opcode has no relative target |
| Insns.ClassifyTargets | insn.h:73-109 | the decision chain reports a relative target exactly when the first opcode byte is not 0xff |
| Insns.DisplacementWidth | insn.h:114-126 | the displacement is 1 byte for short forms, 4 bytes for 32-bit near forms, 2 for 16-bit near forms, and lies inside the instruction |
| Insns.RelativeTarget | insn.h:112-126 | the target is address + size + signed displacement, as a 32-bit sum |
| Insns.RelativeTargetRoundTrip | insn.h:112-126 | an instruction whose last bytes encode displacement x targets address + size + x, wrapped to 32 bits |
| Insns.TargetAndType | insn.h:56-138 | a memory address that was a 32-bit value stays one |
| Insns.TargetAndTypeCases | insn.h:111-137 | a relative branch sets the memory address to its target, and fails ("discarded") exactly when a different non-zero address was already set; otherwise a set address is kept, and with none and no "s:0x" in the text it stays 0 |
| Insns.Insn.constructor | insn.h:29-31 | a new instruction belongs to its object and starts empty |
| Insns.Insn.Reset | insn.h:48-52 | `reset()` clears the memory address, the text and the instruction address, nothing else |
| Insns.Insn.SetSize | insn.h:54 | `setSize` changes the size only |
| Insns.Insn.AppendText | insn.h:37-46 | the decoder's print callback appends the piece of text and resets the type to MISC |
| Insns.Insn.SetTargetAndType | insn.h:56-138 | the method updates the instruction in place as `TargetAndType` describes: the classified type, the new memory address, or the "discarded" error with the old address kept |
| Types.Ordinal | type.h:11-20 | the enumerators are numbered 0..7 in declaration order, the four region classes first |
| Types.PrintAddress | type.h:6-9 | `printAddress` writes the prefix, then lower-case hex digits of the address, zero-padded to at least six, which read back as the address |
| Types.PadHexLowerCase | type.h:8 | `std::hex` output never holds an upper-case digit |
| RegionValues.Region.End | region.h:29 | `end_address()` is address + size summed as `uint32_t`, so it is the plain sum whenever that fits |
| RegionValues.Region.WithSize | region.h:33 | the size setter changes the size only |
| RegionValues.Region.WithOwner | region.h:39 | the object setter changes the object only |
| RegionValues.Region.Bitness | region.h:34-37 | a region's bitness is its object's |
| RegionValues.DefaultRegion | region.h:20-25 | the default region is empty, UNKNOWN, at 0, with no object |
| RegionValues.EmptyContainsNothing | region.h:31 | an empty region contains no address |
| RegionValues.ContainsRange | region.h:31 | when the end does not wrap, `contains_address` is `address <= a < address + size` |
| RegionValues.WrappedContainsNothing | region.h:31 | a region whose 32-bit end wraps contains no address at all |
| RegionValues.TypeName | region.h:42-55 | the four region classes print as their names, pairwise distinct (with `TypeNamesDistinct`); any other type prints as "(unknown N)" with its number |
| RegionValues.TypeNamesDistinct | region.h:42-52 | the four class names differ |
| RegionValues.TypeNameAsWritten | region.h:42-55 | the operator as written agrees with `TypeName` on the four region classes |
| RegionValues.TypeNameAsWrittenNeverEnds | region.h:53 | as written, a type past SWITCH makes the operator call itself on the same value forever: no stack depth suffices to print it |
| RegionMaps.RegionContaining | regions.h:24-38 | the result is a key at or below the address; in a partition it is the region covering the address, and every covering region is it |
| RegionMaps.KindAt | regions.h:24-38 | in a partition, the class at an address is that of the region covering it, and none exactly when no region covers it |
| RegionMaps.PreviousRegion | regions.h:78-84 | the greatest key below the address, or none exactly when no key is below it |
| RegionMaps.NextRegion | regions.h:72-75 | `upper_bound`: the least key above the address, or none exactly when no key is above it |
| RegionMaps.ObjectRegion | regions.h:13-17 | an object's region starts at its base, spans its data, belongs to it, and is UNKNOWN for executable objects, DATA otherwise |
| RegionMaps.InitialRegions | regions.h:11-22 | every object's base address is a key of the initial map |
| RegionMaps.InitialKey | regions.h:11-22 | every key of the initial map is some object's base, holding that object's region |
| RegionMaps.InitialLabels | regions.h:18-20 | initial labels are all DATA, one at the base of every non-executable object |
| RegionMaps.InitialLabelKey | regions.h:18-20 | every initial label is at the base of a non-executable object: no label for executable objects |
| RegionMaps.InitialShape | regions.h:11-22 | with objects that do not overlap, each object's base maps to its own region |
| RegionMaps.InitialPartition | regions.h:11-22 | the initial regions form a partition, and each address of an object has that object's initial class |
| RegionMaps.SplitShape | regions.h:40-63 | the split keeps the parent's head (if any), inserts the target with the parent's object, adds the parent's tail (if any), and leaves every other region alone |
| RegionMaps.Split | regions.h:40-63 | the split step puts the target at its address with the parent's object, keeps every key, and adds at most the target's start and end |
| RegionMaps.SplitPartition | regions.h:40-63 | splitting a region keeps the map a partition |
| RegionMaps.SplitKindsInParent | regions.h:40-63 | inside the parent, addresses in the target take its class, the rest keep theirs |
| RegionMaps.SplitKindsOutside | regions.h:40-63 | outside the parent, classes are unchanged |
| RegionMaps.SplitKinds | regions.h:40-63 | after a split, exactly the target's addresses take the target's class |
| RegionMaps.MergeStep | regions.h:96-97 | a merge grows the earlier region by the later one's size and removes the later key, nothing else |
| RegionMaps.MergePartition | regions.h:92-101 | merging adjacent regions keeps the map a partition |
| RegionMaps.MergeKinds | regions.h:92-101 | merging two adjacent regions of the same class changes no address's class |
| RegionMaps.MergeAttempted | regions.h:92-101 | `attemptMerge` keeps a partition and returns a region still in the map, present whenever `next` was |
| RegionMaps.AttemptMergeKinds | regions.h:92-101 | `attemptMerge` changes no address's class |
| RegionMaps.MergedAround | regions.h:86-90 | `check_merge_regions` keeps a partition |
| RegionMaps.CheckMergeKinds | regions.h:86-90 | `check_merge_regions` changes no address's class |
| RegionMaps.SplitInserted | regions.h:40-70 | `splitInsert` keeps a partition |
| RegionMaps.SplitInsertKinds | regions.h:40-70 | after `splitInsert`, exactly the target's addresses have the target's class, and the set of covered addresses is unchanged |
| RegionMaps.Regions.constructor | regions.h:11-22 | the constructor builds the initial regions and labels |
| RegionMaps.Regions.AttemptMerge | regions.h:92-101 | the method updates the map in place as `MergeAttempted` describes, labels untouched |
| RegionMaps.Regions.CheckMergeRegions | regions.h:86-90 | in place, as `MergedAround` describes |
| RegionMaps.Regions.SplitParent | regions.h:44-63 | in place, as `Split` describes |
| RegionMaps.Regions.SplitInsert | regions.h:40-70 | in place, as `SplitInserted` describes, labels untouched |
| TraceRules.DecodeAt | dis_info.h:22-36 | decoding fails with `DisassemblyFailed` exactly when the decoder reports a negative size; a decoded instruction has size 1..length, lies inside its object, and carries the decoder's size and text and the kind the opcode classifier gives its leading bytes |
| TraceRules.Disassemble | dis_info.h:22-36 | the method succeeds iff `DecodeAt` does, fails with its error otherwise, and leaves the instruction's size, text, kind and memory address equal to the decoded ones |
| TraceRules.GuessResolved | analyzer.h:55-61 | a `FUNC_GUESS` label resolves to FUNCTION exactly when the text starts with "push", or starts with "sub" and contains ",%esp"; otherwise it resolves to JUMP |
| TraceRules.FpuOperandSize | analyzer.h:115-123 | an FPU operand is 10 bytes iff the text contains "t ", 8 bytes iff it contains "l " but not "t ", and otherwise fails with the unsupported-operand-size error |
| TraceRules.EnqueueRole | analyzer.h:156-166 | a target is enqueued only when it is non-zero and the span is not DATA: as JUMP iff the instruction is a (conditional) jump whose text has no '*', as FUNCTION iff it is a call |
| TraceRules.WordAt | analyzer.h:172 | the switch word is a 32-bit value |
| TraceRules.SwitchEntries | analyzer.h:168-181 | the counted strides stay inside `size` |
| TraceRules.SwitchEntriesShape | analyzer.h:168-181 | entry i is the little-endian word at stride i, every non-zero entry's offset is a fixup source, and the scan stops only at the end of `size` or at a non-zero word whose offset is not a fixup source |
| TraceRules.NonZeroMembers | analyzer.h:173-177 | the enqueued CASE targets are exactly the non-zero switch words |
| Analysis.SplitInsertRefines | regions.h:40-70 | inserting a classified region into a partition only classifies: the covered addresses stay the same and no classified address becomes UNKNOWN |
| Analysis.EnqueueAll | analyzer.h:26-32 | queueing addresses leaves the regions and the fixup destinations alone |
| Analysis.Enqueue | analyzer.h:26-32 | `add_code_trace_address` appends the address at the back of the queue and sets its label to the role; every other label, the regions and the destinations stay |
| Analysis.Initial | analyzer.h:24 | the constructor's state: an empty queue, the executable's fixup destinations, a region at every object's base, and DATA labels exactly at bases of non-executable objects |
| Analysis.EnqueueAllShape | analyzer.h:26-28 | queueing appends the addresses in order, labels each with the role, and keeps every other label |
| Analysis.Disassembled | analyzer.h:156-166 | queueing an instruction's target changes neither the regions nor the destinations |
| Analysis.FpuCarved | analyzer.h:110-130 | an FPU operand keeps the partition a partition and only classifies; the queue and the scan variables stay; an operand covered by a region is labelled DATA and is no longer UNKNOWN |
| Analysis.FpuSplit | analyzer.h:115-123 | an operand in an UNKNOWN region becomes DATA and is labelled DATA; the partition is kept and only refined |
| Analysis.Retraced | analyzer.h:124-126 | tracing continues unchanged unless the split region was the traced one; then it fails exactly when no region holds operand + 10 (32-bit), and otherwise continues in the region covering it |
| Analysis.AbortLabelled | analyzer.h:131-142 | the abort-signature check changes at most the label at the trace start; regions, queue and destinations stay |
| Analysis.DataLabelled16 | analyzer.h:143-150 | the 16-bit operand rule changes labels only |
| Analysis.Classified | analyzer.h:93-150 | after one non-final instruction: the span becomes DATA iff it was not DATA and the text starts "(bad)", "ss" or "gs"; the nop count grows by one iff the span was not DATA and the text starts "nop"; the partition is only refined |
| Analysis.DisassembledAt | analyzer.h:156-158 | the instruction is decoded from the scan address with the bytes up to the traced region's end, and decoding fails exactly when `DecodeAt` does |
| Analysis.TraceStep | analyzer.h:88-92 | one traced instruction keeps the partition, only refines it, and advances the address strictly, never past the traced region's end |
| Analysis.Stepped | analyzer.h:89-151 | the address advances by the instruction's size, the trace stops iff the instruction is a JUMP or RET, and the span's type stays or becomes DATA |
| Analysis.TraceFrom | analyzer.h:85-154 | the linear trace keeps the partition, only refines it, never moves the address backwards, and leaves the span's type as it was or DATA |
| Analysis.GuessChecked | analyzer.h:52-64 | in a region already traced, only a FUNC_GUESS label at the start of CODE changes, to FUNCTION or JUMP; otherwise nothing changes |
| Analysis.SpanSplit | analyzer.h:73-82 | the traced span becomes a region of its type (DATA iff all nops, or DATA already), a label at the start of a DATA span becomes DATA, no label appears or disappears, and the split fails exactly when the span does not lie inside the traced region |
| Analysis.SpanTraced | analyzer.h:70-82 | tracing an untraced region refines the partition and leaves the start in CODE or DATA; a label at a DATA start is DATA |
| Analysis.TraceAt | analyzer.h:44-83 | an unmapped start changes nothing; a mapped start ends in CODE or DATA; the partition is only refined |
| Analysis.TraceQueue | analyzer.h:34-42 | tracing the queue empties it and only refines the partition |
| Analysis.TraceQueueFirst | analyzer.h:37-41 | the front of the queue is traced first, and what follows only refines its result |
| Analysis.SwitchSpan | analyzer.h:189-193 | the table span reaches no further than the region's end or the next fixup destination above the address, and equals one of those |
| Analysis.SwitchWords | analyzer.h:194 | the table's words fit in the span |
| Analysis.SwitchMarked | analyzer.h:194-197 | marking a table keeps the partition and only classifies |
| Analysis.SwitchMarkedShape | analyzer.h:195-197 | a found table's bytes become SWITCH and nothing else changes class, its address is labelled SWITCH, and its non-zero words are queued |
| Analysis.SwitchTable | analyzer.h:183-200 | the switch scan of one region keeps the partition and only refines it |
| Analysis.SwitchAt | analyzer.h:203-213 | an unmapped destination is removed from the destination set and nothing else changes; one in a region other than UNKNOWN changes nothing |
| Analysis.SwitchesFrom | analyzer.h:202-214 | the switch scan over one object's fixups keeps the partition and only refines it |
| Analysis.SwitchesOf | analyzer.h:216-220 | the switch scan over all objects keeps the partition and only refines it |
| Analysis.GuessAdded | analyzer.h:222-230 | the address is queued; a guess is counted iff its label was neither FUNCTION nor JUMP; regions and destinations stay |
| Analysis.GuessAddedLabels | analyzer.h:223-228 | the address's label becomes FUNC_GUESS when a guess is counted and is kept otherwise; no other label changes |
| Analysis.GuessAt | analyzer.h:235-242 | one destination changes labels and queue only, and counts at most one guess |
| Analysis.GuessAtShape | analyzer.h:235-242 | a guess is counted exactly for an UNKNOWN destination not yet FUNCTION or JUMP; only UNKNOWN destinations are queued; a DATA destination is labelled DATA; anything else changes nothing |
| Analysis.Destinations | analyzer.h:234 | there is one destination per fixup source offset |
| Analysis.GuessesFrom | analyzer.h:232-244 | the sweep changes neither the regions nor the destinations |
| Analysis.GuessCount | analyzer.h:226 | the sweep counts at most one guess per destination |
| Analysis.RemainingFrom | analyzer.h:246-252 | the residual sweep fails exactly when an object has no fixup map, and changes neither regions nor destinations |
| Analysis.RemainingStep | analyzer.h:248-250 | the sweep handles the objects in order, and the guess counts add up |
| Analysis.Run | analyzer.h:255-267 | `run` keeps the partition, only refines it, and leaves the queue empty |
| Analysis.RunClassifiesEntry | analyzer.h:256-259 | after `run`, a mapped entry point is no longer UNKNOWN |
| Analyzers.Analyzer.constructor | analyzer.h:24 | the analyzer starts from the initial regions and labels of the image, with an empty queue and the executable's fixup destinations |
| Analyzers.Analyzer.AddCodeTraceAddress | analyzer.h:26-32 | the address is appended to the queue and its label set to the role, as `Enqueue` says; regions stay |
| Analyzers.Analyzer.Disassemble | analyzer.h:156-166 | in place, as `DisassembledAt` describes |
| Analyzers.Analyzer.CarveFpuOperand | analyzer.h:110-130 | in place, as `FpuCarved` describes |
| Analyzers.Analyzer.SplitFpuOperand | analyzer.h:115-126 | in place, as `FpuSplit` describes |
| Analyzers.Analyzer.CheckInstruction | analyzer.h:93-150 | in place, as `Classified` describes |
| Analyzers.Analyzer.LabelAbortRoutine | analyzer.h:131-142 | in place, as `AbortLabelled` describes |
| Analyzers.Analyzer.LabelData16 | analyzer.h:143-150 | in place, as `DataLabelled16` describes |
| Analyzers.Analyzer.TraceInstruction | analyzer.h:88-92 | in place, as `TraceStep` describes |
| Analyzers.Analyzer.StepPast | analyzer.h:90-151 | in place, as `Stepped` describes |
| Analyzers.Analyzer.TraceRegionUntilAnyJump | analyzer.h:85-154 | the loop leaves the state and scan `TraceFrom` describes |
| Analyzers.Analyzer.TraceCodeAtAddress | analyzer.h:44-83 | in place, as `TraceAt` describes |
| Analyzers.Analyzer.CheckGuess | analyzer.h:52-64 | in place, as `GuessChecked` describes |
| Analyzers.Analyzer.TraceSpan | analyzer.h:70-82 | in place, as `SpanTraced` describes |
| Analyzers.Analyzer.SplitSpan | analyzer.h:73-82 | in place, as `SpanSplit` describes |
| Analyzers.Analyzer.TraceCode | analyzer.h:34-42 | the loop leaves the state `TraceQueue` describes |
| Analyzers.Analyzer.AddSwitchAddresses | analyzer.h:168-181 | the count is the number of table entries `SwitchEntries` finds, and exactly their non-zero words are queued as CASE |
| Analyzers.Analyzer.TraceRegionSwitches | analyzer.h:183-200 | in place, as `SwitchTable` describes |
| Analyzers.Analyzer.MarkSwitchTable | analyzer.h:194-197 | in place, as `SwitchMarked` describes, returning the number of words |
| Analyzers.Analyzer.TraceSwitches | analyzer.h:202-214 | the loop over the fixups in ascending source order leaves the state `SwitchesFrom` describes |
| Analyzers.Analyzer.TraceSwitchAt | analyzer.h:204-212 | in place, as `SwitchAt` describes |
| Analyzers.Analyzer.TraceAllSwitches | analyzer.h:216-220 | the loop over objects leaves the state `SwitchesOf` describes |
| Analyzers.Analyzer.AddAddress | analyzer.h:222-230 | in place, as `GuessAdded` describes, adding its guess to the count |
| Analyzers.Analyzer.AddAddressesFromUnknownRegions | analyzer.h:232-244 | the loop leaves the state `GuessesFrom` describes and adds `GuessCount` guesses |
| Analyzers.Analyzer.AddAddressAt | analyzer.h:235-242 | in place, as `GuessAt` describes |
| Analyzers.Analyzer.TraceRemainingRelocs | analyzer.h:246-252 | the loop succeeds iff `RemainingFrom` does, leaves its state and returns the total guess count |
| Analyzers.Analyzer.Run | analyzer.h:255-267 | in place, as `Analysis.Run` describes, so the partition is kept and only refined and the queue ends empty |
| Analyzers.SwitchTableFound | analyzer.h:185-199 | in an executable object, the table at the address is the words of the span up to the region end or next destination; with no words nothing is traced, otherwise the marked state's queue is traced |
| PrintData.Indent | print_data.h:4-14 | the indent is 1 exactly for JUMP and CASE labels and 0 for every other role |
| PrintData.LabelBreaks | print_data.h:7-12 | a FUNCTION or FUNC_GUESS label is preceded by two newlines, a SWITCH label by one, any other by none |
| PrintData.Suffix | print_data.h:17-32 | every role's suffix starts with '_' |
| PrintData.SuffixesDistinct | print_data.h:17-32 | two roles share a suffix exactly when they are equal, both FUNCTION/FUNC_GUESS ("_func"), or both fall to the default ("_unknown") |
| PrintData.TypedAddress | print_data.h:16-33 | a typed address starts with "_" |
| PrintData.TypedAddressReadsBack | print_data.h:16-33 | after the "_" come at least six hex digits that read back as the address, then exactly the role's suffix |
| PrintData.TypedAddressInjective | print_data.h:16-33 | equal typed addresses have equal addresses and equal suffixes |
| PrintData.Label | print_data.h:35-43 | a label is the line breaks and indent its role asks for, the prefix, the typed address and ':' |
| PrintData.LabelsInjective | print_data.h:35-43 | two labels of one role and prefix are equal only for equal addresses |
| PrintData.Subscript | print_data.h:148 | reading `labelTypes[value]` inserts UNKNOWN for an absent address and changes nothing otherwise |
| PrintData.ZeroRunFromMeaning | print_data.h:57-61 | the scan stops at the first non-zero byte, or at `len` |
| PrintData.ZeroRun | print_data.h:53-68 | a zero run found is at least 4 and at most `len` long |
| PrintData.ZeroRunMeaning | print_data.h:53-68 | a run is found iff the first four bytes lie within `len` and are zero; it is then the whole leading zero run |
| PrintData.DataIsZeros | print_data.h:53-68 | the loop returns the run `ZeroRun` describes |
| PrintData.StringRunFromMeaning | print_data.h:74-78 | the scan stops at the first byte outside 0x20-0x7E, tab, LF and CR, or at `len` |
| PrintData.StringRun | print_data.h:70-92 | a string found spans 4 to `len` bytes and, when zero-terminated, ends in NUL |
| PrintData.StringRunMeaning | print_data.h:70-92 | a string is found iff the first four bytes lie within `len` and are printable; it is the whole printable run, and it is zero-terminated iff a NUL follows within `len` |
| PrintData.DataIsString | print_data.h:70-92 | the loop returns the span `StringRun` describes |
| PrintData.Escape | print_data.h:98-109 | each byte becomes one or two characters |
| PrintData.EscapedAppend | print_data.h:97-110 | escaping works byte by byte: escaping a concatenation concatenates the escapes |
| PrintData.EscapedRoundTrip | print_data.h:94-111 | undoing the five escapes gives back exactly the bytes as characters |
| PrintData.PrintEscaped | print_data.h:94-111 | the loop builds `Escaped(bytes)` |
| PrintData.CloseQuote | print_data.h:113-118 | a closing quote is written exactly when a raw-byte line is open, and it emits no bytes |
| PrintData.ZeroPiece | print_data.h:152-157 | a zero run advances by its length and closes any open line |
| PrintData.StringPiece | print_data.h:158-171 | a string advances by its span and closes any open line |
| PrintData.BytePiece | print_data.h:172-188 | a raw byte advances by one and the line count wraps at 8 |
| PrintData.LocalPiece | print_data.h:152-189 | a non-fixup step advances by 1..len bytes and keeps fewer than 8 bytes on a line |
| PrintData.LocalPieceReassembles | print_data.h:152-189 | the directives of a non-fixup step assemble to exactly the bytes it consumes |
| PrintData.ZeroPieceReassembles | print_data.h:152-157 | a `.fill` assembles to the zero bytes it covers |
| PrintData.StringPieceReassembles | print_data.h:158-171 | a `.string`/`.ascii` assembles to the bytes it covers, NUL included |
| PrintData.BytePieceReassembles | print_data.h:172-188 | a raw byte assembles to itself |
| PrintData.ScanPiece | print_data.h:152-189 | the method computes `LocalPiece` from the object's bytes |
| PrintData.DataPiece | print_data.h:145-189 | a step advances by 1..len bytes; at a fixup source it closes the line, inserts the word's label if absent, and emits `.long` of the word with that label's role; otherwise labels stay |
| PrintData.DataPieceReassembles | print_data.h:145-189 | the directives of one step assemble to exactly the object bytes it consumes |
| PrintData.WordPieceReassembles | print_data.h:145-151 | a `.long` of a fixup word assembles to the word's four bytes |
| PrintData.DataPieceGrows | print_data.h:148 | a step only adds labels and never changes an existing one |
| PrintData.DataFrom | print_data.h:140-191 | the loop ends exactly `len` bytes on, with fewer than 8 bytes on the open line |
| PrintData.DataStep | print_data.h:144-190 | one turn of the loop and the rest end exactly `len` bytes on |
| PrintData.DataFromReassembles | print_data.h:140-191 | the listing of a span assembles to exactly the object's bytes over it |
| PrintData.DataFromGrows | print_data.h:140-191 | printing a span only adds labels |
| PrintData.DataFromStep | print_data.h:144-190 | the listing is the first step's directives followed by the listing of the rest |
| PrintData.PieceJoins | print_data.h:144-190 | the first step consumes between 1 and the remaining bytes; when the rest of the span assembles to its bytes, the step followed by the rest assembles to the whole span |
| PrintData.PrintPiece | print_data.h:145-189 | one step in place: the label map becomes the step's, the regions stay |
| PrintData.DataAfterFixup | print_data.h:140-191 | the loop produces the listing, end address, open-line count and label map `DataFrom` describes; regions stay |
| PrintData.SpanLength | print_data.h:120-138 | the span is positive, stops at the region end, at the next label after the address and at the next fixup source after its offset, and equals one of them |
| PrintData.DataRegionReassembles | print_data.h:193-210 | a DATA region's listing assembles to exactly the object's bytes from the address to the region's end |
| PrintData.DataRegionFrom | print_data.h:193-210 | `printDataTypeRegion` from an address on only adds labels: every address labelled before the region is printed stays labelled |
| PrintData.RegionStepReassembles | print_data.h:193-210 | one stretch of a DATA region: the label lines before it emit no bytes, and the stretch followed by the rest of the region assembles to the region's bytes |
| PrintData.DataRegionLabels | print_data.h:197-205 | every labelled address in the rest of the region gets a DATA label line |
| PrintData.DataRegion | print_data.h:193-210 | for a region inside its object's buffer, the loop produces the listing and label map `DataRegionFrom` describes; a region reaching past the buffer is an `Internal` error that leaves the labels alone; regions stay |
| PrintData.PrintDirective | print_data.h:148-183 | the method writes the characters `Render` gives a directive |
| Printer.LiteralNamesAddress | print.h:43-48 | a literal not preceded by '-' whose address has a label becomes "_", at least six hex digits reading back as the address and the label's suffix; any other becomes "0x" and at least six hex digits that read back as the address |
| Printer.RewriteAt | print.h:35-54 | the literal's hex digits end within the text, at least two characters on |
| Printer.Prefixed | print.h:30 | copied text is kept in front of the rest of the output |
| Printer.StepFails | print.h:50-51 | an unlabelled literal that is a fixup destination outside every object makes the whole rewrite fail with that error |
| Printer.StepLast | print.h:56-66 | after the last literal, the rest of the text is copied and the warning comment appended if any literal was flagged |
| Printer.StepNext | print.h:56-58 | after a literal, the rewrite continues at the next "0x" from the literal's end, carrying the warning flag |
| Printer.Replaced | print.h:8-67 | text without "0x" is returned unchanged |
| Printer.ReplaceFrom | print.h:28-66 | the scan from a "0x" fails when that "0x" starts the text (the `substr` before it throws), and otherwise writes the text between `start` and the "0x" first |
| Printer.ReplaceStep | print.h:28-58 | rewriting one literal: a literal whose rewrite fails fails the text, and the output starts with the text copied before it |
| Printer.ReplaceFromAsWritten | print.h:28-66 | the scan as written (text ending in "0x" copied twice) fails on exactly the same texts as the corrected scan |
| Printer.ReplacedAsWritten | print.h:8-67 | `replace_addresses_with_labels` as written: text without "0x" comes back unchanged, and it fails on exactly the texts the corrected rewrite fails on |
| Printer.TrailingPrefixDoubled | print.h:30-33 | for text whose only "0x" ends it, the loop as written returns the head twice followed by the text, and the corrected rewrite returns the text unchanged |
| Printer.TrailingPrefixExample | print.h:30-33 | "ab0x" comes out as "abab0x" as written and as "ab0x" corrected |
| Printer.CommentedEnds | print.h:63-65 | a warned rewrite ends with the warning comment |
| Printer.WarningKept | print.h:52-65 | once a literal is flagged, a successful rewrite ends with the warning comment |
| Printer.FirstLiteral | print.h:22-54 | the first literal's failure fails the rewrite; a successful rewrite starts with the text before the first literal followed by its replacement, and ends with the warning when that literal is flagged |
| Printer.HeadKept | print.h:30-65 | from any literal on, a successful rewrite starts with the copied text and the literal's replacement, and ends with the warning when flagged |
| Printer.LiteralSpan | print.h:29-54 | the literal is the maximal hex run after "0x", read modulo 2^32; '-' before it is noted; the step fails exactly when the literal is flagged and lies in no object; otherwise it records address, minus, end and flag |
| Printer.LiteralAt | print.h:29-54 | the loop that reads one literal computes `RewriteAt` |
| Printer.RewriteAtIs | print.h:35-54 | a literal that does not fail rewrites to its address, minus sign, end and flag |
| Printer.ReplaceAddresses | print.h:8-67 | the loop builds the corrected rewrite `Replaced` |
| Printer.Corrected | print.h:81-90 | the four misdecoded strings are rewritten, every other string is kept, and no result is one of the four |
| Printer.CorrectedIdempotent | print.h:81-90 | correcting twice is correcting once, and the mnemonic is kept |
| Printer.InstructionLineShape | print.h:75-97 | the line starts with two tabs; text containing "(287 only)" is printed whole inside an "-- ignored" comment; otherwise the corrected text follows; the line ends in a space exactly for "data16"/"data32" and in a newline otherwise |
| Printer.PrintInstruction | print.h:69-98 | the instruction prints iff its rewrite succeeds, as the line for the rewritten text |
| Printer.InstructionLine | print.h:75-97 | every instruction line starts with two tabs and ends with a newline or, after a prefix, a space |
| Printer.EntryLine | print.h:139-148 | a zero word prints `.long 0` and changes no label; a non-zero word above the address is labelled CASE, one at or below reads its label (UNKNOWN if absent), and the entry names the word with that label's role |
| Printer.SwitchRegionLabels | print.h:126-152 | every non-zero entry above its own address ends labelled CASE, and every existing label stays or becomes CASE |
| Printer.SwitchFrom | print.h:133-150 | the table walk keeps every existing label, and fails when an entry it reads lies outside the object |
| Printer.SwitchStep | print.h:133-150 | one entry of the walk keeps every existing label |
| Printer.SwitchRegionSpec | print.h:126-152 | `printSwitchTypeRegion` labels the table's own address, keeps every existing label, and lists the table's label line first and the empty line last |
| Printer.SwitchUnfold | print.h:133-150 | one entry: its label line when a label sits there, then its entry line, then the rest from the next address |
| Printer.SwitchLabelsCases | print.h:139-144 | every stride whose word is non-zero and above the stride's address ends labelled CASE |
| Printer.SwitchKeepsLabels | print.h:143-145 | an existing label stays or becomes CASE, and a CASE label stays CASE |
| Printer.SwitchAddsOnly | print.h:143-145 | a new label is CASE or UNKNOWN |
| Printer.SwitchInBounds | print.h:133-150 | a table that lies inside its object with a whole number of entries always prints |
| Printer.SwitchRegion | print.h:126-152 | the loop produces the lines and labels `SwitchRegionSpec` describes; regions stay |
| Printer.ChangedSection | print.h:185-196 | the new section is DATA for a DATA region and `.text` (CODE) for any other; a directive is printed exactly when the section changes, and it names the new section |
| Printer.SectionTrace | print.h:185-196 | one directive (possibly empty) per region |
| Printer.SectionsFollowKinds | print.h:185-196 | over a sequence of regions, ".data" is printed exactly where a DATA region follows a non-DATA one and ".text" exactly where a non-DATA region follows a DATA one |
| Printer.ByteHex | print.h:178-179 | a byte prints as two hex digits that read back as the byte |
| Printer.TwoDigits | print.h:178-179 | two hex digits read as a byte |
| Printer.DumpRoundTrip | print.h:170-180 | the hex dump reads back as the bytes it dumps |
| Printer.Shown | print.h:169-174 | the dump shows the first min(size, 16) bytes of the region |
| Printer.SkippedShowsBytes | print.h:164-181 | after the header, the comment reads back as the shown bytes, followed by " * ..." exactly when the region is larger than 16 bytes, then the close |
| Printer.DumpInComment | print.h:164-181 | a dump between a header and the comment close reads back as its bytes |
| Printer.SkippedDump | print.h:164-181 | the loop builds the skipped-region comment, and fails when the region's bytes lie outside its object |
| Printer.PrintRegion | print.h:154-183 | CODE, DATA and SWITCH regions go to their printers (DATA and SWITCH as their specifications describe, failing where they read past the object); any other type leaves labels alone and gives the skipped dump or its failure; regions stay |
| SymbolMaps.FileName | symbol_map.h:38-45 | the file name is a suffix of the path with no '/' or '\\' in it, and when it is shorter than the path a separator precedes it |
| SymbolMaps.FileNameOfBareName | symbol_map.h:39-44 | a path with neither separator is returned unchanged |
| SymbolMaps.FileNameDropsDirectory | symbol_map.h:39-42 | everything up to and including the last separator is removed |
| SymbolMaps.RunEnd | symbol_map.h:58 | a run of whitespace (or non-whitespace) is maximal |
| SymbolMaps.ParseLine | symbol_map.h:58-66 | an accepted line has a non-empty name and hex address and size fields |
| SymbolMaps.ParseLineSound | symbol_map.h:58-67 | an accepted line matches the pattern: four whitespace-separated fields, the last two hex, then whitespace; and the fields returned are the matched groups |
| SymbolMaps.ParseLineComplete | symbol_map.h:58-67 | every line matching the pattern is accepted with exactly the matched groups |
| SymbolMaps.HexField | symbol_map.h:68-69 | `stol` succeeds iff the hex value fits a signed 64-bit long, failing with out-of-range otherwise; the stored value is the value truncated to 32 bits, with the same value modulo 4 |
| SymbolMaps.Role | symbol_map.h:71-77 | the role is SWITCH iff the name contains "lut_" and the size is a multiple of 4; the line is ignored iff no rule applies; otherwise FUNCTION or DATA |
| SymbolMaps.RolePriority | symbol_map.h:71-77 | "sub_" gives FUNCTION unless the SWITCH rule applies; DATA needs "data_" and no "sub_" |
| SymbolMaps.LineEntry | symbol_map.h:65-77 | an unmatched line is ignored; a line fails only through `stol`; a stored entry has the line's name, 32-bit address and size, and the role `Role` gives |
| SymbolMaps.Collect | symbol_map.h:64-80 | every entry of the folded map sits under its own address |
| SymbolMaps.CollectFails | symbol_map.h:64-80 | folding fails iff some line fails |
| SymbolMaps.CollectHas | symbol_map.h:72-76 | an address is in the folded map iff some line stores it |
| SymbolMaps.CollectKeepsLast | symbol_map.h:72-76 | a stored address holds the entry of the last line that stores it |
| SymbolMaps.Read | symbol_map.h:64-80 | every stored entry sits under its own address, which is below 2^32 |
| SymbolMaps.ReadFails | symbol_map.h:64-80 | reading fails iff some line's number conversion fails |
| SymbolMaps.LastLineWins | symbol_map.h:72-76 | an address is in the map iff some line stores it, and its entry is that of the last such line |
| SymbolMaps.SymbolMap.Empty | symbol_map.h:35-36 | a new map has no symbols and an empty file name |
| SymbolMaps.SymbolMap.FindSymbolName | symbol_map.h:85-87 | the stored name, or "" for an absent address |
| SymbolMaps.Load | symbol_map.h:47-83 | a file that cannot be opened leaves the map and file name empty; otherwise loading succeeds iff reading the lines does, and the map is the read map and the file name the path's file name |
| SymbolMaps.FoundName | symbol_map.h:72-87 | a lookup gives "" iff no line stores the address, and otherwise the name of the last line that does |
| Common.Wrap32 | le/fixup.h:72-73 | 32-bit unsigned arithmetic: the result is below 2^32, equals an in-range value, and is congruent to the exact value modulo 2^32 |
| Text.FindFrom | print.h:57 | `find("0x", start)` gives the first occurrence at or after the start, or none when there is no later occurrence |
| Text.Hex | type.h:8 | hex without a base marker is non-empty lowercase hex digits |
| Text.ParseHexRoundTrip | type.h:8 | printed hex reads back as the value |
| Text.PadHex | type.h:8 | zero-padded hex has the requested width, or the full digits when longer |
| Text.PadHexRoundTrip | type.h:8 | zero padding does not change the value read back |
| Text.HexRun | print.h:38-39 | the literal's digits are the maximal run of hex digits from the position |
| Text.HexRunExact | print.h:38-39 | any maximal run of hex digits is the one `HexRun` finds |
| Text.StrToHex32 | print.h:41-42 | the literal stored into a 32-bit address is below 2^32 |
| Text.PrintedHexReadsBack | print.h:41-42 | an address printed as "0x" and hex digits reads back through `strtol` as itself |
| OrderedKeys.Below | regions.h:24-38 | the predecessor key is the greatest key below the address, and absent exactly when no key is below it |
| OrderedKeys.Above | regions.h:72-75 | `upper_bound` gives the least key above the address, and none exactly when no key is above it |
| OrderedKeys.Ascending | analyzer.h:203 | a map's keys in iteration order: each key once, strictly ascending |
| Records.FieldsAt | le/header.h:92-133 | one value per field |
| Records.FieldsFit | le/header.h:92-133 | each value read fits its field's width |
| Records.FieldsRoundTrip | le/header.h:92-133 | fields encoded in order and read back at the same position give the values back |
| Records.FieldAt | le/header.h:92-133 | field i is the little-endian value of its own bytes, after the widths of the fields before it |
| Records.ReadFields | le/header.h:92-133 | the fields are read in order and the cursor advances by their total width; a short input fails with EOF |

## Left out

- `printCodeTypeRegion` and `print_code` (print.h:100-123 and print.h:198 on) are not part of this model. They need the decoder's output on whole regions, and they only sequence output. `print_region` gives a CODE region a `CodeListing` placeholder.
- The decoder itself, and the `Insn` text plumbing (`callbackResetTypeAndText`, `lowerCasedSpaceTrimmed`), are not part of this model. They call into libopcodes and format text into a fixed buffer. Decoded text is taken as already normalised.
- `main.cpp`, `error.h` and `flags_restorer.h` are not part of this model. They are the command line, file opening, exception reporting and stream-state plumbing. Errors are `Result` values, and restoring the stream flags has nothing to model once output is a value.
- `std::cerr` diagnostics are not modelled. They have no effect on state.
- Stream seeking and `std::istream` state are modelled as a byte sequence and an explicit cursor.
- The `std::regex` engine in symbol_map.h is stated as the predicate `SymbolMaps.Matches` over the match's group boundaries. `ParseLine` is proved sound and complete against it.
- Reading the symbol-map file is not modelled. The file's lines are an input, and a file that cannot be opened is `None`.
- Object bitness: le/image.h:58 passes four arguments to an `init` that takes five. The model takes the bitness flag from bit 0x2000 of the object flags (the LX "big/default" bit).
- Analysis.TraceQueue: `trace_code` loops until the queue is empty. The model bounds the number of traced addresses by a `fuel` parameter and fails with an `Internal` error when the fuel runs out. Termination of the worklist is not proved.
- Analysis.Run: inherits the `fuel` bound of `TraceQueue` in both of its trace phases.
- Analyzers.Analyzer.TraceCode: carries the same `fuel` bound as `Analysis.TraceQueue`.
- Images.ApplyFixups / Images.FixupsFrom: the loop uses the corrected bounds check `Images.Outside` of the le/image.h:37 finding below. A fixup offset whose `uint32_t` sum with 4 wraps around is rejected with "Fixup points outside object boundaries", where the program as written lets it through and writes outside the buffer. `Images.OutsideAsWritten` states the check as written.
- TraceRules.AbortSignatureAt: `strncmp` in analyzer.h:135-136 compares up to 20 bytes from the data address. When fewer than 20 bytes of the object remain and they all match, the program reads past the object's buffer. The model answers "no signature" there instead of an `Internal` error.
- `printChangedSectionType` updates `section` through a reference. It is modelled as the function `Printer.ChangedSection`, which returns the text and the new section.

## Findings

| source | as written | input that shows it | evidently intended | confidence | as-written member | corrected member |
|---|---|---|---|---|---|---|
| le/image.h:37 | `itr->first + 4 >= data.size()` adds in `uint32_t` | a fixup offset of 0xfffffffe (a source offset of -2 on an object's first page) in an 8-byte object: the sum wraps to 2, the check passes, and the write lands far outside the buffer | reject every fixup whose 4 bytes do not fit in the buffer | not executed | Images.OutsideAsWritten | Images.Outside |
| print.h:30-33 | when the only "0x" is the last two characters, the text before it is written at line 30 and written again at line 61 after the loop breaks | "ab0x" is rewritten to "abab0x" | copy the text once: "ab0x" stays "ab0x" | not executed | Printer.ReplacedAsWritten | Printer.Replaced |
| region.h:53 | the default branch writes `type` with the same `operator<<`, which recurses on the same value forever | any `Type` past SWITCH, e.g. JUMP | print the number: "(unknown 4)" | not executed | RegionValues.TypeNameAsWritten | RegionValues.TypeName |
