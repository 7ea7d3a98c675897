/** The loaded image (`le/image.h`): one zero-filled buffer per object,
    filled from the object's pages and patched with its fixups, and the
    lookup of the object that holds an address. */
module Images {
  import opened Common
  import opened LittleEndian
  import opened OrderedKeys
  import opened ObjectHeaders
  import opened ObjectPageHeaders
  import opened Headers
  import opened LinExes
  import opened Types
  import opened ImageObjects

  /** LX object flag "big/default": the object's code is 32-bit. */
  const BigDefault: nat := 0x2000

  /** `objectAt` from object `n` on: the first object whose buffer covers
      `address`. */
  function FirstHolding(objects: seq<ImageObject>, address: nat, n: nat): (r: Result<nat>)
    requires n <= |objects|
    ensures r.Ok? ==> n <= r.value < |objects| && objects[r.value].Holds(address)
    ensures r.Ok? ==> forall j :: n <= j < r.value ==> !objects[j].Holds(address)
    ensures r.Err? ==> r.error == AddressOutOfImage
    ensures r.Err? <==> forall j :: n <= j < |objects| ==> !objects[j].Holds(address)
    decreases |objects| - n
  {
    if n == |objects| then Err(AddressOutOfImage)
    else if objects[n].Holds(address) then Ok(n)
    else FirstHolding(objects, address, n + 1)
  }

  /** `objectAt(address)`: the first object holding the address, or the
      "address out of image range" error. */
  function ObjectAt(objects: seq<ImageObject>, address: nat): (r: Result<ImageObject>)
    ensures r.Ok? ==> r.value in objects && r.value.Holds(address)
    ensures r.Err? <==> forall j :: 0 <= j < |objects| ==> !objects[j].Holds(address)
  {
    var n :- FirstHolding(objects, address, 0);
    Ok(objects[n])
  }

  /** A buffer of `n` zero bytes. */
  function Zeroed(n: nat): (r: seq<byte>)
    ensures |r| == n && forall i :: 0 <= i < n ==> r[i] == 0
  {
    if n == 0 then [] else Zeroed(n - 1) + [0]
  }

  /** `acc` with `bs` written over it from index `off`. */
  function Splice(acc: seq<byte>, off: nat, bs: seq<byte>): (r: seq<byte>)
    requires off + |bs| <= |acc|
    ensures |r| == |acc|
    ensures forall j :: 0 <= j < |r| ==> r[j] == if off <= j < off + |bs| then bs[j - off] else acc[j]
  {
    acc[..off] + bs + acc[off + |bs|..]
  }

  function Min(a: nat, b: nat): nat
  {
    if a < b then a else b
  }

  /** One past the last page of an object: first_page_index + page_count
      (a `uint32_t` sum), but no further than the module's page count. */
  function PageEnd(h: Header, o: ObjectHeader): nat
  {
    Min(Wrap32(o.firstPageIndex + o.pageCount), h.pageCount)
  }

  /** Bytes page `index` contributes to a buffer of `length` bytes already
      filled up to `off`: a full page, or the last page's size for the
      module's final page, but never past the buffer's end. */
  function PageBytes(h: Header, length: nat, off: nat, index: nat): (n: nat)
    requires off <= length
    ensures off + n <= length
    ensures n <= if index + 1 < h.pageCount then h.pageSize else h.lastPageSize
  {
    Min(length - off, if index + 1 < h.pageCount then h.pageSize else h.lastPageSize)
  }

  /** `loadObjectData` from page `index` on, the buffer `acc` filled up to
      `off`: each page is read from its file offset into the buffer. */
  function PagesLoaded(s: seq<byte>, le: LinearExecutable, index: nat, end: nat, off: nat, acc: seq<byte>): (r: Result<seq<byte>>)
    requires off <= |acc|
    ensures r.Ok? ==> |r.value| == |acc|
    ensures r.Err? ==> r.error == Eof
    decreases end - index
  {
    if index >= end then Ok(acc)
    else
      var size := PageBytes(le.header, |acc|, off, index);
      var at := OffsetOfPageInFile(le, index);
      if size > 0 && at + size > |s| then Err(Eof)
      else
        var next := if size == 0 then acc else Splice(acc, off, s[at..at + size]);
        PagesLoaded(s, le, index + 1, end, off + size, next)
  }

  /** One page of `loadObjectData`: the page at `at` in the file
      contributes `size` bytes, or the read fails. */
  lemma PagesStep(s: seq<byte>, le: LinearExecutable, index: nat, end: nat, off: nat, acc: seq<byte>, size: nat, at: nat)
    requires index < end && off <= |acc|
    requires size == PageBytes(le.header, |acc|, off, index) && at == OffsetOfPageInFile(le, index)
    ensures size > 0 && at + size > |s| ==> PagesLoaded(s, le, index, end, off, acc) == Err(Eof)
    ensures size == 0 ==> PagesLoaded(s, le, index, end, off, acc) == PagesLoaded(s, le, index + 1, end, off, acc)
    ensures 0 < size && at + size <= |s| ==>
      PagesLoaded(s, le, index, end, off, acc) == PagesLoaded(s, le, index + 1, end, off + size, Splice(acc, off, s[at..at + size]))
  {
  }

  /** A page that contributes no bytes leaves the buffer as it is. */
  lemma PagesSkip(s: seq<byte>, le: LinearExecutable, index: nat, end: nat, off: nat, acc: seq<byte>)
    requires index < end && off <= |acc| && PageBytes(le.header, |acc|, off, index) == 0
    ensures PagesLoaded(s, le, index, end, off, acc) == PagesLoaded(s, le, index + 1, end, off, acc)
  {
  }

  /** A page read in full is spliced in at `off`. */
  lemma PagesRead(s: seq<byte>, le: LinearExecutable, index: nat, end: nat, off: nat, acc: seq<byte>, size: nat, at: nat)
    requires index < end && off <= |acc|
    requires size == PageBytes(le.header, |acc|, off, index) && at == OffsetOfPageInFile(le, index)
    requires 0 < size && at + size <= |s|
    ensures PagesLoaded(s, le, index, end, off, acc) == PagesLoaded(s, le, index + 1, end, off + size, Splice(acc, off, s[at..at + size]))
  {
  }

  /** How far the pages from `index` on fill a buffer of `length` bytes
      filled up to `off`. */
  function LoadedLength(h: Header, length: nat, index: nat, end: nat, off: nat): (n: nat)
    requires off <= length
    ensures off <= n <= length
    decreases end - index
  {
    if index >= end then off
    else LoadedLength(h, length, index + 1, end, off + PageBytes(h, length, off, index))
  }

  /** Bytes from `lo` on that a step keeps and the rest of the load keeps
      from `filled` on are kept from `filled` on. */
  lemma KeptPast(acc: seq<byte>, next: seq<byte>, r: seq<byte>, lo: nat, filled: nat)
    requires |r| == |next| == |acc| && lo <= filled
    requires forall j :: lo <= j < |next| ==> next[j] == acc[j]
    requires forall j :: filled <= j < |next| ==> r[j] == next[j]
    ensures forall j :: filled <= j < |acc| ==> r[j] == acc[j]
  {
  }

  /** The bytes past what the pages fill keep their value: a buffer starts
      zeroed, so an object's tail beyond its pages stays zero. */
  lemma {:induction false} TailUntouched(s: seq<byte>, le: LinearExecutable, index: nat, end: nat, off: nat, acc: seq<byte>, r: seq<byte>)
    requires off <= |acc|
    requires PagesLoaded(s, le, index, end, off, acc) == Ok(r)
    ensures forall j :: LoadedLength(le.header, |acc|, index, end, off) <= j < |acc| ==> r[j] == acc[j]
    decreases end - index
  {
    if index < end {
      var size := PageBytes(le.header, |acc|, off, index);
      var filled := LoadedLength(le.header, |acc|, index, end, off);
      if size == 0 {
        PagesSkip(s, le, index, end, off, acc);
        TailUntouched(s, le, index + 1, end, off, acc, r);
      } else {
        var at := OffsetOfPageInFile(le, index);
        PagesStep(s, le, index, end, off, acc, size, at);
        PagesRead(s, le, index, end, off, acc, size, at);
        var next := Splice(acc, off, s[at..at + size]);
        TailUntouched(s, le, index + 1, end, off + size, next, r);
        assert filled == LoadedLength(le.header, |next|, index + 1, end, off + size);
        KeptPast(acc, next, r, off + size, filled);
      }
    }
  }

  /** The bytes before the first page's offset keep their value. */
  lemma {:induction false} HeadUntouched(s: seq<byte>, le: LinearExecutable, index: nat, end: nat, off: nat, acc: seq<byte>, r: seq<byte>)
    requires off <= |acc|
    requires PagesLoaded(s, le, index, end, off, acc) == Ok(r)
    ensures forall j :: 0 <= j < off ==> r[j] == acc[j]
    decreases end - index
  {
    if index < end {
      var size := PageBytes(le.header, |acc|, off, index);
      if size == 0 {
        PagesSkip(s, le, index, end, off, acc);
        HeadUntouched(s, le, index + 1, end, off, acc, r);
      } else {
        var at := OffsetOfPageInFile(le, index);
        PagesStep(s, le, index, end, off, acc, size, at);
        if at + size <= |s| {
          var next := Splice(acc, off, s[at..at + size]);
          HeadUntouched(s, le, index + 1, end, off + size, next, r);
          assert forall j :: 0 <= j < off ==> next[j] == acc[j];
        }
      }
    }
  }

  /** Copies `bs` into `data` from index `off`; nothing else changes. */
  method CopyInto(data: array<byte>, off: nat, bs: seq<byte>)
    requires off + |bs| <= data.Length
    modifies data
    ensures data[..] == Splice(old(data[..]), off, bs)
  {
    ghost var before := data[..];
    var i := 0;
    while i < |bs|
      invariant i <= |bs|
      invariant forall j :: 0 <= j < data.Length ==> data[j] == if off <= j < off + i then bs[j - off] else before[j]
    {
      data[off + i] := bs[i];
      i := i + 1;
    }
    assert data[..] == Splice(before, off, bs);
  }

  /** `loadObjectData`: the pages of object header `o` read into `data` in
      place; a short read fails with EOF. */
  method LoadObjectData(s: seq<byte>, le: LinearExecutable, data: array<byte>, o: ObjectHeader) returns (r: Outcome)
    modifies data
    ensures var spec := PagesLoaded(s, le, o.firstPageIndex, PageEnd(le.header, o), 0, old(data[..]));
      (r.Fail? <==> spec.Err?) && (r.Fail? ==> r.error == spec.error) && (r.Pass? ==> data[..] == spec.value)
  {
    ghost var initial := data[..];
    var end := PageEnd(le.header, o);
    var off: nat := 0;
    var index: nat := o.firstPageIndex;
    while index < end
      invariant off <= data.Length
      invariant PagesLoaded(s, le, index, end, off, data[..]) == PagesLoaded(s, le, o.firstPageIndex, end, 0, initial)
      decreases end as int - index as int
    {
      var size := PageBytes(le.header, data.Length, off, index);
      var at := OffsetOfPageInFile(le, index);
      ghost var before := data[..];
      if size > 0 && at + size > |s| {
        PagesStep(s, le, index, end, off, before, size, at);
        return Fail(Eof);
      }
      if size > 0 {
        PagesRead(s, le, index, end, off, before, size, at);
        CopyInto(data, off, s[at..at + size]);
      } else {
        PagesSkip(s, le, index, end, off, before);
      }
      off := off + size;
      index := index + 1;
    }
    r := Pass;
  }

  /** Bytes `write_le` stores for a fixup destination: a `uint16_t` below
      256, else a `uint32_t`. */
  function FixupWidth(value: nat): (w: nat)
    ensures w == 2 || w == 4
  {
    if value < 256 then 2 else 4
  }

  /** The bounds check of `applyFixups` as written: offset + 4 is a
      `uint32_t` sum compared with the buffer length. */
  predicate OutsideAsWritten(offset: nat, length: nat): (r: bool)
    ensures offset + 4 < U32 ==> (r <==> Outside(offset, length))
    ensures U32 <= offset + 4 < 2 * U32 ==> (r <==> offset + 4 - U32 >= length)
  {
    Wrap32(offset + 4) >= length
  }

  /** The bounds check as intended: the four bytes after the offset do not
      all lie inside the buffer (the `>=` rejects a fixup in the last four
      bytes too, as the source does). */
  predicate Outside(offset: nat, length: nat): (r: bool)
    ensures !r ==> offset + 4 <= length
  {
    offset + 4 >= length
  }

  /** The check as written lets an offset near 2^32 through: 0xfffffffe + 4
      wraps to 2, below an 8-byte buffer, and the write lands far past it. */
  lemma GuardWrapsAround()
    ensures !OutsideAsWritten(0xffff_fffe, 8)
    ensures 0xffff_fffe + 2 > 8
  {
  }

  /** The intended check admits only writes that lie inside the buffer, and
      agrees with the written one for every offset that does not wrap. */
  lemma GuardIntended(offset: nat, length: nat, value: nat)
    ensures !Outside(offset, length) ==> offset + FixupWidth(value) <= length
    ensures offset + 4 < U32 ==> (Outside(offset, length) <==> OutsideAsWritten(offset, length))
  {
  }

  /** `applyFixups` from the `i`-th smallest offset on: each destination is
      written little-endian at its offset, in ascending offset order. */
  function FixupsFrom(fixups: map<nat, nat>, ks: seq<nat>, i: nat, data: seq<byte>): (r: Result<seq<byte>>)
    requires i <= |ks| && forall j :: 0 <= j < |ks| ==> ks[j] in fixups
    ensures r.Ok? ==> |r.value| == |data|
    ensures r.Err? ==> r.error == FixupOutsideObject
    ensures r.Ok? ==> forall j :: i <= j < |ks| ==> !Outside(ks[j], |data|)
    decreases |ks| - i
  {
    if i == |ks| then Ok(data)
    else if Outside(ks[i], |data|) then Err(FixupOutsideObject)
    else
      var value := fixups[ks[i]];
      FixupsFrom(fixups, ks, i + 1, Splice(data, ks[i], Encode(value, FixupWidth(value))))
  }

  /** One fixup of `applyFixups`: its destination is spliced in at its
      offset, or the walk fails there. */
  lemma FixupsStep(fixups: map<nat, nat>, ks: seq<nat>, i: nat, data: seq<byte>)
    requires i < |ks| && forall j :: 0 <= j < |ks| ==> ks[j] in fixups
    ensures Outside(ks[i], |data|) ==> FixupsFrom(fixups, ks, i, data) == Err(FixupOutsideObject)
    ensures !Outside(ks[i], |data|) ==>
      FixupsFrom(fixups, ks, i, data) == FixupsFrom(fixups, ks, i + 1, Splice(data, ks[i], Encode(fixups[ks[i]], FixupWidth(fixups[ks[i]]))))
  {
  }

  /** `applyFixups`: all fixups of one object, smallest offset first. */
  function FixupsApplied(fixups: map<nat, nat>, data: seq<byte>): (r: Result<seq<byte>>)
    ensures r.Ok? ==> |r.value| == |data| && forall k :: k in fixups ==> !Outside(k, |data|)
    ensures r.Err? ==> r.error == FixupOutsideObject
    ensures fixups == map[] ==> r == Ok(data)
  {
    FixupsFrom(fixups, Ascending(fixups.Keys), 0, data)
  }

  /** The buffer range a fixup at `k` writes. */
  predicate Writes(fixups: map<nat, nat>, k: nat, j: nat)
    requires k in fixups
  {
    k <= j < k + FixupWidth(fixups[k])
  }

  /** A byte no remaining fixup writes keeps its value. */
  lemma {:induction false} FixupsKeepOthers(fixups: map<nat, nat>, ks: seq<nat>, i: nat, data: seq<byte>, j: nat)
    requires i <= |ks| && forall m :: 0 <= m < |ks| ==> ks[m] in fixups
    requires FixupsFrom(fixups, ks, i, data).Ok? && j < |data|
    requires forall m :: i <= m < |ks| ==> !Writes(fixups, ks[m], j)
    ensures FixupsFrom(fixups, ks, i, data).value[j] == data[j]
    decreases |ks| - i
  {
    if i < |ks| {
      var value := fixups[ks[i]];
      FixupsKeepOthers(fixups, ks, i + 1, Splice(data, ks[i], Encode(value, FixupWidth(value))), j);
    }
  }

  /** Bytes no fixup writes stay as loaded. */
  lemma FixupsKeepUnpatched(fixups: map<nat, nat>, data: seq<byte>, j: nat)
    requires FixupsApplied(fixups, data).Ok? && j < |data|
    requires forall k :: k in fixups ==> !Writes(fixups, k, j)
    ensures FixupsApplied(fixups, data).value[j] == data[j]
  {
    var ks := Ascending(fixups.Keys);
    FixupsKeepOthers(fixups, ks, 0, data, j);
  }

  /** A fixup whose bytes no later fixup overwrites reads back as its
      destination. */
  lemma {:induction false} FixupReadsBackFrom(fixups: map<nat, nat>, ks: seq<nat>, i: nat, n: nat, data: seq<byte>)
    requires i <= n < |ks| && forall m :: 0 <= m < |ks| ==> ks[m] in fixups
    requires FixupsFrom(fixups, ks, i, data).Ok?
    requires fixups[ks[n]] < U32
    requires forall m, j :: n < m < |ks| && Writes(fixups, ks[n], j) ==> !Writes(fixups, ks[m], j)
    ensures ks[n] + FixupWidth(fixups[ks[n]]) <= |data|
    ensures var w := FixupWidth(fixups[ks[n]]);
      Decode(FixupsFrom(fixups, ks, i, data).value[ks[n]..ks[n] + w]) == fixups[ks[n]]
    decreases |ks| - i
  {
    var value := fixups[ks[i]];
    var next := Splice(data, ks[i], Encode(value, FixupWidth(value)));
    if i < n {
      FixupReadsBackFrom(fixups, ks, i + 1, n, next);
    } else {
      var k := ks[n];
      var w := FixupWidth(value);
      var out := FixupsFrom(fixups, ks, i + 1, next).value;
      forall j | k <= j < k + w
        ensures out[j] == next[j]
      {
        assert Writes(fixups, k, j);
        FixupsKeepOthers(fixups, ks, i + 1, next, j);
      }
      assert out[k..k + w] == Encode(value, w);
      RoundTrip(value, w);
    }
  }

  /** Stores `value` at `at` as `write_le` does for a fixup. */
  method WriteFixup(data: array<byte>, at: nat, value: nat)
    requires at + FixupWidth(value) <= data.Length
    modifies data
    ensures data[..] == Splice(old(data[..]), at, Encode(value, FixupWidth(value)))
  {
    if value < 256 {
      WriteLe(data, at, 2, value);
    } else {
      WriteLe(data, at, 4, value);
    }
  }

  /** One fixup of `applyFixups`: the bounds check, then the write. */
  method ApplyFixup(fixups: map<nat, nat>, ks: seq<nat>, i: nat, data: array<byte>) returns (r: Outcome)
    requires i < |ks| && forall j :: 0 <= j < |ks| ==> ks[j] in fixups
    modifies data
    ensures var spec := FixupsFrom(fixups, ks, i, old(data[..]));
      (r.Fail? ==> r.error == FixupOutsideObject && spec == Err(FixupOutsideObject)) &&
      (r.Pass? ==> FixupsFrom(fixups, ks, i + 1, data[..]) == spec)
  {
    var k := ks[i];
    FixupsStep(fixups, ks, i, data[..]);
    if Outside(k, data.Length) {
      return Fail(FixupOutsideObject);
    }
    WriteFixup(data, k, fixups[k]);
    r := Pass;
  }

  /** `applyFixups`: walks the fixups in ascending offset order, writing
      each destination in place; an offset too close to the buffer's end
      fails. */
  method ApplyFixups(fixups: map<nat, nat>, data: array<byte>) returns (r: Outcome)
    modifies data
    ensures var spec := FixupsApplied(fixups, old(data[..]));
      (r.Fail? <==> spec.Err?) && (r.Fail? ==> r.error == spec.error) && (r.Pass? ==> data[..] == spec.value)
  {
    ghost var initial := data[..];
    var ks := Ascending(fixups.Keys);
    var i := 0;
    while i < |ks|
      invariant i <= |ks|
      invariant FixupsFrom(fixups, ks, i, data[..]) == FixupsFrom(fixups, ks, 0, initial)
    {
      var step := ApplyFixup(fixups, ks, i, data);
      if step.Fail? {
        return step;
      }
      i := i + 1;
    }
    r := Pass;
  }

  /** The buffer of object `i`: virtual_size zero bytes, filled from its
      pages, then patched with its fixups. */
  function ObjectImage(s: seq<byte>, le: LinearExecutable, i: nat): (r: Result<seq<byte>>)
    requires i < |le.objects|
    ensures r.Ok? ==> |r.value| == le.objects[i].virtualSize
  {
    var o := le.objects[i];
    var loaded :- PagesLoaded(s, le, o.firstPageIndex, PageEnd(le.header, o), 0, Zeroed(o.virtualSize));
    if i >= |le.fixups| then Err(Internal("fixup map index out of range"))
    else FixupsApplied(le.fixups[i], loaded)
  }

  /** The first `n` results, the first failure among them deciding the
      error. */
  function Collect<T>(rs: seq<Result<T>>, n: nat): (r: Result<seq<T>>)
    requires n <= |rs|
    ensures r.Ok? ==> |r.value| == n
  {
    if n == 0 then Ok([])
    else
      var prefix :- Collect(rs, n - 1);
      var x :- rs[n - 1];
      Ok(prefix + [x])
  }

  /** Every collected value is its result's value. */
  lemma {:induction false} CollectEach<T>(rs: seq<Result<T>>, n: nat)
    requires n <= |rs| && Collect(rs, n).Ok?
    ensures forall i :: 0 <= i < n ==> rs[i] == Ok(Collect(rs, n).value[i])
  {
    if n > 0 {
      var r := Collect(rs, n).value;
      var prefix := Collect(rs, n - 1).value;
      CollectEach(rs, n - 1);
      assert r == prefix + [rs[n - 1].value];
      forall i | 0 <= i < n
        ensures rs[i] == Ok(r[i])
      {
        if i < n - 1 {
          assert r[i] == prefix[i];
        }
      }
    }
  }

  /** Collection fails exactly when some result fails, and then with the
      error of the first failing one. */
  lemma {:induction false} CollectFails<T>(rs: seq<Result<T>>, n: nat, i: nat)
    requires i < n <= |rs| && rs[i].Err? && forall j :: 0 <= j < i ==> rs[j].Ok?
    ensures Collect(rs, n) == Err(rs[i].error)
    decreases n
  {
    if i < n - 1 {
      CollectFails(rs, n - 1, i);
    } else {
      CollectOk(rs, i);
    }
  }

  /** `Collect` succeeds only if every result does. */
  lemma {:induction false} CollectOk<T>(rs: seq<Result<T>>, n: nat)
    requires n <= |rs| && forall j :: 0 <= j < n ==> rs[j].Ok?
    ensures Collect(rs, n).Ok?
  {
    if n > 0 {
      CollectOk(rs, n - 1);
    }
  }

  /** A value appended for the next result keeps the values in step with
      the results. */
  lemma Extended<T>(rs: seq<Result<T>>, xs: seq<T>, x: T)
    requires |xs| < |rs| && forall i :: 0 <= i < |xs| ==> rs[i] == Ok(xs[i])
    requires rs[|xs|] == Ok(x)
    ensures forall i :: 0 <= i < |xs| + 1 ==> rs[i] == Ok((xs + [x])[i])
  {
  }

  /** The result of each object's buffer, in object order. */
  function ObjectImages(s: seq<byte>, le: LinearExecutable): (r: seq<Result<seq<byte>>>)
    ensures |r| == |le.objects| && forall i :: 0 <= i < |r| ==> r[i] == ObjectImage(s, le, i)
  {
    seq(|le.objects|, i requires 0 <= i < |le.objects| => ObjectImage(s, le, i))
  }

  /** An object as `init` receives it. */
  predicate Built(obj: ImageObject, le: LinearExecutable, i: nat, data: seq<byte>)
    requires i < |le.objects|
  {
    obj.index == i && obj.baseAddress == le.objects[i].baseAddress &&
    obj.executable == le.objects[i].IsExecutable() &&
    obj.bitness == (if (le.objects[i].flags / BigDefault) % 2 == 1 then Bits32 else Bits16) &&
    obj.data == data
  }

  /** One object of the `Image` constructor: a zeroed buffer of
      virtual_size bytes, its pages, its fixups, then `init`. */
  method LoadObject(s: seq<byte>, le: LinearExecutable, oi: nat) returns (r: Result<ImageObject>)
    requires oi < |le.objects|
    ensures var spec := ObjectImage(s, le, oi);
      (r.Err? <==> spec.Err?) && (r.Err? ==> r.error == spec.error) &&
      (r.Ok? ==> Built(r.value, le, oi, spec.value))
  {
    var o := le.objects[oi];
    var data := new byte[o.virtualSize](_ => 0);
    assert data[..] == Zeroed(o.virtualSize);
    var loaded := LoadObjectData(s, le, data, o);
    if loaded.Fail? {
      return Err(loaded.error);
    }
    if oi >= |le.fixups| {
      return Err(Internal("fixup map index out of range"));
    }
    var patched := ApplyFixups(le.fixups[oi], data);
    if patched.Fail? {
      return Err(patched.error);
    }
    var obj := new ImageObject.Init(oi, o.baseAddress, o.IsExecutable(), (o.flags / BigDefault) % 2 == 1, data[..]);
    r := Ok(obj);
  }

  /** The `Image` constructor: each object built in turn, the first
      failure ending the construction. */
  method BuildImage(s: seq<byte>, le: LinearExecutable) returns (r: Result<seq<ImageObject>>)
    ensures var spec := Collect(ObjectImages(s, le), |le.objects|);
      (r.Err? <==> spec.Err?) && (r.Err? ==> r.error == spec.error) &&
      (r.Ok? ==> |r.value| == |le.objects| &&
                 forall i :: 0 <= i < |r.value| ==> Built(r.value[i], le, i, spec.value[i]))
  {
    ghost var rs := ObjectImages(s, le);
    var objects: seq<ImageObject> := [];
    ghost var images: seq<seq<byte>> := [];
    var oi := 0;
    while oi < |le.objects|
      invariant oi <= |le.objects|
      invariant |objects| == oi == |images|
      invariant forall i :: 0 <= i < oi ==> rs[i] == Ok(images[i])
      invariant forall i :: 0 <= i < oi ==> Built(objects[i], le, i, images[i])
    {
      var obj := LoadObject(s, le, oi);
      if obj.Err? {
        CollectFails(rs, |rs|, oi);
        return Err(obj.error);
      }
      assert rs[oi] == ObjectImage(s, le, oi);
      ghost var image := rs[oi].value;
      Extended(rs, images, image);
      objects := objects + [obj.value];
      images := images + [image];
      oi := oi + 1;
    }
    CollectOk(rs, |rs|);
    CollectEach(rs, |rs|);
    assert Collect(rs, |rs|).value == images by {
      assert |Collect(rs, |rs|).value| == |images|;
      forall i | 0 <= i < |images|
        ensures Collect(rs, |rs|).value[i] == images[i]
      {
        assert rs[i] == Ok(images[i]);
      }
    }
    r := Ok(objects);
  }
}
