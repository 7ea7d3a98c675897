/** What the analyzer (`analyzer.h`) does to its state, as functions: the
    region partition, the label map, the FIFO code trace queue and the set
    of fixup destinations before and after each operation. The `Analyzer`
    class performs the same steps in place. */
module Analysis {
  import opened Common
  import opened OrderedKeys
  import opened Text
  import opened Types
  import opened ImageObjects
  import Images
  import opened LinExes
  import opened RegionValues
  import opened RegionMaps
  import opened Insns
  import opened TraceRules

  /** The analyzer's state: regions, labels, the code trace queue (front
      first) and the executable's set of fixup destinations. */
  datatype AState = AState(regions: RegionMap, labels: map<nat, Type>, queue: seq<nat>, destinations: set<nat>)

  /** `m2` arises from `m1` by classification only: the same addresses are
      covered, and an address with a class other than UNKNOWN never goes
      back to UNKNOWN. */
  ghost predicate Refines(m1: RegionMap, m2: RegionMap)
  {
    forall a: nat {:trigger RefinesAt(m1, m2, a)} :: RefinesAt(m1, m2, a)
  }

  /** `Refines` at one address. */
  predicate RefinesAt(m1: RegionMap, m2: RegionMap, a: nat)
  {
    (KindAt(m1, a).Some? <==> KindAt(m2, a).Some?) &&
    (KindAt(m1, a).Some? && KindAt(m1, a) != Some(Unknown) ==> KindAt(m2, a) != Some(Unknown))
  }

  lemma RefinesTrans(m1: RegionMap, m2: RegionMap, m3: RegionMap)
    requires Refines(m1, m2) && Refines(m2, m3)
    ensures Refines(m1, m3)
  {
    forall a: nat
      ensures RefinesAt(m1, m3, a)
    {
      assert RefinesAt(m1, m2, a) && RefinesAt(m2, m3, a);
    }
  }

  /** Inserting a classified region only classifies. */
  lemma SplitInsertRefines(m: RegionMap, p: nat, t: Region)
    requires Partition(m) && Inside(m, p, t) && t.kind != Unknown
    ensures Refines(m, SplitInserted(m, p, t))
  {
    forall a: nat
      ensures RefinesAt(m, SplitInserted(m, p, t), a)
    {
      SplitInsertKinds(m, p, t, a);
    }
  }

  /** `add_code_trace_address(addr, role)`: queue the address at the back
      and set its label to the role. */
  function Enqueue(s: AState, address: nat, role: Type): (r: AState)
    ensures r.queue == s.queue + [address] && |r.queue| == |s.queue| + 1
    ensures r.regions == s.regions && r.destinations == s.destinations
    ensures address in r.labels && r.labels[address] == role && r.labels.Keys == s.labels.Keys + {address}
    ensures forall a :: a in s.labels && a != address ==> r.labels[a] == s.labels[a]
  {
    s.(queue := s.queue + [address], labels := s.labels[address := role])
  }

  /** Queue each address in turn with the same role. */
  function EnqueueAll(s: AState, addrs: seq<nat>, role: Type): (r: AState)
    ensures r.regions == s.regions && r.destinations == s.destinations
    decreases |addrs|
  {
    if addrs == [] then s
    else EnqueueAll(Enqueue(s, addrs[0], role), addrs[1..], role)
  }

  /** Queueing several addresses appends them in order, labels each with
      the role and leaves every other label alone. */
  lemma {:induction false} EnqueueAllShape(s: AState, addrs: seq<nat>, role: Type)
    ensures EnqueueAll(s, addrs, role).queue == s.queue + addrs
    ensures forall a :: a in addrs ==> a in EnqueueAll(s, addrs, role).labels && EnqueueAll(s, addrs, role).labels[a] == role
    ensures forall a :: a !in addrs ==> (a in EnqueueAll(s, addrs, role).labels <==> a in s.labels)
    ensures forall a :: a !in addrs && a in s.labels ==> EnqueueAll(s, addrs, role).labels[a] == s.labels[a]
    decreases |addrs|
  {
    if addrs != [] {
      var rest := addrs[1..];
      EnqueueAllShape(Enqueue(s, addrs[0], role), rest, role);
      assert addrs == [addrs[0]] + rest;
      assert s.queue + addrs == (s.queue + [addrs[0]]) + rest;
    }
  }

  /** The analyzer's `disassemble`: the instruction's target is queued
      with the role `EnqueueRole` gives, if any. */
  function Disassembled(s: AState, insn: Instruction, spanType: Type): (r: AState)
    ensures r.regions == s.regions && r.destinations == s.destinations
  {
    match EnqueueRole(insn, spanType)
    case Some(role) => Enqueue(s, insn.memoryAddress, role)
    case None => s
  }

  /** The variables of the linear trace: the next address, the key of the
      traced region, the span's type so far and the nop count. */
  datatype Scan = Scan(addr: nat, traced: nat, kind: Type, nops: nat)

  /** An FPU operand: inside an UNKNOWN region a 10- or 8-byte DATA region
      is carved out (and when that was the traced region, tracing goes on
      in the region holding operand + 10); a covered operand is labelled
      DATA; an unmapped one is left alone. */
  function FpuCarved(s: AState, sc: Scan, insn: Instruction): (r: Result<(AState, Scan)>)
    requires Partition(s.regions) && insn.memoryAddress < U32
    ensures r.Ok? ==> Partition(r.value.0.regions) && Refines(s.regions, r.value.0.regions)
    ensures r.Ok? ==> r.value.0.queue == s.queue && r.value.0.destinations == s.destinations
    ensures r.Ok? ==> r.value.1.addr == sc.addr && r.value.1.kind == sc.kind && r.value.1.nops == sc.nops
    ensures r.Ok? && KindAt(s.regions, insn.memoryAddress).Some? ==>
      insn.memoryAddress in r.value.0.labels && r.value.0.labels[insn.memoryAddress] == Data &&
      KindAt(r.value.0.regions, insn.memoryAddress) != Some(Unknown)
  {
    var mem := insn.memoryAddress;
    match RegionContaining(s.regions, mem)
    case None =>
      assert Refines(s.regions, s.regions) by {
        forall a: nat ensures RefinesAt(s.regions, s.regions, a) { }
      }
      Ok((s, sc))
    case Some(rk) =>
      if s.regions[rk].kind == Unknown then FpuSplit(s, sc, insn, rk)
      else
        assert Refines(s.regions, s.regions) by {
          forall a: nat ensures RefinesAt(s.regions, s.regions, a) { }
        }
        Ok((s.(labels := s.labels[mem := Data]), sc))
  }

  /** An FPU operand inside the UNKNOWN region `rk`: a DATA region of the
      operand's width is split into it and the operand is labelled DATA. */
  function FpuSplit(s: AState, sc: Scan, insn: Instruction, rk: nat): (r: Result<(AState, Scan)>)
    requires Partition(s.regions) && Covers(s.regions, rk, insn.memoryAddress) && s.regions[rk].kind == Unknown
    ensures r.Ok? ==> Partition(r.value.0.regions) && Refines(s.regions, r.value.0.regions)
    ensures r.Ok? ==> r.value.0.queue == s.queue && r.value.0.destinations == s.destinations
    ensures r.Ok? ==> r.value.1.addr == sc.addr && r.value.1.kind == sc.kind && r.value.1.nops == sc.nops
    ensures r.Ok? ==> insn.memoryAddress in r.value.0.labels && r.value.0.labels[insn.memoryAddress] == Data
    ensures r.Ok? ==> KindAt(r.value.0.regions, insn.memoryAddress) == Some(Data)
  {
    var mem := insn.memoryAddress;
    var width :- FpuOperandSize(insn.text);
    var t := Region(mem, width, Data, None);
    if !Inside(s.regions, rk, t) then Err(Internal("splitInsert target outside its parent"))
    else
      var m := SplitInserted(s.regions, rk, t);
      SplitInsertRefines(s.regions, rk, t);
      SplitInsertKinds(s.regions, rk, t, mem);
      var sc1 :- Retraced(m, sc, rk, mem);
      Ok((s.(regions := m, labels := s.labels[mem := Data]), sc1))
  }

  /** After the split: when the split region was the traced one, tracing
      goes on in the region holding operand + 10, and fails when no region
      holds it. */
  function Retraced(m: RegionMap, sc: Scan, rk: nat, mem: nat): (r: Result<Scan>)
    ensures r.Ok? ==> r.value.addr == sc.addr && r.value.kind == sc.kind && r.value.nops == sc.nops
    ensures sc.traced != rk ==> r == Ok(sc)
    ensures sc.traced == rk ==> (r.Ok? <==> RegionContaining(m, Wrap32(mem + 10)).Some?)
    ensures r.Ok? && sc.traced == rk ==> Covers(m, r.value.traced, Wrap32(mem + 10)) || !Partition(m)
  {
    if sc.traced != rk then Ok(sc)
    else
      match RegionContaining(m, Wrap32(mem + 10))
      case None => Err(Internal("traced region lost"))
      case Some(k) => Ok(sc.(traced := k))
  }

  /** A `mov $address` at the start of the trace that loads the abort
      signature marks the start as a FUNCTION. */
  function AbortLabelled(objects: seq<ImageObject>, s: AState, start: nat, insn: Instruction): (r: Result<AState>)
    requires StartsWith(insn.text, MovImmediate)
    ensures r.Ok? ==> r.value.regions == s.regions && r.value.queue == s.queue && r.value.destinations == s.destinations
    ensures r.Ok? ==> forall a :: a != start ==> (a in r.value.labels <==> a in s.labels)
    ensures r.Ok? ==> forall a :: a != start && a in s.labels ==> r.value.labels[a] == s.labels[a]
  {
    var dataAddress := StrToHex32(insn.text[|MovImmediate|..]);
    if RegionContaining(s.regions, dataAddress).None? then Ok(s)
    else
      var obj :- Images.ObjectAt(objects, dataAddress);
      if AbortSignatureAt(obj, dataAddress) then Ok(s.(labels := s.labels[start := Function]))
      else Ok(s)
  }

  /** In 16-bit code a memory operand is relative to the object's base:
      the address it names is labelled DATA when it lies in DATA. */
  function DataLabelled16(s: AState, insnObj: ImageObject, insn: Instruction): (r: AState)
    ensures r.regions == s.regions && r.queue == s.queue && r.destinations == s.destinations
  {
    var va := Wrap32(insnObj.baseAddress + insn.memoryAddress);
    if KindAt(s.regions, va) == Some(Data) then s.(labels := s.labels[va := Data]) else s
  }

  /** The checks after one instruction of a linear trace that did not end
      it: invalid text turns the span to DATA; a nop is counted; and for a
      span not yet DATA, an FPU operand is carved, an abort-signature load
      labels the start, a 16-bit operand in DATA is labelled. */
  function Classified(objects: seq<ImageObject>, insnObj: ImageObject, s: AState, sc: Scan,
                      insn: Instruction, insnAddr: nat, start: nat): (r: Result<(AState, Scan)>)
    requires Partition(s.regions) && insn.memoryAddress < U32
    ensures r.Ok? ==> Partition(r.value.0.regions) && Refines(s.regions, r.value.0.regions)
    ensures r.Ok? ==> r.value.0.queue == s.queue && r.value.0.destinations == s.destinations
    ensures r.Ok? ==> r.value.1.addr == sc.addr
    ensures r.Ok? ==> r.value.1.kind == (if sc.kind != Data && InvalidStart(insn.text) then Data else sc.kind)
    ensures r.Ok? ==> r.value.1.nops == if sc.kind != Data && StartsWith(insn.text, "nop") then sc.nops + 1 else sc.nops
  {
    if sc.kind == Data then Ok((s, sc))
    else
      var sc1 := if InvalidStart(insn.text) then sc.(kind := Data) else sc;
      if StartsWith(insn.text, "nop") then Ok((s, sc1.(nops := sc1.nops + 1)))
      else if sc1.kind != Data && IsFpuOperand(insn.text, insn.memoryAddress) then FpuCarved(s, sc1, insn)
      else if insnAddr == start && StartsWith(insn.text, MovImmediate) then
        var s1 :- AbortLabelled(objects, s, start, insn);
        Ok((s1, sc1))
      else if insnObj.bitness == Bits16 && insn.memoryAddress > 0 then Ok((DataLabelled16(s, insnObj, insn), sc1))
      else Ok((s, sc1))
  }

  /** The analyzer's `disassemble(addr, tracedReg, inst, data, type)`:
      the instruction at the scan's address, decoded from at most the bytes
      up to the end of the traced region, and the state with its target
      queued. */
  function DisassembledAt(decode: Decoder, dataObj: ImageObject, bits: Bitness, s: AState, sc: Scan)
    : (r: Result<(AState, Instruction)>)
    requires sc.traced in s.regions && sc.addr < s.regions[sc.traced].End()
    ensures r.Ok? <==> DecodeAt(decode, dataObj, bits, sc.addr, s.regions[sc.traced].End() - sc.addr).Ok?
    ensures r.Ok? ==> r.value.1 == DecodeAt(decode, dataObj, bits, sc.addr, s.regions[sc.traced].End() - sc.addr).value
    ensures r.Ok? ==> r.value.0.regions == s.regions && r.value.0.destinations == s.destinations
    ensures r.Ok? ==> r.value.1.memoryAddress < U32
  {
    var insn :- DecodeAt(decode, dataObj, bits, sc.addr, s.regions[sc.traced].End() - sc.addr);
    Ok((Disassembled(s, insn, sc.kind), insn))
  }

  /** One instruction of `traceRegionUntilAnyJump`: decode up to the traced
      region's end, queue its target, and go on as `Stepped` says. */
  function TraceStep(decode: Decoder, objects: seq<ImageObject>, dataObj: ImageObject, insnObj: ImageObject,
                     s: AState, sc: Scan, start: nat): (r: Result<(AState, Scan, bool)>)
    requires Partition(s.regions) && sc.traced in s.regions && sc.addr < s.regions[sc.traced].End()
    ensures r.Ok? ==> Partition(r.value.0.regions) && Refines(s.regions, r.value.0.regions)
    ensures r.Ok? ==> sc.addr < r.value.1.addr <= s.regions[sc.traced].End() < U32
    ensures r.Ok? ==> r.value.1.kind == sc.kind || r.value.1.kind == Data
  {
    var p :- DisassembledAt(decode, dataObj, insnObj.bitness, s, sc);
    Stepped(objects, insnObj, p.0, sc, p.1, start)
  }

  /** After a decoded instruction whose target is queued: step past it,
      and stop after a JUMP or RET; otherwise apply the checks. */
  function Stepped(objects: seq<ImageObject>, insnObj: ImageObject, s: AState, sc: Scan, insn: Instruction, start: nat)
    : (r: Result<(AState, Scan, bool)>)
    requires Partition(s.regions) && insn.memoryAddress < U32
    ensures r.Ok? ==> Partition(r.value.0.regions) && Refines(s.regions, r.value.0.regions)
    ensures r.Ok? ==> r.value.1.addr == sc.addr + insn.size
    ensures r.Ok? ==> r.value.1.kind == sc.kind || r.value.1.kind == Data
    ensures r.Ok? ==> (r.value.2 <==> insn.kind == InsnType.Jump || insn.kind == Ret)
  {
    var sc1 := sc.(addr := sc.addr + insn.size);
    if insn.kind == InsnType.Jump || insn.kind == Ret then
      assert Refines(s.regions, s.regions) by {
        forall a: nat ensures RefinesAt(s.regions, s.regions, a) { }
      }
      Ok((s, sc1, true))
    else
      var p :- Classified(objects, insnObj, s, sc1, insn, sc.addr, start);
      Ok((p.0, p.1, false))
  }

  /** `traceRegionUntilAnyJump`: steps until a JUMP or RET, or until the
      next address is past the traced region's end. */
  function TraceFrom(decode: Decoder, objects: seq<ImageObject>, dataObj: ImageObject, insnObj: ImageObject,
                     s: AState, sc: Scan, start: nat): (r: Result<(AState, Scan)>)
    requires Partition(s.regions) && sc.addr <= U32
    ensures r.Ok? ==> Partition(r.value.0.regions) && Refines(s.regions, r.value.0.regions)
    ensures r.Ok? ==> sc.addr <= r.value.1.addr
    ensures r.Ok? ==> r.value.1.kind == sc.kind || r.value.1.kind == Data
    decreases U32 - sc.addr
  {
    if sc.traced !in s.regions then Err(Internal("traced region no longer present"))
    else if sc.addr >= s.regions[sc.traced].End() then Ok((s, sc))
    else
      var st :- TraceStep(decode, objects, dataObj, insnObj, s, sc, start);
      if st.2 then Ok((st.0, st.1))
      else
        var r := TraceFrom(decode, objects, dataObj, insnObj, st.0, st.1, start);
        if r.Err? then r
        else
          RefinesTrans(s.regions, st.0.regions, r.value.0.regions);
          r
  }

  /** The type of a traced span: DATA when every instruction was a nop. */
  function SpanType(sc: Scan, start: nat): Type
    requires start <= sc.addr
  {
    if sc.nops == sc.addr - start then Data else sc.kind
  }

  /** `trace_code_at_address` in a region already CODE or DATA: only a
      FUNC_GUESS label at the start of CODE changes, to FUNCTION or JUMP
      as the first instruction there says; nothing else changes. */
  function GuessChecked(decode: Decoder, obj: ImageObject, s: AState, rk: nat, start: nat): (r: Result<AState>)
    requires Partition(s.regions) && Covers(s.regions, rk, start)
    ensures r.Ok? ==> r.value.regions == s.regions && r.value.queue == s.queue && r.value.destinations == s.destinations
    ensures !(s.regions[rk].kind == Code && start in s.labels && s.labels[start] == FuncGuess) ==> r == Ok(s)
    ensures r.Ok? && s.regions[rk].kind == Code && start in s.labels && s.labels[start] == FuncGuess ==>
      start in r.value.labels && r.value.labels == s.labels[start := r.value.labels[start]] &&
      (r.value.labels[start] == Function || r.value.labels[start] == Type.Jump)
  {
    var reg := s.regions[rk];
    if reg.kind == Code && start in s.labels && s.labels[start] == FuncGuess then
      var insn :- DecodeAt(decode, obj, obj.bitness, start, reg.End() - start);
      Ok(s.(labels := s.labels[start := GuessResolved(insn.text)]))
    else Ok(s)
  }

  /** The split that ends `trace_code_at_address`: the span from `start`
      to where the trace stopped becomes a region of the span's type inside
      the traced region, and a label at the start of a DATA span becomes
      DATA; no label appears or disappears. */
  function SpanSplit(s: AState, sc: Scan, start: nat): (r: Result<AState>)
    requires Partition(s.regions) && start <= sc.addr && (sc.kind == Code || sc.kind == Data)
    ensures r.Ok? ==> Partition(r.value.regions) && Refines(s.regions, r.value.regions)
    ensures r.Ok? ==> KindAt(r.value.regions, start) == Some(SpanType(sc, start))
    ensures r.Ok? ==> r.value.labels.Keys == s.labels.Keys && r.value.queue == s.queue
    ensures r.Ok? && SpanType(sc, start) == Data && start in s.labels ==> r.value.labels[start] == Data
    ensures r.Err? <==> !(sc.traced in s.regions && Inside(s.regions, sc.traced, Region(start, sc.addr - start, SpanType(sc, start), None)))
  {
    var kind := SpanType(sc, start);
    var labels := if kind == Data && start in s.labels then s.labels[start := Data] else s.labels;
    var t := Region(start, sc.addr - start, kind, None);
    if !(sc.traced in s.regions && Inside(s.regions, sc.traced, t)) then Err(Internal("splitInsert target outside its parent"))
    else
      SplitInsertRefines(s.regions, sc.traced, t);
      SplitInsertKinds(s.regions, sc.traced, t, start);
      Ok(s.(regions := SplitInserted(s.regions, sc.traced, t), labels := labels))
  }

  /** `trace_code_at_address` in a region neither CODE nor DATA: the span
      from the start up to the first JUMP or RET is traced and split into
      the traced region with its type; the start ends up in CODE or DATA,
      and a label at the start of a DATA span becomes DATA. */
  function SpanTraced(decode: Decoder, objects: seq<ImageObject>, obj: ImageObject, s: AState, rk: nat, start: nat)
    : (r: Result<AState>)
    requires Partition(s.regions) && Covers(s.regions, rk, start)
    ensures r.Ok? ==> Partition(r.value.regions) && Refines(s.regions, r.value.regions)
    ensures r.Ok? ==> KindAt(r.value.regions, start) == Some(Code) || KindAt(r.value.regions, start) == Some(Data)
    ensures r.Ok? && KindAt(r.value.regions, start) == Some(Data) && start in r.value.labels ==> r.value.labels[start] == Data
  {
    var reg := s.regions[rk];
    var p :- TraceFrom(decode, objects, obj, reg.owner.value, s, Scan(start, rk, Code, 0), start);
    var r := SpanSplit(p.0, p.1, start);
    if r.Err? then r
    else
      RefinesTrans(s.regions, p.0.regions, r.value.regions);
      r
  }

  /** `trace_code_at_address(start)`: nothing at an unmapped address;
      otherwise, per the class of the region holding it, the guess check
      or the linear trace. Either way a mapped start ends up in CODE or
      DATA. */
  function TraceAt(decode: Decoder, objects: seq<ImageObject>, s: AState, start: nat): (r: Result<AState>)
    requires Partition(s.regions)
    ensures r.Ok? ==> Partition(r.value.regions) && Refines(s.regions, r.value.regions)
    ensures KindAt(s.regions, start).None? ==> r == Ok(s)
    ensures r.Ok? && KindAt(s.regions, start).Some? ==>
      KindAt(r.value.regions, start) == Some(Code) || KindAt(r.value.regions, start) == Some(Data)
  {
    match RegionContaining(s.regions, start)
    case None => Ok(s)
    case Some(rk) =>
      var obj :- Images.ObjectAt(objects, start);
      if s.regions[rk].kind == Code || s.regions[rk].kind == Data then GuessChecked(decode, obj, s, rk, start)
      else SpanTraced(decode, objects, obj, s, rk, start)
  }

  /** `trace_code`: trace the front of the queue until it is empty, at
      most `fuel` times. */
  function TraceQueue(decode: Decoder, objects: seq<ImageObject>, s: AState, fuel: nat): (r: Result<AState>)
    requires Partition(s.regions)
    ensures r.Ok? ==> Partition(r.value.regions) && Refines(s.regions, r.value.regions)
    ensures r.Ok? ==> r.value.queue == []
    decreases fuel
  {
    if s.queue == [] then Ok(s)
    else if fuel == 0 then Err(Internal("trace budget exhausted"))
    else
      var s1 :- TraceAt(decode, objects, s.(queue := s.queue[1..]), s.queue[0]);
      var r := TraceQueue(decode, objects, s1, fuel - 1);
      if r.Err? then r
      else
        RefinesTrans(s.regions, s1.regions, r.value.regions);
        r
  }

  /** `trace_code` traces the front address first; what it does after
      only classifies further. */
  lemma TraceQueueFirst(decode: Decoder, objects: seq<ImageObject>, s: AState, fuel: nat)
    requires Partition(s.regions) && s.queue != []
    ensures var r := TraceQueue(decode, objects, s, fuel);
      var first := TraceAt(decode, objects, s.(queue := s.queue[1..]), s.queue[0]);
      r.Ok? ==> first.Ok? && Refines(first.value.regions, r.value.regions)
  {
  }

  /** Bytes a switch table at `address` in region `reg` may span: to the
      region's end, and not past the next fixup destination. */
  function SwitchSpan(destinations: set<nat>, reg: Region, address: nat): (n: nat)
    requires address <= reg.End()
    ensures n <= reg.End() - address
    ensures forall d :: d in destinations && d > address ==> n <= d - address
    ensures n == reg.End() - address || exists d :: d in destinations && d > address && n == d - address
  {
    match Above(destinations, address)
    case None => reg.End() - address
    case Some(d) => if reg.End() - address < d - address then reg.End() - address else d - address
  }

  /** The words a switch table at `address` holds: `addSwitchAddresses`
      over the object's bytes from `address`, within `size` bytes. */
  function SwitchWords(fixups: map<nat, nat>, obj: ImageObject, address: nat, size: nat): (r: seq<nat>)
    requires obj.baseAddress <= address && address + size <= obj.baseAddress + |obj.data|
    ensures 4 * |r| <= size
  {
    var offset := address - obj.baseAddress;
    SwitchEntries(fixups, size, obj.data[offset..offset + size], offset, 0)
  }

  /** The bookkeeping of `traceRegionSwitches` before it traces: the
      non-zero words are queued as CASE and, when there is at least one
      word, the words become a SWITCH region labelled SWITCH. */
  function SwitchMarked(s: AState, rk: nat, address: nat, words: seq<nat>): (r: AState)
    requires Partition(s.regions) && rk in s.regions && rk <= address
    requires address + 4 * |words| <= rk + s.regions[rk].size && s.regions[rk].kind == Unknown
    ensures Partition(r.regions) && Refines(s.regions, r.regions)
    ensures r.destinations == s.destinations
  {
    var s1 := EnqueueAll(s, NonZero(words), Case);
    if |words| == 0 then s1
    else
      var t := Region(address, 4 * |words|, Switch, None);
      SplitInsertRefines(s1.regions, rk, t);
      s1.(regions := SplitInserted(s1.regions, rk, t), labels := s1.labels[address := Switch])
  }

  /** A found table: its words are SWITCH, its address is labelled SWITCH,
      its case targets are queued, and no other address changes class. */
  lemma SwitchMarkedShape(s: AState, rk: nat, address: nat, words: seq<nat>, a: nat)
    requires Partition(s.regions) && rk in s.regions && rk <= address
    requires address + 4 * |words| <= rk + s.regions[rk].size && s.regions[rk].kind == Unknown
    requires |words| > 0
    ensures var r := SwitchMarked(s, rk, address, words);
      r.queue == s.queue + NonZero(words) &&
      address in r.labels && r.labels[address] == Switch &&
      KindAt(r.regions, a) == if address <= a < address + 4 * |words| then Some(Switch) else KindAt(s.regions, a)
  {
    EnqueueAllShape(s, NonZero(words), Case);
    SplitInsertKinds(s.regions, rk, Region(address, 4 * |words|, Switch, None), a);
  }

  /** `traceRegionSwitches`: in an executable object, the table at
      `address` is marked and, when it has words, the queue is traced. */
  function SwitchTable(decode: Decoder, objects: seq<ImageObject>, fixups: map<nat, nat>,
                       s: AState, rk: nat, address: nat, fuel: nat): (r: Result<AState>)
    requires Partition(s.regions) && Covers(s.regions, rk, address) && s.regions[rk].kind == Unknown
    ensures r.Ok? ==> Partition(r.value.regions) && Refines(s.regions, r.value.regions)
  {
    var reg := s.regions[rk];
    var obj :- Images.ObjectAt(objects, reg.address);
    if !obj.executable then Ok(s)
    else
      var size := SwitchSpan(s.destinations, reg, address);
      if address + size > obj.baseAddress + |obj.data| then Err(Internal("switch table past the object"))
      else
        var words := SwitchWords(fixups, obj, address, size);
        var s1 := SwitchMarked(s, rk, address, words);
        if |words| == 0 then Ok(s1)
        else
          var r := TraceQueue(decode, objects, s1, fuel);
          if r.Err? then r
          else
            RefinesTrans(s.regions, s1.regions, r.value.regions);
            r
  }

  /** `traceSwitches(lx, fixups)` for one destination: an unmapped one is
      dropped from the set of destinations; one in UNKNOWN is scanned for a
      switch table; any other is left alone. */
  function SwitchAt(decode: Decoder, objects: seq<ImageObject>, fixups: map<nat, nat>, s: AState, dest: nat, fuel: nat)
    : (r: Result<AState>)
    requires Partition(s.regions)
    ensures r.Ok? ==> Partition(r.value.regions) && Refines(s.regions, r.value.regions)
    ensures KindAt(s.regions, dest).None? ==> r == Ok(s.(destinations := s.destinations - {dest}))
    ensures KindAt(s.regions, dest).Some? && KindAt(s.regions, dest) != Some(Unknown) ==> r == Ok(s)
  {
    match RegionContaining(s.regions, dest)
    case None =>
      assert Refines(s.regions, s.regions) by {
        forall a: nat ensures RefinesAt(s.regions, s.regions, a) { }
      }
      Ok(s.(destinations := s.destinations - {dest}))
    case Some(rk) =>
      if s.regions[rk].kind == Unknown then SwitchTable(decode, objects, fixups, s, rk, dest, fuel)
      else
        assert Refines(s.regions, s.regions) by {
          forall a: nat ensures RefinesAt(s.regions, s.regions, a) { }
        }
        Ok(s)
  }

  /** `traceSwitches(lx, fixups)` from the `i`-th source offset on, in
      ascending order of source offsets. */
  function SwitchesFrom(decode: Decoder, objects: seq<ImageObject>, fixups: map<nat, nat>, keys: seq<nat>, i: nat,
                        s: AState, fuel: nat): (r: Result<AState>)
    requires Partition(s.regions) && forall k :: k in keys ==> k in fixups
    ensures r.Ok? ==> Partition(r.value.regions) && Refines(s.regions, r.value.regions)
    decreases |keys| - i
  {
    if i >= |keys| then
      assert Refines(s.regions, s.regions) by {
        forall a: nat ensures RefinesAt(s.regions, s.regions, a) { }
      }
      Ok(s)
    else
      var s1 :- SwitchAt(decode, objects, fixups, s, fixups[keys[i]], fuel);
      var r := SwitchesFrom(decode, objects, fixups, keys, i + 1, s1, fuel);
      if r.Err? then r
      else
        RefinesTrans(s.regions, s1.regions, r.value.regions);
        r
  }

  /** One destination of `SwitchesFrom`: a failure there ends the run,
      otherwise the run goes on from the next source offset. */
  lemma SwitchesStep(decode: Decoder, objects: seq<ImageObject>, fixups: map<nat, nat>, keys: seq<nat>, i: nat,
                     s: AState, fuel: nat) returns (a: Result<AState>)
    requires Partition(s.regions) && (forall k :: k in keys ==> k in fixups) && i < |keys|
    ensures a == SwitchAt(decode, objects, fixups, s, fixups[keys[i]], fuel)
    ensures a.Err? ==> SwitchesFrom(decode, objects, fixups, keys, i, s, fuel).Err?
    ensures a.Ok? ==> Partition(a.value.regions)
    ensures a.Ok? ==>
      SwitchesFrom(decode, objects, fixups, keys, i, s, fuel) == SwitchesFrom(decode, objects, fixups, keys, i + 1, a.value, fuel)
  {
    a := SwitchAt(decode, objects, fixups, s, fixups[keys[i]], fuel);
  }

  /** `traceSwitches(lx)`: the fixups of objects `n` … `count` - 1 in turn. */
  function SwitchesOf(decode: Decoder, objects: seq<ImageObject>, fixups: seq<map<nat, nat>>, n: nat, count: nat,
                      s: AState, fuel: nat): (r: Result<AState>)
    requires Partition(s.regions)
    ensures r.Ok? ==> Partition(r.value.regions) && Refines(s.regions, r.value.regions)
    decreases count - n
  {
    if n >= count then Ok(s)
    else if n >= |fixups| then Err(Internal("no fixup table for object"))
    else
      var s1 :- SwitchesFrom(decode, objects, fixups[n], Ascending(fixups[n].Keys), 0, s, fuel);
      var r := SwitchesOf(decode, objects, fixups, n + 1, count, s1, fuel);
      if r.Err? then r
      else
        RefinesTrans(s.regions, s1.regions, r.value.regions);
        r
  }

  /** `addAddress`: the address is queued; its label becomes FUNC_GUESS,
      and is counted, unless it already is FUNCTION or JUMP. */
  function GuessAdded(s: AState, address: nat): (r: (AState, nat))
    ensures r.1 == 1 <==> !(address in s.labels && (s.labels[address] == Function || s.labels[address] == Type.Jump))
    ensures r.1 <= 1
    ensures r.0.queue == s.queue + [address] && r.0.regions == s.regions && r.0.destinations == s.destinations
  {
    var t := if address in s.labels then s.labels[address] else Unknown;
    if t != Function && t != Type.Jump then (Enqueue(s, address, FuncGuess), 1)
    else (Enqueue(s, address, t), 0)
  }

  /** `addAddress` labels the address FUNC_GUESS when it counts a guess
      and otherwise keeps its label; no other label changes. */
  lemma GuessAddedLabels(s: AState, address: nat)
    ensures var r := GuessAdded(s, address);
      address in r.0.labels && r.0.labels[address] == (if r.1 == 1 then FuncGuess else s.labels[address]) &&
      (forall a :: a != address ==> (a in r.0.labels <==> a in s.labels)) &&
      (forall a :: a != address && a in s.labels ==> r.0.labels[a] == s.labels[a])
  {
  }

  /** `addAddressesFromUnknownRegions` for one destination: one in
      UNKNOWN is guessed, one in DATA is labelled DATA, any other is
      skipped; the result carries the number of guesses made (0 or 1). */
  function GuessAt(s: AState, dest: nat): (r: (AState, nat))
    ensures r.0.regions == s.regions && r.0.destinations == s.destinations && r.1 <= 1
  {
    match KindAt(s.regions, dest)
    case Some(Unknown) => GuessAdded(s, dest)
    case Some(Data) => (s.(labels := s.labels[dest := Data]), 0)
    case _ => (s, 0)
  }

  /** What `GuessAt` does to one destination: a guess is counted exactly
      for an UNKNOWN destination not yet labelled FUNCTION or JUMP; only an
      UNKNOWN destination is queued; a DATA destination is labelled DATA;
      a destination in CODE, a SWITCH table or nowhere changes nothing. */
  lemma GuessAtShape(s: AState, dest: nat)
    ensures var r := GuessAt(s, dest);
      (r.1 == 1 <==> (KindAt(s.regions, dest) == Some(Unknown) &&
        !(dest in s.labels && (s.labels[dest] == Function || s.labels[dest] == Type.Jump)))) &&
      r.0.queue == (if KindAt(s.regions, dest) == Some(Unknown) then s.queue + [dest] else s.queue) &&
      (KindAt(s.regions, dest) == Some(Data) ==> r.0.labels == s.labels[dest := Data]) &&
      (KindAt(s.regions, dest) != Some(Unknown) && KindAt(s.regions, dest) != Some(Data) ==> r == (s, 0))
  {
  }

  /** The fixup destinations in ascending order of their source offsets:
      the order in which a walk over the fixup table meets them. */
  function Destinations(fixups: map<nat, nat>): (r: seq<nat>)
    ensures |r| == |fixups.Keys|
  {
    var keys := Ascending(fixups.Keys);
    seq(|keys|, i requires 0 <= i < |keys| => fixups[keys[i]])
  }

  /** `addAddressesFromUnknownRegions` over the destinations `dests` from
      the `i`-th on: the state it leaves. */
  function GuessesFrom(dests: seq<nat>, i: nat, s: AState): (r: AState)
    ensures r.regions == s.regions && r.destinations == s.destinations
    decreases |dests| - i
  {
    if i >= |dests| then s
    else GuessesFrom(dests, i + 1, GuessAt(s, dests[i]).0)
  }

  /** The number of guesses `addAddressesFromUnknownRegions` makes over
      the destinations `dests` from the `i`-th on: at most one each. */
  function GuessCount(dests: seq<nat>, i: nat, s: AState): (n: nat)
    ensures i <= |dests| ==> n <= |dests| - i
    decreases |dests| - i
  {
    if i >= |dests| then 0
    else
      var g := GuessAt(s, dests[i]);
      g.1 + GuessCount(dests, i + 1, g.0)
  }

  /** `trace_remaining_relocs`: the sweep over objects `n` … `count` - 1;
      it fails exactly when one of them has no fixup table. */
  function RemainingFrom(fixups: seq<map<nat, nat>>, n: nat, count: nat, s: AState): (r: Result<AState>)
    ensures r.Ok? <==> count <= n || count <= |fixups|
    ensures r.Ok? ==> r.value.regions == s.regions && r.value.destinations == s.destinations
    decreases count - n
  {
    if n >= count then Ok(s)
    else if n >= |fixups| then Err(Internal("no fixup table for object"))
    else RemainingFrom(fixups, n + 1, count, GuessesFrom(Destinations(fixups[n]), 0, s))
  }

  /** The number of guesses that sweep adds. */
  function RemainingCount(fixups: seq<map<nat, nat>>, n: nat, count: nat, s: AState): nat
    decreases count - n
  {
    if n >= count || n >= |fixups| then 0
    else
      var dests := Destinations(fixups[n]);
      GuessCount(dests, 0, s) + RemainingCount(fixups, n + 1, count, GuessesFrom(dests, 0, s))
  }

  /** One object of the sweep. */
  lemma RemainingStep(fixups: seq<map<nat, nat>>, n: nat, count: nat, s: AState)
    requires n < count && n < |fixups|
    ensures var dests := Destinations(fixups[n]);
      RemainingFrom(fixups, n, count, s) == RemainingFrom(fixups, n + 1, count, GuessesFrom(dests, 0, s)) &&
      RemainingCount(fixups, n, count, s) == GuessCount(dests, 0, s) + RemainingCount(fixups, n + 1, count, GuessesFrom(dests, 0, s))
  {
  }

  /** The state the `Analyzer` constructor builds. */
  function Initial(objects: seq<ImageObject>, lx: LinearExecutable): (r: AState)
    ensures r.queue == [] && r.destinations == lx.fixupAddresses
    ensures forall i :: 0 <= i < |objects| ==> objects[i].baseAddress in r.regions
    ensures forall k :: k in r.labels ==> r.labels[k] == Data
    ensures forall i :: 0 <= i < |objects| && !objects[i].executable ==> objects[i].baseAddress in r.labels
  {
    AState(InitialRegions(objects, |objects|), InitialLabels(objects, |objects|), [], lx.fixupAddresses)
  }

  /** `run(lx)`: trace from the entry point as a FUNCTION, trace switch
      tables, sweep the remaining fixup destinations, trace again. */
  function Run(decode: Decoder, objects: seq<ImageObject>, lx: LinearExecutable, s: AState, fuel: nat): (r: Result<AState>)
    requires Partition(s.regions)
    ensures r.Ok? ==> Partition(r.value.regions) && Refines(s.regions, r.value.regions) && r.value.queue == []
  {
    var eip :- EntryPointAddress(lx);
    var s1 :- TraceQueue(decode, objects, Enqueue(s, eip, Function), fuel);
    var s2 :- SwitchesOf(decode, objects, lx.fixups, 0, |lx.objects|, s1, fuel);
    var s3 :- RemainingFrom(lx.fixups, 0, |objects|, s2);
    var r := TraceQueue(decode, objects, s3, fuel);
    if r.Err? then r
    else
      RefinesTrans(s.regions, s1.regions, s2.regions);
      RefinesTrans(s.regions, s2.regions, r.value.regions);
      r
  }

  /** After `run`, an entry point inside the image is no longer UNKNOWN:
      it is traced first, which leaves it in CODE or DATA, and later steps
      never return an address to UNKNOWN. */
  lemma RunClassifiesEntry(decode: Decoder, objects: seq<ImageObject>, lx: LinearExecutable, s: AState, fuel: nat)
    requires Partition(s.regions) && s.queue == []
    ensures var r := Run(decode, objects, lx, s, fuel);
      r.Ok? && KindAt(s.regions, EntryPointAddress(lx).value).Some? ==>
        KindAt(r.value.regions, EntryPointAddress(lx).value) != Some(Unknown)
  {
    var r := Run(decode, objects, lx, s, fuel);
    if r.Ok? && KindAt(s.regions, EntryPointAddress(lx).value).Some? {
      var eip := EntryPointAddress(lx).value;
      var s0 := Enqueue(s, eip, Function);
      assert s0.queue == [eip] && s0.regions == s.regions;
      var s2 := TraceQueue(decode, objects, s0, fuel).value;
      var s3 := SwitchesOf(decode, objects, lx.fixups, 0, |lx.objects|, s2, fuel).value;
      TraceQueueFirst(decode, objects, s0, fuel);
      assert s0.queue[0] == eip;
      var first := TraceAt(decode, objects, s0.(queue := s0.queue[1..]), s0.queue[0]).value;
      assert KindAt(first.regions, eip) == Some(Code) || KindAt(first.regions, eip) == Some(Data);
      assert RefinesAt(first.regions, s2.regions, eip);
      RefinesTrans(s2.regions, s3.regions, r.value.regions);
      assert RefinesAt(s2.regions, r.value.regions, eip);
    }
  }
}
