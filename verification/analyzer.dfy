/** The `Analyzer` (`analyzer.h`): the region and label maps, the queue of
    addresses to trace and the set of fixup destinations, updated in
    place. Every method is proved to leave exactly the state the matching
    function of `Analysis` describes, so what is proved there about the
    functions holds of the methods. */
module Analyzers {
  import opened Common
  import opened OrderedKeys
  import opened Text
  import opened Types
  import opened ImageObjects
  import Images
  import opened LinExes
  import opened RegionValues
  import opened RegionMaps
  import opened Insns
  import opened TraceRules
  import opened Analysis

  class Analyzer {
    const regions: Regions
    var codeTraceQueue: seq<nat>
    /** The linear executable's `fixup_addresses`, which `traceSwitches`
        prunes. */
    var fixupAddresses: set<nat>
    const objects: seq<ImageObject>
    const decode: Decoder

    /** The analyzer's state as a value. */
    function State(): AState
      reads this, regions
    {
      AState(regions.regions, regions.labelTypes, codeTraceQueue, fixupAddresses)
    }

    /** `Analyzer(lx, image)`: the regions of the image's objects, an empty
        queue. */
    constructor (lx: LinearExecutable, objects: seq<ImageObject>, decode: Decoder)
      ensures State() == Initial(objects, lx)
      ensures this.objects == objects && this.decode == decode
      ensures fresh(regions)
    {
      this.regions := new Regions(objects);
      this.objects := objects;
      this.decode := decode;
      codeTraceQueue := [];
      fixupAddresses := lx.fixupAddresses;
    }

    /** `add_code_trace_address(addr, role)`. */
    method AddCodeTraceAddress(address: nat, role: Type)
      modifies this, regions
      ensures State() == Enqueue(old(State()), address, role)
      ensures codeTraceQueue == old(codeTraceQueue) + [address]
      ensures regions.regions == old(regions.regions)
    {
      codeTraceQueue := codeTraceQueue + [address];
      regions.labelTypes := regions.labelTypes[address := role];
    }

    /** The analyzer's `disassemble`: decode into `inst` up to the end of
        the traced region, then queue the target as the instruction's kind
        calls for. */
    method Disassemble(sc: Scan, dataObj: ImageObject, inst: Insn) returns (r: Result<Instruction>)
      requires sc.traced in regions.regions && sc.addr < regions.regions[sc.traced].End()
      modifies this, regions, inst
      ensures var spec := DisassembledAt(decode, dataObj, inst.owner.bitness, old(State()), sc);
        (r.Ok? <==> spec.Ok?) && (r.Ok? ==> (State(), r.value) == spec.value)
    {
      var end := regions.regions[sc.traced].End();
      var o := TraceRules.Disassemble(decode, dataObj, sc.addr, end - sc.addr, inst);
      if o.Fail? {
        return Err(o.error);
      }
      r := Ok(Instruction(inst.size, inst.text, inst.kind, inst.memoryAddress));
      if inst.memoryAddress == 0 || sc.kind == Data {
        return;
      }
      if (inst.kind == CondJump || inst.kind == InsnType.Jump) && !Contains(inst.text, "*") {
        AddCodeTraceAddress(inst.memoryAddress, Type.Jump);
      } else if inst.kind == Call {
        AddCodeTraceAddress(inst.memoryAddress, Function);
      }
    }

    /** The FPU branch of `traceRegionUntilAnyJump`. */
    method CarveFpuOperand(sc: Scan, insn: Instruction) returns (r: Result<Scan>)
      requires Partition(regions.regions) && insn.memoryAddress < U32
      modifies regions
      ensures var spec := FpuCarved(old(State()), sc, insn);
        (r.Ok? <==> spec.Ok?) && (r.Ok? ==> (State(), r.value) == spec.value)
    {
      var mem := insn.memoryAddress;
      var rk := RegionContaining(regions.regions, mem);
      if rk.None? {
        return Ok(sc);
      }
      if regions.regions[rk.value].kind == Unknown {
        r := SplitFpuOperand(sc, insn, rk.value);
      } else {
        regions.labelTypes := regions.labelTypes[mem := Data];
        r := Ok(sc);
      }
    }

    /** The FPU operand in the UNKNOWN region `rk`: split a DATA region of
        the operand's width into it, follow the traced region, label the
        operand DATA. */
    method SplitFpuOperand(sc: Scan, insn: Instruction, rk: nat) returns (r: Result<Scan>)
      requires Partition(regions.regions) && Covers(regions.regions, rk, insn.memoryAddress)
      requires regions.regions[rk].kind == Unknown
      modifies regions
      ensures var spec := FpuSplit(old(State()), sc, insn, rk);
        (r.Ok? <==> spec.Ok?) && (r.Ok? ==> (State(), r.value) == spec.value)
    {
      var mem := insn.memoryAddress;
      var width := FpuOperandSize(insn.text);
      if width.Err? {
        return Err(width.error);
      }
      var t := Region(mem, width.value, Data, None);
      if !Inside(regions.regions, rk, t) {
        return Err(Internal("splitInsert target outside its parent"));
      }
      regions.SplitInsert(rk, t);
      var sc1 := Retraced(regions.regions, sc, rk, mem);
      if sc1.Err? {
        return Err(sc1.error);
      }
      regions.labelTypes := regions.labelTypes[mem := Data];
      r := Ok(sc1.value);
    }

    /** The checks of `traceRegionUntilAnyJump` after an instruction that
        does not end the trace. */
    method CheckInstruction(insnObj: ImageObject, sc: Scan, insn: Instruction, insnAddr: nat, start: nat)
      returns (r: Result<Scan>)
      requires Partition(regions.regions) && insn.memoryAddress < U32
      modifies regions
      ensures var spec := Classified(objects, insnObj, old(State()), sc, insn, insnAddr, start);
        (r.Ok? <==> spec.Ok?) && (r.Ok? ==> (State(), r.value) == spec.value)
    {
      if sc.kind == Data {
        return Ok(sc);
      }
      var sc1 := if InvalidStart(insn.text) then sc.(kind := Data) else sc;
      if StartsWith(insn.text, "nop") {
        r := Ok(sc1.(nops := sc1.nops + 1));
      } else if sc1.kind != Data && IsFpuOperand(insn.text, insn.memoryAddress) {
        r := CarveFpuOperand(sc1, insn);
      } else if insnAddr == start && StartsWith(insn.text, MovImmediate) {
        var o := LabelAbortRoutine(start, insn);
        if o.Fail? {
          return Err(o.error);
        }
        r := Ok(sc1);
      } else if insnObj.bitness == Bits16 && insn.memoryAddress > 0 {
        LabelData16(insnObj, insn);
        r := Ok(sc1);
      } else {
        r := Ok(sc1);
      }
    }

    /** A load of an immediate at the traced start: label the start
        FUNCTION when the loaded address holds the abort signature. */
    method LabelAbortRoutine(start: nat, insn: Instruction) returns (r: Outcome)
      requires StartsWith(insn.text, MovImmediate)
      modifies regions
      ensures var spec := AbortLabelled(objects, old(State()), start, insn);
        (r.Pass? <==> spec.Ok?) && (r.Fail? ==> spec == Err(r.error)) && (r.Pass? ==> State() == spec.value)
    {
      var dataAddress := StrToHex32(insn.text[|MovImmediate|..]);
      if RegionContaining(regions.regions, dataAddress).Some? {
        var obj := Images.ObjectAt(objects, dataAddress);
        if obj.Err? {
          return Fail(obj.error);
        }
        if AbortSignatureAt(obj.value, dataAddress) {
          regions.labelTypes := regions.labelTypes[start := Function];
        }
      }
      r := Pass;
    }

    /** A 16-bit instruction with a memory address: label the address DATA
        when it lies in DATA. */
    method LabelData16(insnObj: ImageObject, insn: Instruction)
      modifies regions
      ensures State() == DataLabelled16(old(State()), insnObj, insn)
    {
      var va := Wrap32(insnObj.baseAddress + insn.memoryAddress);
      if KindAt(regions.regions, va) == Some(Data) {
        regions.labelTypes := regions.labelTypes[va := Data];
      }
    }

    /** One pass of the loop of `traceRegionUntilAnyJump`; the flag says
        the instruction was a JUMP or RET. */
    method TraceInstruction(dataObj: ImageObject, inst: Insn, sc: Scan, start: nat)
      returns (r: Result<(Scan, bool)>)
      requires Partition(regions.regions) && sc.traced in regions.regions && sc.addr < regions.regions[sc.traced].End()
      modifies this, regions, inst
      ensures var spec := TraceStep(decode, objects, dataObj, inst.owner, old(State()), sc, start);
        (r.Ok? <==> spec.Ok?) && (r.Ok? ==> (State(), r.value.0, r.value.1) == spec.value)
    {
      var insn := Disassemble(sc, dataObj, inst);
      if insn.Err? {
        return Err(insn.error);
      }
      r := StepPast(inst.owner, sc, insn.value, start);
    }

    /** The rest of a pass: step past the instruction, stop at a JUMP or
        RET, otherwise apply the checks. */
    method StepPast(insnObj: ImageObject, sc: Scan, insn: Instruction, start: nat) returns (r: Result<(Scan, bool)>)
      requires Partition(regions.regions) && insn.memoryAddress < U32
      modifies regions
      ensures var spec := Stepped(objects, insnObj, old(State()), sc, insn, start);
        (r.Ok? <==> spec.Ok?) &&
        (r.Ok? ==> (State(), r.value.0, r.value.1) == spec.value)
    {
      var sc1 := sc.(addr := sc.addr + insn.size);
      if insn.kind == InsnType.Jump || insn.kind == Ret {
        return Ok((sc1, true));
      }
      var next := CheckInstruction(insnObj, sc1, insn, sc.addr, start);
      if next.Err? {
        return Err(next.error);
      }
      r := Ok((next.value, false));
    }

    /** `traceRegionUntilAnyJump`: decode from the scan's address until a
        JUMP or RET, or the end of the traced region. */
    method TraceRegionUntilAnyJump(dataObj: ImageObject, insnObj: ImageObject, sc0: Scan, start: nat)
      returns (r: Result<Scan>)
      requires Partition(regions.regions) && sc0.addr <= U32
      modifies this, regions
      ensures var spec := TraceFrom(decode, objects, dataObj, insnObj, old(State()), sc0, start);
        (r.Ok? <==> spec.Ok?) && (r.Ok? ==> (State(), r.value) == spec.value)
    {
      ghost var spec := TraceFrom(decode, objects, dataObj, insnObj, State(), sc0, start);
      var inst := new Insn(insnObj);
      var sc := sc0;
      while sc.traced in regions.regions && sc.addr < regions.regions[sc.traced].End()
        invariant Partition(regions.regions) && sc.addr <= U32
        invariant fresh(inst) && inst.owner == insnObj
        invariant TraceFrom(decode, objects, dataObj, insnObj, State(), sc, start) == spec
        decreases U32 - sc.addr
      {
        var step := TraceInstruction(dataObj, inst, sc, start);
        if step.Err? {
          return Err(step.error);
        }
        sc := step.value.0;
        if step.value.1 {
          return Ok(sc);
        }
      }
      if sc.traced !in regions.regions {
        return Err(Internal("traced region no longer present"));
      }
      r := Ok(sc);
    }

    /** `trace_code_at_address(start)`. */
    method TraceCodeAtAddress(start: nat) returns (r: Outcome)
      requires Partition(regions.regions)
      modifies this, regions
      ensures var spec := TraceAt(decode, objects, old(State()), start);
        (r.Pass? <==> spec.Ok?) && (r.Pass? ==> State() == spec.value)
    {
      var rk := RegionContaining(regions.regions, start);
      if rk.None? {
        return Pass;
      }
      var obj := Images.ObjectAt(objects, start);
      if obj.Err? {
        return Fail(obj.error);
      }
      var reg := regions.regions[rk.value];
      if reg.kind == Code || reg.kind == Data {
        r := CheckGuess(obj.value, rk.value, start);
      } else {
        r := TraceSpan(obj.value, rk.value, start);
      }
    }

    /** The half of `trace_code_at_address` for a start already in CODE
        or DATA: a FUNC_GUESS label at the start of CODE is resolved by
        the first instruction there. */
    method CheckGuess(obj: ImageObject, rk: nat, start: nat) returns (r: Outcome)
      requires Partition(regions.regions) && Covers(regions.regions, rk, start)
      modifies regions
      ensures var spec := GuessChecked(decode, obj, old(State()), rk, start);
        (r.Pass? <==> spec.Ok?) && (r.Pass? ==> State() == spec.value)
    {
      ghost var s := State();
      var reg := regions.regions[rk];
      if reg.kind == Code && start in regions.labelTypes && regions.labelTypes[start] == FuncGuess {
        var inst := new Insn(obj);
        var o := TraceRules.Disassemble(decode, obj, start, reg.End() - start, inst);
        ghost var decoded := DecodeAt(decode, obj, obj.bitness, start, reg.End() - start);
        assert State() == s;
        if o.Fail? {
          assert GuessChecked(decode, obj, s, rk, start) == Err(decoded.error);
          return o;
        }
        assert decoded.Ok? && decoded.value.text == inst.text;
        regions.labelTypes := regions.labelTypes[start := GuessResolved(inst.text)];
        assert State() == s.(labels := s.labels[start := GuessResolved(decoded.value.text)]);
      }
      r := Pass;
    }

    /** The tracing half of `trace_code_at_address`: trace the span and
        split it into the traced region with its type. */
    method TraceSpan(obj: ImageObject, rk: nat, start: nat) returns (r: Outcome)
      requires Partition(regions.regions) && Covers(regions.regions, rk, start)
      modifies this, regions
      ensures var spec := SpanTraced(decode, objects, obj, old(State()), rk, start);
        (r.Pass? <==> spec.Ok?) && (r.Pass? ==> State() == spec.value)
    {
      var reg := regions.regions[rk];
      var sc := TraceRegionUntilAnyJump(obj, reg.owner.value, Scan(start, rk, Code, 0), start);
      if sc.Err? {
        return Fail(sc.error);
      }
      r := SplitSpan(sc.value, start);
    }

    /** The split that ends `trace_code_at_address`: a DATA span's start
        label becomes DATA and the span is split into the traced region. */
    method SplitSpan(sc: Scan, start: nat) returns (r: Outcome)
      requires Partition(regions.regions) && start <= sc.addr && (sc.kind == Code || sc.kind == Data)
      modifies regions
      ensures var spec := SpanSplit(old(State()), sc, start);
        (r.Pass? <==> spec.Ok?) && (r.Pass? ==> State() == spec.value)
    {
      var kind := SpanType(sc, start);
      var t := Region(start, sc.addr - start, kind, None);
      if !(sc.traced in regions.regions && Inside(regions.regions, sc.traced, t)) {
        return Fail(Internal("splitInsert target outside its parent"));
      }
      if kind == Data && start in regions.labelTypes {
        regions.labelTypes := regions.labelTypes[start := Data];
      }
      regions.SplitInsert(sc.traced, t);
      r := Pass;
    }

    /** `trace_code`: trace the queue's front until the queue is empty, at
        most `fuel` times. */
    method TraceCode(fuel: nat) returns (r: Outcome)
      requires Partition(regions.regions)
      modifies this, regions
      ensures var spec := TraceQueue(decode, objects, old(State()), fuel);
        (r.Pass? <==> spec.Ok?) && (r.Pass? ==> State() == spec.value)
    {
      ghost var spec := TraceQueue(decode, objects, State(), fuel);
      var budget := fuel;
      while codeTraceQueue != []
        invariant Partition(regions.regions)
        invariant TraceQueue(decode, objects, State(), budget) == spec
        decreases budget
      {
        if budget == 0 {
          return Fail(Internal("trace budget exhausted"));
        }
        var address := codeTraceQueue[0];
        codeTraceQueue := codeTraceQueue[1..];
        var o := TraceCodeAtAddress(address);
        if o.Fail? {
          return o;
        }
        budget := budget - 1;
      }
      r := Pass;
    }

    /** `addSwitchAddresses`: walk the words of a candidate table, queue
        each non-zero one as a CASE, and count the words. */
    method AddSwitchAddresses(fixups: map<nat, nat>, size: nat, bytes: seq<byte>, offset: nat) returns (count: nat)
      requires size <= |bytes|
      modifies this, regions
      ensures count == |SwitchEntries(fixups, size, bytes, offset, 0)|
      ensures State() == EnqueueAll(old(State()), NonZero(SwitchEntries(fixups, size, bytes, offset, 0)), Case)
    {
      ghost var all := SwitchEntries(fixups, size, bytes, offset, 0);
      ghost var final := EnqueueAll(State(), NonZero(all), Case);
      count := 0;
      var off := 0;
      while off + 4 <= size
        invariant off == 4 * count
        invariant count + |SwitchEntries(fixups, size, bytes, offset, off)| == |all|
        invariant EnqueueAll(State(), NonZero(SwitchEntries(fixups, size, bytes, offset, off)), Case) == final
        decreases size - off
      {
        ghost var rest := SwitchEntries(fixups, size, bytes, offset, off);
        var addr := WordAt(bytes, off);
        if addr != 0 {
          if offset + off !in fixups {
            assert rest == [];
            break;
          }
          assert rest == [addr] + SwitchEntries(fixups, size, bytes, offset, off + 4);
          assert rest[1..] == SwitchEntries(fixups, size, bytes, offset, off + 4);
          AddCodeTraceAddress(addr, Case);
        } else {
          assert rest == [addr] + SwitchEntries(fixups, size, bytes, offset, off + 4);
          assert rest[1..] == SwitchEntries(fixups, size, bytes, offset, off + 4);
        }
        off := off + 4;
        count := count + 1;
      }
    }

    /** `traceRegionSwitches(lx, fixups, reg, address)`. */
    method TraceRegionSwitches(fixups: map<nat, nat>, rk: nat, address: nat, fuel: nat) returns (r: Outcome)
      requires Partition(regions.regions) && Covers(regions.regions, rk, address)
      requires regions.regions[rk].kind == Unknown
      modifies this, regions
      ensures var spec := SwitchTable(decode, objects, fixups, old(State()), rk, address, fuel);
        (r.Pass? <==> spec.Ok?) && (r.Pass? ==> State() == spec.value)
    {
      var reg := regions.regions[rk];
      var obj := Images.ObjectAt(objects, reg.address);
      if obj.Err? {
        return Fail(obj.error);
      }
      if !obj.value.executable {
        return Pass;
      }
      var size := SwitchSpan(fixupAddresses, reg, address);
      if address + size > obj.value.baseAddress + |obj.value.data| {
        return Fail(Internal("switch table past the object"));
      }
      ghost var s := State();
      SwitchTableFound(decode, objects, fixups, s, rk, address, fuel, obj.value, size);
      var count := MarkSwitchTable(fixups, rk, address, obj.value, size);
      if count > 0 {
        r := TraceCode(fuel);
      } else {
        r := Pass;
      }
    }

    /** The bookkeeping half of `traceRegionSwitches`: queue the table's
        non-zero words as CASE and, when it has words, make them a SWITCH
        region labelled SWITCH. The words are counted. */
    method MarkSwitchTable(fixups: map<nat, nat>, rk: nat, address: nat, obj: ImageObject, size: nat)
      returns (count: nat)
      requires Partition(regions.regions) && Covers(regions.regions, rk, address)
      requires regions.regions[rk].kind == Unknown
      requires obj.baseAddress <= address && address + size <= obj.baseAddress + |obj.data|
      requires address + size <= regions.regions[rk].End()
      modifies this, regions
      ensures count == |SwitchWords(fixups, obj, address, size)|
      ensures State() == SwitchMarked(old(State()), rk, address, SwitchWords(fixups, obj, address, size))
    {
      var offset := address - obj.baseAddress;
      ghost var s := State();
      var bytes := obj.data[offset..offset + size];
      ghost var words := SwitchWords(fixups, obj, address, size);
      assert words == SwitchEntries(fixups, size, bytes, offset, 0);
      count := AddSwitchAddresses(fixups, size, bytes, offset);
      assert State() == EnqueueAll(s, NonZero(words), Case);
      if count > 0 {
        assert Inside(regions.regions, rk, Region(address, 4 * count, Switch, None));
        regions.SplitInsert(rk, Region(address, 4 * count, Switch, None));
        regions.labelTypes := regions.labelTypes[address := Switch];
      }
    }

    /** `traceSwitches(lx, fixups)`: the destinations in ascending order of
        their source offsets. */
    method TraceSwitches(fixups: map<nat, nat>, fuel: nat) returns (r: Outcome)
      requires Partition(regions.regions)
      modifies this, regions
      ensures var spec := SwitchesFrom(decode, objects, fixups, Ascending(fixups.Keys), 0, old(State()), fuel);
        (r.Pass? <==> spec.Ok?) && (r.Pass? ==> State() == spec.value)
    {
      var keys := Ascending(fixups.Keys);
      ghost var spec := SwitchesFrom(decode, objects, fixups, keys, 0, State(), fuel);
      var i := 0;
      while i < |keys|
        invariant i <= |keys| && Partition(regions.regions)
        invariant SwitchesFrom(decode, objects, fixups, keys, i, State(), fuel) == spec
      {
        ghost var a := SwitchesStep(decode, objects, fixups, keys, i, State(), fuel);
        var o := TraceSwitchAt(fixups, fixups[keys[i]], fuel);
        if o.Fail? {
          return o;
        }
        i := i + 1;
      }
      r := Pass;
    }

    /** One destination of `traceSwitches(lx, fixups)`. */
    method TraceSwitchAt(fixups: map<nat, nat>, dest: nat, fuel: nat) returns (r: Outcome)
      requires Partition(regions.regions)
      modifies this, regions
      ensures var spec := SwitchAt(decode, objects, fixups, old(State()), dest, fuel);
        (r.Pass? <==> spec.Ok?) && (r.Pass? ==> State() == spec.value)
    {
      var rk := RegionContaining(regions.regions, dest);
      if rk.None? {
        fixupAddresses := fixupAddresses - {dest};
      } else if regions.regions[rk.value].kind == Unknown {
        r := TraceRegionSwitches(fixups, rk.value, dest, fuel);
        return;
      }
      r := Pass;
    }

    /** `traceSwitches(lx)`: every object's fixups in turn. */
    method TraceAllSwitches(lx: LinearExecutable, fuel: nat) returns (r: Outcome)
      requires Partition(regions.regions)
      modifies this, regions
      ensures var spec := SwitchesOf(decode, objects, lx.fixups, 0, |lx.objects|, old(State()), fuel);
        (r.Pass? <==> spec.Ok?) && (r.Pass? ==> State() == spec.value)
    {
      ghost var spec := SwitchesOf(decode, objects, lx.fixups, 0, |lx.objects|, State(), fuel);
      var n := 0;
      while n < |lx.objects|
        invariant n <= |lx.objects| && Partition(regions.regions)
        invariant SwitchesOf(decode, objects, lx.fixups, n, |lx.objects|, State(), fuel) == spec
      {
        if n >= |lx.fixups| {
          return Fail(Internal("no fixup table for object"));
        }
        var o := TraceSwitches(lx.fixups[n], fuel);
        if o.Fail? {
          return o;
        }
        n := n + 1;
      }
      r := Pass;
    }

    /** `addAddress(guess_count, address)`. */
    method AddAddress(guessCount: nat, address: nat) returns (count: nat)
      modifies this, regions
      ensures State() == GuessAdded(old(State()), address).0
      ensures count == guessCount + GuessAdded(old(State()), address).1
    {
      var t := if address in regions.labelTypes then regions.labelTypes[address] else Unknown;
      count := guessCount;
      if t != Function && t != Type.Jump {
        count := count + 1;
        t := FuncGuess;
      }
      AddCodeTraceAddress(address, t);
    }

    /** `addAddressesFromUnknownRegions(guess_count, fixups)`. */
    method AddAddressesFromUnknownRegions(guessCount: nat, fixups: map<nat, nat>) returns (count: nat)
      modifies this, regions
      ensures State() == GuessesFrom(Destinations(fixups), 0, old(State()))
      ensures count == guessCount + GuessCount(Destinations(fixups), 0, old(State()))
    {
      var dests := Destinations(fixups);
      ghost var spec := GuessesFrom(dests, 0, State());
      ghost var total := guessCount + GuessCount(dests, 0, State());
      count := guessCount;
      var i := 0;
      while i < |dests|
        invariant i <= |dests|
        invariant GuessesFrom(dests, i, State()) == spec
        invariant count + GuessCount(dests, i, State()) == total
      {
        count := AddAddressAt(count, dests[i]);
        i := i + 1;
      }
    }

    /** One destination of `addAddressesFromUnknownRegions`. */
    method AddAddressAt(guessCount: nat, dest: nat) returns (count: nat)
      modifies this, regions
      ensures State() == GuessAt(old(State()), dest).0
      ensures count == guessCount + GuessAt(old(State()), dest).1
    {
      var kind := KindAt(regions.regions, dest);
      count := guessCount;
      if kind == Some(Unknown) {
        count := AddAddress(count, dest);
      } else if kind == Some(Data) {
        regions.labelTypes := regions.labelTypes[dest := Data];
      }
    }

    /** `trace_remaining_relocs(lx)`: the sweep over every object; the
        result is the number of guesses. */
    method TraceRemainingRelocs(lx: LinearExecutable) returns (r: Result<nat>)
      modifies this, regions
      ensures var spec := RemainingFrom(lx.fixups, 0, |objects|, old(State()));
        (r.Ok? <==> spec.Ok?) &&
        (r.Ok? ==> State() == spec.value && r.value == RemainingCount(lx.fixups, 0, |objects|, old(State())))
    {
      ghost var spec := RemainingFrom(lx.fixups, 0, |objects|, State());
      ghost var total := RemainingCount(lx.fixups, 0, |objects|, State());
      var guesses: nat := 0;
      var n := 0;
      while n < |objects|
        invariant n <= |objects|
        invariant RemainingFrom(lx.fixups, n, |objects|, State()) == spec
        invariant guesses + RemainingCount(lx.fixups, n, |objects|, State()) == total
      {
        if n >= |lx.fixups| {
          return Err(Internal("no fixup table for object"));
        }
        RemainingStep(lx.fixups, n, |objects|, State());
        guesses := AddAddressesFromUnknownRegions(guesses, lx.fixups[n]);
        n := n + 1;
      }
      r := Ok(guesses);
    }

    /** `run(lx)`. */
    method Run(lx: LinearExecutable, fuel: nat) returns (r: Outcome)
      requires Partition(regions.regions)
      modifies this, regions
      ensures var spec := Analysis.Run(decode, objects, lx, old(State()), fuel);
        (r.Pass? <==> spec.Ok?) && (r.Pass? ==> State() == spec.value)
    {
      var eip := EntryPointAddress(lx);
      if eip.Err? {
        return Fail(eip.error);
      }
      AddCodeTraceAddress(eip.value, Function);
      r := TraceCode(fuel);
      if r.Fail? {
        return;
      }
      r := TraceAllSwitches(lx, fuel);
      if r.Fail? {
        return;
      }
      var guesses := TraceRemainingRelocs(lx);
      if guesses.Err? {
        return Fail(guesses.error);
      }
      r := TraceCode(fuel);
    }
  }

  /** `SwitchTable` in an executable object whose table fits: the table is
      marked and, when it has words, the queue traced. */
  lemma SwitchTableFound(decode: Decoder, objects: seq<ImageObject>, fixups: map<nat, nat>, s: AState, rk: nat,
                         address: nat, fuel: nat, obj: ImageObject, size: nat)
    requires Partition(s.regions) && Covers(s.regions, rk, address) && s.regions[rk].kind == Unknown
    requires Images.ObjectAt(objects, s.regions[rk].address) == Ok(obj) && obj.executable
    requires size == SwitchSpan(s.destinations, s.regions[rk], address)
    requires address + size <= obj.baseAddress + |obj.data|
    ensures obj.baseAddress <= address
    ensures var words := SwitchWords(fixups, obj, address, size);
      var s1 := SwitchMarked(s, rk, address, words);
      SwitchTable(decode, objects, fixups, s, rk, address, fuel) == if |words| == 0 then Ok(s1) else TraceQueue(decode, objects, s1, fuel)
  {
  }
}
