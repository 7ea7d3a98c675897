/** The decisions the analyzer (`analyzer.h`) takes about one decoded
    instruction or one switch table, separated from the state they
    change: decoding through the external disassembler (`dis_info.h`),
    resolving a guessed function, the DATA rules, FPU operand widths, the
    enqueue rule and the switch-word scan. */
module TraceRules {
  import opened Common
  import opened LittleEndian
  import opened Text
  import opened Types
  import opened ImageObjects
  import opened Insns

  /** What the external decoder reports for the bytes at an address: the
      number of bytes it consumed (negative when it fails), the text it
      printed, and the last address it printed through the address
      callback (0 when it printed none). */
  datatype Raw = Raw(size: int, text: string, printedAddress: nat)

  /** The external decoder, given the address and the bytes it may read. */
  type Decoder = (nat, seq<byte>) -> Raw

  /** An instruction after `DisInfo::disassemble`: its size and text, and
      the type and memory address `setTargetAndType` derived. */
  datatype Instruction = Instruction(size: nat, text: string, kind: InsnType, memoryAddress: nat)

  /** `DisInfo::disassemble(addr, data, length, insn)` on the bytes of
      `obj` at `addr`, for an instruction of an object of bitness `bits`:
      the decoder reads at most `length` bytes; a negative size is the
      "Failed to disassemble" error; the printed address is stored in a
      `uint32_t`; the text callback leaves the type MISC before
      `setTargetAndType` runs. */
  function DecodeAt(decode: Decoder, obj: ImageObject, bits: Bitness, addr: nat, length: nat): (r: Result<Instruction>)
    ensures r.Ok? ==> 1 <= r.value.size <= length && r.value.memoryAddress < U32
    ensures r.Ok? ==> obj.baseAddress <= addr && addr + length <= obj.baseAddress + |obj.data|
    ensures obj.baseAddress <= addr && addr + length <= obj.baseAddress + |obj.data| &&
            decode(addr, obj.data[addr - obj.baseAddress..addr - obj.baseAddress + length]).size < 0 ==>
              r == Err(DisassemblyFailed)
    ensures r.Ok? ==> var bytes := obj.data[addr - obj.baseAddress..addr - obj.baseAddress + length];
      r.value.size == decode(addr, bytes).size && r.value.text == decode(addr, bytes).text &&
      r.value.kind == Classify(Misc, LeadingBytes(bytes, r.value.size)).0
  {
    if !(obj.baseAddress <= addr && addr + length <= obj.baseAddress + |obj.data|) then
      Err(Internal("instruction bytes outside the object"))
    else
      var bytes := obj.data[addr - obj.baseAddress..addr - obj.baseAddress + length];
      var raw := decode(addr, bytes);
      if raw.size < 0 then Err(DisassemblyFailed)
      else if raw.size == 0 || raw.size > length then Err(Internal("decoder consumed no bytes or too many"))
      else
        var d :- TargetAndType(Misc, Wrap32(raw.printedAddress), raw.text, bits, addr, raw.size, bytes);
        Ok(Instruction(raw.size, raw.text, d.kind, d.memoryAddress))
  }

  /** `DisInfo::disassemble(addr, data, length, insn)` on an `Insn`: the
      instruction is reset, the decoder prints into it (the text callback
      leaves the type MISC, the address callback sets the memory address),
      the size is recorded and, for a positive size, `setTargetAndType`
      runs. The instruction then holds what `DecodeAt` describes. */
  method Disassemble(decode: Decoder, obj: ImageObject, addr: nat, length: nat, insn: Insn) returns (r: Outcome)
    modifies insn
    ensures var spec := DecodeAt(decode, obj, insn.owner.bitness, addr, length);
      (r.Pass? <==> spec.Ok?) && (r.Fail? ==> spec == Err(r.error)) &&
      (r.Pass? ==> insn.size == spec.value.size && insn.text == spec.value.text &&
                   insn.kind == spec.value.kind && insn.memoryAddress == spec.value.memoryAddress)
  {
    if !(obj.baseAddress <= addr && addr + length <= obj.baseAddress + |obj.data|) {
      return Fail(Internal("instruction bytes outside the object"));
    }
    var bytes := obj.data[addr - obj.baseAddress..addr - obj.baseAddress + length];
    insn.Reset();
    var raw := decode(addr, bytes);
    insn.AppendText(raw.text);
    insn.memoryAddress := Wrap32(raw.printedAddress);
    if raw.size < 0 {
      return Fail(DisassemblyFailed);
    }
    insn.SetSize(raw.size);
    if raw.size == 0 || raw.size > length {
      return Fail(Internal("decoder consumed no bytes or too many"));
    }
    assert insn.text == raw.text;
    r := insn.SetTargetAndType(addr, bytes);
  }

  /** The role a FUNC_GUESS label in CODE takes once its first
      instruction is seen: FUNCTION for a frame set-up ("push…", or
      "sub…" touching %esp), otherwise JUMP. */
  function GuessResolved(text: string): (t: Type)
    ensures t == Function || t == Type.Jump
    ensures t == Function <==> StartsWith(text, "push") || (StartsWith(text, "sub") && Contains(text, ",%esp"))
  {
    if StartsWith(text, "push") || (StartsWith(text, "sub") && Contains(text, ",%esp")) then Function
    else Type.Jump
  }

  /** Text the decoder prints for bytes that are no code here. */
  predicate InvalidStart(text: string)
  {
    StartsWith(text, "(bad)") || StartsWith(text, "ss") || StartsWith(text, "gs")
  }

  /** An FPU instruction with a memory operand: the text starts with 'f'
      but is not an FS-prefixed instruction, and an address was decoded. */
  predicate IsFpuOperand(text: string, memoryAddress: nat)
  {
    |text| > 0 && text[0] == 'f' && memoryAddress > 0 && !StartsWith(text, "fs ")
  }

  /** Bytes of the operand an FPU instruction references: 10 for a
      "t " (80-bit) form, 8 for an "l " (64-bit) form; any other form is
      refused. */
  function FpuOperandSize(text: string): (r: Result<nat>)
    ensures r.Ok? ==> r.value == 8 || r.value == 10
    ensures r.Ok? && r.value == 10 <==> Contains(text, "t ")
    ensures r.Ok? && r.value == 8 <==> !Contains(text, "t ") && Contains(text, "l ")
    ensures r.Err? ==> r.error == UnsupportedFpuOperandSize
  {
    if Contains(text, "t ") then Ok(10)
    else if Contains(text, "l ") then Ok(8)
    else Err(UnsupportedFpuOperandSize)
  }

  /** The analyzer's `disassemble` rule: which role the memory address of
      an instruction is queued with. Nothing is queued without an address
      or inside DATA; a jump through memory ('*') is not followed; a call
      is, whatever its form. */
  function EnqueueRole(insn: Instruction, spanType: Type): (r: Option<Type>)
    ensures r.Some? ==> insn.memoryAddress != 0 && spanType != Data
    ensures r == Some(Type.Jump) <==>
      insn.memoryAddress != 0 && spanType != Data && (insn.kind == CondJump || insn.kind == InsnType.Jump) && !Contains(insn.text, "*")
    ensures r == Some(Function) <==>
      insn.memoryAddress != 0 && spanType != Data && insn.kind == Call
    ensures r.Some? ==> r == Some(Type.Jump) || r == Some(Function)
  {
    if insn.memoryAddress == 0 || spanType == Data then None
    else if (insn.kind == CondJump || insn.kind == InsnType.Jump) && !Contains(insn.text, "*") then Some(Type.Jump)
    else if insn.kind == Call then Some(Function)
    else None
  }

  /** The string the Watcom runtime's abort routine loads. */
  const AbortSignature: string := "ABNORMAL TERMINATION"

  /** The bytes of `obj` at `address` spell the abort signature. When
      fewer than 20 bytes of the object remain, the source's `strncmp`
      reads past the buffer if they all match; the model answers "no
      signature" there. */
  predicate AbortSignatureAt(obj: ImageObject, address: nat)
  {
    obj.baseAddress <= address && address + |AbortSignature| <= obj.baseAddress + |obj.data| &&
    forall i :: 0 <= i < |AbortSignature| ==> obj.data[address - obj.baseAddress + i] == AbortSignature[i] as int
  }

  /** The mnemonic and operand prefix of a load of an immediate. */
  const MovImmediate: string := "mov    $"

  /** The little-endian word at `at`. */
  function WordAt(bytes: seq<byte>, at: nat): (w: nat)
    requires at + 4 <= |bytes|
    ensures w < U32
  {
    DecodeBound(bytes[at..at + 4]);
    assert Pow256(4) == U32;
    Decode(bytes[at..at + 4])
  }

  /** The words `addSwitchAddresses` walks from `off` on, 4 bytes apart,
      within `size`: the walk stops at the first non-zero word whose
      object offset (`offset` + position) is no fixup source. */
  function SwitchEntries(fixups: map<nat, nat>, size: nat, bytes: seq<byte>, offset: nat, off: nat): (r: seq<nat>)
    requires size <= |bytes|
    ensures |r| > 0 ==> off + 4 * |r| <= size
    decreases size - off
  {
    if off + 4 > size then []
    else
      var w := WordAt(bytes, off);
      if w != 0 && offset + off !in fixups then []
      else [w] + SwitchEntries(fixups, size, bytes, offset, off + 4)
  }

  /** The walk reads consecutive words; each non-zero one sits at a fixup
      source; and it stops only at the end of the span or at a non-zero
      word that is no fixup source. */
  lemma {:induction false} SwitchEntriesShape(fixups: map<nat, nat>, size: nat, bytes: seq<byte>, offset: nat, off: nat)
    requires size <= |bytes|
    ensures var r := SwitchEntries(fixups, size, bytes, offset, off);
      (forall i :: 0 <= i < |r| ==> r[i] == WordAt(bytes, off + 4 * i)) &&
      (forall i :: 0 <= i < |r| ==> r[i] != 0 ==> offset + off + 4 * i in fixups) &&
      (off + 4 * |r| + 4 <= size ==> WordAt(bytes, off + 4 * |r|) != 0 && offset + off + 4 * |r| !in fixups)
    decreases size - off
  {
    if off + 4 <= size {
      var w := WordAt(bytes, off);
      if !(w != 0 && offset + off !in fixups) {
        var r := SwitchEntries(fixups, size, bytes, offset, off);
        var rest := SwitchEntries(fixups, size, bytes, offset, off + 4);
        SwitchEntriesShape(fixups, size, bytes, offset, off + 4);
        assert r == [w] + rest;
        forall i | 1 <= i < |r|
          ensures r[i] == WordAt(bytes, off + 4 * i) && (r[i] != 0 ==> offset + off + 4 * i in fixups)
        {
          assert r[i] == rest[i - 1];
          assert off + 4 * i == off + 4 + 4 * (i - 1);
        }
        assert off + 4 * |r| == off + 4 + 4 * |rest|;
      }
    }
  }

  /** The non-zero words: the case targets queued. */
  function NonZero(ws: seq<nat>): (r: seq<nat>)
    ensures |r| <= |ws|
  {
    if ws == [] then []
    else if ws[0] != 0 then [ws[0]] + NonZero(ws[1..])
    else NonZero(ws[1..])
  }

  /** Exactly the non-zero words are kept. */
  lemma {:induction false} NonZeroMembers(ws: seq<nat>)
    ensures forall i :: 0 <= i < |NonZero(ws)| ==> NonZero(ws)[i] != 0 && NonZero(ws)[i] in ws
    ensures forall w :: w in ws && w != 0 ==> w in NonZero(ws)
  {
    if ws != [] {
      NonZeroMembers(ws[1..]);
      assert ws == [ws[0]] + ws[1..];
    }
  }
}
