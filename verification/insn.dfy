/** One decoded instruction (`insn.h`): the decoder's text, and the branch
    class and target that `setTargetAndType` derives from the leading
    opcode bytes (the one- and two-byte opcode maps of Appendix A of the
    Intel 64 and IA-32 Architectures Software Developer's Manual,
    Volume 2). */
module Insns {
  import opened Common
  import opened LittleEndian
  import opened Text
  import opened Types
  import opened ImageObjects

  datatype InsnType = Misc | CondJump | Jump | Call | Ret

  /** The two opcode bytes classification looks at. */
  datatype Opcode = Opcode(first: byte, second: byte)

  /** The CS segment override prefix. */
  const CsPrefix: byte := 0x2e

  /** `data0`/`data1`: the first two bytes, skipping a CS prefix when the
      instruction is long enough; a byte past the instruction reads as 0. */
  function LeadingBytes(data: seq<byte>, size: nat): Opcode
    requires 1 <= size <= |data|
  {
    if data[0] == CsPrefix then
      Opcode(if size > 1 then data[1] else CsPrefix, if size > 2 then data[2] else 0)
    else
      Opcode(data[0], if size > 1 then data[1] else 0)
  }

  /** A CS prefix is transparent: the bytes after it classify as the
      instruction without it would. */
  lemma CsPrefixSkipped(data: seq<byte>, size: nat)
    requires 2 <= size <= |data| && data[0] == CsPrefix && data[1] != CsPrefix
    ensures LeadingBytes(data, size) == LeadingBytes(data[1..], size - 1)
  {
  }

  /** The ModRM reg field: `(b & 0x38) >> 3`. */
  function RegField(b: byte): (r: nat)
    ensures r < 8
  {
    (b / 8) % 8
  }

  /** The branch chain of `setTargetAndType`: the new type and whether a
      relative target follows. An opcode the chain does not name keeps the
      type `current` the text callback left (MISC). */
  function Classify(current: InsnType, op: Opcode): (r: (InsnType, bool))
    ensures r.0 == current || r.0 == Call || r.0 == InsnType.Jump || r.0 == CondJump || r.0 == Ret
    ensures op.first == 0xff ==> !r.1
  {
    var d0 := op.first;
    var d1 := op.second;
    if d0 == 0x0f then (if 0x80 <= d1 < 0x90 then CondJump else current, true)
    else if d0 == 0xe8 then (Call, true)
    else if d0 == 0xe9 then (InsnType.Jump, true)
    else if d0 == 0x67 && d1 == 0xe3 then (InsnType.Jump, true)
    else if d0 == 0xc2 then (Ret, true)
    else if d0 == 0xca then (Ret, true)
    else if d0 == 0xeb then (InsnType.Jump, true)
    else if 0x70 <= d0 < 0x80 then (CondJump, true)
    else if 0xe0 <= d0 <= 0xe3 then (CondJump, true)
    else if d0 == 0xe3 then (InsnType.Jump, true)
    else if d0 == 0xcf then (Ret, true)
    else if d0 == 0xc3 then (Ret, true)
    else if d0 == 0xcb then (Ret, true)
    else if d0 == 0xff then
      (if RegField(d1) == 2 || RegField(d1) == 3 then Call
       else if RegField(d1) == 4 || RegField(d1) == 5 then InsnType.Jump
       else current, false)
    else (current, true)
  }

  /** Every opcode but the 0xff group carries its own target. */
  lemma ClassifyTargets(current: InsnType, op: Opcode)
    ensures Classify(current, op).1 <==> op.first != 0xff
  {
  }

  /** The opcode table, stated by opcode set rather than by branch. */
  predicate IsCall(op: Opcode)
  {
    op.first == 0xe8 || (op.first == 0xff && RegField(op.second) in {2, 3})
  }

  predicate IsJump(op: Opcode)
  {
    op.first in {0xe9, 0xeb} || (op.first == 0x67 && op.second == 0xe3) ||
    (op.first == 0xff && RegField(op.second) in {4, 5})
  }

  predicate IsCondJump(op: Opcode)
  {
    0x70 <= op.first <= 0x7f || (op.first == 0x0f && 0x80 <= op.second <= 0x8f) || 0xe0 <= op.first <= 0xe3
  }

  predicate IsRet(op: Opcode)
  {
    op.first in {0xc2, 0xca, 0xcf, 0xc3, 0xcb}
  }

  /** The chain agrees with the table: the four classes are disjoint, each
      opcode of a class gets that class, every other opcode keeps the
      current type, and only 0xFF forms carry no relative target. In
      particular 0xE3 is a conditional jump: the later 0xE3 → JUMP branch
      is never reached. */
  lemma ClassifyMatchesTable(current: InsnType, op: Opcode)
    ensures !(IsCall(op) && IsJump(op)) && !(IsCall(op) && IsCondJump(op)) && !(IsCall(op) && IsRet(op))
    ensures !(IsJump(op) && IsCondJump(op)) && !(IsJump(op) && IsRet(op)) && !(IsCondJump(op) && IsRet(op))
    ensures Classify(current, op).0 ==
      if IsCall(op) then Call
      else if IsJump(op) then InsnType.Jump
      else if IsCondJump(op) then CondJump
      else if IsRet(op) then Ret
      else current
    ensures Classify(current, op).1 <==> op.first != 0xff
  {
  }

  /** Bytes of the trailing displacement: rel8 for short forms, else rel32
      (32-bit code) or rel16 (16-bit code). */
  function DisplacementWidth(size: nat, bits: Bitness): (w: nat)
    requires size >= 1
    ensures 1 <= w <= size && w in {1, 2, 4}
  {
    if bits == Bits32 then (if size < 5 then 1 else 4) else (if size < 3 then 1 else 2)
  }

  /** The signed displacement stored in the instruction's last bytes. */
  function Displacement(data: seq<byte>, size: nat, bits: Bitness): int
    requires 1 <= size <= |data|
  {
    var w := DisplacementWidth(size, bits);
    DecodeSigned(data[size - w..size])
  }

  /** addr + size + displacement, stored into a `uint32_t`. */
  function RelativeTarget(addr: nat, size: nat, data: seq<byte>, bits: Bitness): (t: nat)
    requires 1 <= size <= |data|
    ensures t < U32
    ensures (t - (addr + size + Displacement(data, size, bits))) % U32 == 0
  {
    Wrap32(addr + size + Displacement(data, size, bits))
  }

  /** A branch whose last bytes hold the two's-complement encoding of
      `x` jumps to addr + size + x, modulo 2^32. */
  lemma RelativeTargetRoundTrip(addr: nat, data: seq<byte>, size: nat, bits: Bitness, x: int)
    requires 1 <= size <= |data|
    requires var w := DisplacementWidth(size, bits);
      -(Pow256(w) / 2) <= x < Pow256(w) / 2 &&
      data[size - w..size] == Encode(if x < 0 then x + Pow256(w) else x, w)
    ensures RelativeTarget(addr, size, data, bits) == Wrap32(addr + size + x)
  {
    SignedRoundTrip(x, DisplacementWidth(size, bits));
  }

  /** What `setTargetAndType` leaves: the type and the memory address. */
  datatype Decoded = Decoded(kind: InsnType, memoryAddress: nat)

  /** `setTargetAndType` on the instruction's state: a branch with a
      relative target gets that target as its memory address, unless a
      different non-zero address is already set; any other instruction
      without an address takes the hex number after the first "s:0x" in
      its text. */
  function TargetAndType(kind: InsnType, memoryAddress: nat, text: string, bits: Bitness,
                         addr: nat, size: nat, data: seq<byte>): (r: Result<Decoded>)
    requires 1 <= size <= |data|
    ensures memoryAddress < U32 && r.Ok? ==> r.value.memoryAddress < U32
  {
    var (k, haveTarget) := Classify(kind, LeadingBytes(data, size));
    if haveTarget && (k == CondJump || k == InsnType.Jump || k == Call) then
      var target := RelativeTarget(addr, size, data, bits);
      if memoryAddress != 0 && target != memoryAddress then Err(TargetDiscarded)
      else Ok(Decoded(k, target))
    else if memoryAddress == 0 then
      match FindFrom(text, "s:0x", 0)
      case Some(i) => Ok(Decoded(k, StrToHex32(text[i + 2..])))
      case None => Ok(Decoded(k, 0))
    else Ok(Decoded(k, memoryAddress))
  }

  /** The outcomes of `setTargetAndType`: the type is the table's; a
      relative branch fails exactly when its target contradicts a set
      address and otherwise records the target; a set address of a
      non-branch is kept; "s:0x" supplies one only when none is set. */
  lemma TargetAndTypeCases(kind: InsnType, memoryAddress: nat, text: string, bits: Bitness,
                           addr: nat, size: nat, data: seq<byte>)
    requires 1 <= size <= |data|
    ensures var r := TargetAndType(kind, memoryAddress, text, bits, addr, size, data);
      var op := LeadingBytes(data, size);
      var k := Classify(kind, op).0;
      var branch := op.first != 0xff && (k == CondJump || k == InsnType.Jump || k == Call);
      var target := RelativeTarget(addr, size, data, bits);
      (r.Err? <==> branch && memoryAddress != 0 && target != memoryAddress) &&
      (r.Err? ==> r.error == TargetDiscarded) &&
      (r.Ok? ==> r.value.kind == k) &&
      (r.Ok? && branch ==> r.value.memoryAddress == target) &&
      (!branch && memoryAddress != 0 ==> r == Ok(Decoded(k, memoryAddress))) &&
      (!branch && memoryAddress == 0 && !Contains(text, "s:0x") ==> r == Ok(Decoded(k, 0)))
  {
    ClassifyMatchesTable(kind, LeadingBytes(data, size));
  }

  /** A decoded instruction, bound to the object it was read from. */
  class Insn {
    const owner: ImageObject
    var kind: InsnType
    var text: string
    var memoryAddress: nat
    var instructionAddress: nat
    var size: nat

    /** `Insn(object)`; the source leaves the other fields unset, the model
        starts them empty. */
    constructor (owner: ImageObject)
      ensures this.owner == owner
      ensures kind == Misc && text == "" && memoryAddress == 0 && instructionAddress == 0 && size == 0
    {
      this.owner := owner;
      kind := Misc;
      text := "";
      memoryAddress := 0;
      instructionAddress := 0;
      size := 0;
    }

    /** `reset()`: no address, no text; the type and size stay. */
    method Reset()
      modifies this
      ensures memoryAddress == 0 && text == "" && instructionAddress == 0
      ensures kind == old(kind) && size == old(size)
    {
      memoryAddress := 0;
      text := "";
      instructionAddress := 0;
    }

    /** `setSize(n)`: only the size changes. */
    method SetSize(n: nat)
      modifies this
      ensures size == n
      ensures kind == old(kind) && text == old(text) && memoryAddress == old(memoryAddress)
      ensures instructionAddress == old(instructionAddress)
    {
      size := n;
    }

    /** `callbackResetTypeAndText`: the decoder's next piece of text is
        appended and the type reset to MISC. */
    method AppendText(piece: string)
      modifies this
      ensures text == old(text) + piece && kind == Misc
      ensures memoryAddress == old(memoryAddress) && instructionAddress == old(instructionAddress) && size == old(size)
    {
      text := text + piece;
      kind := Misc;
    }

    /** `setTargetAndType(addr, data)`: records the instruction address,
        classifies the opcode, and sets the memory address from the
        relative target or the text; a contradicting target fails. */
    method SetTargetAndType(addr: nat, data: seq<byte>) returns (r: Outcome)
      requires 1 <= size <= |data|
      modifies this
      ensures var spec := TargetAndType(old(kind), old(memoryAddress), old(text), owner.bitness, addr, old(size), data);
        (r.Fail? <==> spec.Err?) && (r.Fail? ==> r.error == spec.error) &&
        (r.Pass? ==> kind == spec.value.kind && memoryAddress == spec.value.memoryAddress)
      ensures kind == Classify(old(kind), LeadingBytes(data, old(size))).0
      ensures r.Fail? ==> memoryAddress == old(memoryAddress)
      ensures instructionAddress == addr && text == old(text) && size == old(size)
    {
      ghost var spec := TargetAndType(kind, memoryAddress, text, owner.bitness, addr, size, data);
      instructionAddress := addr;
      var c := Classify(kind, LeadingBytes(data, size));
      kind := c.0;
      var haveTarget := c.1;
      if haveTarget && (kind == CondJump || kind == InsnType.Jump || kind == Call) {
        var address := RelativeTarget(addr, size, data, owner.bitness);
        if memoryAddress != 0 && address != memoryAddress {
          assert spec == Err(TargetDiscarded);
          return Fail(TargetDiscarded);
        }
        memoryAddress := address;
      } else if memoryAddress == 0 {
        var found := FindFrom(text, "s:0x", 0);
        if found.Some? {
          memoryAddress := StrToHex32(text[found.value + 2..]);
        }
      }
      assert spec == Ok(Decoded(kind, memoryAddress));
      r := Pass;
    }
  }
}
