/** Shared vocabulary: bytes, 32-bit wrap-around, optional values and the
    fatal errors the disassembler raises (its `Error` exception). */
module Common {

  /** One byte of the input file or of an object image. */
  type byte = b: int | 0 <= b < 256

  const U32: nat := 0x1_0000_0000
  const U16: nat := 0x1_0000

  /** Unsigned 32-bit arithmetic as C++ `uint32_t` performs it. */
  function Wrap32(x: int): (r: nat)
    ensures r < U32
    ensures 0 <= x < U32 ==> r == x
    ensures (r - x) % U32 == 0
  {
    x % U32
  }

  datatype Option<+T> = None | Some(value: T)

  /** Every fatal condition the source raises with `throw Error() << ...`,
      the `std::out_of_range` that `std::stol` throws, plus `Internal`
      for what the source leaves to `assert` or to
      undefined behaviour (an index past a vector, a dangling region). */
  datatype Error =
    | Eof
    | InvalidPageType(pageType: nat)
    | InvalidMzSignature
    | NotLeExecutable
    | InvalidLeSignature
    | ByteOrderNotLittleEndian
    | WordOrderNotLittleEndian
    | UnknownFormatVersion
    | FixupListsNotSupported
    | UnsupportedRelocType
    | UnexpectedObjectIndex
    | FixupOutsideObject
    | AddressOutOfImage
    | TargetDiscarded
    | DisassemblyFailed
    | UnsupportedFpuOperandSize
    | NumberOutOfRange
    | Internal(what: string)

  datatype Result<+T> = Ok(value: T) | Err(error: Error) {
    predicate IsFailure() { Err? }
    function PropagateFailure<U>(): Result<U>
      requires Err?
    {
      Err(error)
    }
    function Extract(): T
      requires Ok?
    {
      value
    }
  }

  /** Success without a value, for operations that only change state. */
  datatype Outcome = Pass | Fail(error: Error) {
    predicate IsFailure() { Fail? }
    function PropagateFailure(): Outcome
      requires Fail?
    {
      this
    }
  }
}
