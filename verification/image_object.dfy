/** One loaded object of the image (`le/image_object.h`): its index, base
    address, executable flag, bitness and the bytes of its buffer. The
    fields are set once by `init` and read through accessors. */
module ImageObjects {
  import opened Common
  import opened Types

  class ImageObject {
    const index: nat
    const baseAddress: nat
    const executable: bool
    const bitness: Bitness
    const data: seq<byte>

    /** `init`: stores the index, base address and executable flag, the
        bitness (32-bit when the flag is set, else 16-bit) and a copy of the
        buffer; the accessors return exactly these. */
    constructor Init(index: nat, baseAddress: nat, executable: bool, bits32: bool, data: seq<byte>)
      ensures this.index == index && this.baseAddress == baseAddress && this.executable == executable
      ensures this.bitness == (if bits32 then Bits32 else Bits16)
      ensures this.data == data
    {
      this.index := index;
      this.baseAddress := baseAddress;
      this.executable := executable;
      this.bitness := if bits32 then Bits32 else Bits16;
      this.data := data;
    }

    /** The object's buffer covers `address`. */
    predicate Holds(address: nat)
    {
      baseAddress <= address < baseAddress + |data|
    }

    /** `get_data_at(address)`: the buffer from index address - base_address
        on. The source forms the pointer without a check; the model asks
        that it lie within the buffer (or at its end). */
    function DataAt(address: nat): (r: seq<byte>)
      requires baseAddress <= address <= baseAddress + |data|
      ensures |r| == baseAddress + |data| - address
      ensures forall i :: 0 <= i < |r| ==> r[i] == data[address - baseAddress + i]
    {
      data[address - baseAddress..]
    }
  }
}
