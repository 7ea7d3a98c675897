/** Byte-order codec of `little_endian.h`: values are stored least
    significant byte first. Memory is an array (written in place) or a
    sequence (read only); a stream is a sequence with a cursor. */
module LittleEndian {
  import opened Common

  function Pow256(n: nat): (r: nat)
    ensures r >= 1
  {
    if n == 0 then 1 else 256 * Pow256(n - 1)
  }

  /** The unsigned value of `bs` read least significant byte first. */
  function Decode(bs: seq<byte>): nat
  {
    if |bs| == 0 then 0 else bs[0] + 256 * Decode(bs[1..])
  }

  /** The `width` low bytes of `v`, least significant first. */
  function Encode(v: nat, width: nat): (bs: seq<byte>)
    ensures |bs| == width
  {
    if width == 0 then [] else [v % 256] + Encode(v / 256, width - 1)
  }

  /** Two's-complement reading of a `width`-byte unsigned value. */
  function ToSigned(v: nat, width: nat): (r: int)
    requires 1 <= width && v < Pow256(width)
    ensures -(Pow256(width) / 2) <= r < Pow256(width) / 2
    ensures r == v || r == v - Pow256(width)
  {
    if v < Pow256(width) / 2 then v else v - Pow256(width)
  }

  /** `v` shifted right by 8 bits, `n` times (`value >>= 8` in a loop). */
  function Shr8(v: nat, n: nat): nat
  {
    if n == 0 then v else Shr8(v / 256, n - 1)
  }

  lemma {:induction false} Shr8Step(v: nat, n: nat)
    ensures Shr8(v, n + 1) == Shr8(v, n) / 256
  {
    if n > 0 {
      Shr8Step(v / 256, n - 1);
    }
  }

  lemma {:induction false} DecodeBound(bs: seq<byte>)
    ensures Decode(bs) < Pow256(|bs|)
  {
    if |bs| > 0 {
      DecodeBound(bs[1..]);
    }
  }

  /** Byte `n` contributes `bs[n] << 8n`: appending a byte adds it at the
      next position. */
  lemma {:induction false} DecodeSnoc(bs: seq<byte>, b: byte)
    ensures Decode(bs + [b]) == Decode(bs) + b * Pow256(|bs|)
  {
    if |bs| == 0 {
      assert bs + [b] == [b];
      assert [b][1..] == [];
    } else {
      assert (bs + [b])[1..] == bs[1..] + [b];
      DecodeSnoc(bs[1..], b);
    }
  }

  /** Round trip: reading back what `write_le` stored gives the value. */
  lemma {:induction false} RoundTrip(v: nat, width: nat)
    requires v < Pow256(width)
    ensures Decode(Encode(v, width)) == v
  {
    if width > 0 {
      RoundTrip(v / 256, width - 1);
      assert Encode(v, width)[1..] == Encode(v / 256, width - 1);
    }
  }

  /** Reading then writing gives back the bytes. */
  lemma {:induction false} EncodeDecode(bs: seq<byte>)
    ensures Encode(Decode(bs), |bs|) == bs
  {
    if |bs| > 0 {
      EncodeDecode(bs[1..]);
      assert Decode(bs) / 256 == Decode(bs[1..]);
      assert Decode(bs) % 256 == bs[0];
    }
  }

  /** Storing one more byte extends the encoding by the next byte of the
      shifted value. */
  lemma {:induction false} EncodeSnoc(v: nat, n: nat)
    ensures Encode(v, n + 1) == Encode(v, n) + [Shr8(v, n) % 256]
  {
    if n > 0 {
      EncodeSnoc(v / 256, n - 1);
    }
  }

  /** `read_le<T, Bytes>(memory, value)`: ORs byte n, shifted by 8n, into
      the value. The bytes occupy disjoint bit positions, so OR is addition. */
  method ReadLe(p: seq<byte>, width: nat) returns (value: nat)
    requires width <= |p|
    ensures value == Decode(p[..width])
    ensures value < Pow256(width)
  {
    value := 0;
    var n := 0;
    while n < width
      invariant 0 <= n <= width
      invariant value == Decode(p[..n])
    {
      DecodeSnoc(p[..n], p[n]);
      assert p[..n + 1] == p[..n] + [p[n]];
      value := value + p[n] * Pow256(n);
      n := n + 1;
    }
    DecodeBound(p[..width]);
  }

  /** `write_le<T, Bytes>(memory, value)`: stores the low byte, shifts the
      value right by 8, `width` times; nothing outside the `width` bytes at
      `at` changes. */
  method WriteLe(p: array<byte>, at: nat, width: nat, value: nat)
    requires at + width <= p.Length
    modifies p
    ensures p[..] == old(p[..])[..at] + Encode(value, width) + old(p[..])[at + width..]
  {
    var v := value;
    var n := 0;
    while n < width
      invariant 0 <= n <= width
      invariant v == Shr8(value, n)
      invariant p[..] == old(p[..])[..at] + Encode(value, n) + old(p[..])[at + n..]
    {
      EncodeSnoc(value, n);
      Shr8Step(value, n);
      p[at + n] := v % 256;
      v := v / 256;
      n := n + 1;
      assert p[..] == old(p[..])[..at] + Encode(value, n) + old(p[..])[at + n..];
    }
  }

  /** `read_le(std::istream &, T &)`: reads `width` bytes at the cursor and
      decodes them; fails with EOF when the stream cannot supply them. */
  method ReadLeStream(s: seq<byte>, pos: nat, width: nat) returns (r: Result<nat>, next: nat)
    ensures pos + width <= |s| ==> r == Ok(Decode(s[pos..pos + width])) && next == pos + width
    ensures pos + width > |s| ==> r == Err(Eof)
    ensures r.Ok? ==> r.value < Pow256(width)
  {
    if pos + width > |s| {
      return Err(Eof), pos;
    }
    var value := ReadLe(s[pos..pos + width], width);
    assert s[pos..pos + width][..width] == s[pos..pos + width];
    r, next := Ok(value), pos + width;
  }

  /** The signed reading of a stored `width`-byte two's-complement value,
      as `read_le<int8_t/int16_t/int32_t>` yields it. */
  function DecodeSigned(bs: seq<byte>): (r: int)
    requires |bs| >= 1
    ensures -(Pow256(|bs|) / 2) <= r < Pow256(|bs|) / 2
    ensures r == Decode(bs) || r == Decode(bs) - Pow256(|bs|)
  {
    DecodeBound(bs);
    ToSigned(Decode(bs), |bs|)
  }

  /** A displacement round-trips through its two's-complement encoding. */
  lemma SignedRoundTrip(x: int, width: nat)
    requires 1 <= width && -(Pow256(width) / 2) <= x < Pow256(width) / 2
    ensures DecodeSigned(Encode(if x < 0 then x + Pow256(width) else x, width)) == x
  {
    RoundTrip(if x < 0 then x + Pow256(width) else x, width);
  }
}
