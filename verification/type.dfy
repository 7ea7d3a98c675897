/** Region classes and label roles (`type.h`), and the address format
    every listing uses. */
module Types {
  import opened Text

  /** UNKNOWN, CODE, DATA and SWITCH classify regions; DATA and SWITCH are
      also label roles, as are JUMP, FUNCTION, CASE and FUNC_GUESS. */
  datatype Type = Unknown | Code | Data | Switch | Jump | Function | Case | FuncGuess

  /** The enumerator's value in declaration order. */
  function Ordinal(t: Type): (n: nat)
    ensures n < 8
    ensures t.Unknown? || t.Code? || t.Data? || t.Switch? <==> n < 4
  {
    match t
    case Unknown => 0
    case Code => 1
    case Data => 2
    case Switch => 3
    case Jump => 4
    case Function => 5
    case Case => 6
    case FuncGuess => 7
  }

  /** A class a region can carry. */
  predicate IsRegionType(t: Type)
  {
    Ordinal(t) < 4
  }

  /** `printAddress(os, address, prefix)`: the prefix, then the address in
      lower-case hex, zero-padded to six digits. */
  function PrintAddress(prefix: string, address: nat): (r: string)
    ensures StartsWith(r, prefix)
    ensures |r| == |prefix| + if |Hex(address)| < 6 then 6 else |Hex(address)|
    ensures AllHex(r[|prefix|..]) && ParseDigits(r[|prefix|..]) == address
    ensures forall i :: |prefix| <= i < |r| ==> !('A' <= r[i] <= 'F')
  {
    PadHexRoundTrip(address, 6);
    var r := prefix + PadHex(address, 6);
    assert r[|prefix|..] == PadHex(address, 6);
    PadHexLowerCase(address, 6);
    r
  }

  /** Padding adds only '0's, so the digits stay lower-case. */
  lemma PadHexLowerCase(v: nat, w: nat)
    ensures forall i :: 0 <= i < |PadHex(v, w)| ==> !('A' <= PadHex(v, w)[i] <= 'F')
  {
    var h := Hex(v);
    if |h| < w {
      var z := Zeros(w - |h|);
      assert PadHex(v, w) == z + h;
      forall i | 0 <= i < |PadHex(v, w)|
        ensures !('A' <= PadHex(v, w)[i] <= 'F')
      {
        if i < |z| {
          assert PadHex(v, w)[i] == '0';
        } else {
          assert PadHex(v, w)[i] == h[i - |z|];
        }
      }
    }
  }

  /** Code size of an object or region. */
  datatype Bitness = Bits32 | Bits16
}
