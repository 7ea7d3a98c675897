/** An address range of one class (`region.h`): start, size, type and the
    object it lies in. `Regions` keeps these by value in a map, so the
    size and object setters are modelled as functions returning the
    updated copy. */
module RegionValues {
  import opened Common
  import opened Types
  import opened ImageObjects
  import opened Text

  datatype Region = Region(address: nat, size: nat, kind: Type, owner: Option<ImageObject>)
  {
    /** Both fields hold `uint32_t` values. */
    predicate Fields32()
    {
      address < U32 && size < U32
    }

    /** `end_address()`: address + size, summed as `uint32_t`. */
    function End(): (e: nat)
      ensures Fields32() ==> e == Wrap32(address + size)
      ensures address + size < U32 ==> e == address + size
    {
      if address + size < U32 then address + size else address + size - U32
    }

    /** `contains_address(a)`: address <= a < address + size, the sum in
        `uint32_t`. */
    predicate Contains(a: nat)
    {
      address <= a < End()
    }

    /** `size(n)`: a copy with only the size changed. */
    function WithSize(n: nat): (r: Region)
      ensures r.size == n && r.address == address && r.kind == kind && r.owner == owner
    {
      this.(size := n)
    }

    /** `image_object_pointer(o)`: a copy with only the object changed. */
    function WithOwner(o: Option<ImageObject>): (r: Region)
      ensures r.owner == o && r.address == address && r.size == size && r.kind == kind
    {
      this.(owner := o)
    }

    /** `bitness()`: the owning object's bitness; the source asserts that
        an object is set. */
    function Bitness(): (b: Bitness)
      requires owner.Some?
      ensures b == owner.value.bitness
    {
      owner.value.bitness
    }
  }

  /** `Region()`: address 0, size 0, UNKNOWN, no object. */
  function DefaultRegion(): (r: Region)
    ensures r.address == 0 && r.size == 0 && r.kind == Unknown && r.owner == None
  {
    Region(0, 0, Unknown, None)
  }

  /** A region of size 0 contains no address, not even its own start. */
  lemma EmptyContainsNothing(r: Region, a: nat)
    requires r.size == 0
    ensures !r.Contains(a)
  {
  }

  /** A region that does not reach 2^32 contains exactly the addresses of
      [address, address + size). */
  lemma ContainsRange(r: Region, a: nat)
    requires r.address + r.size < U32
    ensures r.Contains(a) <==> r.address <= a < r.address + r.size
  {
  }

  /** A region whose sum wraps to exactly 0 or less than its start
      contains nothing: the `uint32_t` end is below the start. */
  lemma WrappedContainsNothing(r: Region, a: nat)
    requires r.Fields32() && r.address + r.size >= U32
    ensures !r.Contains(a)
  {
  }

  /** `operator<<(os, Type)`: the name of a region class, and
      "(unknown n)" for a label-only role. */
  function TypeName(t: Type): (s: string)
    ensures IsRegionType(t) ==> s in {"unknown", "code", "data", "switch"}
    ensures !IsRegionType(t) ==> StartsWith(s, "(unknown ") && s[|s| - 1] == ')'
  {
    match t
    case Unknown => "unknown"
    case Code => "code"
    case Data => "data"
    case Switch => "switch"
    case _ => "(unknown " + Decimal(Ordinal(t)) + ")"
  }

  /** `std::dec` output of a small number. */
  function Decimal(n: nat): (s: string)
    ensures |s| >= 1
  {
    if n < 10 then [('0' as int + n) as char] else Decimal(n / 10) + [('0' as int + n % 10) as char]
  }

  /** The names of the four region classes are distinct. */
  lemma TypeNamesDistinct(s: Type, t: Type)
    requires IsRegionType(s) && IsRegionType(t) && s != t
    ensures TypeName(s) != TypeName(t)
  {
  }

  /** `operator<<(std::ostream &, Type)` as written: the default branch
      writes `type` with the same operator, which calls itself on the
      same value. `depth` is the nesting the stack allows; `None` is
      running out of it. */
  function TypeNameAsWritten(t: Type, depth: nat): (r: Option<string>)
    ensures IsRegionType(t) ==> r == Some(TypeName(t))
  {
    match t
    case Unknown => Some("unknown")
    case Code => Some("code")
    case Data => Some("data")
    case Switch => Some("switch")
    case _ =>
      if depth == 0 then None
      else match TypeNameAsWritten(t, depth - 1)
        case None => None
        case Some(inner) => Some("(unknown " + inner + ")")
  }

  /** For any type past `SWITCH` the operator never finishes, however
      deep the stack: it writes no name at all. */
  lemma {:induction false} TypeNameAsWrittenNeverEnds(t: Type, depth: nat)
    requires !IsRegionType(t)
    ensures TypeNameAsWritten(t, depth) == None
  {
    if depth > 0 {
      TypeNameAsWrittenNeverEnds(t, depth - 1);
    }
  }
}
