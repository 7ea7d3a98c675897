/** An entry of the LE object page table (`le/object_page_header.h`):
    a 16-bit first number, an 8-bit second number and a type byte. */
module ObjectPageHeaders {
  import opened Common
  import opened LittleEndian
  import opened Records

  datatype PageType = Legal | Iterated | InvalidPage | ZeroFilled | LastPage
  {
    /** The enumerator's value. */
    function Ordinal(): (n: nat)
      ensures n <= 4
    {
      match this
      case Legal => 0
      case Iterated => 1
      case InvalidPage => 2
      case ZeroFilled => 3
      case LastPage => 4
    }
  }

  /** The enumerator a type byte of at most 4 stands for. */
  function PageTypeOf(b: nat): (t: PageType)
    requires b <= 4
    ensures t.Ordinal() == b
  {
    if b == 0 then Legal
    else if b == 1 then Iterated
    else if b == 2 then InvalidPage
    else if b == 3 then ZeroFilled
    else LastPage
  }

  const ObjectPageHeaderSize: nat := 4

  /** first_number, second_number, type. */
  const Layout: seq<nat> := [2, 1, 1]

  datatype ObjectPageHeader = ObjectPageHeader(firstNumber: nat, secondNumber: nat, pageType: PageType)
  {
    predicate Valid()
    {
      firstNumber < U16 && secondNumber < 256
    }
  }

  lemma LayoutSize()
    ensures Sum(Layout) == ObjectPageHeaderSize
  {
    assert Layout[..2] == [2, 1];
    assert Layout[..2][..1] == [2];
    assert [2][..0] == [];
  }

  /** The entry at byte `p`: EOF when fewer than 4 bytes remain, an
      invalid-page-type error when the type byte exceeds 4. */
  function ObjectPageHeaderAt(s: seq<byte>, p: nat): (r: Result<ObjectPageHeader>)
    ensures r.Ok? ==> r.value.Valid()
  {
    LayoutSize();
    if p + ObjectPageHeaderSize > |s| then Err(Eof)
    else
      var v := FieldsAt(s, p, Layout);
      FieldsFit(s, p, Layout);
      assert Pow256(2) == U16 && Pow256(1) == 256;
      if v[2] > 4 then Err(InvalidPageType(v[2]))
      else Ok(ObjectPageHeader(v[0], v[1], PageTypeOf(v[2])))
  }

  /** Outcomes by input: EOF exactly when the entry is cut short, a type
      error exactly when the type byte (offset 3) is above 4, and otherwise
      the type is the enumerator numbered by that byte. */
  lemma PageHeaderOutcomes(s: seq<byte>, p: nat)
    ensures ObjectPageHeaderAt(s, p) == Err(Eof) <==> p + ObjectPageHeaderSize > |s|
    ensures ObjectPageHeaderAt(s, p).Err? && ObjectPageHeaderAt(s, p).error.InvalidPageType? <==>
      p + ObjectPageHeaderSize <= |s| && s[p + 3] > 4
    ensures ObjectPageHeaderAt(s, p).Ok? ==> ObjectPageHeaderAt(s, p).value.pageType.Ordinal() == s[p + 3]
  {
    LayoutSize();
    if p + ObjectPageHeaderSize <= |s| {
      FieldAt(s, p, Layout, 2);
      assert Layout[..2] == [2, 1] && Layout[..2][..1] == [2] && [2][..0] == [];
      assert s[p + 3..p + 4] == [s[p + 3]];
    }
  }

  function EncodeObjectPageHeader(h: ObjectPageHeader): (bs: seq<byte>)
    ensures |bs| == ObjectPageHeaderSize
  {
    LayoutSize();
    EncodeFields([h.firstNumber, h.secondNumber, h.pageType.Ordinal()], Layout)
  }

  lemma ObjectPageHeaderRoundTrip(prefix: seq<byte>, h: ObjectPageHeader, suffix: seq<byte>)
    requires h.Valid()
    ensures ObjectPageHeaderAt(prefix + EncodeObjectPageHeader(h) + suffix, |prefix|) == Ok(h)
  {
    LayoutSize();
    assert Pow256(2) == U16 && Pow256(1) == 256;
    FieldsRoundTrip(prefix, [h.firstNumber, h.secondNumber, h.pageType.Ordinal()], Layout, suffix);
    assert PageTypeOf(h.pageType.Ordinal()) == h.pageType;
  }

  /** `readFrom`: the three fields in order, then the type check. */
  method ReadObjectPageHeader(s: seq<byte>, pos: nat) returns (r: Result<ObjectPageHeader>, next: nat)
    ensures r == ObjectPageHeaderAt(s, pos)
    ensures r.Ok? ==> next == pos + ObjectPageHeaderSize
  {
    LayoutSize();
    var v;
    v, next := ReadFields(s, pos, Layout);
    if v.Err? {
      return Err(v.error), next;
    }
    var typeByte := v.value[2];
    if typeByte > 4 {
      return Err(InvalidPageType(typeByte)), next;
    }
    r := Ok(ObjectPageHeader(v.value[0], v.value[1], PageTypeOf(typeByte)));
  }
}
