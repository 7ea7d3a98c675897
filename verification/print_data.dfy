/** The DATA listing (`print_data.h`): label names and indents, the tests
    that choose how a stretch of bytes is printed (a fixup word, a run of
    zeros, a string, single bytes), string escaping, the length of the
    stretch before the next label or fixup, and the printers that walk a
    stretch and a whole DATA region. What the source writes to standard
    output is returned as a string. */
module PrintData {
  import opened Common
  import opened Text
  import opened Types
  import opened LittleEndian
  import opened OrderedKeys
  import opened ImageObjects
  import opened RegionValues
  import opened RegionMaps
  import TraceRules

  /** `getIndent`: one tab before JUMP and CASE labels, none otherwise. */
  function Indent(t: Type): (n: nat)
    ensures n <= 1
    ensures n == 1 <==> t == Type.Jump || t == Case
  {
    if t == Type.Jump || t == Case then 1 else 0
  }

  /** The blank lines `getIndent` writes before a label: two before a
      function, one before a switch table, none otherwise. */
  function LabelBreaks(t: Type): (s: string)
    ensures |s| == 2 <==> t == Function || t == FuncGuess
    ensures |s| == 1 <==> t == Switch
    ensures forall i :: 0 <= i < |s| ==> s[i] == '\n'
  {
    if t == Function || t == FuncGuess then "\n\n" else if t == Switch then "\n" else ""
  }

  function Tabs(n: nat): (s: string)
    ensures |s| == n && forall i :: 0 <= i < n ==> s[i] == '\t'
  {
    if n == 0 then "" else "\t" + Tabs(n - 1)
  }

  /** The role suffix `printTypedAddress` appends. */
  function Suffix(t: Type): (s: string)
    ensures |s| >= 5 && s[0] == '_'
  {
    match t
    case Function => "_func"
    case FuncGuess => "_func"
    case Jump => "_jump"
    case Data => "_data"
    case Switch => "_switch"
    case Case => "_case"
    case _ => "_unknown"
  }

  /** Two roles get the same suffix exactly when they are equal, both
      name functions (FUNCTION, FUNC_GUESS) or both fall to the default
      (UNKNOWN, CODE). */
  lemma SuffixesDistinct(s: Type, t: Type)
    ensures Suffix(s) == Suffix(t) <==>
      s == t || ((s == Function || s == FuncGuess) && (t == Function || t == FuncGuess)) ||
      ((s == Unknown || s == Code) && (t == Unknown || t == Code))
  {
  }

  /** `printTypedAddress(os, address, type)`: an underscore, the address
      as `printAddress` writes it, then the role suffix. */
  function TypedAddress(address: nat, t: Type): (r: string)
    ensures StartsWith(r, "_") && |r| >= 12
  {
    PrintAddress("_", address) + Suffix(t)
  }

  /** The digits of a typed address run up to the suffix, whose leading
      underscore is no hex digit: reading them back gives the address,
      and the rest of the name is the suffix. */
  lemma TypedAddressReadsBack(address: nat, t: Type)
    ensures var r := TypedAddress(address, t); var d := HexRun(r, 1);
      6 <= d && 1 + d < |r| && ParseDigits(r[1..1 + d]) == address && r[1 + d..] == Suffix(t)
  {
    var p := PrintAddress("_", address);
    var r := TypedAddress(address, t);
    assert r == p + Suffix(t);
    assert r[1..|p|] == p[1..];
    assert AllHex(p[1..]);
    assert forall j :: 1 <= j < |p| ==> r[j] == p[1..][j - 1];
    HexRunExact(r, 1, |p| - 1);
    assert r[|p|..] == Suffix(t);
  }

  /** A typed address names one address and one suffix: two labels with
      the same text are the same label. */
  lemma TypedAddressInjective(a: nat, s: Type, b: nat, t: Type)
    requires TypedAddress(a, s) == TypedAddress(b, t)
    ensures a == b && Suffix(s) == Suffix(t)
  {
    TypedAddressReadsBack(a, s);
    TypedAddressReadsBack(b, t);
  }

  /** `printLabel(address, type, prefix)`: the blank lines of `getIndent`,
      its tabs, the prefix, the typed address and a colon. */
  function Label(address: nat, t: Type, prefix: string): (r: string)
    ensures |r| > 0 && r[|r| - 1] == ':'
    ensures var lead := LabelBreaks(t) + Tabs(Indent(t)) + prefix;
      |lead| < |r| && StartsWith(r, lead) && r[|lead|..|r| - 1] == TypedAddress(address, t)
  {
    var lead := LabelBreaks(t) + Tabs(Indent(t)) + prefix;
    var r := lead + TypedAddress(address, t) + ":";
    assert r[|lead|..|r| - 1] == TypedAddress(address, t);
    r
  }

  /** Labels of one role and prefix that print the same name the same
      address. */
  lemma LabelsInjective(a: nat, b: nat, t: Type, prefix: string)
    requires Label(a, t, prefix) == Label(b, t, prefix)
    ensures a == b
  {
    var lead := LabelBreaks(t) + Tabs(Indent(t)) + prefix;
    var r := Label(a, t, prefix);
    assert TypedAddress(a, t) == r[|lead|..|r| - 1] == TypedAddress(b, t);
    TypedAddressInjective(a, t, b, t);
  }

  /** `labelTypes[a]` as `std::map::operator[]` evaluates it: a missing
      key is first inserted as UNKNOWN. */
  function Subscript(labels: map<nat, Type>, a: nat): (r: map<nat, Type>)
    ensures a in r && r.Keys == labels.Keys + {a}
    ensures a in labels ==> r == labels
    ensures a !in labels ==> r[a] == Unknown && forall k :: k in labels ==> r[k] == labels[k]
  {
    if a in labels then labels else labels[a := Unknown]
  }

  /** `after` keeps every label of `before` and adds only UNKNOWN ones. */
  ghost predicate Grown(before: map<nat, Type>, after: map<nat, Type>)
  {
    (forall k :: k in before ==> k in after && after[k] == before[k]) &&
    (forall k :: k in after && k !in before ==> after[k] == Unknown)
  }

  /** `data_is_address`: at least four bytes remain and the object offset
      of `addr` (a `uint32_t` difference) is a fixup source. */
  predicate DataIsAddress(obj: ImageObject, fixups: map<nat, nat>, addr: nat, len: nat)
  {
    len >= 4 && Wrap32(addr - obj.baseAddress) in fixups
  }

  /** The end of the run of zero bytes from `x` within the first `len`. */
  function ZeroRunFrom(bs: seq<byte>, len: nat, x: nat): (r: nat)
    requires len <= |bs| && x <= len
    ensures x <= r <= len
    decreases len - x
  {
    if x < len && bs[x] == 0 then ZeroRunFrom(bs, len, x + 1) else x
  }

  /** The run from `x` holds only zeros and ends at `len` or at a
      non-zero byte. */
  lemma {:induction false} ZeroRunFromMeaning(bs: seq<byte>, len: nat, x: nat)
    requires len <= |bs| && x <= len
    ensures var r := ZeroRunFrom(bs, len, x);
      (forall i :: x <= i < r ==> bs[i] == 0) && (r < len ==> bs[r] != 0)
    decreases len - x
  {
    if x < len && bs[x] == 0 {
      ZeroRunFromMeaning(bs, len, x + 1);
    }
  }

  /** What `data_is_zeros` reports: the length of the leading run of zero
      bytes within `len`, when it is at least 4. */
  function ZeroRun(bs: seq<byte>, len: nat): (r: Option<nat>)
    requires len <= |bs|
    ensures r.Some? ==> 4 <= r.value <= len
  {
    var x := ZeroRunFrom(bs, len, 0);
    if x < 4 then None else Some(x)
  }

  /** A run is reported exactly when the first four bytes are zero, and
      then it is the whole leading run of zeros. */
  lemma ZeroRunMeaning(bs: seq<byte>, len: nat)
    requires len <= |bs|
    ensures var r := ZeroRun(bs, len);
      (r.Some? <==> forall i :: 0 <= i < 4 ==> i < len && bs[i] == 0) &&
      (r.Some? ==> (forall i :: 0 <= i < r.value ==> bs[i] == 0) && (r.value < len ==> bs[r.value] != 0))
  {
    ZeroRunFromMeaning(bs, len, 0);
    var x := ZeroRunFrom(bs, len, 0);
    if x < 4 {
      assert !(x < len && bs[x] == 0);
    }
  }

  /** `data_is_zeros(obj, addr, len, rlen)`: counts the zero bytes at
      `addr`; the run is reported when it is at least 4 long. */
  method DataIsZeros(obj: ImageObject, addr: nat, len: nat) returns (r: Option<nat>)
    requires obj.baseAddress <= addr && addr - obj.baseAddress + len <= |obj.data|
    ensures r == ZeroRun(obj.DataAt(addr), len)
  {
    ghost var bs := obj.DataAt(addr);
    var base := addr - obj.baseAddress;
    var x := 0;
    while x < len && obj.data[base + x] == 0
      invariant x <= len
      invariant ZeroRunFrom(bs, len, x) == ZeroRunFrom(bs, len, 0)
      decreases len - x
    {
      x := x + 1;
    }
    if x < 4 {
      return None;
    }
    r := Some(x);
  }

  /** A byte `data_is_string` accepts: printable ASCII, tab, LF or CR. */
  predicate IsStringByte(b: byte)
  {
    !((b < 0x20 || b >= 0x7f) && !(b == 9 || b == 10 || b == 13))
  }

  /** The end of the run of string bytes from `x` within the first `len`. */
  function StringRunFrom(bs: seq<byte>, len: nat, x: nat): (r: nat)
    requires len <= |bs| && x <= len
    ensures x <= r <= len
    decreases len - x
  {
    if x < len && IsStringByte(bs[x]) then StringRunFrom(bs, len, x + 1) else x
  }

  /** The run from `x` holds only string bytes and ends at `len` or at a
      byte that is none. */
  lemma {:induction false} StringRunFromMeaning(bs: seq<byte>, len: nat, x: nat)
    requires len <= |bs| && x <= len
    ensures var r := StringRunFrom(bs, len, x);
      (forall i :: x <= i < r ==> IsStringByte(bs[i])) && (r < len ==> !IsStringByte(bs[r]))
    decreases len - x
  {
    if x < len && IsStringByte(bs[x]) {
      StringRunFromMeaning(bs, len, x + 1);
    }
  }

  /** A string found by `data_is_string`: the bytes it covers, including a
      terminating NUL when there is one. */
  datatype StringSpan = StringSpan(size: nat, zeroTerminated: bool)

  /** What `data_is_string` reports: a leading run of at least 4 string
      bytes within `len`, extended by one NUL that follows it. */
  function StringRun(bs: seq<byte>, len: nat): (r: Option<StringSpan>)
    requires len <= |bs|
    ensures r.Some? ==> 4 <= r.value.size <= len && (r.value.zeroTerminated ==> bs[r.value.size - 1] == 0)
  {
    var x := StringRunFrom(bs, len, 0);
    if x < 4 then None
    else if x < len && bs[x] == 0 then Some(StringSpan(x + 1, true))
    else Some(StringSpan(x, false))
  }

  /** A string is reported exactly when the first four bytes are string
      bytes; it is the whole leading run of them, and takes the NUL that
      follows the run, if one does. */
  lemma StringRunMeaning(bs: seq<byte>, len: nat)
    requires len <= |bs|
    ensures var r := StringRun(bs, len);
      (r.Some? <==> forall i :: 0 <= i < 4 ==> i < len && IsStringByte(bs[i])) &&
      (r.Some? ==>
        var n := r.value.size - (if r.value.zeroTerminated then 1 else 0);
        4 <= n && (forall i :: 0 <= i < n ==> IsStringByte(bs[i])) &&
        (n < len ==> !IsStringByte(bs[n])) && (r.value.zeroTerminated <==> n < len && bs[n] == 0))
  {
    StringRunFromMeaning(bs, len, 0);
    var x := StringRunFrom(bs, len, 0);
    if x < 4 {
      assert !(x < len && IsStringByte(bs[x]));
    }
  }

  /** `data_is_string(obj, addr, len, rlen, zero_terminated)`: counts the
      string bytes at `addr` and takes one NUL after them. */
  method DataIsString(obj: ImageObject, addr: nat, len: nat) returns (r: Option<StringSpan>)
    requires obj.baseAddress <= addr && addr - obj.baseAddress + len <= |obj.data|
    ensures r == StringRun(obj.DataAt(addr), len)
  {
    ghost var bs := obj.DataAt(addr);
    var base := addr - obj.baseAddress;
    var x := 0;
    while x < len && IsStringByte(obj.data[base + x])
      invariant x <= len
      invariant StringRunFrom(bs, len, x) == StringRunFrom(bs, len, 0)
      decreases len - x
    {
      x := x + 1;
    }
    if x < 4 {
      return None;
    }
    if x < len && obj.data[base + x] == 0 {
      r := Some(StringSpan(x + 1, true));
    } else {
      r := Some(StringSpan(x, false));
    }
  }

  /** How `print_escaped_string` writes one byte: tab, CR, LF, backslash
      and double quote as escapes, anything else as itself. */
  function Escape(b: byte): (s: string)
    ensures 1 <= |s| <= 2
  {
    if b == 9 then "\\t"
    else if b == 13 then "\\r"
    else if b == 10 then "\\n"
    else if b == 92 then "\\\\"
    else if b == 34 then "\\\""
    else [b as char]
  }

  function Escaped(bs: seq<byte>): (s: string)
  {
    if |bs| == 0 then "" else Escape(bs[0]) + Escaped(bs[1..])
  }

  lemma {:induction false} EscapedAppend(a: seq<byte>, b: seq<byte>)
    ensures Escaped(a + b) == Escaped(a) + Escaped(b)
    decreases |a|
  {
    if |a| > 0 {
      assert (a + b)[1..] == a[1..] + b;
      EscapedAppend(a[1..], b);
    } else {
      assert a + b == b;
    }
  }

  /** The characters of a byte string. */
  function Chars(bs: seq<byte>): (s: string)
    ensures |s| == |bs| && forall i :: 0 <= i < |bs| ==> s[i] == bs[i] as char
  {
    if |bs| == 0 then "" else [bs[0] as char] + Chars(bs[1..])
  }

  /** Reading an escaped string back as an assembler does. */
  function Unescaped(s: string): string
  {
    if |s| == 0 then ""
    else if s[0] == '\\' && |s| >= 2 then
      var c := s[1];
      [if c == 't' then '\t' else if c == 'r' then '\r' else if c == 'n' then '\n' else c] + Unescaped(s[2..])
    else [s[0]] + Unescaped(s[1..])
  }

  /** The escaped text reads back as the bytes it was made from. */
  lemma {:induction false} EscapedRoundTrip(bs: seq<byte>)
    ensures Unescaped(Escaped(bs)) == Chars(bs)
  {
    if |bs| > 0 {
      EscapedRoundTrip(bs[1..]);
      var e := Escape(bs[0]);
      var s := e + Escaped(bs[1..]);
      if |e| == 2 {
        assert s[2..] == Escaped(bs[1..]);
      } else {
        assert s[1..] == Escaped(bs[1..]);
      }
    }
  }

  /** `print_escaped_string(data, len)`: each byte in turn, escaped. */
  method PrintEscaped(bs: seq<byte>) returns (s: string)
    ensures s == Escaped(bs)
  {
    s := "";
    var n := 0;
    while n < |bs|
      invariant n <= |bs| && s == Escaped(bs[..n])
    {
      EscapedAppend(bs[..n], [bs[n]]);
      assert bs[..n + 1] == bs[..n] + [bs[n]];
      s := s + Escape(bs[n]);
      n := n + 1;
    }
    assert bs[..n] == bs;
  }

  /** One line, or part of a line, of the DATA listing. The printers
      below produce these; `Render` gives the characters each one writes. */
  datatype Directive =
    | EndQuote                                  // `"` and a newline: `completeStringQuoting`
    | Long(value: nat, role: Type)              // a fixup word, printed as the label of its value
    | Fill(count: nat)                          // a run of zero bytes
    | Str(bytes: seq<byte>, zeroTerminated: bool) // `.string` (NUL included) or `.ascii`
    | RawByte(b: byte, opens: bool, closes: bool) // one `\xNN` of an eight-byte `.ascii` line
    | DataLabel(address: nat)                   // an empty line and the DATA label of `address`

  /** The characters a directive writes. */
  function Render(d: Directive): string
  {
    match d
    case EndQuote => "\"\n"
    case Long(value, role) => "\t\t.long   " + TypedAddress(value, role) + "\n"
    case Fill(count) => "\t\t.fill   0x" + Hex(count) + "\n"
    case Str(bytes, zt) => (if zt then "\t\t.string \"" else "\t\t.ascii   \"") + Escaped(bytes) + "\"\n"
    case RawByte(b, opens, closes) =>
      (if opens then "\t\t.ascii  \"" else "") + "\\x" + PadHex(b, 2) + (if closes then "\"\n" else "")
    case DataLabel(address) => "\n" + Label(address, Data, "") + "\n"
  }

  /** The characters of a listing. */
  function Listed(ds: seq<Directive>): string
  {
    if ds == [] then "" else Render(ds[0]) + Listed(ds[1..])
  }

  /** The bytes an assembler emits for a directive: the word of a label's
      address, zeros, the string and its NUL, the byte; nothing for the
      quote that ends a line or a label. */
  function Assembled(d: Directive): seq<byte>
  {
    match d
    case Long(value, _) => Encode(value, 4)
    case Fill(count) => seq(count, _ => 0)
    case Str(bytes, zt) => bytes + (if zt then [0] else [])
    case RawByte(b, _, _) => [b]
    case _ => []
  }

  function AssembledAll(ds: seq<Directive>): seq<byte>
    decreases |ds|, 1
  {
    if ds == [] then [] else AssembledHead(ds)
  }

  /** The bytes of a non-empty sequence of directives: the first
      directive's, then the rest's. */
  function AssembledHead(ds: seq<Directive>): seq<byte>
    requires ds != []
    decreases |ds|, 0
  {
    Assembled(ds[0]) + AssembledAll(ds[1..])
  }

  lemma Single(d: Directive)
    ensures AssembledAll([d]) == Assembled(d)
  {
    assert AssembledAll([d]) == AssembledHead([d]);
    assert [d][1..] == [];
  }

  lemma {:induction false} AssembledAppend(a: seq<Directive>, b: seq<Directive>)
    ensures AssembledAll(a + b) == AssembledAll(a) + AssembledAll(b)
    decreases |a|
  {
    if a == [] {
      assert a + b == b;
    } else {
      assert (a + b)[1..] == a[1..] + b;
      AssembledAppend(a[1..], b);
      assert AssembledAll(a + b) == AssembledHead(a + b);
      assert AssembledAll(a) == AssembledHead(a);
    }
  }

  /** `completeStringQuoting`: ends an open line of raw bytes. */
  function CloseQuote(bytesInLine: nat): (ds: seq<Directive>)
    ensures ds == [] <==> bytesInLine == 0
    ensures AssembledAll(ds) == []
  {
    if bytesInLine > 0 then [EndQuote] else []
  }

  /** One step of `printDataAfterFixup`: what it writes, the bytes it
      consumes, the raw bytes then open on the line and the label map. */
  datatype Piece = Piece(out: seq<Directive>, size: nat, bytesInLine: nat, labels: map<nat, Type>)

  /** A run of `n` zero bytes as one `.fill`. */
  function ZeroPiece(n: nat, labels: map<nat, Type>, bytesInLine: nat): (r: Piece)
    ensures r.size == n && r.bytesInLine == 0 && r.labels == labels
  {
    Piece(CloseQuote(bytesInLine) + [Fill(n)], n, 0, labels)
  }

  /** A string: `.string` with the bytes before its NUL when one ends
      it, `.ascii` otherwise. */
  function StringPiece(bs: seq<byte>, span: StringSpan, labels: map<nat, Type>, bytesInLine: nat): (r: Piece)
    requires span.size <= |bs| && (span.zeroTerminated ==> 1 <= span.size)
    ensures r.size == span.size && r.bytesInLine == 0 && r.labels == labels
  {
    var n := span.size - (if span.zeroTerminated then 1 else 0);
    Piece(CloseQuote(bytesInLine) + [Str(bs[..n], span.zeroTerminated)], span.size, 0, labels)
  }

  /** One raw byte: the first of a line opens an `.ascii`, the eighth
      closes it. */
  function BytePiece(b: byte, labels: map<nat, Type>, bytesInLine: nat): (r: Piece)
    requires bytesInLine < 8
    ensures r.size == 1 && r.bytesInLine == (bytesInLine + 1) % 8 && r.labels == labels
  {
    Piece([RawByte(b, bytesInLine == 0, bytesInLine == 7)], 1, (bytesInLine + 1) % 8, labels)
  }

  /** The bytes at a position that holds no fixup word: a zero run, else
      a string, else one raw byte. */
  function LocalPiece(bs: seq<byte>, len: nat, labels: map<nat, Type>, bytesInLine: nat): (r: Piece)
    requires 0 < len <= |bs| && bytesInLine < 8
    ensures 1 <= r.size <= len && r.bytesInLine < 8 && r.labels == labels
  {
    match ZeroRun(bs, len)
    case Some(n) => ZeroPiece(n, labels, bytesInLine)
    case None =>
      match StringRun(bs, len)
      case Some(span) => StringPiece(bs, span, labels, bytesInLine)
      case None => BytePiece(bs[0], labels, bytesInLine)
  }

  /** What is printed for a position without a fixup word assembles back
      to the bytes it covers. */
  lemma LocalPieceReassembles(bs: seq<byte>, len: nat, labels: map<nat, Type>, bytesInLine: nat)
    requires 0 < len <= |bs| && bytesInLine < 8
    ensures var r := LocalPiece(bs, len, labels, bytesInLine); AssembledAll(r.out) == bs[..r.size]
  {
    var r := LocalPiece(bs, len, labels, bytesInLine);
    match ZeroRun(bs, len)
    case Some(n) =>
      ZeroRunMeaning(bs, len);
      ZeroPieceReassembles(bs, n, labels, bytesInLine, r);
    case None =>
      match StringRun(bs, len)
      case Some(span) => StringPieceReassembles(bs, span, labels, bytesInLine, r);
      case None => BytePieceReassembles(bs, labels, bytesInLine, r);
  }

  lemma ZeroPieceReassembles(bs: seq<byte>, n: nat, labels: map<nat, Type>, bytesInLine: nat, r: Piece)
    requires n <= |bs| && (forall i :: 0 <= i < n ==> bs[i] == 0) && r == ZeroPiece(n, labels, bytesInLine)
    ensures AssembledAll(r.out) == bs[..r.size]
  {
    AssembledAppend(CloseQuote(bytesInLine), [Fill(n)]);
    Single(Fill(n));
    assert seq(n, _ => 0) == bs[..n];
  }

  lemma StringPieceReassembles(bs: seq<byte>, span: StringSpan, labels: map<nat, Type>, bytesInLine: nat, r: Piece)
    requires span.size <= |bs| && (span.zeroTerminated ==> 1 <= span.size && bs[span.size - 1] == 0)
    requires r == StringPiece(bs, span, labels, bytesInLine)
    ensures AssembledAll(r.out) == bs[..r.size]
  {
    var n := span.size - (if span.zeroTerminated then 1 else 0);
    var d := Str(bs[..n], span.zeroTerminated);
    AssembledAppend(CloseQuote(bytesInLine), [d]);
    Single(d);
    assert bs[..span.size] == bs[..n] + (if span.zeroTerminated then [0] else []);
  }

  lemma BytePieceReassembles(bs: seq<byte>, labels: map<nat, Type>, bytesInLine: nat, r: Piece)
    requires 0 < |bs| && bytesInLine < 8 && r == BytePiece(bs[0], labels, bytesInLine)
    ensures AssembledAll(r.out) == bs[..r.size]
  {
    Single(r.out[0]);
  }

  /** The scan `printDataAfterFixup` makes where no fixup word starts:
      `data_is_zeros`, then `data_is_string`, then one byte. */
  method ScanPiece(obj: ImageObject, addr: nat, len: nat, labels: map<nat, Type>, bytesInLine: nat) returns (p: Piece)
    requires obj.baseAddress <= addr && addr - obj.baseAddress + len <= |obj.data|
    requires 0 < len && bytesInLine < 8
    ensures p == LocalPiece(obj.DataAt(addr), len, labels, bytesInLine)
  {
    var zeros := DataIsZeros(obj, addr, len);
    if zeros.Some? {
      return ZeroPiece(zeros.value, labels, bytesInLine);
    }
    var str := DataIsString(obj, addr, len);
    if str.Some? {
      return StringPiece(obj.DataAt(addr), str.value, labels, bytesInLine);
    }
    p := BytePiece(obj.data[addr - obj.baseAddress], labels, bytesInLine);
  }

  /** One step of `printDataAfterFixup` at `addr` with `len` bytes left:
      a fixup word is printed as the label of the address it holds, whose
      role is looked up with `operator[]`; any other position is scanned.
      The step consumes at least one byte and at most `len`, its output
      assembles to exactly the bytes it consumed, and only a fixup word
      adds a label. */
  function DataPiece(obj: ImageObject, fixups: map<nat, nat>, labels: map<nat, Type>, addr: nat, len: nat, bytesInLine: nat): (r: Piece)
    requires obj.baseAddress <= addr && addr - obj.baseAddress + len <= |obj.data|
    requires 0 < len && bytesInLine < 8
    ensures 1 <= r.size <= len && r.bytesInLine < 8
    ensures DataIsAddress(obj, fixups, addr, len) ==>
      var value := TraceRules.WordAt(obj.data, addr - obj.baseAddress);
      r.labels == Subscript(labels, value) && r.out == CloseQuote(bytesInLine) + [Long(value, r.labels[value])]
    ensures !DataIsAddress(obj, fixups, addr, len) ==> r.labels == labels
  {
    if DataIsAddress(obj, fixups, addr, len) then
      var value := TraceRules.WordAt(obj.data, addr - obj.baseAddress);
      var ls := Subscript(labels, value);
      Piece(CloseQuote(bytesInLine) + [Long(value, ls[value])], 4, 0, ls)
    else LocalPiece(obj.DataAt(addr), len, labels, bytesInLine)
  }

  /** A step's output assembles to exactly the bytes it consumed: a fixup
      word to the little-endian encoding of the address its label names. */
  lemma DataPieceReassembles(obj: ImageObject, fixups: map<nat, nat>, labels: map<nat, Type>, addr: nat, len: nat, bytesInLine: nat)
    requires obj.baseAddress <= addr && addr - obj.baseAddress + len <= |obj.data|
    requires 0 < len && bytesInLine < 8
    ensures var r := DataPiece(obj, fixups, labels, addr, len, bytesInLine);
      AssembledAll(r.out) == obj.data[addr - obj.baseAddress..addr + r.size - obj.baseAddress]
  {
    var at := addr - obj.baseAddress;
    var r := DataPiece(obj, fixups, labels, addr, len, bytesInLine);
    if DataIsAddress(obj, fixups, addr, len) {
      WordPieceReassembles(obj.data, at, bytesInLine, r);
    } else {
      LocalPieceReassembles(obj.DataAt(addr), len, labels, bytesInLine);
      Shifted(r.out, obj.data, at, r.size, addr + r.size - obj.baseAddress);
    }
  }

  /** A fixup word is printed as a label that names the address it
      holds, and that address encodes back to the word's bytes. */
  lemma WordPieceReassembles(bytes: seq<byte>, at: nat, bytesInLine: nat, r: Piece)
    requires at + 4 <= |bytes|
    requires var value := TraceRules.WordAt(bytes, at);
      r.size == 4 && value in r.labels && r.out == CloseQuote(bytesInLine) + [Long(value, r.labels[value])]
    ensures AssembledAll(r.out) == bytes[at..at + r.size]
  {
    var value := TraceRules.WordAt(bytes, at);
    AssembledAppend(CloseQuote(bytesInLine), [Long(value, r.labels[value])]);
    Single(Long(value, r.labels[value]));
    EncodeDecode(bytes[at..at + 4]);
  }

  lemma Shifted(ds: seq<Directive>, bytes: seq<byte>, lo: nat, n: nat, hi: nat)
    requires lo + n == hi <= |bytes| && AssembledAll(ds) == bytes[lo..][..n]
    ensures AssembledAll(ds) == bytes[lo..hi]
  {
    assert bytes[lo..][..n] == bytes[lo..hi];
  }

  /** A step keeps every label and adds only UNKNOWN ones. */
  lemma DataPieceGrows(obj: ImageObject, fixups: map<nat, nat>, labels: map<nat, Type>, addr: nat, len: nat, bytesInLine: nat)
    requires obj.baseAddress <= addr && addr - obj.baseAddress + len <= |obj.data|
    requires 0 < len && bytesInLine < 8
    ensures Grown(labels, DataPiece(obj, fixups, labels, addr, len, bytesInLine).labels)
  {
  }

  /** What `printDataAfterFixup` writes for `len` bytes from `addr`, and
      where it leaves the address, the open line and the labels. */
  datatype Listing = Listing(out: seq<Directive>, addr: nat, bytesInLine: nat, labels: map<nat, Type>)

  /** `printDataAfterFixup` as a sequence of pieces: it consumes exactly
      `len` bytes, leaves fewer than eight raw bytes open and only adds
      UNKNOWN labels. */
  function DataFrom(obj: ImageObject, fixups: map<nat, nat>, labels: map<nat, Type>, addr: nat, len: nat, bytesInLine: nat): (r: Listing)
    requires obj.baseAddress <= addr && addr - obj.baseAddress + len <= |obj.data| && bytesInLine < 8
    ensures r.addr == addr + len && r.bytesInLine < 8
    decreases len, 1
  {
    if len == 0 then Listing([], addr, bytesInLine, labels)
    else DataStep(obj, fixups, labels, addr, len, bytesInLine)
  }

  /** A non-empty stretch: its first piece, then the rest of the stretch. */
  function DataStep(obj: ImageObject, fixups: map<nat, nat>, labels: map<nat, Type>, addr: nat, len: nat, bytesInLine: nat): (r: Listing)
    requires obj.baseAddress <= addr && addr - obj.baseAddress + len <= |obj.data| && bytesInLine < 8 && 0 < len
    ensures r.addr == addr + len && r.bytesInLine < 8
    decreases len, 0
  {
    var p := DataPiece(obj, fixups, labels, addr, len, bytesInLine);
    var rest := DataFrom(obj, fixups, p.labels, addr + p.size, len - p.size, p.bytesInLine);
    Listing(p.out + rest.out, rest.addr, rest.bytesInLine, rest.labels)
  }

  /** The listing of a stretch assembles back to the stretch's bytes. */
  lemma {:induction false} DataFromReassembles(obj: ImageObject, fixups: map<nat, nat>, labels: map<nat, Type>, addr: nat, len: nat, bytesInLine: nat)
    requires obj.baseAddress <= addr && addr - obj.baseAddress + len <= |obj.data| && bytesInLine < 8
    ensures var l := DataFrom(obj, fixups, labels, addr, len, bytesInLine);
      AssembledAll(l.out) == obj.data[addr - obj.baseAddress..l.addr - obj.baseAddress]
    decreases len
  {
    if len > 0 {
      var p := PieceJoins(obj, fixups, labels, addr, len, bytesInLine);
      DataFromReassembles(obj, fixups, p.labels, addr + p.size, len - p.size, p.bytesInLine);
    }
  }

  /** The first piece of a stretch: followed by a rest that assembles to
      its own bytes, it assembles to the whole stretch. */
  lemma PieceJoins(obj: ImageObject, fixups: map<nat, nat>, labels: map<nat, Type>, addr: nat, len: nat, bytesInLine: nat) returns (p: Piece)
    requires obj.baseAddress <= addr && addr - obj.baseAddress + len <= |obj.data| && bytesInLine < 8 && 0 < len
    ensures 1 <= p.size <= len && p.bytesInLine < 8
    ensures var next := DataFrom(obj, fixups, p.labels, addr + p.size, len - p.size, p.bytesInLine);
      var l := DataFrom(obj, fixups, labels, addr, len, bytesInLine);
      AssembledAll(next.out) == obj.data[addr + p.size - obj.baseAddress..next.addr - obj.baseAddress] ==>
      AssembledAll(l.out) == obj.data[addr - obj.baseAddress..l.addr - obj.baseAddress]
  {
    p := DataPiece(obj, fixups, labels, addr, len, bytesInLine);
    DataPieceReassembles(obj, fixups, labels, addr, len, bytesInLine);
    DataFromStep(obj, fixups, labels, addr, len, bytesInLine, p);
    var next := DataFrom(obj, fixups, p.labels, addr + p.size, len - p.size, p.bytesInLine);
    Joined(DataFrom(obj, fixups, labels, addr, len, bytesInLine).out, p.out, next.out, obj.data,
           addr - obj.baseAddress, addr + p.size - obj.baseAddress, next.addr - obj.baseAddress);
  }

  /** Two listings that assemble to adjacent stretches of `bytes`
      assemble, one after the other, to the whole stretch. */
  lemma Joined(whole: seq<Directive>, a: seq<Directive>, b: seq<Directive>, bytes: seq<byte>, lo: nat, mid: nat, hi: nat)
    ensures whole == a + b && lo <= mid <= hi <= |bytes| &&
            AssembledAll(a) == bytes[lo..mid] && AssembledAll(b) == bytes[mid..hi] ==>
            AssembledAll(whole) == bytes[lo..hi]
  {
    if whole == a + b && lo <= mid <= hi <= |bytes| {
      AssembledAppend(a, b);
      Split(bytes, lo, mid, hi);
    }
  }

  /** Directives that assemble to nothing do not change what follows
      them. */
  lemma Quiet(whole: seq<Directive>, a: seq<Directive>, b: seq<Directive>, bytes: seq<byte>, lo: nat, hi: nat)
    ensures whole == a + b && lo <= hi <= |bytes| && AssembledAll(a) == [] && AssembledAll(b) == bytes[lo..hi] ==>
            AssembledAll(whole) == bytes[lo..hi]
  {
    AssembledAppend(a, b);
  }

  /** Closing the open line and printing a label assemble to nothing. */
  lemma LabelQuiet(bytesInLine: nat, addr: nat)
    ensures AssembledAll(CloseQuote(bytesInLine) + [DataLabel(addr)]) == []
  {
    AssembledAppend(CloseQuote(bytesInLine), [DataLabel(addr)]);
    Single(DataLabel(addr));
  }

  lemma Regrouped(out: seq<Directive>, rest: seq<Directive>, a: seq<Directive>, b: seq<Directive>)
    requires rest == a + b
    ensures out + rest == (out + a) + b
  {
  }

  lemma Split(bytes: seq<byte>, lo: nat, mid: nat, hi: nat)
    requires lo <= mid <= hi <= |bytes|
    ensures bytes[lo..hi] == bytes[lo..mid] + bytes[mid..hi]
  {
  }

  /** The labels a stretch leaves include every label it started with. */
  lemma {:induction false} DataFromGrows(obj: ImageObject, fixups: map<nat, nat>, labels: map<nat, Type>, addr: nat, len: nat, bytesInLine: nat)
    requires obj.baseAddress <= addr && addr - obj.baseAddress + len <= |obj.data| && bytesInLine < 8
    ensures Grown(labels, DataFrom(obj, fixups, labels, addr, len, bytesInLine).labels)
    decreases len
  {
    if len > 0 {
      var p := DataPiece(obj, fixups, labels, addr, len, bytesInLine);
      DataPieceGrows(obj, fixups, labels, addr, len, bytesInLine);
      DataFromStep(obj, fixups, labels, addr, len, bytesInLine, p);
      DataFromGrows(obj, fixups, p.labels, addr + p.size, len - p.size, p.bytesInLine);
    }
  }

  /** A non-empty stretch is its first piece followed by the rest. */
  lemma {:induction false} DataFromStep(obj: ImageObject, fixups: map<nat, nat>, labels: map<nat, Type>, addr: nat, len: nat, bytesInLine: nat, p: Piece)
    requires obj.baseAddress <= addr && addr - obj.baseAddress + len <= |obj.data| && bytesInLine < 8 && 0 < len
    requires p == DataPiece(obj, fixups, labels, addr, len, bytesInLine)
    ensures var next := DataFrom(obj, fixups, p.labels, addr + p.size, len - p.size, p.bytesInLine);
      var whole := DataFrom(obj, fixups, labels, addr, len, bytesInLine);
      whole.out == p.out + next.out && whole.addr == next.addr && whole.bytesInLine == next.bytesInLine &&
      whole.labels == next.labels
  {
    assert DataFrom(obj, fixups, labels, addr, len, bytesInLine) == DataStep(obj, fixups, labels, addr, len, bytesInLine);
  }

  /** One step of `printDataAfterFixup` on the analyzer's label map. */
  method PrintPiece(obj: ImageObject, fixups: map<nat, nat>, regions: Regions, addr: nat, len: nat, bytesInLine: nat) returns (p: Piece)
    requires obj.baseAddress <= addr && addr - obj.baseAddress + len <= |obj.data|
    requires 0 < len && bytesInLine < 8
    modifies regions
    ensures p == DataPiece(obj, fixups, old(regions.labelTypes), addr, len, bytesInLine)
    ensures regions.labelTypes == p.labels && regions.regions == old(regions.regions)
  {
    var labels := regions.labelTypes;
    if DataIsAddress(obj, fixups, addr, len) {
      var value := TraceRules.WordAt(obj.data, addr - obj.baseAddress);
      var ls := Subscript(labels, value);
      p := Piece(CloseQuote(bytesInLine) + [Long(value, ls[value])], 4, 0, ls);
    } else {
      p := ScanPiece(obj, addr, len, labels, bytesInLine);
    }
    assert p == DataPiece(obj, fixups, labels, addr, len, bytesInLine);
    regions.labelTypes := p.labels;
  }

  /** `printDataAfterFixup(obj, lx, anal, addr, len, bytes_in_line)`:
      prints pieces until `len` bytes are consumed, advancing `addr`. */
  method DataAfterFixup(obj: ImageObject, fixups: map<nat, nat>, regions: Regions, addr0: nat, len0: nat, bytesInLine0: nat)
    returns (out: seq<Directive>, addr: nat, bytesInLine: nat)
    requires obj.baseAddress <= addr0 && addr0 - obj.baseAddress + len0 <= |obj.data| && bytesInLine0 < 8
    modifies regions
    ensures Listing(out, addr, bytesInLine, regions.labelTypes) == DataFrom(obj, fixups, old(regions.labelTypes), addr0, len0, bytesInLine0)
    ensures regions.regions == old(regions.regions)
  {
    ghost var whole := DataFrom(obj, fixups, regions.labelTypes, addr0, len0, bytesInLine0);
    out, addr, bytesInLine := [], addr0, bytesInLine0;
    var len: nat := len0;
    assert [] + whole.out == whole.out;
    while len > 0
      invariant obj.baseAddress <= addr && addr - obj.baseAddress + len <= |obj.data| && bytesInLine < 8
      invariant regions.regions == old(regions.regions)
      invariant var rest := DataFrom(obj, fixups, regions.labelTypes, addr, len, bytesInLine);
        Listing(out + rest.out, rest.addr, rest.bytesInLine, rest.labels) == whole
      decreases len
    {
      ghost var labels := regions.labelTypes;
      ghost var rest := DataFrom(obj, fixups, labels, addr, len, bytesInLine);
      var p := PrintPiece(obj, fixups, regions, addr, len, bytesInLine);
      DataFromStep(obj, fixups, labels, addr, len, bytesInLine, p);
      ghost var next := DataFrom(obj, fixups, p.labels, addr + p.size, len - p.size, p.bytesInLine);
      Regrouped(out, rest.out, p.out, next.out);
      out := out + p.out;
      addr := addr + p.size;
      len := len - p.size;
      bytesInLine := p.bytesInLine;
    }
    assert out + [] == out;
  }

  /** `getLen`: the bytes from `addr` up to the region's end, the next
      label above `addr` and the next fixup source above its object
      offset, whichever comes first. The source keeps the fixup iterator
      between calls; as the address only grows, it always stands at the
      first source above the offset, which is what `Above` finds. */
  function SpanLength(reg: Region, obj: ImageObject, labels: map<nat, Type>, fixups: map<nat, nat>, addr: nat): (r: nat)
    requires obj.baseAddress <= addr < reg.End()
    ensures 1 <= r <= reg.End() - addr
    ensures forall k :: k in labels && addr < k ==> addr + r <= k
    ensures forall f :: f in fixups && addr - obj.baseAddress < f ==> addr - obj.baseAddress + r <= f
    ensures r == reg.End() - addr || addr + r in labels || addr - obj.baseAddress + r in fixups
  {
    var toEnd := reg.End() - addr;
    var toLabel := match Above(labels.Keys, addr) case Some(k) => Min2(toEnd, k - addr) case None => toEnd;
    var offset := addr - obj.baseAddress;
    match Above(fixups.Keys, offset)
    case Some(f) => Min2(toLabel, f - offset)
    case None => toLabel
  }

  function Min2(a: nat, b: nat): (r: nat)
    ensures r <= a && r <= b && (r == a || r == b)
  {
    if a < b then a else b
  }

  /** Where a DATA region lies: inside its object's buffer. */
  predicate InObject(reg: Region, obj: ImageObject)
  {
    obj.baseAddress <= reg.address <= reg.End() <= obj.baseAddress + |obj.data|
  }

  /** `printDataTypeRegion` from `addr` on, with `bytesInLine` raw bytes
      open: a label at `addr` ends the open line and is printed as DATA,
      then the stretch up to the next label or fixup is printed. */
  function DataRegionFrom(reg: Region, obj: ImageObject, fixups: map<nat, nat>, labels: map<nat, Type>, addr: nat, bytesInLine: nat): (r: (seq<Directive>, map<nat, Type>))
    requires InObject(reg, obj) && reg.address <= addr <= reg.End() && bytesInLine < 8
    ensures labels.Keys <= r.1.Keys
    decreases reg.End() - addr
  {
    if addr == reg.End() then (CloseQuote(bytesInLine), labels)
    else
      var labelled := addr in labels;
      var head := if labelled then CloseQuote(bytesInLine) + [DataLabel(addr)] else [];
      var len := SpanLength(reg, obj, labels, fixups, addr);
      var l := DataFrom(obj, fixups, labels, addr, len, if labelled then 0 else bytesInLine);
      var rest := DataRegionFrom(reg, obj, fixups, l.labels, l.addr, l.bytesInLine);
      DataFromGrows(obj, fixups, labels, addr, len, if labelled then 0 else bytesInLine);
      (head + l.out + rest.0, rest.1)
  }

  /** The listing of a DATA region assembles back to the region's bytes. */
  lemma {:induction false} DataRegionReassembles(reg: Region, obj: ImageObject, fixups: map<nat, nat>, labels: map<nat, Type>, addr: nat, bytesInLine: nat)
    requires InObject(reg, obj) && reg.address <= addr <= reg.End() && bytesInLine < 8
    ensures AssembledAll(DataRegionFrom(reg, obj, fixups, labels, addr, bytesInLine).0) ==
            obj.data[addr - obj.baseAddress..reg.End() - obj.baseAddress]
    decreases reg.End() - addr
  {
    if addr < reg.End() {
      var len := SpanLength(reg, obj, labels, fixups, addr);
      if addr in labels {
        var head := CloseQuote(bytesInLine) + [DataLabel(addr)];
        LabelQuiet(bytesInLine, addr);
        RegionStepReassembles(reg, obj, fixups, labels, addr, bytesInLine, head, len, 0);
      } else {
        RegionStepReassembles(reg, obj, fixups, labels, addr, bytesInLine, [], len, bytesInLine);
      }
    }
  }

  /** One stretch of `DataRegionReassembles`: the label lines before it
      emit no bytes, the stretch assembles to its bytes, and the rest of
      the region to the rest. */
  lemma {:induction false} RegionStepReassembles(reg: Region, obj: ImageObject, fixups: map<nat, nat>, labels: map<nat, Type>,
                                                 addr: nat, bytesInLine: nat, head: seq<Directive>, len: nat, open: nat)
    requires InObject(reg, obj) && reg.address <= addr < reg.End() && bytesInLine < 8 && open < 8
    requires len == SpanLength(reg, obj, labels, fixups, addr)
    requires head == (if addr in labels then CloseQuote(bytesInLine) + [DataLabel(addr)] else [])
    requires open == (if addr in labels then 0 else bytesInLine)
    requires AssembledAll(head) == []
    ensures AssembledAll(DataRegionFrom(reg, obj, fixups, labels, addr, bytesInLine).0) ==
            obj.data[addr - obj.baseAddress..reg.End() - obj.baseAddress]
    decreases reg.End() - addr, 0
  {
    var at := addr - obj.baseAddress;
    var l := DataFrom(obj, fixups, labels, addr, len, open);
    var rest := DataRegionFrom(reg, obj, fixups, l.labels, l.addr, l.bytesInLine);
    DataRegionReassembles(reg, obj, fixups, l.labels, l.addr, l.bytesInLine);
    DataFromReassembles(obj, fixups, labels, addr, len, open);
    Quiet(head + l.out, head, l.out, obj.data, at, l.addr - obj.baseAddress);
    assert DataRegionFrom(reg, obj, fixups, labels, addr, bytesInLine).0 == head + l.out + rest.0;
    Joined(DataRegionFrom(reg, obj, fixups, labels, addr, bytesInLine).0, head + l.out, rest.0,
           obj.data, at, l.addr - obj.baseAddress, reg.End() - obj.baseAddress);
  }

  /** Every address of the region at or after `addr` that is a label
      when the walk reaches `addr` is printed as a DATA label: the walk
      stops at each label, since `getLen` never runs past one. */
  lemma {:induction false} DataRegionLabels(reg: Region, obj: ImageObject, fixups: map<nat, nat>, labels: map<nat, Type>, addr: nat, bytesInLine: nat, k: nat)
    requires InObject(reg, obj) && reg.address <= addr <= k < reg.End() && bytesInLine < 8
    requires k in labels
    ensures DataLabel(k) in DataRegionFrom(reg, obj, fixups, labels, addr, bytesInLine).0
    decreases reg.End() - addr
  {
    var labelled := addr in labels;
    var head := if labelled then CloseQuote(bytesInLine) + [DataLabel(addr)] else [];
    var len := SpanLength(reg, obj, labels, fixups, addr);
    var l := DataFrom(obj, fixups, labels, addr, len, if labelled then 0 else bytesInLine);
    var rest := DataRegionFrom(reg, obj, fixups, l.labels, l.addr, l.bytesInLine);
    assert DataRegionFrom(reg, obj, fixups, labels, addr, bytesInLine).0 == head + l.out + rest.0;
    if k == addr {
      assert head[|head| - 1] == DataLabel(k);
    } else {
      DataFromGrows(obj, fixups, labels, addr, len, if labelled then 0 else bytesInLine);
      DataRegionLabels(reg, obj, fixups, l.labels, l.addr, l.bytesInLine, k);
      assert rest.0 == (head + l.out + rest.0)[|head + l.out|..];
    }
  }

  /** `printDataTypeRegion(reg, obj, lx, img, anal)`: the region's bytes
      stretch by stretch, with the labels that fall inside it. A region
      that reaches past its object's buffer makes the source read bytes it
      does not guard. */
  method DataRegion(reg: Region, obj: ImageObject, fixups: map<nat, nat>, regions: Regions) returns (r: Result<seq<Directive>>)
    modifies regions
    ensures InObject(reg, obj) ==>
      r.Ok? && (r.value, regions.labelTypes) == DataRegionFrom(reg, obj, fixups, old(regions.labelTypes), reg.address, 0)
    ensures !InObject(reg, obj) ==> r.Err? && regions.labelTypes == old(regions.labelTypes)
    ensures regions.regions == old(regions.regions)
  {
    if !InObject(reg, obj) {
      return Err(Internal("data region reaches past its object"));
    }
    ghost var whole := DataRegionFrom(reg, obj, fixups, regions.labelTypes, reg.address, 0);
    var bytesInLine := 0;
    var addr := reg.address;
    var out := [];
    assert out + whole.0 == whole.0;
    while addr < reg.End()
      invariant reg.address <= addr <= reg.End() && bytesInLine < 8
      invariant regions.regions == old(regions.regions)
      invariant var rest := DataRegionFrom(reg, obj, fixups, regions.labelTypes, addr, bytesInLine);
        (out + rest.0, rest.1) == whole
      decreases reg.End() - addr
    {
      ghost var rest := DataRegionFrom(reg, obj, fixups, regions.labelTypes, addr, bytesInLine);
      var head := [];
      if addr in regions.labelTypes {
        head := CloseQuote(bytesInLine) + [DataLabel(addr)];
        bytesInLine := 0;
      }
      var len := SpanLength(reg, obj, regions.labelTypes, fixups, addr);
      ghost var l := DataFrom(obj, fixups, regions.labelTypes, addr, len, bytesInLine);
      var more;
      more, addr, bytesInLine := DataAfterFixup(obj, fixups, regions, addr, len, bytesInLine);
      ghost var next := DataRegionFrom(reg, obj, fixups, regions.labelTypes, addr, bytesInLine);
      assert rest == (head + more + next.0, next.1);
      Regrouped(out, rest.0, head + more, next.0);
      out := out + (head + more);
    }
    out := out + CloseQuote(bytesInLine);
    r := Ok(out);
  }

  /** The characters one directive writes, a string escaped byte by
      byte as `print_escaped_string` does. */
  method PrintDirective(d: Directive) returns (s: string)
    ensures s == Render(d)
  {
    match d
    case Str(bytes, zt) =>
      var escaped := PrintEscaped(bytes);
      s := (if zt then "\t\t.string \"" else "\t\t.ascii   \"") + escaped + "\"\n";
    case _ =>
      s := Render(d);
  }
}
