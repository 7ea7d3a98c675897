/** The optional symbol map (`symbol_map.h`): the functions list IDA
    copies to a text file, read line by line into names and roles keyed
    by start address. The file arrives as its lines; a file that cannot
    be opened is `None`. */
module SymbolMaps {
  import opened Common
  import opened Text
  import opened Types

  /** One symbol: where it starts, its length, its name and the role the
      name gives it. */
  datatype Properties = Properties(address: nat, size: nat, name: string, kind: Type)

  /** `getFileName(path)`: the path without everything up to and
      including its last '/' or '\\'. */
  function FileName(path: string): (r: string)
    ensures |r| <= |path| && path[|path| - |r|..] == r
    ensures forall i :: 0 <= i < |r| ==> r[i] != '/' && r[i] != '\\'
    ensures |r| < |path| ==> path[|path| - |r| - 1] == '/' || path[|path| - |r| - 1] == '\\'
    decreases |path|
  {
    if |path| == 0 then ""
    else if path[|path| - 1] == '/' || path[|path| - 1] == '\\' then ""
    else FileName(path[..|path| - 1]) + [path[|path| - 1]]
  }

  /** A path with no separator is its own file name. */
  lemma {:induction false} FileNameOfBareName(path: string)
    requires forall i :: 0 <= i < |path| ==> path[i] != '/' && path[i] != '\\'
    ensures FileName(path) == path
    decreases |path|
  {
    if |path| > 0 {
      FileNameOfBareName(path[..|path| - 1]);
      assert path[..|path| - 1] + [path[|path| - 1]] == path;
    }
  }

  /** Whatever leads up to the last separator is dropped: a directory
      part added in front leaves the file name as it was. */
  lemma {:induction false} FileNameDropsDirectory(dir: string, sep: char, name: string)
    requires sep == '/' || sep == '\\'
    ensures FileName(dir + [sep] + name) == FileName(name)
    decreases |name|
  {
    var path := dir + [sep] + name;
    if |name| == 0 {
      assert path[|path| - 1] == sep;
    } else {
      assert path[..|path| - 1] == dir + [sep] + name[..|name| - 1];
      FileNameDropsDirectory(dir, sep, name[..|name| - 1]);
      assert path[|path| - 1] == name[|name| - 1];
    }
  }

  /** `\s` of `std::regex`: space, tab, line feed, vertical tab, form
      feed and carriage return. */
  predicate IsSpace(c: char)
  {
    c == ' ' || c == '\t' || c == '\n' || c == '\r' || c as int == 0x0B || c as int == 0x0C
  }

  /** Every character in `s[i..j]` is a space, or none is. */
  predicate Run(s: string, i: nat, j: nat, space: bool)
    requires i <= j <= |s|
  {
    forall k :: i <= k < j ==> IsSpace(s[k]) == space
  }

  predicate Hexes(s: string, i: nat, j: nat)
    requires i <= j <= |s|
  {
    forall k :: i <= k < j ==> IsHexDigit(s[k])
  }

  /** The map file's pattern `^(\S+)\s+(\S+)\s+([0-9a-fA-F]+)\s+([0-9a-fA-F]+)\s+.*$`
      matches `line` with its four groups at `[0, a)`, `[b, c)`, `[d, e)`
      and `[f, g)`; a space follows the last group. */
  predicate Matches(line: string, a: nat, b: nat, c: nat, d: nat, e: nat, f: nat, g: nat)
  {
    0 < a < b < c < d < e < f < g < |line| &&
    Run(line, 0, a, false) && Run(line, a, b, true) && Run(line, b, c, false) && Run(line, c, d, true) &&
    Hexes(line, d, e) && Run(line, e, f, true) && Hexes(line, f, g) && IsSpace(line[g])
  }

  /** Where the run of spaces (or of non-spaces) from `i` ends. */
  function RunEnd(s: string, i: nat, space: bool): (j: nat)
    requires i <= |s|
    ensures i <= j <= |s| && Run(s, i, j, space)
    ensures j < |s| ==> IsSpace(s[j]) != space
    decreases |s| - i
  {
    if i < |s| && IsSpace(s[i]) == space then RunEnd(s, i + 1, space) else i
  }

  /** A run that ends where the text changes kind is the one `RunEnd` finds. */
  lemma RunEndIs(s: string, i: nat, j: nat, space: bool)
    requires i <= j <= |s| && Run(s, i, j, space)
    requires j < |s| ==> IsSpace(s[j]) != space
    ensures RunEnd(s, i, space) == j
  {
  }

  /** The four captured groups: name, segment, start address and length. */
  datatype Fields = Fields(name: string, segment: string, address: string, size: string)

  /** `std::regex_match(line, m, re)` and its groups. */
  function ParseLine(line: string): (r: Option<Fields>)
    ensures r.Some? ==> |r.value.name| > 0 && AllHex(r.value.address) && AllHex(r.value.size)
  {
    var a := RunEnd(line, 0, false);
    var b := RunEnd(line, a, true);
    var c := RunEnd(line, b, false);
    var d := RunEnd(line, c, true);
    var e := RunEnd(line, d, false);
    var f := RunEnd(line, e, true);
    var g := RunEnd(line, f, false);
    if 0 < a < b < c < d < e < f < g < |line| && Hexes(line, d, e) && Hexes(line, f, g)
    then Some(Fields(line[..a], line[b..c], line[d..e], line[f..g]))
    else None
  }

  /** A line `ParseLine` accepts matches the pattern, with the groups it
      returns. */
  lemma ParseLineSound(line: string)
    requires ParseLine(line).Some?
    ensures exists a: nat, b: nat, c: nat, d: nat, e: nat, f: nat, g: nat ::
      (Matches(line, a, b, c, d, e, f, g) &&
       ParseLine(line).value == Fields(line[..a], line[b..c], line[d..e], line[f..g]))
  {
    var a := RunEnd(line, 0, false);
    var b := RunEnd(line, a, true);
    var c := RunEnd(line, b, false);
    var d := RunEnd(line, c, true);
    var e := RunEnd(line, d, false);
    var f := RunEnd(line, e, true);
    var g := RunEnd(line, f, false);
    assert Matches(line, a, b, c, d, e, f, g);
  }

  /** A line the pattern matches is accepted, with those groups: the
      match is unique, since each group ends where the text changes from
      non-space to space. */
  lemma ParseLineComplete(line: string, a: nat, b: nat, c: nat, d: nat, e: nat, f: nat, g: nat)
    requires Matches(line, a, b, c, d, e, f, g)
    ensures ParseLine(line) == Some(Fields(line[..a], line[b..c], line[d..e], line[f..g]))
  {
    RunEndIs(line, 0, a, false);
    RunEndIs(line, a, b, true);
    RunEndIs(line, b, c, false);
    RunEndIs(line, c, d, true);
    assert !IsSpace(line[e - 1]) by { assert IsHexDigit(line[e - 1]); }
    assert Run(line, d, e, false);
    RunEndIs(line, d, e, false);
    RunEndIs(line, e, f, true);
    assert Run(line, f, g, false);
    RunEndIs(line, f, g, false);
  }

  /** `(uint32_t) std::stol(digits, 0, 16)`: a value past `LONG_MAX`
      throws `std::out_of_range`; the cast keeps the low 32 bits. */
  function HexField(digits: string): (r: Result<nat>)
    requires AllHex(digits)
    ensures r.Ok? <==> ParseDigits(digits) <= LongMax
    ensures r.Err? ==> r.error == NumberOutOfRange
    ensures r.Ok? ==> r.value < U32 && (ParseDigits(digits) < U32 ==> r.value == ParseDigits(digits))
    ensures r.Ok? ==> r.value % 4 == ParseDigits(digits) % 4
  {
    var v := ParseDigits(digits);
    if v > LongMax then Err(NumberOutOfRange) else Ok(Wrap32(v))
  }

  /** The role a symbol's name gives it: "lut_" names a switch table
      when the length is a whole number of 32-bit entries, "sub_" a
      function, "data_" data; a name with none of these is ignored. */
  function Role(name: string, size: nat): (r: Option<Type>)
    ensures r.Some? ==> r.value == Switch || r.value == Function || r.value == Data
    ensures r == Some(Switch) <==> Contains(name, "lut_") && size % 4 == 0
    ensures r.None? <==> !Contains(name, "sub_") && !Contains(name, "data_") && !(Contains(name, "lut_") && size % 4 == 0)
  {
    if Contains(name, "lut_") && size % 4 == 0 then Some(Switch)
    else if Contains(name, "sub_") then Some(Function)
    else if Contains(name, "data_") then Some(Data)
    else None
  }

  /** The markers are tried in order: a "lut_" name whose length is not a
      whole number of entries still counts as a function or data when it
      also holds "sub_" or "data_", and "sub_" wins over "data_". */
  lemma RolePriority(name: string, size: nat)
    ensures Contains(name, "sub_") && !(Contains(name, "lut_") && size % 4 == 0) ==> Role(name, size) == Some(Function)
    ensures Role(name, size) == Some(Data) ==> Contains(name, "data_") && !Contains(name, "sub_")
  {
  }

  /** What one line of the file adds: nothing when the pattern does not
      match or the name has no role, the symbol otherwise; either number
      past `LONG_MAX` is an error even on a line whose name has no role. */
  function LineEntry(line: string): (r: Result<Option<Properties>>)
    ensures ParseLine(line).None? ==> r == Ok(None)
    ensures r.Err? ==> r.error == NumberOutOfRange && ParseLine(line).Some?
    ensures r.Ok? && r.value.Some? ==> var p := r.value.value;
      ParseLine(line).Some? && p.name == ParseLine(line).value.name && |p.name| > 0 &&
      p.address < U32 && p.size < U32 && Role(p.name, p.size) == Some(p.kind)
  {
    match ParseLine(line)
    case None => Ok(None)
    case Some(fields) =>
      var address :- HexField(fields.address);
      var size :- HexField(fields.size);
      match Role(fields.name, size)
      case None => Ok(None)
      case Some(kind) => Ok(Some(Properties(address, size, fields.name, kind)))
  }

  /** What a line's entry stores at `address`. */
  predicate Stores(entry: Result<Option<Properties>>, address: nat)
  {
    entry.Ok? && entry.value.Some? && entry.value.value.address == address
  }

  /** The line gives a symbol at `address`. */
  predicate Gives(line: string, address: nat)
  {
    Stores(LineEntry(line), address)
  }

  /** The map built from the lines' entries in order: each symbol is
      stored at its address, over whatever was there; the first error
      ends the reading. */
  function Collect(entries: seq<Result<Option<Properties>>>): (r: Result<map<nat, Properties>>)
    ensures r.Ok? ==> forall a :: a in r.value ==> r.value[a].address == a
    decreases |entries|
  {
    if |entries| == 0 then Ok(map[])
    else
      var before :- Collect(entries[..|entries| - 1]);
      var entry :- entries[|entries| - 1];
      match entry
      case None => Ok(before)
      case Some(p) => Ok(before[p.address := p])
  }

  /** The entries of the file's lines. */
  function Entries(lines: seq<string>): (r: seq<Result<Option<Properties>>>)
    ensures |r| == |lines| && forall i :: 0 <= i < |lines| ==> r[i] == LineEntry(lines[i])
  {
    seq(|lines|, i requires 0 <= i < |lines| => LineEntry(lines[i]))
  }

  /** The map the constructor's loop builds from the file's lines. */
  function Read(lines: seq<string>): (r: Result<map<nat, Properties>>)
    ensures r.Ok? ==> forall a :: a in r.value ==> r.value[a].address == a && a < U32
  {
    var r := Collect(Entries(lines));
    if r.Ok? then
      assert forall a :: a in r.value ==> r.value[a].address == a && a < U32 by {
        forall a | a in r.value
          ensures r.value[a].address == a && a < U32
        {
          CollectKeepsLast(Entries(lines), a);
        }
      }
      r
    else r
  }

  /** Collecting fails exactly when some entry is an error. */
  lemma {:induction false} CollectFails(entries: seq<Result<Option<Properties>>>)
    ensures Collect(entries).Err? <==> exists i :: 0 <= i < |entries| && entries[i].Err?
    decreases |entries|
  {
    if |entries| > 0 {
      var init := entries[..|entries| - 1];
      CollectFails(init);
      if exists i :: 0 <= i < |entries| && entries[i].Err? {
        var i :| 0 <= i < |entries| && entries[i].Err?;
        if i < |init| {
          assert init[i].Err?;
        }
      }
    }
  }

  /** An address is in the collected map exactly when some entry stores
      a symbol there, and the symbol kept is the last such entry's. */
  lemma {:induction false} CollectHas(entries: seq<Result<Option<Properties>>>, address: nat)
    requires Collect(entries).Ok?
    ensures address in Collect(entries).value <==> exists i :: 0 <= i < |entries| && Stores(entries[i], address)
    decreases |entries|
  {
    if |entries| > 0 {
      var init := entries[..|entries| - 1];
      CollectHas(init, address);
      assert forall i :: 0 <= i < |init| ==> init[i] == entries[i];
    }
  }

  lemma {:induction false} CollectKeepsLast(entries: seq<Result<Option<Properties>>>, address: nat)
    requires Collect(entries).Ok?
    ensures address in Collect(entries).value ==>
      exists i :: (0 <= i < |entries| && Stores(entries[i], address) &&
        entries[i].value.value == Collect(entries).value[address] &&
        forall j :: i < j < |entries| ==> !Stores(entries[j], address))
    decreases |entries|
  {
    if |entries| > 0 {
      var init := entries[..|entries| - 1];
      var last := |entries| - 1;
      CollectKeepsLast(init, address);
      if !Stores(entries[last], address) && address in Collect(entries).value {
        assert address in Collect(init).value;
        var i :| 0 <= i < |init| && Stores(init[i], address) &&
          init[i].value.value == Collect(init).value[address] &&
          forall j :: i < j < |init| ==> !Stores(init[j], address);
        assert Stores(entries[i], address);
      }
    }
  }

  /** Reading fails exactly when some line holds a number out of range. */
  lemma ReadFails(lines: seq<string>)
    ensures Read(lines).Err? <==> exists i :: 0 <= i < |lines| && LineEntry(lines[i]).Err?
  {
    CollectFails(Entries(lines));
  }

  /** An address is in the map exactly when some line gives a symbol
      there, and the symbol kept is the one from the last such line. */
  lemma LastLineWins(lines: seq<string>, address: nat)
    requires Read(lines).Ok?
    ensures address in Read(lines).value <==> exists i :: 0 <= i < |lines| && Gives(lines[i], address)
    ensures address in Read(lines).value ==>
      exists i :: (0 <= i < |lines| && Gives(lines[i], address) &&
        LineEntry(lines[i]).value.value == Read(lines).value[address] &&
        forall j :: i < j < |lines| ==> !Gives(lines[j], address))
  {
    CollectHas(Entries(lines), address);
    CollectKeepsLast(Entries(lines), address);
  }

  /** `SymbolMap`: the symbols by address and the name of the file they
      came from. */
  class SymbolMap {
    var symbols: map<nat, Properties>
    var fileName: string

    /** A map no file has filled. */
    constructor Empty()
      ensures symbols == map[] && fileName == ""
    {
      symbols := map[];
      fileName := "";
    }

    /** `findSymbolName(address)`: the name stored at the address, or ""
        for an address with no symbol. */
    function FindSymbolName(address: nat): (r: string)
      reads this
      ensures address in symbols ==> r == symbols[address].name
      ensures address !in symbols ==> r == ""
    {
      if address in symbols then symbols[address].name else ""
    }
  }

  /** `SymbolMap(path)`: a file that cannot be opened leaves the map and
      the file name empty; otherwise the file name is taken from the path
      and every line is read, in order, into the map. */
  method Load(path: string, file: Option<seq<string>>) returns (r: Result<SymbolMap>)
    ensures file.None? ==> r.Ok? && r.value.symbols == map[] && r.value.fileName == ""
    ensures file.Some? ==> (r.Ok? <==> Read(file.value).Ok?)
    ensures file.Some? && r.Ok? ==> r.value.symbols == Read(file.value).value && r.value.fileName == FileName(path)
    ensures r.Ok? ==> fresh(r.value)
  {
    var m := new SymbolMap.Empty();
    if file.None? {
      return Ok(m);
    }
    m.fileName := FileName(path);
    var lines := file.value;
    ghost var entries := Entries(lines);
    var i := 0;
    while i < |lines|
      invariant i <= |lines|
      invariant Collect(entries[..i]) == Ok(m.symbols)
      invariant m.fileName == FileName(path)
    {
      assert entries[..i + 1][..i] == entries[..i];
      var entry := LineEntry(lines[i]);
      if entry.Err? {
        ReadFails(lines);
        return Err(entry.error);
      }
      if entry.value.Some? {
        m.symbols := m.symbols[entry.value.value.address := entry.value.value];
      }
      i := i + 1;
    }
    assert entries[..i] == entries;
    return Ok(m);
  }

  /** After loading, the name found at an address is the name on the last
      line that gave a symbol there, and "" exactly when no line did:
      names are never empty, so "" cannot be mistaken for a symbol. */
  lemma FoundName(m: SymbolMap, lines: seq<string>, address: nat)
    requires Read(lines).Ok? && m.symbols == Read(lines).value
    ensures m.FindSymbolName(address) == "" <==> forall i :: 0 <= i < |lines| ==> !Gives(lines[i], address)
    ensures m.FindSymbolName(address) != "" ==>
      exists i :: (0 <= i < |lines| && Gives(lines[i], address) &&
        m.FindSymbolName(address) == LineEntry(lines[i]).value.value.name &&
        forall j :: i < j < |lines| ==> !Gives(lines[j], address))
  {
    LastLineWins(lines, address);
    if address in m.symbols {
      var i :| 0 <= i < |lines| && Gives(lines[i], address) &&
        LineEntry(lines[i]).value.value == Read(lines).value[address] &&
        forall j :: i < j < |lines| ==> !Gives(lines[j], address);
      assert |m.FindSymbolName(address)| > 0;
    }
  }
}
