/** String operations the source takes from the C and C++ libraries:
    `strstr`/`std::string::find`, prefix tests, `std::hex` formatting with
    `std::setw`/`std::setfill('0')`, and `strtol(…, 16)`. */
module Text {
  import opened Common

  predicate StartsWith(s: string, p: string)
  {
    |p| <= |s| && s[..|p|] == p
  }

  /** `p` occurs in `s` at index `i`. */
  predicate OccursAt(s: string, p: string, i: nat)
  {
    i + |p| <= |s| && s[i..i + |p|] == p
  }

  /** `s.find(p, from)`: the first occurrence of `p` at or after `from`. */
  function FindFrom(s: string, p: string, from: nat): (r: Option<nat>)
    ensures r.Some? ==> from <= r.value && OccursAt(s, p, r.value)
    ensures r.Some? ==> forall j :: from <= j < r.value ==> !OccursAt(s, p, j)
    ensures r.None? ==> forall j :: from <= j ==> !OccursAt(s, p, j)
    decreases |s| - from
  {
    if from + |p| > |s| then None
    else if s[from..from + |p|] == p then Some(from)
    else FindFrom(s, p, from + 1)
  }

  /** `strstr(s, p) != NULL`. */
  predicate Contains(s: string, p: string)
  {
    FindFrom(s, p, 0).Some?
  }

  predicate IsHexDigit(c: char)
  {
    '0' <= c <= '9' || 'a' <= c <= 'f' || 'A' <= c <= 'F'
  }

  function HexValue(c: char): (v: nat)
    requires IsHexDigit(c)
    ensures v < 16
  {
    if '0' <= c <= '9' then (c - '0') as nat
    else if 'a' <= c <= 'f' then (c - 'a') as nat + 10
    else (c - 'A') as nat + 10
  }

  /** The lower-case digit `std::hex` prints for `d`. */
  function HexDigit(d: nat): (c: char)
    requires d < 16
    ensures IsHexDigit(c) && HexValue(c) == d
    ensures !('A' <= c <= 'F')
  {
    if d < 10 then ('0' as int + d) as char else ('a' as int + d - 10) as char
  }

  predicate AllHex(s: string)
  {
    forall i :: 0 <= i < |s| ==> IsHexDigit(s[i])
  }

  /** The value of a string of hex digits, most significant first. */
  function ParseDigits(s: string): nat
    requires AllHex(s)
  {
    if |s| == 0 then 0 else ParseDigits(s[..|s| - 1]) * 16 + HexValue(s[|s| - 1])
  }

  /** `os << std::hex << v`: lower-case digits, no leading zeros. */
  function Hex(v: nat): (r: string)
    ensures |r| >= 1 && AllHex(r)
    ensures forall i :: 0 <= i < |r| ==> !('A' <= r[i] <= 'F')
  {
    if v < 16 then [HexDigit(v)] else Hex(v / 16) + [HexDigit(v % 16)]
  }

  function Zeros(n: nat): (r: string)
    ensures |r| == n && AllHex(r)
    ensures forall i :: 0 <= i < n ==> r[i] == '0'
  {
    if n == 0 then "" else "0" + Zeros(n - 1)
  }

  /** `os << std::setfill('0') << std::setw(w) << std::hex << v`. */
  function PadHex(v: nat, w: nat): (r: string)
    ensures AllHex(r)
    ensures |r| == if |Hex(v)| < w then w else |Hex(v)|
  {
    if |Hex(v)| < w then Zeros(w - |Hex(v)|) + Hex(v) else Hex(v)
  }

  lemma {:induction false} ParseHexRoundTrip(v: nat)
    ensures ParseDigits(Hex(v)) == v
  {
    if v >= 16 {
      ParseHexRoundTrip(v / 16);
      var h := Hex(v);
      assert h[..|h| - 1] == Hex(v / 16);
    }
  }

  lemma {:induction false} ParseLeadingZeros(n: nat, s: string)
    requires AllHex(s)
    ensures ParseDigits(Zeros(n) + s) == ParseDigits(s)
    decreases |s|
  {
    var t := Zeros(n) + s;
    if |s| == 0 {
      assert t == Zeros(n);
      ParseZeros(n);
    } else {
      assert t[..|t| - 1] == Zeros(n) + s[..|s| - 1];
      ParseLeadingZeros(n, s[..|s| - 1]);
    }
  }

  lemma {:induction false} ParseZeros(n: nat)
    ensures ParseDigits(Zeros(n)) == 0
  {
    if n > 0 {
      var z := Zeros(n);
      assert z[..n - 1] == Zeros(n - 1) by {
        assert forall i :: 0 <= i < n - 1 ==> z[i] == '0';
      }
      ParseZeros(n - 1);
    }
  }

  /** Zero padding does not change the printed value. */
  lemma {:induction false} PadHexRoundTrip(v: nat, w: nat)
    ensures ParseDigits(PadHex(v, w)) == v
  {
    var h := Hex(v);
    ParseHexRoundTrip(v);
    if |h| < w {
      var z := Zeros(w - |h|);
      assert PadHex(v, w) == z + h;
      ParseLeadingZeros(w - |h|, h);
    } else {
      assert PadHex(v, w) == h;
    }
  }

  /** Number of hex digits in `s` starting at `i`. */
  function HexRun(s: string, i: nat): (n: nat)
    requires i <= |s|
    ensures i + n <= |s|
    ensures forall j :: i <= j < i + n ==> IsHexDigit(s[j])
    ensures i + n < |s| ==> !IsHexDigit(s[i + n])
    decreases |s| - i
  {
    if i < |s| && IsHexDigit(s[i]) then 1 + HexRun(s, i + 1) else 0
  }

  /** `LONG_MAX` of the 64-bit targets the source is built for. */
  const LongMax: nat := 0x7fff_ffff_ffff_ffff

  /** A run of `n` hex digits from `i`, ended by the string's end or a
      non-digit, is what `HexRun` measures. */
  lemma {:induction false} HexRunExact(s: string, i: nat, n: nat)
    requires i + n <= |s| && forall j :: i <= j < i + n ==> IsHexDigit(s[j])
    requires i + n == |s| || !IsHexDigit(s[i + n])
    ensures HexRun(s, i) == n
    decreases n
  {
    if n > 0 {
      HexRunExact(s, i + 1, n - 1);
    }
  }

  /** `(uint32_t) strtol(s, NULL, 16)` for a string that starts with its
      number: an optional sign, an optional `0x`/`0X` prefix, then the
      leading hex digits; a value outside the range of `long` saturates,
      and the cast keeps the low 32 bits. */
  function StrToHex32(s: string): (r: nat)
    ensures r < U32
  {
    var signed := |s| > 0 && (s[0] == '-' || s[0] == '+');
    var at := if signed then 1 else 0;
    var skip := if |s| >= at + 2 && s[at] == '0' && (s[at + 1] == 'x' || s[at + 1] == 'X') then at + 2 else at;
    var n := HexRun(s, skip);
    assert AllHex(s[skip..skip + n]);
    var v := ParseDigits(s[skip..skip + n]);
    if signed && s[0] == '-' then Wrap32(0 - (if v > LongMax + 1 then LongMax + 1 else v) as int)
    else Wrap32(if v > LongMax then LongMax else v)
  }

  /** What `printAddress` writes for a 32-bit address, "0x" and its hex
      digits, reads back through `strtol`. */
  lemma PrintedHexReadsBack(digits: string, v: nat)
    requires |digits| > 0 && AllHex(digits) && ParseDigits(digits) == v && v < U32
    ensures StrToHex32("0x" + digits) == v
  {
    var s := "0x" + digits;
    assert s[0] == '0' && s[1] == 'x';
    HexRunExact(s, 2, |digits|);
    assert s[2..|s|] == digits;
  }
}
