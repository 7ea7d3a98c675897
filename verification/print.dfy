/** The listing printer (`print.h`): the rewriting of address literals in
    decoded instruction text, the fixes applied to the decoder's text, the
    SWITCH table printer, the section switch and the per-region dispatch. */
module Printer {
  import opened Common
  import opened Text
  import opened Types
  import opened ImageObjects
  import opened Images
  import opened OrderedKeys
  import opened RegionValues
  import opened RegionMaps
  import opened PrintData
  import TraceRules

  /** The comment `replace_addresses_with_labels` appends once when a
      literal that is printed as a plain address is a fixup destination. */
  const Warning: string := " /* Warning: address points to a valid object/reloc, but no label found */"

  /** What an address literal becomes: the typed label name when the
      address has a label and the literal does not follow a '-' (a
      displacement), the address re-printed as `0x` and at least six hex
      digits otherwise. */
  function LiteralText(address: nat, minus: bool, labels: map<nat, Type>): string
  {
    if !minus && address in labels then TypedAddress(address, labels[address])
    else PrintAddress("0x", address)
  }

  /** Whichever form it takes, the text of a literal names its address:
      a label name carries the address in its digits and the role of the
      label in its suffix; a plain address reads back through `strtol`. */
  lemma LiteralNamesAddress(address: nat, minus: bool, labels: map<nat, Type>)
    requires address < U32
    ensures var r := LiteralText(address, minus, labels);
      if !minus && address in labels then
        var d := HexRun(r, 1);
        StartsWith(r, "_") && 1 + d < |r| && ParseDigits(r[1..1 + d]) == address &&
        r[1 + d..] == Suffix(labels[address])
      else
        StartsWith(r, "0x") && StrToHex32(r) == address && |r| >= 8
  {
    var r := LiteralText(address, minus, labels);
    if !minus && address in labels {
      TypedAddressReadsBack(address, labels[address]);
    } else {
      PrintedHexReadsBack(r[2..], address);
      assert r == "0x" + r[2..];
    }
  }

  /** A literal is flagged when it is printed as a plain address that is a
      fixup destination. */
  predicate Flagged(address: nat, minus: bool, labels: map<nat, Type>, fixupAddresses: set<nat>)
  {
    (minus || address !in labels) && address in fixupAddresses
  }

  /** The literal whose `0x` is at `n`: the address its digits spell,
      whether a '-' comes before it, where its digits end and whether it
      draws the warning. A flagged literal whose address no object holds
      makes `objectAt` throw. */
  datatype Rewrite = Rewrite(address: nat, minus: bool, end: nat, flagged: bool)

  function RewriteAt(str: string, labels: map<nat, Type>, fixupAddresses: set<nat>, objects: seq<ImageObject>, n: nat): (r: Result<Rewrite>)
    requires 0 < n && n + 2 < |str|
    ensures r.Ok? ==> n + 2 <= r.value.end <= |str|
  {
    var end := n + 2 + HexRun(str, n + 2);
    var address := StrToHex32(str[n + 2..end]);
    var minus := str[n - 1] == '-';
    var flagged := Flagged(address, minus, labels, fixupAddresses);
    if flagged && ObjectAt(objects, address).Err? then Err(ObjectAt(objects, address).error)
    else Ok(Rewrite(address, minus, end, flagged))
  }

  function Commented(s: string, comment: bool): string
  {
    if comment then s + Warning else s
  }

  /** The output of `replace_addresses_with_labels` from the `0x` at `n`
      on, where the text not yet copied starts at `start` and `comment`
      says whether the warning is pending. A `0x` at index 0 makes the
      source read the character before the text (`substr` throws); a `0x`
      that ends the text is copied as it stands. */
  function ReplaceFrom(str: string, labels: map<nat, Type>, fixupAddresses: set<nat>, objects: seq<ImageObject>,
                       n: nat, start: nat, comment: bool): (r: Result<string>)
    requires start <= n && OccursAt(str, "0x", n)
    ensures n == 0 ==> r.Err?
    ensures r.Ok? ==> StartsWith(r.value, str[start..n])
    decreases |str| - n, 1
  {
    if n == 0 then Err(Internal("substr before the start of the text"))
    else if n + 2 >= |str| then
      CommentedLeads(str, start, n, comment);
      Ok(Commented(str[start..], comment))
    else ReplaceStep(str, labels, fixupAddresses, objects, n, start, comment)
  }

  /** One literal of `ReplaceFrom`: it is rewritten and the scan goes on
      from the next `0x` after its digits. */
  function ReplaceStep(str: string, labels: map<nat, Type>, fixupAddresses: set<nat>, objects: seq<ImageObject>,
                       n: nat, start: nat, comment: bool): (r: Result<string>)
    requires start <= n && 0 < n && n + 2 < |str|
    ensures RewriteAt(str, labels, fixupAddresses, objects, n).Err? ==> r.Err?
    ensures r.Ok? ==> StartsWith(r.value, str[start..n])
    decreases |str| - n, 0
  {
    var w :- RewriteAt(str, labels, fixupAddresses, objects, n);
    var head := str[start..n] + LiteralText(w.address, w.minus, labels);
    var r := match FindFrom(str, "0x", w.end)
      case None => Ok(head + Commented(str[w.end..], comment || w.flagged))
      case Some(next) => Prefixed(head, ReplaceFrom(str, labels, fixupAddresses, objects, next, w.end, comment || w.flagged));
    HeadLeads(r, head, str[start..n], LiteralText(w.address, w.minus, labels), Commented(str[w.end..], comment || w.flagged));
    r
  }

  /** The text before a `0x` that ends the text is written first. */
  lemma CommentedLeads(str: string, start: nat, n: nat, comment: bool)
    requires start <= n <= |str|
    ensures StartsWith(Commented(str[start..], comment), str[start..n])
  {
    assert Commented(str[start..], comment)[..n - start] == str[start..n];
  }

  /** An output that starts with `head` (or is `head` and `tail`) starts
      with the text copied before the literal. */
  lemma HeadLeads(r: Result<string>, head: string, copied: string, literal: string, tail: string)
    requires head == copied + literal
    ensures r.Ok? && (StartsWith(r.value, head) || r.value == head + tail) ==> StartsWith(r.value, copied)
  {
    if r.Ok? && (StartsWith(r.value, head) || r.value == head + tail) {
      assert r.value[..|head|] == head;
      assert head[..|copied|] == copied;
    }
  }

  /** A result with `out` written before it; a failure stays a failure. */
  function Prefixed(out: string, r: Result<string>): (p: Result<string>)
    ensures p.Ok? <==> r.Ok?
    ensures p.Ok? ==> StartsWith(p.value, out) && p.value[|out|..] == r.value
  {
    if r.Ok? then (assert (out + r.value)[|out|..] == r.value; Ok(out + r.value)) else r
  }

  lemma PrefixedTwice(out: string, head: string, r: Result<string>)
    ensures Prefixed(out, Prefixed(head, r)) == Prefixed(out + head, r)
  {
    if r.Ok? {
      assert out + (head + r.value) == (out + head) + r.value;
    }
  }

  lemma PrefixedNothing(r: Result<string>)
    ensures Prefixed("", r) == r
  {
    if r.Ok? {
      assert "" + r.value == r.value;
    }
  }

  /** The step of `ReplaceFrom` over a literal the rewrite of which fails. */
  lemma StepFails(str: string, labels: map<nat, Type>, fixupAddresses: set<nat>, objects: seq<ImageObject>,
                  n: nat, start: nat, comment: bool)
    requires start <= n && 0 < n && n + 2 < |str| && OccursAt(str, "0x", n)
    requires RewriteAt(str, labels, fixupAddresses, objects, n).Err?
    ensures ReplaceFrom(str, labels, fixupAddresses, objects, n, start, comment) == Err(RewriteAt(str, labels, fixupAddresses, objects, n).error)
  {
  }

  /** The step of `ReplaceFrom` over the last literal. */
  lemma StepLast(str: string, labels: map<nat, Type>, fixupAddresses: set<nat>, objects: seq<ImageObject>,
                 n: nat, start: nat, comment: bool, w: Rewrite)
    requires start <= n && 0 < n && n + 2 < |str| && OccursAt(str, "0x", n)
    requires RewriteAt(str, labels, fixupAddresses, objects, n) == Ok(w) && FindFrom(str, "0x", w.end).None?
    ensures ReplaceFrom(str, labels, fixupAddresses, objects, n, start, comment) ==
      Ok(str[start..n] + LiteralText(w.address, w.minus, labels) + Commented(str[w.end..], comment || w.flagged))
  {
  }

  /** The step of `ReplaceFrom` over a literal followed by another `0x`. */
  lemma StepNext(str: string, labels: map<nat, Type>, fixupAddresses: set<nat>, objects: seq<ImageObject>,
                 n: nat, start: nat, comment: bool, w: Rewrite, next: nat)
    requires start <= n && 0 < n && n + 2 < |str| && OccursAt(str, "0x", n)
    requires RewriteAt(str, labels, fixupAddresses, objects, n) == Ok(w) && FindFrom(str, "0x", w.end) == Some(next)
    ensures w.end <= next && OccursAt(str, "0x", next)
    ensures ReplaceFrom(str, labels, fixupAddresses, objects, n, start, comment) ==
      Prefixed(str[start..n] + LiteralText(w.address, w.minus, labels), ReplaceFrom(str, labels, fixupAddresses, objects, next, w.end, comment || w.flagged))
  {
  }

  /** `replace_addresses_with_labels(str, img, lx, anal)`: every `0x`
      literal of the decoded text rewritten, and the warning appended
      when a flagged literal was seen. A text without `0x` comes back
      unchanged. */
  function Replaced(str: string, labels: map<nat, Type>, fixupAddresses: set<nat>, objects: seq<ImageObject>): (r: Result<string>)
    ensures FindFrom(str, "0x", 0).None? ==> r == Ok(str)
  {
    match FindFrom(str, "0x", 0)
    case None => Ok(str)
    case Some(n) => ReplaceFrom(str, labels, fixupAddresses, objects, n, 0, false)
  }

  /** `replace_addresses_with_labels` as the source writes it: when the
      last `0x` ends the text, the loop breaks before `start` moves up to
      it, so the text from `start` to the `0x`, already written, is
      written a second time. */
  function ReplaceFromAsWritten(str: string, labels: map<nat, Type>, fixupAddresses: set<nat>, objects: seq<ImageObject>,
                                n: nat, start: nat, comment: bool): (r: Result<string>)
    requires start <= n && OccursAt(str, "0x", n)
    ensures r.Ok? <==> ReplaceFrom(str, labels, fixupAddresses, objects, n, start, comment).Ok?
    decreases |str| - n
  {
    if n == 0 then Err(Internal("substr before the start of the text"))
    else if n + 2 >= |str| then Ok(str[start..n] + Commented(str[start..], comment))
    else
      var w :- RewriteAt(str, labels, fixupAddresses, objects, n);
      var head := str[start..n] + LiteralText(w.address, w.minus, labels);
      match FindFrom(str, "0x", w.end)
      case None => Ok(head + Commented(str[w.end..], comment || w.flagged))
      case Some(next) =>
        var rest :- ReplaceFromAsWritten(str, labels, fixupAddresses, objects, next, w.end, comment || w.flagged);
        Ok(head + rest)
  }

  function ReplacedAsWritten(str: string, labels: map<nat, Type>, fixupAddresses: set<nat>, objects: seq<ImageObject>): (r: Result<string>)
    ensures r.Ok? <==> Replaced(str, labels, fixupAddresses, objects).Ok?
    ensures FindFrom(str, "0x", 0).None? ==> r == Ok(str)
  {
    match FindFrom(str, "0x", 0)
    case None => Ok(str)
    case Some(n) => ReplaceFromAsWritten(str, labels, fixupAddresses, objects, n, 0, false)
  }

  /** A text whose only `0x` ends it comes back doubled up to that `0x`
      from the code as written, and unchanged from the corrected code. */
  lemma TrailingPrefixDoubled(str: string, labels: map<nat, Type>, fixupAddresses: set<nat>, objects: seq<ImageObject>, n: nat)
    requires FindFrom(str, "0x", 0) == Some(n) && 0 < n && n + 2 == |str|
    ensures ReplacedAsWritten(str, labels, fixupAddresses, objects) == Ok(str[..n] + str)
    ensures Replaced(str, labels, fixupAddresses, objects) == Ok(str)
  {
    assert str[0..] == str;
    assert ReplaceFromAsWritten(str, labels, fixupAddresses, objects, n, 0, false) == Ok(str[..n] + str);
    assert ReplaceFrom(str, labels, fixupAddresses, objects, n, 0, false) == Ok(str);
  }

  /** The shortest such text: "ab0x" becomes "abab0x". */
  lemma TrailingPrefixExample(labels: map<nat, Type>, fixupAddresses: set<nat>, objects: seq<ImageObject>)
    ensures ReplacedAsWritten("ab0x", labels, fixupAddresses, objects) == Ok("abab0x")
    ensures Replaced("ab0x", labels, fixupAddresses, objects) == Ok("ab0x")
  {
    var s := "ab0x";
    assert s[0] == 'a' && s[1] == 'b' && s[2..4] == "0x";
    assert s[0..2] != "0x" && s[1..3] != "0x";
    assert FindFrom(s, "0x", 2) == Some(2);
    assert FindFrom(s, "0x", 1) == Some(2);
    assert FindFrom(s, "0x", 0) == Some(2);
    TrailingPrefixDoubled(s, labels, fixupAddresses, objects, 2);
    assert s[..2] + s == "abab0x";
  }

  predicate EndsWith(s: string, p: string)
  {
    |p| <= |s| && s[|s| - |p|..] == p
  }

  lemma EndsWithAppend(a: string, b: string, p: string)
    requires EndsWith(b, p)
    ensures EndsWith(a + b, p)
  {
    assert (a + b)[|a + b| - |p|..] == b[|b| - |p|..];
  }

  lemma CommentedEnds(s: string)
    ensures EndsWith(Commented(s, true), Warning)
  {
    assert (s + Warning)[|s|..] == Warning;
  }

  /** Once the warning is pending, a successful rewrite ends with it. */
  lemma {:induction false} WarningKept(str: string, labels: map<nat, Type>, fixupAddresses: set<nat>, objects: seq<ImageObject>,
                                       n: nat, start: nat)
    requires start <= n && OccursAt(str, "0x", n)
    ensures var r := ReplaceFrom(str, labels, fixupAddresses, objects, n, start, true);
      r.Ok? ==> EndsWith(r.value, Warning)
    decreases |str| - n
  {
    if 0 < n && n + 2 >= |str| {
      CommentedEnds(str[start..]);
    } else if 0 < n {
      var wr := RewriteAt(str, labels, fixupAddresses, objects, n);
      if wr.Ok? {
        var w := wr.value;
        var head := str[start..n] + LiteralText(w.address, w.minus, labels);
        match FindFrom(str, "0x", w.end)
        case None =>
          StepLast(str, labels, fixupAddresses, objects, n, start, true, w);
          CommentedEnds(str[w.end..]);
          EndsWithAppend(head, Commented(str[w.end..], true), Warning);
        case Some(next) =>
          StepNext(str, labels, fixupAddresses, objects, n, start, true, w, next);
          WarningKept(str, labels, fixupAddresses, objects, next, w.end);
          var rest := ReplaceFrom(str, labels, fixupAddresses, objects, next, w.end, true);
          if rest.Ok? {
            EndsWithAppend(head, rest.value, Warning);
          }
      }
    }
  }

  /** The first literal of a text: after the text before it comes its
      rewritten form, and a flagged first literal puts the warning at the
      end of the result. When the first literal cannot be rewritten,
      neither can the text. */
  lemma FirstLiteral(str: string, labels: map<nat, Type>, fixupAddresses: set<nat>, objects: seq<ImageObject>, n: nat)
    requires FindFrom(str, "0x", 0) == Some(n) && 0 < n && n + 2 < |str|
    ensures var w := RewriteAt(str, labels, fixupAddresses, objects, n);
      var r := Replaced(str, labels, fixupAddresses, objects);
      (w.Err? ==> r == Err(w.error)) &&
      (r.Ok? ==> w.Ok? && StartsWith(r.value, str[..n] + LiteralText(w.value.address, w.value.minus, labels))) &&
      (r.Ok? && w.value.flagged ==> EndsWith(r.value, Warning))
  {
    assert Replaced(str, labels, fixupAddresses, objects) == ReplaceFrom(str, labels, fixupAddresses, objects, n, 0, false);
    var wr := RewriteAt(str, labels, fixupAddresses, objects, n);
    if wr.Err? {
      StepFails(str, labels, fixupAddresses, objects, n, 0, false);
    } else {
      HeadKept(str, labels, fixupAddresses, objects, n, 0, false, wr.value);
      assert str[0..n] == str[..n];
    }
  }

  /** A literal rewritten from `start` on: the output starts with the
      text before it and its new text, and ends with the warning when one
      is pending or the literal is flagged. */
  lemma HeadKept(str: string, labels: map<nat, Type>, fixupAddresses: set<nat>, objects: seq<ImageObject>,
                 n: nat, start: nat, comment: bool, w: Rewrite)
    requires start <= n && 0 < n && n + 2 < |str| && OccursAt(str, "0x", n)
    requires RewriteAt(str, labels, fixupAddresses, objects, n) == Ok(w)
    ensures var r := ReplaceFrom(str, labels, fixupAddresses, objects, n, start, comment);
      r.Ok? ==> StartsWith(r.value, str[start..n] + LiteralText(w.address, w.minus, labels)) &&
                (comment || w.flagged ==> EndsWith(r.value, Warning))
  {
    var head := str[start..n] + LiteralText(w.address, w.minus, labels);
    match FindFrom(str, "0x", w.end)
    case None =>
      StepLast(str, labels, fixupAddresses, objects, n, start, comment, w);
      var tail := Commented(str[w.end..], comment || w.flagged);
      assert (head + tail)[..|head|] == head;
      if comment || w.flagged {
        CommentedEnds(str[w.end..]);
        EndsWithAppend(head, tail, Warning);
      }
    case Some(next) =>
      StepNext(str, labels, fixupAddresses, objects, n, start, comment, w, next);
      if comment || w.flagged {
        WarningKept(str, labels, fixupAddresses, objects, next, w.end);
        var rest := ReplaceFrom(str, labels, fixupAddresses, objects, next, w.end, true);
        if rest.Ok? {
          EndsWithAppend(head, rest.value, Warning);
        }
      }
  }

  /** The literal at `n` spans every hex digit after its `0x`, its
      address is what `strtol` reads from them, and the rewrite fails
      exactly when it is flagged and no object holds that address. */
  lemma LiteralSpan(str: string, labels: map<nat, Type>, fixupAddresses: set<nat>, objects: seq<ImageObject>, n: nat)
    requires 0 < n && n + 2 < |str|
    ensures var w := RewriteAt(str, labels, fixupAddresses, objects, n);
      var end := n + 2 + HexRun(str, n + 2);
      var address := StrToHex32(str[n + 2..end]);
      var minus := str[n - 1] == '-';
      (forall j :: n + 2 <= j < end ==> IsHexDigit(str[j])) && (end < |str| ==> !IsHexDigit(str[end])) &&
      (w.Err? <==> Flagged(address, minus, labels, fixupAddresses) && ObjectAt(objects, address).Err?) &&
      (w.Ok? ==> w.value == Rewrite(address, minus, end, Flagged(address, minus, labels, fixupAddresses)))
  {
  }

  /** The inner loop of `replace_addresses_with_labels`: the hex digits
      after the `0x` at `n`, read with `strtol`, and the literal's new
      text; `objectAt` is asked only for a flagged literal. */
  method LiteralAt(str: string, labels: map<nat, Type>, fixupAddresses: set<nat>, objects: seq<ImageObject>, n: nat)
    returns (r: Result<Rewrite>)
    requires 0 < n && n + 2 < |str|
    ensures r == RewriteAt(str, labels, fixupAddresses, objects, n)
  {
    var minus := str[n - 1] == '-';
    var start: nat := n + 2;
    var end: nat := start;
    while end < |str| && IsHexDigit(str[end])
      invariant start <= end <= |str| && forall j :: start <= j < end ==> IsHexDigit(str[j])
      decreases |str| - end
    {
      end := end + 1;
    }
    HexRunExact(str, start, end - start);
    assert end == n + 2 + HexRun(str, n + 2);
    var address := StrToHex32(str[start..end]);
    assert minus == (str[n - 1] == '-');
    var flagged := Flagged(address, minus, labels, fixupAddresses);
    if flagged {
      var o := ObjectAt(objects, address);
      if o.Err? {
        return Err(o.error);
      }
    }
    RewriteAtIs(str, labels, fixupAddresses, objects, n, end, address, minus);
    return Ok(Rewrite(address, minus, end, flagged));
  }

  lemma Cut(s: string, lo: nat, mid: nat, comment: bool)
    requires lo <= mid <= |s|
    ensures Commented(s[lo..], comment) == s[lo..mid] + Commented(s[mid..], comment)
  {
    assert s[lo..] == s[lo..mid] + s[mid..];
  }

  lemma Rest(out: string, s: string, start: nat, comment: bool, written: string)
    requires start <= |s| && written == if start < |s| then out + s[start..] else out
    ensures Commented(written, comment) == out + Commented(s[start..], comment)
  {
    if start == |s| {
      assert s[start..] == [];
    }
    if comment {
      assert (out + s[start..]) + Warning == out + (s[start..] + Warning);
    }
  }

  lemma RewriteAtIs(str: string, labels: map<nat, Type>, fixupAddresses: set<nat>, objects: seq<ImageObject>, n: nat,
                    end: nat, address: nat, minus: bool)
    requires 0 < n && n + 2 < |str|
    requires end == n + 2 + HexRun(str, n + 2) && address == StrToHex32(str[n + 2..end]) && minus == (str[n - 1] == '-')
    requires !(Flagged(address, minus, labels, fixupAddresses) && ObjectAt(objects, address).Err?)
    ensures RewriteAt(str, labels, fixupAddresses, objects, n) ==
      Ok(Rewrite(address, minus, end, Flagged(address, minus, labels, fixupAddresses)))
  {
  }

  /** `replace_addresses_with_labels` as a scanning loop over `n` and
      `start` that builds the output text. */
  method ReplaceAddresses(str: string, labels: map<nat, Type>, fixupAddresses: set<nat>, objects: seq<ImageObject>)
    returns (r: Result<string>)
    ensures r == Replaced(str, labels, fixupAddresses, objects)
  {
    var found := FindFrom(str, "0x", 0);
    if found.None? {
      return Ok(str);
    }
    ghost var whole := Replaced(str, labels, fixupAddresses, objects);
    var n: nat := found.value;
    var start: nat := 0;
    var comment := false;
    var out := "";
    PrefixedNothing(ReplaceFrom(str, labels, fixupAddresses, objects, n, start, comment));
    while true
      invariant start <= n && OccursAt(str, "0x", n)
      invariant whole == Prefixed(out, ReplaceFrom(str, labels, fixupAddresses, objects, n, start, comment))
      decreases |str| - n
    {
      if n == 0 {
        return Err(Internal("substr before the start of the text"));
      }
      if n + 2 >= |str| {
        assert ReplaceFrom(str, labels, fixupAddresses, objects, n, start, comment) == Ok(Commented(str[start..], comment));
        Cut(str, start, n, comment);
        PrefixedTwice(out, str[start..n], Ok(Commented(str[n..], comment)));
        out := out + str[start..n];
        start := n;
        assert start <= |str| && whole == Ok(out + Commented(str[start..], comment));
        break;
      }
      var w := LiteralAt(str, labels, fixupAddresses, objects, n);
      if w.Err? {
        StepFails(str, labels, fixupAddresses, objects, n, start, comment);
        return Err(w.error);
      }
      var head := str[start..n] + LiteralText(w.value.address, w.value.minus, labels);
      var next := FindFrom(str, "0x", w.value.end);
      if next.None? {
        StepLast(str, labels, fixupAddresses, objects, n, start, comment, w.value);
        PrefixedTwice(out, head, Ok(Commented(str[w.value.end..], comment || w.value.flagged)));
        out := out + head;
        start := w.value.end;
        comment := comment || w.value.flagged;
        assert start <= |str| && whole == Ok(out + Commented(str[start..], comment));
        break;
      }
      StepNext(str, labels, fixupAddresses, objects, n, start, comment, w.value, next.value);
      PrefixedTwice(out, head, ReplaceFrom(str, labels, fixupAddresses, objects, next.value, w.value.end, comment || w.value.flagged));
      out := out + head;
      start := w.value.end;
      comment := comment || w.value.flagged;
      n := next.value;
    }
    ghost var before := out;
    if start < |str| {
      out := out + str[start..];
    }
    Rest(before, str, start, comment, out);
    if comment {
      out := out + Warning;
    }
    return Ok(out);
  }

  /** The four decoder outputs `print_instruction` corrects, each with the
      text it is replaced by: a 16-bit source register the assembler
      would reject, and a `%eiz` index that encodes nothing. */
  const Misdecoded: map<string, string> := map[
    "lar    %cx,%ecx" := "lar    %ecx,%ecx",
    "lsl    %ax,%eax" := "lsl    %eax,%eax",
    "lea    0x000000(%eax,%eiz,1),%eax" := "lea    0x000000(%eax),%eax",
    "lea    0x000000(%edx,%eiz,1),%edx" := "lea    0x000000(%edx),%edx"]

  /** The text with the decoder's known mistakes corrected: a misdecoded
      text is replaced, any other text is kept, and no correction is
      itself misdecoded. */
  function Corrected(s: string): (r: string)
    ensures s !in Misdecoded ==> r == s
    ensures s in Misdecoded ==> r != s
    ensures r !in Misdecoded
  {
    if s in Misdecoded then Misdecoded[s] else s
  }

  /** Correcting twice corrects no more than once, and a correction keeps
      the mnemonic (the first seven characters). */
  lemma CorrectedIdempotent(s: string)
    ensures Corrected(Corrected(s)) == Corrected(s)
    ensures |s| >= 7 ==> |Corrected(s)| >= 7 && Corrected(s)[..7] == s[..7]
  {
  }

  /** The operand-size and address-size prefixes the decoder prints on a
      line of their own. */
  predicate IsPrefix(s: string)
  {
    s == "data16" || s == "data32"
  }

  /** What `print_instruction` writes for the rewritten text `s`: an
      x87 instruction of the 80287 only becomes a comment, a prefix is
      followed by a space so that the next instruction completes its
      line, anything else is corrected and ends its line. */
  function InstructionLine(s: string): (r: string)
    ensures |r| > 2 && StartsWith(r, "\t\t") && (r[|r| - 1] == '\n' || r[|r| - 1] == ' ')
  {
    if Contains(s, "(287 only)") then "\t\t/* " + s + " -- ignored */\n"
    else "\t\t" + Corrected(s) + (if IsPrefix(Corrected(s)) then " " else "\n")
  }

  /** Every instruction line is indented by two tabs. It ends with a
      newline, unless the text is a prefix, which ends with a space. An
      80287-only instruction is kept whole inside a comment, and any other
      text appears corrected. */
  lemma InstructionLineShape(s: string)
    ensures var r := InstructionLine(s);
      StartsWith(r, "\t\t") &&
      (r[|r| - 1] == '\n' <==> !IsPrefix(s)) && (r[|r| - 1] == ' ' <==> IsPrefix(s)) &&
      (Contains(s, "(287 only)") ==> StartsWith(r, "\t\t/* ") && r[5..5 + |s|] == s && EndsWith(r, " -- ignored */\n")) &&
      (!Contains(s, "(287 only)") ==> r[2..2 + |Corrected(s)|] == Corrected(s))
  {
    var r := InstructionLine(s);
    if Contains(s, "(287 only)") {
      assert |s| >= 10 by {
        assert OccursAt(s, "(287 only)", FindFrom(s, "(287 only)", 0).value);
      }
      assert r == "\t\t/* " + s + " -- ignored */\n";
      assert r[5..5 + |s|] == s;
      assert r[|r| - |" -- ignored */\n"|..] == " -- ignored */\n";
    } else {
      assert IsPrefix(Corrected(s)) == IsPrefix(s);
      var c := Corrected(s);
      assert r == "\t\t" + c + (if IsPrefix(c) then " " else "\n");
      assert r[2..2 + |c|] == c;
    }
  }

  /** `print_instruction(inst, img, lx, anal)`: the decoded text with its
      address literals rewritten, written as one instruction line. */
  function PrintInstruction(text: string, labels: map<nat, Type>, fixupAddresses: set<nat>, objects: seq<ImageObject>): (r: Result<string>)
    ensures r.Ok? <==> Replaced(text, labels, fixupAddresses, objects).Ok?
    ensures r.Ok? ==> r.value == InstructionLine(Replaced(text, labels, fixupAddresses, objects).value)
  {
    var s :- Replaced(text, labels, fixupAddresses, objects);
    Ok(InstructionLine(s))
  }

  /** One line of a SWITCH listing. */
  datatype SwitchLine =
    | LabelLine(address: nat, role: Type)   // a label inside or at the head of the table
    | Entry(target: nat, role: Type)        // a non-zero entry, printed as the label of its target
    | ZeroEntry                             // a zero entry
    | Blank                                 // the empty line after the table

  /** The characters a SWITCH line writes. */
  function RenderSwitch(l: SwitchLine): string
  {
    match l
    case LabelLine(address, role) => Label(address, role, "") + "\n"
    case Entry(target, role) => "\t\t.long   " + TypedAddress(target, role) + "\n"
    case ZeroEntry => "\t\t.long   0\n"
    case Blank => "\n"
  }

  /** The label the table walk is waiting for (`next_label`) is a key of
      the label map, or there is none. */
  predicate NextLabel(next: Option<nat>, labels: map<nat, Type>)
  {
    next.Some? ==> next.value in labels
  }

  /** One table entry `w` read at `addr`: a zero entry is printed as 0; a
      non-zero one that points above `addr` is labelled CASE first, and is
      printed as the label of its target, which `operator[]` creates as
      UNKNOWN when it is missing. */
  function EntryLine(labels: map<nat, Type>, addr: nat, w: nat): (r: (SwitchLine, map<nat, Type>))
    ensures w == 0 ==> r == (ZeroEntry, labels)
    ensures w != 0 ==> w in r.1 && r.0 == Entry(w, r.1[w]) && r.1.Keys == labels.Keys + {w}
    ensures w != 0 && addr < w ==> r.1 == labels[w := Case]
    ensures w != 0 && addr >= w ==> r.1 == Subscript(labels, w)
  {
    if w == 0 then (ZeroEntry, labels)
    else
      var ls := Subscript(if addr < w then labels[w := Case] else labels, w);
      (Entry(w, ls[w]), ls)
  }

  /** `printSwitchTypeRegion` from `addr` on, waiting for the label
      `next`: the listing and the label map it leaves. A table entry past
      the object's bytes is a read the source does not guard. */
  function SwitchFrom(obj: ImageObject, end: nat, labels: map<nat, Type>, addr: nat, next: Option<nat>): (r: Result<(seq<SwitchLine>, map<nat, Type>)>)
    requires NextLabel(next, labels)
    ensures r.Ok? ==> labels.Keys <= r.value.1.Keys
    ensures addr < end && !(obj.baseAddress <= addr && addr + 4 <= obj.baseAddress + |obj.data|) ==> r.Err?
    decreases end - addr, 1
  {
    if addr >= end then Ok(([], labels)) else SwitchStep(obj, end, labels, addr, next)
  }

  function SwitchStep(obj: ImageObject, end: nat, labels: map<nat, Type>, addr: nat, next: Option<nat>): (r: Result<(seq<SwitchLine>, map<nat, Type>)>)
    requires NextLabel(next, labels) && addr < end
    ensures r.Ok? ==> labels.Keys <= r.value.1.Keys
    decreases end - addr, 0
  {
    var atLabel := next == Some(addr);
    var head := if atLabel then [LabelLine(addr, labels[addr])] else [];
    var after := if atLabel then Above(labels.Keys, addr) else next;
    if !(obj.baseAddress <= addr && addr - obj.baseAddress + 4 <= |obj.data|) then Err(Internal("switch entry outside its object"))
    else
      var e := EntryLine(labels, addr, TraceRules.WordAt(obj.data, addr - obj.baseAddress));
      var rest :- SwitchFrom(obj, end, e.1, addr + 4, after);
      Ok((head + [e.0] + rest.0, rest.1))
  }

  /** `printSwitchTypeRegion(reg, obj, lx, img, anal)`: the table's own
      label (created as UNKNOWN when missing), its entries and an empty
      line. */
  function SwitchRegionSpec(reg: Region, obj: ImageObject, labels: map<nat, Type>): (r: Result<(seq<SwitchLine>, map<nat, Type>)>)
    ensures r.Ok? ==> reg.address in r.value.1 && labels.Keys <= r.value.1.Keys
    ensures r.Ok? ==> |r.value.0| >= 2 && r.value.0[0].LabelLine? && r.value.0[0].address == reg.address &&
                      r.value.0[|r.value.0| - 1] == Blank
  {
    var ls := Subscript(labels, reg.address);
    Finish([LabelLine(reg.address, ls[reg.address])], SwitchFrom(obj, reg.End(), ls, reg.address, Above(ls.Keys, reg.address)))
  }

  /** Whole tables: every non-zero entry that points above itself ends
      with a CASE label at its target; every label the table had before
      is kept, with its role or as CASE. */
  lemma SwitchRegionLabels(reg: Region, obj: ImageObject, labels: map<nat, Type>, a: nat, w: nat, k: nat)
    ensures var r := SwitchRegionSpec(reg, obj, labels);
      r.Ok? && reg.address <= a < reg.End() && (a - reg.address) % 4 == 0 && EntryAbove(obj, a, w) ==>
        w in r.value.1 && r.value.1[w] == Case
    ensures var r := SwitchRegionSpec(reg, obj, labels);
      r.Ok? && k in labels ==> k in r.value.1 && (r.value.1[k] == labels[k] || r.value.1[k] == Case)
  {
    var ls := Subscript(labels, reg.address);
    var next := Above(ls.Keys, reg.address);
    if reg.address <= a < reg.End() && (a - reg.address) % 4 == 0 && EntryAbove(obj, a, w) {
      SwitchLabelsCases(obj, reg.End(), ls, reg.address, next, a, w);
    }
    SwitchKeepsLabels(obj, reg.End(), ls, reg.address, next, k);
  }

  /** A table walk's result with `out` printed before it and the empty
      line after it. */
  function Finish(out: seq<SwitchLine>, r: Result<(seq<SwitchLine>, map<nat, Type>)>): (f: Result<(seq<SwitchLine>, map<nat, Type>)>)
    ensures f.Ok? <==> r.Ok?
    ensures f.Ok? ==> f.value.1 == r.value.1 && |f.value.0| == |out| + |r.value.0| + 1 &&
                      f.value.0[..|out|] == out && f.value.0[|f.value.0| - 1] == Blank
  {
    if r.Ok? then Ok((out + r.value.0 + [Blank], r.value.1)) else Err(r.error)
  }

  /** A table walk's result with `lines` printed before it. */
  function Ahead(lines: seq<SwitchLine>, r: Result<(seq<SwitchLine>, map<nat, Type>)>): Result<(seq<SwitchLine>, map<nat, Type>)>
  {
    if r.Ok? then Ok((lines + r.value.0, r.value.1)) else r
  }

  lemma FinishAhead(out: seq<SwitchLine>, lines: seq<SwitchLine>, r: Result<(seq<SwitchLine>, map<nat, Type>)>)
    ensures Finish(out, Ahead(lines, r)) == Finish(out + lines, r)
  {
    if r.Ok? {
      assert out + (lines + r.value.0) + [Blank] == out + lines + r.value.0 + [Blank];
    }
  }

  /** One entry of the walk, unfolded. */
  lemma SwitchUnfold(obj: ImageObject, end: nat, labels: map<nat, Type>, addr: nat, next: Option<nat>)
    requires NextLabel(next, labels) && addr < end
    requires obj.baseAddress <= addr && addr - obj.baseAddress + 4 <= |obj.data|
    ensures var atLabel := next == Some(addr);
      var head := if atLabel then [LabelLine(addr, labels[addr])] else [];
      var after := if atLabel then Above(labels.Keys, addr) else next;
      var e := EntryLine(labels, addr, TraceRules.WordAt(obj.data, addr - obj.baseAddress));
      SwitchFrom(obj, end, labels, addr, next) == Ahead(head + [e.0], SwitchFrom(obj, end, e.1, addr + 4, after))
  {
    assert SwitchFrom(obj, end, labels, addr, next) == SwitchStep(obj, end, labels, addr, next);
  }

  /** The word the table holds at `a`, when it lies inside the object. */
  predicate EntryAbove(obj: ImageObject, a: nat, w: nat)
  {
    obj.baseAddress <= a && a - obj.baseAddress + 4 <= |obj.data| &&
    w == TraceRules.WordAt(obj.data, a - obj.baseAddress) && w != 0 && a < w
  }

  /** The walk labels the target of every non-zero entry that points
      above the entry itself as CASE, and the label stays CASE to the end
      of the table. */
  lemma {:induction false} SwitchLabelsCases(obj: ImageObject, end: nat, labels: map<nat, Type>, addr: nat, next: Option<nat>, a: nat, w: nat)
    requires NextLabel(next, labels)
    requires addr <= a < end && (a - addr) % 4 == 0 && EntryAbove(obj, a, w)
    ensures var r := SwitchFrom(obj, end, labels, addr, next);
      r.Ok? ==> w in r.value.1 && r.value.1[w] == Case
    decreases end - addr
  {
    var r := SwitchFrom(obj, end, labels, addr, next);
    if r.Ok? {
      var atLabel := next == Some(addr);
      var after := if atLabel then Above(labels.Keys, addr) else next;
      assert r == SwitchStep(obj, end, labels, addr, next);
      var e := EntryLine(labels, addr, TraceRules.WordAt(obj.data, addr - obj.baseAddress));
      if a == addr {
        SwitchKeepsLabels(obj, end, e.1, addr + 4, after, w);
      } else {
        SwitchLabelsCases(obj, end, e.1, addr + 4, after, a, w);
      }
    }
  }

  /** The walk keeps every label: a label keeps its role or becomes CASE,
      and CASE stays CASE. */
  lemma {:induction false} SwitchKeepsLabels(obj: ImageObject, end: nat, labels: map<nat, Type>, addr: nat, next: Option<nat>, k: nat)
    requires NextLabel(next, labels)
    ensures var r := SwitchFrom(obj, end, labels, addr, next);
      r.Ok? && k in labels ==> k in r.value.1 && (r.value.1[k] == labels[k] || r.value.1[k] == Case)
    ensures var r := SwitchFrom(obj, end, labels, addr, next);
      r.Ok? && k in labels && labels[k] == Case ==> r.value.1[k] == Case
    decreases end - addr
  {
    var r := SwitchFrom(obj, end, labels, addr, next);
    if r.Ok? && addr < end {
      var atLabel := next == Some(addr);
      var after := if atLabel then Above(labels.Keys, addr) else next;
      assert r == SwitchStep(obj, end, labels, addr, next);
      var e := EntryLine(labels, addr, TraceRules.WordAt(obj.data, addr - obj.baseAddress));
      SwitchKeepsLabels(obj, end, e.1, addr + 4, after, k);
    }
  }

  /** The only labels the walk adds are CASE labels and the UNKNOWN
      labels that printing an entry below the table creates. */
  lemma {:induction false} SwitchAddsOnly(obj: ImageObject, end: nat, labels: map<nat, Type>, addr: nat, next: Option<nat>, k: nat)
    requires NextLabel(next, labels)
    ensures var r := SwitchFrom(obj, end, labels, addr, next);
      r.Ok? && k in r.value.1 && k !in labels ==> r.value.1[k] == Case || r.value.1[k] == Unknown
    decreases end - addr
  {
    var r := SwitchFrom(obj, end, labels, addr, next);
    if r.Ok? && addr < end {
      var atLabel := next == Some(addr);
      var after := if atLabel then Above(labels.Keys, addr) else next;
      assert r == SwitchStep(obj, end, labels, addr, next);
      var e := EntryLine(labels, addr, TraceRules.WordAt(obj.data, addr - obj.baseAddress));
      SwitchAddsOnly(obj, end, e.1, addr + 4, after, k);
      if k in e.1 {
        SwitchKeepsLabels(obj, end, e.1, addr + 4, after, k);
      }
    }
  }

  /** A table whose entries all lie inside its object is printed without
      failure. */
  lemma {:induction false} SwitchInBounds(obj: ImageObject, end: nat, labels: map<nat, Type>, addr: nat, next: Option<nat>)
    requires NextLabel(next, labels)
    requires obj.baseAddress <= addr && end <= obj.baseAddress + |obj.data| && (end - addr) % 4 == 0
    ensures SwitchFrom(obj, end, labels, addr, next).Ok?
    decreases end - addr
  {
    if addr < end {
      var atLabel := next == Some(addr);
      var after := if atLabel then Above(labels.Keys, addr) else next;
      assert SwitchFrom(obj, end, labels, addr, next) == SwitchStep(obj, end, labels, addr, next);
      assert addr + 4 <= end;
      var e := EntryLine(labels, addr, TraceRules.WordAt(obj.data, addr - obj.baseAddress));
      SwitchInBounds(obj, end, e.1, addr + 4, after);
    }
  }

  /** `printSwitchTypeRegion` on the analysis state: the walk over the
      table's words, writing CASE labels into the label map as it goes. */
  method SwitchRegion(reg: Region, obj: ImageObject, regions: Regions) returns (r: Result<seq<SwitchLine>>)
    modifies regions
    ensures regions.regions == old(regions.regions)
    ensures var spec := SwitchRegionSpec(reg, obj, old(regions.labelTypes));
      r.Ok? == spec.Ok? && (r.Ok? ==> r.value == spec.value.0 && regions.labelTypes == spec.value.1)
  {
    ghost var whole := SwitchRegionSpec(reg, obj, regions.labelTypes);
    var addr := reg.address;
    var end := reg.End();
    regions.labelTypes := Subscript(regions.labelTypes, addr);
    var out := [LabelLine(addr, regions.labelTypes[addr])];
    var next := Above(regions.labelTypes.Keys, addr);
    while addr < end
      invariant NextLabel(next, regions.labelTypes)
      invariant regions.regions == old(regions.regions)
      invariant whole == Finish(out, SwitchFrom(obj, end, regions.labelTypes, addr, next))
      decreases end - addr
    {
      if !(obj.baseAddress <= addr && addr - obj.baseAddress + 4 <= |obj.data|) {
        assert SwitchFrom(obj, end, regions.labelTypes, addr, next) == SwitchStep(obj, end, regions.labelTypes, addr, next);
        return Err(Internal("switch entry outside its object"));
      }
      SwitchUnfold(obj, end, regions.labelTypes, addr, next);
      ghost var labels := regions.labelTypes;
      var head := [];
      var after := next;
      if next == Some(addr) {
        head := [LabelLine(addr, regions.labelTypes[addr])];
        after := Above(regions.labelTypes.Keys, addr);
      }
      var w := TraceRules.WordAt(obj.data, addr - obj.baseAddress);
      var line;
      if w != 0 {
        if addr < w {
          regions.labelTypes := regions.labelTypes[w := Case];
        }
        regions.labelTypes := Subscript(regions.labelTypes, w);
        line := Entry(w, regions.labelTypes[w]);
      } else {
        line := ZeroEntry;
      }
      assert (line, regions.labelTypes) == EntryLine(labels, addr, w);
      FinishAhead(out, head + [line], SwitchFrom(obj, end, regions.labelTypes, addr + 4, after));
      out := out + (head + [line]);
      next := after;
      addr := addr + 4;
    }
    assert out + [] + [Blank] == out + [Blank];
    return Ok(out + [Blank]);
  }

  /** The section directive `printChangedSectionType` writes before a
      region of class `kind` when the listing is in `section`, and the
      section it leaves: DATA regions go to `.data`, every other class to
      `.text`. */
  function ChangedSection(kind: Type, section: Type): (r: (string, Type))
    ensures r.1 == (if kind == Data then Data else Code)
    ensures r.0 == "" <==> section == r.1
    ensures r.0 != "" ==> r.0 == "\n" + (if kind == Data then ".data" else ".text") + "\n"
  {
    if kind == Data then (if section != Data then ("\n.data\n", Data) else ("", section))
    else if section != Code then ("\n.text\n", Code) else ("", section)
  }

  /** The directives written before a run of regions of classes `kinds`,
      the listing starting in `section`. */
  function SectionTrace(kinds: seq<Type>, section: Type): (r: seq<string>)
    ensures |r| == |kinds|
  {
    if kinds == [] then []
    else
      var c := ChangedSection(kinds[0], section);
      [c.0] + SectionTrace(kinds[1..], c.1)
  }

  /** Over a run of regions, a directive is written exactly where the
      run passes between DATA and non-DATA regions (the first region
      compared with the starting section), and it names the section of
      the region it precedes. */
  lemma {:induction false} SectionsFollowKinds(kinds: seq<Type>, section: Type, i: nat)
    requires section == Code || section == Data
    requires i < |kinds|
    ensures var before := if i == 0 then section == Data else kinds[i - 1] == Data;
      var d := SectionTrace(kinds, section)[i];
      (d != "" <==> (kinds[i] == Data) != before) &&
      (d != "" ==> d == "\n" + (if kinds[i] == Data then ".data" else ".text") + "\n")
    decreases i
  {
    var c := ChangedSection(kinds[0], section);
    if i > 0 {
      SectionsFollowKinds(kinds[1..], c.1, i - 1);
      assert kinds[1..][i - 1] == kinds[i];
      assert i - 1 > 0 ==> kinds[1..][i - 2] == kinds[i - 1];
    }
  }

  /** The start of each line of eight bytes in the dump of a region no
      printer handles. */
  const DumpLine: string := "\n\t\t *\t"

  /** A byte as `std::setw(2)` lower-case hex: two digits that read back
      as the byte, neither of them a line break. */
  lemma ByteHex(b: byte)
    ensures |PadHex(b, 2)| == 2 && AllHex(PadHex(b, 2)) && ParseDigits(PadHex(b, 2)) == b
  {
    PadHexRoundTrip(b, 2);
    if b >= 16 {
      assert Hex(b) == Hex(b / 16) + [HexDigit(b % 16)];
    }
  }

  /** The hex dump of `bytes` from index `i` on: a new line before every
      eighth byte, two digits per byte. */
  function DumpFrom(bytes: seq<byte>, i: nat): string
    decreases |bytes| - i
  {
    if i >= |bytes| then ""
    else (if i % 8 == 0 then DumpLine else "") + PadHex(bytes[i], 2) + DumpFrom(bytes, i + 1)
  }

  lemma TwoDigits(s: string)
    requires |s| == 2 && AllHex(s)
    ensures ParseDigits(s) < 256
  {
    var first := s[..1];
    assert first[..0] == [] && first[0] == s[0];
    assert ParseDigits(first) == HexValue(s[0]);
    assert s[..1] == first;
  }

  /** Reading a dump back: line starts are skipped, and each pair of hex
      digits is one byte. */
  function Undump(s: string): seq<byte>
    decreases |s|
  {
    if |s| >= |DumpLine| && s[..|DumpLine|] == DumpLine then Undump(s[|DumpLine|..])
    else if |s| >= 2 && AllHex(s[..2]) then
      TwoDigits(s[..2]);
      [ParseDigits(s[..2]) as byte] + Undump(s[2..])
    else []
  }

  /** The dump reads back as the bytes it shows. */
  lemma {:induction false} DumpRoundTrip(bytes: seq<byte>, i: nat)
    requires i <= |bytes|
    ensures Undump(DumpFrom(bytes, i)) == bytes[i..]
    decreases |bytes| - i
  {
    if i < |bytes| {
      var h := PadHex(bytes[i], 2);
      var rest := DumpFrom(bytes, i + 1);
      ByteHex(bytes[i]);
      DumpRoundTrip(bytes, i + 1);
      var t := h + rest;
      assert t[..2] == h && t[2..] == rest;
      if |t| >= |DumpLine| {
        assert t[0] == h[0] && IsHexDigit(h[0]);
        assert t[..|DumpLine|][0] != DumpLine[0];
      }
      assert Undump(t) == [bytes[i]] + bytes[i + 1..];
      if i % 8 == 0 {
        var u := DumpLine + t;
        assert u[..|DumpLine|] == DumpLine && u[|DumpLine|..] == t;
        assert DumpFrom(bytes, i) == u;
      } else {
        assert DumpFrom(bytes, i) == t;
      }
      Unconsed(bytes, i);
    }
  }

  lemma Unconsed(bytes: seq<byte>, i: nat)
    requires i < |bytes|
    ensures [bytes[i]] + bytes[i + 1..] == bytes[i..]
  {
  }

  lemma DumpStep(s: string, bytes: seq<byte>, i: nat, piece: string)
    requires i < |bytes| && piece == (if i % 8 == 0 then DumpLine else "") + PadHex(bytes[i], 2)
    ensures s + DumpFrom(bytes, i) == (s + piece) + DumpFrom(bytes, i + 1)
  {
  }

  /** The bytes the dump reads lie inside the object's buffer; the source
      reads them without a check. */
  predicate Dumpable(reg: Region, obj: ImageObject)
  {
    obj.baseAddress <= reg.address && reg.address - obj.baseAddress + Min2(reg.size, 16) <= |obj.data|
  }

  /** The bytes the dump shows: at most the first sixteen of the region. */
  function Shown(reg: Region, obj: ImageObject): (r: seq<byte>)
    requires Dumpable(reg, obj)
    ensures |r| == Min2(reg.size, 16) && |r| <= 16
    ensures forall i :: 0 <= i < |r| ==> r[i] == obj.data[reg.address - obj.baseAddress + i]
  {
    var at := reg.address - obj.baseAddress;
    obj.data[at..at + Min2(reg.size, 16)]
  }

  /** The comment's first line: the region's size in decimal, the
      object's executable flag, the region's class and its address as
      eight hex digits. */
  function SkippedHeader(reg: Region, obj: ImageObject): string
  {
    "\n\t\t/* Skipped " + Decimal(reg.size) + " bytes of " + (if obj.executable then "executable " else "") +
    TypeName(reg.kind) + " type data at virtual address 0x" + PadHex(Wrap32(reg.address), 8) + ":"
  }

  /** The comment `print_region` writes for a region of a class no
      printer handles: the header, the dump of the bytes shown, an
      ellipsis when the region has more than sixteen bytes, and the
      comment's end. */
  function SkippedText(reg: Region, obj: ImageObject): string
    requires Dumpable(reg, obj)
  {
    SkippedHeader(reg, obj) + DumpFrom(Shown(reg, obj), 0) + (if reg.size > 16 then "\n\t\t * ..." else "") + "\n\t\t */\n"
  }

  /** The dump in the comment reads back as the region's first
      `min(size, 16)` bytes, and the ellipsis is there exactly when bytes
      are left out. */
  lemma SkippedShowsBytes(reg: Region, obj: ImageObject)
    requires Dumpable(reg, obj)
    ensures var shown := Shown(reg, obj);
      var t := SkippedText(reg, obj);
      var h := |SkippedHeader(reg, obj)|;
      var d := |DumpFrom(shown, 0)|;
      h + d <= |t| && Undump(t[h..h + d]) == shown &&
      (reg.size > 16 <==> t[h + d..] == "\n\t\t * ...\n\t\t */\n") &&
      (reg.size <= 16 <==> t[h + d..] == "\n\t\t */\n")
  {
    DumpInComment(SkippedHeader(reg, obj), Shown(reg, obj), reg.size > 16);
  }

  /** `SkippedShowsBytes` for any header: the dump sits between the
      header and the comment's end. */
  lemma DumpInComment(header: string, shown: seq<byte>, more: bool)
    ensures var t := header + DumpFrom(shown, 0) + (if more then "\n\t\t * ..." else "") + "\n\t\t */\n";
      var h := |header|;
      var d := |DumpFrom(shown, 0)|;
      h + d <= |t| && Undump(t[h..h + d]) == shown &&
      (more <==> t[h + d..] == "\n\t\t * ...\n\t\t */\n") &&
      (!more <==> t[h + d..] == "\n\t\t */\n")
  {
    var dump := DumpFrom(shown, 0);
    var tail := (if more then "\n\t\t * ..." else "") + "\n\t\t */\n";
    var t := header + dump + tail;
    assert header + dump + (if more then "\n\t\t * ..." else "") + "\n\t\t */\n" == t;
    assert t[|header|..|header| + |dump|] == dump && t[|header| + |dump|..] == tail;
    DumpRoundTrip(shown, 0);
    assert shown[0..] == shown;
  }

  /** The dump loop of `print_region`: bytes from the region's start,
      two hex digits each, a new line before every eighth, stopping with
      an ellipsis at the sixteenth. A byte past the object's buffer is a
      read the source does not guard. */
  method SkippedDump(reg: Region, obj: ImageObject) returns (r: Result<string>)
    ensures Dumpable(reg, obj) ==> r == Ok(SkippedText(reg, obj))
    ensures !Dumpable(reg, obj) ==> r.Err?
  {
    if !Dumpable(reg, obj) {
      return Err(Internal("skipped region read past its object"));
    }
    ghost var shown := Shown(reg, obj);
    var s := SkippedHeader(reg, obj);
    ghost var whole := s + DumpFrom(shown, 0);
    var data := obj.DataAt(reg.address);
    var index := 0;
    var cut := false;
    while index < reg.size
      invariant index <= 16 && index <= reg.size && index <= |shown|
      invariant whole == s + DumpFrom(shown, index)
      decreases reg.size - index
    {
      if index >= 16 {
        cut := true;
        break;
      }
      var piece := (if index % 8 == 0 then DumpLine else "") + PadHex(data[index], 2);
      assert data[index] == shown[index];
      DumpStep(s, shown, index, piece);
      s := s + piece;
      index := index + 1;
    }
    assert index == |shown| && DumpFrom(shown, index) == "";
    assert s + DumpFrom(shown, index) == s;
    var more := if cut then "\n\t\t * ..." else "";
    assert more == (if reg.size > 16 then "\n\t\t * ..." else "");
    s := s + more + "\n\t\t */\n";
    return Ok(s);
  }

  /** What `print_region` writes for a region. */
  datatype RegionListing =
    | CodeListing(reg: Region)                // the CODE printer, which needs the decoder
    | DataListing(directives: seq<Directive>)
    | SwitchListing(lines: seq<SwitchLine>)
    | Skipped(text: string)

  /** `print_region(reg, obj, lx, img, anal)`: CODE, DATA and SWITCH
      regions go to their printers, a region of any other class is
      dumped in a comment. */
  method PrintRegion(reg: Region, obj: ImageObject, fixups: map<nat, nat>, regions: Regions) returns (r: Result<RegionListing>)
    modifies regions
    ensures regions.regions == old(regions.regions)
    ensures reg.kind == Code ==> r == Ok(CodeListing(reg)) && regions.labelTypes == old(regions.labelTypes)
    ensures reg.kind == Data && InObject(reg, obj) ==>
      var spec := DataRegionFrom(reg, obj, fixups, old(regions.labelTypes), reg.address, 0);
      r == Ok(DataListing(spec.0)) && regions.labelTypes == spec.1
    ensures reg.kind == Data && !InObject(reg, obj) ==> r.Err? && regions.labelTypes == old(regions.labelTypes)
    ensures reg.kind == Switch ==>
      var spec := SwitchRegionSpec(reg, obj, old(regions.labelTypes));
      r.Ok? == spec.Ok? && (r.Ok? ==> r.value == SwitchListing(spec.value.0) && regions.labelTypes == spec.value.1)
    ensures !(0 < Ordinal(reg.kind) < 4) ==> regions.labelTypes == old(regions.labelTypes)
    ensures !(0 < Ordinal(reg.kind) < 4) && Dumpable(reg, obj) ==> r == Ok(Skipped(SkippedText(reg, obj)))
    ensures !(0 < Ordinal(reg.kind) < 4) && !Dumpable(reg, obj) ==> r.Err?
  {
    if 0 < Ordinal(reg.kind) < 4 {
      match reg.kind
      case Code =>
        r := Ok(CodeListing(reg));
      case Data =>
        var out := DataRegion(reg, obj, fixups, regions);
        r := if out.Ok? then Ok(DataListing(out.value)) else Err(out.error);
      case Switch =>
        var lines := SwitchRegion(reg, obj, regions);
        r := if lines.Ok? then Ok(SwitchListing(lines.value)) else Err(lines.error);
    } else {
      var text := SkippedDump(reg, obj);
      r := if text.Ok? then Ok(Skipped(text.value)) else Err(text.error);
    }
  }
}
