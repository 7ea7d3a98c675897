/** Fixed-layout records: a run of little-endian fields of given byte
    widths, read one `read_le` call after another from a stream. */
module Records {
  import opened Common
  import opened LittleEndian

  /** Total byte length of a layout. */
  function Sum(widths: seq<nat>): nat
  {
    if |widths| == 0 then 0 else widths[0] + Sum(widths[1..])
  }

  /** Every value fits its field. */
  predicate Fits(values: seq<nat>, widths: seq<nat>)
  {
    |values| == |widths| && forall i :: 0 <= i < |values| ==> values[i] < Pow256(widths[i])
  }

  /** The field values stored at `p` under layout `widths`, first field
      first. */
  function FieldsAt(s: seq<byte>, p: nat, widths: seq<nat>): (values: seq<nat>)
    requires p + Sum(widths) <= |s|
    ensures |values| == |widths|
    decreases |widths|
  {
    if |widths| == 0 then []
    else [Decode(s[p..p + widths[0]])] + FieldsAt(s, p + widths[0], widths[1..])
  }

  /** Every value read fits its field. */
  lemma {:induction false} FieldsFit(s: seq<byte>, p: nat, widths: seq<nat>)
    requires p + Sum(widths) <= |s|
    ensures Fits(FieldsAt(s, p, widths), widths)
    decreases |widths|
  {
    if |widths| > 0 {
      var vs := FieldsAt(s, p, widths);
      FieldsFit(s, p + widths[0], widths[1..]);
      DecodeBound(s[p..p + widths[0]]);
      forall i | 1 <= i < |vs|
        ensures vs[i] < Pow256(widths[i])
      {
        assert vs[i] == FieldsAt(s, p + widths[0], widths[1..])[i - 1];
      }
    }
  }

  /** The bytes of a record holding `values` under layout `widths`. */
  function EncodeFields(values: seq<nat>, widths: seq<nat>): (bs: seq<byte>)
    requires |values| == |widths|
    ensures |bs| == Sum(widths)
    decreases |widths|
  {
    if |widths| == 0 then []
    else Encode(values[0], widths[0]) + EncodeFields(values[1..], widths[1..])
  }

  /** Stored values read back unchanged, wherever the record sits. */
  lemma {:induction false} FieldsRoundTrip(prefix: seq<byte>, values: seq<nat>, widths: seq<nat>, suffix: seq<byte>)
    requires Fits(values, widths)
    ensures |prefix| + Sum(widths) <= |prefix + EncodeFields(values, widths) + suffix|
    ensures FieldsAt(prefix + EncodeFields(values, widths) + suffix, |prefix|, widths) == values
    decreases |widths|
  {
    if |widths| > 0 {
      var s := prefix + EncodeFields(values, widths) + suffix;
      var head := Encode(values[0], widths[0]);
      var rest := EncodeFields(values[1..], widths[1..]);
      assert s == (prefix + head) + rest + suffix;
      assert Fits(values[1..], widths[1..]) by {
        forall i | 0 <= i < |values| - 1
          ensures values[1..][i] < Pow256(widths[1..][i])
        {
          assert values[1..][i] == values[i + 1];
        }
      }
      FieldsRoundTrip(prefix + head, values[1..], widths[1..], suffix);
      assert s[|prefix|..|prefix| + widths[0]] == head;
      RoundTrip(values[0], widths[0]);
      assert values == [values[0]] + values[1..];
    }
  }

  lemma {:induction false} SumAppend(a: seq<nat>, b: seq<nat>)
    ensures Sum(a + b) == Sum(a) + Sum(b)
    decreases |a|
  {
    if |a| == 0 {
      assert a + b == b;
    } else {
      assert (a + b)[1..] == a[1..] + b;
      SumAppend(a[1..], b);
    }
  }

  /** A layout of `n` fields of the same width `w`. */
  function Repeat(n: nat, w: nat): (r: seq<nat>)
    ensures |r| == n && forall i :: 0 <= i < n ==> r[i] == w
  {
    if n == 0 then [] else [w] + Repeat(n - 1, w)
  }

  /** A layout of `n` fields of width `w` is `n * w` bytes long. */
  lemma {:induction false} SumConst(n: nat, w: nat)
    ensures Sum(Repeat(n, w)) == n * w
  {
    if n > 0 {
      var r := Repeat(n, w);
      assert r[1..] == Repeat(n - 1, w);
      SumConst(n - 1, w);
      assert (n - 1) * w + w == n * w;
    }
  }

  /** Field `i` is decoded from its own bytes, at the sum of the widths
      before it. */
  lemma {:induction false} FieldAt(s: seq<byte>, p: nat, widths: seq<nat>, i: nat)
    requires p + Sum(widths) <= |s| && i < |widths|
    ensures p + Sum(widths[..i]) + widths[i] <= |s|
    ensures FieldsAt(s, p, widths)[i] == Decode(s[p + Sum(widths[..i])..p + Sum(widths[..i]) + widths[i]])
    decreases i
  {
    if i > 0 {
      FieldAt(s, p + widths[0], widths[1..], i - 1);
      assert widths[..i][1..] == widths[1..][..i - 1];
      assert FieldsAt(s, p, widths)[i] == FieldsAt(s, p + widths[0], widths[1..])[i - 1];
    }
  }

  /** A prefix of the layout is no longer than the whole. */
  lemma PrefixSumBound(widths: seq<nat>, n: nat)
    requires n <= |widths|
    ensures Sum(widths[..n]) + Sum(widths[n..]) == Sum(widths)
  {
    assert widths == widths[..n] + widths[n..];
    SumAppend(widths[..n], widths[n..]);
  }

  /** A sequence of stream `read_le` calls: the fields are read in order,
      the cursor advances by each width, and the first read the stream
      cannot satisfy fails with EOF. */
  method ReadFields(s: seq<byte>, pos: nat, widths: seq<nat>) returns (r: Result<seq<nat>>, next: nat)
    ensures pos + Sum(widths) <= |s| ==> r == Ok(FieldsAt(s, pos, widths)) && next == pos + Sum(widths)
    ensures pos + Sum(widths) > |s| ==> r == Err(Eof)
    requires |widths| > 0
    decreases |widths|
  {
    var v, cursor := ReadLeStream(s, pos, widths[0]);
    if v.Err? {
      return Err(Eof), cursor;
    }
    if |widths| == 1 {
      assert widths[1..] == [] && Sum(widths) == widths[0];
      assert FieldsAt(s, pos, widths) == [v.value] + FieldsAt(s, cursor, []) == [v.value];
      return Ok([v.value]), cursor;
    }
    var rest;
    rest, next := ReadFields(s, cursor, widths[1..]);
    if rest.Err? {
      return Err(Eof), next;
    }
    r := Ok([v.value] + rest.value);
  }

}
