/** The round trip of the codec: what write emits for a value that fits its format,
    parse reads back as the same value. The fit conditions are exactly the cases in which
    the decoder reconstructs what the encoder was given: brackets are balanced, an array
    has a one-character inner format unless it is empty, a string array holds ASCII, a
    list array is not made only of strings (it would be joined), and a registered
    layout has at least two characters (a one-character layout yields a bare value that
    cannot be splatted into the constructor). */
module CodecRoundTrip {
  import opened Wire
  import opened Formats
  import opened Codec

  /** v is what the struct code c packs and unpacks unchanged. */
  predicate FitsPrim(c: char, v: Value)
  {
    match CodeOf(c)
    case None => false
    case Some(code) =>
      match code.kind
      case Signed => v.Int? && IntInRange(code, v.i)
      case Unsigned => v.Int? && IntInRange(code, v.i)
      case Float => v.Flt? && v.bits < Pow256(code.width)
      case Char => v.Str? && |v.s| == 1 && (v.s[0] as int) < 128
  }

  /** v fits the format character c (not a bracket) within d nested calls: a record of
      c's registered class whose fields fit its layout, or a value of the struct code c. */
  predicate FitsChar(reg: Registry, c: char, v: Value, d: nat)
    decreases d, 0, 0
  {
    if c in reg.formats then
      c in reg.types && d >= 1 && v.Obj? && v.cls == reg.types[c]
      && FitsRecord(reg, reg.formats[c], v.fields, d - 1)
    else FitsPrim(c, v)
  }

  /** The token of fmt at i: an array of the bracketed inner format, or one character. */
  predicate FitsToken(reg: Registry, fmt: string, i: nat, v: Value, d: nat)
    requires i < |fmt|
    decreases d, 1, 0
  {
    if fmt[i] == '[' then d >= 1 && FitsArray(reg, Inner(fmt, i), v, d - 1)
    else FitsChar(reg, fmt[i], v, d)
  }

  /** vs are the values of the tokens of fmt from index i on, one per token. */
  predicate FitsFrom(reg: Registry, fmt: string, i: nat, vs: seq<Value>, d: nat)
    decreases d, 2, |fmt| - i
  {
    if i >= |fmt| then vs == []
    else |vs| > 0 && FitsToken(reg, fmt, i, vs[0], d) && FitsFrom(reg, fmt, TokenEnd(fmt, i), vs[1..], d)
  }

  /** Adding the value of the token at i in front of the values of the tokens after it. */
  lemma FitsFromCons(reg: Registry, fmt: string, i: nat, v: Value, vs: seq<Value>, d: nat)
    requires i < |fmt| && FitsToken(reg, fmt, i, v, d) && FitsFrom(reg, fmt, TokenEnd(fmt, i), vs, d)
    ensures FitsFrom(reg, fmt, i, [v] + vs, d)
  {
    assert ([v] + vs)[0] == v && ([v] + vs)[1..] == vs;
  }

  /** fields are the constructor arguments of a record with layout fmt. */
  predicate FitsRecord(reg: Registry, fmt: string, fields: seq<Value>, d: nat)
    decreases d, 3, 0
  {
    |fmt| >= 2 && Balanced(fmt, 0) && FitsFrom(reg, fmt, 0, fields, d)
  }

  /** v is the contents of an array with inner format inner: a string exactly when all
      its elements are strings, at most 2^32 - 1 elements, and each element fitting the
      one inner character. */
  predicate FitsArray(reg: Registry, inner: string, v: Value, d: nat)
    decreases d, 5, 0
  {
    (v.Str? || v.List?) && |Elems(v)| < Pow256(4) && (v.Str? <==> AllStr(Elems(v)))
    && (|Elems(v)| == 0 ||
        (|inner| == 1 && forall k :: 0 <= k < |Elems(v)| ==> FitsChar(reg, inner[0], Elems(v)[k], d)))
  }

  lemma AppendCons(acc: seq<Value>, vs: seq<Value>)
    requires |vs| > 0
    ensures acc + [vs[0]] + vs[1..] == acc + vs
  {
  }

  /** The bytes of data from pos on begin with bs. */
  predicate Encodes(data: seq<byte>, pos: nat, bs: seq<byte>)
  {
    pos + |bs| <= |data| && data[pos..pos + |bs|] == bs
  }

  lemma EncodesSplit(data: seq<byte>, pos: nat, a: seq<byte>, b: seq<byte>)
    requires Encodes(data, pos, a + b)
    ensures Encodes(data, pos, a) && Encodes(data, pos + |a|, b)
  {
    assert data[pos..pos + |a|] == (a + b)[..|a|];
    assert data[pos + |a|..pos + |a| + |b|] == (a + b)[|a|..];
  }

  /** A string's characters, joined again, are the string. */
  lemma {:induction false} JoinChars(s: string)
    ensures AllStr(Chars(s)) && Join(Chars(s)) == s
  {
    if s != [] {
      assert Chars(s)[1..] == Chars(s[1..]);
      JoinChars(s[1..]);
    }
  }

  /** An ASCII string of fewer than 2^32 characters fits the array "[s]" when 's' is not
      a registered class. */
  lemma AsciiStringFits(reg: Registry, s: string, d: nat)
    requires 's' !in reg.formats && |s| < Pow256(4)
    requires forall k :: 0 <= k < |s| ==> (s[k] as int) < 128
    ensures FitsArray(reg, "s", Str(s), d)
  {
    JoinChars(s);
    forall k | 0 <= k < |s|
      ensures FitsChar(reg, 's', Elems(Str(s))[k], d)
    {
      assert Elems(Str(s))[k] == Str([s[k]]);
    }
  }

  /** Coalescing the elements of a fitting array value gives the value back. */
  lemma CoalesceElems(v: Value)
    requires (v.Str? || v.List?) && (v.Str? <==> AllStr(Elems(v)))
    ensures Coalesce(Elems(v)) == v
  {
    if v.Str? {
      JoinChars(v.s);
    }
  }

  /** A struct code packs a fitting value into its width and reads it back. */
  lemma PrimRoundTrip(c: char, v: Value, data: seq<byte>, pos: nat)
    requires FitsPrim(c, v)
    ensures Pack(c, v).Ok? && |Pack(c, v).value| >= 1
    ensures Encodes(data, pos, Pack(c, v).value) ==>
              DecodePrim(c, data, pos) == Step(Ok(v), pos + |Pack(c, v).value|)
  {
    var code := CodeOf(c).value;
    if Encodes(data, pos, Pack(c, v).value) {
      var bs := data[pos..pos + code.width];
      match code.kind
      case Signed => IntRoundTrip(code, v.i);
      case Unsigned => IntRoundTrip(code, v.i);
      case Float => FromToLE(v.bits, code.width);
      case Char =>
        assert bs == [v.s[0] as int];
        assert v.s == [v.s[0]];
        assert ((v.s[0] as int) as char) == v.s[0];
        assert Unpack(code, bs) == Ok(Str([v.s[0]]));
    }
  }

  /** Only the character fmt[j mod len(fmt)] matters to writing an element that is not an
      array, and the next index is j + 1. */
  lemma WriteCharAt(reg: Registry, fmt: string, v: Value, j: nat, d: nat)
    requires |fmt| > 0 && fmt[j % |fmt|] != '['
    ensures var e := WriteElement(reg, fmt, v, j, d);
            var e1 := WriteElement(reg, [fmt[j % |fmt|]], v, 0, d);
            e.out == e1.out && e.err == e1.err && (e.err.None? ==> e.next == j + 1)
  {
  }

  /** Only the character fmt[i] matters to reading a token that is not an array. */
  lemma ReadCharAt(reg: Registry, fmt: string, i: nat, data: seq<byte>, pos: nat, d: nat)
    requires i < |fmt| && fmt[i] != '[' && pos <= |data|
    ensures var t := ReadToken(reg, fmt, i, data, pos, d);
            var t1 := ReadToken(reg, [fmt[i]], 0, data, pos, d);
            t.out == t1.out && t.pos == t1.pos && t.next == i + t1.next
  {
  }

  /** A one-character format read once from a non-empty remainder is its one token. */
  lemma ParseOne(reg: Registry, c: char, data: seq<byte>, pos: nat, d: nat, v: Value, q: nat)
    requires pos < |data|
    requires ReadToken(reg, [c], 0, data, pos, d) == Got(Ok(v), q, 1)
    ensures Parse(reg, [c], data, pos, false, d) == Step(Ok(v), q)
  {
    assert [] + [v] == [v];
    assert Pass(reg, [c], 1, data, q, d, [v]) == Step(Ok([v]), q);
    assert Pass(reg, [c], 0, data, pos, d, []) == Step(Ok([v]), q);
    assert Passes(reg, [c], data, pos, false, d, []) == Step(Ok([v]), q);
  }

  /** write's loop over a non-empty rest: the first element's bytes, then the others'. */
  lemma WriteItemsCons(reg: Registry, fmt: string, vs: seq<Value>, i: nat, d: nat)
    requires |vs| > 0 && |fmt| > 0 && WriteElement(reg, fmt, vs[0], i, d).err.None?
    ensures var e := WriteElement(reg, fmt, vs[0], i, d);
            var w := WriteItems(reg, fmt, vs[1..], e.next, d);
            WriteItems(reg, fmt, vs, i, d) == Written(e.out + w.out, w.err)
  {
  }

  /** parse's inner loop after a token that was read successfully. */
  lemma PassCons(reg: Registry, fmt: string, i: nat, data: seq<byte>, pos: nat, d: nat, acc: seq<Value>,
                 v: Value, q: nat, next: nat)
    requires i < |fmt| && pos <= q <= |data| && next <= |fmt|
    requires ReadToken(reg, fmt, i, data, pos, d) == Got(Ok(v), q, next)
    ensures Pass(reg, fmt, i, data, pos, d, acc) == Pass(reg, fmt, next, data, q, d, acc + [v])
  {
  }

  // ---------------------------------------------------------------------------------
  // Writing a fitting value succeeds

  /** A fitting value of a character is written without error, as at least one byte. */
  lemma {:induction false} CharWrites(reg: Registry, c: char, v: Value, d: nat)
    requires c != '[' && FitsChar(reg, c, v, d)
    ensures WriteElement(reg, [c], v, 0, d).err.None? && |WriteElement(reg, [c], v, 0, d).out| >= 1
    decreases d, 0, 0
  {
    if c in reg.formats {
      RecordWrites(reg, reg.formats[c], v.fields, d - 1);
    } else {
      PrimRoundTrip(c, v, [], 0);
    }
  }

  /** An array token is written as the 32-bit element count and the inner writes. */
  lemma {:induction false} ArrayTokenWrites(reg: Registry, fmt: string, i: nat, v: Value, d: nat)
    requires i < |fmt| && Balanced(fmt, i) && fmt[i] == '[' && d >= 1 && FitsArray(reg, Inner(fmt, i), v, d - 1)
    ensures var e := WriteElement(reg, fmt, v, i, d);
            e.err.None? && e.next == TokenEnd(fmt, i) &&
            e.out == ToLE(|Elems(v)|, 4) + Codec.Write(reg, Inner(fmt, i), v, d - 1).out
    decreases d, 0, 1
  {
    ModBelow(i, |fmt|);
    BracketToken(fmt, i);
    ArrayWrites(reg, Inner(fmt, i), v, d - 1);
    assert Len(v) == Some(|Elems(v)|);
  }

  /** A fitting token is written without error, as at least one byte, and the write moves
      on to the next token. */
  lemma {:induction false} TokenWrites(reg: Registry, fmt: string, i: nat, v: Value, d: nat)
    requires i < |fmt| && Balanced(fmt, i) && FitsToken(reg, fmt, i, v, d)
    ensures var e := WriteElement(reg, fmt, v, i, d);
            e.err.None? && e.next == TokenEnd(fmt, i) && |e.out| >= 1
    decreases d, 1, 0
  {
    if fmt[i] == '[' {
      ArrayTokenWrites(reg, fmt, i, v, d);
    } else {
      ModBelow(i, |fmt|);
      WriteCharAt(reg, fmt, v, i, d);
      CharWrites(reg, fmt[i], v, d);
    }
  }

  /** Fitting values for the tokens of a balanced format from i are written without error. */
  lemma {:induction false} FromWrites(reg: Registry, fmt: string, i: nat, vs: seq<Value>, d: nat)
    requires i <= |fmt| && Balanced(fmt, i) && FitsFrom(reg, fmt, i, vs, d)
    ensures WriteItems(reg, fmt, vs, i, d).err.None?
    ensures i < |fmt| ==> |WriteItems(reg, fmt, vs, i, d).out| >= 1
    decreases d, 2, |fmt| - i
  {
    if i < |fmt| {
      TokenWrites(reg, fmt, i, vs[0], d);
      FromWrites(reg, fmt, TokenEnd(fmt, i), vs[1..], d);
      WriteItemsCons(reg, fmt, vs, i, d);
    }
  }

  /** A record's fields are written against its layout without error, as at least one byte. */
  lemma RecordWrites(reg: Registry, fmt: string, fields: seq<Value>, d: nat)
    requires FitsRecord(reg, fmt, fields, d)
    ensures Codec.Write(reg, fmt, List(fields), d).err.None?
    ensures |Codec.Write(reg, fmt, List(fields), d).out| >= 1
    decreases d, 3, 0
  {
    FromWrites(reg, fmt, 0, fields, d);
  }

  /** The elements of a fitting array are written with the inner character without error. */
  lemma {:induction false} ItemsWrites(reg: Registry, inner: string, xs: seq<Value>, j: nat, d: nat)
    requires |inner| == 1 && inner[0] != '['
    requires forall k :: 0 <= k < |xs| ==> FitsChar(reg, inner[0], xs[k], d)
    ensures WriteItems(reg, inner, xs, j, d).err.None?
    decreases d, 4, |xs|
  {
    if xs != [] {
      assert inner == [inner[0]];
      ModOne(j);
      WriteCharAt(reg, inner, xs[0], j, d);
      CharWrites(reg, inner[0], xs[0], d);
      ItemsWrites(reg, inner, xs[1..], WriteElement(reg, inner, xs[0], j, d).next, d);
      WriteItemsCons(reg, inner, xs, j, d);
    }
  }

  /** A fitting array value is written against its inner format without error. */
  lemma ArrayWrites(reg: Registry, inner: string, v: Value, d: nat)
    requires BracketFree(inner) && FitsArray(reg, inner, v, d)
    ensures Codec.Write(reg, inner, v, d).err.None?
    decreases d, 5, 0
  {
    if |Elems(v)| > 0 {
      assert inner[0] in inner;
      ItemsWrites(reg, inner, Elems(v), 0, d);
    }
  }

  // ---------------------------------------------------------------------------------
  // Reading back what was written

  /** A fitting value of a character is read back from the bytes written for it. */
  lemma {:induction false} CharReads(reg: Registry, c: char, v: Value, d: nat, data: seq<byte>, pos: nat)
    requires c != '[' && FitsChar(reg, c, v, d)
    requires Encodes(data, pos, WriteElement(reg, [c], v, 0, d).out)
    ensures ReadToken(reg, [c], 0, data, pos, d) == Got(Ok(v), pos + |WriteElement(reg, [c], v, 0, d).out|, 1)
    decreases d, 0, 0
  {
    if c in reg.formats {
      RecordWrites(reg, reg.formats[c], v.fields, d - 1);
      RecordReads(reg, reg.formats[c], v.fields, d - 1, data, pos);
    } else {
      PrimRoundTrip(c, v, data, pos);
    }
  }

  /** An array token is read back as its count and then that many inner parses. */
  lemma {:induction false} ArrayTokenReads(reg: Registry, fmt: string, i: nat, v: Value, d: nat, data: seq<byte>, pos: nat)
    requires i < |fmt| && Balanced(fmt, i) && fmt[i] == '[' && d >= 1 && FitsArray(reg, Inner(fmt, i), v, d - 1)
    requires Encodes(data, pos, WriteElement(reg, fmt, v, i, d).out)
    ensures ReadToken(reg, fmt, i, data, pos, d)
         == Got(Ok(v), pos + |WriteElement(reg, fmt, v, i, d).out|, TokenEnd(fmt, i))
    decreases d, 0, 1
  {
    ArrayTokenWrites(reg, fmt, i, v, d);
    BracketToken(fmt, i);
    var n := |Elems(v)|;
    var w := Codec.Write(reg, Inner(fmt, i), v, d - 1);
    var q := pos + 4 + |w.out|;
    CountThenBody(data, pos, n, w.out);
    assert Elements(reg, Inner(fmt, i), n, data, pos + 4, d, []) == Step(Ok(Elems(v)), q) by {
      ArrayReads(reg, Inner(fmt, i), v, d - 1, data, pos + 4);
    }
    assert Coalesce(Elems(v)) == v by {
      CoalesceElems(v);
    }
    BracketRead(reg, fmt, i, data, pos, d, n, Elems(v), q);
  }

  /** A 4-byte little-endian count followed by a body: the count reads back. */
  lemma CountThenBody(data: seq<byte>, pos: nat, n: nat, body: seq<byte>)
    requires n < Pow256(4) && Encodes(data, pos, ToLE(n, 4) + body)
    ensures pos + 4 <= |data| && FromLE(data[pos..pos + 4]) == n && Encodes(data, pos + 4, body)
  {
    EncodesSplit(data, pos, ToLE(n, 4), body);
    FromToLE(n, 4);
  }

  /** The '[' branch of ReadToken once the count and the inner parses are known. */
  lemma BracketRead(reg: Registry, fmt: string, i: nat, data: seq<byte>, pos: nat, d: nat,
                    n: nat, items: seq<Value>, q: nat)
    requires i < |fmt| && fmt[i] == '[' && Find(fmt, ']', i) >= 0 && pos + 4 <= |data|
    requires FromLE(data[pos..pos + 4]) == n
    requires Elements(reg, Inner(fmt, i), n, data, pos + 4, d, []) == Step(Ok(items), q)
    ensures ReadToken(reg, fmt, i, data, pos, d) == Got(Ok(Coalesce(items)), q, TokenEnd(fmt, i))
  {
  }

  /** A fitting token is read back from the bytes written for it. */
  lemma {:induction false} TokenReads(reg: Registry, fmt: string, i: nat, v: Value, d: nat, data: seq<byte>, pos: nat)
    requires i < |fmt| && Balanced(fmt, i) && FitsToken(reg, fmt, i, v, d)
    requires Encodes(data, pos, WriteElement(reg, fmt, v, i, d).out)
    ensures ReadToken(reg, fmt, i, data, pos, d)
         == Got(Ok(v), pos + |WriteElement(reg, fmt, v, i, d).out|, TokenEnd(fmt, i))
    decreases d, 1, 0
  {
    if fmt[i] == '[' {
      ArrayTokenReads(reg, fmt, i, v, d, data, pos);
    } else {
      ModBelow(i, |fmt|);
      WriteCharAt(reg, fmt, v, i, d);
      CharWrites(reg, fmt[i], v, d);
      CharReads(reg, fmt[i], v, d, data, pos);
      ReadCharAt(reg, fmt, i, data, pos, d);
    }
  }

  /** The tokens of a balanced format from i are read back by one pass of parse from i. */
  lemma {:induction false} FromReads(reg: Registry, fmt: string, i: nat, vs: seq<Value>, d: nat,
                                     data: seq<byte>, pos: nat, acc: seq<Value>)
    requires i <= |fmt| && Balanced(fmt, i) && FitsFrom(reg, fmt, i, vs, d)
    requires Encodes(data, pos, WriteItems(reg, fmt, vs, i, d).out)
    ensures Pass(reg, fmt, i, data, pos, d, acc) == Step(Ok(acc + vs), pos + |WriteItems(reg, fmt, vs, i, d).out|)
    decreases d, 2, |fmt| - i
  {
    if i < |fmt| {
      var e := WriteElement(reg, fmt, vs[0], i, d);
      var next := TokenEnd(fmt, i);
      var w := WriteItems(reg, fmt, vs[1..], next, d);
      assert e.err.None? && e.next == next && WriteItems(reg, fmt, vs, i, d) == Written(e.out + w.out, w.err) by {
        TokenWrites(reg, fmt, i, vs[0], d);
        WriteItemsCons(reg, fmt, vs, i, d);
      }
      assert Encodes(data, pos, e.out) && Encodes(data, pos + |e.out|, w.out) by {
        EncodesSplit(data, pos, e.out, w.out);
      }
      var q := pos + |e.out|;
      assert ReadToken(reg, fmt, i, data, pos, d) == Got(Ok(vs[0]), q, next) by {
        TokenReads(reg, fmt, i, vs[0], d, data, pos);
      }
      assert Pass(reg, fmt, i, data, pos, d, acc) == Pass(reg, fmt, next, data, q, d, acc + [vs[0]]) by {
        PassCons(reg, fmt, i, data, pos, d, acc, vs[0], q, next);
      }
      var acc' := acc + [vs[0]];
      assert acc' + vs[1..] == acc + vs by {
        AppendCons(acc, vs);
      }
      assert Pass(reg, fmt, next, data, q, d, acc') == Step(Ok(acc' + vs[1..]), q + |w.out|) by {
        FromReads(reg, fmt, next, vs[1..], d, data, q, acc');
      }
    } else {
      assert vs == [] && acc + vs == acc;
      assert WriteItems(reg, fmt, vs, i, d).out == [];
    }
  }

  /** A record's fields, written against its layout, are parsed back as the field list. */
  lemma RecordReads(reg: Registry, fmt: string, fields: seq<Value>, d: nat, data: seq<byte>, pos: nat)
    requires FitsRecord(reg, fmt, fields, d)
    requires Encodes(data, pos, Codec.Write(reg, fmt, List(fields), d).out)
    ensures Codec.Parse(reg, fmt, data, pos, false, d)
         == Step(Ok(List(fields)), pos + |Codec.Write(reg, fmt, List(fields), d).out|)
    decreases d, 3, 0
  {
    var w := Codec.Write(reg, fmt, List(fields), d);
    RecordWrites(reg, fmt, fields, d);
    FromReads(reg, fmt, 0, fields, d, data, pos, []);
    assert [] + fields == fields;
    assert Passes(reg, fmt, data, pos, false, d, []) == Step(Ok(fields), pos + |w.out|);
  }

  /** The elements of a fitting array are read back by parsing the inner format once per
      element. */
  lemma {:induction false} ItemsReads(reg: Registry, inner: string, xs: seq<Value>, j: nat, d: nat,
                                      data: seq<byte>, pos: nat, acc: seq<Value>)
    requires |inner| == 1 && inner[0] != '['
    requires forall k :: 0 <= k < |xs| ==> FitsChar(reg, inner[0], xs[k], d)
    requires Encodes(data, pos, WriteItems(reg, inner, xs, j, d).out)
    ensures Elements(reg, inner, |xs|, data, pos, d + 1, acc)
         == Step(Ok(acc + xs), pos + |WriteItems(reg, inner, xs, j, d).out|)
    decreases d, 4, |xs|
  {
    if xs != [] {
      var c := inner[0];
      var e := WriteElement(reg, inner, xs[0], j, d);
      var w := WriteItems(reg, inner, xs[1..], e.next, d);
      var e1 := WriteElement(reg, [c], xs[0], 0, d);
      assert e.err.None? && e.out == e1.out && |e.out| >= 1 && WriteItems(reg, inner, xs, j, d) == Written(e.out + w.out, w.err) by {
        assert inner == [c];
        ModOne(j);
        WriteCharAt(reg, inner, xs[0], j, d);
        CharWrites(reg, c, xs[0], d);
        WriteItemsCons(reg, inner, xs, j, d);
      }
      assert Encodes(data, pos, e.out) && Encodes(data, pos + |e.out|, w.out) by {
        EncodesSplit(data, pos, e.out, w.out);
      }
      var q := pos + |e.out|;
      assert Parse(reg, inner, data, pos, false, d) == Step(Ok(xs[0]), q) by {
        assert inner == [c];
        CharReads(reg, c, xs[0], d, data, pos);
        ParseOne(reg, c, data, pos, d, xs[0], q);
      }
      var acc' := acc + [xs[0]];
      assert Elements(reg, inner, |xs|, data, pos, d + 1, acc)
          == Elements(reg, inner, |xs| - 1, data, q, d + 1, acc');
      assert acc' + xs[1..] == acc + xs by {
        AppendCons(acc, xs);
      }
      assert Elements(reg, inner, |xs[1..]|, data, q, d + 1, acc') == Step(Ok(acc' + xs[1..]), q + |w.out|) by {
        ItemsReads(reg, inner, xs[1..], e.next, d, data, q, acc');
      }
    } else {
      assert acc + xs == acc;
      assert WriteItems(reg, inner, xs, j, d).out == [];
    }
  }

  /** A fitting array value is read back as its elements by parsing the inner format once
      per element. */
  lemma ArrayReads(reg: Registry, inner: string, v: Value, d: nat, data: seq<byte>, pos: nat)
    requires BracketFree(inner) && FitsArray(reg, inner, v, d)
    requires Encodes(data, pos, Codec.Write(reg, inner, v, d).out)
    ensures Elements(reg, inner, |Elems(v)|, data, pos, d + 1, [])
         == Step(Ok(Elems(v)), pos + |Codec.Write(reg, inner, v, d).out|)
    decreases d, 5, 0
  {
    if |Elems(v)| > 0 {
      assert inner[0] in inner;
      ItemsReads(reg, inner, Elems(v), 0, d, data, pos, []);
      assert [] + Elems(v) == Elems(v);
    }
  }

  // ---------------------------------------------------------------------------------
  // The round trips

  lemma EncodesAll(bs: seq<byte>)
    ensures Encodes(bs, 0, bs)
  {
    assert bs[0..|bs|] == bs;
  }

  /** Writing the fields of a balanced format of two or more characters and parsing the
      bytes once gives the fields back, and consumes exactly the bytes written. */
  lemma OnePassRoundTrip(reg: Registry, fmt: string, vs: seq<Value>, d: nat)
    requires FitsRecord(reg, fmt, vs, d)
    ensures Codec.Write(reg, fmt, List(vs), d).err.None?
    ensures var out := Codec.Write(reg, fmt, List(vs), d).out;
            Codec.Parse(reg, fmt, out, 0, false, d) == Step(Ok(List(vs)), |out|)
  {
    var out := Codec.Write(reg, fmt, List(vs), d).out;
    RecordWrites(reg, fmt, vs, d);
    EncodesAll(out);
    RecordReads(reg, fmt, vs, d, out, 0);
  }

  /** xs is a whole number of passes over fmt, each pass holding one value per token. */
  predicate FitsPasses(reg: Registry, fmt: string, xs: seq<Value>, d: nat)
    requires |fmt| > 0
    decreases |xs|
  {
    xs == [] || (|xs| >= |fmt| && FitsFrom(reg, fmt, 0, xs[..|fmt|], d) && FitsPasses(reg, fmt, xs[|fmt|..], d))
  }

  /** Writing with a bracket-free format depends on the index only modulo its length. */
  lemma {:induction false} WriteItemsShift(reg: Registry, fmt: string, xs: seq<Value>, j: nat, d: nat)
    requires |fmt| > 0 && BracketFree(fmt)
    ensures WriteItems(reg, fmt, xs, j + |fmt|, d) == WriteItems(reg, fmt, xs, j, d)
    decreases |xs|
  {
    if xs != [] {
      ModShift(j, |fmt|);
      assert fmt[j % |fmt|] in fmt;
      WriteCharAt(reg, fmt, xs[0], j, d);
      WriteCharAt(reg, fmt, xs[0], j + |fmt|, d);
      WriteItemsShift(reg, fmt, xs[1..], j + 1, d);
    }
  }

  lemma HeadTailAppend<T>(a: seq<T>, b: seq<T>)
    requires a != []
    ensures (a + b)[0] == a[0] && (a + b)[1..] == a[1..] + b
  {
  }

  /** With a bracket-free format, the first value is written by its character and the rest
      follow from the next index. */
  lemma WriteItemsStep(reg: Registry, fmt: string, xs: seq<Value>, j: nat, d: nat)
    requires |fmt| > 0 && BracketFree(fmt) && xs != []
    ensures var e := WriteElement(reg, fmt, xs[0], j, d);
            var w := WriteItems(reg, fmt, xs[1..], j + 1, d);
            (WriteItems(reg, fmt, xs, j, d).err.None? ==> e.err.None?) &&
            (e.err.None? ==> e.next == j + 1 && WriteItems(reg, fmt, xs, j, d) == Written(e.out + w.out, w.err))
  {
    assert fmt[j % |fmt|] in fmt;
    WriteCharAt(reg, fmt, xs[0], j, d);
  }

  /** With a bracket-free format, writing a + b is writing a and then b from the index a
      ended at, when a is written without error. */
  lemma {:induction false} WriteItemsAppend(reg: Registry, fmt: string, a: seq<Value>, b: seq<Value>, j: nat, d: nat)
    requires |fmt| > 0 && BracketFree(fmt) && WriteItems(reg, fmt, a, j, d).err.None?
    ensures var wa := WriteItems(reg, fmt, a, j, d);
            var wb := WriteItems(reg, fmt, b, j + |a|, d);
            WriteItems(reg, fmt, a + b, j, d) == Written(wa.out + wb.out, wb.err)
    decreases |a|
  {
    if a == [] {
      assert a + b == b;
    } else {
      WriteItemsStep(reg, fmt, a, j, d);
      assert j + 1 + |a[1..]| == j + |a|;
      WriteItemsAppend(reg, fmt, a[1..], b, j + 1, d);
      WriteItemsAppendStep(reg, fmt, a, b, j, d);
    }
  }

  /** The inductive step of WriteItemsAppend: its statement for a[1..] gives it for a. */
  lemma WriteItemsAppendStep(reg: Registry, fmt: string, a: seq<Value>, b: seq<Value>, j: nat, d: nat)
    requires |fmt| > 0 && BracketFree(fmt) && a != [] && WriteItems(reg, fmt, a, j, d).err.None?
    requires var wa' := WriteItems(reg, fmt, a[1..], j + 1, d);
             var wb := WriteItems(reg, fmt, b, j + |a|, d);
             WriteItems(reg, fmt, a[1..] + b, j + 1, d) == Written(wa'.out + wb.out, wb.err)
    ensures var wa := WriteItems(reg, fmt, a, j, d);
            var wb := WriteItems(reg, fmt, b, j + |a|, d);
            WriteItems(reg, fmt, a + b, j, d) == Written(wa.out + wb.out, wb.err)
  {
    var e := WriteElement(reg, fmt, a[0], j, d);
    var wa' := WriteItems(reg, fmt, a[1..], j + 1, d);
    var wb := WriteItems(reg, fmt, b, j + |a|, d);
    WriteItemsStep(reg, fmt, a, j, d);
    WriteItemsConsAppend(reg, fmt, a, b, j, d);
    WrittenCombine(e.out, WriteItems(reg, fmt, a, j, d), wa', WriteItems(reg, fmt, a + b, j, d),
                   WriteItems(reg, fmt, a[1..] + b, j + 1, d), wb);
  }

  lemma WrittenCombine(e: seq<byte>, wa: Written, wa1: Written, wab: Written, wa1b: Written, wb: Written)
    requires wa == Written(e + wa1.out, wa1.err)
    requires wab == Written(e + wa1b.out, wa1b.err)
    requires wa1b == Written(wa1.out + wb.out, wb.err)
    ensures wab == Written(wa.out + wb.out, wb.err)
  {
    assert e + (wa1.out + wb.out) == (e + wa1.out) + wb.out;
  }

  /** Writing a + b starts with a's first value. */
  lemma WriteItemsConsAppend(reg: Registry, fmt: string, a: seq<Value>, b: seq<Value>, j: nat, d: nat)
    requires |fmt| > 0 && BracketFree(fmt) && a != [] && WriteElement(reg, fmt, a[0], j, d).err.None?
    ensures var e := WriteElement(reg, fmt, a[0], j, d);
            var w := WriteItems(reg, fmt, a[1..] + b, j + 1, d);
            WriteItems(reg, fmt, a + b, j, d) == Written(e.out + w.out, w.err)
  {
    HeadTailAppend(a, b);
    WriteItemsStep(reg, fmt, a + b, j, d);
  }

  /** One pass's values written from index 0, then the following passes' values. */
  lemma PassesSplit(reg: Registry, fmt: string, xs: seq<Value>, d: nat)
    requires |fmt| > 0 && BracketFree(fmt) && xs != [] && FitsPasses(reg, fmt, xs, d)
    ensures var w1 := WriteItems(reg, fmt, xs[..|fmt|], 0, d);
            var w2 := WriteItems(reg, fmt, xs[|fmt|..], 0, d);
            w1.err.None? && |w1.out| >= 1 &&
            WriteItems(reg, fmt, xs, 0, d) == Written(w1.out + w2.out, w2.err)
  {
    var m := |fmt|;
    var a, b := xs[..m], xs[m..];
    var w1 := WriteItems(reg, fmt, a, 0, d);
    assert w1.err.None? && |w1.out| >= 1 by {
      BracketFreeTokens(fmt, 0);
      FromWrites(reg, fmt, 0, a, d);
    }
    var wb := WriteItems(reg, fmt, b, m, d);
    assert WriteItems(reg, fmt, a + b, 0, d) == Written(w1.out + wb.out, wb.err) by {
      WriteItemsAppend(reg, fmt, a, b, 0, d);
    }
    assert wb == WriteItems(reg, fmt, b, 0, d) by {
      WriteItemsShift(reg, fmt, b, 0, d);
    }
    assert a + b == xs;
  }

  /** Whole passes of fitting values over a bracket-free format are written without error. */
  lemma {:induction false} PassesWrite(reg: Registry, fmt: string, xs: seq<Value>, d: nat)
    requires |fmt| > 0 && BracketFree(fmt) && FitsPasses(reg, fmt, xs, d)
    ensures WriteItems(reg, fmt, xs, 0, d).err.None?
    decreases |xs|
  {
    if xs != [] {
      PassesSplit(reg, fmt, xs, d);
      PassesWrite(reg, fmt, xs[|fmt|..], d);
    }
  }

  /** Repeat-mode parsing of the rest of a buffer holding whole passes reads them back as
      one flat list appended to what was read before. */
  lemma {:induction false} PassesRead(reg: Registry, fmt: string, xs: seq<Value>, d: nat,
                                      data: seq<byte>, pos: nat, acc: seq<Value>)
    requires |fmt| > 0 && BracketFree(fmt) && FitsPasses(reg, fmt, xs, d)
    requires Encodes(data, pos, WriteItems(reg, fmt, xs, 0, d).out)
    requires pos + |WriteItems(reg, fmt, xs, 0, d).out| == |data|
    ensures Passes(reg, fmt, data, pos, true, d, acc) == Step(Ok(acc + xs), |data|)
    decreases |xs|
  {
    if xs == [] {
      assert acc + xs == acc;
    } else {
      var m := |fmt|;
      var w1 := WriteItems(reg, fmt, xs[..m], 0, d);
      var w2 := WriteItems(reg, fmt, xs[m..], 0, d);
      PassesSplit(reg, fmt, xs, d);
      assert Encodes(data, pos, w1.out) && Encodes(data, pos + |w1.out|, w2.out) by {
        EncodesSplit(data, pos, w1.out, w2.out);
      }
      var q := pos + |w1.out|;
      var acc' := acc + xs[..m];
      assert Pass(reg, fmt, 0, data, pos, d, acc) == Step(Ok(acc'), q) by {
        BracketFreeTokens(fmt, 0);
        FromReads(reg, fmt, 0, xs[..m], d, data, pos, acc);
      }
      assert Passes(reg, fmt, data, q, true, d, acc') == Step(Ok(acc' + xs[m..]), |data|) by {
        PassesRead(reg, fmt, xs[m..], d, data, q, acc');
      }
      AppendSlices(acc, xs, m);
    }
  }

  lemma AppendSlices(acc: seq<Value>, xs: seq<Value>, m: nat)
    requires m <= |xs|
    ensures acc + xs[..m] + xs[m..] == acc + xs
  {
    assert xs[..m] + xs[m..] == xs;
  }

  /** Writing whole passes over a bracket-free format and parsing the bytes in repeat mode
      gives the same values back as one flat list, and consumes exactly the bytes written. */
  lemma RepeatRoundTrip(reg: Registry, fmt: string, xs: seq<Value>, d: nat)
    requires |fmt| > 0 && BracketFree(fmt) && FitsPasses(reg, fmt, xs, d)
    ensures Codec.Write(reg, fmt, List(xs), d).err.None?
    ensures var out := Codec.Write(reg, fmt, List(xs), d).out;
            Codec.Parse(reg, fmt, out, 0, true, d) == Step(Ok(List(xs)), |out|)
  {
    var out := Codec.Write(reg, fmt, List(xs), d).out;
    PassesWrite(reg, fmt, xs, d);
    EncodesAll(out);
    PassesRead(reg, fmt, xs, d, out, 0, []);
    assert [] + xs == xs;
  }
}
