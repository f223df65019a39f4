/** Properties of the decoder and encoder beyond the round trip: the shape of parse's
    result, how arrays are framed and coalesced, how write wraps and cycles, which
    character meaning wins, and the inputs on which the round trip breaks. */
module CodecFacts {
  import opened Wire
  import opened Formats
  import opened Codec
  import opened CodecRoundTrip

  const NoTypes: Registry := Registry(map[], map[])

  // ---------------------------------------------------------------------------------
  // The shape of parse's result

  /** A bare value comes back only for a one-character format outside repeat mode;
      every other successful parse returns a list. */
  lemma ParseShape(reg: Registry, fmt: string, data: seq<byte>, pos: nat, repeat: bool, depth: nat)
    requires pos <= |data|
    ensures var r := Codec.Parse(reg, fmt, data, pos, repeat, depth);
            r.out.Ok? && (|fmt| != 1 || repeat) ==> r.out.value.List?
  {
  }

  /** On an exhausted buffer no pass runs: a one-character format fails on result[0], any
      other format returns the empty list, and nothing is read. */
  lemma ParseExhausted(reg: Registry, fmt: string, data: seq<byte>, repeat: bool, depth: nat)
    ensures var r := Codec.Parse(reg, fmt, data, |data|, repeat, depth);
            r.pos == |data| &&
            (|fmt| == 1 && !repeat ==> r.out == Err(NoResult)) &&
            (|fmt| != 1 || repeat ==> r.out == Ok(List([])))
  {
  }

  /** Repeat mode with a pass that reads nothing never ends in the source; the model
      reports it. An empty format does that on any non-empty buffer. */
  lemma EmptyFormatRepeat(reg: Registry, data: seq<byte>, depth: nat)
    requires |data| > 0
    ensures Codec.Parse(reg, "", data, 0, true, depth) == Step(Err(Diverges), 0)
    ensures Codec.Parse(reg, "", data, 0, false, depth) == Step(Ok(List([])), 0)
  {
    assert Pass(reg, "", 0, data, 0, depth, []) == Step(Ok([]), 0);
  }

  /** Repeat mode appends every pass to one flat list: "bB" over four bytes gives four
      numbers, not two pairs. */
  lemma RepeatIsFlat()
    ensures Codec.Parse(NoTypes, "bB", [1, 2, 3, 0xFF], 0, true, 0)
         == Step(Ok(List([Int(1), Int(2), Int(3), Int(255)])), 4)
  {
    var data: seq<byte> := [1, 2, 3, 0xFF];
    var all := [Int(1), Int(2), Int(3), Int(255)];
    RepeatFirstPass();
    RepeatSecondPass();
    assert Passes(NoTypes, "bB", data, 4, true, 0, all) == Step(Ok(all), 4);
    assert Passes(NoTypes, "bB", data, 2, true, 0, [Int(1), Int(2)]) == Step(Ok(all), 4);
  }

  /** The first pass of "bB" over the example reads the bytes 1 and 2. */
  lemma RepeatFirstPass()
    ensures Pass(NoTypes, "bB", 0, [1, 2, 3, 0xFF], 0, 0, []) == Step(Ok([Int(1), Int(2)]), 2)
  {
    var data: seq<byte> := [1, 2, 3, 0xFF];
    ReadByte(NoTypes, "bB", 0, data, 0, 0);
    ReadByte(NoTypes, "bB", 1, data, 1, 0);
    assert [] + [Int(1)] == [Int(1)] && [Int(1)] + [Int(2)] == [Int(1), Int(2)];
    assert Pass(NoTypes, "bB", 2, data, 2, 0, [Int(1), Int(2)]) == Step(Ok([Int(1), Int(2)]), 2);
    assert Pass(NoTypes, "bB", 1, data, 1, 0, [Int(1)]) == Step(Ok([Int(1), Int(2)]), 2);
  }

  /** The second pass appends the bytes 3 and 0xFF to the first pass's values. */
  lemma RepeatSecondPass()
    ensures Pass(NoTypes, "bB", 0, [1, 2, 3, 0xFF], 2, 0, [Int(1), Int(2)])
         == Step(Ok([Int(1), Int(2), Int(3), Int(255)]), 4)
  {
    var data: seq<byte> := [1, 2, 3, 0xFF];
    var all := [Int(1), Int(2), Int(3), Int(255)];
    ReadByte(NoTypes, "bB", 0, data, 2, 0);
    ReadByte(NoTypes, "bB", 1, data, 3, 0);
    assert [Int(1), Int(2)] + [Int(3)] == [Int(1), Int(2), Int(3)];
    assert [Int(1), Int(2), Int(3)] + [Int(255)] == all;
    assert Pass(NoTypes, "bB", 2, data, 4, 0, all) == Step(Ok(all), 4);
    assert Pass(NoTypes, "bB", 1, data, 3, 0, [Int(1), Int(2), Int(3)]) == Step(Ok(all), 4);
  }

  /** Reading "b" or "B" at a byte both read the same way. */
  lemma ReadByte(reg: Registry, fmt: string, i: nat, data: seq<byte>, pos: nat, depth: nat)
    requires i < |fmt| && pos < |data| && (fmt[i] == 'b' || fmt[i] == 'B') && fmt[i] !in reg.formats
    requires fmt[i] == 'B' || data[pos] < 128
    ensures ReadToken(reg, fmt, i, data, pos, depth) == Got(Ok(Int(data[pos])), pos + 1, i + 1)
  {
    assert data[pos..pos + 1] == [data[pos]];
    assert FromLE([data[pos]]) == data[pos] by { assert [data[pos]][1..] == []; }
    assert Pow256(1) == 256;
  }

  /** Reading "s" at an ASCII byte. */
  lemma ReadAscii(reg: Registry, fmt: string, i: nat, data: seq<byte>, pos: nat, depth: nat)
    requires i < |fmt| && pos < |data| && fmt[i] == 's' && 's' !in reg.formats && data[pos] < 128
    ensures ReadToken(reg, fmt, i, data, pos, depth) == Got(Ok(Str([data[pos] as char])), pos + 1, i + 1)
  {
    assert data[pos..pos + 1] == [data[pos]];
  }

  /** A one-byte count in the 32-bit count field. */
  lemma SmallCount(n: nat)
    requires n < 256
    ensures n < Pow256(4) && ToLE(n, 4) == [n, 0, 0, 0] && FromLE([n, 0, 0, 0]) == n
  {
    assert Pow256(4) == 0x1_0000_0000;
    assert FromLE([0]) == 0;
    assert FromLE([0, 0]) == 0 by { assert [0, 0][1..] == [0]; }
    assert FromLE([0, 0, 0]) == 0 by { assert [0, 0, 0][1..] == [0, 0]; }
    assert [n, 0, 0, 0][1..] == [0, 0, 0];
  }

  /** "b" packs a small non-negative integer as its one byte. */
  lemma PackSmall(n: nat)
    requires n < 128
    ensures Pack('b', Int(n)) == Ok([n])
  {
    assert Pow256(1) == 256;
    assert ToLE(n, 1) == [n];
  }

  // ---------------------------------------------------------------------------------
  // Arrays

  /** An array is written as the unsigned 32-bit count len(o), then what writing o with
      the inner format (the text up to the first ']' after i) emits. */
  lemma ArrayFraming(reg: Registry, fmt: string, o: Value, i: nat, depth: nat)
    requires |fmt| > 0 && fmt[i % |fmt|] == '[' && depth >= 1
    requires Len(o).Some? && Len(o).value < Pow256(4)
    ensures var e := WriteElement(reg, fmt, o, i, depth);
            var w := Codec.Write(reg, Slice(fmt, i + 1, Find(fmt, ']', i)), o, depth - 1);
            |e.out| >= 4 && FromLE(e.out[..4]) == Len(o).value && e.out[4..] == w.out && e.err == w.err
  {
    var e := WriteElement(reg, fmt, o, i, depth);
    var n := Len(o).value;
    assert e.out[..4] == ToLE(n, 4);
    FromToLE(n, 4);
  }

  /** A decoded array that stays a list has exactly as many elements as the count read
      in front of it. */
  lemma ArrayCount(reg: Registry, fmt: string, i: nat, data: seq<byte>, pos: nat, depth: nat)
    requires i < |fmt| && fmt[i] == '[' && pos <= |data|
    requires ReadToken(reg, fmt, i, data, pos, depth).out.Ok?
    ensures pos + 4 <= |data|
    ensures var v := ReadToken(reg, fmt, i, data, pos, depth).out.value;
            v.List? ==> |v.items| == FromLE(data[pos..pos + 4])
  {
  }

  /** A count of zero decodes to the empty string, whatever the inner format, and reads
      nothing after the count. */
  lemma EmptyArrayIsString(reg: Registry, fmt: string, i: nat, data: seq<byte>, pos: nat, depth: nat)
    requires i < |fmt| && fmt[i] == '[' && pos + 4 <= |data| && data[pos..pos + 4] == [0, 0, 0, 0]
    ensures ReadToken(reg, fmt, i, data, pos, depth) == Got(Ok(Str("")), pos + 4, Find(fmt, ']', i) + 1)
  {
    assert FromLE([0, 0, 0, 0]) == 0;
  }

  /** Coalescing: a string exactly when every element is a string, the empty string for no
      elements, the elements themselves as soon as one is not a string, and one character
      per element when each element is one character. */
  lemma {:induction false} CoalesceFacts(arr: seq<Value>)
    ensures Coalesce(arr).Str? <==> AllStr(arr)
    ensures arr == [] ==> Coalesce(arr) == Str("")
    ensures !AllStr(arr) ==> Coalesce(arr) == List(arr)
    ensures (forall k :: 0 <= k < |arr| ==> arr[k].Str? && |arr[k].s| == 1) ==> |Coalesce(arr).s| == |arr|
  {
    if forall k :: 0 <= k < |arr| ==> arr[k].Str? && |arr[k].s| == 1 {
      JoinOneChars(arr);
    }
  }

  lemma {:induction false} JoinOneChars(arr: seq<Value>)
    requires forall k :: 0 <= k < |arr| ==> arr[k].Str? && |arr[k].s| == 1
    ensures |Join(arr)| == |arr|
  {
    if arr != [] {
      JoinOneChars(arr[1..]);
    }
  }

  /** One pass over the format only appends to the result list it is given. */
  lemma {:induction false} PassAppends(reg: Registry, fmt: string, i: nat, data: seq<byte>, pos: nat, d: nat,
                                       acc: seq<Value>)
    requires i <= |fmt| && pos <= |data|
    ensures var r := Pass(reg, fmt, i, data, pos, d, acc);
            r.out.Ok? ==> |acc| <= |r.out.value| && r.out.value[..|acc|] == acc
    decreases |data| - pos, |fmt| - i
  {
    if i < |fmt| {
      var t := ReadToken(reg, fmt, i, data, pos, d);
      if t.out.Ok? {
        var acc' := acc + [t.out.value];
        PassAppends(reg, fmt, t.next, data, t.pos, d, acc');
        assert acc'[..|acc|] == acc;
      }
    }
  }

  /** The repeat loop only appends to the result list it is given: every pass lands in
      one flat list. */
  lemma {:induction false} PassesAppend(reg: Registry, fmt: string, data: seq<byte>, pos: nat, repeat: bool,
                                        d: nat, acc: seq<Value>)
    requires pos <= |data|
    ensures var r := Passes(reg, fmt, data, pos, repeat, d, acc);
            r.out.Ok? ==> |acc| <= |r.out.value| && r.out.value[..|acc|] == acc
    decreases |data| - pos
  {
    if |data| - pos > 0 {
      var p := Pass(reg, fmt, 0, data, pos, d, acc);
      PassAppends(reg, fmt, 0, data, pos, d, acc);
      if p.out.Ok? && repeat && p.pos != pos {
        var mid := p.out.value;
        PassesAppend(reg, fmt, data, p.pos, repeat, d, mid);
        var r := Passes(reg, fmt, data, p.pos, repeat, d, mid);
        if r.out.Ok? {
          assert r.out.value[..|acc|] == r.out.value[..|mid|][..|acc|];
        }
      }
    }
  }

  /** The two elements of the array in StringArrayInList. */
  lemma HiElementsRead(data: seq<byte>)
    requires data == [2, 0, 0, 0, 104, 105]
    ensures Elements(NoTypes, "s", 2, data, 4, 1, []) == Step(Ok([Str("h"), Str("i")]), 6)
  {
    ReadAscii(NoTypes, "s", 0, data, 4, 0);
    ReadAscii(NoTypes, "s", 0, data, 5, 0);
    ParseOne(NoTypes, 's', data, 4, 0, Str("h"), 5);
    ParseOne(NoTypes, 's', data, 5, 0, Str("i"), 6);
    assert Elements(NoTypes, "s", 0, data, 6, 1, [Str("h"), Str("i")]) == Step(Ok([Str("h"), Str("i")]), 6);
    assert Elements(NoTypes, "s", 1, data, 5, 1, [Str("h")]) == Step(Ok([Str("h"), Str("i")]), 6) by {
      assert [Str("h")] + [Str("i")] == [Str("h"), Str("i")];
    }
    assert [] + [Str("h")] == [Str("h")];
  }

  /** A top-level "[s]" is a three-character format, so its string comes back inside a
      one-element list. */
  lemma StringArrayInList(data: seq<byte>)
    requires data == [2, 0, 0, 0, 104, 105]
    ensures Codec.Parse(NoTypes, "[s]", data, 0, false, 1) == Step(Ok(List([Str("hi")])), 6)
  {
    assert ReadToken(NoTypes, "[s]", 0, data, 0, 1) == Got(Ok(Str("hi")), 6, 3) by {
      SmallCount(2);
      assert data[0..4] == [2, 0, 0, 0];
      assert Find("[s]", ']', 0) == 2 && Slice("[s]", 1, 2) == "s";
      assert Inner("[s]", 0) == "s" && TokenEnd("[s]", 0) == 3;
      HiElementsRead(data);
      assert Coalesce([Str("h"), Str("i")]) == Str("hi") by {
        assert [Str("h"), Str("i")][1..] == [Str("i")];
      }
      BracketRead(NoTypes, "[s]", 0, data, 0, 1, 2, [Str("h"), Str("i")], 6);
    }
    assert Pass(NoTypes, "[s]", 0, data, 0, 1, []) == Step(Ok([Str("hi")]), 6) by {
      PassCons(NoTypes, "[s]", 0, data, 0, 1, [], Str("hi"), 6, 3);
      assert [] + [Str("hi")] == [Str("hi")];
    }
    ParseOnePass(NoTypes, "[s]", data, 0, 1, [Str("hi")], 6);
  }

  /** Without repeat, a format of other than one character returns its one pass as a list. */
  lemma ParseOnePass(reg: Registry, fmt: string, data: seq<byte>, pos: nat, d: nat, vs: seq<Value>, q: nat)
    requires pos < |data| && |fmt| != 1
    requires Pass(reg, fmt, 0, data, pos, d, []) == Step(Ok(vs), q)
    ensures Codec.Parse(reg, fmt, data, pos, false, d) == Step(Ok(List(vs)), q)
  {
  }

  // ---------------------------------------------------------------------------------
  // Writing

  /** What write emits for a list of values all written with the same struct code. */
  function PackAll(c: char, xs: seq<Value>): (w: Written)
    ensures w.err.None? && xs != [] ==> CodeOf(c).Some? && |w.out| == |xs| * CodeOf(c).value.width
  {
    if xs == [] then Written([], None)
    else
      match Pack(c, xs[0])
      case Err(e) => Written([], Some(e))
      case Ok(bs) =>
        var w := PackAll(c, xs[1..]);
        assert |xs| * |bs| == |bs| + |xs[1..]| * |bs|;
        Written(bs + w.out, w.err)
  }

  /** A one-character format writes every list element with that one struct code. */
  lemma {:induction false} OneCharWritesEach(reg: Registry, c: char, xs: seq<Value>, j: nat, depth: nat)
    requires c != '[' && c !in reg.formats
    ensures WriteItems(reg, [c], xs, j, depth) == PackAll(c, xs)
    decreases |xs|
  {
    if xs != [] {
      ModOne(j);
      OneCharWritesEach(reg, c, xs[1..], j + 1, depth);
    }
  }

  /** write wraps an object that is neither a list nor a string in a one-element list. */
  lemma WrapsScalar(reg: Registry, fmt: string, o: Value, depth: nat)
    requires !o.List? && !o.Str?
    ensures Codec.Write(reg, fmt, o, depth) == Codec.Write(reg, fmt, List([o]), depth)
  {
  }

  /** A string is written character by character: with "s" each ASCII character becomes
      its own byte, and the one byte read back per character gives the string again. */
  lemma StringWritesChars(reg: Registry, s: string, depth: nat)
    requires 's' !in reg.formats
    requires forall k :: 0 <= k < |s| ==> (s[k] as int) < 128
    ensures Codec.Write(reg, "s", Str(s), depth) == Written(seq(|s|, k requires 0 <= k < |s| => s[k] as int as byte), None)
  {
    OneCharWritesEach(reg, 's', Chars(s), 0, depth);
    AsciiPacks(s);
  }

  lemma {:induction false} AsciiPacks(s: string)
    requires forall k :: 0 <= k < |s| ==> (s[k] as int) < 128
    ensures PackAll('s', Chars(s)) == Written(seq(|s|, k requires 0 <= k < |s| => s[k] as int as byte), None)
  {
    if s != [] {
      assert Chars(s)[1..] == Chars(s[1..]);
      AsciiPacks(s[1..]);
      assert Pack('s', Str([s[0]])) == Ok([s[0] as int]);
    }
  }

  /** Once the writer wraps around a bracketed format, find searches from the unreduced
      index and misses the ']': the second array of "[b]" gets the empty inner format,
      which fails on i % len(""). */
  lemma CyclingBracketsFails()
    ensures Codec.Write(NoTypes, "[b]", List([List([Int(1)]), List([Int(2)])]), 2)
         == Written([1, 0, 0, 0, 1, 1, 0, 0, 0], Some(EmptyFormat))
  {
    FirstBracketWritten();
    WrappedBracketFails();
    assert WriteItems(NoTypes, "[b]", [List([Int(2)])], 3, 2) == Written([1, 0, 0, 0], Some(EmptyFormat));
  }

  /** The first array of the example, written at index 0 of "[b]". */
  lemma FirstBracketWritten()
    ensures WriteElement(NoTypes, "[b]", List([Int(1)]), 0, 2) == Emitted([1, 0, 0, 0, 1], None, 3)
  {
    SmallCount(1);
    PackSmall(1);
    assert Find("[b]", ']', 0) == 2 && Slice("[b]", 1, 2) == "b";
    assert Codec.Write(NoTypes, "b", List([Int(1)]), 1) == Written([1], None) by {
      ModBelow(0, 1);
      assert WriteElement(NoTypes, "b", Int(1), 0, 1) == Emitted([1], None, 1);
    }
    ModBelow(0, 3);
  }

  /** The second array of the example, written at the unreduced index 3 of "[b]". */
  lemma WrappedBracketFails()
    ensures WriteElement(NoTypes, "[b]", List([Int(2)]), 3, 2) == Emitted([1, 0, 0, 0], Some(EmptyFormat), 0)
  {
    SmallCount(1);
    assert Find("[b]", ']', 3) == -1 && Slice("[b]", 4, -1) == "";
    assert Codec.Write(NoTypes, "", List([Int(2)]), 1) == Written([], Some(EmptyFormat));
    assert 3 % 3 == 0;
  }

  /** A multi-character inner format does not round-trip: the writer counts the flat
      elements, the reader parses that many groups. [[1, 2]] written with "[bb]" is the
      count 2 and the bytes 1 and 2 ... */
  lemma MultiCharInnerWrite()
    ensures Codec.Write(NoTypes, "[bb]", List([List([Int(1), Int(2)])]), 1) == Written([2, 0, 0, 0, 1, 2], None)
  {
    SmallCount(2);
    PackSmall(1);
    PackSmall(2);
    assert Find("[bb]", ']', 0) == 3 && Slice("[bb]", 1, 3) == "bb";
    assert Codec.Write(NoTypes, "bb", List([Int(1), Int(2)]), 0) == Written([1, 2], None) by {
      ModBelow(0, 2);
      ModBelow(1, 2);
      assert WriteItems(NoTypes, "bb", [Int(2)], 1, 0) == Written([2], None);
    }
    assert WriteElement(NoTypes, "[bb]", List([Int(1), Int(2)]), 0, 1) == Emitted([2, 0, 0, 0, 1, 2], None, 4) by {
      ModBelow(0, 4);
    }
  }

  /** ... which reads back as [[[1, 2], []]]: the second group finds the buffer empty. */
  lemma MultiCharInnerRead()
    ensures Codec.Parse(NoTypes, "[bb]", [2, 0, 0, 0, 1, 2], 0, false, 1)
         == Step(Ok(List([List([List([Int(1), Int(2)]), List([])])])), 6)
  {
    var data: seq<byte> := [2, 0, 0, 0, 1, 2];
    var groups := [List([Int(1), Int(2)]), List([])];
    SmallCount(2);
    assert data[0..4] == [2, 0, 0, 0];
    assert Find("[bb]", ']', 0) == 3 && Slice("[bb]", 1, 3) == "bb";
    MultiCharGroupsRead();
    assert !AllStr(groups) by { assert !groups[0].Str?; }
    assert ReadToken(NoTypes, "[bb]", 0, data, 0, 1) == Got(Ok(List(groups)), 6, 4);
    assert Pass(NoTypes, "[bb]", 0, data, 0, 1, []) == Step(Ok([List(groups)]), 6) by {
      assert [] + [List(groups)] == [List(groups)];
    }
  }

  /** The two groups the reader parses with "bb" after the count 2: [1, 2], then []. */
  lemma MultiCharGroupsRead()
    ensures Elements(NoTypes, "bb", 2, [2, 0, 0, 0, 1, 2], 4, 1, [])
         == Step(Ok([List([Int(1), Int(2)]), List([])]), 6)
  {
    var data: seq<byte> := [2, 0, 0, 0, 1, 2];
    var pair := [Int(1), Int(2)];
    var groups := [List(pair), List([])];
    MultiCharPairRead();
    assert Codec.Parse(NoTypes, "bb", data, 6, false, 0) == Step(Ok(List([])), 6);
    assert [] + [List(pair)] == [List(pair)] && [List(pair)] + [List([])] == groups;
    assert Elements(NoTypes, "bb", 0, data, 6, 1, groups) == Step(Ok(groups), 6);
    assert Elements(NoTypes, "bb", 1, data, 6, 1, [List(pair)]) == Step(Ok(groups), 6);
  }

  /** The first group: "bb" parses the bytes 1 and 2. */
  lemma MultiCharPairRead()
    ensures Codec.Parse(NoTypes, "bb", [2, 0, 0, 0, 1, 2], 4, false, 0) == Step(Ok(List([Int(1), Int(2)])), 6)
  {
    var data: seq<byte> := [2, 0, 0, 0, 1, 2];
    var pair := [Int(1), Int(2)];
    ReadByte(NoTypes, "bb", 0, data, 4, 0);
    ReadByte(NoTypes, "bb", 1, data, 5, 0);
    assert [] + [Int(1)] == [Int(1)] && [Int(1)] + [Int(2)] == pair;
    assert Pass(NoTypes, "bb", 2, data, 6, 0, pair) == Step(Ok(pair), 6);
    assert Pass(NoTypes, "bb", 1, data, 5, 0, [Int(1)]) == Step(Ok(pair), 6);
    assert Pass(NoTypes, "bb", 0, data, 4, 0, []) == Step(Ok(pair), 6);
  }

  /** A non-ASCII character is packed as the first byte of its UTF-8 encoding ... */
  lemma NonAsciiWrite()
    ensures Codec.Write(NoTypes, "[s]", List([Str("é")]), 1) == Written([1, 0, 0, 0, 0xC3], None)
  {
    SmallCount(1);
    assert Find("[s]", ']', 0) == 2 && Slice("[s]", 1, 2) == "s";
    assert Chars("é") == [Str("é")];
    assert FirstUtf8Byte("é") == 0xC3;
    assert Codec.Write(NoTypes, "s", Str("é"), 0) == Written([0xC3], None) by {
      ModBelow(0, 1);
    }
    assert WriteElement(NoTypes, "[s]", Str("é"), 0, 1) == Emitted([1, 0, 0, 0, 0xC3], None, 3) by {
      ModBelow(0, 3);
    }
  }

  /** ... which does not decode on its own. */
  lemma NonAsciiRead()
    ensures Codec.Parse(NoTypes, "[s]", [1, 0, 0, 0, 0xC3], 0, false, 1) == Step(Err(NotUtf8(0xC3)), 5)
  {
    var data: seq<byte> := [1, 0, 0, 0, 0xC3];
    SmallCount(1);
    assert data[0..4] == [1, 0, 0, 0] && data[4..5] == [0xC3];
    assert Find("[s]", ']', 0) == 2 && Slice("[s]", 1, 2) == "s";
    assert ReadToken(NoTypes, "s", 0, data, 4, 0) == Got(Err(NotUtf8(0xC3)), 5, 1);
    assert Codec.Parse(NoTypes, "s", data, 4, false, 0) == Step(Err(NotUtf8(0xC3)), 5);
    assert ReadToken(NoTypes, "[s]", 0, data, 0, 1) == Got(Err(NotUtf8(0xC3)), 5, 0);
  }

  // ---------------------------------------------------------------------------------
  // Registered characters

  /** A registered character always decodes to an instance of its registered class, even
      when it is also a struct code. */
  lemma RegisteredDecodesToInstance(reg: Registry, fmt: string, i: nat, data: seq<byte>, pos: nat, depth: nat)
    requires i < |fmt| && fmt[i] != '[' && fmt[i] in reg.formats && pos <= |data|
    requires ReadToken(reg, fmt, i, data, pos, depth).out.Ok?
    ensures fmt[i] in reg.types && depth >= 1
    ensures ReadToken(reg, fmt, i, data, pos, depth).out.value.Obj?
    ensures ReadToken(reg, fmt, i, data, pos, depth).out.value.cls == reg.types[fmt[i]]
  {
  }

  /** A registered character is written through serialize(): anything that is not a record
      fails. */
  lemma RegisteredNeedsRecord(reg: Registry, fmt: string, o: Value, i: nat, depth: nat)
    requires |fmt| > 0 && fmt[i % |fmt|] != '[' && fmt[i % |fmt|] in reg.formats && !o.Obj?
    ensures WriteElement(reg, fmt, o, i, depth) == Emitted([], Some(NoSerialize), i)
  {
  }

  /** Registering "b" changes what "b" means: with the layout "BB" it reads a record of
      both bytes instead of one signed byte. */
  lemma RegistryTakesPrecedence()
    ensures Codec.Parse(NoTypes, "b", [1, 2], 0, false, 1) == Step(Ok(Int(1)), 1)
    ensures Codec.Parse(Registry(map['b' := "BB"], map['b' := "Pair"]), "b", [1, 2], 0, false, 1)
         == Step(Ok(Obj("Pair", [Int(1), Int(2)])), 2)
  {
    var data: seq<byte> := [1, 2];
    var reg := Registry(map['b' := "BB"], map['b' := "Pair"]);
    ReadByte(NoTypes, "b", 0, data, 0, 1);
    ParseOne(NoTypes, 'b', data, 0, 1, Int(1), 1);
    ReadByte(reg, "BB", 0, data, 0, 0);
    ReadByte(reg, "BB", 1, data, 1, 0);
    var pair := [Int(1), Int(2)];
    assert Codec.Parse(reg, "BB", data, 0, false, 0) == Step(Ok(List(pair)), 2) by {
      assert [] + [Int(1)] == [Int(1)] && [Int(1)] + [Int(2)] == pair;
      assert Pass(reg, "BB", 2, data, 2, 0, pair) == Step(Ok(pair), 2);
      assert Pass(reg, "BB", 1, data, 1, 0, [Int(1)]) == Step(Ok(pair), 2);
      assert Pass(reg, "BB", 0, data, 0, 0, []) == Step(Ok(pair), 2);
    }
    assert ReadToken(reg, "b", 0, data, 0, 1) == Got(Ok(Obj("Pair", pair)), 2, 1);
    ParseOne(reg, 'b', data, 0, 1, Obj("Pair", pair), 2);
  }

  /** A one-character layout breaks its constructor: parse returns the bare field, which
      *data cannot splat. */
  lemma OneCharLayoutFails()
    ensures Codec.Parse(Registry(map['P' := "b"], map['P' := "Box"]), "P", [5], 0, false, 1)
         == Step(Err(NotIterable), 1)
  {
    var data: seq<byte> := [5];
    var reg := Registry(map['P' := "b"], map['P' := "Box"]);
    ReadByte(reg, "b", 0, data, 0, 0);
    ParseOne(reg, 'b', data, 0, 0, Int(5), 1);
    assert ReadToken(reg, "P", 0, data, 0, 1) == Got(Err(NotIterable), 1, 1);
    assert Pass(reg, "P", 0, data, 0, 1, []) == Step(Err(NotIterable), 1);
  }
}
