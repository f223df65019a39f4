/** The stateful side of ailab/data/binary_reader.py: the two registries the module
    mutates, a seekable input file, an output file, and parse, write and _len_remaining
    as the loops the source runs, each proved to do what the functions of Codec say. */
module CodecIO {
  import opened Wire
  import opened Formats
  import opened Codec

  /** A binary file opened for reading: its bytes and the read position. */
  class Stream {
    const data: seq<byte>
    var pos: nat

    ghost predicate Valid()
      reads this
    {
      pos <= |data|
    }

    constructor (bytes: seq<byte>)
      ensures data == bytes && pos == 0 && Valid()
    {
      data := bytes;
      pos := 0;
    }

    /** f.tell() */
    method Tell() returns (p: nat)
      ensures p == pos
    {
      p := pos;
    }

    /** f.seek(0, 2): to the end of the file. */
    method SeekEnd()
      modifies this
      ensures pos == |data|
    {
      pos := |data|;
    }

    /** f.seek(p, 0): to an absolute position inside the file. */
    method SeekSet(p: nat)
      requires p <= |data|
      modifies this
      ensures pos == p
    {
      pos := p;
    }

    /** f.read(n): the next n bytes, or all that remain when fewer do. */
    method Read(n: nat) returns (bs: seq<byte>)
      requires Valid()
      modifies this
      ensures Valid()
      ensures pos == old(pos) + |bs| && bs == data[old(pos)..pos]
      ensures |bs| == n || (|bs| < n && pos == |data|)
    {
      var end := if pos + n <= |data| then pos + n else |data|;
      bs := data[pos..end];
      pos := end;
    }
  }

  /** A binary file opened for writing: the bytes written so far. */
  class Sink {
    var bytes: seq<byte>

    constructor ()
      ensures bytes == []
    {
      bytes := [];
    }

    /** f.write(bs) */
    method WriteBytes(bs: seq<byte>)
      modifies this
      ensures bytes == old(bytes) + bs
    {
      bytes := bytes + bs;
    }
  }

  /** _TYPE_REGISTRY and _FMT_REGISTRY. */
  class TypeRegistry {
    var types: map<char, ClassName>
    var formats: map<char, string>

    /** The two registries always gain their entries together. */
    ghost predicate Valid()
      reads this
    {
      types.Keys == formats.Keys
    }

    /** The registries as a value, as parse and write consult them. */
    function Snapshot(): Registry
      reads this
    {
      Registry(formats, types)
    }

    /** The registries at import time: empty. */
    constructor ()
      ensures Valid() && types == map[] && formats == map[]
    {
      types := map[];
      formats := map[];
    }

    /** register_binary_fmt(c, layout) applied to the class cls: a type character that is
        already registered raises RuntimeError and changes neither registry; otherwise both
        gain the entry and the class is returned unchanged. */
    method Register(c: char, layout: string, cls: ClassName) returns (r: Result<ClassName>)
      requires Valid()
      modifies this
      ensures Valid()
      ensures c in old(types) ==> r == Err(AlreadyDefined(c)) && types == old(types) && formats == old(formats)
      ensures c !in old(types) ==>
                r == Ok(cls) && types == old(types)[c := cls] && formats == old(formats)[c := layout]
    {
      if c in types {
        return Err(AlreadyDefined(c));
      }
      types := types[c := cls];
      formats := formats[c := layout];
      return Ok(cls);
    }
  }

  /** _len_remaining(f): the file length minus the current position, found by seeking to
      the end and back, so the read position is where it was. */
  method LenRemaining(f: Stream) returns (r: int)
    requires f.Valid()
    modifies f
    ensures f.Valid() && f.pos == old(f.pos)
    ensures r == |f.data| - f.pos
  {
    var currentPos := f.Tell();
    f.SeekEnd();
    var length := f.Tell();
    f.SeekSet(currentPos);
    return length - currentPos;
  }

  /** The struct-code branch of parse: calcsize, read, unpack, and "utf8" decoding of "s". */
  method ReadPrim(c: char, f: Stream) returns (r: Result<Value>)
    requires f.Valid()
    modifies f
    ensures f.Valid()
    ensures Step(r, f.pos) == DecodePrim(c, f.data, old(f.pos))
  {
    var code := CodeOf(c);
    if code.None? {
      return Err(BadCode(c));
    }
    var bs := f.Read(code.value.width);
    if |bs| < code.value.width {
      return Err(Truncated);
    }
    r := Unpack(code.value, bs);
  }

  /** A pass that fails makes the whole parse fail with the same error and position. */
  lemma PassFails(reg: Registry, fmt: string, data: seq<byte>, start: nat, repeat: bool, depth: nat,
                  passStart: nat, passAcc: seq<Value>, e: Error, pos: nat)
    requires start <= passStart < |data|
    requires Passes(reg, fmt, data, passStart, repeat, depth, passAcc) == Passes(reg, fmt, data, start, repeat, depth, [])
    requires Pass(reg, fmt, 0, data, passStart, depth, passAcc) == Step(Err(e), pos)
    ensures Codec.Parse(reg, fmt, data, start, repeat, depth) == Step(Err(e), pos)
  {
  }

  /** parse(fmt, f, repeat), reading from f's position: the outer loop runs passes while
      bytes remain (one pass unless repeating), the inner loop walks the format. */
  method Parse(reg: TypeRegistry, fmt: string, f: Stream, repeat: bool, depth: nat) returns (r: Result<Value>)
    requires f.Valid()
    modifies f
    ensures f.Valid()
    ensures Step(r, f.pos) == Codec.Parse(reg.Snapshot(), fmt, f.data, old(f.pos), repeat, depth)
    decreases depth, 1
  {
    ghost var R := reg.Snapshot();
    ghost var start := f.pos;
    var result: seq<Value> := [];
    var remaining := LenRemaining(f);
    while remaining > 0
      invariant f.Valid() && start <= f.pos
      invariant remaining == |f.data| - f.pos
      invariant Passes(R, fmt, f.data, f.pos, repeat, depth, result) == Passes(R, fmt, f.data, start, repeat, depth, [])
      decreases |f.data| - f.pos
    {
      var passStart := f.pos;
      ghost var passAcc := result;
      var i := 0;
      while i < |fmt|
        invariant 0 <= i <= |fmt|
        invariant f.Valid() && passStart <= f.pos
        invariant Pass(R, fmt, i, f.data, f.pos, depth, result) == Pass(R, fmt, 0, f.data, passStart, depth, passAcc)
        decreases |f.data| - f.pos, |fmt| - i
      {
        var value, next := ParseToken(reg, fmt, i, f, depth);
        if value.Err? {
          r := Err(value.error);
          PassFails(R, fmt, f.data, start, repeat, depth, passStart, passAcc, value.error, f.pos);
          return;
        }
        result := result + [value.value];
        i := next;
      }
      if !repeat {
        break;
      }
      if f.pos == passStart {
        // The source would run the same pass again forever.
        r := Err(Diverges);
        return;
      }
      remaining := LenRemaining(f);
    }
    assert Passes(R, fmt, f.data, start, repeat, depth, []) == Step(Ok(result), f.pos);
    if |fmt| == 1 && !repeat {
      if |result| == 0 {
        return Err(NoResult);
      }
      return Ok(result[0]);
    }
    return Ok(List(result));
  }

  /** The body of the inner loop of parse for the character at index i; next is the index
      the loop continues from (i + 1, or one past the ']' of an array). */
  method ParseToken(reg: TypeRegistry, fmt: string, i: nat, f: Stream, depth: nat) returns (r: Result<Value>, next: nat)
    requires i < |fmt| && f.Valid()
    modifies f
    ensures f.Valid()
    ensures Got(r, f.pos, next) == ReadToken(reg.Snapshot(), fmt, i, f.data, old(f.pos), depth)
    decreases depth, 0
  {
    ghost var R := reg.Snapshot();
    next := i;
    var c := fmt[i];
    if c == '[' {
      var bs := f.Read(4);
      if |bs| < 4 {
        return Err(Truncated), i;
      }
      var repeatNext := FromLE(bs);
      var index := Find(fmt, ']', i);
      var loopyPart := Slice(fmt, i + 1, index);
      var arr: seq<Value> := [];
      var onlyString := true;
      var n := 0;
      ghost var arrStart := f.pos;
      while n < repeatNext
        invariant 0 <= n <= repeatNext
        invariant f.Valid() && arrStart <= f.pos
        invariant onlyString == AllStr(arr)
        invariant Elements(R, loopyPart, repeatNext - n, f.data, f.pos, depth, arr)
               == Elements(R, loopyPart, repeatNext, f.data, arrStart, depth, [])
      {
        if depth == 0 {
          return Err(RecursionLimit), i;
        }
        var loopy := Parse(reg, loopyPart, f, false, depth - 1);
        if loopy.Err? {
          return Err(loopy.error), i;
        }
        assert AllStr(arr + [loopy.value]) == (AllStr(arr) && loopy.value.Str?) by {
          assert (arr + [loopy.value])[|arr|] == loopy.value;
          assert forall k :: 0 <= k < |arr| ==> (arr + [loopy.value])[k] == arr[k];
        }
        arr := arr + [loopy.value];
        if !loopy.value.Str? {
          onlyString := false;
        }
        n := n + 1;
      }
      if onlyString {
        r := Ok(Str(Join(arr)));
      } else {
        r := Ok(List(arr));
      }
      next := index + 1;
    } else if c !in reg.formats {
      r := ReadPrim(c, f);
      next := i + 1;
    } else {
      var localFmt := reg.formats[c];
      if depth == 0 {
        return Err(RecursionLimit), i;
      }
      var data := Parse(reg, localFmt, f, false, depth - 1);
      if data.Err? {
        return Err(data.error), i;
      }
      r := Construct(reg.Snapshot(), c, data.value);
      next := i + 1;
    }
  }

  /** Bytes already written ahead of the rest of a write. */
  function Prepend(bs: seq<byte>, w: Written): Written
  {
    Written(bs + w.out, w.err)
  }

  /** write(fmt, obj, sink), appending to what the sink already holds: a value that is
      neither a list nor a string is wrapped in a one-element list, and each element is
      written with the format character at i mod len(fmt). */
  method Write(reg: TypeRegistry, fmt: string, obj: Value, sink: Sink, depth: nat) returns (err: Option<Error>)
    modifies sink
    ensures sink.bytes == old(sink.bytes) + Codec.Write(reg.Snapshot(), fmt, obj, depth).out
    ensures err == Codec.Write(reg.Snapshot(), fmt, obj, depth).err
    decreases depth, 2
  {
    ghost var R := reg.Snapshot();
    ghost var W := Prepend(sink.bytes, Codec.Write(R, fmt, obj, depth));
    var elems := Elems(obj);
    if |fmt| == 0 && |elems| > 0 {
      return Some(EmptyFormat);
    }
    var i := 0;
    var k := 0;
    assert elems[0..] == elems;
    while k < |elems|
      invariant 0 <= k <= |elems|
      invariant W == Prepend(sink.bytes, WriteItems(R, fmt, elems[k..], i, depth))
    {
      var err', next := WriteNext(reg, fmt, elems, k, i, sink, depth);
      if err'.Some? {
        return err';
      }
      i := next;
      k := k + 1;
    }
    return None;
  }

  /** One turn of the loop of write: element k is written with the format character at i,
      and what remains to be written is the rest of the elements from the index after it. */
  method WriteNext(reg: TypeRegistry, fmt: string, elems: seq<Value>, k: nat, i: nat, sink: Sink, depth: nat)
    returns (err: Option<Error>, next: nat)
    requires k < |elems| && |fmt| > 0
    modifies sink
    ensures Prepend(old(sink.bytes), WriteItems(reg.Snapshot(), fmt, elems[k..], i, depth))
         == if err.Some? then Written(sink.bytes, err)
            else Prepend(sink.bytes, WriteItems(reg.Snapshot(), fmt, elems[k + 1..], next, depth))
    decreases depth, 1
  {
    ghost var e := WriteElement(reg.Snapshot(), fmt, elems[k], i, depth);
    StepItems(reg.Snapshot(), fmt, elems, k, i, depth, old(sink.bytes));
    err, next := WriteElementAt(reg, fmt, elems[k], i, sink, depth);
  }

  /** One turn of the write loop: the items from k on are the k-th element's bytes followed
      by the rest, unless writing that element fails. */
  lemma StepItems(reg: Registry, fmt: string, elems: seq<Value>, k: nat, i: nat, depth: nat, done: seq<byte>)
    requires k < |elems| && |fmt| > 0
    ensures var e := WriteElement(reg, fmt, elems[k], i, depth);
            Prepend(done, WriteItems(reg, fmt, elems[k..], i, depth))
            == if e.err.Some? then Written(done + e.out, e.err)
               else Prepend(done + e.out, WriteItems(reg, fmt, elems[k + 1..], e.next, depth))
  {
    assert elems[k..][0] == elems[k] && elems[k..][1..] == elems[k + 1..];
    var e := WriteElement(reg, fmt, elems[k], i, depth);
    if e.err.None? {
      var rest := WriteItems(reg, fmt, elems[k + 1..], e.next, depth);
      assert done + (e.out + rest.out) == (done + e.out) + rest.out;
    }
  }

  /** The body of the loop of write for element o at format index i; next is the index
      after the increment (after an array, one past the ']' that find returned, so 0 when
      find returned -1). */
  method WriteElementAt(reg: TypeRegistry, fmt: string, o: Value, i: nat, sink: Sink, depth: nat)
    returns (err: Option<Error>, next: nat)
    requires |fmt| > 0
    modifies sink
    ensures sink.bytes == old(sink.bytes) + WriteElement(reg.Snapshot(), fmt, o, i, depth).out
    ensures err == WriteElement(reg.Snapshot(), fmt, o, i, depth).err
    ensures err.None? ==> next == WriteElement(reg.Snapshot(), fmt, o, i, depth).next
    decreases depth, 0
  {
    next := i;
    var c := fmt[i % |fmt|];
    if c == '[' {
      var index := Find(fmt, ']', i);
      var n := Len(o);
      if n.None? {
        return Some(NoLength), i;
      }
      if n.value >= Pow256(4) {
        return Some(PackError), i;
      }
      sink.WriteBytes(ToLE(n.value, 4));
      var loopyPart := Slice(fmt, i + 1, index);
      if depth == 0 {
        return Some(RecursionLimit), i;
      }
      err := Write(reg, loopyPart, o, sink, depth - 1);
      next := index + 1;
    } else if c !in reg.formats {
      var bs := Pack(c, o);
      if bs.Err? {
        return Some(bs.error), i;
      }
      sink.WriteBytes(bs.value);
      err := None;
      next := i + 1;
    } else {
      if !o.Obj? {
        return Some(NoSerialize), i;
      }
      if depth == 0 {
        return Some(RecursionLimit), i;
      }
      err := Write(reg, reg.formats[c], List(o.fields), sink, depth - 1);
      next := i + 1;
    }
  }
}
