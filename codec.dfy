/** The format-string codec of ailab/data/binary_reader.py as functions over a byte
    sequence: what `parse` reads and `write` emits, step for step.

    A format is a string; '[' starts a length-prefixed array whose inner format runs to
    the first following ']'; a character in the format registry is a registered record
    type; any other character is a struct code. `depth` is the number of nested
    parse/write calls still allowed (Python's recursion limit): every nested call costs
    one, and a call beyond it fails with RecursionLimit. */
module Codec {
  import opened Wire
  import opened Formats

  /** A registered Python class, by name. */
  type ClassName = string

  /** The values the codec reads and writes. A float is represented by the bits of its
      IEEE 754 encoding; a registered class instance by its class and the arguments it
      was constructed with, which its serialize() returns in the same order. */
  datatype Value =
    | Int(i: int)
    | Flt(bits: nat)
    | Str(s: string)
    | List(items: seq<Value>)
    | Obj(cls: ClassName, fields: seq<Value>)

  /** The exceptions the source raises, by cause. */
  datatype Error =
    | BadCode(code: char)       // struct.error: not a struct code
    | Truncated                 // struct.error: the read returned fewer bytes than the code needs
    | NotUtf8(b: byte)          // UnicodeDecodeError: an "s" byte of 0x80 or more
    | NoResult                  // IndexError: result[0] of an empty result
    | NoClass(tag: char)        // KeyError: a format entry without a type entry
    | NotIterable               // TypeError: *data of a number or record
    | PackError                 // struct.error: a value of the wrong kind or out of range
    | NoLength                  // TypeError: len() of a number or record
    | NoSerialize               // AttributeError: serialize() of a non-record
    | EmptyFormat               // ZeroDivisionError: i % len("")
    | RecursionLimit            // RecursionError
    | Diverges                  // repeat mode looping forever on a pass that reads nothing
    | AlreadyDefined(tag: char) // RuntimeError: a type character registered twice

  datatype Result<T> = Ok(value: T) | Err(error: Error)

  /** The two process-wide registries: layout string and class per type character. */
  datatype Registry = Registry(formats: map<char, string>, types: map<char, ClassName>)

  // ---------------------------------------------------------------------------------
  // Decoding

  /** An outcome and the stream position after it. On an error the position is where
      the failing read left it: a short read has consumed the rest of the stream. */
  datatype Step<T> = Step(out: Result<T>, pos: nat)

  /** The outcome of reading one token, the position after it, and the format index
      the pass continues from. */
  datatype Got = Got(out: Result<Value>, pos: nat, next: nat)

  /** The one-character strings of s, in order: what iterating a Python str yields. */
  function Chars(s: string): (r: seq<Value>)
    ensures |r| == |s|
    ensures forall k :: 0 <= k < |s| ==> r[k] == Str([s[k]])
  {
    seq(|s|, k requires 0 <= k < |s| => Str([s[k]]))
  }

  /** struct.unpack of one code on exactly its width of bytes, then "utf8" decoding for "s". */
  function Unpack(code: Code, bs: seq<byte>): (r: Result<Value>)
    requires |bs| == code.width >= 1
  {
    match code.kind
    case Float => Ok(Flt(FromLE(bs)))
    case Char => if bs[0] < 0x80 then Ok(Str([bs[0] as char])) else Err(NotUtf8(bs[0]))
    case _ => Ok(Int(Resign(code, FromLE(bs))))
  }

  /** Reading a struct code: its size, a read of that many bytes, and unpacking. */
  function DecodePrim(c: char, data: seq<byte>, pos: nat): (r: Step<Value>)
    requires pos <= |data|
    ensures pos <= r.pos <= |data|
    ensures r.out.Ok? ==> CodeOf(c).Some? && r.pos == pos + CodeOf(c).value.width
  {
    match CodeOf(c)
    case None => Step(Err(BadCode(c)), pos)
    case Some(code) =>
      if pos + code.width > |data| then Step(Err(Truncated), |data|)
      else Step(Unpack(code, data[pos..pos + code.width]), pos + code.width)
  }

  predicate AllStr(vs: seq<Value>)
  {
    forall k :: 0 <= k < |vs| ==> vs[k].Str?
  }

  /** "".join of a list of strings. */
  function Join(vs: seq<Value>): string
    requires AllStr(vs)
  {
    if vs == [] then [] else vs[0].s + Join(vs[1..])
  }

  /** A decoded array: joined into one string when every element is a string (so also
      when it has no elements), otherwise kept as a list. */
  function Coalesce(arr: seq<Value>): Value
  {
    if AllStr(arr) then Str(Join(arr)) else List(arr)
  }

  /** The positional arguments *data supplies. */
  function Splat(v: Value): Result<seq<Value>>
  {
    match v
    case List(items) => Ok(items)
    case Str(s) => Ok(Chars(s))
    case _ => Err(NotIterable)
  }

  /** _TYPE_REGISTRY[c](*data). */
  function Construct(reg: Registry, c: char, data: Value): Result<Value>
  {
    if c !in reg.types then Err(NoClass(c))
    else
      match Splat(data)
      case Ok(args) => Ok(Obj(reg.types[c], args))
      case Err(e) => Err(e)
  }

  /** parse(fmt, buffer, repeat) on a buffer holding data, positioned at pos. */
  function Parse(reg: Registry, fmt: string, data: seq<byte>, pos: nat, repeat: bool, depth: nat): (r: Step<Value>)
    requires pos <= |data|
    ensures pos <= r.pos <= |data|
    decreases depth, |data| - pos, 3, 0
  {
    var p := Passes(reg, fmt, data, pos, repeat, depth, []);
    match p.out
    case Err(e) => Step(Err(e), p.pos)
    case Ok(result) =>
      if |fmt| == 1 && !repeat then
        if |result| == 0 then Step(Err(NoResult), p.pos) else Step(Ok(result[0]), p.pos)
      else Step(Ok(List(result)), p.pos)
  }

  /** The outer loop of parse: passes over the format while bytes remain, all appending
      to one result list; only one pass unless repeating. */
  function Passes(reg: Registry, fmt: string, data: seq<byte>, pos: nat, repeat: bool, depth: nat,
                  acc: seq<Value>): (r: Step<seq<Value>>)
    requires pos <= |data|
    ensures pos <= r.pos <= |data|
    decreases depth, |data| - pos, 2, 0
  {
    if |data| - pos <= 0 then Step(Ok(acc), pos)
    else
      var p := Pass(reg, fmt, 0, data, pos, depth, acc);
      if p.out.Err? || !repeat then p
      else if p.pos == pos then Step(Err(Diverges), pos)
      else Passes(reg, fmt, data, p.pos, repeat, depth, p.out.value)
  }

  /** The inner loop of parse: one pass over the format from index i. */
  function Pass(reg: Registry, fmt: string, i: nat, data: seq<byte>, pos: nat, depth: nat,
                acc: seq<Value>): (r: Step<seq<Value>>)
    requires i <= |fmt| && pos <= |data|
    ensures pos <= r.pos <= |data|
    decreases depth, |data| - pos, 1, |fmt| - i
  {
    if i == |fmt| then Step(Ok(acc), pos)
    else
      var t := ReadToken(reg, fmt, i, data, pos, depth);
      if t.out.Err? then Step(Err(t.out.error), t.pos)
      else Pass(reg, fmt, t.next, data, t.pos, depth, acc + [t.out.value])
  }

  /** One iteration of the inner loop: the token at index i. An array reads its 32-bit
      count, then parses the text up to the first ']' from i that many times; if there is
      no ']', find gives -1, the slice runs to the last character but one, and the pass
      restarts at index 0. A registered character takes precedence over a struct code. */
  function ReadToken(reg: Registry, fmt: string, i: nat, data: seq<byte>, pos: nat, depth: nat): (r: Got)
    requires i < |fmt| && pos <= |data|
    ensures pos <= r.pos <= |data| && r.next <= |fmt|
    ensures r.out.Ok? ==> r.pos > pos || r.next > i
    decreases depth, |data| - pos, 0, 0
  {
    var c := fmt[i];
    if c == '[' then
      if pos + 4 > |data| then Got(Err(Truncated), |data|, i)
      else
        var count := FromLE(data[pos..pos + 4]);
        var index := Find(fmt, ']', i);
        var e := Elements(reg, Slice(fmt, i + 1, index), count, data, pos + 4, depth, []);
        match e.out
        case Err(err) => Got(Err(err), e.pos, i)
        case Ok(arr) => Got(Ok(Coalesce(arr)), e.pos, index + 1)
    else if c !in reg.formats then
      var p := DecodePrim(c, data, pos);
      Got(p.out, p.pos, i + 1)
    else if depth == 0 then Got(Err(RecursionLimit), pos, i)
    else
      var p := Parse(reg, reg.formats[c], data, pos, false, depth - 1);
      match p.out
      case Err(err) => Got(Err(err), p.pos, i)
      case Ok(d) => Got(Construct(reg, c, d), p.pos, i + 1)
  }

  /** The loop over the array elements: count nested parses of the inner format. */
  function Elements(reg: Registry, inner: string, count: nat, data: seq<byte>, pos: nat, depth: nat,
                    acc: seq<Value>): (r: Step<seq<Value>>)
    requires pos <= |data|
    ensures pos <= r.pos <= |data|
    ensures r.out.Ok? ==> |r.out.value| == |acc| + count && r.out.value[..|acc|] == acc
    decreases depth, |data| - pos, 4, count
  {
    if count == 0 then Step(Ok(acc), pos)
    else if depth == 0 then Step(Err(RecursionLimit), pos)
    else
      var e := Parse(reg, inner, data, pos, false, depth - 1);
      match e.out
      case Err(err) => Step(Err(err), e.pos)
      case Ok(v) => Elements(reg, inner, count - 1, data, e.pos, depth, acc + [v])
  }

  // ---------------------------------------------------------------------------------
  // Encoding

  /** The bytes a write emitted before it ended, and the error that ended it, if any. */
  datatype Written = Written(out: seq<byte>, err: Option<Error>)

  /** The bytes one element emitted, the error if any, and the format index that follows. */
  datatype Emitted = Emitted(out: seq<byte>, err: Option<Error>, next: nat)

  /** What write iterates: a list's elements, a string's characters, or any other
      object on its own. */
  function Elems(obj: Value): seq<Value>
  {
    match obj
    case List(items) => items
    case Str(s) => Chars(s)
    case _ => [obj]
  }

  /** len(o). */
  function Len(o: Value): Option<nat>
  {
    match o
    case Str(s) => Some(|s|)
    case List(items) => Some(|items|)
    case _ => None
  }

  /** struct.pack(c, o), after a string has been encoded as UTF-8: "s" keeps one byte. */
  function Pack(c: char, o: Value): (r: Result<seq<byte>>)
    ensures r.Ok? ==> CodeOf(c).Some? && |r.value| == CodeOf(c).value.width
  {
    match CodeOf(c)
    case None => Err(BadCode(c))
    case Some(code) =>
      match o
      case Str(s) => if code.kind == Char then Ok([FirstUtf8Byte(s)]) else Err(PackError)
      case Int(n) => if IntInRange(code, n) then Ok(ToLE(Unsign(code, n), code.width)) else Err(PackError)
      case Flt(bits) =>
        if code.kind == Float && bits < Pow256(code.width) then Ok(ToLE(bits, code.width)) else Err(PackError)
      case _ => Err(PackError)
  }

  /** write(fmt, obj, buffer): the bytes appended to the buffer. */
  function Write(reg: Registry, fmt: string, obj: Value, depth: nat): (w: Written)
    decreases depth, 2, 0
  {
    WriteItems(reg, fmt, Elems(obj), 0, depth)
  }

  /** The loop of write over the remaining elements, with format index i. */
  function WriteItems(reg: Registry, fmt: string, elems: seq<Value>, i: nat, depth: nat): (w: Written)
    decreases depth, 1, |elems|
  {
    if elems == [] then Written([], None)
    else if |fmt| == 0 then Written([], Some(EmptyFormat))
    else
      var e := WriteElement(reg, fmt, elems[0], i, depth);
      if e.err.Some? then Written(e.out, e.err)
      else
        var w := WriteItems(reg, fmt, elems[1..], e.next, depth);
        Written(e.out + w.out, w.err)
  }

  /** One iteration of the loop of write: element o at format index i, whose character is
      fmt[i % len(fmt)]. An array searches ']' from the unreduced index i. */
  function WriteElement(reg: Registry, fmt: string, o: Value, i: nat, depth: nat): (e: Emitted)
    requires |fmt| > 0
    decreases depth, 0, 0
  {
    var c := fmt[i % |fmt|];
    if c == '[' then
      var index := Find(fmt, ']', i);
      match Len(o)
      case None => Emitted([], Some(NoLength), i)
      case Some(n) =>
        if n >= Pow256(4) then Emitted([], Some(PackError), i)
        else if depth == 0 then Emitted(ToLE(n, 4), Some(RecursionLimit), i)
        else
          var w := Write(reg, Slice(fmt, i + 1, index), o, depth - 1);
          Emitted(ToLE(n, 4) + w.out, w.err, index + 1)
    else if c !in reg.formats then
      match Pack(c, o)
      case Err(err) => Emitted([], Some(err), i)
      case Ok(bs) => Emitted(bs, None, i + 1)
    else
      match o
      case Obj(_, fields) =>
        if depth == 0 then Emitted([], Some(RecursionLimit), i)
        else
          var w := Write(reg, reg.formats[c], List(fields), depth - 1);
          Emitted(w.out, w.err, i + 1)
      case _ => Emitted([], Some(NoSerialize), i)
  }
}
