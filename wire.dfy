/** Fixed-width native (little-endian) encodings of the primitive struct codes. */
module Wire {

  /** One byte of a stream. */
  type byte = x: int | 0 <= x < 256

  /** 256 to the power w: the number of distinct values a w-byte field holds. */
  function Pow256(w: nat): (r: nat)
    ensures r >= 1
  {
    if w == 0 then 1 else 256 * Pow256(w - 1)
  }

  /** The w little-endian bytes of the unsigned number n. */
  function ToLE(n: nat, w: nat): (bs: seq<byte>)
    requires n < Pow256(w)
    ensures |bs| == w
  {
    if w == 0 then []
    else
      assert n / 256 < Pow256(w - 1) by { DivBound(n, Pow256(w - 1)); }
      [n % 256] + ToLE(n / 256, w - 1)
  }

  /** The unsigned number whose little-endian bytes are bs. */
  function FromLE(bs: seq<byte>): (n: nat)
    ensures n < Pow256(|bs|)
  {
    if bs == [] then 0
    else
      var rest := FromLE(bs[1..]);
      assert bs[0] + 256 * rest < Pow256(|bs|) by { MulBound(bs[0], rest, Pow256(|bs| - 1)); }
      bs[0] + 256 * rest
  }

  lemma DivBound(n: nat, p: nat)
    requires n < 256 * p
    ensures n / 256 < p
  {
  }

  lemma MulBound(lo: nat, hi: nat, p: nat)
    requires lo < 256 && hi < p
    ensures lo + 256 * hi < 256 * p
  {
  }

  /** Reading back the little-endian bytes of n gives n. */
  lemma {:induction false} FromToLE(n: nat, w: nat)
    requires n < Pow256(w)
    ensures FromLE(ToLE(n, w)) == n
  {
    if w > 0 {
      var bs := ToLE(n, w);
      assert bs[1..] == ToLE(n / 256, w - 1);
      FromToLE(n / 256, w - 1);
    }
  }

  /** Writing back the number read from bs gives bs. */
  lemma {:induction false} ToFromLE(bs: seq<byte>)
    ensures ToLE(FromLE(bs), |bs|) == bs
  {
    if bs != [] {
      var n := FromLE(bs);
      assert n % 256 == bs[0] && n / 256 == FromLE(bs[1..]);
      ToFromLE(bs[1..]);
    }
  }

  /** How the struct module reads a code: as a signed or unsigned integer, as the bits of
      an IEEE 754 float, or as one byte of a string. */
  datatype Kind = Signed | Unsigned | Float | Char

  /** A primitive code: its interpretation and its byte width (struct.calcsize). */
  datatype Code = Code(kind: Kind, width: nat)

  datatype Option<T> = None | Some(value: T)

  /** The primitive codes the model knows, with the widths the struct module gives them
      in native mode on a little-endian 64-bit platform. */
  function CodeOf(c: char): (r: Option<Code>)
    ensures r.Some? ==> 1 <= r.value.width <= 8
    ensures r.Some? && r.value.kind == Char ==> c == 's' && r.value.width == 1
  {
    match c
    case 'b' => Some(Code(Signed, 1))
    case 'B' => Some(Code(Unsigned, 1))
    case 'h' => Some(Code(Signed, 2))
    case 'H' => Some(Code(Unsigned, 2))
    case 'i' => Some(Code(Signed, 4))
    case 'I' => Some(Code(Unsigned, 4))
    case 'q' => Some(Code(Signed, 8))
    case 'Q' => Some(Code(Unsigned, 8))
    case 'e' => Some(Code(Float, 2))
    case 'f' => Some(Code(Float, 4))
    case 'd' => Some(Code(Float, 8))
    case 's' => Some(Code(Char, 1))
    case _ => None
  }

  /** The integers a code of this kind and width can pack. */
  predicate IntInRange(code: Code, n: int)
  {
    match code.kind
    case Signed => -(Pow256(code.width) / 2) <= n < Pow256(code.width) / 2
    case Unsigned => 0 <= n < Pow256(code.width)
    case _ => false
  }

  /** Two's complement: the unsigned field value that stores n. */
  function Unsign(code: Code, n: int): (u: nat)
    requires IntInRange(code, n)
    ensures u < Pow256(code.width)
  {
    if n < 0 then n + Pow256(code.width) else n
  }

  /** The integer an integer code reads from its field value u. */
  function Resign(code: Code, u: nat): int
  {
    if code.kind == Signed && u >= Pow256(code.width) / 2 then u - Pow256(code.width) else u
  }

  /** Packing an integer and reading it back is the identity, and what is read is
      always packable again. */
  lemma IntRoundTrip(code: Code, n: int)
    requires IntInRange(code, n)
    ensures Resign(code, Unsign(code, n)) == n
    ensures FromLE(ToLE(Unsign(code, n), code.width)) == Unsign(code, n)
  {
    FromToLE(Unsign(code, n), code.width);
  }

  /** The first byte of the UTF-8 encoding of s, or 0 when s is empty: what
      struct.pack("s", s.encode("utf8")) writes, since it keeps one byte and pads with NUL. */
  function FirstUtf8Byte(s: string): (b: byte)
    ensures s != [] && (s[0] as int) < 128 ==> b == s[0] as int
    ensures s != [] && (s[0] as int) >= 128 ==> b >= 0xC0
  {
    if s == [] then 0
    else
      var c := s[0] as int;
      if c < 0x80 then c
      else if c < 0x800 then 0xC0 + c / 0x40
      else if c < 0x1_0000 then 0xE0 + c / 0x1000
      else 0xF0 + c / 0x4_0000
  }
}
