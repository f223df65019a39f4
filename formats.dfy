/** The string operations the codec applies to a format string: Python's str.find and
    slicing, and the token structure of a format whose brackets are balanced. */
module Formats {

  /** Python's s.find(ch, start): the first index at or after start holding ch, or -1. */
  function Find(s: string, ch: char, start: nat): (r: int)
    ensures r == -1 || (start <= r < |s| && s[r] == ch)
    ensures r == -1 ==> forall k :: start <= k < |s| ==> s[k] != ch
    ensures r >= 0 ==> forall k :: start <= k < r ==> s[k] != ch
    decreases |s| - start
  {
    if start >= |s| then -1
    else if s[start] == ch then start
    else Find(s, ch, start + 1)
  }

  /** Python's slice s[a:b] for a non-negative start; a negative end counts from the back. */
  function Slice(s: string, a: nat, b: int): (r: string)
    ensures a <= b <= |s| ==> r == s[a..b]
    ensures b < 0 && a <= |s| + b ==> r == s[a..|s| + b]
    ensures |r| <= |s|
  {
    var hi := if b < 0 then (if |s| + b < 0 then 0 else |s| + b) else (if b > |s| then |s| else b);
    var lo := if a > |s| then |s| else a;
    if lo >= hi then [] else s[lo..hi]
  }

  /** The index just after the token starting at i: after the first ']' for a '[',
      otherwise i + 1. The interpreters move to this index after each token. */
  function TokenEnd(fmt: string, i: nat): (e: nat)
    requires i < |fmt|
    ensures i < e <= |fmt|
  {
    if fmt[i] == '[' then
      var close := Find(fmt, ']', i);
      if close < 0 then i + 1 else close + 1
    else i + 1
  }

  /** The inner format of the bracket token at i (valid when the format is balanced). */
  function Inner(fmt: string, i: nat): string
    requires i < |fmt|
  {
    Slice(fmt, i + 1, Find(fmt, ']', i))
  }

  /** From index i on, every '[' has a later ']' with no bracket in between, and no ']'
      stands outside a bracket pair: the 1-D formats the interpreters handle as intended. */
  predicate Balanced(fmt: string, i: nat)
    decreases |fmt| - i
  {
    i >= |fmt| ||
    (fmt[i] != ']' &&
     (fmt[i] == '[' ==> Find(fmt, ']', i) >= 0 && '[' !in Inner(fmt, i)) &&
     Balanced(fmt, TokenEnd(fmt, i)))
  }

  /** A format without brackets: every character is one token. */
  predicate BracketFree(fmt: string)
  {
    '[' !in fmt && ']' !in fmt
  }

  /** The number of top-level tokens of fmt from index i. */
  function TokenCount(fmt: string, i: nat): nat
    decreases |fmt| - i
  {
    if i >= |fmt| then 0 else 1 + TokenCount(fmt, TokenEnd(fmt, i))
  }

  /** Without brackets every character is a token and the token count is the length. */
  lemma {:induction false} BracketFreeTokens(fmt: string, i: nat)
    requires BracketFree(fmt) && i <= |fmt|
    ensures Balanced(fmt, i)
    ensures TokenCount(fmt, i) == |fmt| - i
    decreases |fmt| - i
  {
    if i < |fmt| {
      assert fmt[i] in fmt;
      BracketFreeTokens(fmt, i + 1);
    }
  }

  /** In a balanced format a bracket token spans its inner format and both brackets, and
      the inner format holds no bracket at all. */
  lemma BracketToken(fmt: string, i: nat)
    requires i < |fmt| && Balanced(fmt, i) && fmt[i] == '['
    ensures TokenEnd(fmt, i) == i + |Inner(fmt, i)| + 2
    ensures Inner(fmt, i) == fmt[i + 1..TokenEnd(fmt, i) - 1]
    ensures BracketFree(Inner(fmt, i))
  {
    var close := Find(fmt, ']', i);
    assert Inner(fmt, i) == fmt[i + 1..close];
    forall k | 0 <= k < |Inner(fmt, i)|
      ensures Inner(fmt, i)[k] != ']'
    {
      assert Inner(fmt, i)[k] == fmt[i + 1 + k];
    }
  }

  // The writer picks the character at index i mod len(fmt).

  lemma ModBelow(i: nat, n: nat)
    requires i < n
    ensures i % n == i
  {
  }

  lemma ModOne(j: nat)
    ensures j % 1 == 0
  {
  }

  /** One more full cycle leaves the character the writer picks unchanged. */
  lemma ModShift(j: nat, m: nat)
    requires m > 0
    ensures (j + m) % m == j % m
  {
    var q, r := j / m, j % m;
    var q2, r2 := (j + m) / m, (j + m) % m;
    assert j == m * q + r;
    assert j + m == m * q2 + r2;
    assert m * (q + 1) == m * q + m;
    if q2 > q + 1 {
      assert m * q2 >= m * (q + 2) by { MulMono(m, q + 2, q2); }
      assert false;
    } else if q2 < q + 1 {
      assert m * q2 <= m * q by { MulMono(m, q2, q); }
      assert false;
    }
  }

  lemma MulMono(m: nat, a: int, b: int)
    requires a <= b
    ensures m * a <= m * b
  {
  }
}

