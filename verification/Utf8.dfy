/** Text as characters that take one to four bytes each. */
module Utf8 {
  import opened Wrappers

  /** Bytes of one character. */
  function Width(c: char): (n: nat)
    ensures 1 <= n <= 4
  {
    var u := c as int;
    if u < 0x80 then 1 else if u < 0x800 then 2 else if u < 0x10000 then 3 else 4
  }

  /** Bytes of the first `n` characters. */
  function BytesTo(s: string, n: nat): (b: nat)
    requires n <= |s|
    ensures b >= n
  {
    if n == 0 then 0 else BytesTo(s, n - 1) + Width(s[n - 1])
  }

  function Bytes(s: string): nat { BytesTo(s, |s|) }

  /** The character that starts at the byte, the end counting as one, or None inside a character. */
  function CharAt(s: string, byte: nat, n: nat): (k: Option<nat>)
    requires n <= |s|
    ensures k.Some? ==> k.value <= n && BytesTo(s, k.value) == byte
    ensures k.None? ==> forall j: nat | j <= n :: BytesTo(s, j) != byte
  {
    if BytesTo(s, n) == byte then Some(n) else if n == 0 then None else CharAt(s, byte, n - 1)
  }

  lemma {:induction false} BytesRise(s: string, i: nat, j: nat)
    requires i <= j <= |s|
    ensures BytesTo(s, i) + (j - i) <= BytesTo(s, j)
    decreases j
  {
    if i < j { BytesRise(s, i, j - 1); }
  }

  lemma {:induction false} BytesOfPrefix(a: string, b: string, n: nat)
    requires n <= |a|
    ensures BytesTo(a + b, n) == BytesTo(a, n)
  {
    if n > 0 { BytesOfPrefix(a, b, n - 1); }
  }

  lemma {:induction false} BytesAfter(a: string, b: string, n: nat)
    requires n <= |b|
    ensures BytesTo(a + b, |a| + n) == Bytes(a) + BytesTo(b, n)
  {
    if n == 0 { BytesOfPrefix(a, b, |a|); } else { BytesAfter(a, b, n - 1); }
  }

  lemma BytesJoin(a: string, b: string)
    ensures Bytes(a + b) == Bytes(a) + Bytes(b)
  {
    BytesAfter(a, b, |b|);
  }

  /** The text between two byte offsets, or None when one is inside a character or they are out of order. */
  function Slice(s: string, start: nat, end: nat): (r: Option<string>) {
    match (CharAt(s, start, |s|), CharAt(s, end, |s|))
    case (Some(i), Some(j)) => if i <= j then Some(s[i..j]) else None
    case _ => None
  }

  lemma CharAtBoundary(s: string, i: nat)
    requires i <= |s|
    ensures CharAt(s, BytesTo(s, i), |s|) == Some(i)
  {
    var k := CharAt(s, BytesTo(s, i), |s|);
    if k.Some? && k.value < i { BytesRise(s, k.value, i); }
    if k.Some? && i < k.value { BytesRise(s, i, k.value); }
  }

  /** A text reads as itself between its byte offsets, whatever surrounds it. */
  lemma SliceMiddle(before: string, s: string, after: string)
    ensures Slice(before + s + after, Bytes(before), Bytes(before) + Bytes(s)) == Some(s)
  {
    var text := before + s + after;
    BytesOfPrefix(before + s, after, |before|);
    BytesOfPrefix(before, s, |before|);
    BytesOfPrefix(before + s, after, |before + s|);
    BytesJoin(before, s);
    CharAtBoundary(text, |before|);
    CharAtBoundary(text, |before| + |s|);
    assert text[|before|..|before| + |s|] == s;
  }
}
