/** Byte offsets in UTF-8 text and positions counted in UTF-16 code units. */
module Utf16 {
  type Scalar = c: int | 0 <= c < 0x110000

  type Chars = seq<Scalar>

  function Len8(c: Scalar): (n: nat)
    ensures n >= 1
  {
    if c < 0x80 then 1 else if c < 0x800 then 2 else if c < 0x10000 then 3 else 4
  }

  function Len16(c: Scalar): (n: nat)
    ensures n >= 1
  {
    if c < 0x10000 then 1 else 2
  }

  /** The bytes carry 7, 11, 16 and 21 bits, and a character takes a surrogate pair exactly when it takes four. */
  lemma PairsTakeFourBytes(c: Scalar)
    ensures Len8(c) <= 4 && (Len8(c) <= 1 <==> c < 128) && (Len8(c) <= 2 <==> c < 2048) && (Len8(c) <= 3 <==> c < 65536)
    ensures Len16(c) <= 2 && (Len16(c) == 2 <==> Len8(c) == 4)
  {
  }

  /** Where character `i` starts, in bytes. */
  function ByteStart(s: Chars, i: nat): nat
    requires i <= |s|
  {
    if i == 0 then 0 else ByteStart(s, i - 1) + Len8(s[i - 1])
  }

  /** Where character `i` starts, in UTF-16 units. */
  function UnitStart(s: Chars, i: nat): nat
    requires i <= |s|
  {
    if i == 0 then 0 else UnitStart(s, i - 1) + Len16(s[i - 1])
  }

  /** The first character that starts at or past the byte, or the end. */
  ghost predicate ReachesByte(s: Chars, byte: nat, i: nat) {
    i <= |s| && (forall j: nat | j < i :: ByteStart(s, j) < byte) && (i < |s| ==> byte <= ByteStart(s, i))
  }

  /** The first character that starts at or past the unit, or the end. */
  ghost predicate ReachesUnit(s: Chars, units: nat, i: nat) {
    i <= |s| && (forall j: nat | j < i :: UnitStart(s, j) < units) && (i < |s| ==> units <= UnitStart(s, i))
  }

  method ByteToUtf16(s: Chars, byte: nat) returns (units: nat)
    ensures exists i: nat :: ReachesByte(s, byte, i) && units == UnitStart(s, i)
  {
    units := 0;
    var at := 0;
    for k := 0 to |s|
      invariant at == ByteStart(s, k) && units == UnitStart(s, k)
      invariant forall j: nat | j < k :: ByteStart(s, j) < byte
    {
      if at >= byte {
        assert ReachesByte(s, byte, k);
        return;
      }
      units := units + Len16(s[k]);
      at := at + Len8(s[k]);
    }
    assert ReachesByte(s, byte, |s|);
  }

  method Utf16ToByte(s: Chars, target: nat) returns (byte: nat)
    ensures exists i: nat :: ReachesUnit(s, target, i) && byte == ByteStart(s, i)
  {
    byte := 0;
    var units := 0;
    for k := 0 to |s|
      invariant byte == ByteStart(s, k) && units == UnitStart(s, k)
      invariant forall j: nat | j < k :: UnitStart(s, j) < target
    {
      if units >= target {
        assert ReachesUnit(s, target, k);
        return;
      }
      units := units + Len16(s[k]);
      byte := byte + Len8(s[k]);
    }
    assert ReachesUnit(s, target, |s|);
  }

  lemma {:induction false} Rises(s: Chars, i: nat, j: nat)
    requires i < j <= |s|
    ensures ByteStart(s, i) < ByteStart(s, j) && UnitStart(s, i) < UnitStart(s, j)
    decreases j
  {
    if i < j - 1 { Rises(s, i, j - 1); }
  }

  ghost predicate Boundary(s: Chars, byte: nat) { exists k: nat | k <= |s| :: ByteStart(s, k) == byte }

  /** To units and back: the character boundary at or after the byte, so the byte itself exactly on a boundary. */
  lemma UnitsInverted(s: Chars, byte: nat, i: nat, j: nat)
    requires ReachesByte(s, byte, i) && ReachesUnit(s, UnitStart(s, i), j)
    ensures j == i
    ensures ByteStart(s, j) == byte <==> Boundary(s, byte)
  {
    if j < i { Rises(s, j, i); }
    if Boundary(s, byte) {
      var k: nat :| k <= |s| && ByteStart(s, k) == byte;
      if i < k { Rises(s, i, k); }
    }
  }

  /** To bytes and back: the unit count itself exactly when it does not split a surrogate pair. */
  lemma BytesInverted(s: Chars, units: nat, i: nat, j: nat)
    requires ReachesUnit(s, units, i) && ReachesByte(s, ByteStart(s, i), j)
    ensures j == i
    ensures UnitStart(s, j) == units <==> exists k: nat | k <= |s| :: UnitStart(s, k) == units
  {
    if j < i { Rises(s, j, i); }
    if k: nat :| k <= |s| && UnitStart(s, k) == units {
      if i < k { Rises(s, i, k); }
    }
  }

  /** A byte inside a character counts that character too. */
  lemma InsideCountsTheCharacter(s: Chars, byte: nat, i: nat, k: nat)
    requires ReachesByte(s, byte, i) && k < |s| && ByteStart(s, k) < byte < ByteStart(s, k + 1)
    ensures UnitStart(s, i) == UnitStart(s, k) + Len16(s[k])
  {
    if i < k { Rises(s, i, k); }
  }

  /** How many of the first `n` characters end at or before the byte. */
  function WholeBefore(s: Chars, byte: nat, n: nat): (r: nat)
    requires n <= |s|
    ensures r <= n && ByteStart(s, r) <= byte && (r < n ==> byte < ByteStart(s, r + 1))
  {
    if ByteStart(s, n) <= byte then n else WholeBefore(s, byte, n - 1)
  }

  /** The units of the whole characters strictly before the byte, as documented. */
  function DocumentedUnits(s: Chars, byte: nat): nat { UnitStart(s, WholeBefore(s, byte, |s|)) }

  /** The units counted are the documented ones exactly when the byte is a character boundary or past the end. */
  lemma UnitsAsDocumented(s: Chars, byte: nat, i: nat)
    requires ReachesByte(s, byte, i)
    ensures UnitStart(s, i) == DocumentedUnits(s, byte) <==> Boundary(s, byte) || byte >= ByteStart(s, |s|)
  {
    var n := WholeBefore(s, byte, |s|);
    if ByteStart(s, n) == byte || n == |s| {
      if i < n { Rises(s, i, n); }
    } else {
      InsideCountsTheCharacter(s, byte, i, n);
      Rises(s, n, |s|);
      if k: nat :| k <= |s| && ByteStart(s, k) == byte {
        if k < n { Rises(s, k, n); }
        if n + 1 < k { Rises(s, n + 1, k); }
      }
      if n + 1 < |s| { Rises(s, n + 1, |s|); }
    }
  }

  /** The second byte of a two-byte letter: one unit is counted, none is documented. */
  method InsideLetter() returns (units: nat)
    ensures units == 1 && DocumentedUnits([0xe9], 1) == 0
  {
    units := ByteToUtf16([0xe9], 1);
    assert ByteStart([0xe9], 1) == 2;
    assert ByteStart([0xe9], 0) == 0;
  }
}
