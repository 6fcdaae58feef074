/**
 * Screen columns of a line: the plain sum over graphemes, the fast paths that skip it,
 * the mapper that answers many queries in one walk, and the way back from a column.
 */
module Columns {
  import opened Wrappers

  type Byte = b: int | 0 <= b < 256

  /** One grapheme cluster: its bytes and, tabs aside, the cells it takes. */
  datatype Grapheme = Grapheme(bytes: seq<Byte>, cells: nat)

  type Line = seq<Grapheme>

  const TAB: seq<Byte> := [9]

  predicate Printable(b: Byte) { 0x20 <= b < 0x7f }

  /** From the space to the tilde. */
  lemma PrintableMeans(b: Byte)
    ensures Printable(b) <==> ' ' as int <= b <= '~' as int
  {
  }

  predicate AllPrintable(bytes: seq<Byte>) { forall k | 0 <= k < |bytes| :: Printable(bytes[k]) }

  /**
   * Two ASCII bytes never share a cluster, except CR LF; a printable
   * byte takes one cell, and no marks take it away.
   */
  ghost predicate Cluster(g: Grapheme) {
    |g.bytes| >= 1
    && (forall k | 0 <= k < |g.bytes| - 1 ::
          g.bytes[k] < 128 && g.bytes[k + 1] < 128 ==> g.bytes[k] == 13 && g.bytes[k + 1] == 10)
    && (Printable(g.bytes[0]) ==> g.cells >= 1 && (|g.bytes| == 1 ==> g.cells == 1))
  }

  ghost predicate Clusters(line: Line) { forall i | 0 <= i < |line| :: Cluster(line[i]) }

  /** Cells of a grapheme that starts at column `col`: a tab runs to the next tab stop. */
  function Width(g: Grapheme, col: nat, tabstop: nat): (w: nat)
    requires tabstop >= 1
    ensures g.bytes == TAB ==> 1 <= w <= tabstop
  {
    if g.bytes == TAB then tabstop - col % tabstop else g.cells
  }

  /** The byte grapheme `i` starts at. */
  function Start(line: Line, i: nat): nat
    requires i <= |line|
  {
    if i == 0 then 0 else Start(line, i - 1) + |line[i - 1].bytes|
  }

  function Len(line: Line): nat { Start(line, |line|) }

  /** The column grapheme `i` starts at. */
  function Col(line: Line, i: nat, tabstop: nat): nat
    requires i <= |line| && tabstop >= 1
  {
    if i == 0 then 0 else
      var c := Col(line, i - 1, tabstop);
      c + Width(line[i - 1], c, tabstop)
  }

  /** The line's bytes. */
  function Flat(line: Line): seq<Byte> {
    if |line| == 0 then [] else Flat(line[..|line| - 1]) + line[|line| - 1].bytes
  }

  /** Grapheme `i` is the one byte offset `byte` floors to; past the end, the end. */
  ghost predicate Floors(line: Line, byte: nat, i: nat) {
    i <= |line| && Start(line, i) <= byte && (i < |line| ==> byte < Start(line, i + 1))
  }

  function FloorFrom(line: Line, byte: nat, i: nat): (j: nat)
    requires i <= |line| && Start(line, i) <= byte
    ensures i <= j && Floors(line, byte, j)
    decreases |line| - i
  {
    if i < |line| && Start(line, i + 1) <= byte then FloorFrom(line, byte, i + 1) else i
  }

  function FloorIndex(line: Line, byte: nat): (i: nat)
    ensures Floors(line, byte, i)
  {
    FloorFrom(line, byte, 0)
  }

  /** The column of a byte offset: the sum of the cells before the grapheme it falls in. */
  function Virtcol(line: Line, byte: nat, tabstop: nat): nat
    requires tabstop >= 1
  {
    Col(line, FloorIndex(line, byte), tabstop)
  }

  // ----- offsets ------------------------------------------------------------------------

  lemma {:induction false} StartRises(line: Line, i: nat, j: nat)
    requires Clusters(line) && i <= j <= |line|
    ensures Start(line, i) + (j - i) <= Start(line, j)
    decreases j
  {
    if i < j { StartRises(line, i, j - 1); }
  }

  lemma {:induction false} ColRises(line: Line, i: nat, j: nat, tabstop: nat)
    requires tabstop >= 1 && i <= j <= |line|
    ensures Col(line, i, tabstop) <= Col(line, j, tabstop)
    decreases j
  {
    if i < j { ColRises(line, i, j - 1, tabstop); }
  }

  lemma FloorUnique(line: Line, byte: nat, i: nat, j: nat)
    requires Clusters(line) && Floors(line, byte, i) && Floors(line, byte, j)
    ensures i == j
  {
    if i < j { StartRises(line, i + 1, j); }
    if j < i { StartRises(line, j + 1, i); }
  }

  lemma FloorOfStart(line: Line, i: nat)
    requires Clusters(line) && i <= |line|
    ensures FloorIndex(line, Start(line, i)) == i
  {
    FloorUnique(line, Start(line, i), i, FloorIndex(line, Start(line, i)));
  }

  lemma {:induction false} StartOfPrefix(line: Line, n: nat, i: nat)
    requires i <= n <= |line|
    ensures Start(line[..n], i) == Start(line, i)
  {
    if i > 0 { StartOfPrefix(line, n, i - 1); }
  }

  lemma {:induction false} FlatLen(line: Line)
    ensures |Flat(line)| == Len(line)
  {
    if |line| > 0 {
      FlatLen(line[..|line| - 1]);
      StartOfPrefix(line, |line| - 1, |line| - 1);
    }
  }

  /** Byte `k` of grapheme `i` sits `k` past the grapheme's start. */
  lemma {:induction false} FlatAt(line: Line, i: nat, k: nat)
    requires i < |line| && k < |line[i].bytes|
    ensures Start(line, i) + k < |Flat(line)| && Flat(line)[Start(line, i) + k] == line[i].bytes[k]
    decreases |line|
  {
    var n := |line| - 1;
    var front := line[..n];
    FlatLen(front);
    StartOfPrefix(line, n, n);
    StartOfPrefix(line, n, i);
    if i < n { FlatAt(front, i, k); }
  }

  // ----- fast paths -----------------------------------------------------------------------

  /** Over printable ASCII through the byte itself, graphemes, bytes and columns coincide. */
  lemma {:induction false} PrintableHead(line: Line, byte: nat, i: nat, tabstop: nat)
    requires Clusters(line) && tabstop >= 1 && i <= byte <= Len(line) == |Flat(line)|
    requires AllPrintable(Flat(line)[..Min(byte + 1, Len(line))])
    ensures i <= |line| && Start(line, i) == i && Col(line, i, tabstop) == i
  {
    if i > 0 {
      PrintableHead(line, byte, i - 1, tabstop);
      var head := Flat(line)[..Min(byte + 1, Len(line))];
      assert Printable(head[i - 1]) && (i < Len(line) ==> Printable(head[i]));
      PrintableStep(line, i - 1);
    }
  }

  lemma PrintableStep(line: Line, i: nat)
    requires Clusters(line) && i <= |line| && Start(line, i) == i < Len(line) == |Flat(line)|
    requires Printable(Flat(line)[i]) && (i + 1 < Len(line) ==> Printable(Flat(line)[i + 1]))
    ensures i < |line| && |line[i].bytes| == 1 && line[i].cells == 1 && line[i].bytes != TAB
  {
    FlatAt(line, i, 0);
    StartRises(line, i + 1, |line|);
    if |line[i].bytes| > 1 { FlatAt(line, i, 1); }
  }

  /** The column of a byte, by the direct sum or, over printable ASCII, none at all. */
  method ColumnOf(line: Line, offset: nat, tabstop: nat) returns (col: nat)
    requires Clusters(line) && tabstop >= 1
    ensures col == Virtcol(line, offset, tabstop)
  {
    FlatLen(line);
    ClampedFloor(line, offset);
    var byte := Min(offset, Len(line));
    if AllPrintable(Flat(line)[..Min(byte + 1, Len(line))]) {
      PrintableHead(line, byte, byte, tabstop);
      FloorOfStart(line, byte);
      return byte;
    }
    var end := FloorIndex(line, byte);
    col := 0;
    for i := 0 to end
      invariant col == Col(line, i, tabstop)
    {
      col := col + Width(line[i], col, tabstop);
    }
  }

  lemma ClampedFloor(line: Line, byte: nat)
    requires Clusters(line)
    ensures FloorIndex(line, Min(byte, Len(line))) == FloorIndex(line, byte)
    ensures Start(line, FloorIndex(line, byte)) <= Len(line)
  {
    var i := FloorIndex(line, byte);
    StartRises(line, i, |line|);
    if byte > Len(line) {
      if i < |line| { StartRises(line, i + 1, |line|); }
      FloorUnique(line, Len(line), i, FloorIndex(line, Len(line)));
    }
  }

  /** Between two ASCII bytes that are not CR LF a grapheme starts, so the floor is the byte itself. */
  lemma FloorBetweenAscii(line: Line, byte: nat)
    requires Clusters(line) && byte < Len(line) == |Flat(line)|
    requires Flat(line)[byte] < 128
    requires byte == 0 || (Flat(line)[byte - 1] < 128 && !(Flat(line)[byte - 1] == 13 && Flat(line)[byte] == 10))
    ensures Start(line, FloorIndex(line, byte)) == byte
  {
    var i := FloorIndex(line, byte);
    var k := byte - Start(line, i);
    if k > 0 {
      FlatAt(line, i, k);
      FlatAt(line, i, k - 1);
    }
  }

  /** Snap down to a grapheme boundary; the segmenter is asked only off the ASCII fast path. */
  method FloorGrapheme(line: Line, byte: nat) returns (b: nat)
    requires Clusters(line)
    ensures b == Start(line, FloorIndex(line, byte))
  {
    FlatLen(line);
    var bytes := Flat(line);
    if byte >= |bytes| {
      ClampedFloor(line, byte);
      FloorOfStart(line, |line|);
      return |bytes|;
    }
    if bytes[byte] < 128 && (byte == 0 || (bytes[byte - 1] < 128 && !(bytes[byte - 1] == 13 && bytes[byte] == 10))) {
      FloorBetweenAscii(line, byte);
      return byte;
    }
    b := Start(line, FloorIndex(line, byte));
  }

  // ----- the walking mapper ------------------------------------------------------------------

  /** Columns of one line for a run of queries: walks on from the last answer, restarts to go back. */
  class LineVirtcol {
    const line: Line
    const tabstop: nat
    const simple: bool
    /** The next grapheme of the walk, where it starts and its column. */
    var next: nat
    var walkedByte: nat
    var walkedCol: nat

    ghost predicate Valid()
      reads this
    {
      Clusters(line) && tabstop >= 1 && simple == AllPrintable(Flat(line)) && Walked()
    }

    ghost predicate Walked()
      reads this
    {
      tabstop >= 1 && next <= |line| && walkedByte == Start(line, next) && walkedCol == Col(line, next, tabstop)
    }

    constructor (line: Line, tabstop: nat)
      requires Clusters(line) && tabstop >= 1
      ensures Valid() && this.line == line && this.tabstop == tabstop
    {
      this.line := line;
      this.tabstop := tabstop;
      simple := AllPrintable(Flat(line));
      next, walkedByte, walkedCol := 0, 0, 0;
    }

    /** Whatever was asked before, forward or back, the answer is the direct sum's. */
    method At(byte: nat) returns (col: nat)
      requires Valid()
      modifies this
      ensures Valid() && col == Virtcol(line, byte, tabstop)
    {
      if simple {
        col := SimpleAt(line, byte, tabstop);
        return;
      }
      WalkTo(byte);
      FloorUnique(line, byte, next, FloorIndex(line, byte));
      col := walkedCol;
    }

    /** On from where the walk stands, or afresh, to the grapheme the byte falls in. */
    method WalkTo(byte: nat)
      requires Walked()
      modifies `next, `walkedByte, `walkedCol
      ensures Walked() && Start(line, next) <= byte && (next < |line| ==> byte < Start(line, next + 1))
    {
      if byte < walkedByte { next, walkedByte, walkedCol := 0, 0, 0; }
      while next < |line| && walkedByte + |line[next].bytes| <= byte
        invariant Walked() && walkedByte <= byte
        decreases |line| - next
      {
        walkedCol := walkedCol + Width(line[next], walkedCol, tabstop);
        walkedByte := walkedByte + |line[next].bytes|;
        next := next + 1;
      }
    }
  }

  /** On a line of printable ASCII throughout, the column is the byte. */
  method SimpleAt(line: Line, byte: nat, tabstop: nat) returns (col: nat)
    requires Clusters(line) && tabstop >= 1 && AllPrintable(Flat(line))
    ensures col == Virtcol(line, byte, tabstop)
  {
    FlatLen(line);
    ClampedFloor(line, byte);
    col := Min(byte, Len(line));
    PrintableHead(line, col, col, tabstop);
    FloorOfStart(line, col);
  }

  /** A run of queries on one mapper gives what the direct sum gives for each. */
  method Columns(line: Line, tabstop: nat, queries: seq<nat>) returns (cols: seq<nat>)
    requires Clusters(line) && tabstop >= 1
    ensures |cols| == |queries|
    ensures forall q | 0 <= q < |queries| :: cols[q] == Virtcol(line, queries[q], tabstop)
  {
    var mapper := new LineVirtcol(line, tabstop);
    cols := [];
    for q := 0 to |queries|
      invariant mapper.Valid() && mapper.line == line && mapper.tabstop == tabstop && fresh(mapper)
      invariant |cols| == q && forall p | 0 <= p < q :: cols[p] == Virtcol(line, queries[p], tabstop)
    {
      var col := mapper.At(queries[q]);
      cols := cols + [col];
    }
  }

  // ----- from a column back to a byte ------------------------------------------------------------

  /** Grapheme `i`'s cells cover `target`, or it takes none and starts there. */
  predicate Covers(line: Line, i: nat, target: nat, tabstop: nat)
    requires i < |line| && tabstop >= 1
  {
    target < Col(line, i + 1, tabstop) || (Col(line, i, tabstop) == target == Col(line, i + 1, tabstop))
  }

  /** The first grapheme to cover the column, or the line's end. */
  ghost predicate FirstCover(line: Line, target: nat, tabstop: nat, i: nat)
    requires tabstop >= 1
  {
    i <= |line| && (forall j: nat | j < i :: !Covers(line, j, target, tabstop))
    && (i < |line| ==> Covers(line, i, target, tabstop))
  }

  method ByteAtVirtcol(line: Line, target: nat, tabstop: nat) returns (byte: nat)
    requires Clusters(line) && tabstop >= 1
    ensures exists i: nat :: FirstCover(line, target, tabstop, i) && byte == Start(line, i)
  {
    FlatLen(line);
    var n := Min(target + 1, Len(line));
    if AllPrintable(Flat(line)[..n]) {
      byte := Min(target, Len(line));
      PrintableCover(line, target, byte, tabstop);
      return;
    }
    var col := 0;
    byte := 0;
    for k := 0 to |line|
      invariant col == Col(line, k, tabstop) && byte == Start(line, k)
      invariant forall j: nat | j < k :: !Covers(line, j, target, tabstop)
    {
      var w := Width(line[k], col, tabstop);
      if col + w > target || (w == 0 && col == target) {
        assert FirstCover(line, target, tabstop, k);
        return;
      }
      col := col + w;
      byte := byte + |line[k].bytes|;
    }
    assert FirstCover(line, target, tabstop, |line|);
  }

  lemma PrintableCover(line: Line, target: nat, byte: nat, tabstop: nat)
    requires Clusters(line) && tabstop >= 1 && Len(line) == |Flat(line)| && byte == Min(target, Len(line))
    requires AllPrintable(Flat(line)[..Min(target + 1, Len(line))])
    ensures FirstCover(line, target, tabstop, byte) && Start(line, byte) == byte
  {
    PrintableHead(line, byte, byte, tabstop);
    forall j: nat | j < byte ensures !Covers(line, j, target, tabstop) {
      PrintableHead(line, byte, j, tabstop);
      PrintableHead(line, byte, j + 1, tabstop);
    }
    if byte < |line| && byte == Len(line) {
      StartRises(line, byte, |line|);
    }
    if byte < |line| {
      PrintableCell(line, byte, tabstop);
    }
  }

  lemma PrintableCell(line: Line, i: nat, tabstop: nat)
    requires Clusters(line) && tabstop >= 1 && i < |line| && Start(line, i) == i < Len(line) == |Flat(line)|
    requires Printable(Flat(line)[i])
    ensures Col(line, i, tabstop) < Col(line, i + 1, tabstop)
  {
    FlatAt(line, i, 0);
    assert line[i].bytes != TAB;
  }

  /** The first cover is the grapheme under the column, reached by no earlier one. */
  lemma CoverIsUnderTarget(line: Line, target: nat, tabstop: nat, i: nat)
    requires tabstop >= 1 && FirstCover(line, target, tabstop, i)
    ensures Col(line, i, tabstop) <= target
    ensures i == |line|
       <==> Col(line, |line|, tabstop) < target
            || (Col(line, |line|, tabstop) == target && (|line| == 0 || Col(line, |line| - 1, tabstop) < target))
  {
    if i > 0 { assert !Covers(line, i - 1, target, tabstop); }
    if i < |line| { ColRises(line, i + 1, |line|, tabstop); ColRises(line, i, |line| - 1, tabstop); }
  }

  lemma NotCoveredBefore(line: Line, i: nat, j: nat, tabstop: nat)
    requires tabstop >= 1 && i <= |line| && (i == 0 || Col(line, i - 1, tabstop) < Col(line, i, tabstop))
    ensures j < i ==> !Covers(line, j, Col(line, i, tabstop), tabstop)
  {
    if j < i {
      ColRises(line, j + 1, i, tabstop);
      ColRises(line, j, i - 1, tabstop);
    }
  }

  /** Column and back: a boundary returns exactly when the grapheme before it takes cells. */
  lemma VirtcolInverted(line: Line, i: nat, tabstop: nat, j: nat)
    requires Clusters(line) && tabstop >= 1 && i <= |line|
    requires FirstCover(line, Virtcol(line, Start(line, i), tabstop), tabstop, j)
    ensures Start(line, j) == Start(line, i) <==> i == 0 || Col(line, i - 1, tabstop) < Col(line, i, tabstop)
  {
    FloorOfStart(line, i);
    var target := Col(line, i, tabstop);
    if i > 0 && Col(line, i - 1, tabstop) == target {
      assert Covers(line, i - 1, target, tabstop);
      assert j <= i - 1;
      StartRises(line, j, i);
    } else {
      if i < |line| {
        ColRises(line, i, i + 1, tabstop);
        assert Covers(line, i, target, tabstop);
      }
      NotCoveredBefore(line, i, j, tabstop);
    }
  }

  /** Back to a byte and to its column again: the column its grapheme starts at, never past the target. */
  lemma ColumnOfCover(line: Line, target: nat, tabstop: nat, i: nat)
    requires Clusters(line) && tabstop >= 1 && FirstCover(line, target, tabstop, i)
    ensures Virtcol(line, Start(line, i), tabstop) == Col(line, i, tabstop) <= target
    ensures i < |line| ==> target <= Col(line, i + 1, tabstop)
  {
    FloorOfStart(line, i);
    CoverIsUnderTarget(line, target, tabstop, i);
  }
}
