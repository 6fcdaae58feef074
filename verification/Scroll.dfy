/**
 * Horizontal scroll over a line whose inline splices take screen columns of their own:
 * from text columns to painted ones, and from a scroll offset back.
 */
module Scroll {
  import opened Wrap

  ghost predicate Ascending(s: seq<Splice>) {
    forall j: nat, k: nat | j <= k < |s| :: s[j].anchor <= s[k].anchor
  }

  /** How many leading splices are anchored before the column. */
  function ReachBelow(s: seq<Splice>, n: nat, col: nat): (r: nat)
    requires n <= |s|
    ensures n <= r <= |s|
    decreases |s| - n
  {
    if n < |s| && s[n].anchor < col then ReachBelow(s, n + 1, col) else n
  }

  /** The column a text column's own cells paint at: after the splices anchored up to it. */
  function PaintedCol(col: nat, s: seq<Splice>): nat { col + Sum(s, 0, Reach(s, 0, col)) }

  /** The column it starts at with its own splices: after those anchored before it. */
  function PaintedStart(col: nat, s: seq<Splice>): nat { col + Sum(s, 0, ReachBelow(s, 0, col)) }

  /** Where splice `j` starts on the painted line. */
  function SpliceStart(s: seq<Splice>, j: nat): nat
    requires j < |s|
  {
    s[j].anchor + Sum(s, 0, j)
  }

  datatype RowScroll = RowScroll(left: nat, hidden: nat, skip: nat)

  /** The scroll is past the start and the end of each of the first `n` splices. */
  ghost predicate Passes(leftcol: nat, s: seq<Splice>, n: nat)
    requires n <= |s|
  {
    forall j: nat {:trigger SpliceStart(s, j)} | j < n ::
      SpliceStart(s, j) < leftcol && SpliceStart(s, j) + s[j].width <= leftcol
  }

  /**
   * The scroll hides `hidden` whole splices and `skip` cells of the next, the visible text
   * starts at `left`, and the three account for every column of the offset.
   */
  ghost predicate Scrolled(leftcol: nat, s: seq<Splice>, r: RowScroll) {
    r.hidden <= |s|
    && r.left + Sum(s, 0, r.hidden) + r.skip == leftcol
    && Passes(leftcol, s, r.hidden)
    && (r.skip == 0 && r.hidden < |s| ==> leftcol <= SpliceStart(s, r.hidden))
    && (r.skip > 0 ==> r.hidden < |s| && r.skip < s[r.hidden].width && r.left == s[r.hidden].anchor)
  }

  method ScrollRow(leftcol: nat, s: seq<Splice>) returns (r: RowScroll)
    ensures Scrolled(leftcol, s, r)
  {
    var shift: nat := 0;
    for i := 0 to |s|
      invariant shift == Sum(s, 0, i) <= leftcol
      invariant Passes(leftcol, s, i)
    {
      var start := s[i].anchor + shift;
      assert start == SpliceStart(s, i);
      if leftcol <= start {
        return RowScroll(leftcol - shift, i, 0);
      }
      if leftcol < start + s[i].width {
        var skip := leftcol - start;
        return RowScroll(leftcol - shift - skip, i, skip);
      }
      shift := shift + s[i].width;
    }
    return RowScroll(leftcol - shift, |s|, 0);
  }

  lemma {:induction false} SumGrows(s: seq<Splice>, b: nat, c: nat)
    requires b <= c <= |s|
    ensures Sum(s, 0, b) <= Sum(s, 0, c)
  {
    if b < c { SumGrows(s, b, c - 1); }
  }

  lemma {:induction false} ReachBelowMeans(s: seq<Splice>, n: nat, col: nat, j: nat)
    requires Ascending(s) && n <= |s| && (forall k: nat | k < n :: s[k].anchor < col) && j < |s|
    ensures j < ReachBelow(s, n, col) <==> s[j].anchor < col
    decreases |s| - n
  {
    if n < |s| && s[n].anchor < col { ReachBelowMeans(s, n + 1, col, j); }
  }

  /** An offset leaves one answer only. */
  lemma ScrollUnique(leftcol: nat, s: seq<Splice>, r: RowScroll, q: RowScroll)
    requires Scrolled(leftcol, s, r) && Scrolled(leftcol, s, q)
    ensures r == q
  {
    StopsFirst(leftcol, s, r, q);
    StopsFirst(leftcol, s, q, r);
  }

  lemma StopsFirst(leftcol: nat, s: seq<Splice>, r: RowScroll, q: RowScroll)
    requires Scrolled(leftcol, s, r) && Scrolled(leftcol, s, q)
    ensures q.hidden <= r.hidden
  {
    var h := r.hidden;
    assert h < |s| ==> SpliceStart(s, h) == s[h].anchor + Sum(s, 0, h);
  }

  /** The offset lies in the painted span of the text column it leaves first. */
  lemma ScrollWithinColumn(leftcol: nat, s: seq<Splice>, r: RowScroll)
    requires Ascending(s) && Scrolled(leftcol, s, r)
    ensures PaintedStart(r.left, s) <= leftcol <= PaintedCol(r.left, s)
  {
    var (below, upto) := (ReachBelow(s, 0, r.left), Reach(s, 0, r.left));
    if r.hidden < |s| { ReachBelowMeans(s, 0, r.left, r.hidden); }
    SumGrows(s, below, r.hidden);
    var shown := if r.skip > 0 then r.hidden + 1 else r.hidden;
    if shown > 0 {
      ReachMeans(s, 0, r.left);
      assert SpliceStart(s, shown - 1) == s[shown - 1].anchor + Sum(s, 0, shown - 1);
      assert s[shown - 1].anchor <= r.left;
    }
    SumGrows(s, shown, upto);
  }

  /** Scrolling to where a column starts, or to where its cells paint, leaves exactly that column first. */
  lemma ScrollInvertsPainted(col: nat, s: seq<Splice>, r: RowScroll)
    requires Ascending(s)
    ensures Scrolled(PaintedStart(col, s), s, r) ==> r.left == col && r.skip == 0
    ensures Scrolled(PaintedCol(col, s), s, r) ==> r.left == col && r.skip == 0
  {
    ScrollInvertsStart(col, s);
    var q := RowScroll(col, ReachBelow(s, 0, col), 0);
    if Scrolled(PaintedStart(col, s), s, r) { ScrollUnique(PaintedStart(col, s), s, r, q); }
    if Scrolled(PaintedCol(col, s), s, r) { ScrollInvertsCol(col, s, r); }
  }

  lemma ScrollInvertsStart(col: nat, s: seq<Splice>)
    requires Ascending(s)
    ensures Scrolled(PaintedStart(col, s), s, RowScroll(col, ReachBelow(s, 0, col), 0))
  {
    var h := ReachBelow(s, 0, col);
    forall j: nat | j < h
      ensures SpliceStart(s, j) < PaintedStart(col, s) && SpliceStart(s, j) + s[j].width <= PaintedStart(col, s) {
      ReachBelowMeans(s, 0, col, j);
      SumGrows(s, j + 1, h);
    }
    if h < |s| { ReachBelowMeans(s, 0, col, h); }
  }

  lemma ScrollInvertsCol(col: nat, s: seq<Splice>, r: RowScroll)
    requires Ascending(s) && Scrolled(PaintedCol(col, s), s, r)
    ensures r.left == col && r.skip == 0
  {
    var n := Reach(s, 0, col);
    var leftcol := PaintedCol(col, s);
    ReachMeans(s, 0, col);
    if r.hidden < n {
      SumGrows(s, r.hidden + 1, n);
      assert s[r.hidden].anchor <= col;
    }
    assert n < |s| ==> SpliceStart(s, n) == s[n].anchor + Sum(s, 0, n);
  }

  /** With positive widths the painted column also hides every splice anchored up to the column. */
  lemma PaintedColHidesItsSplices(col: nat, s: seq<Splice>, r: RowScroll)
    requires Ascending(s) && Scrolled(PaintedCol(col, s), s, r) && forall j: nat | j < |s| :: s[j].width > 0
    ensures forall j: nat | j < |s| :: j < r.hidden <==> s[j].anchor <= col
  {
    var n := Reach(s, 0, col);
    ScrollInvertsCol(col, s, r);
    ReachMeans(s, 0, col);
    if r.hidden < n { SumGrows(s, r.hidden + 1, n); }
    assert n < |s| ==> SpliceStart(s, n) == s[n].anchor + Sum(s, 0, n);
  }
}
