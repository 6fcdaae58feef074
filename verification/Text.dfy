/**
 * Buffer text and its rows.  A text is a sequence of bytes (written as chars) whose
 * only line break is LF; a position is a byte offset or a `(row, byte column)` point.
 */
module Text {
  import opened Wrappers

  type Text = seq<char>

  const LF: char := '\n'

  datatype Point = Point(row: nat, col: nat) {
    predicate Before(that: Point) {
      row < that.row || (row == that.row && col < that.col)
    }
  }

  /** How many line breaks a text holds. */
  function Rows(t: Text): nat {
    if |t| == 0 then 0 else Rows(t[..|t| - 1]) + if t[|t| - 1] == LF then 1 else 0
  }

  /** Where the last row of a text starts. */
  function LastRowStart(t: Text): (s: nat)
    ensures s <= |t|
  {
    if |t| == 0 then 0 else if t[|t| - 1] == LF then |t| else LastRowStart(t[..|t| - 1])
  }

  /** The point just past a prefix of the buffer. */
  function PointOf(prefix: Text): Point {
    Point(Rows(prefix), |prefix| - LastRowStart(prefix))
  }

  function PointAt(t: Text, b: nat): Point
    requires b <= |t|
  {
    PointOf(t[..b])
  }

  lemma {:induction false} RowsOfConcat(a: Text, b: Text)
    ensures Rows(a + b) == Rows(a) + Rows(b)
    ensures LastRowStart(a + b) == if Rows(b) == 0 then LastRowStart(a) else |a| + LastRowStart(b)
    decreases |b|
  {
    if |b| == 0 {
      assert a + b == a;
    } else {
      var b' := b[..|b| - 1];
      assert (a + b)[..|a + b| - 1] == a + b';
      RowsOfConcat(a, b');
    }
  }

  lemma PointOfConcat(a: Text, b: Text)
    ensures PointOf(a + b) ==
      if Rows(b) == 0 then Point(PointOf(a).row, PointOf(a).col + |b|)
      else Point(PointOf(a).row + Rows(b), PointOf(b).col)
  {
    RowsOfConcat(a, b);
    if Rows(b) == 0 { NoRowsStartAtZero(b); }
  }

  lemma {:induction false} NoRowsStartAtZero(b: Text)
    requires Rows(b) == 0
    ensures LastRowStart(b) == 0
    decreases |b|
  {
    if |b| > 0 { NoRowsStartAtZero(b[..|b| - 1]); }
  }

  /** Points order as the bytes they stand for. */
  lemma PointsOrderAsBytes(t: Text, i: nat, j: nat)
    requires i < j <= |t|
    ensures PointAt(t, i).Before(PointAt(t, j))
  {
    assert t[..j] == t[..i] + t[i..j];
    PointOfConcat(t[..i], t[i..j]);
  }

  // ----- edits --------------------------------------------------------------------

  /** One content mutation, in bytes and in points, with the bytes it put in. */
  datatype BufferEdit = BufferEdit(
    start: nat, oldEnd: nat, newEnd: nat, startPoint: Point, oldEndPoint: Point, newEndPoint: Point, text: Text)

  function Spliced(t: Text, start: nat, oldEnd: nat, ins: Text): Text
    requires start <= oldEnd <= |t|
  {
    t[..start] + ins + t[oldEnd..]
  }

  /** The edit that replaces `[start, oldEnd)` of `t` by `ins`. */
  function EditOf(t: Text, start: nat, oldEnd: nat, ins: Text): BufferEdit
    requires start <= oldEnd <= |t|
  {
    BufferEdit(start, oldEnd, start + |ins|, PointAt(t, start), PointAt(t, oldEnd),
               PointOf(t[..start] + ins), ins)
  }

  /** The edit describes a change of exactly this text. */
  predicate Fits(t: Text, e: BufferEdit) {
    e.start <= e.oldEnd <= |t| && e == EditOf(t, e.start, e.oldEnd, e.text)
  }

  function Apply(t: Text, e: BufferEdit): Text
    requires Fits(t, e)
  {
    Spliced(t, e.start, e.oldEnd, e.text)
  }

  /** Each of the first `n` edits describes a change of the text the ones before it left. */
  ghost predicate ChainTo(t: Text, es: seq<BufferEdit>, n: nat)
    requires n <= |es|
    decreases n, 0
  {
    n == 0 || (ChainTo(t, es, n - 1) && Fits(ReplayTo(t, es, n - 1), es[n - 1]))
  }

  ghost function ReplayTo(t: Text, es: seq<BufferEdit>, n: nat): Text
    requires n <= |es| && ChainTo(t, es, n)
    decreases n, 1
  {
    if n == 0 then t else Apply(ReplayTo(t, es, n - 1), es[n - 1])
  }

  /** A journal of the text: a run of edits each of which fits where it stands. */
  ghost predicate Chain(t: Text, es: seq<BufferEdit>) { ChainTo(t, es, |es|) }

  ghost function Replay(t: Text, es: seq<BufferEdit>): Text
    requires Chain(t, es)
  {
    ReplayTo(t, es, |es|)
  }

  lemma {:induction false} ReplaySamePrefix(t: Text, es: seq<BufferEdit>, more: seq<BufferEdit>, n: nat)
    requires n <= |es| && ChainTo(t, es, n)
    ensures ChainTo(t, es + more, n) && ReplayTo(t, es + more, n) == ReplayTo(t, es, n)
    decreases n
  {
    if n > 0 { ReplaySamePrefix(t, es, more, n - 1); }
  }

  lemma ReplayPush(t: Text, es: seq<BufferEdit>, e: BufferEdit)
    requires Chain(t, es) && Fits(Replay(t, es), e)
    ensures Chain(t, es + [e]) && Replay(t, es + [e]) == Apply(Replay(t, es), e)
  {
    ReplaySamePrefix(t, es, [e], |es|);
  }

  // ----- positions across an edit -------------------------------------------------

  /** The rule marks, change-list entries and jumplist targets ride an edit by. */
  function ShiftPoint(pos: Point, s: Point, oe: Point, ne: Point): Option<Point> {
    if pos.Before(s) then Some(pos)
    else if !pos.Before(oe) then
      Some(Point(pos.row + ne.row - oe.row, if pos.row == oe.row then pos.col + ne.col - oe.col else pos.col))
    else if oe.row > pos.row then None
    else Some(s)
  }

  /**
   * Shifting a point is shifting its byte: before the edit nothing moves, at or past it
   * the byte moves by the edit's length, and inside it the position is dropped when its
   * row is swallowed and is the edit's start otherwise.
   */
  lemma ShiftPointIsByteShift(t: Text, p: nat, e: BufferEdit)
    requires Fits(t, e) && p <= |t|
    ensures
      var (new_, q) := (Apply(t, e), ShiftPoint(PointAt(t, p), e.startPoint, e.oldEndPoint, e.newEndPoint));
      if p < e.start then q == Some(PointAt(new_, p))
      else if p >= e.oldEnd then q == Some(PointAt(new_, p - e.oldEnd + e.newEnd))
      else if PointAt(t, e.oldEnd).row > PointAt(t, p).row then q == None
      else q == Some(PointAt(new_, e.start))
  {
    var new_ := Apply(t, e);
    if p < e.start {
      PointsOrderAsBytes(t, p, e.start);
      assert new_[..p] == t[..p];
    } else if p >= e.oldEnd {
      if e.start < p { PointsOrderAsBytes(t, e.start, p); }
      if e.oldEnd < p { PointsOrderAsBytes(t, e.oldEnd, p); }
      var kept := t[e.oldEnd..p];
      assert t[..p] == t[..e.oldEnd] + kept;
      assert new_[..p - e.oldEnd + e.newEnd] == t[..e.start] + e.text + kept;
      PointOfConcat(t[..e.oldEnd], kept);
      PointOfConcat(t[..e.start] + e.text, kept);
    } else {
      if e.start < p { PointsOrderAsBytes(t, e.start, p); }
      PointsOrderAsBytes(t, p, e.oldEnd);
      assert new_[..e.start] == t[..e.start];
    }
  }

  /** A point of the text: that of some byte offset. */
  ghost predicate IsPoint(t: Text, p: Point) {
    exists b: nat | b <= |t| :: PointAt(t, b) == p
  }

  /** What survives an edit is a point of the new text. */
  lemma ShiftedPointIsPoint(t: Text, p: Point, e: BufferEdit)
    requires Fits(t, e) && IsPoint(t, p)
    ensures var q := ShiftPoint(p, e.startPoint, e.oldEndPoint, e.newEndPoint);
      q.Some? ==> IsPoint(Apply(t, e), q.value)
  {
    var b: nat :| b <= |t| && PointAt(t, b) == p;
    ShiftPointIsByteShift(t, b, e);
  }

  lemma StartPointIsPoint(t: Text, e: BufferEdit)
    requires Fits(t, e)
    ensures IsPoint(Apply(t, e), e.startPoint)
  {
    assert Apply(t, e)[..e.start] == t[..e.start];
    assert PointAt(Apply(t, e), e.start) == e.startPoint;
  }
}
