/**
 * How one byte anchor rides one edit, and what that means for the text a mark covers.
 *
 * An edit replaces `[start, oldEnd)` by new content ending at `newEnd`.  An anchor of
 * right gravity is pushed by text typed at it, one of left gravity is not.
 */
module Gravity {
  import opened Wrappers

  datatype Edit = Edit(start: nat, oldEnd: nat, newEnd: nat) {
    predicate Fits() { start <= oldEnd && start <= newEnd }

    predicate NoOp() { oldEnd == start && newEnd == start }
  }

  function ShiftRightGravity(p: nat, e: Edit): nat
    requires e.Fits()
  {
    if p < e.start then p
    else if p < e.oldEnd then e.newEnd
    else p - e.oldEnd + e.newEnd
  }

  function ShiftLeftGravity(p: nat, e: Edit): nat
    requires e.Fits()
  {
    if p <= e.start then p
    else if p < e.oldEnd then e.start
    else p - e.oldEnd + e.newEnd
  }

  function ShiftAnchor(p: nat, right: bool, e: Edit): nat
    requires e.Fits()
  {
    if right then ShiftRightGravity(p, e) else ShiftLeftGravity(p, e)
  }

  /** The two anchors of a mark, with their gravities; `end` is absent for a point mark. */
  datatype Anchors = Anchors(start: nat, end: Option<nat>, rightGravity: bool, endRightGravity: bool) {
    predicate Inverted() { end.Some? && end.value < start }

    /** The position the mark's range reaches to: its start, for a point mark. */
    function Reach(): nat { if end.Some? then end.value else start }

    function Shift(e: Edit): Anchors
      requires e.Fits()
    {
      if e.NoOp() then this
      else
        var s := ShiftAnchor(start, rightGravity, e);
        var t := if end.Some? then Some(Max(ShiftAnchor(end.value, endRightGravity, e), s)) else None;
        this.(start := s, end := t)
    }
  }

  // ----- what the gravities do to the text under a mark -------------------------

  /** An edit together with the text it puts in. */
  datatype TextEdit<T> = TextEdit(start: nat, oldEnd: nat, ins: seq<T>) {
    predicate Fits(text: seq<T>) { start <= oldEnd <= |text| }

    function Span(): Edit { Edit(start, oldEnd, start + |ins|) }

    function Apply(text: seq<T>): seq<T>
      requires Fits(text)
    {
      text[..start] + ins + text[oldEnd..]
    }

    /** The replaced bytes lie outside the half-open range `[lo, hi)`. */
    predicate Outside(lo: nat, hi: nat) { oldEnd <= lo || hi <= start }
  }

  predicate InText<T>(text: seq<T>, a: Anchors) {
    a.start <= a.Reach() <= |text|
  }

  function Under<T>(text: seq<T>, a: Anchors): seq<T>
    requires InText(text, a)
  {
    text[a.start..a.Reach()]
  }

  /** Neovim's default: the start is pushed by an insertion at it, the end is not. */
  predicate DefaultGravity(a: Anchors) { a.rightGravity && !a.endRightGravity }

  /** A live snippet tabstop: it swallows text typed at either edge. */
  predicate Growing(a: Anchors) { !a.rightGravity && a.endRightGravity }

  /** Shifting keeps every mark that was inside the old text inside the new one, whatever its gravities. */
  lemma ShiftStaysInText<T>(text: seq<T>, a: Anchors, te: TextEdit<T>)
    requires te.Fits(text) && InText(text, a)
    ensures InText(te.Apply(text), a.Shift(te.Span()))
  {
  }

  lemma SliceAfter<T>(front: seq<T>, text: seq<T>, cut: nat, lo: nat, hi: nat)
    requires cut <= lo <= hi <= |text|
    ensures (front + text[cut..])[|front| + lo - cut..|front| + hi - cut] == text[lo..hi]
  {
  }

  lemma SliceBefore<T>(text: seq<T>, cut: nat, back: seq<T>, lo: nat, hi: nat)
    requires lo <= hi <= cut <= |text|
    ensures (text[..cut] + back)[lo..hi] == text[lo..hi]
  {
  }

  lemma OutsideEditKeepsText<T>(text: seq<T>, a: Anchors, te: TextEdit<T>)
    requires te.Fits(text) && InText(text, a) && a.end.Some? && DefaultGravity(a)
    requires te.Outside(a.start, a.end.value)
    ensures InText(te.Apply(text), a.Shift(te.Span()))
    ensures Under(te.Apply(text), a.Shift(te.Span())) == Under(text, a)
  {
    var (b, after) := (a.Shift(te.Span()), te.Apply(text));
    var (lo, hi) := (a.start, a.end.value);
    if te.Span().NoOp() {
      assert after == text;
    } else if te.oldEnd <= lo && lo < hi {
      SliceAfter(text[..te.start] + te.ins, text, te.oldEnd, lo, hi);
    } else if lo < hi {
      SliceBefore(text, te.start, te.ins + text[te.oldEnd..], lo, hi);
      assert after == text[..te.start] + (te.ins + text[te.oldEnd..]);
    } else {
      assert b.start == b.end.value;
    }
  }

  /** Every edit of the run fits the text it meets and keeps clear of the mark as it then stands. */
  ghost predicate RunOutside<T>(text: seq<T>, a: Anchors, run: seq<TextEdit<T>>)
    decreases |run|
  {
    |run| == 0 ||
    (run[0].Fits(text) && a.end.Some? && run[0].Outside(a.start, a.end.value) &&
     RunOutside(run[0].Apply(text), a.Shift(run[0].Span()), run[1..]))
  }

  ghost predicate RunFits<T>(text: seq<T>, run: seq<TextEdit<T>>)
    decreases |run|
  {
    |run| == 0 || (run[0].Fits(text) && RunFits(run[0].Apply(text), run[1..]))
  }

  ghost function RunText<T>(text: seq<T>, run: seq<TextEdit<T>>): seq<T>
    requires RunFits(text, run)
    decreases |run|
  {
    if |run| == 0 then text else RunText(run[0].Apply(text), run[1..])
  }

  ghost function RunMark<T>(a: Anchors, text: seq<T>, run: seq<TextEdit<T>>): Anchors
    requires RunFits(text, run)
    decreases |run|
  {
    if |run| == 0 then a else RunMark(a.Shift(run[0].Span()), run[0].Apply(text), run[1..])
  }

  /** However long the run, edits that stay clear of a default-gravity range leave its text as it was. */
  lemma {:induction false} RunOutsideKeepsText<T>(text: seq<T>, a: Anchors, run: seq<TextEdit<T>>)
    requires InText(text, a) && a.end.Some? && DefaultGravity(a)
    requires RunOutside(text, a, run)
    ensures RunFits(text, run)
    ensures InText(RunText(text, run), RunMark(a, text, run))
    ensures Under(RunText(text, run), RunMark(a, text, run)) == Under(text, a)
    decreases |run|
  {
    if |run| > 0 {
      OutsideEditKeepsText(text, a, run[0]);
      RunOutsideKeepsText(run[0].Apply(text), a.Shift(run[0].Span()), run[1..]);
    }
  }

  /** A growing range gains exactly what is typed at its left edge, before its text. */
  lemma TypingAtLeftEdgeGrows<T>(text: seq<T>, a: Anchors, typed: seq<T>)
    requires InText(text, a) && a.end.Some? && Growing(a)
    ensures
      var te := TextEdit(a.start, a.start, typed);
      && InText(te.Apply(text), a.Shift(te.Span()))
      && Under(te.Apply(text), a.Shift(te.Span())) == typed + Under(text, a)
  {
    var te := TextEdit(a.start, a.start, typed);
    var b := a.Shift(te.Span());
    assert b.start == a.start && b.end == Some(a.end.value + |typed|);
    Spliced(text[..a.start], typed, text[a.start..], a.end.value - a.start);
    assert text[a.start..][..a.end.value - a.start] == text[a.start..a.end.value];
  }

  /** The characters after the first part, up to `n` of the third. */
  lemma Spliced<T>(before: seq<T>, ins: seq<T>, after: seq<T>, n: nat)
    requires n <= |after|
    ensures (before + ins + after)[|before|..|before| + |ins| + n] == ins + after[..n]
  {
  }

  lemma SplicedEnd<T>(before: seq<T>, ins: seq<T>, after: seq<T>, n: nat)
    requires n <= |before|
    ensures (before + ins + after)[n..|before| + |ins|] == before[n..] + ins
  {
  }

  /** ... and exactly what is typed at its right edge, after its text. */
  lemma TypingAtRightEdgeGrows<T>(text: seq<T>, a: Anchors, typed: seq<T>)
    requires InText(text, a) && a.end.Some? && Growing(a)
    ensures
      var te := TextEdit(a.end.value, a.end.value, typed);
      && InText(te.Apply(text), a.Shift(te.Span()))
      && Under(te.Apply(text), a.Shift(te.Span())) == Under(text, a) + typed
  {
    var te := TextEdit(a.end.value, a.end.value, typed);
    var b := a.Shift(te.Span());
    assert b.start == a.start && b.end == Some(a.end.value + |typed|);
    SplicedEnd(text[..a.end.value], typed, text[a.end.value..], a.start);
    assert text[..a.end.value][a.start..] == text[a.start..a.end.value];
  }

  /**
   * Typing `n` bytes at `at` and deleting them again returns a mark to where it was
   * exactly when its range was not inverted: the shift straightens an inverted range
   * and never bends it back.
   */
  lemma InsertThenDeleteReturns(a: Anchors, at: nat, n: nat)
    ensures
      var there := a.Shift(Edit(at, at, at + n));
      var back := there.Shift(Edit(at, at + n, at));
      back == a <==> n == 0 || !a.Inverted()
  {
    if n > 0 {
      var there := a.Shift(Edit(at, at, at + n));
      var back := there.Shift(Edit(at, at + n, at));
      assert back.start == a.start;
      if a.end.Some? {
        assert there.end.value >= there.start;
        assert back.end.value >= back.start;
      }
    }
  }

  /**
   * Text before the edit stays before its position, text after it stays after, whatever the
   * gravity; a position inside collapses to the end of the new content, or with left gravity
   * to its start.
   */
  lemma PositionKeepsSide<T>(text: seq<T>, e: TextEdit<T>, p: nat, right: bool)
    requires e.Fits(text) && p <= |text|
    ensures var q := ShiftAnchor(p, right, e.Span());
      q <= |e.Apply(text)|
      && (p < e.start || (p == e.start && !right) ==> q == p && e.Apply(text)[..q] == text[..p])
      && (p > e.oldEnd || (p == e.oldEnd && (right || p > e.start)) ==> e.Apply(text)[q..] == text[p..])
      && (e.start < p < e.oldEnd || (right && e.start == p < e.oldEnd) ==>
            q == e.start + if right then |e.ins| else 0)
  {
    var q := ShiftAnchor(p, right, e.Span());
    var head := e.start + |e.ins|;
    if p >= e.oldEnd && q >= head {
      assert e.Apply(text)[head..] == text[e.oldEnd..];
      assert e.Apply(text)[q..] == e.Apply(text)[head..][q - head..];
    }
  }
}
