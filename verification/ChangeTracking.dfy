/** What one edit does to the positions and the changed span a buffer keeps. */
module ChangeTracking {
  import opened Wrappers
  import opened Text

  const CHANGELIST_SIZE: nat := 100

  // ----- marks and the change list ------------------------------------------------

  function Moved(p: Point, e: BufferEdit): Option<Point> {
    ShiftPoint(p, e.startPoint, e.oldEndPoint, e.newEndPoint)
  }

  /** Every mark moved with its text; one whose row was deleted is gone. */
  function ShiftedMarks(marks: map<char, Point>, e: BufferEdit): map<char, Point> {
    map c | c in marks && Moved(marks[c], e).Some? :: Moved(marks[c], e).value
  }

  /** The first `n` change-list entries, moved the same way. */
  function ShiftedList(list: seq<Point>, n: nat, e: BufferEdit): (r: seq<Point>)
    requires n <= |list|
    ensures |r| <= n
  {
    if n == 0 then []
    else
      var q := Moved(list[n - 1], e);
      ShiftedList(list, n - 1, e) + if q.Some? then [q.value] else []
  }

  /** A change on the newest entry's row updates it, any other appends; the oldest goes at the cap. */
  function AddChange(list: seq<Point>, p: Point): (r: seq<Point>)
    ensures |r| > 0 && r[|r| - 1] == p
    ensures |list| <= CHANGELIST_SIZE ==> |r| <= CHANGELIST_SIZE
  {
    if |list| > 0 && list[|list| - 1].row == p.row then list[..|list| - 1] + [p]
    else if |list| >= CHANGELIST_SIZE then list[1..] + [p]
    else list + [p]
  }

  method ShiftMarks(marks: map<char, Point>, e: BufferEdit) returns (moved: map<char, Point>)
    ensures moved == ShiftedMarks(marks, e)
  {
    moved := map[];
    var todo := marks.Keys;
    while todo != {}
      invariant todo <= marks.Keys
      invariant forall c :: c in moved <==> c in marks && c !in todo && Moved(marks[c], e).Some?
      invariant forall c | c in moved :: moved[c] == Moved(marks[c], e).value
    {
      var c :| c in todo;
      todo := todo - {c};
      match Moved(marks[c], e)
      case Some(p) => moved := moved[c := p];
      case None =>
    }
  }

  method ShiftChangelist(list: seq<Point>, e: BufferEdit) returns (moved: seq<Point>)
    ensures moved == ShiftedList(list, |list|, e)
  {
    moved := [];
    for i := 0 to |list|
      invariant moved == ShiftedList(list, i, e)
    {
      match Moved(list[i], e)
      case Some(p) => moved := moved + [p];
      case None =>
    }
  }

  /**
   * Before its new last entry the change list is the old one, in order: without its newest
   * entry exactly when that was on the same row, and without its oldest exactly when it was
   * full and the newest on another row.
   */
  lemma AddChangeKeeps(list: seq<Point>, p: Point)
    ensures var r := AddChange(list, p);
      var sameRow := |list| > 0 && list[|list| - 1].row == p.row;
      var dropped := if |list| >= 100 && !sameRow then 1 else 0;
      var kept := |list| - dropped - if sameRow then 1 else 0;
      |r| == kept + 1 && r[kept] == p && forall i | 0 <= i < kept :: r[i] == list[i + dropped]
  {
  }

  /** The list after a run of changes, oldest first, from an empty one. */
  function AddAll(ps: seq<Point>): seq<Point> {
    if ps == [] then [] else AddChange(AddAll(ps[..|ps| - 1]), ps[|ps| - 1])
  }

  /** The changes among the first `n` that the next one is not on the row of. */
  function RowEnds(ps: seq<Point>, n: nat): seq<Point>
    requires n < |ps|
  {
    if n == 0 then []
    else RowEnds(ps, n - 1) + if ps[n - 1].row == ps[n].row then [] else [ps[n - 1]]
  }

  function LastOf(ps: seq<Point>, n: nat): seq<Point> { if |ps| <= n then ps else ps[|ps| - n..] }

  lemma {:induction false} RowEndsPrefix(ps: seq<Point>, p: Point, n: nat)
    requires n < |ps|
    ensures RowEnds(ps + [p], n) == RowEnds(ps, n)
  {
    if n > 0 { RowEndsPrefix(ps, p, n - 1); }
  }

  /** A run of changes leaves the last of each stretch on one row, the newest hundred of them. */
  lemma {:induction false} ChangesRun(ps: seq<Point>)
    requires ps != []
    ensures AddAll(ps) == LastOf(RowEnds(ps, |ps| - 1) + [ps[|ps| - 1]], 100)
    decreases |ps|
  {
    var (before, p) := (ps[..|ps| - 1], ps[|ps| - 1]);
    assert ps == before + [p];
    if before != [] {
      ChangesRun(before);
      RowEndsPrefix(before, p, |before| - 1);
      var q := before[|before| - 1];
      var ends := RowEnds(before, |before| - 1);
      assert RowEnds(ps, |before|) == ends + if q.row == p.row then [] else [q];
      NextChange(ends, q, p);
    }
  }

  lemma NextChange(ends: seq<Point>, q: Point, p: Point)
    ensures AddChange(LastOf(ends + [q], 100), p)
         == LastOf((ends + if q.row == p.row then [] else [q]) + [p], 100)
  {
    var all := ends + [q];
    var held := LastOf(all, 100);
    var k := |all| - |held|;
    assert held == all[k..] && held[|held| - 1] == q;
    if q.row == p.row {
      assert ends + [] == ends;
      ReplaceLast(ends, q, p, k);
    } else {
      AppendLast(all, p, k);
    }
  }

  lemma ReplaceLast(ends: seq<Point>, q: Point, p: Point, k: nat)
    requires k <= |ends|
    ensures (ends + [q])[k..][..|ends| - k] + [p] == (ends + [p])[k..]
  {
  }

  lemma AppendLast(all: seq<Point>, p: Point, k: nat)
    requires k < |all|
    ensures all[k..] + [p] == (all + [p])[k..] && all[k..][1..] + [p] == (all + [p])[k + 1..]
  {
  }

  /** How many of the first `n` entries outlive the edit. */
  function Survivors(list: seq<Point>, n: nat, e: BufferEdit): nat
    requires n <= |list|
  {
    if n == 0 then 0 else Survivors(list, n - 1, e) + if Moved(list[n - 1], e).Some? then 1 else 0
  }

  /** Every entry that outlives the edit is in the shifted list, moved, after those that do before it. */
  lemma {:induction false} SurvivorsStay(list: seq<Point>, n: nat, e: BufferEdit, i: nat)
    requires i < n <= |list|
    ensures |ShiftedList(list, n, e)| == Survivors(list, n, e)
    ensures Moved(list[i], e).Some? ==>
      Survivors(list, i, e) < Survivors(list, n, e)
      && Some(ShiftedList(list, n, e)[Survivors(list, i, e)]) == Moved(list[i], e)
    decreases n
  {
    if i < n - 1 {
      SurvivorsStay(list, n - 1, e, i);
    } else if n > 1 {
      SurvivorsStay(list, n - 1, e, 0);
    }
  }

  /** The marks with the last-change mark as it was in `saved`. */
  function WithDotOf(marks: map<char, Point>, saved: map<char, Point>): map<char, Point> {
    if '.' in saved then marks['.' := saved['.']] else marks - {'.'}
  }

  /** Only the last-change mark is put back: it is there exactly when it was, as it was. */
  lemma OnlyDotIsPutBack(marks: map<char, Point>, saved: map<char, Point>)
    ensures var r := WithDotOf(marks, saved);
      ('.' in r <==> '.' in saved) && ('.' in saved ==> r['.'] == saved['.'])
      && forall c | c != '.' :: (c in r <==> c in marks) && (c in marks ==> r[c] == marks[c])
  {
  }

  lemma DotIsPutBack(marks: map<char, Point>, p: Point, saved: map<char, Point>)
    ensures WithDotOf(marks['.' := p], saved) == WithDotOf(marks, saved)
  {
  }

  lemma DotIsRestored(marks: map<char, Point>, p: Point, saved: map<char, Point>, t: Text)
    requires MarksInText(t, marks['.' := p]) && MarksInText(t, saved)
    ensures WithDotOf(marks['.' := p], saved) == WithDotOf(marks, saved)
    ensures MarksInText(t, WithDotOf(marks, saved))
  {
    var m := marks['.' := p];
    forall c | c in WithDotOf(marks, saved) ensures IsPoint(t, WithDotOf(marks, saved)[c]) {
      assert c != '.' ==> m[c] == marks[c];
    }
  }

  ghost predicate ArePoints(t: Text, ps: seq<Point>) {
    forall p | p in ps :: IsPoint(t, p)
  }

  ghost predicate MarksInText(t: Text, marks: map<char, Point>) {
    forall c | c in marks :: IsPoint(t, marks[c])
  }

  lemma MarksStayInText(t: Text, marks: map<char, Point>, e: BufferEdit)
    requires Fits(t, e) && MarksInText(t, marks)
    ensures MarksInText(Apply(t, e), ShiftedMarks(marks, e)['.' := e.startPoint])
  {
    StartPointIsPoint(t, e);
    forall c | c in ShiftedMarks(marks, e) ensures IsPoint(Apply(t, e), ShiftedMarks(marks, e)[c]) {
      ShiftedPointIsPoint(t, marks[c], e);
    }
  }

  lemma {:induction false} ListStaysInText(t: Text, list: seq<Point>, n: nat, e: BufferEdit)
    requires Fits(t, e) && ArePoints(t, list) && n <= |list|
    ensures ArePoints(Apply(t, e), ShiftedList(list, n, e))
    decreases n
  {
    if n > 0 {
      ListStaysInText(t, list, n - 1, e);
      assert list[n - 1] in list;
      ShiftedPointIsPoint(t, list[n - 1], e);
    }
  }

  lemma ChangesStayInText(t: Text, list: seq<Point>, e: BufferEdit)
    requires Fits(t, e) && ArePoints(t, list)
    ensures ArePoints(Apply(t, e), AddChange(ShiftedList(list, |list|, e), e.startPoint))
  {
    StartPointIsPoint(t, e);
    ListStaysInText(t, list, |list|, e);
  }

  // ----- the changed span ---------------------------------------------------------

  function ShiftSpanEnd(p: nat, e: BufferEdit): nat
    requires e.start <= e.oldEnd
  {
    if p <= e.start then p
    else if p >= e.oldEnd then p - e.oldEnd + e.newEnd
    else e.newEnd
  }

  /** The span grown by one edit. */
  function GrownSpan(span: Option<(nat, nat)>, e: BufferEdit): (nat, nat)
    requires e.start <= e.oldEnd
  {
    match span
    case Some((lo, hi)) => (Min(ShiftSpanEnd(lo, e), e.start), Max(ShiftSpanEnd(hi, e), e.newEnd))
    case None => (e.start, e.newEnd)
  }

  /** Before the span and after it the text is that of `base`; with no span it is `base`. */
  ghost predicate Brackets(span: Option<(nat, nat)>, base: Text, t: Text) {
    match span
    case None => t == base
    case Some((lo, hi)) =>
      && lo <= hi <= |t| && lo <= |base| && |t| - hi <= |base|
      && t[..lo] == base[..lo]
      && t[hi..] == base[|base| - (|t| - hi)..]
  }

  lemma EditKeepsPrefix(t: Text, e: BufferEdit, k: nat)
    requires Fits(t, e) && k <= e.start
    ensures Apply(t, e)[..k] == t[..k]
  {
  }

  lemma EditKeepsSuffix(t: Text, e: BufferEdit, k: nat)
    requires Fits(t, e) && e.oldEnd <= k <= |t|
    ensures |Apply(t, e)| == |t| - e.oldEnd + e.newEnd
    ensures Apply(t, e)[k - e.oldEnd + e.newEnd..] == t[k..]
  {
  }

  /** A shorter prefix and a later suffix bracket what a longer and an earlier one do. */
  lemma WiderBrackets(lo: nat, hi: nat, lo': nat, hi': nat, base: Text, t: Text)
    requires Brackets(Some((lo, hi)), base, t) && lo' <= lo && hi <= hi' <= |t|
    ensures Brackets(Some((lo', hi')), base, t)
  {
    assert t[..lo'] == t[..lo][..lo'] && base[..lo'] == base[..lo][..lo'];
    assert t[hi'..] == t[hi..][hi' - hi..];
    assert base[|base| - (|t| - hi')..] == base[|base| - (|t| - hi)..][hi' - hi..];
  }

  /** The grown span starts at the lesser start, and ends where the later of the old end and the edit's is now. */
  lemma GrownSpanIsHull(lo: nat, hi: nat, e: BufferEdit)
    requires e.start <= e.oldEnd && e.start <= e.newEnd && lo <= hi
    ensures GrownSpan(None, e) == (e.start, e.newEnd)
    ensures GrownSpan(Some((lo, hi)), e)
         == (Min(lo, e.start), e.newEnd + if hi <= e.oldEnd then 0 else hi - e.oldEnd)
  {
  }

  lemma GrownSpanBrackets(span: Option<(nat, nat)>, base: Text, t: Text, e: BufferEdit)
    requires Fits(t, e) && Brackets(span, base, t)
    ensures Brackets(Some(GrownSpan(span, e)), base, Apply(t, e))
  {
    var (lo', hi') := GrownSpan(span, e);
    var cut := hi' - e.newEnd + e.oldEnd;
    match span {
      case None => assert Brackets(Some((lo', cut)), base, t);
      case Some((lo, hi)) => WiderBrackets(lo, hi, lo', cut, base, t);
    }
    EditKeepsPrefix(t, e, lo');
    EditKeepsSuffix(t, e, cut);
  }

  predicate Terminated(t: Text) { |t| > 0 && t[|t| - 1] == LF }

  /** The span as it stands after the buffer supplied its missing final line break. */
  function NormalizedSpan(span: Option<(nat, nat)>, n: nat): Option<(nat, nat)> {
    if span.Some? then Some((Min(span.value.0, n), Min(span.value.1, n))) else None
  }

  /**
   * Supplying the final line break keeps the span a bracket of what changed exactly when
   * the text it is measured against was itself terminated.
   */
  lemma {:induction false} NormalizeKeepsBracket(span: Option<(nat, nat)>, base: Text, t: Text)
    requires Brackets(span, base, t) && !Terminated(t)
    ensures Brackets(NormalizedSpan(span, |t|), base, t + [LF]) <==> Terminated(base)
  {
    var t' := t + [LF];
    match span
    case None =>
      assert |t'| != |t|;
    case Some((lo, hi)) =>
      assert t'[..lo] == t[..lo];
      assert t'[hi..] == t[hi..] + [LF];
      if Terminated(base) {
        assert hi == |t|;
        assert t'[hi..] == [LF] == base[|base| - 1..];
      }
      if Brackets(NormalizedSpan(span, |t|), base, t') {
        assert base[|base| - (|t'| - hi)..][|t'| - hi - 1] == base[|base| - 1];
        assert t'[hi..][|t'| - hi - 1] == LF;
      }
  }

  /** Measured against the text with its own line break supplied, the span stays a bracket. */
  lemma {:induction false} NormalizeBracketsSupplied(span: Option<(nat, nat)>, base: Text, t: Text)
    requires Brackets(span, base, t)
    ensures Brackets(NormalizedSpan(span, |t|), base + [LF], t + [LF])
  {
    match span
    case None =>
    case Some((lo, hi)) =>
      var (base', t') := (base + [LF], t + [LF]);
      assert t'[..lo] == t[..lo] && base'[..lo] == base[..lo];
      assert t'[hi..] == t[hi..] + [LF];
      assert base'[|base'| - (|t'| - hi)..] == base[|base| - (|t| - hi)..] + [LF];
  }

  /** The span brackets what changed since `base`, or since `base` with its missing line break supplied. */
  ghost predicate BracketsSupplied(span: Option<(nat, nat)>, base: Text, t: Text) {
    Brackets(span, base, t) || (!Terminated(base) && Brackets(span, base + [LF], t))
  }

  lemma {:induction false} GrownSpanBracketsSupplied(span: Option<(nat, nat)>, base: Text, t: Text, e: BufferEdit)
    requires Fits(t, e) && BracketsSupplied(span, base, t)
    ensures BracketsSupplied(Some(GrownSpan(span, e)), base, Apply(t, e))
    ensures Brackets(span, base, t) ==> Brackets(Some(GrownSpan(span, e)), base, Apply(t, e))
  {
    if Brackets(span, base, t) { GrownSpanBrackets(span, base, t, e); }
    else { GrownSpanBrackets(span, base + [LF], t, e); }
  }

  /** Over every run of edits and supplied line breaks that much holds of the span. */
  lemma {:induction false} NormalizeKeepsSupplied(span: Option<(nat, nat)>, base: Text, t: Text)
    requires BracketsSupplied(span, base, t) && !Terminated(t)
    ensures BracketsSupplied(NormalizedSpan(span, |t|), base, t + [LF])
  {
    if !Brackets(span, base, t) {
      NormalizeKeepsBracket(span, base + [LF], t);
    } else if Terminated(base) {
      NormalizeKeepsBracket(span, base, t);
    } else {
      NormalizeBracketsSupplied(span, base, t);
    }
  }

  /** The supplied line break moves a position exactly when it sits at the very end of the text. */
  lemma NormalizeMovesOnlyTheEnd(t: Text, b: nat)
    requires b <= |t|
    ensures Moved(PointAt(t, b), EditOf(t, |t|, |t|, [LF])) == Some(PointAt(t, b)) <==> b < |t|
  {
    var e := EditOf(t, |t|, |t|, [LF]);
    ShiftPointIsByteShift(t, b, e);
    var t' := Apply(t, e);
    if b < |t| {
      assert t'[..b] == t[..b];
    } else {
      PointsOrderAsBytes(t', |t|, |t| + 1);
      assert t'[..|t|] == t[..|t|];
    }
  }
}
