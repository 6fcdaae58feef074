/**
 * The text buffer and its one edit choke point: every mutation moves the marks, the
 * change list and the extmarks, grows the changed span and lands in six journals.
 */
module Buffer {
  import opened Wrappers
  import opened Sealed
  import opened Gravity
  import opened Text
  import opened ChangeTracking
  import ExtmarkState
  import opened ExtmarkStore

  /** The consumers that keep their own copy of the text from a journal and a resync flag. */
  datatype Consumer = Syntax | Lsp | LuaTs | Mirror | Folds

  datatype EditBatch = EditBatch(edits: seq<BufferEdit>, resync: bool)

  function AsEdit(e: BufferEdit): Edit { Edit(e.start, e.oldEnd, e.newEnd) }

  /** The edit that supplies a text's missing final line break. */
  function BreakEdit(t: Text): BufferEdit { EditOf(t, |t|, |t|, [LF]) }

  lemma BreakEditAppends(t: Text)
    ensures Fits(t, BreakEdit(t)) && Apply(t, BreakEdit(t)) == t + [LF]
  {
    assert t[..|t|] + [LF] + t[|t|..] == t + [LF];
  }

  /** What a buffer holds beside its extmarks. */
  datatype Fields = Fields(
    text: Text, changedtick: nat, modified: bool,
    syntax: EditBatch, lsp: EditBatch, luaTs: EditBatch, mirror: EditBatch, folds: EditBatch, jumps: seq<BufferEdit>,
    marks: map<char, Point>, changelist: seq<Point>, changelistidx: nat, changeSpan: Option<(nat, nat)>)

  /** The journal a consumer drains. */
  function Pending(f: Fields, c: Consumer): EditBatch {
    match c
    case Syntax => f.syntax
    case Lsp => f.lsp
    case LuaTs => f.luaTs
    case Mirror => f.mirror
    case Folds => f.folds
  }

  function Drained(f: Fields, c: Consumer): Fields {
    var none := EditBatch([], false);
    match c
    case Syntax => f.(syntax := none)
    case Lsp => f.(lsp := none)
    case LuaTs => f.(luaTs := none)
    case Mirror => f.(mirror := none)
    case Folds => f.(folds := none)
  }

  function Push(b: EditBatch, e: BufferEdit): EditBatch { b.(edits := b.edits + [e]) }

  /** Everything one edit does: to the text, the positions, the span and all six journals. */
  ghost function AfterEdit(s: Fields, e: BufferEdit): Fields
    requires Fits(s.text, e)
  {
    var list := AddChange(ShiftedList(s.changelist, |s.changelist|, e), e.startPoint);
    Fields(Apply(s.text, e), s.changedtick + 1, true,
           Push(s.syntax, e), Push(s.lsp, e), Push(s.luaTs, e), Push(s.mirror, e), Push(s.folds, e), s.jumps + [e],
           ShiftedMarks(s.marks, e)['.' := e.startPoint], list, |list|, Some(GrownSpan(s.changeSpan, e)))
  }

  /** Supplying the final line break: an edit, but the last change, the change list and the span are put back. */
  ghost function AfterBreak(s: Fields): Fields {
    BreakEditAppends(s.text);
    AfterEdit(s, BreakEdit(s.text)).(
      marks := WithDotOf(ShiftedMarks(s.marks, BreakEdit(s.text)), s.marks),
      changelist := s.changelist, changelistidx := s.changelistidx,
        changeSpan := NormalizedSpan(s.changeSpan, |s.text|))
  }

  /** The whole text was replaced: every delta and position is moot. */
  ghost function AfterResync(s: Fields): Fields {
    var again := EditBatch([], true);
    Fields(s.text, s.changedtick + 1, true, again, again, again, again, again, [], map[], [], 0, None)
  }

  // ----- what is recorded --------------------------------------------------------------

  /** The batch with one more edit at its end, the flag to start over as it was. */
  ghost predicate Gains(was: EditBatch, now: EditBatch, e: BufferEdit) {
    now.edits == was.edits + [e] && now.resync == was.resync
  }

  /** One edit is one tick and a modification, the last in all six journals, and the last change. */
  lemma EditIsRecorded(s: Fields, e: BufferEdit)
    requires Fits(s.text, e)
    ensures var r := AfterEdit(s, e);
      r.changedtick == s.changedtick + 1 && r.modified && r.jumps == s.jumps + [e]
      && (forall c: Consumer :: Gains(Pending(s, c), Pending(r, c), e))
      && '.' in r.marks && r.marks['.'] == e.startPoint
      && |r.changelist| > 0 && r.changelist[|r.changelist| - 1] == e.startPoint
      && r.changelistidx == |r.changelist|
  {
  }

  /** The final line break is recorded as such an edit, but it is no change of the user's. */
  lemma BreakIsRecorded(s: Fields)
    ensures var (r, e) := (AfterBreak(s), BreakEdit(s.text));
      r.text == s.text + [LF] && r.changedtick == s.changedtick + 1 && r.modified && r.jumps == s.jumps + [e]
      && (forall c: Consumer :: Gains(Pending(s, c), Pending(r, c), e))
      && ('.' in r.marks <==> '.' in s.marks) && ('.' in s.marks ==> r.marks['.'] == s.marks['.'])
      && r.changelist == s.changelist && r.changelistidx == s.changelistidx
  {
    BreakEditAppends(s.text);
  }

  /** After a replacement of the whole text, all are told to start over, and no position or edit is left. */
  lemma ResyncIsRecorded(s: Fields)
    ensures var r := AfterResync(s);
      r.text == s.text && r.changedtick == s.changedtick + 1 && r.modified
      && (forall c: Consumer :: Pending(r, c).resync && Pending(r, c).edits == []) && r.jumps == []
      && r.marks == map[] && r.changelist == [] && r.changelistidx == 0 && r.changeSpan == None
  {
  }

  /** A drained journal is empty and asks for nothing; nothing else changes. */
  lemma DrainEmpties(f: Fields, c: Consumer)
    ensures var r := Drained(f, c);
      Pending(r, c).edits == [] && !Pending(r, c).resync
      && (forall d: Consumer | d != c :: Pending(r, d) == Pending(f, d))
      && r == f.(syntax := r.syntax, lsp := r.lsp, luaTs := r.luaTs, mirror := r.mirror, folds := r.folds)
  {
  }

  // ----- what stays in step ------------------------------------------------------------

  /** Whether applying the batch to a consumer's copy gives the text, or the batch says to start over. */
  ghost predicate Delivers(copy: Text, batch: EditBatch, t: Text) {
    batch.resync || (Chain(copy, batch.edits) && Replay(copy, batch.edits) == t)
  }

  /** The positions kept are points of the text. */
  ghost predicate PositionsIn(f: Fields) {
    MarksInText(f.text, f.marks) && ArePoints(f.text, f.changelist)
    && |f.changelist| <= CHANGELIST_SIZE && f.changelistidx <= |f.changelist|
  }

  /**
   * Positions are points of the text, every consumer can catch up with it from its own
   * copy, and the span brackets what changed since it was drained, at which the text was `base`.
   */
  ghost predicate IsInStep(f: Fields, copies: Consumer -> Text, base: Text) {
    PositionsIn(f) && (forall c :: Delivers(copies(c), Pending(f, c), f.text))
      && BracketsSupplied(f.changeSpan, base, f.text)
  }

  /** `IsInStep`, which proofs look into only through `InStepIs`. */
  ghost predicate InStep(f: Fields, copies: Consumer -> Text, base: Text) {
    forall n: nat {:trigger Unseal(n)} | Unseal(n) :: IsInStep(f, copies, base)
  }

  lemma InStepIs(f: Fields, copies: Consumer -> Text, base: Text)
    ensures InStep(f, copies, base) <==> IsInStep(f, copies, base)
  {
    assert Unseal(0);
  }

  /** Every edit keeps all three. */
  lemma EditKeepsStep(f: Fields, e: BufferEdit, copies: Consumer -> Text, base: Text)
    requires InStep(f, copies, base) && Fits(f.text, e)
    ensures InStep(AfterEdit(f, e), copies, base)
    ensures Brackets(f.changeSpan, base, f.text) ==> Brackets(AfterEdit(f, e).changeSpan, base, AfterEdit(f, e).text)
  {
    InStepIs(f, copies, base);
    EditKeepsPositions(f, e);
    GrownSpanBracketsSupplied(f.changeSpan, base, f.text, e);
    forall c ensures Delivers(copies(c), Pending(AfterEdit(f, e), c), Apply(f.text, e)) {
      assert Delivers(copies(c), Pending(f, c), f.text);
      EditDelivers(copies(c), Pending(f, c), f.text, e);
    }
    InStepIs(AfterEdit(f, e), copies, base);
  }

  lemma EditKeepsPositions(f: Fields, e: BufferEdit)
    requires PositionsIn(f) && Fits(f.text, e)
    ensures PositionsIn(AfterEdit(f, e))
  {
    MarksStayInText(f.text, f.marks, e);
    ChangesStayInText(f.text, f.changelist, e);
  }

  lemma EditDelivers(copy: Text, batch: EditBatch, t: Text, e: BufferEdit)
    requires Delivers(copy, batch, t) && Fits(t, e)
    ensures Delivers(copy, Push(batch, e), Apply(t, e))
  {
    if !batch.resync { ReplayPush(copy, batch.edits, e); }
  }

  /** Fields with the same text and journals are in step when their positions and span are. */
  lemma JournalsCarryOver(f: Fields, copies: Consumer -> Text, base: Text, g: Fields, base': Text)
    requires InStep(f, copies, base) && g.text == f.text && (forall c :: Pending(g, c) == Pending(f, c))
    requires PositionsIn(g) && BracketsSupplied(g.changeSpan, base', g.text)
    ensures InStep(g, copies, base')
  {
    InStepIs(f, copies, base);
    forall c ensures Delivers(copies(c), Pending(g, c), g.text) {
      assert Delivers(copies(c), Pending(f, c), f.text);
    }
    InStepIs(g, copies, base');
  }

  lemma StepMeans(f: Fields, copies: Consumer -> Text, base: Text)
    requires InStep(f, copies, base)
    ensures PositionsIn(f) && BracketsSupplied(f.changeSpan, base, f.text)
  {
    InStepIs(f, copies, base);
  }

  /**
   * So does supplying the final line break; the span then counts on it exactly when
   * neither the text nor the drained one was terminated.
   */
  lemma BreakKeepsStep(f: Fields, copies: Consumer -> Text, base: Text)
    requires InStep(f, copies, base) && !Terminated(f.text)
    ensures InStep(AfterBreak(f), copies, base)
    ensures Brackets(f.changeSpan, base, f.text) ==>
      (Brackets(AfterBreak(f).changeSpan, base, AfterBreak(f).text) <==> Terminated(base))
  {
    BreakEditAppends(f.text);
    StepMeans(f, copies, base);
    BreakKeepsPositions(f);
    BreakKeepsSpan(f, base);
    EditKeepsStep(f, BreakEdit(f.text), copies, base);
    JournalsCarryOver(AfterEdit(f, BreakEdit(f.text)), copies, base, AfterBreak(f), base);
  }

  lemma BreakKeepsSpan(f: Fields, base: Text)
    requires BracketsSupplied(f.changeSpan, base, f.text) && !Terminated(f.text)
    ensures AfterBreak(f).text == f.text + [LF] && BracketsSupplied(AfterBreak(f).changeSpan, base, AfterBreak(f).text)
    ensures Brackets(f.changeSpan, base, f.text) ==>
      (Brackets(AfterBreak(f).changeSpan, base, AfterBreak(f).text) <==> Terminated(base))
  {
    BreakEditAppends(f.text);
    NormalizeKeepsSupplied(f.changeSpan, base, f.text);
    if Brackets(f.changeSpan, base, f.text) { NormalizeKeepsBracket(f.changeSpan, base, f.text); }
  }

  lemma BreakKeepsPositions(f: Fields)
    requires PositionsIn(f) && !Terminated(f.text)
    ensures PositionsIn(AfterBreak(f))
  {
    var e := BreakEdit(f.text);
    BreakEditAppends(f.text);
    EditKeepsPositions(f, e);
    PointsSurviveAppend(f.text, f.marks, f.changelist);
    DotIsRestored(ShiftedMarks(f.marks, e), e.startPoint, f.marks, f.text + [LF]);
  }

  lemma PointsSurviveAppend(t: Text, marks: map<char, Point>, list: seq<Point>)
    requires MarksInText(t, marks) && ArePoints(t, list)
    ensures MarksInText(t + [LF], marks) && ArePoints(t + [LF], list)
  {
    forall p | IsPoint(t, p) ensures IsPoint(t + [LF], p) {
      var b: nat :| b <= |t| && PointAt(t, b) == p;
      assert (t + [LF])[..b] == t[..b];
      assert PointAt(t + [LF], b) == p;
    }
  }

  lemma ResyncIsInStep(f: Fields, copies: Consumer -> Text)
    ensures InStep(AfterResync(f), copies, f.text)
  {
    var g := AfterResync(f);
    forall c ensures Delivers(copies(c), Pending(g, c), g.text) {
      assert Pending(g, c).resync;
    }
    InStepIs(g, copies, f.text);
  }

  /** A drained journal brings the consumer's copy to the text, and the others stay as they were. */
  lemma DrainKeepsStep(f: Fields, c: Consumer, copies: Consumer -> Text, copies': Consumer -> Text, base: Text)
    requires InStep(f, copies, base) && copies'(c) == f.text && forall d | d != c :: copies'(d) == copies(d)
    ensures Delivers(copies(c), Pending(f, c), f.text) && InStep(Drained(f, c), copies', base)
  {
    InStepIs(f, copies, base);
    forall d ensures Delivers(copies'(d), Pending(Drained(f, c), d), f.text) {
      assert Delivers(copies(d), Pending(f, d), f.text);
    }
    InStepIs(Drained(f, c), copies', base);
  }

  lemma SpanDrainKeepsStep(f: Fields, copies: Consumer -> Text, base: Text)
    requires InStep(f, copies, base)
    ensures BracketsSupplied(f.changeSpan, base, f.text) && InStep(f.(changeSpan := None), copies, f.text)
  {
    StepMeans(f, copies, base);
    JournalsCarryOver(f, copies, base, f.(changeSpan := None), f.text);
  }

  lemma JumpsAreFree(f: Fields, copies: Consumer -> Text, base: Text)
    requires InStep(f, copies, base)
    ensures InStep(f.(jumps := []), copies, base)
  {
    StepMeans(f, copies, base);
    JournalsCarryOver(f, copies, base, f.(jumps := []), base);
  }

  class Buffer {
    var text: Text
    var changedtick: nat
    var modified: bool
    var edits: seq<BufferEdit>
    var resync: bool
    var lspEdits: seq<BufferEdit>
    var lspResync: bool
    var luaTsEdits: seq<BufferEdit>
    var luaTsResync: bool
    var mirrorEdits: seq<BufferEdit>
    var mirrorResync: bool
    var foldEdits: seq<BufferEdit>
    var foldResync: bool
    var jumpEdits: seq<BufferEdit>
    var marks: map<char, Point>
    var changelist: seq<Point>
    var changelistidx: nat
    var changeSpan: Option<(nat, nat)>
    const extmarks: Store

    /** Each consumer's own copy of the text, as it was when it last drained its journal. */
    ghost var copies: Consumer -> Text
    /** The text when the changed span was last drained. */
    ghost var spanBase: Text

    ghost function Now(): Fields
      reads this
    {
      Fields(text, changedtick, modified, EditBatch(edits, resync), EditBatch(lspEdits, lspResync),
             EditBatch(luaTsEdits, luaTsResync), EditBatch(mirrorEdits, mirrorResync), EditBatch(foldEdits, foldResync),
             jumpEdits, marks, changelist, changelistidx, changeSpan)
    }

    ghost predicate Valid()
      reads this, extmarks
    {
      extmarks.Valid() && InStep(Now(), copies, spanBase)
    }

    /** The span brackets what changed since it was last drained, not counting on a supplied line break. */
    ghost predicate SpanExact()
      reads `changeSpan, `spanBase, `text
    {
      Brackets(changeSpan, spanBase, text)
    }

    constructor Empty(extmarks: Store)
      requires extmarks.Valid()
      ensures Valid() && SpanExact() && text == spanBase == [LF] && this.extmarks == extmarks
      ensures forall c :: Pending(Now(), c) == EditBatch([], false)
    {
      text, changedtick, modified := [LF], 0, false;
      edits, lspEdits, luaTsEdits, mirrorEdits, foldEdits, jumpEdits := [], [], [], [], [], [];
      resync, lspResync, luaTsResync, mirrorResync, foldResync := false, false, false, false, false;
      marks, changelist, changelistidx, changeSpan := map[], [], 0, None;
      this.extmarks := extmarks;
      copies := c => [LF];
      spanBase := [LF];
      new;
      InStepIs(Now(), copies, spanBase);
    }

    // ----- mutations ----------------------------------------------------------------

    /** Insert `s` at `byte`; inserting nothing is not an edit. */
    method Insert(byte: nat, s: Text)
      requires Valid() && byte <= |text|
      modifies this, extmarks
      ensures Valid() && (old(SpanExact()) ==> SpanExact())
      ensures Now() == if s == [] then old(Now()) else AfterEdit(old(Now()), EditOf(old(text), byte, byte, s))
      ensures extmarks.View() == if s == [] then old(extmarks.View())
                                 else ExtmarkState.Shift(old(extmarks.View()), AsEdit(EditOf(old(text), byte, byte, s)))
      ensures copies == old(copies) && spanBase == old(spanBase)
    {
      if s == [] { return; }
      var startPoint := PointAt(text, byte);
      ghost var was := text;
      text := text[..byte] + s + text[byte..];
      var newEnd := byte + |s|;
      assert text[..newEnd] == was[..byte] + s;
      var newEndPoint := PointAt(text, newEnd);
      Record(BufferEdit(byte, byte, newEnd, startPoint, startPoint, newEndPoint, s), was);
    }

    /** Remove `[start, end)`; an empty range is not an edit. */
    method Remove(start: nat, end: nat)
      requires Valid() && end <= |text|
      modifies this, extmarks
      ensures Valid() && (old(SpanExact()) ==> SpanExact())
      ensures Now() == if start >= end then old(Now()) else AfterEdit(old(Now()), EditOf(old(text), start, end, []))
      ensures extmarks.View() == if start >= end then old(extmarks.View())
                                 else ExtmarkState.Shift(old(extmarks.View()),
                                                         AsEdit(EditOf(old(text), start, end, [])))
      ensures copies == old(copies) && spanBase == old(spanBase)
    {
      if start >= end { return; }
      var startPoint := PointAt(text, start);
      var oldEndPoint := PointAt(text, end);
      ghost var was := text;
      text := text[..start] + text[end..];
      assert was[..start] + [] == was[..start];
      assert was[..start] + [] + was[end..] == text;
      Record(BufferEdit(start, end, start, startPoint, oldEndPoint, startPoint, []), was);
    }

    /** Replace `[start, end)` by `s` in one journaled edit. */
    method ReplaceRange(start: nat, end: nat, s: Text)
      requires Valid() && start <= |text| && end <= |text|
      modifies this, extmarks
      ensures Valid() && (old(SpanExact()) ==> SpanExact())
      ensures Now() == if s == [] && start >= end then old(Now())
                       else AfterEdit(old(Now()), EditOf(old(text), start, Max(start, end), s))
      ensures extmarks.View() ==
        if s == [] && start >= end then old(extmarks.View())
        else ExtmarkState.Shift(old(extmarks.View()), AsEdit(EditOf(old(text), start, Max(start, end), s)))
      ensures copies == old(copies) && spanBase == old(spanBase)
    {
      if start >= end {
        if s == [] { return; }
        Insert(start, s);
        return;
      }
      if s == [] {
        Remove(start, end);
        return;
      }
      Substitute(start, end, s);
    }

    method Substitute(start: nat, end: nat, s: Text)
      requires Valid() && start < end <= |text|
      modifies this, extmarks
      ensures Valid() && (old(SpanExact()) ==> SpanExact())
      ensures Now() == AfterEdit(old(Now()), EditOf(old(text), start, end, s))
      ensures extmarks.View() == ExtmarkState.Shift(old(extmarks.View()), AsEdit(EditOf(old(text), start, end, s)))
      ensures copies == old(copies) && spanBase == old(spanBase)
    {
      var startPoint := PointAt(text, start);
      var oldEndPoint := PointAt(text, end);
      ghost var was := text;
      text := text[..start] + text[end..];
      text := text[..start] + s + text[start..];
      assert text == was[..start] + s + was[end..];
      var newEnd := start + |s|;
      assert text[..newEnd] == was[..start] + s;
      var newEndPoint := PointAt(text, newEnd);
      Record(BufferEdit(start, end, newEnd, startPoint, oldEndPoint, newEndPoint, s), was);
    }

    /** Everything one edit of `was` does beside the text. */
    method Record(e: BufferEdit, ghost was: Text)
      requires Fits(was, e) && text == Apply(was, e)
      requires extmarks.Valid() && InStep(Now().(text := was), copies, spanBase)
      modifies `marks, `changelist, `changelistidx, `changeSpan, `changedtick, `modified, extmarks
      modifies `edits, `lspEdits, `luaTsEdits, `mirrorEdits, `foldEdits, `jumpEdits
      ensures Valid() && (old(Brackets(changeSpan, spanBase, was)) ==> SpanExact())
      ensures Now() == AfterEdit(old(Now()).(text := was), e)
      ensures extmarks.View() == ExtmarkState.Shift(old(extmarks.View()), AsEdit(e))
    {
      EditKeepsStep(Now().(text := was), e, copies, spanBase);
      extmarks.ShiftAnchors(AsEdit(e));
      RecordFields(e, was);
    }

    method RecordFields(e: BufferEdit, ghost was: Text)
      requires Fits(was, e) && text == Apply(was, e)
      modifies `marks, `changelist, `changelistidx, `changeSpan, `changedtick, `modified
      modifies `edits, `lspEdits, `luaTsEdits, `mirrorEdits, `foldEdits, `jumpEdits
      ensures Now() == AfterEdit(old(Now()).(text := was), e)
    {
      RecordPositions(e);
      changeSpan := Some(GrownSpan(changeSpan, e));
      PushEverywhere(e);
      changedtick := changedtick + 1;
      modified := true;
    }

    method RecordPositions(e: BufferEdit)
      modifies `marks, `changelist, `changelistidx
      ensures marks == ShiftedMarks(old(marks), e)['.' := e.startPoint]
      ensures changelist == AddChange(ShiftedList(old(changelist), |old(changelist)|, e), e.startPoint)
      ensures changelistidx == |changelist|
    {
      var moved := ShiftMarks(marks, e);
      marks := moved['.' := e.startPoint];
      var list := ShiftChangelist(changelist, e);
      changelist := AddChange(list, e.startPoint);
      changelistidx := |changelist|;
    }

    method PushEverywhere(e: BufferEdit)
      modifies `edits, `lspEdits, `luaTsEdits, `mirrorEdits, `foldEdits, `jumpEdits
      ensures edits == old(edits) + [e] && lspEdits == old(lspEdits) + [e] && luaTsEdits == old(luaTsEdits) + [e]
      ensures mirrorEdits == old(mirrorEdits) + [e] && foldEdits == old(foldEdits) + [e]
        && jumpEdits == old(jumpEdits) + [e]
    {
      edits := edits + [e];
      lspEdits := lspEdits + [e];
      jumpEdits := jumpEdits + [e];
      mirrorEdits := mirrorEdits + [e];
      foldEdits := foldEdits + [e];
      luaTsEdits := luaTsEdits + [e];
    }

    // ----- the final line break -------------------------------------------------------

    /**
     * Supply the final line break the text lacks.  It is journaled and shifts marks like
     * any edit, but is no change of the user's: `'.'` and the change list are put back.
     */
    method Normalize()
      requires Valid()
      modifies this, extmarks
      ensures Valid() && Terminated(text)
      ensures Now() == if Terminated(old(text)) then old(Now()) else AfterBreak(old(Now()))
      ensures extmarks.View() == if Terminated(old(text)) then old(extmarks.View())
                                 else ExtmarkState.Shift(old(extmarks.View()), AsEdit(BreakEdit(old(text))))
      ensures old(SpanExact()) ==> (SpanExact() <==> Terminated(old(text)) || Terminated(spanBase))
      ensures copies == old(copies) && spanBase == old(spanBase)
    {
      var n := |text|;
      if n != 0 && text[n - 1] == LF { return; }
      var (savedMarks, savedList, savedIdx, savedSpan) := (marks, changelist, changelistidx, changeSpan);
      BreakKeepsStep(Now(), copies, spanBase);
      BreakEditAppends(text);
      Insert(n, [LF]);
      PutBack(savedMarks, savedList, savedIdx, NormalizedSpan(savedSpan, n));
      DotIsPutBack(ShiftedMarks(savedMarks, BreakEdit(old(text))), BreakEdit(old(text)).startPoint, savedMarks);
    }

    /** Put the last-change mark, the change list and the changed span back as they were before the line break. */
    method PutBack(savedMarks: map<char, Point>, savedList: seq<Point>, savedIdx: nat, savedSpan: Option<(nat, nat)>)
      modifies `marks, `changelist, `changelistidx, `changeSpan
      ensures Now() == old(Now()).(marks := WithDotOf(old(marks), savedMarks), changelist := savedList,
                                   changelistidx := savedIdx, changeSpan := savedSpan)
    {
      marks := WithDotOf(marks, savedMarks);
      changelist, changelistidx := savedList, savedIdx;
      changeSpan := savedSpan;
    }

    // ----- whole-text replacement and drains -------------------------------------------

    /** The whole text was replaced: every delta, position and extmark is moot. */
    method MarkResync()
      modifies this, extmarks, extmarks.stamps
      ensures Valid() && SpanExact() && Now() == AfterResync(old(Now()))
      ensures extmarks.View() == ExtmarkState.ClearAll(old(extmarks.View()), old(extmarks.stamps.last) + 1)
      ensures copies == old(copies) && spanBase == text
    {
      ResyncIsInStep(Now(), copies);
      extmarks.ClearEverything();
      ResetFields();
    }

    method ResetFields()
      modifies `edits, `lspEdits, `luaTsEdits, `mirrorEdits, `foldEdits, `jumpEdits
      modifies `resync, `lspResync, `luaTsResync, `mirrorResync, `foldResync
      modifies `marks, `changelist, `changelistidx, `changeSpan, `spanBase, `changedtick, `modified
      ensures Now() == AfterResync(old(Now())) && spanBase == text
    {
      ResetJournals();
      ResetPositions();
    }

    method ResetJournals()
      modifies `edits, `lspEdits, `luaTsEdits, `mirrorEdits, `foldEdits, `jumpEdits
      modifies `resync, `lspResync, `luaTsResync, `mirrorResync, `foldResync
      ensures edits == [] && lspEdits == [] && luaTsEdits == [] && mirrorEdits == [] && foldEdits == []
        && jumpEdits == []
      ensures resync && lspResync && luaTsResync && mirrorResync && foldResync
    {
      edits, lspEdits, luaTsEdits, mirrorEdits, foldEdits, jumpEdits := [], [], [], [], [], [];
      resync, lspResync, luaTsResync, mirrorResync, foldResync := true, true, true, true, true;
    }

    method ResetPositions()
      modifies `marks, `changelist, `changelistidx, `changeSpan, `spanBase, `changedtick, `modified
      ensures spanBase == text && marks == map[] && changelist == [] && changelistidx == 0 && changeSpan == None
      ensures changedtick == old(changedtick) + 1 && modified
    {
      marks, changelist, changelistidx, changeSpan := map[], [], 0, None;
      spanBase := text;
      changedtick := changedtick + 1;
      modified := true;
    }

    ghost function WithCopy(c: Consumer): (f: Consumer -> Text)
      reads this
      ensures f(c) == text && forall d | d != c :: f(d) == copies(d)
    {
      var (was, t) := (copies, text);
      d => if d == c then t else was(d)
    }

    method TakeEdits() returns (batch: EditBatch)
      requires Valid()
      modifies `edits, `resync, `copies
      ensures Valid() && batch == Pending(old(Now()), Syntax) && Now() == Drained(old(Now()), Syntax)
      ensures Delivers(old(copies)(Syntax), batch, text) && copies(Syntax) == text
      ensures (forall d | d != Syntax :: copies(d) == old(copies(d))) && spanBase == old(spanBase)
    {
      DrainKeepsStep(Now(), Syntax, copies, WithCopy(Syntax), spanBase);
      batch := EditBatch(edits, resync);
      edits, resync, copies := [], false, WithCopy(Syntax);
    }

    method TakeLspEdits() returns (batch: EditBatch)
      requires Valid()
      modifies `lspEdits, `lspResync, `copies
      ensures Valid() && batch == Pending(old(Now()), Lsp) && Now() == Drained(old(Now()), Lsp)
      ensures Delivers(old(copies)(Lsp), batch, text) && copies(Lsp) == text
      ensures (forall d | d != Lsp :: copies(d) == old(copies(d))) && spanBase == old(spanBase)
    {
      DrainKeepsStep(Now(), Lsp, copies, WithCopy(Lsp), spanBase);
      batch := EditBatch(lspEdits, lspResync);
      lspEdits, lspResync, copies := [], false, WithCopy(Lsp);
    }

    method TakeLuaTsEdits() returns (batch: EditBatch)
      requires Valid()
      modifies `luaTsEdits, `luaTsResync, `copies
      ensures Valid() && batch == Pending(old(Now()), LuaTs) && Now() == Drained(old(Now()), LuaTs)
      ensures Delivers(old(copies)(LuaTs), batch, text) && copies(LuaTs) == text
      ensures (forall d | d != LuaTs :: copies(d) == old(copies(d))) && spanBase == old(spanBase)
    {
      DrainKeepsStep(Now(), LuaTs, copies, WithCopy(LuaTs), spanBase);
      batch := EditBatch(luaTsEdits, luaTsResync);
      luaTsEdits, luaTsResync, copies := [], false, WithCopy(LuaTs);
    }

    method TakeMirrorEdits() returns (batch: EditBatch)
      requires Valid()
      modifies `mirrorEdits, `mirrorResync, `copies
      ensures Valid() && batch == Pending(old(Now()), Mirror) && Now() == Drained(old(Now()), Mirror)
      ensures Delivers(old(copies)(Mirror), batch, text) && copies(Mirror) == text
      ensures (forall d | d != Mirror :: copies(d) == old(copies(d))) && spanBase == old(spanBase)
    {
      DrainKeepsStep(Now(), Mirror, copies, WithCopy(Mirror), spanBase);
      batch := EditBatch(mirrorEdits, mirrorResync);
      mirrorEdits, mirrorResync, copies := [], false, WithCopy(Mirror);
    }

    method TakeFoldEdits() returns (batch: EditBatch)
      requires Valid()
      modifies `foldEdits, `foldResync, `copies
      ensures Valid() && batch == Pending(old(Now()), Folds) && Now() == Drained(old(Now()), Folds)
      ensures Delivers(old(copies)(Folds), batch, text) && copies(Folds) == text
      ensures (forall d | d != Folds :: copies(d) == old(copies(d))) && spanBase == old(spanBase)
    {
      DrainKeepsStep(Now(), Folds, copies, WithCopy(Folds), spanBase);
      batch := EditBatch(foldEdits, foldResync);
      foldEdits, foldResync, copies := [], false, WithCopy(Folds);
    }

    /** The jump journal is handed over as it is; its consumer keeps no copy of the text. */
    method TakeJumpEdits() returns (es: seq<BufferEdit>)
      requires Valid()
      modifies `jumpEdits
      ensures Valid() && es == old(jumpEdits) && Now() == old(Now()).(jumps := [])
    {
      JumpsAreFree(Now(), copies, spanBase);
      es, jumpEdits := jumpEdits, [];
    }

    /**
     * Drain the changed span: the text outside it is that of the last drain, perhaps with
     * the line break that one lacked.
     */
    method TakeChangeSpan() returns (span: Option<(nat, nat)>)
      requires Valid()
      modifies `changeSpan, `spanBase
      ensures Valid() && SpanExact() && span == old(changeSpan) && Now() == old(Now()).(changeSpan := None)
      ensures BracketsSupplied(span, old(spanBase), text) && (old(SpanExact()) ==> Brackets(span, old(spanBase), text))
      ensures copies == old(copies) && spanBase == text
    {
      SpanDrainKeepsStep(Now(), copies, spanBase);
      span := changeSpan;
      DropSpan();
    }

    method DropSpan()
      modifies `changeSpan, `spanBase
      ensures changeSpan == None && spanBase == text
    {
      changeSpan, spanBase := None, text;
    }
  }

  lemma TypedThenCut()
    ensures Apply([LF], EditOf([LF], 0, 0, ['a'])) == ['a', LF]
    ensures Apply(['a', LF], EditOf(['a', LF], 1, 2, [])) == ['a']
  {
  }

  /** A buffer whose one line is a letter without a line break, the span just drained. */
  method Unterminated() returns (b: Buffer)
    ensures fresh(b) && fresh(b.extmarks) && b.Valid() && b.text == b.spanBase == ['a'] && b.changeSpan == None
  {
    var stamps := new StampSource();
    var marks := new Store(stamps);
    b := new Buffer.Empty(marks);
    TypedThenCut();
    b.Insert(0, ['a']);
    assert b.text == b.Now().text == ['a', LF];
    b.Remove(1, 2);
    assert b.text == b.Now().text == ['a'];
    var span := b.TakeChangeSpan();
    assert b.text == b.Now().text;
  }

  /**
   * The span does lose a supplied line break: type a letter, remove the final line break,
   * drain the span, and normalize.
   */
  method SpanLosesLineBreak() returns (b: Buffer)
    ensures b.Valid() && b.text == ['a', LF] && b.spanBase == ['a'] && b.changeSpan == None && !b.SpanExact()
  {
    b := Unterminated();
    BreakEditAppends(b.text);
    b.Normalize();
    assert b.text == b.Now().text && b.changeSpan == b.Now().changeSpan;
  }
}
