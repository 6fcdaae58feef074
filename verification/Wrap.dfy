/**
 * Soft wrapping: greedy rows of a line, with a continuation indent, inline splices that
 * take room on the row of their anchor, and breaks that back up to the start of a word.
 */
module Wrap {
  import opened Wrappers
  import opened Columns

  datatype Seg = Seg(startByte: nat, endByte: nat, startCol: nat)

  datatype Splice = Splice(anchor: nat, width: nat)

  /** A byte of the line and the column it starts at. */
  datatype Mark = Mark(byte: nat, col: nat)

  /** What one call lays out. */
  datatype Layout = Layout(line: Line, tabstop: nat, width: nat, indent: nat, linebreak: bool, splices: seq<Splice>)

  ghost predicate Laid(l: Layout) {
    Clusters(l.line) && l.tabstop >= 1 && 0 < l.width && l.indent < l.width
  }

  function At(l: Layout, i: nat): nat
    requires i <= |l.line| && l.tabstop >= 1
  {
    Col(l.line, i, l.tabstop)
  }

  /** The cells of the row that starts at grapheme `from`. */
  function Avail(l: Layout, from: nat): nat
    requires l.indent < l.width
  {
    if from == 0 then l.width else l.width - l.indent
  }

  /** A space or a tab, perhaps carrying marks. */
  predicate Blank(g: Grapheme) { |g.bytes| > 0 && (g.bytes[0] == 32 || g.bytes[0] == 9) }

  // ----- splices ----------------------------------------------------------------------

  function Sum(s: seq<Splice>, a: nat, b: nat): nat
    requires a <= b <= |s|
  {
    if a == b then 0 else Sum(s, a, b - 1) + s[b - 1].width
  }

  /** Width of the first `n` splices that are anchored at or past a column. */
  function SumFrom(s: seq<Splice>, n: nat, col: nat): nat
    requires n <= |s|
  {
    if n == 0 then 0 else SumFrom(s, n - 1, col) + if s[n - 1].anchor >= col then s[n - 1].width else 0
  }

  function Reach(s: seq<Splice>, n: nat, col: nat): (r: nat)
    requires n <= |s|
    ensures n <= r <= |s|
    decreases |s| - n
  {
    if n < |s| && s[n].anchor <= col then Reach(s, n + 1, col) else n
  }

  /** How many splices are placed before grapheme `i`: each goes with the first grapheme at or past its anchor. */
  function Placed(l: Layout, i: nat): (n: nat)
    requires i <= |l.line| && l.tabstop >= 1
    ensures n <= |l.splices|
  {
    if i == 0 then 0 else Reach(l.splices, Placed(l, i - 1), At(l, i - 1))
  }

  lemma {:induction false} PlacedRises(l: Layout, i: nat, j: nat)
    requires l.tabstop >= 1 && i <= j <= |l.line|
    ensures Placed(l, i) <= Placed(l, j)
    decreases j
  {
    if i < j { PlacedRises(l, i, j - 1); }
  }

  lemma {:induction false} SumAdds(s: seq<Splice>, a: nat, b: nat, c: nat)
    requires a <= b <= c <= |s|
    ensures Sum(s, a, c) == Sum(s, a, b) + Sum(s, b, c)
    decreases c
  {
    if b < c { SumAdds(s, a, b, c - 1); }
  }

  lemma {:induction false} ReachMeans(s: seq<Splice>, n: nat, col: nat)
    requires n <= |s| && (forall j: nat | j < n :: s[j].anchor <= col)
    requires forall j: nat, k: nat | j <= k < |s| :: s[j].anchor <= s[k].anchor
    ensures forall j: nat | j < |s| :: j < Reach(s, n, col) <==> s[j].anchor <= col
    decreases |s| - n
  {
    if n < |s| && s[n].anchor <= col { ReachMeans(s, n + 1, col); }
  }

  /** Splices in anchor order are placed with the first grapheme that starts at or past their anchor. */
  lemma {:induction false} PlacedMeans(l: Layout, i: nat, j: nat)
    requires l.tabstop >= 1 && 0 < i <= |l.line| && j < |l.splices|
    requires forall j: nat, k: nat | j <= k < |l.splices| :: l.splices[j].anchor <= l.splices[k].anchor
    ensures j < Placed(l, i) <==> l.splices[j].anchor <= At(l, i - 1)
    decreases i
  {
    var n := Placed(l, i - 1);
    forall k: nat | k < n ensures l.splices[k].anchor <= At(l, i - 1) {
      PlacedMeans(l, i - 1, k);
      ColRises(l.line, i - 2, i - 1, l.tabstop);
    }
    ReachMeans(l.splices, n, At(l, i - 1));
  }

  // ----- what a layout promises ---------------------------------------------------------

  /** The first grapheme of a word, in a row that held a word since `base`. */
  ghost predicate Candidate(l: Layout, base: nat, x: nat) {
    base < x < |l.line| && Blank(l.line[x - 1]) && !Blank(l.line[x]) && SeenWord(l, base, x)
  }

  ghost predicate SeenWord(l: Layout, base: nat, x: nat) {
    exists y: nat | base <= y < x && y < |l.line| :: !Blank(l.line[y])
  }

  /** The cuts are the rows' graphemes: in order, none empty, each row with its own bytes and column. */
  ghost predicate Rows(l: Layout, segs: seq<Seg>, cuts: seq<nat>)
    requires l.tabstop >= 1
  {
    |cuts| == |segs| + 1 && cuts[0] == 0
    && forall k: nat | k < |segs| :: RowAt(l, segs, cuts, k)
  }

  ghost predicate RowAt(l: Layout, segs: seq<Seg>, cuts: seq<nat>, k: nat)
    requires l.tabstop >= 1 && k < |segs| && |cuts| == |segs| + 1
  {
    IsRow(l, segs[k], cuts[k], cuts[k + 1])
  }

  ghost predicate IsRow(l: Layout, seg: Seg, a: nat, b: nat)
    requires l.tabstop >= 1
  {
    a < b <= |l.line| && seg == Seg(Start(l.line, a), Start(l.line, b), At(l, a))
  }

  /** Like `Rows`, down to the line's end, with a last row that may be empty. */
  ghost predicate Partition(l: Layout, segs: seq<Seg>, cuts: seq<nat>)
    requires l.tabstop >= 1
  {
    |segs| >= 1 && |cuts| == |segs| + 1 && cuts[|segs| - 1] <= cuts[|segs|] == |l.line|
    && Rows(l, segs[..|segs| - 1], cuts[..|segs|])
    && segs[|segs| - 1] == Seg(Start(l.line, cuts[|segs| - 1]), Start(l.line, |l.line|), At(l, cuts[|segs| - 1]))
  }

  /**
   * The row from `from` broke at `cut` when grapheme `over` overflowed it: at the last
   * word begun since `base`, where the row before it overflowed, or else at `over`.
   */
  ghost predicate Break(l: Layout, base: nat, from: nat, cut: nat, over: nat) {
    from <= base < over && from < cut <= over < |l.line|
    && (cut < over ==> l.linebreak && Candidate(l, base, cut))
    && (l.linebreak ==> forall x: nat | cut < x < over :: !Candidate(l, base, x))
    && (l.linebreak && cut == over ==> forall x: nat | x < over :: !Candidate(l, base, x))
  }

  /** The splices placed before `base` that a row from `from`, opened when `base` overflowed, is charged again. */
  function Carried(l: Layout, base: nat, from: nat): nat
    requires l.tabstop >= 1 && from <= |l.line| && base <= |l.line|
  {
    SumFrom(l.splices, Placed(l, base), At(l, from))
  }

  /** The splice cells such a row is charged before grapheme `i`. */
  ghost function Charged(l: Layout, base: nat, from: nat, i: nat): nat
    requires l.tabstop >= 1 && from <= base <= i <= |l.line|
  {
    PlacedRises(l, base, i);
    Carried(l, base, from) + Sum(l.splices, Placed(l, base), Placed(l, i))
  }

  /** By that count the row has room for what comes before grapheme `i`. */
  ghost predicate HasRoom(l: Layout, base: nat, from: nat, i: nat)
    requires Laid(l) && from <= base <= i <= |l.line|
  {
    At(l, i) + Charged(l, base, from, i) <= At(l, from) + Avail(l, from)
  }

  /** `over` is the first grapheme since `base` the row has no room for. */
  ghost predicate FirstOver(l: Layout, base: nat, from: nat, over: nat)
    requires Laid(l) && from <= base < over < |l.line|
  {
    !HasRoom(l, base, from, over + 1) && StillFits(l, base, from, over)
  }

  ghost predicate StillFits(l: Layout, base: nat, from: nat, i: nat)
    requires Laid(l) && from <= base <= i <= |l.line|
  {
    forall j: nat | base + 1 < j <= i :: HasRoom(l, base, from, j)
  }

  /** The graphemes and the splices placed with them fit the row, or it is a single grapheme. */
  ghost predicate Fits(l: Layout, a: nat, b: nat)
    requires Laid(l)
  {
    b <= a + 1 || (b <= |l.line| && At(l, b) + Inline(l, a, b) <= At(l, a) + Avail(l, a))
  }

  ghost function Inline(l: Layout, a: nat, b: nat): nat
    requires l.tabstop >= 1 && a <= b <= |l.line|
  {
    PlacedRises(l, a, b);
    Sum(l.splices, Placed(l, a), Placed(l, b))
  }

  function Base(over: seq<nat>, k: nat): nat
    requires k <= |over|
  {
    if k == 0 then 0 else over[k - 1]
  }

  ghost predicate Broken(l: Layout, cuts: seq<nat>, over: seq<nat>)
    requires Laid(l)
  {
    |cuts| == |over| + 1 && forall k: nat | k < |over| :: BreakAt(l, cuts, over, k)
  }

  ghost predicate BreakAt(l: Layout, cuts: seq<nat>, over: seq<nat>, k: nat)
    requires Laid(l) && k < |over| && |cuts| == |over| + 1
  {
    BrokeAt(l, Base(over, k), cuts[k], cuts[k + 1], over[k])
  }

  ghost predicate BrokeAt(l: Layout, base: nat, from: nat, cut: nat, over: nat)
    requires Laid(l)
  {
    Break(l, base, from, cut, over) && FirstOver(l, base, from, over)
  }

  // ----- the walk --------------------------------------------------------------------------

  /** The candidate for a break, and what the walk remembers to find the next one. */
  ghost predicate Tracks(l: Layout, base: nat, i: nat, start: Option<Mark>, word: nat, afterBlank: bool, seen: bool)
    requires l.tabstop >= 1
  {
    base <= i <= |l.line| && (seen <==> SeenWord(l, base, i)) && (afterBlank <==> i > 0 && Blank(l.line[i - 1]))
    && (start.Some? ==> word < i && Candidate(l, base, word) && start.value == Mark(Start(l.line, word), At(l, word)))
    && (forall x: nat | x < i && (start.Some? ==> word < x) :: !Candidate(l, base, x))
  }

  lemma TrackBlank(l: Layout, base: nat, i: nat, start: Option<Mark>, word: nat, afterBlank: bool, seen: bool)
    requires l.tabstop >= 1 && Tracks(l, base, i, start, word, afterBlank, seen)
    requires i < |l.line| && Blank(l.line[i])
    ensures Tracks(l, base, i + 1, start, word, true, seen)
  {
  }

  lemma TrackWord(l: Layout, base: nat, i: nat, start: Option<Mark>, word: nat, afterBlank: bool, seen: bool)
    requires l.tabstop >= 1 && Tracks(l, base, i, start, word, afterBlank, seen)
    requires i < |l.line| && !Blank(l.line[i])
    ensures var opens := afterBlank && seen;
      Tracks(l, base, i + 1, if opens then Some(Mark(Start(l.line, i), At(l, i))) else start,
             if opens then i else word, false, true)
  {
    assert SeenWord(l, base, i + 1);
    assert Candidate(l, base, i) <==> afterBlank && seen;
    forall x: nat | x <= i && (afterBlank && seen ==> i < x) && (start.Some? ==> word < x)
      ensures !Candidate(l, base, x)
    {
      assert x == i ==> !Candidate(l, base, x);
    }
  }

  lemma TrackAfresh(l: Layout, i: nat, afterBlank: bool, word: nat)
    requires l.tabstop >= 1 && i <= |l.line| && (afterBlank <==> i > 0 && Blank(l.line[i - 1]))
    ensures Tracks(l, i, i, None, word, afterBlank, false)
  {
  }

  /** The rows so far, the row being filled, and the room the walk believes it has left. */
  ghost predicate Filled(l: Layout, segs: seq<Seg>, cuts: seq<nat>, over: seq<nat>, i: nat, rowInline: nat)
    requires Laid(l)
  {
    Rows(l, segs, cuts) && |over| == |segs| && Broken(l, cuts, over) && i <= |l.line|
    && InRow(l, Base(over, |over|), cuts[|segs|], i, rowInline)
  }

  ghost predicate InRow(l: Layout, base: nat, from: nat, i: nat, rowInline: nat)
    requires Laid(l) && i <= |l.line|
  {
    from <= base <= i && (i > 0 ==> base < i)
    && StillFits(l, base, from, i) && rowInline == Charged(l, base, from, i)
  }

  lemma ChargedNext(l: Layout, base: nat, from: nat, i: nat)
    requires l.tabstop >= 1 && from <= base <= i < |l.line|
    ensures Placed(l, i) <= Placed(l, i + 1)
    ensures Charged(l, base, from, i + 1) == Charged(l, base, from, i) + Sum(l.splices, Placed(l, i), Placed(l, i + 1))
  {
    PlacedRises(l, base, i);
    PlacedRises(l, i, i + 1);
    SumAdds(l.splices, Placed(l, base), Placed(l, i), Placed(l, i + 1));
  }

  lemma RowExtended(l: Layout, base: nat, from: nat, i: nat, rowInline: nat)
    requires Laid(l) && i < |l.line| && InRow(l, base, from, i, rowInline)
    requires ghost var pending := Sum(l.splices, Placed(l, i), Placed(l, i + 1));
      from == i || At(l, i + 1) + rowInline + pending <= At(l, from) + Avail(l, from)
    ensures InRow(l, base, from, i + 1, rowInline + Sum(l.splices, Placed(l, i), Placed(l, i + 1)))
  {
    ChargedNext(l, base, from, i);
  }

  /** A row opened at a break holds `over` whether or not it fits. */
  lemma RowOpened(l: Layout, from: nat, over: nat)
    requires Laid(l) && from <= over < |l.line|
    ensures InRow(l, over, from, over + 1,
                  Carried(l, over, from) + Sum(l.splices, Placed(l, over), Placed(l, over + 1)))
  {
  }

  lemma RowClosed(l: Layout, base: nat, from: nat, i: nat, rowInline: nat, cut: nat)
    requires Laid(l) && i < |l.line| && InRow(l, base, from, i, rowInline) && Break(l, base, from, cut, i)
    requires At(l, i + 1) + rowInline + Sum(l.splices, Placed(l, i), Placed(l, i + 1)) > At(l, from) + Avail(l, from)
    ensures BrokeAt(l, base, from, cut, i)
  {
    ChargedNext(l, base, from, i);
  }

  lemma BrokenExtended(l: Layout, cuts: seq<nat>, over: seq<nat>, cut: nat, i: nat)
    requires Laid(l) && Broken(l, cuts, over) && BrokeAt(l, Base(over, |over|), cuts[|over|], cut, i)
    ensures Broken(l, cuts + [cut], over + [i])
  {
    var (c, o) := (cuts + [cut], over + [i]);
    forall k: nat | k < |o| ensures BreakAt(l, c, o, k) {
      if k < |over| { assert BreakAt(l, cuts, over, k); }
    }
  }

  lemma RowsExtended(l: Layout, segs: seq<Seg>, cuts: seq<nat>, seg: Seg, cut: nat)
    requires l.tabstop >= 1 && Rows(l, segs, cuts) && IsRow(l, seg, cuts[|segs|], cut)
    ensures Rows(l, segs + [seg], cuts + [cut])
  {
    forall k: nat | k < |segs| + 1 ensures RowAt(l, segs + [seg], cuts + [cut], k) {
      if k < |segs| { assert RowAt(l, segs, cuts, k); }
    }
  }

  lemma BreakChosen(l: Layout, base: nat, from: nat, i: nat, start: Option<Mark>, word: nat, afterBlank: bool,
      seen: bool)
    requires Laid(l) && Tracks(l, base, i, start, word, afterBlank, seen) && from <= base < i < |l.line|
    ensures start.Some? ==> start.value.byte > Start(l.line, from)
    ensures Break(l, base, from, if l.linebreak && start.Some? then word else i, i)
  {
    if start.Some? { StartRises(l.line, from, word); }
  }

  method PlaceUpTo(s: seq<Splice>, next: nat, col: nat) returns (n: nat)
    requires next <= |s|
    ensures n == Reach(s, next, col)
  {
    n := next;
    while n < |s| && s[n].anchor <= col
      invariant next <= n <= |s| && Reach(s, n, col) == Reach(s, next, col)
    {
      n := n + 1;
    }
  }

  /** The end of the rows: what the greedy walk leaves for the last ones. */
  ghost predicate Wrapped(l: Layout, segs: seq<Seg>, cuts: seq<nat>, over: seq<nat>)
    requires Laid(l)
  {
    Partition(l, segs, cuts) && |segs| - 1 <= |over| + 1 && |over| <= |segs| - 1
    && Broken(l, cuts[..|over| + 1], over)
    && (|over| + 1 < |segs| ==> cuts[|over| + 1] == |l.line|)
    && EndsFitting(l, Base(over, |over|), cuts[|over|], |over| + 1 < |segs|)
  }

  /** Some greedy walk laid these rows out. */
  ghost predicate Lays(l: Layout, segs: seq<Seg>)
    requires Laid(l)
  {
    exists cuts, over :: Wrapped(l, segs, cuts, over)
  }

  /** Width of the splices anchored past the last grapheme's start. */
  ghost function Trailing(l: Layout): nat
    requires l.tabstop >= 1
  {
    Sum(l.splices, Placed(l, |l.line|), |l.splices|)
  }

  /** The trailing splices do not fit what is left of the last row of text. */
  ghost predicate TrailingOverflow(l: Layout, base: nat, from: nat)
    requires Laid(l) && from <= base <= |l.line|
  {
    from < |l.line| && Trailing(l) > 0
    && At(l, |l.line|) + Charged(l, base, from, |l.line|) + Trailing(l) > At(l, from) + Avail(l, from)
  }

  /**
   * The last row of text: not empty on a line with text, and the
   * trailing splices follow on it unless they do not fit.
   */
  ghost predicate EndsFitting(l: Layout, base: nat, from: nat, ownRow: bool)
    requires Laid(l)
  {
    from <= base <= |l.line| && (|l.line| > 0 ==> base < |l.line|)
    && StillFits(l, base, from, |l.line|) && (ownRow <==> TrailingOverflow(l, base, from))
  }

  function MarkOf(l: Layout, i: nat): Mark
    requires l.tabstop >= 1 && i <= |l.line|
  {
    Mark(Start(l.line, i), At(l, i))
  }

  /** What the walk over the graphemes carries besides the rows it has ended. */
  datatype State = State(row: Mark, rowInline: nat, nextSplice: nat, wordStart: Option<Mark>, afterBlank: bool,
      seenWord: bool)

  /** The walk stands before grapheme `i`. */
  ghost predicate Standing(l: Layout, i: nat, s: State, segs: seq<Seg>, cuts: seq<nat>, over: seq<nat>, word: nat)
    requires Laid(l)
  {
    Filled(l, segs, cuts, over, i, s.rowInline) && Remembers(l, i, s, cuts, over, word)
  }

  ghost predicate Remembers(l: Layout, i: nat, s: State, cuts: seq<nat>, over: seq<nat>, word: nat)
    requires l.tabstop >= 1 && i <= |l.line|
  {
    |cuts| == |over| + 1 && cuts[|over|] <= |l.line| && s.row == MarkOf(l, cuts[|over|])
    && s.nextSplice == Placed(l, i) && Tracks(l, Base(over, |over|), i, s.wordStart, word, s.afterBlank, s.seenWord)
  }

  /** The greedy walk over the graphemes. */
  method Walk(l: Layout) returns (segs: seq<Seg>, ghost cuts: seq<nat>, ghost over: seq<nat>)
    requires Laid(l)
    ensures Wrapped(l, segs, cuts, over)
  {
    segs, cuts, over := [], [0], [];
    var s := State(Mark(0, 0), 0, 0, None, false, false);
    var here := Mark(0, 0);
    ghost var word: nat := 0;
    for i := 0 to |l.line|
      invariant |cuts| == |segs| + 1 && here == MarkOf(l, i) && Standing(l, i, s, segs, cuts, over, word)
    {
      var w := Width(l.line[i], here.col, l.tabstop);
      segs, s, cuts, over, word := Place(l, i, here, w, s, segs, cuts, over, word);
      here := Mark(here.byte + |l.line[i].bytes|, here.col + w);
    }
    segs, cuts := Finish(l, segs, cuts, over, s.nextSplice, s.rowInline, s.row);
  }

  /** Places one grapheme and the splices it comes with, on a new row if this one is full. */
  method Place(l: Layout, i: nat, here: Mark, w: nat, s: State, rows: seq<Seg>, ghost ends: seq<nat>,
      ghost overs: seq<nat>, ghost word0: nat)
    returns (segs: seq<Seg>, s': State, ghost cuts: seq<nat>, ghost over: seq<nat>, ghost word: nat)
    requires Laid(l) && i < |l.line| && here == MarkOf(l, i) && here.col + w == At(l, i + 1)
    requires Standing(l, i, s, rows, ends, overs, word0)
    ensures Standing(l, i + 1, s', segs, cuts, over, word)
  {
    var nextSplice := PlaceUpTo(l.splices, s.nextSplice, here.col);
    var pending := Sum(l.splices, s.nextSplice, nextSplice);
    var room: State;
    segs, room, cuts, over := MakeRoom(l, i, here, w, pending, s, rows, ends, overs, word0);
    var wordStart, afterBlank, seenWord;
    wordStart, afterBlank, seenWord, word :=
      NoteGrapheme(l, Base(over, |over|), i, here, room.wordStart, word0, room.afterBlank, room.seenWord);
    s' := State(room.row, room.rowInline + pending, nextSplice, wordStart, afterBlank, seenWord);
  }

  /** Breaks the row if the grapheme would overflow it, but never leaves an empty row. */
  method MakeRoom(l: Layout, i: nat, here: Mark, w: nat, pending: nat, s: State, rows: seq<Seg>,
      ghost ends: seq<nat>, ghost overs: seq<nat>, ghost word: nat)
    returns (segs: seq<Seg>, s': State, ghost cuts: seq<nat>, ghost over: seq<nat>)
    requires Laid(l) && i < |l.line| && here == MarkOf(l, i) && here.col + w == At(l, i + 1)
    requires Standing(l, i, s, rows, ends, overs, word)
    requires pending == Sum(l.splices, Placed(l, i), Placed(l, i + 1))
    ensures Rows(l, segs, cuts) && |over| == |segs| && Broken(l, cuts, over) && Remembers(l, i, s', cuts, over, word)
    ensures InRow(l, Base(over, |over|), cuts[|over|], i + 1, s'.rowInline + pending)
  {
    segs, s', cuts, over := rows, s, ends, overs;
    var avail := if s.row.byte == 0 then l.width else l.width - l.indent;
    RowStart(l, cuts[|over|], i);
    if here.byte > s.row.byte && here.col + s.rowInline + pending + w > s.row.col + avail {
      var row;
      segs, row, cuts, over := BreakRow(l, rows, s.row, ends, overs, i, here, s.rowInline, s.wordStart, word,
        s.afterBlank, s.seenWord);
      s' := s.(row := row, rowInline := SumFrom(l.splices, s.nextSplice, row.col), wordStart := None,
        seenWord := false);
      RowOpened(l, cuts[|over|], i);
      TrackAfresh(l, i, s.afterBlank, word);
    } else {
      RowExtended(l, Base(over, |over|), cuts[|over|], i, s.rowInline);
    }
  }

  /** Ends the row at the word the walk found, or else before grapheme `i`. */
  method BreakRow(l: Layout, rows: seq<Seg>, row: Mark, ghost ends: seq<nat>, ghost overs: seq<nat>, ghost i: nat,
      here: Mark, ghost rowInline: nat, wordStart: Option<Mark>, ghost word: nat, ghost afterBlank: bool,
      ghost seenWord: bool)
    returns (segs: seq<Seg>, next: Mark, ghost cuts: seq<nat>, ghost over: seq<nat>)
    requires Laid(l) && i < |l.line| && |ends| == |rows| + 1 && Filled(l, rows, ends, overs, i, rowInline)
    requires Tracks(l, Base(overs, |overs|), i, wordStart, word, afterBlank, seenWord)
    requires ends[|rows|] < i && here == MarkOf(l, i) && row == MarkOf(l, ends[|rows|])
    requires At(l, i + 1) + rowInline + Sum(l.splices, Placed(l, i), Placed(l, i + 1)) 
         > row.col + Avail(l, ends[|rows|])
    ensures Rows(l, segs, cuts) && |over| == |segs| && Broken(l, cuts, over) && over == overs + [i]
    ensures cuts[|segs|] <= i && (!l.linebreak ==> cuts[|segs|] == i) && next == MarkOf(l, cuts[|segs|])
  {
    ghost var (base, from) := (Base(overs, |overs|), ends[|rows|]);
    BreakChosen(l, base, from, i, wordStart, word, afterBlank, seenWord);
    next := if l.linebreak && wordStart.Some? && wordStart.value.byte > row.byte then wordStart.value else here;
    ghost var cut := if l.linebreak && wordStart.Some? then word else i;
    RowClosed(l, base, from, i, rowInline, cut);
    BrokenExtended(l, ends, overs, cut, i);
    var seg := Seg(row.byte, next.byte, row.col);
    RowsExtended(l, rows, ends, seg, cut);
    segs, cuts, over := rows + [seg], ends + [cut], overs + [i];
  }

  /** A blank ends a word; the first grapheme after one is where the row may next break. */
  method NoteGrapheme(l: Layout, ghost base: nat, i: nat, here: Mark,
                      wordStart0: Option<Mark>, ghost word0: nat, afterBlank0: bool, seenWord0: bool)
    returns (wordStart: Option<Mark>, afterBlank: bool, seenWord: bool, ghost word: nat)
    requires l.tabstop >= 1 && i < |l.line| && here == MarkOf(l, i)
    requires Tracks(l, base, i, wordStart0, word0, afterBlank0, seenWord0)
    ensures Tracks(l, base, i + 1, wordStart, word, afterBlank, seenWord)
  {
    wordStart, afterBlank, seenWord, word := wordStart0, afterBlank0, seenWord0, word0;
    if Blank(l.line[i]) {
      TrackBlank(l, base, i, wordStart, word, afterBlank, seenWord);
      afterBlank := true;
    } else {
      TrackWord(l, base, i, wordStart, word, afterBlank, seenWord);
      if afterBlank && seenWord { wordStart, word := Some(here), i; }
      afterBlank, seenWord := false, true;
    }
  }

  lemma StartZero(l: Layout, from: nat)
    requires Laid(l) && from <= |l.line|
    ensures Start(l.line, from) == 0 <==> from == 0
  {
    StartRises(l.line, 0, from);
  }

  lemma StartDistinct(l: Layout, from: nat, i: nat)
    requires Laid(l) && from <= i <= |l.line|
    ensures Start(l.line, i) > Start(l.line, from) <==> i > from
  {
    StartRises(l.line, from, i);
  }

  lemma RowStart(l: Layout, from: nat, i: nat)
    requires Laid(l) && from <= i <= |l.line|
    ensures Start(l.line, from) == 0 <==> from == 0
    ensures Start(l.line, i) > Start(l.line, from) <==> i > from
  {
    StartZero(l, from);
    StartDistinct(l, from, i);
  }

  /** After the text: the splices anchored past it, on a row of their own if need be, and the last row. */
  method Finish(l: Layout, rows: seq<Seg>, ghost ends: seq<nat>, ghost over: seq<nat>, nextSplice: nat,
                rowInline: nat, row: Mark)
    returns (segs: seq<Seg>, ghost cuts: seq<nat>)
    requires Laid(l) && |ends| == |rows| + 1 && Filled(l, rows, ends, over, |l.line|, rowInline)
    requires nextSplice == Placed(l, |l.line|) && ends[|rows|] <= |l.line|
    requires row == MarkOf(l, ends[|rows|])
    ensures Wrapped(l, segs, cuts, over)
  {
    segs, cuts := rows, ends;
    var end := Mark(Len(l.line), At(l, |l.line|));
    var start := row;
    var pending := Sum(l.splices, nextSplice, |l.splices|);
    var avail := if row.byte == 0 then l.width else l.width - l.indent;
    RowStart(l, ends[|over|], |l.line|);
    if pending > 0 && end.col + rowInline + pending > row.col + avail && end.byte > row.byte {
      var seg := Seg(row.byte, end.byte, row.col);
      EndsOwnRow(l, rows, ends, over, rowInline, seg);
      segs, cuts := segs + [seg], cuts + [|l.line|];
      start := end;
    } else {
      EndsInRow(l, rows, ends, over, rowInline);
    }
    segs, cuts := segs + [Seg(start.byte, end.byte, start.col)], cuts + [|l.line|];
  }

  lemma EndsInRow(l: Layout, rows: seq<Seg>, ends: seq<nat>, over: seq<nat>, rowInline: nat)
    requires Laid(l) && |ends| == |rows| + 1 && Filled(l, rows, ends, over, |l.line|, rowInline)
    requires !TrailingOverflow(l, Base(over, |over|), ends[|rows|])
    ensures var m := MarkOf(l, ends[|rows|]);
      Wrapped(l, rows + [Seg(m.byte, Len(l.line), m.col)], ends + [|l.line|], over)
  {
    PartitionEnds(l, rows, ends);
    assert (ends + [|l.line|])[..|over| + 1] == ends;
  }

  lemma EndsOwnRow(l: Layout, rows: seq<Seg>, ends: seq<nat>, over: seq<nat>, rowInline: nat, seg: Seg)
    requires Laid(l) && |ends| == |rows| + 1 && Filled(l, rows, ends, over, |l.line|, rowInline)
    requires TrailingOverflow(l, Base(over, |over|), ends[|rows|]) && IsRow(l, seg, ends[|rows|], |l.line|)
    ensures var m := MarkOf(l, |l.line|);
      Wrapped(l, rows + [seg] + [Seg(m.byte, Len(l.line), m.col)], ends + [|l.line|] + [|l.line|], over)
  {
    RowsExtended(l, rows, ends, seg, |l.line|);
    PartitionEnds(l, rows + [seg], ends + [|l.line|]);
    assert (ends + [|l.line|] + [|l.line|])[..|over| + 1] == ends;
  }

  lemma PartitionEnds(l: Layout, rows: seq<Seg>, ends: seq<nat>)
    requires l.tabstop >= 1 && Rows(l, rows, ends) && ends[|rows|] <= |l.line|
    ensures var m := MarkOf(l, ends[|rows|]);
      Partition(l, rows + [Seg(m.byte, Len(l.line), m.col)], ends + [|l.line|])
  {
    var m := MarkOf(l, ends[|rows|]);
    assert (rows + [Seg(m.byte, Len(l.line), m.col)])[..|rows|] == rows;
    assert (ends + [|l.line|])[..|rows| + 1] == ends;
  }

  // ----- what the rows are worth ------------------------------------------------------------

  /** The segments cover the line in order without gap, and only the last can be empty. */
  lemma RowsJoin(l: Layout, segs: seq<Seg>, cuts: seq<nat>, k: nat)
    requires Laid(l) && Partition(l, segs, cuts) && k < |segs|
    ensures segs[0].startByte == 0 && segs[|segs| - 1].endByte == Len(l.line)
    ensures k + 1 < |segs| ==> segs[k].startByte < segs[k].endByte == segs[k + 1].startByte
    ensures segs[k].startCol == Virtcol(l.line, segs[k].startByte, l.tabstop)
  {
    var n := |segs| - 1;
    assert n > 0 ==> RowAt(l, segs[..n], cuts[..n + 1], 0);
    if k < n {
      assert RowAt(l, segs[..n], cuts[..n + 1], k);
      assert k + 1 < n ==> RowAt(l, segs[..n], cuts[..n + 1], k + 1);
      StartDistinct(l, cuts[k], cuts[k + 1]);
    }
    FloorOfStart(l.line, cuts[k]);
  }

  /** Without `'linebreak'` every row opens at the grapheme that overflowed the one before. */
  lemma RowOpensAtOverflow(l: Layout, cuts: seq<nat>, over: seq<nat>, k: nat)
    requires Laid(l) && Broken(l, cuts, over) && !l.linebreak && cuts[0] == 0 && k <= |over|
    ensures cuts[k] == Base(over, k)
  {
    if k > 0 { assert BreakAt(l, cuts, over, k - 1); }
  }

  /** What the walk knows of the row `k` of text: the room it had left all along. */
  lemma RowHadRoom(l: Layout, segs: seq<Seg>, cuts: seq<nat>, over: seq<nat>, k: nat)
    requires Laid(l) && Wrapped(l, segs, cuts, over) && k <= |over|
    ensures var (base, from, cut) := (Base(over, k), cuts[k], cuts[k + 1]);
      from <= base <= cut <= |l.line| && (cut > 0 ==> base < cut) && StillFits(l, base, from, cut)
  {
    if k < |over| { assert BreakAt(l, cuts[..|over| + 1], over, k); }
  }

  /** Without `'linebreak'` every row fits with the splices on it, or holds a single grapheme. */
  lemma EveryRowFits(l: Layout, segs: seq<Seg>, cuts: seq<nat>, over: seq<nat>, k: nat)
    requires Laid(l) && Wrapped(l, segs, cuts, over) && !l.linebreak && k < |segs|
    ensures Fits(l, cuts[k], cuts[k + 1])
  {
    if k <= |over| {
      RowOpensAtOverflow(l, cuts[..|over| + 1], over, k);
      RowHadRoom(l, segs, cuts, over, k);
      assert cuts[k] + 1 < cuts[k + 1] ==> HasRoom(l, cuts[k], cuts[k], cuts[k + 1]);
    }
  }

  /** The row is charged for the splices that are on it, and perhaps for more. */
  ghost predicate FullyCharged(l: Layout, base: nat, from: nat)
    requires Laid(l)
  {
    from <= base <= |l.line| && Carried(l, base, from) >= Inline(l, from, base)
  }

  /** What moved down into the row, with the grapheme that overflowed the row before, is too wide for it. */
  ghost predicate MovedTooWide(l: Layout, from: nat, base: nat)
    requires Laid(l)
  {
    from < base < |l.line| && At(l, base + 1) + Inline(l, from, base + 1) > At(l, from) + Avail(l, from)
  }

  /**
   * With `'linebreak'` a row of text that is charged for its splices fails to fit exactly when
   * the part of a word that moved down into it is too wide for it: the row is not measured again.
   */
  lemma LinebreakRowFits(l: Layout, segs: seq<Seg>, cuts: seq<nat>, over: seq<nat>, k: nat)
    requires Laid(l) && Wrapped(l, segs, cuts, over) && k <= |over| && FullyCharged(l, Base(over, k), cuts[k])
    ensures Fits(l, cuts[k], cuts[k + 1]) <==> !MovedTooWide(l, cuts[k], Base(over, k))
  {
    RowHadRoom(l, segs, cuts, over, k);
    RowFitsIff(l, Base(over, k), cuts[k], cuts[k + 1]);
  }

  lemma RowFitsIff(l: Layout, base: nat, from: nat, cut: nat)
    requires Laid(l) && FullyCharged(l, base, from)
    requires base <= cut <= |l.line| && (cut > 0 ==> base < cut) && StillFits(l, base, from, cut)
    ensures Fits(l, from, cut) <==> !MovedTooWide(l, from, base)
  {
    if from < base < cut {
      ChargedCovers(l, base, from, cut);
      InlineRises(l, from, from, base + 1, cut);
      ColRises(l.line, base + 1, cut, l.tabstop);
    } else if base == from {
      ChargedCovers(l, base, from, cut);
    }
    assert base + 1 < cut ==> HasRoom(l, base, from, cut);
  }

  lemma ChargedCovers(l: Layout, base: nat, from: nat, i: nat)
    requires Laid(l) && FullyCharged(l, base, from) && base <= i <= |l.line|
    ensures Charged(l, base, from, i) >= Inline(l, from, i)
  {
    PlacedRises(l, from, base);
    PlacedRises(l, base, i);
    SumAdds(l.splices, Placed(l, from), Placed(l, base), Placed(l, i));
  }

  /** A longer piece holds no fewer splice cells. */
  lemma InlineRises(l: Layout, a: nat, from: nat, i: nat, b: nat)
    requires l.tabstop >= 1 && a <= from <= i <= b <= |l.line|
    ensures Inline(l, from, i) <= Inline(l, a, b)
  {
    PlacedRises(l, a, from);
    PlacedRises(l, from, i);
    PlacedRises(l, i, b);
    SumAdds(l.splices, Placed(l, a), Placed(l, from), Placed(l, b));
    SumAdds(l.splices, Placed(l, from), Placed(l, i), Placed(l, b));
  }

  /** Every grapheme takes cells. */
  ghost predicate TakesCells(l: Layout)
    requires l.tabstop >= 1
  {
    forall i: nat | i < |l.line| :: At(l, i) < At(l, i + 1)
  }

  /** Splices in order, each anchored where a grapheme starts or past the text. */
  ghost predicate AnchoredAtStarts(l: Layout)
    requires l.tabstop >= 1
  {
    (forall j: nat, k: nat | j <= k < |l.splices| :: l.splices[j].anchor <= l.splices[k].anchor)
    && forall j: nat, i: nat | j < |l.splices| && 0 < i <= |l.line| ::
         l.splices[j].anchor <= At(l, i - 1) || At(l, i) <= l.splices[j].anchor
  }

  /** Then every row is charged for its splices. */
  lemma AnchoredIsCharged(l: Layout, base: nat, from: nat)
    requires Laid(l) && AnchoredAtStarts(l) && from <= base <= |l.line|
    ensures FullyCharged(l, base, from)
  {
    PlacedRises(l, from, base);
    forall j: nat | Placed(l, from) <= j < Placed(l, base) ensures l.splices[j].anchor >= At(l, from) {
      if from > 0 { PlacedMeans(l, from, j); }
    }
    SumFromCovers(l.splices, Placed(l, from), Placed(l, base), At(l, from));
  }

  lemma {:induction false} SumFromCovers(s: seq<Splice>, m: nat, n: nat, col: nat)
    requires m <= n <= |s| && forall j: nat | m <= j < n :: s[j].anchor >= col
    ensures SumFrom(s, n, col) >= Sum(s, m, n)
    decreases n
  {
    if n > m { SumFromCovers(s, m, n - 1, col); }
  }

  /** No row opened at an overflow is charged again for a splice placed before. */
  ghost predicate ChargedOnce(l: Layout)
    requires l.tabstop >= 1
  {
    forall i: nat | i <= |l.line| :: Carried(l, i, i) == 0
  }

  /** That is so when every grapheme takes cells. */
  lemma TakenIsChargedOnce(l: Layout)
    requires l.tabstop >= 1 && TakesCells(l)
    ensures ChargedOnce(l)
  {
    forall i: nat | i <= |l.line| ensures Carried(l, i, i) == 0 {
      PlacedBefore(l, i);
      SumFromNone(l.splices, Placed(l, i), At(l, i));
    }
  }

  lemma {:induction false} PlacedBefore(l: Layout, i: nat)
    requires l.tabstop >= 1 && TakesCells(l) && i <= |l.line|
    ensures forall j: nat | j < Placed(l, i) :: l.splices[j].anchor < At(l, i)
  {
    if i > 0 {
      PlacedBefore(l, i - 1);
      assert At(l, i - 1) < At(l, i - 1 + 1);
      ReachBefore(l.splices, Placed(l, i - 1), At(l, i - 1));
    }
  }

  lemma {:induction false} ReachBefore(s: seq<Splice>, n: nat, col: nat)
    requires n <= |s|
    ensures forall j: nat | n <= j < Reach(s, n, col) :: s[j].anchor <= col
    decreases |s| - n
  {
    if n < |s| && s[n].anchor <= col { ReachBefore(s, n + 1, col); }
  }

  lemma {:induction false} SumFromNone(s: seq<Splice>, n: nat, col: nat)
    requires n <= |s| && forall j: nat | j < n :: s[j].anchor < col
    ensures SumFrom(s, n, col) == 0
  {
    if n > 0 { SumFromNone(s, n - 1, col); }
  }

  /**
   * Another way to split the line into rows that fit with their splices: the last may be
   * empty, and holds the trailing splices beside its text only if they fit.
   */
  ghost predicate OtherRows(l: Layout, d: seq<nat>)
    requires Laid(l)
  {
    |d| >= 2 && d[0] == 0 && d[|d| - 1] == |l.line| && (forall k: nat | k < |d| - 1 :: OtherRow(l, d, k))
    && TrailingFit(l, d[|d| - 2])
  }

  ghost predicate OtherRow(l: Layout, d: seq<nat>, k: nat)
    requires Laid(l) && k < |d| - 1
  {
    d[k] <= d[k + 1] <= |l.line| && (k > 0 ==> d[k] > 0) && Fits(l, d[k], d[k + 1])
  }

  ghost predicate TrailingFit(l: Layout, a: nat)
    requires Laid(l)
  {
    a < |l.line| && Trailing(l) > 0 ==>
      At(l, |l.line|) + Inline(l, a, |l.line|) + Trailing(l) <= At(l, a) + Avail(l, a)
  }

  /** Row for row, the greedy walk is never behind. */
  lemma {:induction false} GreedyStaysAhead(l: Layout, segs: seq<Seg>, cuts: seq<nat>, over: seq<nat>, d: seq<nat>,
      k: nat)
    requires Laid(l) && Wrapped(l, segs, cuts, over) && !l.linebreak && ChargedOnce(l)
    requires OtherRows(l, d) && k <= |over| && k < |d|
    ensures d[k] <= cuts[k]
  {
    if k > 0 {
      GreedyStaysAhead(l, segs, cuts, over, d, k - 1);
      assert OtherRow(l, d, k - 1);
      assert BreakAt(l, cuts[..|over| + 1], over, k - 1);
      RowOpensAtOverflow(l, cuts[..|over| + 1], over, k - 1);
      NextCutAhead(l, cuts[k - 1], cuts[k], d[k - 1], d[k]);
    }
  }

  lemma NextCutAhead(l: Layout, from: nat, cut: nat, a: nat, b: nat)
    requires Laid(l) && from <= |l.line| && Carried(l, from, from) == 0 && BrokeAt(l, from, from, cut, cut)
    requires a <= from && a <= b <= |l.line| && (a == 0 ==> from == 0) && Fits(l, a, b)
    ensures b <= cut
  {
    if cut < b {
      InlineRises(l, a, from, cut + 1, b);
      ColRises(l.line, cut + 1, b, l.tabstop);
      ColRises(l.line, a, from, l.tabstop);
    }
  }

  lemma {:induction false} CutsRise(l: Layout, cuts: seq<nat>, over: seq<nat>, j: nat, k: nat)
    requires Laid(l) && Broken(l, cuts, over) && j <= k <= |over|
    ensures cuts[j] <= cuts[k]
    decreases k
  {
    if j < k {
      CutsRise(l, cuts, over, j, k - 1);
      assert BreakAt(l, cuts, over, k - 1);
    }
  }

  /** Without `'linebreak'`, and with no splice charged to two rows, no other rows that fit are fewer. */
  lemma FewestRows(l: Layout, segs: seq<Seg>, cuts: seq<nat>, over: seq<nat>, d: seq<nat>)
    requires Laid(l) && Wrapped(l, segs, cuts, over) && !l.linebreak && ChargedOnce(l) && OtherRows(l, d)
    ensures |segs| <= |d| - 1
  {
    var m := |d| - 1;
    RowOpensAtOverflow(l, cuts[..|over| + 1], over, |over|);
    assert |over| > 0 ==> BreakAt(l, cuts[..|over| + 1], over, 0);
    if m <= |over| {
      GreedyStaysAhead(l, segs, cuts, over, d, m);
      CutsRise(l, cuts[..|over| + 1], over, m, |over|);
    } else if m == |over| + 1 && |segs| > m {
      GreedyStaysAhead(l, segs, cuts, over, d, m - 1);
      assert OtherRow(l, d, m - 1);
      TrailingHadRoom(l, cuts[|over|], d[m - 1]);
    }
  }

  /** If another last row holds the trailing splices, so does a greedy one, which starts no earlier. */
  lemma TrailingHadRoom(l: Layout, from: nat, a: nat)
    requires Laid(l) && a <= from <= |l.line| && (a == 0 ==> from == 0) && Carried(l, from, from) == 0
      && TrailingFit(l, a)
    ensures !TrailingOverflow(l, from, from)
  {
    if from < |l.line| {
      InlineRises(l, a, from, |l.line|, |l.line|);
      ColRises(l.line, a, from, l.tabstop);
    }
  }

  /**
   * Without `'linebreak'` a row is charged for exactly the splices on it exactly when no
   * splice with a width that was placed before it is anchored at its first column or later.
   */
  lemma ChargedExactly(l: Layout, segs: seq<Seg>, cuts: seq<nat>, over: seq<nat>, k: nat)
    requires Laid(l) && Wrapped(l, segs, cuts, over) && !l.linebreak && k <= |over|
    ensures cuts[k] == Base(over, k) <= cuts[k + 1] <= |l.line|
    ensures Charged(l, cuts[k], cuts[k], cuts[k + 1]) == Inline(l, cuts[k], cuts[k + 1])
       <==> forall j: nat | j < Placed(l, cuts[k]) && l.splices[j].anchor >= At(l, cuts[k]) :: l.splices[j].width == 0
  {
    RowOpensAtOverflow(l, cuts[..|over| + 1], over, k);
    RowHadRoom(l, segs, cuts, over, k);
    SumFromZero(l.splices, Placed(l, cuts[k]), At(l, cuts[k]));
  }

  lemma {:induction false} SumFromZero(s: seq<Splice>, n: nat, col: nat)
    requires n <= |s|
    ensures SumFrom(s, n, col) == 0 <==> forall j: nat | j < n && s[j].anchor >= col :: s[j].width == 0
  {
    if n > 0 { SumFromZero(s, n - 1, col); }
  }

  /** A letter, a grapheme without width and two letters, two cells to a row, and a splice after the first letter. */
  function Doubled(): Layout {
    Layout([Grapheme([97], 1), Grapheme([226, 128, 139], 0), Grapheme([97], 1), Grapheme([97], 1)], 8, 2, 0, false,
           [Splice(1, 1)])
  }

  lemma DoubledColumns()
    ensures var l := Doubled(); At(l, 0) == 0 && At(l, 1) == 1 && At(l, 2) == 1 && At(l, 3) == 2 && At(l, 4) == 3
  {
    assert At(Doubled(), 1) == 1;
    assert At(Doubled(), 2) == 1;
    assert At(Doubled(), 3) == 2;
  }

  lemma DoubledPlaces()
    ensures var l := Doubled();
      Placed(l, 0) == 0 && Placed(l, 1) == 0 && Placed(l, 2) == 1 && Placed(l, 3) == 1 && Placed(l, 4) == 1
    ensures var s := Doubled().splices;
      Sum(s, 0, 0) == 0 && Sum(s, 1, 1) == 0 && Sum(s, 0, 1) == 1 && SumFrom(s, 0, 0) == 0 && SumFrom(s, 1, 1) == 1
  {
    DoubledColumns();
    assert Sum(Doubled().splices, 0, 0) == 0 && SumFrom(Doubled().splices, 0, 1) == 0;
    assert Placed(Doubled(), 1) == 0;
    assert Placed(Doubled(), 2) == 1;
    assert Placed(Doubled(), 3) == 1;
  }

  /** What matters of that line: four graphemes of columns 0, 1, 1 and 2, and the splice placed before the third. */
  ghost predicate SpliceAtOne(l: Layout) {
    Laid(l) && |l.line| == 4 && !l.linebreak && l.width == 2 && l.indent == 0 && |l.splices| == 1
    && At(l, 0) == 0 && At(l, 2) == 1 && At(l, 3) == 2 && At(l, 4) == 3
    && Placed(l, 0) == 0 && Placed(l, 2) == 1 && Placed(l, 3) == 1 && Placed(l, 4) == 1
    && Sum(l.splices, 0, 0) == 0 && Sum(l.splices, 1, 1) == 0 && Sum(l.splices, 0, 1) == 1
    && SumFrom(l.splices, 0, 0) == 0 && SumFrom(l.splices, 1, 1) == 1
  }

  lemma DoubledIs()
    requires Laid(Doubled())
    ensures SpliceAtOne(Doubled())
  {
    DoubledColumns();
    DoubledPlaces();
  }

  lemma FirstBreak(l: Layout, over: nat)
    requires SpliceAtOne(l) && 0 < over < 4 && FirstOver(l, 0, 0, over)
    ensures over == 2
  {
    assert HasRoom(l, 0, 0, 2) && !HasRoom(l, 0, 0, 3);
  }

  lemma NoRoomForTheLast(l: Layout)
    requires SpliceAtOne(l)
    ensures !HasRoom(l, 0, 0, 3) && !HasRoom(l, 2, 2, 4)
  {
  }

  lemma SpliceAtOneBreaks(l: Layout, segs: seq<Seg>, cuts: seq<nat>, over: seq<nat>)
    requires SpliceAtOne(l) && Wrapped(l, segs, cuts, over)
    ensures over == [2, 3]
  {
    var rows := cuts[..|over| + 1];
    RowOpensAtOverflow(l, rows, over, |over|);
    NoRoomForTheLast(l);
    RowHadRoom(l, segs, cuts, over, |over|);
    assert |over| > 0;
    assert BreakAt(l, rows, over, 0);
    FirstBreak(l, over[0]);
    RowOpensAtOverflow(l, rows, over, 1);
    assert |over| > 1;
    assert BreakAt(l, rows, over, 1);
    RowOpensAtOverflow(l, rows, over, 2);
    if |over| > 2 { BreaksOnward(l, rows, over, 2); }
  }

  lemma BreaksOnward(l: Layout, cuts: seq<nat>, over: seq<nat>, k: nat)
    requires Laid(l) && Broken(l, cuts, over) && k < |over|
    ensures Base(over, k) < over[k] < |l.line|
  {
    assert BreakAt(l, cuts, over, k);
  }

  lemma TwoRowsFit(l: Layout)
    requires SpliceAtOne(l)
    ensures OtherRows(l, [0, 2, 4])
  {
    var d := [0, 2, 4];
    assert Fits(l, 0, 2) && Fits(l, 2, 4);
    assert OtherRow(l, d, 0) && OtherRow(l, d, 1);
    assert Trailing(l) == 0;
  }

  /** The splice takes room on two rows, and the line three rows, where two rows fit it all. */
  lemma DoubledSplice(segs: seq<Seg>, cuts: seq<nat>, over: seq<nat>)
    requires Laid(Doubled()) && Wrapped(Doubled(), segs, cuts, over)
    ensures |segs| == 3 && OtherRows(Doubled(), [0, 2, 4])
  {
    DoubledIs();
    DoubledRows(Doubled(), segs, cuts, over);
  }

  lemma DoubledRows(l: Layout, segs: seq<Seg>, cuts: seq<nat>, over: seq<nat>)
    requires SpliceAtOne(l) && Wrapped(l, segs, cuts, over)
    ensures |segs| == 3 && OtherRows(l, [0, 2, 4])
  {
    SpliceAtOneBreaks(l, segs, cuts, over);
    TwoRowsFit(l);
    assert Trailing(l) == 0;
  }

  /** The word at `x` follows a blank and an earlier word of the row, but none begun since `base`. */
  ghost predicate Overlooked(l: Layout, from: nat, base: nat, x: nat) {
    base <= x && Candidate(l, from, x) && !SeenWord(l, base, x)
  }

  /**
   * A row broken at its overflow held a word after a blank and an earlier word exactly
   * when the walk overlooked it: the only words of the row before it are those that were
   * there when the row before overflowed.
   */
  lemma {:induction false} SplitRowHadBlank(l: Layout, segs: seq<Seg>, cuts: seq<nat>, over: seq<nat>, k: nat)
    requires Laid(l) && Wrapped(l, segs, cuts, over) && l.linebreak && k < |over| && cuts[k + 1] == over[k]
    ensures (exists x | cuts[k] < x < cuts[k + 1] :: Candidate(l, cuts[k], x))
       <==> (exists x | cuts[k] < x < cuts[k + 1] :: Overlooked(l, cuts[k], Base(over, k), x))
  {
    assert BreakAt(l, cuts[..|over| + 1], over, k);
    if k > 0 { assert BreakAt(l, cuts[..|over| + 1], over, k - 1); }
    forall x | cuts[k] < x < cuts[k + 1] && Candidate(l, cuts[k], x) ensures Overlooked(l, cuts[k], Base(over, k), x) {
      if x < Base(over, k) {
        NoneBeforeBase(l, Base(over, k - 1), cuts[k - 1], cuts[k], over[k - 1], x);
      } else {
        assert !Candidate(l, Base(over, k), x);
      }
    }
  }

  /** Between a row's start and the overflow that made it no word follows a blank. */
  lemma {:induction false} NoneBeforeBase(l: Layout, base: nat, from: nat, cut: nat, over: nat, x: nat)
    requires Break(l, base, from, cut, over) && cut < x < over && cut < |l.line|
    ensures !(Blank(l.line[x - 1]) && !Blank(l.line[x]))
  {
    if Blank(l.line[x - 1]) && !Blank(l.line[x]) {
      assert SeenWord(l, base, x);
      assert Candidate(l, base, x);
    }
  }

  /** Seven one-cell graphemes, two letters and a word of three with blanks between them, four to a row. */
  function Sample(): Layout {
    Layout(seq(7, i => Grapheme([if i == 1 || i == 3 then 32 else 97], 1)), 8, 4, 0, true, [])
  }

  lemma {:induction false} SampleColumns(i: nat)
    requires i <= 7
    ensures At(Sample(), i) == i
  {
    if i > 0 { SampleColumns(i - 1); }
  }

  lemma NoSplices(l: Layout, base: nat, from: nat, i: nat)
    requires Laid(l) && l.splices == [] && from <= base <= i <= |l.line|
    ensures HasRoom(l, base, from, i) <==> At(l, i) <= At(l, from) + Avail(l, from)
  {
    assert Charged(l, base, from, i) == 0;
  }

  lemma SampleRoom(base: nat, from: nat, i: nat)
    requires Laid(Sample()) && from <= base <= i <= 7
    ensures HasRoom(Sample(), base, from, i) <==> i <= from + 4
  {
    NoSplices(Sample(), base, from, i);
    SampleColumns(i);
    SampleColumns(from);
  }

  lemma SampleOverflow(base: nat, from: nat, over: nat)
    requires Laid(Sample()) && from <= base < over < 7 && base < from + 4
    requires FirstOver(Sample(), base, from, over)
    ensures over == from + 4
  {
    SampleRoom(base, from, over + 1);
    SampleRoom(base, from, over);
  }

  lemma SampleNotLast(base: nat, from: nat, ownRow: bool)
    requires Laid(Sample()) && from <= base < 6 && from < 3
    ensures !EndsFitting(Sample(), base, from, ownRow)
  {
    SampleRoom(base, from, 7);
  }

  lemma SampleFirstCut(cut: nat, over: nat)
    requires Laid(Sample()) && BrokeAt(Sample(), 0, 0, cut, over)
    ensures over == 4 && cut == 2
  {
    SampleOverflow(0, 0, over);
    assert Candidate(Sample(), 0, 2) by { assert !Blank(Sample().line[0]); }
  }

  lemma SampleSecondCut(cut: nat, over: nat)
    requires Laid(Sample()) && BrokeAt(Sample(), 4, 2, cut, over)
    ensures over == 6 && cut == 6
  {
    SampleOverflow(4, 2, over);
    assert !Candidate(Sample(), 4, 5);
  }

  lemma SampleFirstRow(segs: seq<Seg>, cuts: seq<nat>, over: seq<nat>)
    requires Laid(Sample()) && Wrapped(Sample(), segs, cuts, over)
    ensures |over| > 0 && |cuts| > 1 && over[0] == 4 && cuts[1] == 2
  {
    if over == [] { SampleNotLast(0, 0, |over| + 1 < |segs|); }
    assert BreakAt(Sample(), cuts[..|over| + 1], over, 0);
    SampleFirstCut(cuts[1], over[0]);
  }

  lemma SampleSecondRow(segs: seq<Seg>, cuts: seq<nat>, over: seq<nat>)
    requires Laid(Sample()) && Wrapped(Sample(), segs, cuts, over)
    requires |over| > 0 && |cuts| > 1 && over[0] == 4 && cuts[1] == 2
    ensures |over| > 1 && |cuts| > 2 && cuts[2] == 6
  {
    if |over| == 1 { SampleNotLast(4, 2, |over| + 1 < |segs|); }
    assert BreakAt(Sample(), cuts[..|over| + 1], over, 1);
    SampleSecondCut(cuts[2], over[1]);
  }

  lemma SampleWords()
    ensures Candidate(Sample(), 2, 4) && !Blank(Sample().line[5]) && !Blank(Sample().line[6])
  {
    assert SeenWord(Sample(), 2, 4) by { assert !Blank(Sample().line[2]); }
  }

  /**
   * The word at 4 fits a row of its own and follows a blank, yet is split: its first letter
   * overflows the first row, which backs up to the word at 2, and the second row, which
   * then holds both, breaks at 6.
   */
  lemma BlankBeforeSplitWord(segs: seq<Seg>, cuts: seq<nat>, over: seq<nat>)
    requires Laid(Sample()) && Wrapped(Sample(), segs, cuts, over)
    ensures |cuts| > 2 && cuts[1] == 2 && cuts[2] == 6
    ensures Candidate(Sample(), 2, 4) && !Blank(Sample().line[5]) && !Blank(Sample().line[6])
  {
    SampleFirstRow(segs, cuts, over);
    SampleSecondRow(segs, cuts, over);
    SampleWords();
  }

  /** A word of two letters, a blank and a word of four, with four cells in the first row and one in the others. */
  function Tight(): Layout {
    Layout(seq(7, i => Grapheme([if i == 2 then 32 else 97], 1)), 8, 4, 3, true, [])
  }

  lemma {:induction false} TightColumns(i: nat)
    requires i <= 7
    ensures At(Tight(), i) == i
  {
    if i > 0 { TightColumns(i - 1); }
  }

  lemma TightRoom(i: nat)
    requires Laid(Tight()) && i <= 7
    ensures HasRoom(Tight(), 0, 0, i) <==> i <= 4
  {
    NoSplices(Tight(), 0, 0, i);
    TightColumns(i);
  }

  lemma TightNotLast(ownRow: bool)
    requires Laid(Tight())
    ensures !EndsFitting(Tight(), 0, 0, ownRow)
  {
    TightRoom(7);
  }

  lemma TightFirstCut(cut: nat, over: nat)
    requires Laid(Tight()) && BrokeAt(Tight(), 0, 0, cut, over)
    ensures over == 4 && cut == 3
  {
    TightOver(over);
    TightWords();
  }

  lemma TightOver(over: nat)
    requires Laid(Tight()) && 0 < over < 7 && FirstOver(Tight(), 0, 0, over)
    ensures over == 4
  {
    TightRoom(over);
    TightRoom(over + 1);
  }

  lemma TightWords()
    ensures Candidate(Tight(), 0, 3) && forall x: nat | 3 < x < 7 :: !Candidate(Tight(), 0, x)
  {
    assert !Blank(Tight().line[0]);
    assert SeenWord(Tight(), 0, 3);
  }

  lemma TightFirstRow(segs: seq<Seg>, cuts: seq<nat>, over: seq<nat>)
    requires Laid(Tight()) && Wrapped(Tight(), segs, cuts, over)
    ensures |over| > 0 && over[0] == 4 && cuts[1] == 3
  {
    if over == [] { TightNotLast(|over| + 1 < |segs|); }
    assert BreakAt(Tight(), cuts[..|over| + 1], over, 0);
    TightFirstCut(cuts[1], over[0]);
  }

  /** The word moves down into a row of one cell, which is given two of its letters. */
  lemma TightRowOverflows(segs: seq<Seg>, cuts: seq<nat>, over: seq<nat>)
    requires Laid(Tight()) && Wrapped(Tight(), segs, cuts, over)
    ensures |segs| > 1 && cuts[1] == 3 && !Fits(Tight(), cuts[1], cuts[2])
  {
    TightFirstRow(segs, cuts, over);
    TightMoved();
    LinebreakRowFits(Tight(), segs, cuts, over, 1);
  }

  lemma TightMoved()
    requires Laid(Tight())
    ensures MovedTooWide(Tight(), 3, 4) && FullyCharged(Tight(), 4, 3)
  {
    TightColumns(3);
    TightColumns(5);
    NothingInline(Tight(), 3, 5);
    NothingInline(Tight(), 3, 4);
  }

  lemma NothingInline(l: Layout, a: nat, b: nat)
    requires l.tabstop >= 1 && l.splices == [] && a <= b <= |l.line|
    ensures Inline(l, a, b) == 0
  {
  }

  // ----- the calls ------------------------------------------------------------------------------

  /** The layout of a call: the prefix leaves every continuation row a cell. */
  function LayoutOf(line: Line, tabstop: nat, width: nat, indent: nat, linebreak: bool, splices: seq<Splice>): Layout
    requires width > 0
  {
    Layout(line, tabstop, width, Min(indent, width - 1), linebreak, splices)
  }

  /** Splices placed before grapheme `i`. */
  function PlacedOf(line: Line, tabstop: nat, splices: seq<Splice>, i: nat): (n: nat)
    requires i <= |line| && tabstop >= 1
    ensures n <= |splices|
  {
    if i == 0 then 0
    else Reach(splices, PlacedOf(line, tabstop, splices, i - 1), Col(line, i - 1, tabstop))
  }

  /** The cells of the graphemes from `a` up to `b`, with the splices placed with them. */
  ghost function Cells(line: Line, tabstop: nat, splices: seq<Splice>, a: nat, b: nat): nat
    requires a <= b <= |line| && tabstop >= 1
  {
    Columns.ColRises(line, a, b, tabstop);
    PlacedOfRises(line, tabstop, splices, a, b);
    Col(line, b, tabstop) - Col(line, a, tabstop)
      + Sum(splices, PlacedOf(line, tabstop, splices, a), PlacedOf(line, tabstop, splices, b))
  }

  lemma {:induction false} PlacedOfRises(line: Line, tabstop: nat, splices: seq<Splice>, a: nat, b: nat)
    requires a <= b <= |line| && tabstop >= 1
    ensures PlacedOf(line, tabstop, splices, a) <= PlacedOf(line, tabstop, splices, b)
    decreases b
  {
    if a < b { PlacedOfRises(line, tabstop, splices, a, b - 1); }
  }

  lemma {:induction false} PlacedIsPlacedOf(l: Layout, i: nat)
    requires l.tabstop >= 1 && i <= |l.line|
    ensures Placed(l, i) == PlacedOf(l.line, l.tabstop, l.splices, i)
  {
    if i > 0 { PlacedIsPlacedOf(l, i - 1); }
  }

  lemma CellsAre(l: Layout, a: nat, b: nat)
    requires l.tabstop >= 1 && a <= b <= |l.line|
    ensures At(l, a) + Cells(l.line, l.tabstop, l.splices, a, b) == At(l, b) + Inline(l, a, b)
  {
    PlacedIsPlacedOf(l, a);
    PlacedIsPlacedOf(l, b);
    ColRises(l.line, a, b, l.tabstop);
  }

  /** Row `k` holds the graphemes between two cuts, with its own bytes and column. */
  ghost predicate Holds(line: Line, tabstop: nat, segs: seq<Seg>, cuts: seq<nat>, k: nat)
    requires tabstop >= 1 && k < |segs| && |cuts| == |segs| + 1
  {
    cuts[k] <= cuts[k + 1] <= |line|
    && segs[k] == Seg(Start(line, cuts[k]), Start(line, cuts[k + 1]), Col(line, cuts[k], tabstop))
  }

  /** The rows' cuts, from the line's start to its end. */
  ghost predicate Cut(line: Line, tabstop: nat, segs: seq<Seg>, cuts: seq<nat>)
    requires tabstop >= 1
  {
    |segs| > 0 && |cuts| == |segs| + 1 && cuts[0] == 0 && cuts[|segs|] == |line|
    && forall k: nat | k < |segs| :: Holds(line, tabstop, segs, cuts, k)
  }

  lemma LaidIsCut(l: Layout, segs: seq<Seg>, cuts: seq<nat>, over: seq<nat>)
    requires Laid(l) && Wrapped(l, segs, cuts, over)
    ensures Cut(l.line, l.tabstop, segs, cuts)
  {
    var n := |segs| - 1;
    forall k: nat | k < |segs| ensures Holds(l.line, l.tabstop, segs, cuts, k) {
      if k < n { assert RowAt(l, segs[..n], cuts[..n + 1], k); }
    }
    assert Rows(l, segs[..n], cuts[..|segs|]);
  }

  /**
   * Without `'linebreak'`, in terms of the call: the first row takes at most `width` cells with
   * its splices, any other at most what the clamped indent leaves, unless it is one grapheme;
   * and if every grapheme takes cells, a row ends before a grapheme only if it has no room.
   */
  ghost predicate Greedy(
      line: Line, tabstop: nat, width: nat, indent: nat, splices: seq<Splice>, cuts: seq<nat>, k: nat)
    requires tabstop >= 1 && width > 0 && k + 1 < |cuts|
  {
    var room := if cuts[k] == 0 then width else width - Min(indent, width - 1);
    cuts[k] <= cuts[k + 1] <= |line|
    && (cuts[k + 1] <= cuts[k] + 1 || Cells(line, tabstop, splices, cuts[k], cuts[k + 1]) <= room)
    && ((forall i: nat | i < |line| :: Col(line, i, tabstop) < Col(line, i + 1, tabstop)) && cuts[k + 1] < |line| ==>
          Cells(line, tabstop, splices, cuts[k], cuts[k + 1] + 1) > room)
  }

  ghost predicate GreedyRows(line: Line, tabstop: nat, width: nat, indent: nat, splices: seq<Splice>, segs: seq<Seg>)
    requires tabstop >= 1 && width > 0
  {
    exists cuts :: Cut(line, tabstop, segs, cuts)
      && forall k: nat | k < |segs| :: Greedy(line, tabstop, width, indent, splices, cuts, k)
  }

  lemma LaidIsGreedy(l: Layout, width: nat, indent: nat, segs: seq<Seg>, cuts: seq<nat>, over: seq<nat>)
    requires Laid(l) && Wrapped(l, segs, cuts, over) && !l.linebreak
    requires l.width == width && l.indent == Min(indent, width - 1)
    ensures GreedyRows(l.line, l.tabstop, width, indent, l.splices, segs)
  {
    LaidIsCut(l, segs, cuts, over);
    forall k: nat | k < |segs|
      ensures Greedy(l.line, l.tabstop, width, indent, l.splices, cuts, k)
    {
      assert Holds(l.line, l.tabstop, segs, cuts, k);
      RowIsGreedy(l, segs, cuts, over, k);
    }
  }

  lemma RowIsGreedy(l: Layout, segs: seq<Seg>, cuts: seq<nat>, over: seq<nat>, k: nat)
    requires Laid(l) && Wrapped(l, segs, cuts, over) && !l.linebreak && k < |segs|
    requires cuts[k] <= cuts[k + 1] <= |l.line|
    ensures cuts[k + 1] <= cuts[k] + 1
         || Cells(l.line, l.tabstop, l.splices, cuts[k], cuts[k + 1]) <= Avail(l, cuts[k])
    ensures TakesCells(l) && cuts[k + 1] < |l.line| ==>
      Cells(l.line, l.tabstop, l.splices, cuts[k], cuts[k + 1] + 1) > Avail(l, cuts[k])
  {
    EveryRowFits(l, segs, cuts, over, k);
    CellsAre(l, cuts[k], cuts[k + 1]);
    if cuts[k + 1] < |l.line| {
      CellsAre(l, cuts[k], cuts[k + 1] + 1);
      if TakesCells(l) { RowIsFull(l, segs, cuts, over, k); }
    }
  }

  lemma RowIsFull(l: Layout, segs: seq<Seg>, cuts: seq<nat>, over: seq<nat>, k: nat)
    requires Laid(l) && Wrapped(l, segs, cuts, over) && !l.linebreak && TakesCells(l)
    requires k < |segs| && cuts[k] <= cuts[k + 1] < |l.line|
    ensures At(l, cuts[k + 1] + 1) + Inline(l, cuts[k], cuts[k + 1] + 1) > At(l, cuts[k]) + Avail(l, cuts[k])
  {
    TakenIsChargedOnce(l);
    assert k < |over|;
    assert BreakAt(l, cuts[..|over| + 1], over, k);
    RowOpensAtOverflow(l, cuts[..|over| + 1], over, k);
  }

  /**
   * With or without `'linebreak'`, in terms of the call, and without splices: each row ends at
   * or before a grapheme that has no room in it, and fits unless what it holds up to the
   * grapheme that ended the row before is too wide already.
   */
  ghost predicate Ends(line: Line, tabstop: nat, width: nat, indent: nat, cuts: seq<nat>, over: seq<nat>, k: nat)
    requires tabstop >= 1 && width > 0 && k + 1 < |cuts|
    requires k <= |over| && forall i | 0 <= i < |over| :: over[i] < |line|
  {
    cuts[k] <= cuts[k + 1] <= |line|
    && var limit := Col(line, cuts[k], tabstop) + if cuts[k] == 0 then width else width - Min(indent, width - 1);
       (cuts[k + 1] <= cuts[k] + 1 || Col(line, cuts[k + 1], tabstop) <= limit
        || (k > 0 && cuts[k] < over[k - 1] && Col(line, over[k - 1] + 1, tabstop) > limit))
       && (k < |over| ==> cuts[k + 1] <= over[k] && Col(line, over[k] + 1, tabstop) > limit)
       && (k == |over| ==> cuts[k + 1] == |line|)
  }

  ghost predicate EndingRows(line: Line, tabstop: nat, width: nat, indent: nat, segs: seq<Seg>)
    requires tabstop >= 1 && width > 0
  {
    exists cuts, over :: Cut(line, tabstop, segs, cuts) && |over| + 1 == |segs|
      && (forall i | 0 <= i < |over| :: over[i] < |line|)
      && forall k: nat | k < |segs| :: Ends(line, tabstop, width, indent, cuts, over, k)
  }

  lemma LaidIsEnding(l: Layout, width: nat, indent: nat, segs: seq<Seg>, cuts: seq<nat>, over: seq<nat>)
    requires Laid(l) && Wrapped(l, segs, cuts, over) && l.splices == []
    requires l.width == width && l.indent == Min(indent, width - 1)
    ensures EndingRows(l.line, l.tabstop, width, indent, segs)
  {
    LaidIsCut(l, segs, cuts, over);
    assert Trailing(l) == 0;
    forall i | 0 <= i < |over| ensures over[i] < |l.line| {
      assert BreakAt(l, cuts[..|over| + 1], over, i);
    }
    forall k: nat | k < |segs| ensures Ends(l.line, l.tabstop, width, indent, cuts, over, k) {
      RowIsEnding(l, width, indent, segs, cuts, over, k);
    }
  }

  lemma RowIsEnding(l: Layout, width: nat, indent: nat, segs: seq<Seg>, cuts: seq<nat>, over: seq<nat>, k: nat)
    requires Laid(l) && Wrapped(l, segs, cuts, over) && l.splices == []
    requires l.width == width && l.indent == Min(indent, width - 1)
    requires Cut(l.line, l.tabstop, segs, cuts) && |over| + 1 == |segs| && k <= |over|
    requires forall i | 0 <= i < |over| :: over[i] < |l.line|
    ensures Ends(l.line, l.tabstop, width, indent, cuts, over, k)
  {
    assert Holds(l.line, l.tabstop, segs, cuts, k);
    RowEnds(l, segs, cuts, over, k);
    EndsIs(l, width, indent, cuts, over, k);
  }

  lemma EndsIs(l: Layout, width: nat, indent: nat, cuts: seq<nat>, over: seq<nat>, k: nat)
    requires Laid(l) && l.splices == [] && l.width == width && l.indent == Min(indent, width - 1)
    requires |cuts| == |over| + 2 && k <= |over| && cuts[k] <= cuts[k + 1] <= |l.line| && cuts[|over| + 1] == |l.line|
    requires forall i | 0 <= i < |over| :: over[i] < |l.line|
    requires EndsWithin(l, cuts[k], cuts[k + 1], Base(over, k))
    requires k < |over| ==> EndsBefore(l, cuts[k], cuts[k + 1], over[k])
    ensures Ends(l.line, l.tabstop, width, indent, cuts, over, k)
  {
    if MovedTooWide(l, cuts[k], Base(over, k)) { NothingInline(l, cuts[k], Base(over, k) + 1); }
  }

  /** The row fits, or what moved down into it does not. */
  ghost predicate EndsWithin(l: Layout, a: nat, b: nat, base: nat)
    requires Laid(l)
  {
    a <= b <= |l.line|
    && (b <= a + 1 || At(l, b) <= At(l, a) + Avail(l, a) || MovedTooWide(l, a, base))
  }

  ghost predicate EndsBefore(l: Layout, a: nat, b: nat, over: nat)
    requires Laid(l)
  {
    a <= |l.line| && b <= over < |l.line| && At(l, over + 1) > At(l, a) + Avail(l, a)
  }

  lemma RowEnds(l: Layout, segs: seq<Seg>, cuts: seq<nat>, over: seq<nat>, k: nat)
    requires Laid(l) && Wrapped(l, segs, cuts, over) && l.splices == [] && k <= |over|
    requires cuts[k] <= cuts[k + 1] <= |l.line| && (k < |over| ==> over[k] < |l.line|)
    ensures EndsWithin(l, cuts[k], cuts[k + 1], Base(over, k))
    ensures k < |over| ==> EndsBefore(l, cuts[k], cuts[k + 1], over[k])
  {
    RowHadRoom(l, segs, cuts, over, k);
    NothingInline(l, cuts[k], Base(over, k));
    LinebreakRowFits(l, segs, cuts, over, k);
    NothingInline(l, cuts[k], cuts[k + 1]);
    if k < |over| {
      assert BreakAt(l, cuts[..|over| + 1], over, k);
      NoSplices(l, Base(over, k), cuts[k], over[k] + 1);
    }
  }

  method WrapSegmentsIndented(line: Line, tabstop: nat, width: nat, indent: nat, linebreak: bool, splices: seq<Splice>)
    returns (segs: seq<Seg>)
    requires Clusters(line) && tabstop >= 1
    ensures width == 0 ==> segs == [Seg(0, Len(line), 0)]
    ensures width > 0 ==> Lays(LayoutOf(line, tabstop, width, indent, linebreak, splices), segs)
    ensures width > 0 && !linebreak ==> GreedyRows(line, tabstop, width, indent, splices, segs)
    ensures width > 0 && splices == [] ==> EndingRows(line, tabstop, width, indent, segs)
  {
    if width == 0 {
      return [Seg(0, Len(line), 0)];
    }
    ghost var cuts, over;
    ghost var l := LayoutOf(line, tabstop, width, indent, linebreak, splices);
    segs, cuts, over := Walk(LayoutOf(line, tabstop, width, indent, linebreak, splices));
    if !linebreak { LaidIsGreedy(l, width, indent, segs, cuts, over); }
    if splices == [] { LaidIsEnding(l, width, indent, segs, cuts, over); }
  }

  /** An empty row at the line's end. */
  function EndRow(line: Line, tabstop: nat): Seg
    requires tabstop >= 1
  {
    Seg(Len(line), Len(line), Col(line, |line|, tabstop))
  }

  /** The last row, and the splices anchored on or past it, leave no cell for the end-of-line glyph. */
  predicate LastRowFull(l: Layout, last: Seg)
    requires l.tabstop >= 1 && l.indent < l.width
  {
    At(l, |l.line|) - last.startCol + SumFrom(l.splices, |l.splices|, last.startCol)
      >= (if last.startByte == 0 then l.width else l.width - l.indent)
  }

  /** The window's rows: the wrap, and one more for an `eol` glyph that has no cell left. */
  ghost predicate WindowRows(l: Layout, eol: bool, segs: seq<Seg>)
    requires Laid(l)
  {
    exists wrap :: Lays(l, wrap) && |wrap| > 0
      && segs == if eol && LastRowFull(l, wrap[|wrap| - 1]) then wrap + [EndRow(l.line, l.tabstop)] else wrap
  }

  /** In terms of the call: an `eol` glyph gets a row of its own when the last row, with the splices on it, is full. */
  ghost predicate RowAdded(line: Line, tabstop: nat, width: nat, indent: nat, eol: bool, splices: seq<Splice>,
      wrap: seq<Seg>, segs: seq<Seg>)
    requires tabstop >= 1 && width > 0
  {
    |wrap| > 0 &&
    var last := wrap[|wrap| - 1];
    var room := if last.startByte == 0 then width else width - Min(indent, width - 1);
    var used := Col(line, |line|, tabstop) - last.startCol + SumFrom(splices, |splices|, last.startCol);
    segs == if eol && used >= room then wrap + [EndRow(line, tabstop)] else wrap
  }

  method WindowWrapSegments(line: Line, tabstop: nat, width: nat, indent: nat, linebreak: bool, eol: bool,
      splices: seq<Splice>)
    returns (segs: seq<Seg>)
    requires Clusters(line) && tabstop >= 1
    ensures width == 0 ==> segs == [Seg(0, Len(line), 0)]
    ensures width > 0 ==> WindowRows(LayoutOf(line, tabstop, width, indent, linebreak, splices), eol, segs)
    ensures width > 0 ==> exists wrap ::
        RowAdded(line, tabstop, width, indent, eol, splices, wrap, segs)
        && (!linebreak ==> GreedyRows(line, tabstop, width, indent, splices, wrap))
        && (splices == [] ==> EndingRows(line, tabstop, width, indent, wrap))
  {
    segs := WrapSegmentsIndented(line, tabstop, width, indent, linebreak, splices);
    if width == 0 { return; }
    ghost var (l, wrap) := (LayoutOf(line, tabstop, width, indent, linebreak, splices), segs);
    assert |wrap| > 0 by {
      var cuts, over :| Wrapped(l, wrap, cuts, over);
    }
    if !eol {
      assert WindowRows(l, eol, wrap);
      assert RowAdded(line, tabstop, width, indent, eol, splices, wrap, segs);
      return;
    }
    var last := segs[|segs| - 1];
    var cols := ColumnOf(line, Len(line), tabstop);
    FloorOfStart(line, |line|);
    var avail := if last.startByte == 0 then width else width - Min(indent, width - 1);
    var inline := SumFrom(splices, |splices|, last.startCol);
    if cols - last.startCol + inline >= avail {
      segs := segs + [Seg(Len(line), Len(line), cols)];
    }
    assert WindowRows(l, eol, segs);
    assert RowAdded(line, tabstop, width, indent, eol, splices, wrap, segs);
  }

  /**
   * A window shows two rows without text at the line's end exactly when the wrap ends in
   * one that is full: the line is empty, or its trailing splices do not fit what is left of
   * the last row of text.
   */
  lemma {:induction false} TwoRowsWithoutText(l: Layout, segs: seq<Seg>, cuts: seq<nat>, over: seq<nat>)
    requires Laid(l) && Wrapped(l, segs, cuts, over) && LastRowFull(l, segs[|segs| - 1])
    ensures segs[|segs| - 1] == EndRow(l.line, l.tabstop)
       <==> l.line == [] || TrailingOverflow(l, Base(over, |over|), cuts[|over|])
  {
    var from := cuts[|segs| - 1];
    RowStart(l, from, |l.line|);
    if |over| + 1 == |segs| && l.line != [] { assert from < |l.line|; }
  }

  /** One letter in a window one cell wide, and a splice one cell wide after it. */
  function Narrow(): Layout {
    Layout([Grapheme([97], 1)], 8, 1, 0, false, [Splice(1, 1)])
  }

  lemma NarrowFacts()
    ensures var l := Narrow();
      At(l, 0) == 0 && At(l, 1) == 1 && Start(l.line, 0) == 0 && Start(l.line, 1) == 1 && Trailing(l) == 1
      && Placed(l, 0) == 0 && Placed(l, 1) == 0 && SumFrom(l.splices, 1, 1) == 1
  {
    assert Sum(Narrow().splices, 0, 0) == 0 && SumFrom(Narrow().splices, 0, 1) == 0;
  }

  /** The splice does not fit beside the letter. */
  lemma NarrowOverflows()
    requires Laid(Narrow())
    ensures TrailingOverflow(Narrow(), 0, 0)
  {
    NarrowFacts();
  }

  /** A line of one grapheme is not broken. */
  lemma OneRow(l: Layout, segs: seq<Seg>, cuts: seq<nat>, over: seq<nat>)
    requires Laid(l) && |l.line| == 1 && Wrapped(l, segs, cuts, over) && TrailingOverflow(l, 0, 0)
    ensures segs == [Seg(0, Len(l.line), 0), EndRow(l.line, l.tabstop)]
  {
    if |over| > 0 { BreaksWithin(l, cuts[..|over| + 1], over, 0); }
    assert |segs| == 2 && cuts[1] == 1;
    assert RowAt(l, segs[..1], cuts[..2], 0);
  }

  lemma BreaksWithin(l: Layout, cuts: seq<nat>, over: seq<nat>, k: nat)
    requires Laid(l) && Broken(l, cuts, over) && k < |over|
    ensures 0 < over[k] < |l.line|
  {
    assert BreakAt(l, cuts, over, k);
  }

  lemma NarrowIsFull()
    requires Laid(Narrow())
    ensures LastRowFull(Narrow(), EndRow(Narrow().line, 8))
    ensures Len(Narrow().line) == 1 && EndRow(Narrow().line, 8) == Seg(1, 1, 1)
  {
    NarrowFacts();
  }

  lemma OneRowInWindow(l: Layout, segs: seq<Seg>)
    requires Laid(l) && |l.line| == 1 && TrailingOverflow(l, 0, 0)
    requires WindowRows(l, true, segs) && LastRowFull(l, EndRow(l.line, l.tabstop))
    ensures segs == [Seg(0, Len(l.line), 0), EndRow(l.line, l.tabstop), EndRow(l.line, l.tabstop)]
  {
    var wrap :| Lays(l, wrap) && |wrap| > 0
      && segs == if LastRowFull(l, wrap[|wrap| - 1]) then wrap + [EndRow(l.line, l.tabstop)] else wrap;
    var cuts, over :| Wrapped(l, wrap, cuts, over);
    OneRow(l, wrap, cuts, over);
  }

  /** With the end-of-line glyph this window shows the letter, the splice and the glyph on a row each. */
  lemma NarrowRows(segs: seq<Seg>)
    requires Laid(Narrow()) && WindowRows(Narrow(), true, segs)
    ensures segs == [Seg(0, 1, 0), Seg(1, 1, 1), Seg(1, 1, 1)]
  {
    NarrowOverflows();
    NarrowIsFull();
    OneRowInWindow(Narrow(), segs);
  }
}
