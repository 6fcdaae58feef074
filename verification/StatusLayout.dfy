/**
 * Laying a status line out in a width: flattening to cells, truncation, fill, the click
 * regions of the surviving cells, and the painted segments.
 */
module StatusLayout {
  import opened Wrappers

  /** A character and the cells it takes. */
  datatype Glyph = Glyph(ch: char, width: nat)

  type Group = Option<string>

  datatype Action = Handler(handler: string, minwid: nat) | Tab(page: nat)

  datatype Piece = Text(text: seq<Glyph>, group: Group) | Align | Truncate | ClickStart(action: Action) | ClickEnd

  datatype Cell = Cell(ch: char, width: nat, group: Group, click: Option<nat>)

  /** Cells with the positions of the markers, and the actions the cells' regions stand for. */
  datatype Flat = Flat(chars: seq<Cell>, aligns: seq<nat>, trunc: Option<nat>, first: Option<nat>, regions: seq<Action>)

  /** Cells of the first `n`. */
  function Col(cells: seq<Cell>, n: nat): nat
    requires n <= |cells|
  {
    if n == 0 then 0 else Col(cells, n - 1) + cells[n - 1].width
  }

  function Width(cells: seq<Cell>): nat { Col(cells, |cells|) }

  lemma {:induction false} ColOfPrefix(cells: seq<Cell>, more: seq<Cell>, n: nat)
    requires n <= |cells|
    ensures Col(cells + more, n) == Col(cells, n)
  {
    if n > 0 { ColOfPrefix(cells, more, n - 1); }
  }

  lemma {:induction false} ColJoins(cells: seq<Cell>, more: seq<Cell>, n: nat)
    requires n <= |more|
    ensures Col(cells + more, |cells| + n) == Width(cells) + Col(more, n)
  {
    if n == 0 { ColOfPrefix(cells, more, |cells|); } else { ColJoins(cells, more, n - 1); }
  }

  lemma {:induction false} ColRises(cells: seq<Cell>, i: nat, j: nat)
    requires i <= j <= |cells|
    ensures Col(cells, i) <= Col(cells, j)
    decreases j
  {
    if i < j { ColRises(cells, i, j - 1); }
  }

  lemma WidthSplit(cells: seq<Cell>, n: nat)
    requires n <= |cells|
    ensures Col(cells, n) == Width(cells[..n]) && Width(cells) == Width(cells[..n]) + Width(cells[n..])
  {
    assert cells == cells[..n] + cells[n..];
    ColJoins(cells[..n], cells[n..], |cells[n..]|);
    ColOfPrefix(cells[..n], cells[n..], n);
  }

  // ----- flattening -----------------------------------------------------------------------

  /** Cells of the first `n` glyphs. */
  function CellsTo(text: seq<Glyph>, group: Group, click: Option<nat>, n: nat): (cells: seq<Cell>)
    requires n <= |text|
    ensures |cells| == n && forall i | 0 <= i < n :: cells[i] == Cell(text[i].ch, text[i].width, group, click)
  {
    if n == 0 then [] else CellsTo(text, group, click, n - 1) + [Cell(text[n - 1].ch, text[n - 1].width, group, click)]
  }

  function CellsOf(text: seq<Glyph>, group: Group, click: Option<nat>): seq<Cell> {
    CellsTo(text, group, click, |text|)
  }

  function OrElse(o: Option<nat>, n: nat): Option<nat> { if o.Some? then o else Some(n) }

  /** Markers at rising positions within the cells, and regions that exist. */
  ghost predicate WellFormed(f: Flat) {
    (forall i, j | 0 <= i <= j < |f.aligns| :: f.aligns[i] <= f.aligns[j])
    && (forall i | 0 <= i < |f.aligns| :: f.aligns[i] <= |f.chars|)
    && (f.trunc.Some? ==> f.first.Some? && f.first.value <= f.trunc.value <= |f.chars|)
    && (f.first.Some? ==> f.first.value <= |f.chars|)
    && (|f.aligns| > 0 ==> f.first.Some? && f.first.value <= f.aligns[0])
    && RegionsExist(f.chars, |f.regions|)
  }

  ghost predicate RegionsExist(cells: seq<Cell>, n: nat) {
    forall i | 0 <= i < |cells| && cells[i].click.Some? :: cells[i].click.value < n
  }

  /** A character as it was written: its width and group. */
  datatype Inked = Inked(ch: char, width: nat, group: Group)

  function Ink(text: seq<Glyph>, group: Group, n: nat): seq<Inked>
    requires n <= |text|
  {
    if n == 0 then [] else Ink(text, group, n - 1) + [Inked(text[n - 1].ch, text[n - 1].width, group)]
  }

  /** The glyphs of the first `n` pieces, each with its group. */
  function Written(pieces: seq<Piece>, n: nat): seq<Inked>
    requires n <= |pieces|
  {
    if n == 0 then [] else
      Written(pieces, n - 1) + InkOf(pieces[n - 1])
  }

  function Seen(cells: seq<Cell>, n: nat): seq<Inked>
    requires n <= |cells|
  {
    if n == 0 then [] else Seen(cells, n - 1) + [Inked(cells[n - 1].ch, cells[n - 1].width, cells[n - 1].group)]
  }

  /** Whether one of the first `n` pieces is a fill point. */
  predicate HasAlign(pieces: seq<Piece>, n: nat)
    requires n <= |pieces|
  {
    n > 0 && (pieces[n - 1].Align? || HasAlign(pieces, n - 1))
  }

  /** The walk over the pieces: what is flattened so far, and the region in force. */
  datatype Open = Open(flat: Flat, click: Option<nat>)

  function FlattenStep(o: Open, piece: Piece): Open {
    var f := o.flat;
    match piece
    case Text(text, group) => o.(flat := f.(chars := f.chars + CellsOf(text, group, o.click)))
    case Align => o.(flat := f.(first := OrElse(f.first, |f.chars|), aligns := f.aligns + [|f.chars|]))
    case Truncate => o.(flat := f.(first := OrElse(f.first, |f.chars|), trunc := OrElse(f.trunc, |f.chars|)))
    case ClickStart(action) => Open(f.(regions := f.regions + [action]), Some(|f.regions|))
    case ClickEnd => o.(click := None)
  }

  function FlattenTo(pieces: seq<Piece>, n: nat): Open
    requires n <= |pieces|
  {
    if n == 0 then Open(Flat([], [], None, None, []), None) else FlattenStep(FlattenTo(pieces, n - 1), pieces[n - 1])
  }

  function Flattened(pieces: seq<Piece>): Flat { FlattenTo(pieces, |pieces|).flat }

  method Flatten(pieces: seq<Piece>) returns (f: Flat)
    ensures f == Flattened(pieces)
  {
    var chars: seq<Cell>, aligns: seq<nat>, regions: seq<Action> := [], [], [];
    var trunc: Option<nat>, first: Option<nat>, click: Option<nat> := None, None, None;
    for n := 0 to |pieces|
      invariant Open(Flat(chars, aligns, trunc, first, regions), click) == FlattenTo(pieces, n)
    {
      match pieces[n] {
        case Text(text, group) =>
          chars := chars + CellsOf(text, group, click);
        case Align =>
          first := OrElse(first, |chars|);
          aligns := aligns + [|chars|];
        case Truncate =>
          first := OrElse(first, |chars|);
          trunc := OrElse(trunc, |chars|);
        case ClickStart(action) =>
          regions := regions + [action];
          click := Some(|regions| - 1);
        case ClickEnd =>
          click := None;
      }
    }
    f := Flat(chars, aligns, trunc, first, regions);
  }

  ghost predicate WellOpen(o: Open) {
    WellFormed(o.flat) && (o.click.Some? ==> |o.flat.regions| > 0 && o.click.value == |o.flat.regions| - 1)
  }

  lemma FlattenStepKeepsForm(o: Open, piece: Piece)
    requires WellOpen(o)
    ensures WellOpen(FlattenStep(o, piece))
  {
    if piece.Text? { AppendText(o.flat, piece.text, piece.group, o.click); }
  }

  lemma {:induction false} FlattenToWellFormed(pieces: seq<Piece>, n: nat)
    requires n <= |pieces|
    ensures WellOpen(FlattenTo(pieces, n))
  {
    if n > 0 {
      FlattenToWellFormed(pieces, n - 1);
      FlattenStepKeepsForm(FlattenTo(pieces, n - 1), pieces[n - 1]);
    }
  }

  /** The cells are the pieces' glyphs in order, and there is a fill point exactly where the format has one. */
  lemma FlattenToMeans(pieces: seq<Piece>, n: nat)
    requires n <= |pieces|
    ensures AllSeen(FlattenTo(pieces, n).flat.chars) == Written(pieces, n)
    ensures |FlattenTo(pieces, n).flat.aligns| > 0 <==> HasAlign(pieces, n)
  {
    FlattenToWritten(pieces, n);
    FlattenToAligned(pieces, n);
  }

  lemma {:induction false} FlattenToWritten(pieces: seq<Piece>, n: nat)
    requires n <= |pieces|
    ensures AllSeen(FlattenTo(pieces, n).flat.chars) == Written(pieces, n)
  {
    if n > 0 {
      FlattenToWritten(pieces, n - 1);
      FlattenStepMeans(FlattenTo(pieces, n - 1), pieces[n - 1]);
    }
  }

  lemma {:induction false} FlattenToAligned(pieces: seq<Piece>, n: nat)
    requires n <= |pieces|
    ensures |FlattenTo(pieces, n).flat.aligns| > 0 <==> HasAlign(pieces, n)
  {
    if n > 0 { FlattenToAligned(pieces, n - 1); }
  }

  function InkOf(piece: Piece): seq<Inked> {
    match piece case Text(text, group) => Ink(text, group, |text|) case _ => []
  }

  lemma FlattenStepMeans(o: Open, piece: Piece)
    ensures AllSeen(FlattenStep(o, piece).flat.chars) == AllSeen(o.flat.chars) + InkOf(piece)
    ensures |FlattenStep(o, piece).flat.aligns| > 0 <==> |o.flat.aligns| > 0 || piece.Align?
  {
    if piece.Text? { SeenText(o.flat.chars, piece.text, piece.group, o.click, |piece.text|); }
  }

  function AllSeen(cells: seq<Cell>): seq<Inked> { Seen(cells, |cells|) }

  lemma {:induction false} SeenText(chars: seq<Cell>, text: seq<Glyph>, group: Group, click: Option<nat>, n: nat)
    requires n <= |text|
    ensures Seen(chars + CellsOf(text, group, click), |chars| + n) == AllSeen(chars) + Ink(text, group, n)
  {
    var cells := CellsOf(text, group, click);
    if n == 0 { SeenPrefix(chars, cells, |chars|); } else { SeenText(chars, text, group, click, n - 1); }
  }

  lemma {:induction false} SeenPrefix(chars: seq<Cell>, more: seq<Cell>, n: nat)
    requires n <= |chars|
    ensures Seen(chars + more, n) == Seen(chars, n)
  {
    if n > 0 { SeenPrefix(chars, more, n - 1); }
  }

  lemma AppendText(f: Flat, text: seq<Glyph>, group: Group, click: Option<nat>)
    requires WellFormed(f) && (click.Some? ==> |f.regions| > 0 && click.value == |f.regions| - 1)
    ensures WellFormed(f.(chars := f.chars + CellsOf(text, group, click)))
  {
  }

  // ----- where the markers stand, and whose a cell is -------------------------------------------

  lemma {:induction false} SeenLength(cells: seq<Cell>, n: nat)
    requires n <= |cells|
    ensures |Seen(cells, n)| == n
  {
    if n > 0 { SeenLength(cells, n - 1); }
  }

  /** There are as many cells as glyphs. */
  lemma CellsWritten(pieces: seq<Piece>, n: nat)
    requires n <= |pieces|
    ensures |FlattenTo(pieces, n).flat.chars| == |Written(pieces, n)|
  {
    FlattenToWritten(pieces, n);
    SeenLength(FlattenTo(pieces, n).flat.chars, |FlattenTo(pieces, n).flat.chars|);
  }

  predicate IsTruncate(piece: Piece) { piece.Truncate? }

  predicate IsMarker(piece: Piece) { piece.Align? || piece.Truncate? }

  /** The position is that of the first piece of its kind: as many glyphs as are written before it. */
  ghost predicate FirstAt(pieces: seq<Piece>, n: nat, kind: Piece -> bool, at: Option<nat>)
    requires n <= |pieces|
  {
    match at
    case None => forall k | 0 <= k < n :: !kind(pieces[k])
    case Some(position) =>
      exists k | 0 <= k < n && kind(pieces[k]) && position == |Written(pieces, k)| ::
        forall j | 0 <= j < k :: !kind(pieces[j])
  }

  /** `%<` counts where it first stands, */
  lemma {:induction false} TruncateStandsFirst(pieces: seq<Piece>, n: nat)
    requires n <= |pieces|
    ensures FirstAt(pieces, n, IsTruncate, FlattenTo(pieces, n).flat.trunc)
  {
    if n > 0 {
      TruncateStandsFirst(pieces, n - 1);
      CellsWritten(pieces, n - 1);
      var f := FlattenTo(pieces, n - 1).flat;
      FirstMore(pieces, n, IsTruncate, f.trunc, FlattenTo(pieces, n).flat.trunc);
    }
  }

  /** ... and so does the first of the two markers. */
  lemma {:induction false} MarkerStandsFirst(pieces: seq<Piece>, n: nat)
    requires n <= |pieces|
    ensures FirstAt(pieces, n, IsMarker, FlattenTo(pieces, n).flat.first)
  {
    if n > 0 {
      MarkerStandsFirst(pieces, n - 1);
      CellsWritten(pieces, n - 1);
      var f := FlattenTo(pieces, n - 1).flat;
      FirstMore(pieces, n, IsMarker, f.first, FlattenTo(pieces, n).flat.first);
    }
  }

  lemma FirstMore(pieces: seq<Piece>, n: nat, kind: Piece -> bool, was: Option<nat>, now: Option<nat>)
    requires 0 < n <= |pieces| && FirstAt(pieces, n - 1, kind, was)
    ensures !kind(pieces[n - 1]) && now == was ==> FirstAt(pieces, n, kind, now)
    ensures kind(pieces[n - 1]) && now == OrElse(was, |Written(pieces, n - 1)|) ==> FirstAt(pieces, n, kind, now)
  {
  }

  function AlignsTo(pieces: seq<Piece>, n: nat): nat
    requires n <= |pieces|
  {
    if n == 0 then 0 else AlignsTo(pieces, n - 1) + if pieces[n - 1].Align? then 1 else 0
  }

  lemma {:induction false} AlignsRise(pieces: seq<Piece>, k: nat, n: nat)
    requires k < n <= |pieces| && pieces[k].Align?
    ensures AlignsTo(pieces, k) < AlignsTo(pieces, n)
    decreases n
  {
    if k < n - 1 { AlignsRise(pieces, k, n - 1); }
  }

  /** The fill points are those of the first `n` pieces, each after the glyphs before it. */
  ghost predicate AlignsAre(pieces: seq<Piece>, n: nat, aligns: seq<nat>)
    requires n <= |pieces|
  {
    |aligns| == AlignsTo(pieces, n)
    && forall k | 0 <= k < n && pieces[k].Align? ::
      AlignsTo(pieces, k) < |aligns| && aligns[AlignsTo(pieces, k)] == |Written(pieces, k)|
  }

  lemma AlignsMore(pieces: seq<Piece>, n: nat, was: seq<nat>)
    requires 0 < n <= |pieces| && AlignsAre(pieces, n - 1, was)
    ensures AlignsAre(pieces, n, if pieces[n - 1].Align? then was + [|Written(pieces, n - 1)|] else was)
  {
    forall k | 0 <= k < n && pieces[k].Align? ensures AlignsTo(pieces, k) < AlignsTo(pieces, n) {
      AlignsRise(pieces, k, n);
    }
  }

  /** Every `%=` is a fill point after the glyphs before it, and there are no other fill points. */
  lemma {:induction false} AlignsStand(pieces: seq<Piece>, n: nat)
    requires n <= |pieces|
    ensures AlignsAre(pieces, n, FlattenTo(pieces, n).flat.aligns)
  {
    if n > 0 {
      AlignsStand(pieces, n - 1);
      CellsWritten(pieces, n - 1);
      AlignsMore(pieces, n, FlattenTo(pieces, n - 1).flat.aligns);
    }
  }

  /** The region opened last before a piece, none closed since. */
  ghost predicate Opened(pieces: seq<Piece>, k: nat, action: Action)
    requires k <= |pieces|
  {
    exists m | 0 <= m < k && pieces[m] == ClickStart(action) ::
      forall e | m < e < k :: !pieces[e].ClickStart? && !pieces[e].ClickEnd?
  }

  /** Every region opened before the piece is closed before it. */
  ghost predicate AllClosed(pieces: seq<Piece>, k: nat)
    requires k <= |pieces|
  {
    forall m | 0 <= m < k && pieces[m].ClickStart? :: exists e | m < e < k :: pieces[e].ClickEnd?
  }

  /** The action is that of the region opened last before the piece and not closed, if there is one. */
  ghost predicate InForce(pieces: seq<Piece>, k: nat, click: Option<nat>, regions: seq<Action>)
    requires k <= |pieces|
  {
    match click
    case None => AllClosed(pieces, k)
    case Some(c) => c < |regions| && Opened(pieces, k, regions[c])
  }

  lemma {:induction false} ClickInForce(pieces: seq<Piece>, n: nat)
    requires n <= |pieces|
    ensures InForce(pieces, n, FlattenTo(pieces, n).click, FlattenTo(pieces, n).flat.regions)
  {
    if n > 0 {
      ClickInForce(pieces, n - 1);
      InForceMore(pieces, n, FlattenTo(pieces, n - 1));
    }
  }

  lemma InForceMore(pieces: seq<Piece>, n: nat, o: Open)
    requires 0 < n <= |pieces| && InForce(pieces, n - 1, o.click, o.flat.regions)
    ensures var next := FlattenStep(o, pieces[n - 1]); InForce(pieces, n, next.click, next.flat.regions)
  {
    var (piece, next) := (pieces[n - 1], FlattenStep(o, pieces[n - 1]));
    if piece.ClickStart? {
      assert pieces[n - 1] == ClickStart(next.flat.regions[next.click.value]);
    } else if piece.ClickEnd? {
      assert pieces[n - 1].ClickEnd?;
    } else if o.click.Some? {
      var m :| 0 <= m < n - 1 && pieces[m] == ClickStart(o.flat.regions[o.click.value])
        && forall e | m < e < n - 1 :: !pieces[e].ClickStart? && !pieces[e].ClickEnd?;
      assert forall e | m < e < n :: !pieces[e].ClickStart? && !pieces[e].ClickEnd?;
    } else {
      forall m | 0 <= m < n && pieces[m].ClickStart? ensures exists e | m < e < n :: pieces[e].ClickEnd? {
        var e :| m < e < n - 1 && pieces[e].ClickEnd?;
      }
    }
  }

  /** The cell is one of the piece's glyphs, and carries the action in force at the piece. */
  ghost predicate CarriesAction(pieces: seq<Piece>, k: nat, f: Flat, i: nat)
    requires k < |pieces| && i < |f.chars|
  {
    pieces[k].Text? && |Written(pieces, k)| <= i < |Written(pieces, k + 1)|
    && InForce(pieces, k, f.chars[i].click, f.regions)
  }

  lemma CarriesOn(pieces: seq<Piece>, k: nat, f: Flat, g: Flat, i: nat)
    requires k < |pieces| && i < |f.chars| && CarriesAction(pieces, k, f, i)
    requires i < |g.chars| && g.chars[i] == f.chars[i] && f.regions <= g.regions
    ensures CarriesAction(pieces, k, g, i)
  {
  }

  lemma StepAddsCells(o: Open, piece: Piece)
    ensures var f := FlattenStep(o, piece).flat;
      o.flat.chars <= f.chars && o.flat.regions <= f.regions
      && (|o.flat.chars| < |f.chars| ==> piece.Text?)
      && forall i | |o.flat.chars| <= i < |f.chars| :: f.chars[i].click == o.click
  {
  }

  /** A cell carries the action of the last region opened before its piece, unless that was closed. */
  lemma {:induction false} CellAction(pieces: seq<Piece>, n: nat, i: nat) returns (k: nat)
    requires n <= |pieces| && i < |FlattenTo(pieces, n).flat.chars|
    ensures k < n && CarriesAction(pieces, k, FlattenTo(pieces, n).flat, i)
  {
    var (o, next) := (FlattenTo(pieces, n - 1), FlattenTo(pieces, n));
    StepAddsCells(o, pieces[n - 1]);
    if i < |o.flat.chars| {
      k := CellAction(pieces, n - 1, i);
      CarriesOn(pieces, k, o.flat, next.flat, i);
    } else {
      k := n - 1;
      ClickInForce(pieces, k);
      InForceOn(pieces, k, o.click, o.flat.regions, next.flat.regions);
      CellIsWritten(pieces, n, i);
    }
  }

  lemma CellIsWritten(pieces: seq<Piece>, n: nat, i: nat)
    requires 0 < n <= |pieces|
    ensures |FlattenTo(pieces, n - 1).flat.chars| <= i < |FlattenTo(pieces, n).flat.chars| ==>
      |Written(pieces, n - 1)| <= i < |Written(pieces, n)|
  {
    CellsWritten(pieces, n - 1);
    CellsWritten(pieces, n);
  }

  lemma InForceOn(pieces: seq<Piece>, k: nat, click: Option<nat>, regions: seq<Action>, more: seq<Action>)
    requires k <= |pieces| && InForce(pieces, k, click, regions) && regions <= more
    ensures InForce(pieces, k, click, more)
  {
  }

  // ----- truncation -------------------------------------------------------------------------

  function Marker(ch: char, group: Group): Cell { Cell(ch, 1, group, None) }

  /** The group of the marker at a cut: that of the first cell cut, else of the cell before. */
  function CutGroup(chars: seq<Cell>, cut: nat): Group
    requires cut <= |chars|
  {
    if cut < |chars| then chars[cut].group else if cut > 0 then chars[cut - 1].group else None
  }

  /** The longest front that leaves a cell for the marker, and the marker. */
  ghost predicate KeepsFront(chars: seq<Cell>, width: nat, kept: nat, out: seq<Cell>) {
    kept <= |chars| && Col(chars, kept) + 1 <= width
    && (kept < |chars| ==> Col(chars, kept + 1) + 1 > width)
    && out == chars[..kept] + [Marker('>', if kept < |chars| then chars[kept].group
                                            else if |chars| > 0 then chars[|chars| - 1].group else None)]
  }

  /** The text before the cut, the marker, and the longest tail that then still fits. */
  ghost predicate CutsOut(chars: seq<Cell>, width: nat, cut: nat, end: nat, out: seq<Cell>) {
    cut <= end <= |chars| && Col(chars, cut) + (Width(chars) - Col(chars, end)) + 1 <= width
    && (end > cut ==> Col(chars, cut) + (Width(chars) - Col(chars, end - 1)) + 1 > width)
    && out == chars[..cut] + [Marker('<', if cut < |chars| then chars[cut].group
                                          else if cut > 0 then chars[cut - 1].group else None)] + chars[end..]
  }

  /** Where a line too wide is cut: at the first `%<`, else at the first marker, else at the start. */
  function CutPoint(f: Flat): nat {
    Min(if f.trunc.Some? then f.trunc.value else if f.first.Some? then f.first.value else 0, |f.chars|)
  }

  /** That is where the first `%<` of the pieces stands, or without one the first `%=`, or else the start. */
  lemma CutStands(pieces: seq<Piece>)
    ensures var (n, cut) := (|pieces|, CutPoint(Flattened(pieces)));
      FirstAt(pieces, n, IsTruncate, Some(cut))
      || (FirstAt(pieces, n, IsTruncate, None) && FirstAt(pieces, n, IsMarker, Some(cut)))
      || (FirstAt(pieces, n, IsMarker, None) && cut == 0)
  {
    FlattenToWellFormed(pieces, |pieces|);
    TruncateStandsFirst(pieces, |pieces|);
    MarkerStandsFirst(pieces, |pieces|);
  }

  ghost predicate Truncated(f: Flat, width: nat, at: nat, out: seq<Cell>) {
    if Col(f.chars, CutPoint(f)) >= width then KeepsFront(f.chars, width, at, out)
    else CutsOut(f.chars, width, CutPoint(f), at, out)
  }

  method TruncateCells(f: Flat, width: nat) returns (out: seq<Cell>)
    requires width > 0 && Width(f.chars) > width
    ensures exists at: nat :: Truncated(f, width, at, out)
  {
    var chars := f.chars;
    var start := CutPoint(f);
    var prefix := Col(chars, start);
    if prefix >= width {
      var kept := 0;
      var acc := 0;
      while kept < |chars| && acc + chars[kept].width + 1 <= width
        invariant kept <= |chars| && acc == Col(chars, kept) && acc + 1 <= width
      {
        acc := acc + chars[kept].width;
        kept := kept + 1;
      }
      var group := if kept < |chars| then chars[kept].group else if |chars| > 0 then chars[|chars| - 1].group else None;
      out := chars[..kept] + [Marker('>', group)];
      assert Truncated(f, width, kept, out);
    } else {
      var total := Width(chars);
      var end := start;
      while total >= width && end < |chars|
        invariant start <= end <= |chars| && total == prefix + (Width(chars) - Col(chars, end))
        invariant end > start ==> prefix + (Width(chars) - Col(chars, end - 1)) >= width
        decreases |chars| - end
      {
        total := total - chars[end].width;
        end := end + 1;
      }
      ColRises(chars, end, |chars|);
      out := chars[..start] + [Marker('<', CutGroup(chars, start))] + chars[end..];
      assert Truncated(f, width, end, out);
    }
  }

  /** A truncated line fits. */
  lemma TruncatedFits(f: Flat, width: nat, at: nat, out: seq<Cell>)
    requires Truncated(f, width, at, out)
    ensures Width(out) <= width
  {
    if Col(f.chars, CutPoint(f)) >= width {
      FrontFits(f.chars, width, at, out);
    } else {
      CutFits(f.chars, width, CutPoint(f), at, out);
    }
  }

  lemma WidthAround(a: seq<Cell>, m: Cell, b: seq<Cell>)
    ensures Width(a + [m] + b) == Width(a) + m.width + Width(b)
  {
    ColJoins(a, [m], 1);
    ColJoins(a + [m], b, |b|);
    assert Col([m], 1) == m.width;
  }

  lemma FrontFits(chars: seq<Cell>, width: nat, kept: nat, out: seq<Cell>)
    requires KeepsFront(chars, width, kept, out)
    ensures Width(out) <= width
  {
    WidthSplit(chars, kept);
    WidthAround(chars[..kept], out[kept], []);
    assert out == chars[..kept] + [out[kept]] + [];
  }

  lemma CutFits(chars: seq<Cell>, width: nat, cut: nat, end: nat, out: seq<Cell>)
    requires CutsOut(chars, width, cut, end, out)
    ensures Width(out) <= width
  {
    WidthSplit(chars, cut);
    WidthSplit(chars, end);
    WidthAround(chars[..cut], out[cut], chars[end..]);
  }

  // ----- fill ---------------------------------------------------------------------------------

  /** The fill of each of `n` markers: an even share of the slack, the last taking the remainder. */
  function SharesOf(slack: nat, n: nat): (shares: seq<nat>)
    requires n > 0
    ensures |shares| == n
  {
    LastShare(slack, n);
    seq(n, m => if m == n - 1 then slack - slack / n * (n - 1) else slack / n)
  }

  lemma LastShare(slack: nat, n: nat)
    requires n > 0
    ensures slack / n * (n - 1) <= slack
  {
    assert slack / n * n <= slack;
    assert slack / n * n == slack / n * (n - 1) + slack / n;
  }

  function Spaces(count: nat, group: Group): (cells: seq<Cell>)
    ensures |cells| == count
  {
    seq(count, i => Cell(' ', 1, group, None))
  }

  /** The group of the fill before cell `i`: that of the cell before it. */
  function GroupBefore(chars: seq<Cell>, i: nat): Group
    requires i <= |chars|
  {
    if i > 0 then chars[i - 1].group else None
  }

  /** The cells from `i` on, with the fill of the markers from `m` on. */
  function Fill(chars: seq<Cell>, aligns: seq<nat>, shares: seq<nat>, i: nat, m: nat): seq<Cell>
    requires i <= |chars| && m <= |aligns| == |shares|
    decreases |chars| - i + |aligns| - m
  {
    if m < |aligns| && (i == |chars| || aligns[m] == i)
    then Spaces(shares[m], GroupBefore(chars, i)) + Fill(chars, aligns, shares, i, m + 1)
    else if i < |chars| then [chars[i]] + Fill(chars, aligns, shares, i + 1, m)
    else []
  }

  lemma FillAtMarker(out: seq<Cell>, chars: seq<Cell>, aligns: seq<nat>, shares: seq<nat>, i: nat, m: nat)
    requires i <= |chars| && m < |aligns| == |shares| && (i == |chars| || aligns[m] == i)
    ensures out + Fill(chars, aligns, shares, i, m)
         == out + Spaces(shares[m], GroupBefore(chars, i)) + Fill(chars, aligns, shares, i, m + 1)
  {
  }

  lemma FillAtCell(out: seq<Cell>, chars: seq<Cell>, aligns: seq<nat>, shares: seq<nat>, i: nat, m: nat)
    requires i < |chars| && m <= |aligns| == |shares| && (m < |aligns| ==> aligns[m] != i)
    ensures out + Fill(chars, aligns, shares, i, m) == out + [chars[i]] + Fill(chars, aligns, shares, i + 1, m)
  {
  }

  method DistributeFill(chars: seq<Cell>, aligns: seq<nat>, slack: nat) returns (out: seq<Cell>)
    requires |aligns| > 0
    ensures out == Fill(chars, aligns, SharesOf(slack, |aligns|), 0, 0)
  {
    var shares := SharesOf(slack, |aligns|);
    out := [];
    var next := 0;
    for i := 0 to |chars|
      invariant next <= |aligns| && out + Fill(chars, aligns, shares, i, next) == Fill(chars, aligns, shares, 0, 0)
    {
      while next < |aligns| && aligns[next] == i
        invariant next <= |aligns| && out + Fill(chars, aligns, shares, i, next) == Fill(chars, aligns, shares, 0, 0)
        decreases |aligns| - next
      {
        FillAtMarker(out, chars, aligns, shares, i, next);
        out := out + Spaces(shares[next], GroupBefore(chars, i));
        next := next + 1;
      }
      FillAtCell(out, chars, aligns, shares, i, next);
      out := out + [chars[i]];
    }
    while next < |aligns|
      invariant next <= |aligns|
        && out + Fill(chars, aligns, shares, |chars|, next) == Fill(chars, aligns, shares, 0, 0)
      decreases |aligns| - next
    {
      FillAtMarker(out, chars, aligns, shares, |chars|, next);
      out := out + Spaces(shares[next], GroupBefore(chars, |chars|));
      next := next + 1;
    }
  }

  /** Fill at the markers from `m` up to `r`. */
  function Sum(shares: seq<nat>, m: nat, r: nat): nat
    requires m <= r <= |shares|
    decreases r - m
  {
    if m == r then 0 else shares[m] + Sum(shares, m + 1, r)
  }

  /** The shares come to the slack. */
  lemma SharesAreSlack(slack: nat, n: nat)
    requires n > 0
    ensures Sum(SharesOf(slack, n), 0, n) == slack
  {
    LastShare(slack, n);
    SharesEnd(slack, n, 0);
  }

  lemma {:induction false} SharesEnd(slack: nat, n: nat, m: nat)
    requires m < n
    ensures Sum(SharesOf(slack, n), m, n) == slack / n * (n - 1 - m) + SharesOf(slack, n)[n - 1]
    decreases n - m
  {
    if m == n - 1 {
      assert slack / n * 0 == 0;
    } else {
      SharesEnd(slack, n, m + 1);
      assert slack / n * (n - 1 - m) == slack / n * (n - 2 - m) + slack / n;
    }
  }

  /** No share but the last differs from another, and the last is larger by less than the number of markers. */
  lemma SharesAreEven(slack: nat, n: nat, m: nat)
    requires m < n
    ensures var shares := SharesOf(slack, n); shares[0] <= shares[m] <= shares[0] + if m < n - 1 then 0 else n - 1
  {
    var even := slack / n;
    assert slack == even * n + slack % n;
    assert even * n == even * (n - 1) + even;
    if n == 1 { assert even * 0 == 0; }
  }

  lemma {:induction false} SpacesWidth(count: nat, group: Group, k: nat)
    requires k <= count
    ensures Col(Spaces(count, group), k) == k
  {
    if k > 0 { SpacesWidth(count, group, k - 1); }
  }

  lemma WidthJoins(a: seq<Cell>, b: seq<Cell>)
    ensures Width(a + b) == Width(a) + Width(b)
  {
    ColJoins(a, b, |b|);
  }

  lemma WidthOfOne(c: Cell)
    ensures Width([c]) == c.width
  {
    assert Col([c], 1) == c.width;
  }

  /** Every marker's share is in the fill, whatever the markers' positions. */
  lemma {:induction false} FillWidth(chars: seq<Cell>, aligns: seq<nat>, shares: seq<nat>, i: nat, m: nat)
    requires i <= |chars| && m <= |aligns| == |shares|
    ensures Width(Fill(chars, aligns, shares, i, m)) + Col(chars, i) == Width(chars) + Sum(shares, m, |aligns|)
    ensures |Fill(chars, aligns, shares, i, m)| + i == |chars| + Sum(shares, m, |aligns|)
    decreases |chars| - i + |aligns| - m
  {
    if m < |aligns| && (i == |chars| || aligns[m] == i) {
      FillAtMarker([], chars, aligns, shares, i, m);
      FillWidth(chars, aligns, shares, i, m + 1);
      SpacesWidth(shares[m], GroupBefore(chars, i), shares[m]);
      WidthJoins(Spaces(shares[m], GroupBefore(chars, i)), Fill(chars, aligns, shares, i, m + 1));
    } else if i < |chars| {
      FillWidth(chars, aligns, shares, i + 1, m);
      WidthJoins([chars[i]], Fill(chars, aligns, shares, i + 1, m));
      WidthOfOne(chars[i]);
    }
  }

  /** The markers from `m` to `r` stand at or before cell `j`, at `i` or later, and the others after it. */
  ghost predicate MarkersUpTo(aligns: seq<nat>, i: nat, m: nat, j: nat, r: nat) {
    m <= r <= |aligns| && (forall k | m <= k < r :: i <= aligns[k] <= j)
      && (forall k | r <= k < |aligns| :: aligns[k] > j)
    && forall k, l | m <= k <= l < |aligns| :: aligns[k] <= aligns[l]
  }

  /** Cell `j` lands after the fill of exactly the markers at or before it. */
  lemma {:induction false} FillKeepsCells(chars: seq<Cell>, aligns: seq<nat>, shares: seq<nat>, i: nat, m: nat,
      j: nat, r: nat)
    requires i <= j < |chars| && |aligns| == |shares| && MarkersUpTo(aligns, i, m, j, r)
    ensures var p := j - i + Sum(shares, m, r);
      p < |Fill(chars, aligns, shares, i, m)| && Fill(chars, aligns, shares, i, m)[p] == chars[j]
    decreases |chars| - i + |aligns| - m
  {
    if m < |aligns| && aligns[m] == i {
      FillKeepsCells(chars, aligns, shares, i, m + 1, j, r);
      FillShifts(chars, aligns, shares, i, m, j - i + Sum(shares, m + 1, r));
    } else if i < j {
      FillKeepsCells(chars, aligns, shares, i + 1, m, j, r);
      FillPasses(chars, aligns, shares, i, m, j - i - 1 + Sum(shares, m, r));
    } else {
      NoMarkerHere(aligns, i, m, r);
      FillPassesFirst(chars, aligns, shares, i, m);
    }
  }

  lemma NoMarkerHere(aligns: seq<nat>, i: nat, m: nat, r: nat)
    requires MarkersUpTo(aligns, i, m, i, r) && (m < |aligns| ==> aligns[m] != i)
    ensures m == r
  {
  }

  lemma FillPassesFirst(chars: seq<Cell>, aligns: seq<nat>, shares: seq<nat>, i: nat, m: nat)
    requires i < |chars| && m <= |aligns| == |shares| && (m < |aligns| ==> aligns[m] != i)
    ensures |Fill(chars, aligns, shares, i, m)| > 0 && Fill(chars, aligns, shares, i, m)[0] == chars[i]
  {
  }

  lemma FillPasses(chars: seq<Cell>, aligns: seq<nat>, shares: seq<nat>, i: nat, m: nat, p: nat)
    requires i < |chars| && m <= |aligns| == |shares| && (m < |aligns| ==> aligns[m] != i)
    requires p < |Fill(chars, aligns, shares, i + 1, m)|
    ensures p + 1 < |Fill(chars, aligns, shares, i, m)|
    ensures Fill(chars, aligns, shares, i, m)[p + 1] == Fill(chars, aligns, shares, i + 1, m)[p]
  {
  }

  lemma FillShifts(chars: seq<Cell>, aligns: seq<nat>, shares: seq<nat>, i: nat, m: nat, p: nat)
    requires i <= |chars| && m < |aligns| == |shares| && aligns[m] == i
    requires p < |Fill(chars, aligns, shares, i, m + 1)|
    ensures shares[m] + p < |Fill(chars, aligns, shares, i, m)|
    ensures Fill(chars, aligns, shares, i, m)[shares[m] + p] == Fill(chars, aligns, shares, i, m + 1)[p]
  {
  }

  /** The markers from `m` on stand at `i` or later, in order, and none past the cells. */
  ghost predicate MarkersFrom(aligns: seq<nat>, i: nat, m: nat, n: nat) {
    m <= |aligns| && (forall k | m <= k < |aligns| :: i <= aligns[k] <= n)
      && forall k, l | m <= k <= l < |aligns| :: aligns[k] <= aligns[l]
  }

  /** A marker's fill is blanks of no region, of the group of the cell before the marker. */
  lemma {:induction false} FillIsBlank(chars: seq<Cell>, aligns: seq<nat>, shares: seq<nat>, i: nat, m: nat,
      r: nat, t: nat)
    requires i <= |chars| && |aligns| == |shares| && MarkersFrom(aligns, i, m, |chars|)
    requires m <= r < |aligns| && t < shares[r]
    ensures var p := aligns[r] - i + Sum(shares, m, r) + t;
      p < |Fill(chars, aligns, shares, i, m)|
      && Fill(chars, aligns, shares, i, m)[p]
           == Cell(' ', 1, if aligns[r] > 0 then chars[aligns[r] - 1].group else None, None)
    decreases |chars| - i + |aligns| - m
  {
    if aligns[m] > i {
      FillIsBlank(chars, aligns, shares, i + 1, m, r, t);
      FillPasses(chars, aligns, shares, i, m, aligns[r] - i - 1 + Sum(shares, m, r) + t);
    } else if m < r {
      FillIsBlank(chars, aligns, shares, i, m + 1, r, t);
      FillShifts(chars, aligns, shares, i, m, aligns[r] - i + Sum(shares, m + 1, r) + t);
    } else {
      FillStarts(chars, aligns, shares, i, m, t);
    }
  }

  lemma FillStarts(chars: seq<Cell>, aligns: seq<nat>, shares: seq<nat>, i: nat, m: nat, t: nat)
    requires i <= |chars| && m < |aligns| == |shares| && aligns[m] == i && t < shares[m]
    ensures t < |Fill(chars, aligns, shares, i, m)|
    ensures Fill(chars, aligns, shares, i, m)[t] == Cell(' ', 1, if i > 0 then chars[i - 1].group else None, None)
  {
  }

  // ----- the line -----------------------------------------------------------------------------------

  /** The cells at a width: as they are when it is 0 or met, else truncated, or filled where there is a marker. */
  ghost predicate Resolved(f: Flat, width: nat, out: seq<Cell>) {
    if width == 0 then out == f.chars
    else if Width(f.chars) > width then exists at: nat :: Truncated(f, width, at, out)
    else if Width(f.chars) < width && |f.aligns| > 0
    then out == Fill(f.chars, f.aligns, SharesOf(width - Width(f.chars), |f.aligns|), 0, 0)
    else out == f.chars
  }

  method ResolveChars(f: Flat, width: nat) returns (out: seq<Cell>)
    ensures Resolved(f, width, out)
    ensures width > 0 ==> Width(out) <= width
    ensures 0 < width && Width(f.chars) <= width && |f.aligns| > 0 ==> Width(out) == width
    ensures RegionsExist(f.chars, |f.regions|) ==> RegionsExist(out, |f.regions|)
  {
    var total := Width(f.chars);
    if width == 0 {
      out := f.chars;
    } else if total > width {
      out := TruncateCells(f, width);
      ghost var at: nat :| Truncated(f, width, at, out);
      if RegionsExist(f.chars, |f.regions|) { ResolveKeepsRegions(f, width, at, out, |f.regions|); }
      TruncatedFits(f, width, at, out);
    } else if total < width && |f.aligns| > 0 {
      out := DistributeFill(f.chars, f.aligns, width - total);
      FillWidth(f.chars, f.aligns, SharesOf(width - total, |f.aligns|), 0, 0);
      SharesAreSlack(width - total, |f.aligns|);
      if RegionsExist(f.chars, |f.regions|) {
        FillKeepsRegions(f.chars, f.aligns, SharesOf(width - total, |f.aligns|), 0, 0, |f.regions|);
      }
    } else {
      out := f.chars;
    }
  }

  lemma {:induction false} MarkersSplit(aligns: seq<nat>, j: nat, n: nat) returns (r: nat)
    requires n <= |aligns| && forall k, l | 0 <= k <= l < |aligns| :: aligns[k] <= aligns[l]
    requires forall k | n <= k < |aligns| :: aligns[k] > j
    ensures MarkersUpTo(aligns, 0, 0, j, r)
  {
    if n == 0 || aligns[n - 1] <= j { r := n; } else { r := MarkersSplit(aligns, j, n - 1); }
  }

  /** In a line with room to fill, each cell of the pieces comes after the fill of the markers at or before it. */
  lemma CellLands(pieces: seq<Piece>, width: nat, cells: seq<Cell>, j: nat) returns (r: nat)
    requires Resolved(Flattened(pieces), width, cells) && j < |Flattened(pieces).chars|
    requires Width(Flattened(pieces).chars) < width && HasAlign(pieces, |pieces|)
    ensures var f := Flattened(pieces);
      |f.aligns| > 0 && MarkersUpTo(f.aligns, 0, 0, j, r)
      && var at := j + Sum(SharesOf(width - Width(f.chars), |f.aligns|), 0, r); at < |cells| && cells[at] == f.chars[j]
  {
    var f := Flattened(pieces);
    FlattenToWellFormed(pieces, |pieces|);
    FlattenToMeans(pieces, |pieces|);
    r := MarkersSplit(f.aligns, j, |f.aligns|);
    FillKeepsCells(f.chars, f.aligns, SharesOf(width - Width(f.chars), |f.aligns|), 0, 0, j, r);
  }

  /** No pass makes up a region. */
  lemma {:induction false} FillKeepsRegions(chars: seq<Cell>, aligns: seq<nat>, shares: seq<nat>, i: nat, m: nat,
      n: nat)
    requires i <= |chars| && m <= |aligns| == |shares| && RegionsExist(chars, n)
    ensures RegionsExist(Fill(chars, aligns, shares, i, m), n)
    decreases |chars| - i + |aligns| - m
  {
    if m < |aligns| && (i == |chars| || aligns[m] == i) {
      FillKeepsRegions(chars, aligns, shares, i, m + 1, n);
    } else if i < |chars| {
      FillKeepsRegions(chars, aligns, shares, i + 1, m, n);
    }
  }

  lemma ResolveKeepsRegions(f: Flat, width: nat, at: nat, out: seq<Cell>, n: nat)
    requires RegionsExist(f.chars, n) && Truncated(f, width, at, out)
    ensures RegionsExist(out, n)
  {
  }

  // ----- click regions ----------------------------------------------------------------------------------

  /** A maximal run of cells `[a, b)` of one region. */
  datatype Run = Run(a: nat, b: nat, region: nat)

  datatype ClickRegion = ClickRegion(start: nat, end: nat, action: Action)

  ghost predicate IsRun(cells: seq<Cell>, r: Run) {
    r.a < r.b <= |cells| && (forall i | r.a <= i < r.b :: cells[i].click == Some(r.region))
    && (r.a > 0 ==> cells[r.a - 1].click != Some(r.region)) && (r.b < |cells| ==> cells[r.b].click != Some(r.region))
  }

  /** The runs before cell `n`, in order, and no clickable cell outside them. */
  ghost predicate RunsTo(cells: seq<Cell>, runs: seq<Run>, n: nat)
    requires n <= |cells|
  {
    (forall k | 0 <= k < |runs| :: IsRun(cells, runs[k]) && runs[k].b <= n)
    && (forall k, l | 0 <= k < l < |runs| :: runs[k].b <= runs[l].a)
    && forall i {:trigger InSomeRun(runs, i)} | 0 <= i < n && cells[i].click.Some? :: InSomeRun(runs, i)
  }

  ghost predicate InSomeRun(runs: seq<Run>, i: nat) { exists k | 0 <= k < |runs| :: runs[k].a <= i < runs[k].b }

  ghost predicate RegionsOf(cells: seq<Cell>, runs: seq<Run>, actions: seq<Action>, out: seq<ClickRegion>) {
    |out| == |runs| && forall k | 0 <= k < |runs| :: RegionOf(cells, runs[k], actions, out[k])
  }

  /** The regions of all the maximal runs. */
  ghost predicate Clicks(cells: seq<Cell>, actions: seq<Action>, out: seq<ClickRegion>) {
    exists runs :: RunsTo(cells, runs, |cells|) && RegionsOf(cells, runs, actions, out)
  }

  ghost predicate RegionOf(cells: seq<Cell>, r: Run, actions: seq<Action>, c: ClickRegion) {
    r.a <= r.b <= |cells| && r.region < |actions|
      && c == ClickRegion(Col(cells, r.a), Col(cells, r.b), actions[r.region])
  }

  /** A run the walk has not closed yet: its region and its first column. */
  datatype OpenRun = OpenRun(region: nat, start: nat)

  ghost predicate Closed(cells: seq<Cell>, actions: seq<Action>, runs: seq<Run>, out: seq<ClickRegion>, n: nat) {
    n <= |cells| && RunsTo(cells, runs, n) && RegionsOf(cells, runs, actions, out)
  }

  /** The open run reaches from cell `from` to `n`; without one the walk has closed all runs before `n`. */
  ghost predicate Reaching(cells: seq<Cell>, open: Option<OpenRun>, from: nat, n: nat) {
    from <= n <= |cells|
    && match open
       case None => from == n && (n > 0 ==> cells[n - 1].click.None?)
       case Some(o) => from < n && o.start == Col(cells, from)
                       && (forall i | from <= i < n :: cells[i].click == Some(o.region))
                       && (from > 0 ==> cells[from - 1].click != Some(o.region))
  }

  method CollectClicks(cells: seq<Cell>, actions: seq<Action>) returns (out: seq<ClickRegion>)
    requires RegionsExist(cells, |actions|)
    ensures Clicks(cells, actions, out)
  {
    out := [];
    ghost var runs: seq<Run> := [];
    var col: nat := 0;
    var open: Option<OpenRun> := None;
    ghost var from: nat := 0;
    for i := 0 to |cells|
      invariant col == Col(cells, i) && Closed(cells, actions, runs, out, from) && Reaching(cells, open, from, i)
    {
      out, open, runs, from := MeetCell(cells, actions, runs, out, open, from, i, col);
      col := col + cells[i].width;
    }
    if open.Some? {
      out, runs := CloseRun(cells, actions, runs, out, open.value, from, |cells|, col);
    }
  }

  /** Continues the open run, or closes it and opens the cell's own. */
  method MeetCell(cells: seq<Cell>, actions: seq<Action>, ghost runs: seq<Run>, out: seq<ClickRegion>,
      open: Option<OpenRun>, ghost from: nat, i: nat, col: nat)
    returns (out': seq<ClickRegion>, open': Option<OpenRun>, ghost runs': seq<Run>, ghost from': nat)
    requires RegionsExist(cells, |actions|) && i < |cells| && col == Col(cells, i)
    requires Closed(cells, actions, runs, out, from) && Reaching(cells, open, from, i)
    ensures Closed(cells, actions, runs', out', from') && Reaching(cells, open', from', i + 1)
  {
    out', open', runs', from' := out, open, runs, from;
    var click := cells[i].click;
    if open.Some? && click == Some(open.value.region) { return; }
    if open.Some? {
      out', runs' := CloseRun(cells, actions, runs, out, open.value, from, i, col);
    }
    if click.Some? {
      open', from' := Some(OpenRun(click.value, col)), i;
    } else {
      BareCell(cells, actions, runs', out', i);
      open', from' := None, i + 1;
    }
  }

  lemma BareCell(cells: seq<Cell>, actions: seq<Action>, runs: seq<Run>, out: seq<ClickRegion>, n: nat)
    requires Closed(cells, actions, runs, out, n) && n < |cells| && cells[n].click.None?
    ensures Closed(cells, actions, runs, out, n + 1)
  {
  }

  method CloseRun(cells: seq<Cell>, actions: seq<Action>, ghost runs: seq<Run>, out: seq<ClickRegion>, o: OpenRun,
      ghost from: nat, ghost n: nat, col: nat)
    returns (out': seq<ClickRegion>, ghost runs': seq<Run>)
    requires RegionsExist(cells, |actions|) && Closed(cells, actions, runs, out, from)
      && Reaching(cells, Some(o), from, n)
    requires col == Col(cells, n) && (n < |cells| ==> cells[n].click != Some(o.region))
    ensures Closed(cells, actions, runs', out', n)
  {
    assert cells[from].click == Some(o.region);
    out' := out + [ClickRegion(o.start, col, actions[o.region])];
    runs' := runs + [Run(from, n, o.region)];
    RunAppended(cells, runs, Run(from, n, o.region));
  }

  lemma RunAppended(cells: seq<Cell>, runs: seq<Run>, r: Run)
    requires IsRun(cells, r) && RunsTo(cells, runs, r.a)
    ensures RunsTo(cells, runs + [r], r.b)
  {
    var all := runs + [r];
    forall i | 0 <= i < r.b && cells[i].click.Some? ensures InSomeRun(all, i) {
      if i < r.a {
        assert InSomeRun(runs, i);
        var k :| 0 <= k < |runs| && runs[k].a <= i < runs[k].b;
        assert all[k] == runs[k];
      } else {
        assert all[|runs|] == r;
      }
    }
  }

  predicate Covers(c: ClickRegion, col: nat) { c.start <= col < c.end }

  /** A run's region covers the columns of its own cells only. */
  lemma RunCovers(cells: seq<Cell>, r: Run, actions: seq<Action>, c: ClickRegion, i: nat, col: nat)
    requires IsRun(cells, r) && RegionOf(cells, r, actions, c) && i < |cells|
      && Col(cells, i) <= col < Col(cells, i + 1)
    ensures Covers(c, col) <==> r.a <= i < r.b
  {
    if i < r.a { ColRises(cells, i + 1, r.a); }
    else if r.b <= i { ColRises(cells, r.b, i); }
    else { ColRises(cells, r.a, i); ColRises(cells, i + 1, r.b); }
  }

  /** A region over a column has the action of the column's cell. */
  lemma RegionAtColumn(cells: seq<Cell>, actions: seq<Action>, out: seq<ClickRegion>, i: nat, col: nat, k: nat)
    requires Clicks(cells, actions, out) && k < |out|
    requires i < |cells| && Col(cells, i) <= col < Col(cells, i + 1) && Covers(out[k], col)
    ensures cells[i].click.Some? && cells[i].click.value < |actions| && out[k].action == actions[cells[i].click.value]
  {
    var runs: seq<Run> :| RunsTo(cells, runs, |cells|) && RegionsOf(cells, runs, actions, out);
    assert RegionOf(cells, runs[k], actions, out[k]) && IsRun(cells, runs[k]);
    RunCovers(cells, runs[k], actions, out[k], i, col);
  }

  /** The columns of a clickable cell are under a region. */
  lemma CellHasRegion(cells: seq<Cell>, actions: seq<Action>, out: seq<ClickRegion>, i: nat, col: nat) returns (k: nat)
    requires Clicks(cells, actions, out)
    requires i < |cells| && Col(cells, i) <= col < Col(cells, i + 1) && cells[i].click.Some?
    ensures k < |out| && Covers(out[k], col)
  {
    var runs: seq<Run> :| RunsTo(cells, runs, |cells|) && RegionsOf(cells, runs, actions, out);
    assert InSomeRun(runs, i);
    k :| 0 <= k < |runs| && runs[k].a <= i < runs[k].b;
    assert RegionOf(cells, runs[k], actions, out[k]) && IsRun(cells, runs[k]);
    RunCovers(cells, runs[k], actions, out[k], i, col);
  }

  /** Regions come in order and do not overlap. */
  lemma RegionsDisjoint(cells: seq<Cell>, actions: seq<Action>, out: seq<ClickRegion>, k: nat, l: nat)
    requires Clicks(cells, actions, out) && k < l < |out|
    ensures out[k].start <= out[k].end <= out[l].start <= out[l].end <= Width(cells)
  {
    var runs: seq<Run> :| RunsTo(cells, runs, |cells|) && RegionsOf(cells, runs, actions, out);
    var (r, q) := (runs[k], runs[l]);
    assert RegionOf(cells, r, actions, out[k]) && RegionOf(cells, q, actions, out[l]);
    assert IsRun(cells, r) && IsRun(cells, q);
    ColRises(cells, r.a, r.b);
    ColRises(cells, r.b, q.a);
    ColRises(cells, q.a, q.b);
    ColRises(cells, q.b, |cells|);
  }

  // ----- painted segments ----------------------------------------------------------------------------------

  datatype Segment = Segment(text: seq<char>, group: Group)

  /** A character as it is painted. */
  datatype Paint = Paint(ch: char, group: Group)

  function PaintText(text: seq<char>, group: Group): seq<Paint> {
    if text == [] then [] else PaintText(text[..|text| - 1], group) + [Paint(text[|text| - 1], group)]
  }

  /** What the first `n` segments paint. */
  function Painted(segments: seq<Segment>, n: nat): seq<Paint>
    requires n <= |segments|
  {
    if n == 0 then [] else Painted(segments, n - 1) + PaintText(segments[n - 1].text, segments[n - 1].group)
  }

  lemma {:induction false} PaintedPrefix(segments: seq<Segment>, more: seq<Segment>, n: nat)
    requires n <= |segments|
    ensures Painted(segments + more, n) == Painted(segments, n)
  {
    if n > 0 { PaintedPrefix(segments, more, n - 1); }
  }

  /** No segment is empty, and neighbours differ in group. */
  ghost predicate Separate(segments: seq<Segment>) {
    segments == []
    || (var n := |segments| - 1;
        segments[n].text != [] && Separate(segments[..n]) && (n > 0 ==> segments[n - 1].group != segments[n].group))
  }

  function PaintOf(cells: seq<Cell>, n: nat): seq<Paint>
    requires n <= |cells|
  {
    if n == 0 then [] else PaintOf(cells, n - 1) + [Paint(cells[n - 1].ch, cells[n - 1].group)]
  }

  method Coalesce(cells: seq<Cell>) returns (segments: seq<Segment>)
    ensures Painted(segments, |segments|) == PaintOf(cells, |cells|) && Separate(segments)
  {
    segments := [];
    for i := 0 to |cells|
      invariant Painted(segments, |segments|) == PaintOf(cells, i) && Separate(segments)
    {
      var c := cells[i];
      var n := |segments|;
      if n > 0 && segments[n - 1].group == c.group {
        PaintGrows(segments, c.ch);
        segments := segments[..n - 1] + [segments[n - 1].(text := segments[n - 1].text + [c.ch])];
      } else {
        PaintStarts(segments, c);
        segments := segments + [Segment([c.ch], c.group)];
      }
    }
  }

  lemma {:induction false} PaintGrows(segments: seq<Segment>, ch: char)
    requires |segments| > 0 && Separate(segments)
    ensures var last := segments[|segments| - 1];
      var grown := segments[..|segments| - 1] + [last.(text := last.text + [ch])];
      Painted(grown, |grown|) == Painted(segments, |segments|) + [Paint(ch, last.group)] && Separate(grown)
  {
    var n := |segments| - 1;
    var last := segments[n];
    var text := last.text + [ch];
    var front := segments[..n];
    var grown := front + [last.(text := text)];
    assert grown[..n] == front && text[..|last.text|] == last.text && segments == front + [last];
    PaintedPrefix(front, [last], n);
    PaintedPrefix(front, [last.(text := text)], n);
  }

  lemma {:induction false} PaintStarts(segments: seq<Segment>, c: Cell)
    requires Separate(segments) && (|segments| > 0 ==> segments[|segments| - 1].group != c.group)
    ensures var more := segments + [Segment([c.ch], c.group)];
      Painted(more, |more|) == Painted(segments, |segments|) + [Paint(c.ch, c.group)] && Separate(more)
  {
    assert (segments + [Segment([c.ch], c.group)])[..|segments|] == segments;
    PaintedPrefix(segments, [Segment([c.ch], c.group)], |segments|);
    assert PaintText([c.ch], c.group) == [Paint(c.ch, c.group)];
  }

  // ----- the whole pass -------------------------------------------------------------------------------------

  /**
   * The painted line and its click regions: the pieces' cells truncated or filled, never
   * wider than asked, exactly as wide when there is a fill point and they fit, and clickable
   * where the surviving cells are.
   */
  method LayoutWithClicks(pieces: seq<Piece>, width: nat)
    returns (segments: seq<Segment>, clicks: seq<ClickRegion>, ghost cells: seq<Cell>)
    ensures Painted(segments, |segments|) == PaintOf(cells, |cells|) && Separate(segments)
    ensures Resolved(Flattened(pieces), width, cells)
    ensures width > 0 ==> Width(cells) <= width
    ensures width > 0 && HasAlign(pieces, |pieces|) && Width(Flattened(pieces).chars) <= width ==> Width(cells) == width
    ensures Clicks(cells, Flattened(pieces).regions, clicks)
  {
    FlattenToWellFormed(pieces, |pieces|);
    FlattenToMeans(pieces, |pieces|);
    var flat := Flatten(pieces);
    var chars := ResolveChars(flat, width);
    clicks := CollectClicks(chars, flat.regions);
    segments := Coalesce(chars);
    cells := chars;
  }
}
