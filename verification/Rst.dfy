/**
 * The recursive block parser of reStructuredText, with the renderer as the list of calls
 * made on it. Every construct moves on, every recursive call gets fewer characters, and
 * the calls nest: what a construct opens on the renderer it closes. Dedenting cuts by
 * bytes, so the parser crashes where a cut falls inside a character.
 */
module Rst {
  import opened Wrappers
  import opened Sealed
  import opened Utf8
  import opened RstLines
  import opened RstText
  import RstInline
  import opened RstFields

  /** A call on the renderer. */
  datatype Event =
    | QuotePush | QuotePop
    | ListPush(first: Option<nat>) | ListItem | NoGap | ListPop
    | Open(group: Group) | Close(group: Group)
    | BlockGap | EndBlock | Newline | Rule
    | Write(text: string) | Inline(text: string)
    | Code(lang: Option<string>, text: string) | Verbatim(lines: seq<string>)
    | Fields(fields: seq<Field>)

  datatype Group = Strong | Heading(level: nat)

  /** What the renderer has open. */
  datatype Frame = InQuote | InList | InGroup(group: Group)

  datatype Stack = Empty | Push(top: Frame, below: Stack)

  ghost predicate OnTop(s: Stack, f: Frame) { s.Push? && s.top == f }

  /** Whether the call makes sense with this open: pops match their push, items are in a list. */
  ghost predicate Fits(e: Event, s: Stack) {
    match e
    case QuotePop => OnTop(s, InQuote)
    case ListItem => OnTop(s, InList)
    case NoGap => OnTop(s, InList)
    case ListPop => OnTop(s, InList)
    case Close(g) => OnTop(s, InGroup(g))
    case _ => true
  }

  ghost function Then(e: Event, s: Stack): Stack
    requires Fits(e, s)
  {
    match e
    case QuotePush => Push(InQuote, s)
    case ListPush(_) => Push(InList, s)
    case Open(g) => Push(InGroup(g), s)
    case QuotePop => s.below
    case ListPop => s.below
    case Close(_) => s.below
    case _ => s
  }

  /** What is open after the calls, or None if one of them did not fit. */
  ghost function OpenAfter(events: seq<Event>): Option<Stack> {
    if events == [] then Some(Empty) else
      var (before, last) := (OpenAfter(events[..|events| - 1]), events[|events| - 1]);
      if before.Some? && Fits(last, before.value) then Some(Then(last, before.value)) else None
  }

  /** The calls so far all fitted, and leave this open. */
  ghost predicate Nested(events: seq<Event>, open: Stack) {
    forall n: nat {:trigger Unseal(n)} | Unseal(n) :: OpenAfter(events) == Some(open)
  }

  lemma NestedOn(events: seq<Event>, open: Stack, e: Event)
    requires Nested(events, open) && Fits(e, open)
    ensures Nested(events + [e], Then(e, open))
  {
    assert Unseal(0);
    assert (events + [e])[..|events|] == events;
  }

  /** An adornment and whether it is drawn over the title too. */
  datatype Level = Level(overlined: bool, adornment: char)

  function IndexOf(levels: seq<Level>, level: Level, i: nat): (r: nat)
    requires i <= |levels|
    ensures i <= r <= |levels| && (r < |levels| ==> levels[r] == level) && forall k | i <= k < r :: levels[k] != level
    decreases |levels| - i
  {
    if i == |levels| || levels[i] == level then i else IndexOf(levels, level, i + 1)
  }

  /** Levels are only added: every adornment keeps the level it has. */
  ghost predicate Kept(before: seq<Level>, after: seq<Level>) {
    |before| <= |after| && forall i | 0 <= i < |before| :: after[i] == before[i]
  }

  /** An adornment that has a level has the same one in every later state. */
  lemma {:induction false} LevelIsStable(before: seq<Level>, after: seq<Level>, level: Level, i: nat)
    requires Kept(before, after) && i <= |before| && IndexOf(before, level, i) < |before|
    ensures IndexOf(after, level, i) == IndexOf(before, level, i)
    decreases |before| - i
  {
    if before[i] != level { LevelIsStable(before, after, level, i + 1); }
  }

  ghost predicate Distinct(levels: seq<Level>) {
    forall i, j | 0 <= i < j < |levels| :: levels[i] != levels[j]
  }

  /** The directives labelled with their capitalized name. */
  predicate IsAdmonition(name: string) {
    name in {"attention", "caution", "danger", "error", "hint", "important", "note", "tip", "warning", "admonition",
             "deprecated", "seealso", "versionadded", "versionchanged"}
  }

  /** The directives whose body is code, in the language their argument names. */
  predicate IsCode(name: string) { name in {"code", "code-block", "sourcecode", "highlight"} }

  function UpperChar(c: char): char { if 'a' <= c <= 'z' then (c as int - 32) as char else c }

  function TitleCase(name: string): string { if name == "" then "" else [UpperChar(name[0])] + name[1..] }

  /** The label of a directive's lowered name. */
  function LabelOf(name: string): string { if IsAdmonition(name) then TitleCase(name) else name }

  const HEADING_LEVELS: nat := 6

  // ----- text of the constructs -----------------------------------------------------------

  /** A code directive's body without its options and the blank lines after them. */
  function SkipOptions(lines: seq<string>): seq<string>
    decreases |lines|
  {
    if lines != [] && StartsWith(TrimStart(lines[0]), ":") then SkipOptions(lines[1..]) else SkipBlank(lines)
  }

  function SkipBlank(lines: seq<string>): seq<string>
    decreases |lines|
  {
    if lines != [] && IsBlank(lines[0]) then SkipBlank(lines[1..]) else lines
  }

  function WordEnd(s: string, i: nat): (r: nat)
    requires i <= |s|
    ensures i <= r <= |s|
    decreases |s| - i
  {
    if i < |s| && !IsSpace(s[i]) then WordEnd(s, i + 1) else i
  }

  function FirstWord(s: string): Option<string> {
    var t := TrimStart(s);
    if t == "" then None else Some(t[..WordEnd(t, 0)])
  }

  predicate StartsConstruct(line: string) {
    FieldHead(line).Some? || ListMarker(line).Some? || StripLineBlock(line).Some?
    || StartsWith(TrimStart(line), ">>>") || StartsWith(TrimStart(line), ".. ") || AdornmentChar(line).Some?
  }

  predicate RuleLine(line: string) {
    AdornmentChar(line).Some? && |Trim(line)| >= 4 && AdornmentChar(line) != Some(':')
  }

  /** A line with another indented directly under it, unless it introduces a literal block. */
  predicate TermLine(lines: seq<string>, i: nat)
    requires i < |lines|
  {
    !EndsWith(TrimEnd(lines[i]), "::") && i + 1 < |lines| && IndentOf(lines[i + 1]) > IndentOf(lines[i])
      && !IsBlank(lines[i + 1])
  }

  datatype Title = Title(text: string, level: Level, next: nat)

  /** A title under a run of one adornment at least as long, or between two of the same. */
  function SectionAt(lines: seq<string>, i: nat): (r: Option<Title>)
    requires i < |lines|
    ensures r.Some? ==> i < r.value.next <= |lines| && r.value.text != ""
  {
    var over := AdornmentChar(lines[i]);
    if over.Some? then
      if i + 2 >= |lines| || AdornmentChar(lines[i + 2]) != over || Trim(lines[i + 1]) == "" then None
      else Some(Title(Trim(lines[i + 1]), Level(true, over.value), i + 3))
    else if i + 1 >= |lines| then None
    else
      var (under, title) := (AdornmentChar(lines[i + 1]), Trim(lines[i]));
      if under.None? || |Trim(lines[i + 1])| < |title| || title == "" then None
      else Some(Title(title, Level(false, under.value), i + 2))
  }

  /** The title is no longer than any line of adornment drawn with it. */
  predicate TitleFits(lines: seq<string>, i: nat)
    requires i < |lines| && SectionAt(lines, i).Some?
  {
    var title := SectionAt(lines, i).value;
    |title.text| <= |Trim(lines[title.next - 1])| && (title.level.overlined ==> |title.text| <= |Trim(lines[i])|)
  }

  /** An accepted title fits its adornment exactly when it is not overlined, or fits both its lines. */
  lemma OnlyUnderlinesAreMeasured(lines: seq<string>, i: nat)
    requires i < |lines| && SectionAt(lines, i).Some?
    ensures TitleFits(lines, i) <==>
      AdornmentChar(lines[i]).None?
      || (|Trim(lines[i + 1])| <= |Trim(lines[i])| && |Trim(lines[i + 1])| <= |Trim(lines[i + 2])|)
  {
  }

  /** A title of three letters between two adornments of two. */
  lemma LongTitleAccepted()
    ensures var lines := ["==", "abc", "=="]; SectionAt(lines, 0).Some? && !TitleFits(lines, 0)
  {
    assert Trim("==") == "==" && Trim("abc") == "abc";
  }

  // ----- the recursion gets smaller ---------------------------------------------------------

  /** A run of indented lines loses a character from each of them when dedented. */
  lemma IndentedShrinks(run: seq<string>, base: nat, d: seq<string>)
    requires run != [] && !IsBlank(run[0]) && (forall k | 0 <= k < |run| :: Deeper(run[k], base))
      && Dedent(run) == Some(d)
    ensures Chars(d) < Chars(run)
  {
    LeastIndentMeans(run, |run|);
    var j :| 0 <= j < |run| && !IsBlank(run[j]) && IndentOf(run[j]) == BaseIndent(run);
    assert Deeper(run[j], base);
    DedentShrinks(run, BaseIndent(run), d, |run|);
  }

  lemma RunStarts(lines: seq<string>, i: nat, end: nat, base: nat)
    requires i < |lines| && !IsBlank(lines[i]) && IndentOf(lines[i]) > base && IndentedRunIs(lines, i, base, end)
    ensures i < end
  {
    var stop :| end <= stop <= |lines| && StopsAt(lines, end, base, stop);
    assert Deeper(lines[i], base);
  }

  /** A quote: its first line is indented, and dedenting it takes at least one character. */
  lemma QuoteIsSmaller(lines: seq<string>, i: nat, end: nat, base: nat, d: seq<string>)
    requires i < end <= |lines| && !IsBlank(lines[i]) && IndentedRunIs(lines, i, base, end)
      && Dedent(lines[i..end]) == Some(d)
    ensures Chars(d) < Chars(lines)
  {
    CharsOfRun(lines, i, end);
    var run := lines[i..end];
    forall k | 0 <= k < |run| ensures Deeper(run[k], base) {
      assert Deeper(lines[i + k], base);
    }
    IndentedShrinks(run, base, d);
  }

  /** A body after a line that is not empty: dedented, it is smaller by that line at least. */
  lemma BodyIsSmaller(lines: seq<string>, i: nat, end: nat, d: seq<string>)
    requires i < end <= |lines| && |lines[i]| > 0 && Dedent(lines[i + 1..end]) == Some(d)
    ensures Chars(d) < Chars(lines)
  {
    var body := lines[i + 1..end];
    CharsOfRun(lines, i, end);
    DedentShrinks(body, BaseIndent(body), d, |body|);
  }

  /** The lines of a list item, its marker taken off the first, before they are dedented. */
  function ItemLines(lines: seq<string>, i: nat, end: nat): seq<string>
    requires i < end <= |lines| && ListMarker(lines[i]).Some?
  {
    [lines[i][ListMarker(lines[i]).value..]] + lines[i + 1..end]
  }

  /** What an item's lines are dedented by: the bytes before the text of the first. */
  function ItemCut(line: string): nat
    requires ListMarker(line).Some?
  {
    BytesTo(line, ListMarker(line).value)
  }

  /** A list item: its first line loses its marker. */
  lemma ItemIsSmaller(lines: seq<string>, i: nat, end: nat, d: seq<string>)
    requires i < end <= |lines| && ListMarker(lines[i]).Some?
    requires DedentBy(ItemLines(lines, i, end), ItemCut(lines[i])) == Some(d)
    ensures Chars(d) < Chars(lines)
  {
    var item := ItemLines(lines, i, end);
    CharsOfRun(lines, i, end);
    CharsAfterFirst(item, item[0], lines[i + 1..end]);
    DedentShrinks(item, ItemCut(lines[i]), d, |item|);
  }

  // ----- where the parser crashes -------------------------------------------------------------

  lemma PlainPart(lines: seq<string>, i: nat, end: nat)
    requires Plain(lines) && i <= end <= |lines|
    ensures Plain(lines[i..end])
  {
    forall k | 0 <= k < end - i ensures PlainLine(lines[i..end][k]) {
      assert lines[i..end][k] == lines[i + k];
    }
  }

  /** The parts of plain lines that a construct dedents are plain, so none of them crashes. */
  lemma PlainRun(lines: seq<string>, i: nat, end: nat)
    requires Plain(lines) && i <= end <= |lines|
    ensures Dedent(lines[i..end]).Some? && Plain(Dedent(lines[i..end]).value)
  {
    PlainPart(lines, i, end);
    PlainDedents(lines[i..end], BaseIndent(lines[i..end]));
  }

  lemma PlainItem(lines: seq<string>, i: nat, end: nat)
    requires Plain(lines) && i < end <= |lines| && ListMarker(lines[i]).Some?
    ensures DedentBy(ItemLines(lines, i, end), ItemCut(lines[i])).Some?
    ensures Plain(DedentBy(ItemLines(lines, i, end), ItemCut(lines[i])).value)
  {
    var start := ListMarker(lines[i]).value;
    PlainPart(lines, i + 1, end);
    ItemStartsWithText(lines[i]);
    PlainDedents(ItemLines(lines, i, end), ItemCut(lines[i]));
  }

  lemma ItemStartsWithText(line: string)
    requires ListMarker(line).Some?
    ensures Lead(line[ListMarker(line).value..]) == 0
  {
    var text := line[ListMarker(line).value..];
    assert text != "" ==> !IsSpace(text[0]);
  }

  predicate DirectiveLine(line: string) {
    var t := TrimStart(line);
    StartsWith(t, "..") && (|t| == 2 || t[2] == ' ')
  }

  /** The first item of a list has a line whose cut falls inside a character. */
  ghost predicate ItemCrashes(lines: seq<string>, i: nat)
    requires i < |lines| && ListMarker(lines[i]).Some?
  {
    exists end: nat | i < end <= |lines| && IndentedRunIs(lines, i + 1, IndentOf(lines[i]), end) ::
      DedentBy(ItemLines(lines, i, end), ItemCut(lines[i])).None?
  }

  lemma ItemHolds(lines: seq<string>, i: nat, end: nat)
    requires i < end <= |lines| && ListMarker(lines[i]).Some? && IndentedRunIs(lines, i + 1, IndentOf(lines[i]), end)
    requires DedentBy(ItemLines(lines, i, end), ItemCut(lines[i])).Some?
    ensures !ItemCrashes(lines, i)
  {
    if ItemCrashes(lines, i) {
      var other: nat :| i < other <= |lines| && IndentedRunIs(lines, i + 1, IndentOf(lines[i]), other)
        && DedentBy(ItemLines(lines, i, other), ItemCut(lines[i])).None?;
      RunEndsOnce(lines, i + 1, IndentOf(lines[i]), end, other);
    }
  }

  /** The document starts with such a list. */
  ghost predicate StartsWithCrash(lines: seq<string>) {
    |lines| > 0 && !IsBlank(lines[0]) && IndentOf(lines[0]) <= BaseIndent(lines) && !DirectiveLine(lines[0])
    && FieldHead(lines[0]).None? && ListMarker(lines[0]).Some? && ItemCrashes(lines, 0)
  }

  /** An item whose second line is indented by one ideographic space, three bytes of white space. */
  function WideIndent(): seq<string> { ["- a", "\U{3000}b"] }

  /** The first line is an item at the margin whose text starts at byte 2. */
  ghost predicate ItemAtTwo(line: string) {
    !IsBlank(line) && IndentOf(line) == 0 && !DirectiveLine(line) && FieldHead(line).None?
    && ListMarker(line) == Some(2) && BytesTo(line, 2) == 2
  }

  lemma DashIsItem()
    ensures ItemAtTwo("- a")
  {
    assert TrimStart("- a") == "- a" && Lead("- a") == 0;
    assert TextStart("- a", 1) == 2;
  }

  lemma WideLead()
    ensures var line := "\U{3000}b"; !IsBlank(line) && Lead(line) == 1 && IndentOf(line) == 3
  {
  }

  /** Under such an item a line whose only leading white space is one character of three bytes is cut inside it. */
  lemma CutInsideCrashes(lines: seq<string>)
    requires |lines| == 2 && ItemAtTwo(lines[0]) && !IsBlank(lines[1]) && Lead(lines[1]) == 1 && IndentOf(lines[1]) == 3
    ensures StartsWithCrash(lines)
  {
    assert StopsAt(lines, 2, 0, 2);
    assert IndentedRunIs(lines, 1, 0, 2);
    var item := ItemLines(lines, 0, 2);
    assert item[1] == lines[1];
    WideLineIsCut(lines[1]);
    assert DedentLine(item[1], 2).None?;
    LeastIndentMeans(lines, 2);
  }

  lemma WideLineIsCut(line: string)
    requires Lead(line) == 1 && IndentOf(line) == 3
    ensures DedentLine(line, 2).None?
  {
    assert BytesTo(line, 0) == 0;
  }

  lemma WideIndentCrashes()
    ensures StartsWithCrash(WideIndent())
  {
    DashIsItem();
    WideLead();
    CutInsideCrashes(WideIndent());
  }

  // ----- what is handed over -----------------------------------------------------------------------

  /** The letters a call hands over: to inline markup, to the folding of fields, or to be written as they are. */
  function Handed(e: Event): string {
    match e
    case Write(text) => Letters(text)
    case Inline(text) => Letters(text)
    case Code(_, text) => Letters(text)
    case Verbatim(lines) => LettersIn(lines, 0, |lines|)
    case Fields(fields) => FieldLetters(fields, |fields|)
    case _ => ""
  }

  /** The letters the calls hand over, in order. */
  function AllHanded(events: seq<Event>): string {
    if events == [] then "" else AllHanded(events[..|events| - 1]) + Handed(events[|events| - 1])
  }

  lemma AllHandedMore(events: seq<Event>, e: Event)
    ensures AllHanded(events + [e]) == AllHanded(events) + Handed(e)
  {
    assert (events + [e])[..|events|] == events;
  }

  /** The calls made since `before` hand over exactly these letters. */
  ghost predicate HandsOver(before: seq<Event>, after: seq<Event>, letters: string) {
    forall n: nat {:trigger Unseal(n)} | Unseal(n) :: AllHanded(after) == AllHanded(before) + letters
  }

  lemma HandsOverIs(before: seq<Event>, after: seq<Event>, letters: string)
    ensures HandsOver(before, after, letters) <==> AllHanded(after) == AllHanded(before) + letters
  {
    assert Unseal(0);
  }

  /** The calls made since `before` hand over exactly the letters of the lines from `i` to `j`. */
  ghost predicate Hands(before: seq<Event>, after: seq<Event>, lines: seq<string>, i: nat, j: nat) {
    forall n: nat {:trigger Unseal(n)} | Unseal(n) ::
      i <= j <= |lines| && HandsOver(before, after, LettersIn(lines, i, j))
  }

  lemma HandsIs(before: seq<Event>, after: seq<Event>, lines: seq<string>, i: nat, j: nat)
    requires i <= j <= |lines|
    ensures Hands(before, after, lines, i, j) <==> HandsOver(before, after, LettersIn(lines, i, j))
  {
    assert Unseal(0);
  }

  lemma HandsOverNothing(events: seq<Event>)
    ensures HandsOver(events, events, "")
  {
    HandsOverIs(events, events, "");
  }

  lemma HandsOverMore(before: seq<Event>, after: seq<Event>, letters: string, e: Event, all: string)
    requires HandsOver(before, after, letters) && letters + Handed(e) == all
    ensures HandsOver(before, after + [e], all)
  {
    HandsOverIs(before, after, letters);
    AllHandedMore(after, e);
    Regroup(AllHanded(before), letters, Handed(e));
    HandsOverIs(before, after + [e], all);
  }

  lemma Regroup(a: string, b: string, c: string)
    ensures a + b + c == a + (b + c) && a + "" == a && "" + a == a
  {
  }

  lemma HandsOverJoin(a: seq<Event>, b: seq<Event>, c: seq<Event>, s: string, t: string, all: string)
    requires HandsOver(a, b, s) && HandsOver(b, c, t) && s + t == all
    ensures HandsOver(a, c, all)
  {
    HandsOverIs(a, b, s);
    HandsOverIs(b, c, t);
    Regroup(AllHanded(a), s, t);
    HandsOverIs(a, c, all);
  }

  /** A call that hands over nothing. */
  predicate Mute(e: Event) { e.BlockGap? || e.EndBlock? || e.Newline? || e.Rule? || e.NoGap? || Bracket(e) }

  predicate Bracket(e: Event) {
    e.QuotePush? || e.QuotePop? || e.ListPush? || e.ListItem? || e.ListPop? || e.Open? || e.Close?
  }

  lemma HandsOverMute(before: seq<Event>, after: seq<Event>, letters: string, e: Event)
    requires HandsOver(before, after, letters) && Mute(e)
    ensures HandsOver(before, after + [e], letters)
  {
    Regroup(letters, "", "");
    HandsOverMore(before, after, letters, e, letters);
  }

  lemma HandsOverOne(events: seq<Event>, e: Event)
    ensures HandsOver(events, events + [e], Handed(e))
  {
    HandsOverNothing(events);
    Regroup(Handed(e), "", "");
    HandsOverMore(events, events, "", e, Handed(e));
  }

  lemma HandsNothing(events: seq<Event>, lines: seq<string>, i: nat)
    requires i <= |lines|
    ensures Hands(events, events, lines, i, i)
  {
    HandsOverNothing(events);
    HandsIs(events, events, lines, i, i);
  }

  lemma HandsMute(before: seq<Event>, after: seq<Event>, lines: seq<string>, i: nat, j: nat, e: Event)
    requires i <= j <= |lines| && Hands(before, after, lines, i, j) && Mute(e)
    ensures Hands(before, after + [e], lines, i, j)
  {
    HandsIs(before, after, lines, i, j);
    HandsOverMute(before, after, LettersIn(lines, i, j), e);
    HandsIs(before, after + [e], lines, i, j);
  }

  lemma HandsOn(a: seq<Event>, b: seq<Event>, c: seq<Event>, lines: seq<string>, i: nat, j: nat, k: nat)
    requires i <= j <= k <= |lines| && Hands(a, b, lines, i, j) && Hands(b, c, lines, j, k)
    ensures Hands(a, c, lines, i, k)
  {
    HandsIs(a, b, lines, i, j);
    HandsIs(b, c, lines, j, k);
    LettersInJoin(lines, i, j, k);
    HandsOverJoin(a, b, c, LettersIn(lines, i, j), LettersIn(lines, j, k), LettersIn(lines, i, k));
    HandsIs(a, c, lines, i, k);
  }

  /** Blank lines hand over nothing. */
  lemma HandsBlank(a: seq<Event>, b: seq<Event>, lines: seq<string>, i: nat, j: nat, k: nat)
    requires i <= j <= k <= |lines| && Hands(a, b, lines, i, j) && forall n | j <= n < k :: IsBlank(lines[n])
    ensures Hands(a, b, lines, i, k)
  {
    LettersInJoin(lines, i, j, k);
    LettersInBlank(lines, j, k);
    Regroup(LettersIn(lines, i, j), "", "");
    HandsIs(a, b, lines, i, j);
    HandsIs(a, b, lines, i, k);
  }

  lemma ItemKeepsLetters(lines: seq<string>, i: nat, end: nat, d: seq<string>)
    requires i < end <= |lines| && ListMarker(lines[i]).Some?
    requires DedentBy(ItemLines(lines, i, end), ItemCut(lines[i])) == Some(d)
    ensures LettersIn(d, 0, |d|) == LettersIn(lines, i, end)
  {
    var item := ItemLines(lines, i, end);
    MarkerHasNoLetters(lines[i]);
    DedentKeepsLetters(item, ItemCut(lines[i]), d, |item|);
    LettersInCons(item[0], lines[i + 1..end], end - i - 1);
    LettersInSlice(lines, i + 1, end);
    LettersInFirst(lines, i, end);
  }

  lemma TitleHands(events: seq<Event>, lines: seq<string>, i: nat, group: Group)
    requires i < |lines| && SectionAt(lines, i).Some?
    ensures var title := SectionAt(lines, i).value;
      Hands(events, events + [BlockGap] + [Open(group)] + [Inline(title.text)] + [Close(group)] + [Newline], lines,
        i, title.next)
  {
    var title := SectionAt(lines, i).value;
    TextHandsOver(events, group, title.text);
    if title.level.overlined {
      AdornmentHasNoLetters(lines[i]);
      AdornmentHasNoLetters(lines[i + 2]);
      TrimKeepsLetters(lines[i + 1]);
      LettersInFirst(lines, i, i + 3);
      LettersInFirst(lines, i + 1, i + 3);
      LettersInOne(lines, i + 2);
    } else {
      AdornmentHasNoLetters(lines[i + 1]);
      TrimKeepsLetters(lines[i]);
      LettersInFirst(lines, i, i + 2);
      LettersInOne(lines, i + 1);
    }
    Regroup(Letters(title.text), "", "");
    HandsIs(events, events + [BlockGap] + [Open(group)] + [Inline(title.text)] + [Close(group)] + [Newline], lines,
      i, title.next);
  }

  lemma TextHandsOver(events: seq<Event>, group: Group, text: string)
    ensures HandsOver(events, events + [BlockGap] + [Open(group)] + [Inline(text)] + [Close(group)] + [Newline],
      Letters(text))
  {
    var headed := events + [BlockGap] + [Open(group)];
    HandsOverNothing(events);
    HandsOverMute(events, events, "", BlockGap);
    HandsOverMute(events, events + [BlockGap], "", Open(group));
    Regroup(Letters(text), "", "");
    HandsOverMore(events, headed, "", Inline(text), Letters(text));
    HandsOverMute(events, headed + [Inline(text)], Letters(text), Close(group));
    HandsOverMute(events, headed + [Inline(text)] + [Close(group)], Letters(text), Newline);
  }

  /** The calls for a term, which opens its definition. */
  function TermCalls(term: string): seq<Event> {
    [BlockGap, Open(Strong), Inline(term), Close(Strong), Newline, QuotePush]
  }

  lemma TermHandsOver(events: seq<Event>, line: string)
    ensures HandsOver(events, events + TermCalls(Trim(line)), Letters(line))
  {
    var text := Trim(line);
    var said := events + [BlockGap] + [Open(Strong)] + [Inline(text)] + [Close(Strong)] + [Newline];
    TrimKeepsLetters(line);
    TextHandsOver(events, Strong, text);
    HandsOverMute(events, said, Letters(text), QuotePush);
    assert said + [QuotePush] == events + TermCalls(text);
  }

  /** The calls for a directive's label, and its argument if it has one. */
  function LabelCalls(name: string, argument: string): seq<Event> {
    [BlockGap, Open(Strong), Write(name)]
    + (if argument == "" then [] else [Write(" "), Write(argument)])
    + [Close(Strong), Newline]
  }

  lemma ArgumentHandsOver(before: seq<Event>, after: seq<Event>, letters: string, argument: string)
    requires HandsOver(before, after, letters)
    ensures HandsOver(before, after + (if argument == "" then [] else [Write(" "), Write(argument)]),
      letters + Letters(argument))
  {
    if argument == "" {
      Regroup(letters, "", "");
      assert after + [] == after;
    } else {
      NoLetters(" ", 1);
      Regroup(letters, "", "");
      HandsOverMore(before, after, letters, Write(" "), letters);
      HandsOverMore(before, after + [Write(" ")], letters, Write(argument), letters + Letters(argument));
      assert after + [Write(" ")] + [Write(argument)] == after + [Write(" "), Write(argument)];
    }
  }

  lemma LabelHandsOver(events: seq<Event>, name: string, argument: string)
    ensures HandsOver(events, events + LabelCalls(name, argument), Letters(name) + Letters(argument))
  {
    var headed := events + [BlockGap] + [Open(Strong)];
    var named := headed + [Write(name)];
    var argued := named + (if argument == "" then [] else [Write(" "), Write(argument)]);
    HandsOverNothing(events);
    HandsOverMute(events, events, "", BlockGap);
    HandsOverMute(events, events + [BlockGap], "", Open(Strong));
    Regroup(Letters(name), "", "");
    HandsOverMore(events, headed, "", Write(name), Letters(name));
    ArgumentHandsOver(events, named, Letters(name), argument);
    HandsOverMute(events, argued, Letters(name) + Letters(argument), Close(Strong));
    HandsOverMute(events, argued + [Close(Strong)], Letters(name) + Letters(argument), Newline);
    assert argued + [Close(Strong)] + [Newline] == events + LabelCalls(name, argument);
  }

  /** The fields hold exactly the letters of the lines. */
  ghost predicate FieldsHand(fields: seq<Field>, lines: seq<string>, i: nat, j: nat) {
    forall n: nat {:trigger Unseal(n)} | Unseal(n) ::
      i <= j <= |lines| && FieldLetters(fields, |fields|) == LettersIn(lines, i, j)
  }

  lemma FieldsHandIs(fields: seq<Field>, lines: seq<string>, i: nat, j: nat)
    requires i <= j <= |lines|
    ensures FieldsHand(fields, lines, i, j) <==> FieldLetters(fields, |fields|) == LettersIn(lines, i, j)
  {
    assert Unseal(0);
  }

  lemma NoFields(lines: seq<string>, i: nat)
    requires i <= |lines|
    ensures FieldsHand([], lines, i, i)
  {
    FieldsHandIs([], lines, i, i);
  }

  lemma FieldsHanded(events: seq<Event>, fields: seq<Field>, lines: seq<string>, i: nat, j: nat)
    requires i <= j <= |lines| && FieldsHand(fields, lines, i, j)
    ensures Hands(events, events + [Fields(fields)], lines, i, j)
  {
    FieldsHandIs(fields, lines, i, j);
    HandsOverOne(events, Fields(fields));
    HandsIs(events, events + [Fields(fields)], lines, i, j);
  }

  lemma FieldsSkipBlank(fields: seq<Field>, lines: seq<string>, i: nat, j: nat, k: nat)
    requires i <= j <= k <= |lines| && FieldsHand(fields, lines, i, j) && forall n | j <= n < k :: IsBlank(lines[n])
    ensures FieldsHand(fields, lines, i, k)
  {
    FieldsHandIs(fields, lines, i, j);
    LettersInJoin(lines, i, j, k);
    LettersInBlank(lines, j, k);
    Regroup(LettersIn(lines, i, j), "", "");
    FieldsHandIs(fields, lines, i, k);
  }

  lemma FieldsGrow(fields: seq<Field>, field: Field, lines: seq<string>, i: nat, at: nat, end: nat)
    requires i <= at < end <= |lines| && FieldsHand(fields, lines, i, at)
    requires FieldHead(lines[at]).Some? && FieldIn(lines, at, end) == Some(field)
    ensures FieldsHand(fields + [field], lines, i, end)
  {
    FieldKeepsLetters(lines, at, end, Dedent(lines[at + 1..end]).value);
    FieldsGrowBy(fields, field, lines, i, at, end);
  }

  lemma FieldsGrowBy(fields: seq<Field>, field: Field, lines: seq<string>, i: nat, at: nat, end: nat)
    requires i <= at <= end <= |lines| && FieldsHand(fields, lines, i, at)
    requires Letters(field.name) + Letters(field.body) == LettersIn(lines, at, end)
    ensures FieldsHand(fields + [field], lines, i, end)
  {
    FieldsHandIs(fields, lines, i, at);
    FieldsPrefix(fields, field, |fields|);
    FieldLettersNext(fields + [field], |fields|);
    LettersInJoin(lines, i, at, end);
    FieldsHandIs(fields + [field], lines, i, end);
  }

  lemma {:induction false} FieldsPrefix(fields: seq<Field>, field: Field, n: nat)
    requires n <= |fields|
    ensures FieldLetters(fields + [field], n) == FieldLetters(fields, n)
  {
    if n > 0 {
      FieldsPrefix(fields, field, n - 1);
      assert (fields + [field])[n - 1] == fields[n - 1];
      FieldLettersNext(fields, n - 1);
      FieldLettersNext(fields + [field], n - 1);
    }
  }

  /** A field's name, and the text after it with the lines indented under it. */
  function FieldOf(line: string, more: seq<string>): Field
    requires FieldHead(line).Some?
  {
    Field(FieldHead(line).value.0, JoinParagraph([Trim(FieldHead(line).value.1)] + more))
  }

  /** The field of the lines from `at` to `end`, unless they cannot be dedented. */
  function FieldIn(lines: seq<string>, at: nat, end: nat): Option<Field>
    requires at < end <= |lines| && FieldHead(lines[at]).Some?
  {
    match Dedent(lines[at + 1..end])
    case None => None
    case Some(more) => Some(FieldOf(lines[at], more))
  }

  lemma FieldKeepsLetters(lines: seq<string>, at: nat, end: nat, more: seq<string>)
    requires at < end <= |lines| && FieldHead(lines[at]).Some? && Dedent(lines[at + 1..end]) == Some(more)
    ensures var field := FieldOf(lines[at], more);
      Letters(field.name) + Letters(field.body) == LettersIn(lines, at, end)
  {
    var (name, first) := FieldHead(lines[at]).value;
    FieldHeadKeepsLetters(lines[at]);
    DedentedRunKeepsLetters(lines, at + 1, end, more);
    FieldTextKeepsLetters(first, more);
    LettersInFirst(lines, at, end);
    Regroup(Letters(name), Letters(first), LettersIn(lines, at + 1, end));
  }

  lemma FieldTextKeepsLetters(first: string, more: seq<string>)
    ensures Letters(JoinParagraph([Trim(first)] + more)) == Letters(first) + LettersIn(more, 0, |more|)
  {
    TrimKeepsLetters(first);
    JoinParagraphKeepsLetters([Trim(first)] + more);
    LettersInCons(Trim(first), more, |more|);
  }

  lemma LineHands(before: seq<Event>, after: seq<Event>, text: string, lines: seq<string>, i: nat, at: nat)
    requires i <= at < |lines| && Hands(before, after, lines, i, at) && StripLineBlock(lines[at]) == Some(text)
    ensures Hands(before, after + [Inline(text)] + [Newline], lines, i, at + 1)
  {
    LineBlockKeepsLetters(lines[at]);
    TextHands(before, after, text, lines, i, at);
    HandsMute(before, after + [Inline(text)], lines, i, at + 1, Newline);
  }

  lemma TextHands(before: seq<Event>, after: seq<Event>, text: string, lines: seq<string>, i: nat, at: nat)
    requires i <= at < |lines| && Hands(before, after, lines, i, at) && Letters(text) == Letters(lines[at])
    ensures Hands(before, after + [Inline(text)], lines, i, at + 1)
  {
    HandsIs(before, after, lines, i, at);
    LettersInNext(lines, i, at);
    HandsOverMore(before, after, LettersIn(lines, i, at), Inline(text), LettersIn(lines, i, at + 1));
    HandsIs(before, after + [Inline(text)], lines, i, at + 1);
  }

  lemma CodeHands(events: seq<Event>, lang: Option<string>, lines: seq<string>, i: nat, end: nat, d: seq<string>)
    requires i <= end <= |lines| && Dedent(lines[i..end]) == Some(d)
    ensures Hands(events, events + [Code(lang, JoinLines(d))], lines, i, end)
  {
    JoinLinesKeepsLetters(d);
    DedentedRunKeepsLetters(lines, i, end, d);
    HandsOverOne(events, Code(lang, JoinLines(d)));
    HandsIs(events, events + [Code(lang, JoinLines(d))], lines, i, end);
  }

  lemma VerbatimHands(events: seq<Event>, lines: seq<string>, i: nat, end: nat)
    requires i <= end <= |lines|
    ensures Hands(events, events + [Verbatim(lines[i..end])], lines, i, end)
  {
    LettersInSlice(lines, i, end);
    HandsOverVerbatim(events, lines[i..end]);
    HandsIs(events, events + [Verbatim(lines[i..end])], lines, i, end);
  }

  lemma HandsOverVerbatim(events: seq<Event>, part: seq<string>)
    ensures HandsOver(events, events + [Verbatim(part)], LettersIn(part, 0, |part|))
  {
    HandsOverOne(events, Verbatim(part));
  }

  lemma RuleHands(events: seq<Event>, lines: seq<string>, i: nat)
    requires i < |lines| && RuleLine(lines[i])
    ensures Hands(events, events + [Rule], lines, i, i + 1)
  {
    AdornmentHasNoLetters(lines[i]);
    LettersInOne(lines, i);
    HandsOverOne(events, Rule);
    HandsIs(events, events + [Rule], lines, i, i + 1);
  }

  /** What a paragraph's calls are, with nothing for no text. */
  function TextCalls(text: string): seq<Event> {
    if text == "" then [] else [BlockGap, Inline(text), Newline]
  }

  lemma ParagraphHands(events: seq<Event>, lines: seq<string>, i: nat, end: nat)
    requires i <= end <= |lines|
    ensures Hands(events, events + TextCalls(LiteralMarker(JoinParagraph(lines[i..end])).0), lines, i, end)
  {
    var joined := JoinParagraph(lines[i..end]);
    var text := LiteralMarker(joined).0;
    JoinParagraphKeepsLetters(lines[i..end]);
    LettersInSlice(lines, i, end);
    LiteralMarkerKeepsLetters(joined);
    TextCallsHandOver(events, text);
    HandsIs(events, events + TextCalls(text), lines, i, end);
  }

  lemma TextCallsHandOver(events: seq<Event>, text: string)
    ensures HandsOver(events, events + TextCalls(text), Letters(text))
  {
    HandsOverNothing(events);
    if text == "" {
      assert events + TextCalls(text) == events;
    } else {
      HandsOverMute(events, events, "", BlockGap);
      Regroup(Letters(text), "", "");
      HandsOverMore(events, events + [BlockGap], "", Inline(text), Letters(text));
      HandsOverMute(events, events + [BlockGap] + [Inline(text)], Letters(text), Newline);
      assert events + TextCalls(text) == events + [BlockGap] + [Inline(text)] + [Newline];
    }
  }

  // ----- what is shown ------------------------------------------------------------------------------

  /** The letters a call shows, once inline markup and the folding of fields have written what they keep. */
  function Shown(e: Event): string {
    match e
    case Inline(text) => RstInline.LettersOf(RstInline.Rendered(text))
    case Fields(fields) => RstInline.LettersOf(Written(fields))
    case _ => Handed(e)
  }

  function AllShown(events: seq<Event>): string {
    if events == [] then "" else AllShown(events[..|events| - 1]) + Shown(events[|events| - 1])
  }

  /** How many letters inline markup takes for roles and drops. */
  function Lost(e: Event): nat {
    match e
    case Inline(text) => RstInline.Roles(text) + RstInline.Eaten(text)
    case Fields(fields) => DroppedTo(fields, |fields|)
    case _ => 0
  }

  function AllLost(events: seq<Event>): nat {
    if events == [] then 0 else AllLost(events[..|events| - 1]) + Lost(events[|events| - 1])
  }

  ghost predicate AllUnfolded(events: seq<Event>) {
    forall i | 0 <= i < |events| && events[i].Fields? :: Unfolded(events[i].fields)
  }

  lemma CallIsShort(e: Event)
    requires e.Fields? ==> Unfolded(e.fields)
    ensures RstInline.Short(Shown(e), Handed(e), Lost(e))
  {
    match e
    case Inline(text) => RstInline.InlineLetters(text);
    case Fields(fields) => UnfoldedLetters(fields);
    case _ =>
  }

  lemma {:induction false} CallsAreShort(events: seq<Event>)
    requires AllUnfolded(events)
    ensures RstInline.Short(AllShown(events), AllHanded(events), AllLost(events))
    decreases |events|
  {
    if events != [] {
      var (before, last) := (events[..|events| - 1], events[|events| - 1]);
      CallsAreShort(before);
      CallIsShort(last);
      RstInline.ShortJoins(AllShown(before), AllHanded(before), AllLost(before), Shown(last), Handed(last), Lost(last));
    }
  }

  /**
   * Where no field is folded, the calls show all letters handed over, in order, exactly when
   * inline markup takes none of them for a role.
   */
  lemma AllShownIff(events: seq<Event>)
    requires AllUnfolded(events)
    ensures AllShown(events) == AllHanded(events) <==> AllLost(events) == 0
  {
    CallsAreShort(events);
  }

  /** A field line as it is written is read as its name and what follows. */
  lemma FieldLineReads(name: string, after: string)
    requires name != "" && forall k | 0 <= k < |name| :: name[k] !in {':', '`'}
    requires after != "" ==> after[0] == ' '
    ensures FieldHead(":" + (name + (":" + after))) == Some((name, after))
  {
    var rest := name + (":" + after);
    var line := ":" + rest;
    assert Lead(line) == 0 && line[1..] == rest && line[..1] == ":";
    ColonFound(rest, |name|, 0);
    assert rest[..|name|] == name && rest[|name| + 1..] == after;
  }

  lemma {:induction false} ColonFound(s: string, at: nat, i: nat)
    requires i <= at < |s| && s[at] == ':' && forall k | i <= k < at :: s[k] != ':'
    ensures Find(s, ":", i) == Some(at)
    decreases at - i
  {
    assert s[i..i + 1] == [s[i]];
    if i < at { ColonFound(s, at, i + 1); }
  }

  lemma StrBody()
    ensures JoinParagraph([Trim(" str")] + []) == "str"
  {
    assert TextStart(" str", 0) == 1 && TrimStart(" str") == "str" && Trim(" str") == "str";
    assert [Trim(" str")] + [] == ["str"] && ["str"][..0] == [] && Trim("str") == "str";
  }

  /** The line `:rtype: str` is a field of a return type, of whose eight letters none is shown. */
  lemma LoneTypeLine()
    ensures var line := ":" + ("rtype" + (":" + " str"));
      FieldHead(line).Some? && FieldOf(line, []) == Field("rtype", "str")
    ensures var e := Fields([Field("rtype", "str")]); Shown(e) == "" && |Handed(e)| == 8
  {
    FieldLineReads("rtype", " str");
    StrBody();
    LoneTypeShowsNothing();
  }

  lemma LoneTypeShowsNothing()
    ensures var e := Fields([Field("rtype", "str")]); Shown(e) == "" && |Handed(e)| == 8
  {
    LoneTypeIsLost();
    LettersOfWord("rtype", 5);
    LettersOfWord("str", 3);
    OneFieldHanded(Field("rtype", "str"));
  }

  lemma OneFieldHanded(f: Field)
    ensures |Handed(Fields([f]))| == |Letters(f.name)| + |Letters(f.body)|
  {
    assert FieldLetters([f], 0) == "";
  }

  lemma {:induction false} LettersOfWord(s: string, n: nat)
    requires n <= |s| && forall k | 0 <= k < |s| :: 'a' <= s[k] <= 'z'
    ensures |LettersTo(s, n)| == n
  {
    if n > 0 { LettersOfWord(s, n - 1); }
  }
}
