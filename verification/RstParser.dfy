/** The recursive block parser of reStructuredText. */
module RstParser {
  import opened Wrappers
  import opened Sealed
  import opened Utf8
  import opened RstLines
  import opened RstText
  import opened RstFields
  import opened Rst
  import opened RstTold

  // ----- the parser -----------------------------------------------------------------------------

  /** What a construct did with the line it was tried at. */
  datatype Outcome = Passed | Took(next: nat) | Crashed

  class Parser {
    /** Adornments in the order of their first appearance; a title's level is its index here. */
    var levels: seq<Level>
    var events: seq<Event>
    ghost var open: Stack

    ghost predicate Valid()
      reads this
    {
      Distinct(levels) && Nested(events, open)
    }

    constructor ()
      ensures Valid() && levels == [] && events == [] && open == Empty
    {
      levels, events, open := [], [], Empty;
    }

    method Emit(e: Event)
      requires Valid() && Fits(e, open)
      modifies this`events, this`open
      ensures Valid() && events == old(events) + [e] && open == Then(e, old(open))
    {
      NestedOn(events, open, e);
      events := events + [e];
      open := Then(e, open);
    }

    /** Renders lines of one base indentation, one construct at a time, unless a construct crashes. */
    method Block(lines: seq<string>) returns (ok: bool)
      requires Valid()
      modifies this
      ensures Valid() && Kept(old(levels), levels) && (ok ==> open == old(open))
      ensures Plain(lines) ==> ok
      ensures StartsWithCrash(lines) ==> !ok
      ensures ok ==> TellsAll(old(events), events, lines)
      decreases Chars(lines), 1
    {
      var base := BaseIndent(lines);
      var i := 0;
      TellsNothing(events, lines, base, 0);
      while i < |lines|
        invariant i <= |lines| && Valid() && open == old(open) && Kept(old(levels), levels)
        invariant i > 0 ==> !StartsWithCrash(lines)
        invariant Tells(old(events), events, lines, base, 0, i)
        decreases |lines| - i
      {
        if IsBlank(lines[i]) {
          TellsBlank(old(events), events, lines, base, 0, i, i + 1);
          i := i + 1;
          continue;
        }
        ghost var before := events;
        var done := Construct(lines, i, base);
        if done.Crashed? { return false; }
        TellsOn(old(events), before, events, lines, base, 0, i, done.next);
        TellsMute(old(events), events, lines, base, 0, done.next, EndBlock);
        Emit(EndBlock);
        i := done.next;
      }
      ok := true;
    }

    /** The construct at a text line: the first in order that recognizes it, or a paragraph. */
    method Construct(lines: seq<string>, i: nat, base: nat) returns (done: Outcome)
      requires Valid() && i < |lines| && !IsBlank(lines[i])
      modifies this
      ensures Valid() && Kept(old(levels), levels) && !done.Passed?
      ensures done.Took? ==> open == old(open) && i < done.next <= |lines|
      ensures Plain(lines) ==> !done.Crashed?
      ensures i == 0 && base == BaseIndent(lines) && StartsWithCrash(lines) ==> done.Crashed?
      ensures done.Took? ==> Tells(old(events), events, lines, base, i, done.next)
      decreases Chars(lines), 0, 9
    {
      if IndentOf(lines[i]) > base {
        done := Quote(lines, i, base);
        return;
      }
      done := DirectiveOrComment(lines, i, base);
      if !done.Passed? { return; }
      done := FieldList(lines, i);
      if done.Took? { LeafTells(old(events), events, lines, base, i, done.next); }
      if done.Passed? { done := List(lines, i, base); }
      if done.Passed? { done := BarredOrText(lines, i, base); }
    }

    /** Lines with a mark each, and the constructs no mark opens. */
    method BarredOrText(lines: seq<string>, i: nat, ghost base: nat) returns (done: Outcome)
      requires Valid() && i < |lines| && Unmarked(lines[i], base)
      modifies this
      ensures Valid() && Kept(old(levels), levels) && !done.Passed?
      ensures done.Took? ==> open == old(open) && i < done.next <= |lines|
      ensures Plain(lines) ==> !done.Crashed?
      ensures done.Took? ==> Tells(old(events), events, lines, base, i, done.next)
      decreases Chars(lines), 0, 8
    {
      done := LineBlock(lines, i);
      if done.Passed? { done := Doctest(lines, i); }
      if done.Passed? { done := Text(lines, i, base); } else if done.Took? {
        LeafTells(old(events), events, lines, base, i, done.next);
      }
    }

    /** The constructs no mark opens, and at last a paragraph. */
    method Text(lines: seq<string>, i: nat, ghost base: nat) returns (done: Outcome)
      requires Valid() && i < |lines| && Unmarked(lines[i], base)
      requires StripLineBlock(lines[i]).None? && !IsDoctest(lines[i])
      modifies this
      ensures Valid() && Kept(old(levels), levels) && !done.Passed?
      ensures done.Took? ==> open == old(open) && i < done.next <= |lines|
      ensures Plain(lines) ==> !done.Crashed?
      ensures done.Took? ==> Tells(old(events), events, lines, base, i, done.next)
      decreases Chars(lines), 0, 7
    {
      done := Table(lines, i);
      if done.Passed? { done := Section(lines, i); }
      if done.Passed? { done := Transition(lines, i); }
      if done.Took? {
        LeafTells(old(events), events, lines, base, i, done.next);
        return;
      }
      done := Definition(lines, i, base);
      if done.Passed? {
        done := Paragraph(lines, i);
        if done.Took? { LeafTells(old(events), events, lines, base, i, done.next); }
      }
    }

    method Quote(lines: seq<string>, i: nat, base: nat) returns (done: Outcome)
      requires Valid() && i < |lines| && !IsBlank(lines[i]) && IndentOf(lines[i]) > base
      modifies this
      ensures Valid() && Kept(old(levels), levels) && !done.Passed?
      ensures done.Took? ==> open == old(open) && i < done.next && IndentedRunIs(lines, i, base, done.next)
      ensures Plain(lines) ==> !done.Crashed?
      ensures done.Took? ==> Tells(old(events), events, lines, base, i, done.next)
      decreases Chars(lines), 0, 0
    {
      var end := IndentedRun(lines, i, base);
      RunStarts(lines, i, end, base);
      if Plain(lines) { PlainRun(lines, i, end); }
      var inner := Dedent(lines[i..end]);
      if inner.None? { return Crashed; }
      QuoteIsSmaller(lines, i, end, base, inner.value);
      Emit(QuotePush);
      var ok := Block(inner.value);
      if !ok { return Crashed; }
      QuoteTells(old(events), events, lines, base, i, end, inner.value);
      Emit(QuotePop);
      done := Took(end);
    }

    /** A title keeps the level of its adornment, or takes the next one for a new adornment. */
    method Section(lines: seq<string>, i: nat) returns (done: Outcome)
      requires Valid() && i < |lines|
      modifies this
      ensures Valid() && open == old(open) && Kept(old(levels), levels) && !done.Crashed?
      ensures done.Took? <==> SectionAt(lines, i).Some?
      ensures done.Passed? ==> levels == old(levels) && events == old(events)
      ensures done.Took? ==> done.next == SectionAt(lines, i).value.next && SectionAt(lines, i).value.level in levels
      ensures done.Took? ==> Hands(old(events), events, lines, i, done.next)
      ensures done.Took? ==> var title := SectionAt(lines, i).value;
        levels == (if title.level in old(levels) then old(levels) else old(levels) + [title.level])
        && var group := Group.Heading(Min(IndexOf(levels, title.level, 0), HEADING_LEVELS - 1));
        events == old(events) + [BlockGap] + [Open(group)] + [Inline(title.text)] + [Close(group)] + [Newline]
    {
      var head := SectionAt(lines, i);
      if head.None? { return Passed; }
      var Title(title, level, end) := head.value;
      var at := IndexOf(levels, level, 0);
      if at == |levels| { levels := levels + [level]; }
      Heading(lines, i, title, Group.Heading(Min(at, HEADING_LEVELS - 1)));
      done := Took(end);
    }

    /** The title on a line of its own, in the style of its level. */
    method Heading(ghost lines: seq<string>, ghost i: nat, title: string, group: Group)
      requires Valid() && i < |lines| && SectionAt(lines, i).Some? && SectionAt(lines, i).value.text == title
      modifies this`events, this`open
      ensures Valid() && open == old(open) && Hands(old(events), events, lines, i, SectionAt(lines, i).value.next)
      ensures events == old(events) + [BlockGap] + [Open(group)] + [Inline(title)] + [Close(group)] + [Newline]
    {
      TitleHands(events, lines, i, group);
      Emit(BlockGap);
      Emit(Open(group));
      Emit(Inline(title));
      Emit(Close(group));
      Emit(Newline);
    }

    /** `..` with a name and two colons is a directive; with anything else, a comment that shows nothing. */
    method DirectiveOrComment(lines: seq<string>, i: nat, ghost margin: nat) returns (done: Outcome)
      requires Valid() && i < |lines| && !IsBlank(lines[i]) && IndentOf(lines[i]) <= margin
      modifies this
      ensures Valid() && Kept(old(levels), levels)
      ensures done.Passed? <==> !DirectiveLine(lines[i])
      ensures done.Passed? ==> levels == old(levels) && events == old(events) && open == old(open)
      ensures done.Took? ==> open == old(open) && IndentedRunIs(lines, i + 1, IndentOf(lines[i]), done.next)
      ensures done.Took? ==>
        Dedent(lines[i + 1..done.next]).Some?
        && DirectiveCalls(old(events), events, lines[i], Dedent(lines[i + 1..done.next]).value)
      ensures done.Took? ==> Tells(old(events), events, lines, margin, i, done.next)
      ensures Plain(lines) ==> !done.Crashed?
      decreases Chars(lines), 0, 1
    {
      var line := TrimStart(lines[i]);
      if !StartsWith(line, "..") { return Passed; }
      var rest := line[2..];
      if rest != "" && rest[0] != ' ' { return Passed; }
      var end := IndentedRun(lines, i + 1, IndentOf(lines[i]));
      if Plain(lines) { PlainRun(lines, i + 1, end); }
      var body := Dedent(lines[i + 1..end]);
      if body.None? { return Crashed; }
      BodyIsSmaller(lines, i, end, body.value);
      var ok := Directive(lines, DirectiveHead(TrimStart(rest)), body.value);
      if !ok { return Crashed; }
      DirectiveTells(old(events), events, lines, margin, i, end, body.value);
      done := Took(end);
    }

    /** Shows a directive over its body, or nothing for a comment. */
    method Directive(ghost lines: seq<string>, head: Option<(string, string)>, body: seq<string>) returns (ok: bool)
      requires Valid() && Chars(body) < Chars(lines)
      modifies this
      ensures Valid() && Kept(old(levels), levels) && (ok ==> open == old(open))
      ensures Plain(body) ==> ok
      ensures head.None? ==> ok && events == old(events)
      ensures head.Some? && IsCode(Lower(head.value.0)) ==>
        ok && events == old(events) + [Code(FirstWord(head.value.1), JoinLines(SkipOptions(body)))]
      ensures ok && head.Some? && !IsCode(Lower(head.value.0)) ==>
        TellsAll(old(events) + LabelCalls(LabelOf(Lower(head.value.0)), Trim(head.value.1)), events, body)
      decreases Chars(lines), 0, 0
    {
      if head.None? { return true; }
      var (name, argument) := (Lower(head.value.0), head.value.1);
      if IsCode(name) {
        Emit(Code(FirstWord(argument), JoinLines(SkipOptions(body))));
        return true;
      }
      Label(if IsAdmonition(name) then TitleCase(name) else name, Trim(argument));
      ok := Block(body);
    }

    /** A styled line with the label of a directive and its argument. */
    method Label(name: string, argument: string)
      requires Valid()
      modifies this`events, this`open
      ensures Valid() && open == old(open) && events == old(events) + LabelCalls(name, argument)
    {
      Emit(BlockGap);
      Emit(Open(Strong));
      Emit(Write(name));
      if argument != "" {
        Emit(Write(" "));
        Emit(Write(argument));
      }
      Emit(Close(Strong));
      Emit(Newline);
    }

    /** Consecutive fields of one indent; a blank line between two is allowed. */
    method FieldList(lines: seq<string>, i: nat) returns (done: Outcome)
      requires Valid() && i < |lines|
      modifies this
      ensures Valid() && open == old(open) && levels == old(levels)
      ensures done.Passed? <==> FieldHead(lines[i]).None?
      ensures done.Took? ==> i < done.next <= |lines| && Hands(old(events), events, lines, i, done.next)
      ensures done.Took? ==> FieldsEnd(lines, IndentOf(lines[i]), i, done.next)
      ensures done.Took? ==> exists fields: seq<Field> | FieldsHand(fields, lines, i, done.next) ::
        events == old(events) + [Fields(fields)]
      ensures !done.Took? ==> events == old(events)
      ensures Plain(lines) ==> !done.Crashed?
    {
      if FieldHead(lines[i]).None? { return Passed; }
      var base := IndentOf(lines[i]);
      var fields: seq<Field> := [];
      NoFields(lines, i);
      var at := i;
      while at < |lines| && FieldHead(lines[at]).Some? && IndentOf(lines[at]) == base
        invariant i <= at <= |lines| && Valid() && open == old(open) && levels == old(levels) && events == old(events)
        invariant FieldsHand(fields, lines, i, at) && FieldsReach(lines, base, i, at) && (at > i || fields == [])
        decreases |lines| - at
      {
        var end, field := ReadField(lines, at, base);
        if field.None? { return Crashed; }
        FieldsGrow(fields, field.value, lines, i, at, end);
        FieldsReachOn(lines, base, i, at, end);
        fields := fields + [field.value];
        at := NextField(lines, end);
        FieldsSkipBlank(fields, lines, i, end, at);
      }
      FieldsHanded(events, fields, lines, i, at);
      Emit(Fields(fields));
      done := Took(at);
    }

    /** Past the blank lines with a field under them. */
    method NextField(lines: seq<string>, end: nat) returns (at: nat)
      requires end <= |lines|
      ensures at == PastBlank(lines, end)
    {
      at := end;
      while at < |lines| && IsBlank(lines[at]) && at + 1 < |lines| && FieldHead(lines[at + 1]).Some?
        invariant at == end || (at == PastBlank(lines, end) && at < |lines| && !IsBlank(lines[at]))
        decreases |lines| - at
      {
        FieldIsText(lines[at + 1]);
        at := at + 1;
      }
    }

    /** One field: its name, and its first line joined with the lines indented under it. */
    method ReadField(lines: seq<string>, at: nat, base: nat) returns (end: nat, field: Option<Field>)
      requires at < |lines| && FieldHead(lines[at]).Some?
      ensures at < end && IndentedRunIs(lines, at + 1, base, end) && field == FieldIn(lines, at, end)
      ensures Plain(lines) ==> field.Some?
    {
      var (name, first) := FieldHead(lines[at]).value;
      end := IndentedRun(lines, at + 1, base);
      if Plain(lines) { PlainRun(lines, at + 1, end); }
      var more := Dedent(lines[at + 1..end]);
      field := if more.None? then None else Some(Field(name, JoinParagraph([Trim(first)] + more.value)));
    }

    /** Items of one indent, all numbered or all bulleted; each owns what is indented past it. */
    method List(lines: seq<string>, i: nat, ghost margin: nat) returns (done: Outcome)
      requires Valid() && i < |lines| && IndentOf(lines[i]) <= margin
      modifies this
      ensures Valid() && Kept(old(levels), levels)
      ensures done.Passed? <==> ListMarker(lines[i]).None?
      ensures done.Passed? ==> levels == old(levels) && events == old(events) && open == old(open)
      ensures done.Took? ==> open == old(open) && i < done.next <= |lines|
      ensures Plain(lines) ==> !done.Crashed?
      ensures ListMarker(lines[i]).Some? && ItemCrashes(lines, i) ==> done.Crashed?
      ensures done.Took? ==> Tells(old(events), events, lines, margin, i, done.next)
      decreases Chars(lines), 0, 1
    {
      if ListMarker(lines[i]).None? { return Passed; }
      var base := IndentOf(lines[i]);
      var first := Enumerator(lines[i]);
      TellsNothing(events, lines, margin, i);
      TellsMute(events, events, lines, margin, i, i, ListPush(first));
      Emit(ListPush(first));
      var at := i;
      while at < |lines| && ListMarker(lines[at]).Some? && IndentOf(lines[at]) == base
        && Enumerator(lines[at]).Some? == first.Some?
        invariant i <= at <= |lines| && Valid() && open == Push(InList, old(open)) && Kept(old(levels), levels)
        invariant at > i ==> !ItemCrashes(lines, i)
        invariant Tells(old(events), events, lines, margin, i, at)
        decreases |lines| - at
      {
        ghost var before := events;
        var item := Item(lines, at, base, margin);
        if item.Crashed? { return Crashed; }
        TellsOn(old(events), before, events, lines, margin, i, at, item.next);
        before := events;
        at := AfterItem(lines, item.next);
        TellsBlank(old(events), before, lines, margin, i, item.next, at);
        if at == item.next { TellsMute(old(events), before, lines, margin, i, at, NoGap); }
        if at < |lines| && IndentOf(lines[at]) != base { break; }
      }
      TellsMute(old(events), events, lines, margin, i, at, ListPop);
      Emit(ListPop);
      done := Took(at);
    }

    /** Where the next item could stand; the bullets of items with no blank line between are drawn without a gap. */
    method AfterItem(lines: seq<string>, end: nat) returns (at: nat)
      requires Valid() && end <= |lines| && OnTop(open, InList)
      modifies this`events, this`open
      ensures Valid() && open == old(open) && EndsAtText(lines, end, at)
      ensures events == if end < |lines| && IsBlank(lines[end]) then old(events) else old(events) + [NoGap]
    {
      at := TextFrom(lines, end);
      if at == end { Emit(NoGap); }
    }

    method Item(lines: seq<string>, at: nat, base: nat, ghost margin: nat) returns (done: Outcome)
      requires Valid() && at < |lines| && ListMarker(lines[at]).Some? && base == IndentOf(lines[at]) <= margin
        && OnTop(open, InList)
      modifies this
      ensures Valid() && Kept(old(levels), levels) && !done.Passed?
      ensures done.Took? ==> open == old(open) && at < done.next <= |lines| && !ItemCrashes(lines, at)
      ensures Plain(lines) ==> !done.Crashed?
      ensures done.Took? ==> Tells(old(events), events, lines, margin, at, done.next)
      decreases Chars(lines), 0, 0
    {
      var end := IndentedRun(lines, at + 1, base);
      if Plain(lines) { PlainItem(lines, at, end); }
      Emit(ListItem);
      var body := DedentBy(ItemLines(lines, at, end), ItemCut(lines[at]));
      if body.None? { return Crashed; }
      ItemIsSmaller(lines, at, end, body.value);
      ItemHolds(lines, at, end);
      var ok := Block(body.value);
      if !ok { return Crashed; }
      ItemIsNoOther(lines[at]);
      ItemTells(old(events), events, lines, margin, at, end, body.value);
      done := Took(end);
    }

    /** Lines whose breaks are kept. */
    method LineBlock(lines: seq<string>, i: nat) returns (done: Outcome)
      requires Valid() && i < |lines|
      modifies this
      ensures Valid() && open == old(open) && levels == old(levels) && !done.Crashed?
      ensures done.Took? <==> StripLineBlock(lines[i]).Some?
      ensures done.Took? ==> BarsEnd(lines, i, done.next) && Hands(old(events), events, lines, i, done.next)
      ensures done.Passed? ==> events == old(events)
    {
      if StripLineBlock(lines[i]).None? { return Passed; }
      HandsNothing(events, lines, i);
      HandsMute(events, events, lines, i, i, BlockGap);
      Emit(BlockGap);
      var end := Lines(lines, i, old(events));
      done := Took(end);
    }

    /** The barred lines of one indent. */
    method Lines(lines: seq<string>, i: nat, ghost before: seq<Event>) returns (at: nat)
      requires Valid() && i < |lines| && StripLineBlock(lines[i]).Some? && Hands(before, events, lines, i, i)
      modifies this`events, this`open
      ensures Valid() && open == old(open) && BarsEnd(lines, i, at) && Hands(before, events, lines, i, at)
    {
      var base := IndentOf(lines[i]);
      var more := true;
      at := i;
      while more
        invariant i <= at <= |lines| && Valid() && open == old(open) && (more || i < at)
        invariant more <==> at < |lines| && Barred(lines[at], base)
        invariant forall k | i <= k < at :: Barred(lines[k], base)
        invariant Hands(before, events, lines, i, at)
        decreases |lines| - at, more
      {
        Line(lines, i, at, before);
        at := at + 1;
        more := AtBar(lines, at, base);
      }
    }

    method AtBar(lines: seq<string>, at: nat, base: nat) returns (yes: bool)
      ensures yes <==> at < |lines| && Barred(lines[at], base)
    {
      yes := at < |lines| && IndentOf(lines[at]) == base && StripLineBlock(lines[at]).Some?;
    }

    method Line(lines: seq<string>, ghost i: nat, at: nat, ghost before: seq<Event>)
      requires Valid() && i <= at < |lines| && StripLineBlock(lines[at]).Some? && Hands(before, events, lines, i, at)
      modifies this`events, this`open
      ensures Valid() && open == old(open) && Hands(before, events, lines, i, at + 1)
      ensures events == old(events) + [Inline(StripLineBlock(lines[at]).value)] + [Newline]
    {
      var text := StripLineBlock(lines[at]).value;
      LineHands(before, events, text, lines, i, at);
      Emit(Inline(text));
      Emit(Newline);
    }

    method Doctest(lines: seq<string>, i: nat) returns (done: Outcome)
      requires Valid() && i < |lines| && !IsBlank(lines[i])
      modifies this
      ensures Valid() && open == old(open) && levels == old(levels)
      ensures done.Passed? <==> !IsDoctest(lines[i])
      ensures done.Took? ==> i < done.next && EndsAtBlank(lines, i, done.next)
      ensures done.Took? ==> Hands(old(events), events, lines, i, done.next)
      ensures done.Took? ==>
        Dedent(lines[i..done.next]).Some?
        && events == old(events) + [Code(Some("python"), JoinLines(Dedent(lines[i..done.next]).value))]
      ensures !done.Took? ==> events == old(events)
      ensures Plain(lines) ==> !done.Crashed?
    {
      if !IsDoctest(lines[i]) { return Passed; }
      var end := BlankFrom(lines, i);
      if Plain(lines) { PlainRun(lines, i, end); }
      var code := Dedent(lines[i..end]);
      if code.None? { return Crashed; }
      CodeHands(events, Some("python"), lines, i, end, code.value);
      Emit(Code(Some("python"), JoinLines(code.value)));
      done := Took(end);
    }

    method Table(lines: seq<string>, i: nat) returns (done: Outcome)
      requires Valid() && i < |lines| && !IsBlank(lines[i])
      modifies this
      ensures Valid() && open == old(open) && levels == old(levels) && !done.Crashed?
      ensures done.Took? <==> IsTableBorder(lines[i])
      ensures done.Took? ==> i < done.next && EndsAtBlank(lines, i, done.next)
      ensures done.Took? ==> Hands(old(events), events, lines, i, done.next)
      ensures done.Took? ==> events == old(events) + [Verbatim(lines[i..done.next])]
      ensures done.Passed? ==> events == old(events)
    {
      if !IsTableBorder(lines[i]) { return Passed; }
      var end := BlankFrom(lines, i);
      VerbatimHands(events, lines, i, end);
      Emit(Verbatim(lines[i..end]));
      done := Took(end);
    }

    /** A rule: one adornment four times or more, colons aside. */
    method Transition(lines: seq<string>, i: nat) returns (done: Outcome)
      requires Valid() && i < |lines|
      modifies this
      ensures Valid() && open == old(open) && levels == old(levels) && !done.Crashed?
      ensures done == if RuleLine(lines[i]) then Took(i + 1) else Passed
      ensures events == if RuleLine(lines[i]) then old(events) + [Rule] else old(events)
      ensures done.Took? ==> Hands(old(events), events, lines, i, done.next)
    {
      var ch := AdornmentChar(lines[i]);
      if ch.None? || |Trim(lines[i])| < 4 || ch.value == ':' { return Passed; }
      RuleHands(events, lines, i);
      Emit(Rule);
      done := Took(i + 1);
    }

    /** A term with its definition indented directly under it. */
    method Definition(lines: seq<string>, i: nat, ghost margin: nat) returns (done: Outcome)
      requires Valid() && i < |lines| && Unmarked(lines[i], margin) && (TermLine(lines, i) ==> !IsLeaf(lines, i))
      modifies this
      ensures Valid() && Kept(old(levels), levels)
      ensures done.Passed? <==> !TermLine(lines, i)
      ensures done.Passed? ==> levels == old(levels) && events == old(events) && open == old(open)
      ensures done.Took? ==> open == old(open) && IndentedRunIs(lines, i + 1, IndentOf(lines[i]), done.next)
      ensures Plain(lines) ==> !done.Crashed?
      ensures done.Took? ==> Tells(old(events), events, lines, margin, i, done.next)
      decreases Chars(lines), 0, 1
    {
      var base := IndentOf(lines[i]);
      if EndsWith(TrimEnd(lines[i]), "::") { return Passed; }
      if i + 1 >= |lines| || IndentOf(lines[i + 1]) <= base || IsBlank(lines[i + 1]) { return Passed; }
      var end := IndentedRun(lines, i + 1, base);
      Term(Trim(lines[i]));
      if Plain(lines) { PlainRun(lines, i + 1, end); }
      var body := Dedent(lines[i + 1..end]);
      if body.None? { return Crashed; }
      BodyIsSmaller(lines, i, end, body.value);
      var ok := Block(body.value);
      if !ok { return Crashed; }
      DefinitionTells(old(events), events, lines, margin, i, end, body.value);
      Emit(QuotePop);
      done := Took(end);
    }

    /** The term, and the quote its definition stands in. */
    method Term(term: string)
      requires Valid()
      modifies this`events, this`open
      ensures Valid() && open == Push(InQuote, old(open))
      ensures events == old(events) + TermCalls(term)
    {
      Emit(BlockGap);
      Emit(Open(Strong));
      Emit(Inline(term));
      Emit(Close(Strong));
      Emit(Newline);
      Emit(QuotePush);
    }

    /** Lines to the next blank one or construct, and the literal block a `::` introduces. */
    method Paragraph(lines: seq<string>, i: nat) returns (done: Outcome)
      requires Valid() && i < |lines|
      modifies this
      ensures Valid() && open == old(open) && levels == old(levels) && !done.Passed?
      ensures done.Took? ==> i < done.next <= |lines| && Hands(old(events), events, lines, i, done.next)
      ensures done.Took? ==> ParagraphEnds(lines, i, done.next)
      ensures Plain(lines) ==> !done.Crashed?
    {
      var base := IndentOf(lines[i]);
      var end := TextLines(lines, i, base);
      var literal := ParagraphText(lines, i, end);
      if !literal {
        ParagraphIs(lines, i, end, end);
        return Took(end);
      }
      HandsMute(old(events), events, lines, i, end, EndBlock);
      Emit(EndBlock);
      done := Literal(lines, i, end, base, old(events));
      if done.Took? { ParagraphIs(lines, i, end, done.next); }
    }

    /** The lines a paragraph joins. */
    method TextLines(lines: seq<string>, i: nat, base: nat) returns (end: nat)
      requires i < |lines| && base == IndentOf(lines[i])
      ensures TextEnds(lines, i, end)
    {
      end := i + 1;
      while end < |lines| && Continues(lines[end], base)
        invariant i < end <= |lines| && forall k | i < k < end :: Continues(lines[k], base)
      {
        end := end + 1;
      }
    }

    /** The text of a paragraph, and whether a literal block comes after it. */
    method ParagraphText(lines: seq<string>, i: nat, end: nat) returns (literal: bool)
      requires Valid() && i <= end <= |lines|
      modifies this`events, this`open
      ensures Valid() && open == old(open) && Hands(old(events), events, lines, i, end)
      ensures var (text, marked) := LiteralMarker(JoinParagraph(lines[i..end]));
        literal == marked && events == old(events) + TextCalls(text)
    {
      var (text, marked) := LiteralMarker(JoinParagraph(lines[i..end]));
      ParagraphHands(events, lines, i, end);
      if text != "" {
        Emit(BlockGap);
        Emit(Inline(text));
        Emit(Newline);
      }
      assert events == old(events) + TextCalls(text);
      literal := marked;
    }

    /** The literal block after a paragraph: what is indented past it. */
    method Literal(lines: seq<string>, i: nat, end: nat, base: nat, ghost before: seq<Event>) returns (done: Outcome)
      requires Valid() && i < end <= |lines| && Hands(before, events, lines, i, end)
      modifies this`events, this`open
      ensures Valid() && open == old(open) && !done.Passed?
      ensures done.Took? ==> end <= done.next <= |lines| && Hands(before, events, lines, i, done.next)
      ensures done.Took? ==> LiteralEnds(lines, end, base, done.next)
      ensures done.Took? ==> LiteralCalls(old(events), events, lines, end, done.next)
      ensures Plain(lines) ==> !done.Crashed?
    {
      var at := TextFrom(lines, end);
      if at >= |lines| || IndentOf(lines[at]) <= base {
        NoLiteral(events, lines, end, at, base);
        return Took(end);
      }
      HandsBlank(before, events, lines, i, end, at);
      var stop := IndentedRun(lines, at, base);
      if Plain(lines) { PlainRun(lines, at, stop); }
      var code := Dedent(lines[at..stop]);
      if code.None? { return Crashed; }
      CodeHands(events, None, lines, at, stop, code.value);
      HandsOn(before, events, events + [Code(None, JoinLines(code.value))], lines, i, at, stop);
      LiteralIs(events, lines, end, at, base, stop, code.value);
      Emit(Code(None, JoinLines(code.value)));
      done := Took(stop);
    }
  }

  /**
   * A whole document: the calls on the renderer always fit what is open, and unless it
   * crashes nothing is left open and what the document tells is handed over. Without
   * directives and comments that is every letter, and with directives that are no code
   * every letter but for its case.
   */
  method Feed(lines: seq<string>) returns (events: seq<Event>, ok: bool)
    ensures OpenAfter(events).Some? && (ok ==> OpenAfter(events) == Some(Empty))
    ensures Plain(lines) ==> ok
    ensures StartsWithCrash(lines) ==> !ok
    ensures ok ==> Told(lines, AllHanded(events))
    ensures ok && KeptLines(true, lines) ==> AllHanded(events) == LettersIn(lines, 0, |lines|)
    ensures ok && KeptLines(false, lines) ==> Lower(AllHanded(events)) == Lower(LettersIn(lines, 0, |lines|))
    ensures AllUnfolded(events) ==> (AllShown(events) == AllHanded(events) <==> AllLost(events) == 0)
  {
    var p := new Parser();
    ok := p.Block(lines);
    events := p.events;
    assert Unseal(0);
    if AllUnfolded(events) { AllShownIff(events); }
    if ok {
      ToldByCalls(events, lines);
      if KeptLines(true, lines) { ToldKeeps(true, lines, AllHanded(events)); }
      if KeptLines(false, lines) { ToldKeeps(false, lines, AllHanded(events)); }
    }
  }

  /** The document `- a`, then a line indented by one ideographic space, crashes. */
  method FeedWideIndent() returns (events: seq<Event>, ok: bool)
    ensures !ok
  {
    WideIndentCrashes();
    events, ok := Feed(WideIndent());
  }
}
