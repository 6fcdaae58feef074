/**
 * What a reStructuredText document hands to the renderer, letter by letter: the lines are
 * cut into constructs, each construct says what it hands over of its lines, and those that
 * own a block hand over what the block does once it is dedented.
 */
module RstTold {
  import opened Wrappers
  import opened Sealed
  import opened Utf8
  import opened RstLines
  import opened RstText
  import opened RstFields
  import opened Rst

  // ----- constructs whose lines are handed over as they stand --------------------------------

  /** Up to the first blank line. */
  ghost predicate EndsAtBlank(lines: seq<string>, i: nat, j: nat) {
    i <= j <= |lines| && (forall k | i <= k < j :: !IsBlank(lines[k])) && (j < |lines| ==> IsBlank(lines[j]))
  }

  /** Up to the first line that is not blank. */
  ghost predicate EndsAtText(lines: seq<string>, i: nat, j: nat) {
    i <= j <= |lines| && (forall k | i <= k < j :: IsBlank(lines[k])) && (j < |lines| ==> !IsBlank(lines[j]))
  }

  predicate Barred(line: string, base: nat) { IndentOf(line) == base && StripLineBlock(line).Some? }

  /** As far as lines of the same indent have the bar. */
  ghost predicate BarsEnd(lines: seq<string>, i: nat, j: nat) {
    i < j <= |lines| && (forall k | i <= k < j :: Barred(lines[k], IndentOf(lines[i])))
      && (j < |lines| ==> !Barred(lines[j], IndentOf(lines[i])))
  }

  /** Past the one blank line that may stand between two fields. */
  function PastBlank(lines: seq<string>, end: nat): (r: nat)
    requires end <= |lines|
    ensures end <= r <= |lines| && forall k | end <= k < r :: IsBlank(lines[k])
  {
    if end + 1 < |lines| && IsBlank(lines[end]) && FieldHead(lines[end + 1]).Some? then end + 1 else end
  }

  /** As far as fields of one indent follow each other, each with the lines indented under it. */
  ghost predicate FieldsEnd(lines: seq<string>, base: nat, i: nat, j: nat)
    requires i <= |lines|
    decreases |lines| - i
  {
    if i < |lines| && FieldHead(lines[i]).Some? && IndentOf(lines[i]) == base then
      exists end | i < end <= |lines| && IndentedRunIs(lines, i + 1, base, end) ::
        FieldsEnd(lines, base, PastBlank(lines, end), j)
    else i == j
  }

  predicate Continues(line: string, base: nat) {
    !IsBlank(line) && IndentOf(line) >= base && !StartsConstruct(line)
  }

  /** The text lines of a paragraph. */
  ghost predicate TextEnds(lines: seq<string>, i: nat, j: nat) {
    i < j <= |lines| && (forall k | i < k < j :: Continues(lines[k], IndentOf(lines[i])))
      && (j < |lines| ==> !Continues(lines[j], IndentOf(lines[i])))
  }

  /** The literal block after a paragraph, if text indented past it follows. */
  ghost predicate LiteralEnds(lines: seq<string>, i: nat, base: nat, j: nat) {
    exists at: nat | EndsAtText(lines, i, at) ::
      if at < |lines| && IndentOf(lines[at]) > base then IndentedRunIs(lines, at, base, j) else i == j
  }

  /** A paragraph, with the literal block two colons at its end introduce. */
  ghost predicate ParagraphEnds(lines: seq<string>, i: nat, j: nat) {
    exists end: nat | TextEnds(lines, i, end) ::
      if LiteralMarker(JoinParagraph(lines[i..end])).1 then LiteralEnds(lines, end, IndentOf(lines[i]), j) else j == end
  }

  predicate IsDoctest(line: string) { StartsWith(TrimStart(line), ">>>") }

  /** A construct that owns no block. */
  predicate IsLeaf(lines: seq<string>, i: nat)
    requires i < |lines|
  {
    var line := lines[i];
    FieldHead(line).Some?
    || (ListMarker(line).None?
        && (StripLineBlock(line).Some? || IsDoctest(line) || IsTableBorder(line) || SectionAt(lines, i).Some?
            || RuleLine(line) || !TermLine(lines, i)))
  }

  ghost predicate LeafEnds(lines: seq<string>, i: nat, j: nat)
    requires i < |lines|
  {
    var line := lines[i];
    if FieldHead(line).Some? then FieldsEnd(lines, IndentOf(line), i, j)
    else if StripLineBlock(line).Some? then BarsEnd(lines, i, j)
    else if IsDoctest(line) || IsTableBorder(line) then EndsAtBlank(lines, i, j)
    else if SectionAt(lines, i).Some? then j == SectionAt(lines, i).value.next
    else if RuleLine(line) then j == i + 1
    else ParagraphEnds(lines, i, j)
  }

  // ----- all constructs ------------------------------------------------------------------------

  /** The name and argument of a directive, or None for a comment. */
  function DirectiveIn(line: string): Option<(string, string)>
    requires DirectiveLine(line)
  {
    DirectiveHead(TrimStart(TrimStart(line)[2..]))
  }

  /**
   * What the construct of the lines from `i` to `j` hands over, in a block with this base
   * indent. A comment hands over nothing, a code directive its body past the options, any
   * other directive its label, its argument and its body.
   */
  ghost predicate Piece(lines: seq<string>, base: nat, i: nat, j: nat, letters: string)
    decreases Chars(lines), j, 0
  {
    i < j <= |lines| &&
    if IsBlank(lines[i]) then j == i + 1 && letters == ""
    else if IndentOf(lines[i]) > base then
      IndentedRunIs(lines, i, base, j) && Inner(lines, Dedent(lines[i..j]), letters)
    else if DirectiveLine(lines[i]) then
      IndentedRunIs(lines, i + 1, IndentOf(lines[i]), j) && Directed(lines, i, j, letters)
    else if IsLeaf(lines, i) then LeafEnds(lines, i, j) && letters == LettersIn(lines, i, j)
    else if ListMarker(lines[i]).Some? then
      IndentedRunIs(lines, i + 1, IndentOf(lines[i]), j)
        && Inner(lines, DedentBy(ItemLines(lines, i, j), ItemCut(lines[i])), letters)
    else
      IndentedRunIs(lines, i + 1, IndentOf(lines[i]), j)
      && exists inner: string | Inner(lines, Dedent(lines[i + 1..j]), inner) :: letters == Letters(lines[i]) + inner
  }

  ghost predicate Directed(lines: seq<string>, i: nat, j: nat, letters: string)
    requires i < j <= |lines| && DirectiveLine(lines[i])
    decreases Chars(lines), 0, 2
  {
    var (head, body) := (DirectiveIn(lines[i]), Dedent(lines[i + 1..j]));
    body.Some? &&
    match head
    case None => letters == ""
    case Some((written, argument)) =>
      var name := Lower(written);
      if IsCode(name) then letters == Letters(JoinLines(SkipOptions(body.value)))
      else
        exists inner: string | Inner(lines, body, inner) ::
          letters == Letters(LabelOf(name)) + Letters(Trim(argument)) + inner
  }

  /** What a block the lines own hands over. */
  ghost predicate Inner(lines: seq<string>, block: Option<seq<string>>, letters: string)
    decreases Chars(lines), 0, 1
  {
    block.Some? && Chars(block.value) < Chars(lines) && Told(block.value, letters)
  }

  /** What the constructs of the lines from `i` to `j` hand over, one after the other. */
  ghost predicate Chain(lines: seq<string>, base: nat, i: nat, j: nat, letters: string)
    decreases Chars(lines), j, 3
  {
    if j <= i then i == j && letters == "" else
      exists k: nat, before: string, last: string | i <= k < j ::
        Chain(lines, base, i, k, before) && Piece(lines, base, k, j, last) && letters == before + last
  }

  /** What a whole block hands over. */
  ghost predicate Told(lines: seq<string>, letters: string)
    decreases Chars(lines), |lines|, 4
  {
    Chain(lines, BaseIndent(lines), 0, |lines|, letters)
  }

  lemma FieldIsText(line: string)
    ensures FieldHead(line).Some? ==> !IsBlank(line)
  {
  }

  /** Fields from `i` on lead up to `at`: where the list from there ends, the whole does. */
  ghost predicate FieldsReach(lines: seq<string>, base: nat, i: nat, at: nat) {
    i <= at <= |lines| && forall j | FieldsEnd(lines, base, at, j) :: FieldsEnd(lines, base, i, j)
  }

  lemma FieldsReachOn(lines: seq<string>, base: nat, i: nat, at: nat, end: nat)
    requires FieldsReach(lines, base, i, at) && at < end && IndentedRunIs(lines, at + 1, base, end)
    requires FieldHead(lines[at]).Some? && IndentOf(lines[at]) == base
    ensures FieldsReach(lines, base, i, PastBlank(lines, end))
  {
    var next := PastBlank(lines, end);
    forall j | FieldsEnd(lines, base, next, j) ensures FieldsEnd(lines, base, i, j) {
      assert FieldsEnd(lines, base, at, j);
    }
  }

  // ----- one document hands over one text ---------------------------------------------------------

  lemma {:induction false} FieldsEndOnce(lines: seq<string>, base: nat, i: nat, j: nat, other: nat)
    requires i <= |lines| && FieldsEnd(lines, base, i, j) && FieldsEnd(lines, base, i, other)
    ensures j == other
    decreases |lines| - i
  {
    if i < |lines| && FieldHead(lines[i]).Some? && IndentOf(lines[i]) == base {
      var a :| i < a <= |lines| && IndentedRunIs(lines, i + 1, base, a)
        && FieldsEnd(lines, base, PastBlank(lines, a), j);
      var b :| i < b <= |lines| && IndentedRunIs(lines, i + 1, base, b)
        && FieldsEnd(lines, base, PastBlank(lines, b), other);
      RunEndsOnce(lines, i + 1, base, a, b);
      FieldsEndOnce(lines, base, PastBlank(lines, a), j, other);
    }
  }

  lemma TextEndsOnce(lines: seq<string>, i: nat, j: nat, other: nat)
    requires TextEnds(lines, i, j) && TextEnds(lines, i, other)
    ensures j == other
  {
  }

  lemma LiteralEndsOnce(lines: seq<string>, i: nat, base: nat, j: nat, other: nat)
    requires LiteralEnds(lines, i, base, j) && LiteralEnds(lines, i, base, other)
    ensures j == other
  {
    var a: nat :| EndsAtText(lines, i, a)
      && if a < |lines| && IndentOf(lines[a]) > base then IndentedRunIs(lines, a, base, j) else i == j;
    var b: nat :| EndsAtText(lines, i, b)
      && if b < |lines| && IndentOf(lines[b]) > base then IndentedRunIs(lines, b, base, other) else i == other;
    assert a == b;
    if a < |lines| && IndentOf(lines[a]) > base { RunEndsOnce(lines, a, base, j, other); }
  }

  lemma ParagraphEndsOnce(lines: seq<string>, i: nat, j: nat, other: nat)
    requires i < |lines| && ParagraphEnds(lines, i, j) && ParagraphEnds(lines, i, other)
    ensures j == other
  {
    var base := IndentOf(lines[i]);
    var a: nat :| TextEnds(lines, i, a)
      && if LiteralMarker(JoinParagraph(lines[i..a])).1 then LiteralEnds(lines, a, base, j) else j == a;
    var b: nat :| TextEnds(lines, i, b)
      && if LiteralMarker(JoinParagraph(lines[i..b])).1 then LiteralEnds(lines, b, base, other) else other == b;
    TextEndsOnce(lines, i, a, b);
    if LiteralMarker(JoinParagraph(lines[i..a])).1 { LiteralEndsOnce(lines, a, base, j, other); }
  }

  lemma LeafEndsOnce(lines: seq<string>, i: nat, j: nat, other: nat)
    requires i < |lines| && LeafEnds(lines, i, j) && LeafEnds(lines, i, other)
    ensures j == other
  {
    var line := lines[i];
    if FieldHead(line).Some? {
      FieldsEndOnce(lines, IndentOf(line), i, j, other);
    } else if StripLineBlock(line).None? && !IsDoctest(line) && !IsTableBorder(line) && SectionAt(lines, i).None?
      && !RuleLine(line) {
      ParagraphEndsOnce(lines, i, j, other);
    }
  }

  lemma {:induction false} PieceOnce(lines: seq<string>, base: nat, i: nat, j: nat, s: string, other: nat, t: string)
    requires Piece(lines, base, i, j, s) && Piece(lines, base, i, other, t)
    ensures j == other && s == t
    decreases Chars(lines), 0, 2
  {
    var line := lines[i];
    if IsBlank(line) {
    } else if IndentOf(line) > base {
      RunEndsOnce(lines, i, base, j, other);
      InnerOnce(lines, Dedent(lines[i..j]), s, t);
    } else if DirectiveLine(line) {
      RunEndsOnce(lines, i + 1, IndentOf(line), j, other);
      DirectedOnce(lines, i, j, s, t);
    } else if IsLeaf(lines, i) {
      LeafEndsOnce(lines, i, j, other);
    } else {
      RunEndsOnce(lines, i + 1, IndentOf(line), j, other);
      if ListMarker(line).Some? {
        InnerOnce(lines, DedentBy(ItemLines(lines, i, j), ItemCut(line)), s, t);
      } else {
        var a: string :| Inner(lines, Dedent(lines[i + 1..j]), a) && s == Letters(line) + a;
        var b: string :| Inner(lines, Dedent(lines[i + 1..j]), b) && t == Letters(line) + b;
        InnerOnce(lines, Dedent(lines[i + 1..j]), a, b);
      }
    }
  }

  lemma {:induction false} DirectedOnce(lines: seq<string>, i: nat, j: nat, s: string, t: string)
    requires i < j <= |lines| && DirectiveLine(lines[i]) && Directed(lines, i, j, s) && Directed(lines, i, j, t)
    ensures s == t
    decreases Chars(lines), 0, 1
  {
    var (head, body) := (DirectiveIn(lines[i]), Dedent(lines[i + 1..j]));
    if head.Some? && !IsCode(Lower(head.value.0)) {
      var shown := Letters(LabelOf(Lower(head.value.0))) + Letters(Trim(head.value.1));
      var a: string :| Inner(lines, body, a) && s == shown + a;
      var b: string :| Inner(lines, body, b) && t == shown + b;
      InnerOnce(lines, body, a, b);
    }
  }

  lemma {:induction false} InnerOnce(lines: seq<string>, block: Option<seq<string>>, s: string, t: string)
    requires Inner(lines, block, s) && Inner(lines, block, t)
    ensures s == t
    decreases Chars(lines), 0, 0
  {
    ToldOnce(block.value, s, t);
  }

  /** A chain begins with a construct. */
  lemma {:induction false} ChainStarts(lines: seq<string>, base: nat, i: nat, j: nat, s: string)
    returns (m: nat, first: string, rest: string)
    requires i < j && Chain(lines, base, i, j, s)
    ensures i < m <= j && Piece(lines, base, i, m, first) && Chain(lines, base, m, j, rest) && s == first + rest
    decreases j
  {
    var k: nat, before: string, last: string :| i <= k < j
      && Chain(lines, base, i, k, before) && Piece(lines, base, k, j, last) && s == before + last;
    if k == i {
      m, first, rest := j, last, "";
      Regroup(last, "", "");
    } else {
      var inner: string;
      m, first, inner := ChainStarts(lines, base, i, k, before);
      rest := inner + last;
      Regroup(first, inner, last);
    }
  }

  lemma {:induction false} ChainOnce(lines: seq<string>, base: nat, i: nat, j: nat, s: string, t: string)
    requires Chain(lines, base, i, j, s) && Chain(lines, base, i, j, t)
    ensures s == t
    decreases Chars(lines), 1, j - i
  {
    if i < j {
      var m, a, restA := ChainStarts(lines, base, i, j, s);
      var n, b, restB := ChainStarts(lines, base, i, j, t);
      PieceOnce(lines, base, i, m, a, n, b);
      ChainOnce(lines, base, m, j, restA, restB);
    }
  }

  /** A document hands over one text: the rules leave no choice. */
  lemma {:induction false} ToldOnce(lines: seq<string>, s: string, t: string)
    requires Told(lines, s) && Told(lines, t)
    ensures s == t
    decreases Chars(lines), 2
  {
    ChainOnce(lines, BaseIndent(lines), 0, |lines|, s, t);
  }

  lemma {:induction false} ChainJoins(lines: seq<string>, base: nat, i: nat, j: nat, k: nat, s: string, t: string)
    requires i <= j <= k && Chain(lines, base, i, j, s) && Chain(lines, base, j, k, t)
    ensures Chain(lines, base, i, k, s + t)
    decreases k
  {
    if j == k {
      Regroup(s, "", "");
    } else {
      var m: nat, before: string, last: string :| j <= m < k
        && Chain(lines, base, j, m, before) && Piece(lines, base, m, k, last) && t == before + last;
      ChainJoins(lines, base, i, j, m, s, before);
      Regroup(s, before, last);
    }
  }

  lemma ChainOf(lines: seq<string>, base: nat, i: nat, j: nat, s: string)
    requires Piece(lines, base, i, j, s)
    ensures Chain(lines, base, i, j, s)
  {
    Regroup(s, "", "");
    assert Chain(lines, base, i, i, "");
  }

  // ----- what is kept of the letters ----------------------------------------------------------------

  /** A directive or comment could open here, once the text before has been cut off. */
  ghost predicate Marked(line: string, p: nat) {
    p + 2 <= |line| && line[p] == '.' && line[p + 1] == '.' && (p > 0 ==> IsSpace(line[p - 1]))
      && (p + 2 < |line| ==> line[p + 2] == ' ')
  }

  /** What follows the two dots is a directive whose words are shown: no comment and no code. */
  predicate Worded(rest: string) {
    var head := DirectiveHead(TrimStart(rest));
    head.Some? && !IsCode(Lower(head.value.0))
  }

  ghost predicate KeptLine(exact: bool, line: string) {
    forall p: nat | Marked(line, p) :: !exact && Worded(line[p + 2..])
  }

  /** No line has a directive or comment, or where that is allowed, only directives whose words are shown. */
  ghost predicate KeptLines(exact: bool, lines: seq<string>) {
    forall k | 0 <= k < |lines| :: KeptLine(exact, lines[k])
  }

  /** Equal, or equal but for the case of letters. */
  predicate Same(exact: bool, s: string, t: string) { if exact then s == t else Lower(s) == Lower(t) }

  lemma {:induction false} LowerJoin(s: string, t: string)
    ensures Lower(s + t) == Lower(s) + Lower(t)
    decreases |t|
  {
    if t == "" {
      assert s + t == s;
    } else {
      var n := |t| - 1;
      LowerJoin(s, t[..n]);
      assert (s + t)[..|s + t| - 1] == s + t[..n];
    }
  }

  lemma SameJoin(exact: bool, s: string, t: string, u: string, v: string)
    requires Same(exact, s, t) && Same(exact, u, v)
    ensures Same(exact, s + u, t + v)
  {
    LowerJoin(s, u);
    LowerJoin(t, v);
  }

  lemma {:induction false} LowerLetters(s: string)
    ensures Letters(Lower(s)) == Lower(Letters(s)) && |Lower(s)| == |s|
    decreases |s|
  {
    if s != "" {
      var n := |s| - 1;
      LowerLetters(s[..n]);
      LettersJoin(s[..n], [s[n]]);
      LettersJoin(Lower(s[..n]), [LowerChar(s[n])]);
      LowerLetter(s[n]);
      LowerJoin(Letters(s[..n]), Letters([s[n]]));
      assert s == s[..n] + [s[n]];
    }
  }

  lemma LowerLetter(c: char)
    ensures Letters([LowerChar(c)]) == Lower(Letters([c]))
  {
    assert LettersTo([c], 0) == "" && LettersTo([LowerChar(c)], 0) == "";
    assert IsLetter(LowerChar(c)) == IsLetter(c);
    assert Lower([c]) == [LowerChar(c)];
  }

  lemma {:induction false} LowerTwice(s: string)
    ensures Lower(Lower(s)) == Lower(s)
    decreases |s|
  {
    if s != "" {
      var n := |s| - 1;
      LowerTwice(s[..n]);
      assert Lower(s)[..|Lower(s)| - 1] == Lower(s[..n]);
    }
  }

  lemma LowerTitle(name: string)
    ensures Lower(TitleCase(name)) == Lower(name)
  {
    if name != "" {
      LowerJoin([UpperChar(name[0])], name[1..]);
      LowerJoin([name[0]], name[1..]);
      assert name == [name[0]] + name[1..];
      assert Lower([UpperChar(name[0])]) == Lower([name[0]]);
    }
  }

  /** The label of a directive has the letters of its name, but for their case. */
  lemma LabelKeepsLetters(written: string)
    ensures Same(false, Letters(LabelOf(Lower(written))), Letters(written))
  {
    var name := Lower(written);
    LowerTwice(written);
    LowerTitle(name);
    LowerLetters(written);
    LowerLetters(name);
    LowerLetters(LabelOf(name));
  }

  lemma DirectiveIsMarked(line: string)
    requires DirectiveLine(line)
    ensures Marked(line, Lead(line)) && TrimStart(line)[2..] == line[Lead(line) + 2..]
  {
    var (t, p) := (TrimStart(line), Lead(line));
    assert t[0] == t[..2][0] == '.' && t[1] == t[..2][1] == '.';
    assert line[p] == t[0] && line[p + 1] == t[1];
  }

  lemma HeadKeepsLetters(rest: string)
    requires DirectiveHead(rest).Some?
    ensures Letters(DirectiveHead(rest).value.0) + Letters(DirectiveHead(rest).value.1) == Letters(rest)
  {
    var end := Find(rest, "::", 0).value;
    SplitKeepsLetters(rest, end);
  }

  lemma SplitKeepsLetters(s: string, at: nat)
    requires at + 2 <= |s| && s[at..at + 2] == "::"
    ensures Letters(s[..at]) + Letters(s[at + 2..]) == Letters(s)
  {
    assert s == s[..at] + "::" + s[at + 2..];
    SeparatorKeepsLetters(s[..at], "::", s[at + 2..]);
  }

  lemma DotsHaveNoLetters(t: string)
    requires StartsWith(t, "..")
    ensures Letters(t[2..]) == Letters(t)
  {
    assert t[0] == t[..2][0] && t[1] == t[..2][1];
    CutKeepsLetters(t, 2);
  }

  /** The name and argument of a directive hold the letters of its line. */
  lemma DirectiveKeepsLetters(line: string)
    requires DirectiveLine(line) && DirectiveIn(line).Some?
    ensures var (name, argument) := DirectiveIn(line).value; Letters(name) + Letters(argument) == Letters(line)
  {
    var t := TrimStart(line);
    HeadKeepsLetters(TrimStart(t[2..]));
    TrimKeepsLetters(line);
    DotsHaveNoLetters(t);
    TrimKeepsLetters(t[2..]);
  }

  /** Letters, digits and a few marks of ASCII. */
  predicate NamesDirective(c: char) {
    '0' <= c <= '9' || 'a' <= c <= 'z' || 'A' <= c <= 'Z' || c == '-' || c == '_' || c == '+' || c == '.'
  }

  /** A directive as it is written is read as its name and argument. */
  lemma DirectiveReads(name: string, argument: string)
    requires name != "" && forall k | 0 <= k < |name| :: NamesDirective(name[k])
    ensures var line := ".. " + (name + ("::" + argument));
      DirectiveLine(line) && DirectiveIn(line) == Some((name, argument))
  {
    HeadReads(name, argument);
    DotsRead(name + ("::" + argument));
  }

  lemma HeadReads(name: string, argument: string)
    requires name != "" && forall k | 0 <= k < |name| :: NamesDirective(name[k])
    ensures DirectiveHead(name + ("::" + argument)) == Some((name, argument))
  {
    var rest := name + ("::" + argument);
    ColonsFound(rest, |name|, 0);
    assert rest[..|name|] == name && rest[|name| + 2..] == argument;
  }

  lemma ColonsThere(text: string)
    ensures Find(text, "::", 0).Some? ==> exists k | 0 <= k < |text| - 1 :: text[k] == ':' && text[k + 1] == ':'
  {
    if Find(text, "::", 0).Some? {
      var k := Find(text, "::", 0).value;
      assert text[k] == text[k..k + 2][0] && text[k + 1] == text[k..k + 2][1];
    }
  }

  /** Without two colons it is a comment, and with no name before them, or one of other characters, too. */
  lemma CommentReads(text: string, before: string, after: string)
    requires forall k | 0 <= k < |text| - 1 :: !(text[k] == ':' && text[k + 1] == ':')
    requires forall k | 0 <= k < |before| :: before[k] != ':'
    requires before == "" || exists k | 0 <= k < |before| :: !NamesDirective(before[k])
    ensures DirectiveHead(text) == None && DirectiveHead(before + ("::" + after)) == None
  {
    ColonsThere(text);
    var rest := before + ("::" + after);
    ColonsFound(rest, |before|, 0);
    assert rest[..|before|] == before;
    if before != "" {
      var k :| 0 <= k < |before| && !NamesDirective(before[k]);
      assert !IsNameChar(rest[..|before|][k]);
    }
  }

  lemma DotsRead(rest: string)
    requires rest != "" && !IsSpace(rest[0])
    ensures DirectiveLine(".. " + rest) && TrimStart(TrimStart(".. " + rest)[2..]) == rest
  {
    var line := ".. " + rest;
    assert Lead(line) == 0 && TrimStart(line) == line;
    assert line[..2] == ".." && line[2..] == " " + rest;
    assert TextStart(" " + rest, 1) == 1 && Lead(" " + rest) == 1;
    assert (" " + rest)[1..] == rest;
  }

  lemma {:induction false} ColonsFound(s: string, at: nat, i: nat)
    requires i <= at && at + 2 <= |s| && s[at..at + 2] == "::" && forall k | i <= k < at :: s[k] != ':'
    ensures Find(s, "::", i) == Some(at)
    decreases at - i
  {
    if i < at {
      assert s[i..i + 2][0] == s[i];
      ColonsFound(s, at, i + 1);
    }
  }

  /** The language of a code directive is the first word of its argument, if it has one. */
  lemma FirstWordMeans(s: string)
    ensures match FirstWord(s)
      case None => IsBlank(s)
      case Some(word) =>
        word != "" && StartsWith(TrimStart(s), word) && (forall k | 0 <= k < |word| :: !IsSpace(word[k]))
        && (|word| < |TrimStart(s)| ==> IsSpace(TrimStart(s)[|word|]))
  {
    if !IsBlank(s) { WordEndMeans(TrimStart(s), 0); }
  }

  lemma {:induction false} WordEndMeans(s: string, i: nat)
    requires i <= |s|
    ensures var end := WordEnd(s, i);
      (forall k | i <= k < end :: !IsSpace(s[k])) && (end < |s| ==> IsSpace(s[end]))
    decreases |s| - i
  {
    if i < |s| && !IsSpace(s[i]) { WordEndMeans(s, i + 1); }
  }

  predicate OptionLine(line: string) { StartsWith(TrimStart(line), ":") }

  /** A code directive's body is its lines past the options at their start, and the blank lines after these. */
  lemma {:induction false} SkipOptionsMeans(lines: seq<string>) returns (n: nat, m: nat)
    ensures n <= m <= |lines| && SkipOptions(lines) == lines[m..]
    ensures (forall k | 0 <= k < n :: OptionLine(lines[k])) && (n < |lines| ==> !OptionLine(lines[n]))
    ensures EndsAtText(lines, n, m)
    decreases |lines|
  {
    if lines != [] && OptionLine(lines[0]) {
      n, m := SkipOptionsMeans(lines[1..]);
      n, m := n + 1, m + 1;
      assert lines[1..][m - 1..] == lines[m..];
      forall k | 0 <= k < n ensures OptionLine(lines[k]) {
        if k > 0 { assert lines[k] == lines[1..][k - 1]; }
      }
      ShiftedText(lines, n, m);
    } else {
      n := 0;
      m := SkipBlankMeans(lines);
    }
  }

  lemma ShiftedText(lines: seq<string>, n: nat, m: nat)
    requires lines != [] && 0 < n && 0 < m && EndsAtText(lines[1..], n - 1, m - 1)
    ensures EndsAtText(lines, n, m)
  {
    forall k | n <= k < m ensures IsBlank(lines[k]) {
      assert lines[k] == lines[1..][k - 1];
    }
  }

  lemma {:induction false} SkipBlankMeans(lines: seq<string>) returns (m: nat)
    ensures EndsAtText(lines, 0, m) && SkipBlank(lines) == lines[m..]
    decreases |lines|
  {
    if lines != [] && IsBlank(lines[0]) {
      m := SkipBlankMeans(lines[1..]);
      m := m + 1;
      assert lines[1..][m - 1..] == lines[m..];
      ShiftedText(lines, 1, m);
    } else {
      m := 0;
    }
  }

  lemma CutIsKept(exact: bool, line: string, k: nat)
    requires KeptLine(exact, line) && k <= |line| && (0 < k < |line| ==> IsSpace(line[k - 1]))
    ensures KeptLine(exact, line[k..])
  {
    var r := line[k..];
    forall p: nat | Marked(r, p) ensures !exact && Worded(r[p + 2..]) {
      assert line[k + p] == '.' && line[k + p + 1] == '.';
      assert Marked(line, k + p);
      assert line[k + p + 2..] == r[p + 2..];
    }
  }

  lemma DedentedIsKept(exact: bool, lines: seq<string>, amount: nat, d: seq<string>)
    requires KeptLines(exact, lines) && DedentBy(lines, amount) == Some(d)
    ensures KeptLines(exact, d)
  {
    forall k | 0 <= k < |d| ensures KeptLine(exact, d[k]) {
      var cut := CutOf(lines[k], amount);
      CutIsKept(exact, lines[k], cut);
    }
  }

  lemma RunIsKept(exact: bool, lines: seq<string>, i: nat, end: nat, d: seq<string>)
    requires KeptLines(exact, lines) && i <= end <= |lines| && Dedent(lines[i..end]) == Some(d)
    ensures KeptLines(exact, d)
  {
    DedentedIsKept(exact, lines[i..end], BaseIndent(lines[i..end]), d);
  }

  lemma ItemIsKept(exact: bool, lines: seq<string>, i: nat, end: nat, d: seq<string>)
    requires KeptLines(exact, lines) && i < end <= |lines| && ListMarker(lines[i]).Some?
    requires DedentBy(ItemLines(lines, i, end), ItemCut(lines[i])) == Some(d)
    ensures KeptLines(exact, d)
  {
    MarkerHasNoLetters(lines[i]);
    CutIsKept(exact, lines[i], ListMarker(lines[i]).value);
    DedentedIsKept(exact, ItemLines(lines, i, end), ItemCut(lines[i]), d);
  }

  lemma {:induction false} InnerKeeps(exact: bool, lines: seq<string>, block: Option<seq<string>>, s: string)
    requires Inner(lines, block, s) && KeptLines(exact, block.value)
    ensures Same(exact, s, LettersIn(block.value, 0, |block.value|))
    decreases Chars(lines), 0, 0
  {
    ToldKeeps(exact, block.value, s);
  }

  /** What a directive that is no code tells of its body. */
  lemma WhatBodyTells(lines: seq<string>, i: nat, j: nat, s: string) returns (inner: string)
    requires i < j <= |lines| && DirectiveLine(lines[i]) && Directed(lines, i, j, s)
    requires DirectiveIn(lines[i]).Some? && !IsCode(Lower(DirectiveIn(lines[i]).value.0))
    ensures Inner(lines, Dedent(lines[i + 1..j]), inner)
    ensures var (written, argument) := DirectiveIn(lines[i]).value;
      s == Letters(LabelOf(Lower(written))) + Letters(Trim(argument)) + inner
  {
    var (written, argument) := DirectiveIn(lines[i]).value;
    inner :| Inner(lines, Dedent(lines[i + 1..j]), inner)
      && s == Letters(LabelOf(Lower(written))) + Letters(Trim(argument)) + inner;
  }

  /** A line whose directives are all worded is itself no comment and no code. */
  lemma KeptDirective(exact: bool, line: string)
    requires DirectiveLine(line) && KeptLine(exact, line)
    ensures !exact && DirectiveIn(line).Some? && !IsCode(Lower(DirectiveIn(line).value.0))
  {
    DirectiveIsMarked(line);
  }

  /** The head of a directive tells the letters of its line, but for their case. */
  lemma HeadKeeps(line: string)
    requires DirectiveLine(line) && DirectiveIn(line).Some?
    ensures var (written, argument) := DirectiveIn(line).value;
      Same(false, Letters(LabelOf(Lower(written))) + Letters(Trim(argument)), Letters(line))
  {
    var (written, argument) := DirectiveIn(line).value;
    LabelKeepsLetters(written);
    TrimKeepsLetters(argument);
    DirectiveKeepsLetters(line);
    SameJoin(false, Letters(LabelOf(Lower(written))), Letters(written), Letters(Trim(argument)), Letters(argument));
  }

  lemma {:induction false} DirectedKeeps(exact: bool, lines: seq<string>, i: nat, j: nat, s: string)
    requires i < j <= |lines| && DirectiveLine(lines[i]) && KeptLines(exact, lines) && Directed(lines, i, j, s)
    ensures Same(exact, s, LettersIn(lines, i, j))
    decreases Chars(lines), 0, 2
  {
    assert KeptLine(exact, lines[i]);
    KeptDirective(exact, lines[i]);
    var inner := WhatBodyTells(lines, i, j, s);
    BodyKeeps(exact, lines, i, j, inner);
    HeadKeeps(lines[i]);
    LettersInFirst(lines, i, j);
    var (written, argument) := DirectiveIn(lines[i]).value;
    SameJoin(false, Letters(LabelOf(Lower(written))) + Letters(Trim(argument)), Letters(lines[i]),
      inner, LettersIn(lines, i + 1, j));
  }

  lemma {:induction false} BodyKeeps(exact: bool, lines: seq<string>, i: nat, j: nat, inner: string)
    requires i < j <= |lines| && KeptLines(exact, lines) && Inner(lines, Dedent(lines[i + 1..j]), inner)
    ensures Same(exact, inner, LettersIn(lines, i + 1, j))
    decreases Chars(lines), 0, 1
  {
    var body := Dedent(lines[i + 1..j]);
    RunIsKept(exact, lines, i + 1, j, body.value);
    InnerKeeps(exact, lines, body, inner);
    DedentedRunKeepsLetters(lines, i + 1, j, body.value);
  }

  lemma {:induction false} PieceKeeps(exact: bool, lines: seq<string>, base: nat, i: nat, j: nat, s: string)
    requires KeptLines(exact, lines) && Piece(lines, base, i, j, s)
    ensures j <= |lines| && Same(exact, s, LettersIn(lines, i, j))
    decreases Chars(lines), 0, 3
  {
    var line := lines[i];
    if IsBlank(line) {
      BlankHasNoLetters(line);
      LettersInOne(lines, i);
    } else if IndentOf(line) > base {
      var d := Dedent(lines[i..j]).value;
      RunIsKept(exact, lines, i, j, d);
      DedentedRunKeepsLetters(lines, i, j, d);
      InnerKeeps(exact, lines, Some(d), s);
    } else if DirectiveLine(line) {
      DirectedKeeps(exact, lines, i, j, s);
    } else if !IsLeaf(lines, i) {
      OwnerKeeps(exact, lines, i, j, s);
    }
  }

  /** A list item or a definition. */
  lemma {:induction false} OwnerKeeps(exact: bool, lines: seq<string>, i: nat, j: nat, s: string)
    requires i < j <= |lines| && KeptLines(exact, lines)
    requires if ListMarker(lines[i]).Some? then Inner(lines, DedentBy(ItemLines(lines, i, j), ItemCut(lines[i])), s)
      else exists inner: string | Inner(lines, Dedent(lines[i + 1..j]), inner) :: s == Letters(lines[i]) + inner
    ensures Same(exact, s, LettersIn(lines, i, j))
    decreases Chars(lines), 0, 2
  {
    if ListMarker(lines[i]).Some? {
      var d := DedentBy(ItemLines(lines, i, j), ItemCut(lines[i])).value;
      ItemIsKept(exact, lines, i, j, d);
      ItemKeepsLetters(lines, i, j, d);
      InnerKeeps(exact, lines, Some(d), s);
    } else {
      var d := Dedent(lines[i + 1..j]);
      var inner: string :| Inner(lines, d, inner) && s == Letters(lines[i]) + inner;
      RunIsKept(exact, lines, i + 1, j, d.value);
      DedentedRunKeepsLetters(lines, i + 1, j, d.value);
      InnerKeeps(exact, lines, d, inner);
      LettersInFirst(lines, i, j);
      SameJoin(exact, Letters(lines[i]), Letters(lines[i]), inner, LettersIn(lines, i + 1, j));
    }
  }

  lemma {:induction false} ChainKeeps(exact: bool, lines: seq<string>, base: nat, i: nat, j: nat, s: string)
    requires KeptLines(exact, lines) && Chain(lines, base, i, j, s) && i <= j <= |lines|
    ensures Same(exact, s, LettersIn(lines, i, j))
    decreases Chars(lines), 1, j
  {
    if i < j {
      var k: nat, before: string, last: string :| i <= k < j
        && Chain(lines, base, i, k, before) && Piece(lines, base, k, j, last) && s == before + last;
      ChainKeeps(exact, lines, base, i, k, before);
      PieceKeeps(exact, lines, base, k, j, last);
      LettersInJoin(lines, i, k, j);
      SameJoin(exact, before, LettersIn(lines, i, k), last, LettersIn(lines, k, j));
    }
  }

  /**
   * Without directives and comments the letters of the lines are handed over as they are,
   * and with directives whose words are shown, the same but for their case.
   */
  lemma {:induction false} ToldKeeps(exact: bool, lines: seq<string>, s: string)
    requires KeptLines(exact, lines) && Told(lines, s)
    ensures Same(exact, s, LettersIn(lines, 0, |lines|))
    decreases Chars(lines), 2, 0
  {
    ChainKeeps(exact, lines, BaseIndent(lines), 0, |lines|, s);
  }

  // ----- what the calls on the renderer tell --------------------------------------------------------

  /** The calls made since `before` hand over what the constructs of the lines from `i` to `j` do. */
  ghost predicate Tells(before: seq<Event>, after: seq<Event>, lines: seq<string>, base: nat, i: nat, j: nat) {
    forall n: nat {:trigger Unseal(n)} | Unseal(n) ::
      exists s: string | Chain(lines, base, i, j, s) :: HandsOver(before, after, s)
  }

  /** The calls made since `before` hand over what the whole block does. */
  ghost predicate TellsAll(before: seq<Event>, after: seq<Event>, lines: seq<string>) {
    Tells(before, after, lines, BaseIndent(lines), 0, |lines|)
  }

  lemma TellsOf(before: seq<Event>, after: seq<Event>, lines: seq<string>, base: nat, i: nat, j: nat, s: string)
    requires Chain(lines, base, i, j, s) && HandsOver(before, after, s)
    ensures Tells(before, after, lines, base, i, j)
  {
  }

  lemma WhatTells(before: seq<Event>, after: seq<Event>, lines: seq<string>, base: nat, i: nat, j: nat)
    returns (s: string)
    requires Tells(before, after, lines, base, i, j)
    ensures Chain(lines, base, i, j, s) && HandsOver(before, after, s)
  {
    assert Unseal(0);
    s :| Chain(lines, base, i, j, s) && HandsOver(before, after, s);
  }

  lemma TellsNothing(events: seq<Event>, lines: seq<string>, base: nat, i: nat)
    ensures Tells(events, events, lines, base, i, i)
  {
    HandsOverNothing(events);
    TellsOf(events, events, lines, base, i, i, "");
  }

  lemma TellsMute(before: seq<Event>, after: seq<Event>, lines: seq<string>, base: nat, i: nat, j: nat, e: Event)
    requires Tells(before, after, lines, base, i, j) && Mute(e)
    ensures Tells(before, after + [e], lines, base, i, j)
  {
    var s := WhatTells(before, after, lines, base, i, j);
    HandsOverMute(before, after, s, e);
    TellsOf(before, after + [e], lines, base, i, j, s);
  }

  lemma TellsOn(a: seq<Event>, b: seq<Event>, c: seq<Event>, lines: seq<string>, base: nat, i: nat, j: nat, k: nat)
    requires i <= j <= k && Tells(a, b, lines, base, i, j) && Tells(b, c, lines, base, j, k)
    ensures Tells(a, c, lines, base, i, k)
  {
    var s := WhatTells(a, b, lines, base, i, j);
    var t := WhatTells(b, c, lines, base, j, k);
    ChainJoins(lines, base, i, j, k, s, t);
    HandsOverJoin(a, b, c, s, t, s + t);
    TellsOf(a, c, lines, base, i, k, s + t);
  }

  /** Blank lines hand over nothing. */
  lemma {:induction false} TellsBlank(a: seq<Event>, b: seq<Event>, lines: seq<string>, base: nat, i: nat, j: nat,
      k: nat)
    requires i <= j <= k <= |lines| && Tells(a, b, lines, base, i, j) && forall n | j <= n < k :: IsBlank(lines[n])
    ensures Tells(a, b, lines, base, i, k)
    decreases k
  {
    if j < k {
      TellsBlank(a, b, lines, base, i, j, k - 1);
      ChainOf(lines, base, k - 1, k, "");
      HandsOverNothing(b);
      TellsOf(b, b, lines, base, k - 1, k, "");
      TellsOn(a, b, b, lines, base, i, k - 1, k);
    }
  }

  /** What the lines of a construct hand over as they stand is what it tells. */
  lemma LeafTells(a: seq<Event>, b: seq<Event>, lines: seq<string>, base: nat, i: nat, j: nat)
    requires i < j <= |lines| && !IsBlank(lines[i]) && IndentOf(lines[i]) <= base && !DirectiveLine(lines[i])
    requires IsLeaf(lines, i) && LeafEnds(lines, i, j) && Hands(a, b, lines, i, j)
    ensures Tells(a, b, lines, base, i, j)
  {
    HandsIs(a, b, lines, i, j);
    ChainOf(lines, base, i, j, LettersIn(lines, i, j));
    TellsOf(a, b, lines, base, i, j, LettersIn(lines, i, j));
  }

  lemma MuteFirst(a: seq<Event>, e: Event, b: seq<Event>, s: string)
    requires Mute(e) && HandsOver(a + [e], b, s)
    ensures HandsOver(a, b, s)
  {
    HandsOverNothing(a);
    HandsOverMute(a, a, "", e);
    Regroup(s, "", "");
    HandsOverJoin(a, a + [e], b, "", s, s);
  }

  lemma QuoteTells(a: seq<Event>, b: seq<Event>, lines: seq<string>, base: nat, i: nat, end: nat, d: seq<string>)
    requires i < end <= |lines| && !IsBlank(lines[i]) && IndentOf(lines[i]) > base && IndentedRunIs(lines, i, base, end)
    requires Dedent(lines[i..end]) == Some(d) && Chars(d) < Chars(lines) && TellsAll(a + [QuotePush], b, d)
    ensures Tells(a, b + [QuotePop], lines, base, i, end)
  {
    var s := WhatTells(a + [QuotePush], b, d, BaseIndent(d), 0, |d|);
    MuteFirst(a, QuotePush, b, s);
    HandsOverMute(a, b, s, QuotePop);
    ChainOf(lines, base, i, end, s);
    TellsOf(a, b + [QuotePop], lines, base, i, end, s);
  }

  /** The line at the margin of a block at which a construct owning the lines under it starts. */
  ghost predicate Owner(lines: seq<string>, base: nat, i: nat, end: nat) {
    i < end <= |lines| && !IsBlank(lines[i]) && IndentOf(lines[i]) <= base
      && IndentedRunIs(lines, i + 1, IndentOf(lines[i]), end)
  }

  /** A bullet or number opens neither a directive nor a field. */
  lemma ItemIsNoOther(line: string)
    requires ListMarker(line).Some?
    ensures !IsBlank(line) && !DirectiveLine(line) && FieldHead(line).None?
  {
    var t := TrimStart(line);
    assert DirectiveLine(line) ==> t[..2][0] == '.' && t[0] == t[..2][0];
    assert FieldHead(line).Some? ==> t[..1][0] == ':' && t[0] == t[..1][0];
    assert StartsWith(t, "(") ==> t[..1][0] == '(' && t[0] == t[..1][0];
  }

  lemma ItemTells(a: seq<Event>, b: seq<Event>, lines: seq<string>, base: nat, i: nat, end: nat, d: seq<string>)
    requires Owner(lines, base, i, end) && ListMarker(lines[i]).Some?
    requires DedentBy(ItemLines(lines, i, end), ItemCut(lines[i])) == Some(d) && Chars(d) < Chars(lines)
    requires TellsAll(a + [ListItem], b, d)
    ensures Tells(a, b, lines, base, i, end)
  {
    var s := WhatTells(a + [ListItem], b, d, BaseIndent(d), 0, |d|);
    MuteFirst(a, ListItem, b, s);
    ItemIsNoOther(lines[i]);
    ChainOf(lines, base, i, end, s);
    TellsOf(a, b, lines, base, i, end, s);
  }

  lemma DefinitionTells(a: seq<Event>, b: seq<Event>, lines: seq<string>, base: nat, i: nat, end: nat, d: seq<string>)
    requires Owner(lines, base, i, end) && !DirectiveLine(lines[i]) && !IsLeaf(lines, i) && ListMarker(lines[i]).None?
    requires Dedent(lines[i + 1..end]) == Some(d) && Chars(d) < Chars(lines)
    requires TellsAll(a + TermCalls(Trim(lines[i])), b, d)
    ensures Tells(a, b + [QuotePop], lines, base, i, end)
  {
    var said := a + TermCalls(Trim(lines[i]));
    var s := WhatTells(said, b, d, BaseIndent(d), 0, |d|);
    var all := Letters(lines[i]) + s;
    TermHandsOver(a, lines[i]);
    HandsOverJoin(a, said, b, Letters(lines[i]), s, all);
    HandsOverMute(a, b, all, QuotePop);
    assert Inner(lines, Dedent(lines[i + 1..end]), s);
    ChainOf(lines, base, i, end, all);
    TellsOf(a, b + [QuotePop], lines, base, i, end, all);
  }

  /** What the calls for a directive or comment are, with the body the lines under it dedent to. */
  ghost predicate DirectiveCalls(a: seq<Event>, b: seq<Event>, line: string, body: seq<string>)
    requires DirectiveLine(line)
  {
    match DirectiveIn(line)
    case None => b == a
    case Some((name, argument)) =>
      if IsCode(Lower(name)) then b == a + [Code(FirstWord(argument), JoinLines(SkipOptions(body)))]
      else TellsAll(a + LabelCalls(LabelOf(Lower(name)), Trim(argument)), b, body)
  }

  lemma DirectiveTells(a: seq<Event>, b: seq<Event>, lines: seq<string>, base: nat, i: nat, end: nat, d: seq<string>)
    requires Owner(lines, base, i, end) && DirectiveLine(lines[i])
    requires Dedent(lines[i + 1..end]) == Some(d) && Chars(d) < Chars(lines) && DirectiveCalls(a, b, lines[i], d)
    ensures Tells(a, b, lines, base, i, end)
  {
    var s := DirectiveHandsOver(a, b, lines, i, end, d);
    ChainOf(lines, base, i, end, s);
    TellsOf(a, b, lines, base, i, end, s);
  }

  lemma DirectiveHandsOver(a: seq<Event>, b: seq<Event>, lines: seq<string>, i: nat, end: nat, d: seq<string>)
    returns (s: string)
    requires i < end <= |lines| && DirectiveLine(lines[i])
    requires Dedent(lines[i + 1..end]) == Some(d) && Chars(d) < Chars(lines) && DirectiveCalls(a, b, lines[i], d)
    ensures Directed(lines, i, end, s) && HandsOver(a, b, s)
  {
    match DirectiveIn(lines[i])
    case None =>
      s := "";
      HandsOverNothing(a);
    case Some((written, argument)) =>
      var name := Lower(written);
      if IsCode(name) {
        s := Letters(JoinLines(SkipOptions(d)));
        HandsOverOne(a, Code(FirstWord(argument), JoinLines(SkipOptions(d))));
      } else {
        var inner := LabelledHandsOver(a, b, LabelOf(name), Trim(argument), d);
        s := Letters(LabelOf(name)) + Letters(Trim(argument)) + inner;
        assert Inner(lines, Dedent(lines[i + 1..end]), inner);
      }
  }

  lemma LabelledHandsOver(a: seq<Event>, b: seq<Event>, name: string, argument: string, body: seq<string>)
    returns (inner: string)
    requires TellsAll(a + LabelCalls(name, argument), b, body)
    ensures Told(body, inner) && HandsOver(a, b, Letters(name) + Letters(argument) + inner)
  {
    var said := a + LabelCalls(name, argument);
    inner := WhatTells(said, b, body, BaseIndent(body), 0, |body|);
    LabelHandsOver(a, name, argument);
    HandsOverJoin(a, said, b, Letters(name) + Letters(argument), inner, Letters(name) + Letters(argument) + inner);
  }

  /** A directive that is no code, over a body without directives, hands over its label, its argument and its body. */
  lemma DirectiveOverText(lines: seq<string>, i: nat, j: nat, s: string)
    requires i < j <= |lines| && DirectiveLine(lines[i]) && Directed(lines, i, j, s)
    requires DirectiveIn(lines[i]).Some? && !IsCode(Lower(DirectiveIn(lines[i]).value.0))
    requires KeptLines(true, Dedent(lines[i + 1..j]).value)
    ensures var (name, argument) := DirectiveIn(lines[i]).value;
      s == Letters(LabelOf(Lower(name))) + Letters(argument) + LettersIn(lines, i + 1, j)
  {
    var body := Dedent(lines[i + 1..j]);
    var inner := WhatBodyTells(lines, i, j, s);
    InnerKeeps(true, lines, body, inner);
    DedentedRunKeepsLetters(lines, i + 1, j, body.value);
    TrimKeepsLetters(DirectiveIn(lines[i]).value.1);
  }

  lemma ToldByCalls(events: seq<Event>, lines: seq<string>)
    requires TellsAll([], events, lines)
    ensures Told(lines, AllHanded(events))
  {
    var s := WhatTells([], events, lines, BaseIndent(lines), 0, |lines|);
    HandsOverIs([], events, s);
    Regroup(s, "", "");
  }

  /** The calls for the literal block after a paragraph, which reaches from the first text line to `j`. */
  ghost predicate LiteralCalls(a: seq<Event>, b: seq<Event>, lines: seq<string>, end: nat, j: nat) {
    if j == end then b == a else
      exists at: nat | EndsAtText(lines, end, at) && at <= j <= |lines| && Dedent(lines[at..j]).Some? ::
        b == a + [Code(None, JoinLines(Dedent(lines[at..j]).value))]
  }

  lemma NoLiteral(events: seq<Event>, lines: seq<string>, end: nat, at: nat, base: nat)
    requires EndsAtText(lines, end, at) && (at < |lines| ==> IndentOf(lines[at]) <= base)
    ensures LiteralEnds(lines, end, base, end) && LiteralCalls(events, events, lines, end, end)
  {
  }

  lemma LiteralIs(events: seq<Event>, lines: seq<string>, end: nat, at: nat, base: nat, j: nat, code: seq<string>)
    requires EndsAtText(lines, end, at) && at < |lines| && IndentOf(lines[at]) > base
    requires IndentedRunIs(lines, at, base, j) && Dedent(lines[at..j]) == Some(code)
    ensures at < j && LiteralEnds(lines, end, base, j)
    ensures LiteralCalls(events, events + [Code(None, JoinLines(code))], lines, end, j)
  {
    RunStarts(lines, at, j, base);
  }

  lemma ParagraphIs(lines: seq<string>, i: nat, end: nat, j: nat)
    requires i < |lines| && TextEnds(lines, i, end)
    requires if LiteralMarker(JoinParagraph(lines[i..end])).1 then LiteralEnds(lines, end, IndentOf(lines[i]), j)
      else j == end
    ensures ParagraphEnds(lines, i, j)
  {
  }

  /** At a line of the block's margin, none of the constructs with a mark of their own opens. */
  ghost predicate Unmarked(line: string, base: nat) {
    !IsBlank(line) && IndentOf(line) <= base && !DirectiveLine(line) && FieldHead(line).None? && ListMarker(line).None?
  }
}
