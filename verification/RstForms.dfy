/** How the constructs of reStructuredText are recognized as they are written. */
module RstForms {
  import opened Wrappers
  import opened Sealed
  import opened Decimals
  import opened Utf8
  import opened RstLines
  import opened RstText
  import opened Rst
  import opened RstTold

  // ----- lists ----------------------------------------------------------------------------

  /** Text that starts with no white space. */
  predicate IsText(s: string) { s != "" && !IsSpace(s[0]) }

  lemma StartsAtText(s: string)
    requires IsText(s)
    ensures Lead(s) == 0 && TrimStart(s) == s
  {
  }

  /** A bullet and a space start an item, whose text follows. */
  lemma BulletReads(b: char, text: string)
    requires b in {'-', '*', '+', '\U{2022}', '\U{2023}', '\U{2043}'} && IsText(text)
    ensures ListMarker([b] + " " + text) == Some(2) && Enumerator([b] + " " + text) == None
    ensures ListMarker([b]) == Some(1) && ListMarker([b] + text) == None
  {
    var line := [b] + " " + text;
    StartsAtText(line);
    StartsAtText([b]);
    StartsAtText([b] + text);
    assert line[0] == b && line[1] == ' ' && line[2] == text[0];
    assert TextStart(line, 1) == 2;
  }

  lemma {:induction false} DigitsEndAt(s: string, i: nat, end: nat)
    requires i <= end <= |s| && (forall k | i <= k < end :: IsDigit(s[k])) && (end < |s| ==> !IsDigit(s[end]))
    ensures DigitsEnd(s, i) == end
    decreases end - i
  {
    if i < end { DigitsEndAt(s, i + 1, end); }
  }

  /** A number as it is written in front of an item, perhaps in parentheses. */
  function Numbered(paren: bool, n: nat, close: char, text: string): string {
    (if paren then "(" else "") + (Decimal(n) + ([close, ' '] + text))
  }

  lemma NumberedParts(paren: bool, n: nat, close: char, text: string)
    requires close in {'.', ')'} && IsText(text)
    ensures var (line, from) := (Numbered(paren, n, close, text), if paren then 1 else 0);
      var end := from + |Decimal(n)|;
      |line| > end + 2 && line[from..end] == Decimal(n) && line[end] == close && line[end + 1] == ' '
      && !IsSpace(line[end + 2]) && (forall k | from <= k < end :: IsDigit(line[k])) && IsText(line)
      && (StartsWith(line, "(") <==> paren)
  {
    var (line, d, from) := (Numbered(paren, n, close, text), Decimal(n), if paren then 1 else 0);
    assert line[from..from + |d|] == d;
    forall k | from <= k < from + |d| ensures IsDigit(line[k]) {
      assert line[k] == line[from..from + |d|][k - from];
    }
    assert line[from + |d| + 2] == text[0];
    assert !paren ==> line[0] == d[0] && line[..1] == [d[0]];
    assert paren ==> line[..1] == "(";
  }

  /** The number itself, or one where it does not fit 64 bits. */
  function Counted(n: nat): nat { if n < 0x1_0000_0000_0000_0000 then n else 1 }

  /** A number, with a point or a parenthesis, is a marker of that number, or of one if it does not fit 64 bits. */
  lemma NumberReads(paren: bool, n: nat, close: char, text: string)
    requires close in {'.', ')'} && IsText(text)
    ensures var (line, length) := (Numbered(paren, n, close, text), (if paren then 1 else 0) + |Decimal(n)| + 1);
      EnumeratorMarker(line) == Some(Marker(length, Counted(n), length + 1))
  {
    var (line, from) := (Numbered(paren, n, close, text), if paren then 1 else 0);
    NumberedParts(paren, n, close, text);
    DecimalValue(n);
    MarkerReads(line, from, from + |Decimal(n)|, n);
  }

  lemma MarkerReads(line: string, from: nat, end: nat, n: nat)
    requires from == (if StartsWith(line, "(") then 1 else 0) && from < end < |line| - 2
    requires AllDigits(line[from..end]) && Value(line[from..end]) == n
    requires line[end] in {'.', ')'} && line[end + 1] == ' ' && !IsSpace(line[end + 2])
    requires forall k | from <= k < end :: IsDigit(line[k])
    ensures EnumeratorMarker(line) == Some(Marker(end + 1, Counted(n), end + 2))
  {
    DigitsEndAt(line, from, end);
    assert line[from] != '#';
    assert TextStart(line, end + 1) == end + 2;
  }

  /** So its line is an item of that number. */
  lemma NumberedItem(paren: bool, n: nat, close: char, text: string)
    requires close in {'.', ')'} && IsText(text)
    ensures var line := Numbered(paren, n, close, text);
      Enumerator(line) == Some(Counted(n)) && ListMarker(line) == Some(|line| - |text|)
  {
    var m := NumberedIs(paren, n, close, text);
    ItemOf(Numbered(paren, n, close, text), m);
  }

  lemma NumberedIs(paren: bool, n: nat, close: char, text: string) returns (m: Marker)
    requires close in {'.', ')'} && IsText(text)
    ensures var line := Numbered(paren, n, close, text);
      EnumeratorMarker(line) == Some(m) && m.number == Counted(n) && m.text == |line| - |text|
      && IsText(line) && !IsBullet(line[0])
  {
    NumberedParts(paren, n, close, text);
    NumberReads(paren, n, close, text);
    NumberedStart(paren, n, close, text);
    m := EnumeratorMarker(Numbered(paren, n, close, text)).value;
  }

  lemma NumberedStart(paren: bool, n: nat, close: char, text: string)
    ensures !IsBullet(Numbered(paren, n, close, text)[0])
    ensures |Numbered(paren, n, close, text)| == (if paren then 1 else 0) + |Decimal(n)| + 2 + |text|
  {
    var line := Numbered(paren, n, close, text);
    assert line[0] == if paren then '(' else Decimal(n)[0];
  }

  lemma ItemOf(line: string, m: Marker)
    requires IsText(line) && !IsBullet(line[0]) && EnumeratorMarker(line) == Some(m)
    ensures Enumerator(line) == Some(m.number) && ListMarker(line) == Some(m.text)
  {
    StartsAtText(line);
  }

  /** `#.` numbers by itself, from one. */
  lemma AutoNumberReads(text: string)
    requires IsText(text)
    ensures EnumeratorMarker("#. " + text) == Some(Marker(2, 1, 3))
  {
    var line := "#. " + text;
    assert line[3] == text[0] && line[..1] == "#";
    assert TextStart(line, 2) == 3;
  }

  // ----- sections and tables ------------------------------------------------------------------

  /** ASCII punctuation: what is graphic and neither a letter nor a digit. */
  lemma AdornmentIsPunctuation(c: char)
    ensures IsAdornment(c) <==>
      ' ' < c < '\U{7f}' && !IsDigit(c) && !('a' <= c <= 'z') && !('A' <= c <= 'Z')
  {
  }

  function Run(c: char, n: nat): (s: string)
    ensures |s| == n && forall k | 0 <= k < n :: s[k] == c
  {
    seq(n, k => c)
  }

  lemma RunIsTrimmed(c: char, n: nat)
    requires !IsSpace(c)
    ensures Trim(Run(c, n)) == Run(c, n)
  {
    if n == 0 {
      assert Run(c, n) == "" && TrimStart("") == "";
    } else {
      EdgesAreTrimmed(Run(c, n));
    }
  }

  lemma EdgesAreTrimmed(s: string)
    requires s != "" && !IsSpace(s[0]) && !IsSpace(s[|s| - 1])
    ensures Trim(s) == s
  {
    assert TrimStart(s) == s;
  }

  /** Two or more of one punctuation are an adornment, and one alone is not. */
  lemma AdornmentReads(c: char, n: nat)
    requires IsAdornment(c)
    ensures AdornmentChar(Run(c, n)) == if n >= 2 then Some(c) else None
  {
    RunIsTrimmed(c, n);
  }

  /** A title is read above a run of punctuation as long as it is, and above a shorter one it is not. */
  lemma UnderlinedReads(title: string, c: char, n: nat)
    requires Trim(title) == title && title != "" && AdornmentChar(title).None? && IsAdornment(c) && n >= 2
    ensures SectionAt([title, Run(c, n)], 0)
         == if |title| <= n then Some(Title(title, Level(false, c), 2)) else None
  {
    AdornmentReads(c, n);
    RunIsTrimmed(c, n);
  }

  /** ... and between two runs of the same, of whatever length. */
  lemma OverlinedReads(title: string, c: char, m: nat, d: char, n: nat)
    requires Trim(title) == title && title != "" && IsAdornment(c) && m >= 2 && IsAdornment(d) && n >= 2
    ensures SectionAt([Run(c, m), title, Run(d, n)], 0)
         == if c == d then Some(Title(title, Level(true, c), 3)) else None
  {
    AdornmentReads(c, m);
    AdornmentReads(d, n);
  }

  /** The borders of grid and simple tables, and lines that are none. */
  lemma BordersRead(m: nat, n: nat)
    requires m >= 1 && n >= 1
    ensures IsTableBorder("+" + (Run('-', m) + "+")) && IsTableBorder("+" + (Run('=', m) + "+"))
    ensures IsTableBorder(Run('=', m) + (" " + Run('=', n)))
    ensures !IsTableBorder(Run('=', m))
  {
    GridBorder('-', m);
    GridBorder('=', m);
    SimpleBorder(m, n);
    RunIsTrimmed('=', m);
  }

  lemma GridBorder(c: char, m: nat)
    requires c in {'-', '='} && m >= 1
    ensures IsTableBorder("+" + (Run(c, m) + "+"))
  {
    var s := "+" + (Run(c, m) + "+");
    EdgesAreTrimmed(s);
  }

  lemma SimpleBorder(m: nat, n: nat)
    requires m >= 1 && n >= 1
    ensures IsTableBorder(Run('=', m) + (" " + Run('=', n)))
  {
    var s := Run('=', m) + (" " + Run('=', n));
    EdgesAreTrimmed(s);
    assert s[m] == ' ';
  }

  // ----- lines of text --------------------------------------------------------------------

  /** A bar and a space start a line whose break is kept; a bar before anything else does not. */
  lemma BarReads(text: string)
    ensures StripLineBlock("|") == Some("")
    ensures IsText(text) ==> StripLineBlock("| " + text) == Some(text) && StripLineBlock("|" + text) == None
  {
    StartsAtText("|");
    StartsAtText("| " + text);
    StartsAtText("|" + text);
    if IsText(text) {
      var t := "| " + text;
      assert t[1..] == " " + text && t[..1] == "|";
      assert TextStart(" " + text, 1) == 1 && (" " + text)[1..] == text;
      assert ("|" + text)[1] == text[0];
    }
  }

  /** Two colons at the end of a text leave one, or none after white space or alone. */
  lemma LiteralReads(text: string)
    requires text != "" && !IsSpace(text[|text| - 1])
    ensures LiteralMarker(text + "::") == (text + ":", true) && LiteralMarker(text + " ::") == (text, true)
    ensures LiteralMarker("::") == ("", true)
  {
    var (tight, loose) := (text + "::", text + " ::");
    assert tight[|tight| - 2..] == "::" && tight[..|tight| - 2] == text;
    assert TrimEnd(text) == text;
    assert loose[|loose| - 2..] == "::" && loose[..|loose| - 2] == text + " ";
    assert TextEnd(text + " ", |text| + 1) == |text| && TrimEnd(text + " ") == text;
    assert "::"[0..] == "::" && "::"[..0] == "";
  }

  /** Every line that shows its construct by a mark ends the paragraph before it, and no other line does. */
  lemma MarkedLinesEndParagraphs(line: string)
    ensures StartsConstruct(line) <==>
      FieldHead(line).Some? || ListMarker(line).Some? || StripLineBlock(line).Some? || IsDoctest(line)
      || DirectiveLine(line) || AdornmentChar(line).Some?
  {
    var t := TrimStart(line);
    assert StartsWith(t, ".. ") ==> t[..2] == ".. "[..2] && t[2] == ".. "[2];
    assert StartsWith(t, "..") && |t| > 2 && t[2] == ' ' ==> t[..3] == ".." + [t[2]];
    if t == ".." { RunIsTrimmed('.', 2); }
    assert Run('.', 2) == "..";
    assert t == ".." ==> TrimEnd(t) == t;
  }

  /** An admonition is labelled with its capitalized name, any other directive with its name. */
  lemma LabelMeans(name: string)
    ensures var l := LabelOf(name);
      if IsAdmonition(name) then
        |l| == |name| > 0 && 'A' <= l[0] <= 'Z' && LowerChar(l[0]) == name[0] && l[1..] == name[1..]
      else l == name
  {
  }

  lemma OneMoreJoined(lines: seq<string>)
    requires |lines| > 1
    ensures var n := |lines| - 1; JoinLines(lines) == JoinLines(lines[..n]) + "\n" + lines[n]
  {
  }

  lemma {:induction false} JoinedLines(a: seq<string>, b: seq<string>)
    requires a != [] && b != []
    ensures JoinLines(a + b) == JoinLines(a) + "\n" + JoinLines(b)
    decreases |b|
  {
    var n := |b| - 1;
    assert (a + b)[..|a| + n] == a + b[..n] && (a + b)[|a| + n] == b[n];
    OneMoreJoined(a + b);
    if n > 0 {
      JoinedLines(a, b[..n]);
      OneMoreJoined(b);
      Regroup(JoinLines(a) + "\n", JoinLines(b[..n]) + "\n", b[n]);
      Regroup(JoinLines(a) + "\n", JoinLines(b[..n]), "\n");
    } else {
      assert a + b[..0] == a;
    }
  }

  /** Lines of code are joined by line breaks. */
  lemma JoinLinesMeans(line: string, a: seq<string>, b: seq<string>)
    ensures JoinLines([]) == "" && JoinLines([line]) == line
    ensures a != [] && b != [] ==> JoinLines(a + b) == JoinLines(a) + "\n" + JoinLines(b)
  {
    if a != [] && b != [] { JoinedLines(a, b); }
  }

  function Spaced(s: string, t: string): string { if s == "" then t else if t == "" then s else s + " " + t }

  lemma SpacedTwice(s: string, t: string, u: string)
    ensures Spaced(Spaced(s, t), u) == Spaced(s, Spaced(t, u))
  {
    assert s != "" && t != "" && u != "" ==> s + " " + t + " " + u == s + " " + (t + " " + u);
  }

  /** The lines make this paragraph. */
  ghost predicate Makes(lines: seq<string>, text: string) {
    forall n: nat {:trigger Unseal(n)} | Unseal(n) :: JoinParagraph(lines) == text
  }

  lemma MakesMore(lines: seq<string>, line: string, text: string)
    requires Makes(lines, text)
    ensures Makes(lines + [line], Spaced(text, Trim(line)))
  {
    assert Unseal(0);
    assert (lines + [line])[..|lines|] == lines;
  }

  lemma {:induction false} MakesJoined(a: seq<string>, s: string, b: seq<string>, n: nat) returns (t: string)
    requires Makes(a, s) && n <= |b|
    ensures Makes(b[..n], t) && Makes(a + b[..n], Spaced(s, t))
  {
    if n == 0 {
      t := "";
      assert b[..n] == [] && a + [] == a;
    } else {
      var before := MakesJoined(a, s, b, n - 1);
      var last := b[n - 1];
      t := Spaced(before, Trim(last));
      MakesMore(b[..n - 1], last, before);
      MakesMore(a + b[..n - 1], last, Spaced(s, before));
      SpacedTwice(s, before, Trim(last));
      assert b[..n] == b[..n - 1] + [last];
      assert a + b[..n] == a + b[..n - 1] + [last];
    }
  }

  /** Lines of a paragraph are trimmed and joined by single spaces, blank ones left out. */
  lemma JoinParagraphMeans(line: string, a: seq<string>, b: seq<string>)
    ensures JoinParagraph([]) == "" && JoinParagraph([line]) == Trim(line)
    ensures JoinParagraph(a + b) == Spaced(JoinParagraph(a), JoinParagraph(b))
  {
    assert Unseal(0);
    assert [line][..0] == [];
    var t := MakesJoined(a, JoinParagraph(a), b, |b|);
    assert b[..|b|] == b;
  }
}
