/**
 * The text of reStructuredText constructs, and what is kept of it: the letters of the
 * lines, which no trimming, joining or dedenting takes away or moves.
 */
module RstText {
  import opened Wrappers
  import opened Decimals
  import opened Utf8
  import opened RstLines

  /** The lines trimmed, without the blank ones, joined by spaces. */
  function JoinParagraph(lines: seq<string>): string {
    if lines == [] then "" else
      var (before, last) := (JoinParagraph(lines[..|lines| - 1]), Trim(lines[|lines| - 1]));
      if last == "" then before else if before == "" then last else before + " " + last
  }

  function JoinLines(lines: seq<string>): string {
    if lines == [] then ""
    else if |lines| == 1 then lines[0]
    else JoinLines(lines[..|lines| - 1]) + "\n" + lines[|lines| - 1]
  }

  /** A paragraph's text without the marker of a literal block, and whether it has one. */
  function LiteralMarker(text: string): (string, bool) {
    if !EndsWith(text, "::") then (text, false) else
      var head := text[..|text| - 2];
      if TrimEnd(head) == "" then ("", true)
      else if IsSpace(head[|head| - 1]) then (TrimEnd(head), true)
      else (head + ":", true)
  }

  function Lower(s: string): string {
    if s == "" then "" else Lower(s[..|s| - 1]) + [LowerChar(s[|s| - 1])]
  }

  function LowerChar(c: char): char { if 'A' <= c <= 'Z' then (c as int + 32) as char else c }

  // ----- letters ----------------------------------------------------------------------------

  /** A character that is no white space, digit, ASCII punctuation or bullet. */
  predicate IsLetter(c: char) { !IsSpace(c) && !IsDigit(c) && !IsAdornment(c) && !IsBullet(c) }

  /** The letters among the first `n` characters, in order. */
  function LettersTo(s: string, n: nat): string
    requires n <= |s|
  {
    if n == 0 then "" else LettersTo(s, n - 1) + if IsLetter(s[n - 1]) then [s[n - 1]] else ""
  }

  function Letters(s: string): string { LettersTo(s, |s|) }

  lemma {:induction false} LettersOfPrefix(a: string, b: string, n: nat)
    requires n <= |a|
    ensures LettersTo(a + b, n) == LettersTo(a, n)
  {
    if n > 0 { LettersOfPrefix(a, b, n - 1); }
  }

  lemma {:induction false} LettersAfter(a: string, b: string, n: nat)
    requires n <= |b|
    ensures LettersTo(a + b, |a| + n) == Letters(a) + LettersTo(b, n)
  {
    if n == 0 { LettersOfPrefix(a, b, |a|); } else { LettersAfter(a, b, n - 1); }
  }

  lemma LettersJoin(a: string, b: string)
    ensures Letters(a + b) == Letters(a) + Letters(b)
  {
    LettersAfter(a, b, |b|);
  }

  lemma {:induction false} NoLetters(s: string, n: nat)
    requires n <= |s| && forall k | 0 <= k < n :: !IsLetter(s[k])
    ensures LettersTo(s, n) == ""
  {
    if n > 0 { NoLetters(s, n - 1); }
  }

  lemma CutKeepsLetters(s: string, k: nat)
    requires k <= |s| && forall j | 0 <= j < k :: !IsLetter(s[j])
    ensures Letters(s[k..]) == Letters(s)
  {
    assert s == s[..k] + s[k..];
    LettersJoin(s[..k], s[k..]);
    NoLetters(s[..k], k);
  }

  lemma FrontKeepsLetters(s: string, k: nat)
    requires k <= |s| && forall j | k <= j < |s| :: !IsLetter(s[j])
    ensures Letters(s[..k]) == Letters(s)
  {
    assert s == s[..k] + s[k..];
    LettersJoin(s[..k], s[k..]);
    NoLetters(s[k..], |s| - k);
  }

  lemma TrimKeepsLetters(s: string)
    ensures Letters(TrimStart(s)) == Letters(s) && Letters(TrimEnd(s)) == Letters(s) && Letters(Trim(s)) == Letters(s)
  {
    CutKeepsLetters(s, Lead(s));
    FrontKeepsLetters(s, TextEnd(s, |s|));
    var t := TrimStart(s);
    FrontKeepsLetters(t, TextEnd(t, |t|));
  }

  lemma BlankHasNoLetters(s: string)
    requires IsBlank(s)
    ensures Letters(s) == ""
  {
    NoLetters(s, |s|);
  }

  lemma AdornmentHasNoLetters(line: string)
    requires AdornmentChar(line).Some?
    ensures Letters(line) == ""
  {
    TrimKeepsLetters(line);
    NoLetters(Trim(line), |Trim(line)|);
  }

  /** The letters of the lines from `i` up to `j`. */
  function LettersIn(lines: seq<string>, i: nat, j: nat): string
    requires i <= j <= |lines|
    decreases j - i
  {
    if i == j then "" else LettersIn(lines, i, j - 1) + Letters(lines[j - 1])
  }

  lemma {:induction false} LettersInJoin(lines: seq<string>, i: nat, j: nat, k: nat)
    requires i <= j <= k <= |lines|
    ensures LettersIn(lines, i, k) == LettersIn(lines, i, j) + LettersIn(lines, j, k)
    decreases k
  {
    if j < k { LettersInJoin(lines, i, j, k - 1); }
  }

  lemma LettersInFirst(lines: seq<string>, i: nat, j: nat)
    requires i < j <= |lines|
    ensures LettersIn(lines, i, j) == Letters(lines[i]) + LettersIn(lines, i + 1, j)
  {
    LettersInJoin(lines, i, i + 1, j);
  }

  lemma LettersInOne(lines: seq<string>, i: nat)
    requires i < |lines|
    ensures LettersIn(lines, i, i + 1) == Letters(lines[i])
  {
    assert LettersIn(lines, i, i) == "";
  }

  lemma LettersInNext(lines: seq<string>, i: nat, j: nat)
    requires i <= j < |lines|
    ensures LettersIn(lines, i, j + 1) == LettersIn(lines, i, j) + Letters(lines[j])
  {
  }

  lemma {:induction false} LettersInCons(first: string, rest: seq<string>, n: nat)
    requires n <= |rest|
    ensures LettersIn([first] + rest, 0, n + 1) == Letters(first) + LettersIn(rest, 0, n)
  {
    var all := [first] + rest;
    if n == 0 {
      LettersInOne(all, 0);
    } else {
      LettersInCons(first, rest, n - 1);
      LettersInNext(all, 0, n);
      LettersInNext(rest, 0, n - 1);
      assert all[n] == rest[n - 1];
    }
  }

  lemma {:induction false} LettersInBlank(lines: seq<string>, i: nat, j: nat)
    requires i <= j <= |lines| && forall k | i <= k < j :: IsBlank(lines[k])
    ensures LettersIn(lines, i, j) == ""
    decreases j
  {
    if i < j {
      LettersInBlank(lines, i, j - 1);
      BlankHasNoLetters(lines[j - 1]);
    }
  }

  /** Lines with the same letters one by one, the first standing from `i` on in `lines`. */
  lemma {:induction false} SameLetters(d: seq<string>, lines: seq<string>, i: nat, n: nat)
    requires n <= |d| && i + n <= |lines| && forall k | 0 <= k < n :: Letters(d[k]) == Letters(lines[i + k])
    ensures LettersIn(d, 0, n) == LettersIn(lines, i, i + n)
  {
    if n > 0 { SameLetters(d, lines, i, n - 1); }
  }

  lemma LettersInSlice(lines: seq<string>, i: nat, j: nat)
    requires i <= j <= |lines|
    ensures LettersIn(lines[i..j], 0, j - i) == LettersIn(lines, i, j)
  {
    SameLetters(lines[i..j], lines, i, j - i);
  }

  lemma DedentLineKeepsLetters(line: string, amount: nat, r: string)
    requires DedentLine(line, amount) == Some(r)
    ensures Letters(r) == Letters(line)
  {
    var cut := CutOf(line, amount);
    CutKeepsLetters(line, cut);
  }

  /** Dedenting keeps the letters of every line. */
  lemma {:induction false} DedentKeepsLetters(lines: seq<string>, amount: nat, d: seq<string>, n: nat)
    requires DedentBy(lines, amount) == Some(d) && n <= |lines|
    ensures |d| == |lines| && LettersIn(d, 0, n) == LettersIn(lines, 0, n)
  {
    if n > 0 {
      DedentKeepsLetters(lines, amount, d, n - 1);
      DedentLineKeepsLetters(lines[n - 1], amount, d[n - 1]);
    }
  }

  lemma DedentedRunKeepsLetters(lines: seq<string>, i: nat, j: nat, d: seq<string>)
    requires i <= j <= |lines| && Dedent(lines[i..j]) == Some(d)
    ensures LettersIn(d, 0, |d|) == LettersIn(lines, i, j)
  {
    DedentKeepsLetters(lines[i..j], BaseIndent(lines[i..j]), d, j - i);
    LettersInSlice(lines, i, j);
  }

  /** So does joining lines, */
  lemma {:induction false} JoinLinesKeepsLetters(lines: seq<string>)
    ensures Letters(JoinLines(lines)) == LettersIn(lines, 0, |lines|)
    decreases |lines|
  {
    if |lines| == 1 {
      assert LettersIn(lines, 0, 1) == LettersIn(lines, 0, 0) + Letters(lines[0]);
    } else if lines != [] {
      var n := |lines| - 1;
      var (before, last) := (JoinLines(lines[..n]), lines[n]);
      JoinLinesKeepsLetters(lines[..n]);
      LettersInSlice(lines, 0, n);
      SeparatorKeepsLetters(before, "\n", last);
    }
  }

  lemma SeparatorKeepsLetters(a: string, sep: string, b: string)
    requires forall k | 0 <= k < |sep| :: !IsLetter(sep[k])
    ensures Letters(a + sep + b) == Letters(a) + Letters(b)
  {
    LettersJoin(a + sep, b);
    LettersJoin(a, sep);
    NoLetters(sep, |sep|);
  }

  /** ... also into a paragraph, */
  lemma {:induction false} JoinParagraphKeepsLetters(lines: seq<string>)
    ensures Letters(JoinParagraph(lines)) == LettersIn(lines, 0, |lines|)
    decreases |lines|
  {
    if lines != [] {
      var n := |lines| - 1;
      var (before, last) := (JoinParagraph(lines[..n]), Trim(lines[n]));
      JoinParagraphKeepsLetters(lines[..n]);
      LettersInSlice(lines, 0, n);
      TrimKeepsLetters(lines[n]);
      if last != "" && before != "" { SeparatorKeepsLetters(before, " ", last); }
    }
  }

  /** ... and taking the mark of a literal block off it. */
  lemma LiteralMarkerKeepsLetters(text: string)
    ensures Letters(LiteralMarker(text).0) == Letters(text)
  {
    if EndsWith(text, "::") {
      var head := text[..|text| - 2];
      assert text[|text| - 2] == "::"[0] && text[|text| - 1] == "::"[1];
      FrontKeepsLetters(text, |text| - 2);
      TrimKeepsLetters(head);
      SeparatorKeepsLetters(head, ":", "");
      assert head + ":" + "" == head + ":";
    }
  }

  /** A list marker holds no letters. */
  lemma MarkerHasNoLetters(line: string)
    requires ListMarker(line).Some?
    ensures Letters(line[ListMarker(line).value..]) == Letters(line)
    ensures ListMarker(line).value < |line| ==> IsSpace(line[ListMarker(line).value - 1])
  {
    var text := MarkerOf(line);
    MarkerAtLead(line, text);
    TrimKeepsLetters(line);
    CutKeepsLetters(TrimStart(line), text);
  }

  /** How long the marker is, with the space after it. */
  lemma MarkerOf(line: string) returns (text: nat)
    requires ListMarker(line).Some?
    ensures ListMarker(line) == Some(Lead(line) + text) && 0 < text <= |TrimStart(line)|
    ensures forall j | 0 <= j < text :: !IsLetter(TrimStart(line)[j])
    ensures text < |TrimStart(line)| ==> IsSpace(TrimStart(line)[text - 1])
  {
    text := ListMarker(line).value - Lead(line);
    MarkerText(TrimStart(line), text);
  }

  lemma MarkerAtLead(line: string, text: nat)
    requires text <= |line| - Lead(line)
    ensures line[Lead(line) + text..] == TrimStart(line)[text..]
    ensures 0 < text < |line| - Lead(line) ==> line[Lead(line) + text - 1] == TrimStart(line)[text - 1]
  {
  }

  lemma MarkerText(rest: string, text: nat)
    requires rest != "" && (if IsBullet(rest[0]) then AfterMarker(rest, 1) == Some(text)
                            else EnumeratorMarker(rest).Some? && EnumeratorMarker(rest).value.text == text)
    ensures 0 < text <= |rest| && (forall j | 0 <= j < text :: !IsLetter(rest[j]))
      && (text < |rest| ==> IsSpace(rest[text - 1]))
  {
    if !IsBullet(rest[0]) {
      var paren := if StartsWith(rest, "(") then 1 else 0;
      assert paren == 1 ==> rest[0] == "("[0];
    }
  }

  lemma FieldHeadKeepsLetters(line: string)
    requires FieldHead(line).Some?
    ensures Letters(FieldHead(line).value.0) + Letters(FieldHead(line).value.1) == Letters(line)
  {
    var t := TrimStart(line);
    var rest := t[1..];
    var end := Find(rest, ":", 0).value;
    TrimKeepsLetters(line);
    assert t[..1] == ":" && rest[end..end + 1] == ":";
    assert t[0] == ":"[0] && rest[end] == ":"[0];
    CutKeepsLetters(t, 1);
    ColonHasNoLetters(rest, end);
  }

  lemma ColonHasNoLetters(s: string, at: nat)
    requires at < |s| && s[at] == ':'
    ensures Letters(s[..at]) + Letters(s[at + 1..]) == Letters(s)
  {
    assert s == s[..at] + ":" + s[at + 1..];
    SeparatorKeepsLetters(s[..at], ":", s[at + 1..]);
  }

  lemma LineBlockKeepsLetters(line: string)
    requires StripLineBlock(line).Some?
    ensures Letters(StripLineBlock(line).value) == Letters(line)
  {
    var t := TrimStart(line);
    TrimKeepsLetters(line);
    assert t[..1] == "|" && t[0] == "|"[0];
    CutKeepsLetters(t, 1);
    TrimKeepsLetters(t[1..]);
  }
}
