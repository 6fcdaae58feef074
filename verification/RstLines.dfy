/**
 * The line classifiers of the reStructuredText parser, and the indentation arithmetic its
 * recursion rests on.
 */
module RstLines {
  import opened Wrappers
  import opened Decimals
  import opened Utf8

  /** The white space of Unicode. */
  predicate IsSpace(c: char) {
    var n := c as int;
    0x09 <= n <= 0x0d || n == 0x20 || n == 0x85 || n == 0xa0 || n == 0x1680 || 0x2000 <= n <= 0x200a
    || n == 0x2028 || n == 0x2029 || n == 0x202f || n == 0x205f || n == 0x3000
  }

  /** Where the text starts, looking from `i` on. */
  function TextStart(s: string, i: nat): (r: nat)
    requires i <= |s|
    ensures i <= r <= |s| && (r < |s| ==> !IsSpace(s[r])) && forall k | i <= k < r :: IsSpace(s[k])
    decreases |s| - i
  {
    if i < |s| && IsSpace(s[i]) then TextStart(s, i + 1) else i
  }

  function TextEnd(s: string, n: nat): (r: nat)
    requires n <= |s|
    ensures r <= n && (r > 0 ==> !IsSpace(s[r - 1])) && forall k | r <= k < n :: IsSpace(s[k])
  {
    if n > 0 && IsSpace(s[n - 1]) then TextEnd(s, n - 1) else n
  }

  /** Characters of leading white space. */
  function Lead(s: string): (n: nat)
    ensures n <= |s|
  {
    TextStart(s, 0)
  }

  /** Bytes of leading white space: what a line's indent is measured in. */
  function IndentOf(s: string): nat { BytesTo(s, Lead(s)) }

  function TrimStart(s: string): string { s[Lead(s)..] }

  function TrimEnd(s: string): string { s[..TextEnd(s, |s|)] }

  function Trim(s: string): string { TrimEnd(TrimStart(s)) }

  predicate IsBlank(s: string) { Lead(s) == |s| }

  predicate StartsWith(s: string, p: string) { |p| <= |s| && s[..|p|] == p }

  predicate EndsWith(s: string, p: string) { |p| <= |s| && s[|s| - |p|..] == p }

  predicate OccursAt(s: string, p: string, k: nat) { k + |p| <= |s| && s[k..k + |p|] == p }

  /** Where `p` first occurs from `i` on. */
  function Find(s: string, p: string, i: nat): (r: Option<nat>)
    requires i <= |s|
    ensures r.Some? ==> i <= r.value && r.value + |p| <= |s| && s[r.value..r.value + |p|] == p
    ensures forall k | i <= k && OccursAt(s, p, k) :: r.Some? && r.value <= k
    decreases |s| - i
  {
    if i + |p| <= |s| && s[i..i + |p|] == p then Some(i) else if i < |s| then Find(s, p, i + 1) else None
  }

  // ----- classifiers --------------------------------------------------------------------

  /** The ASCII punctuation a section may be drawn with. */
  predicate IsAdornment(c: char) {
    '!' <= c <= '/' || ':' <= c <= '@' || '[' <= c <= '`' || '{' <= c <= '~'
  }

  function AdornmentChar(line: string): Option<char> {
    var t := Trim(line);
    if |t| >= 2 && IsAdornment(t[0]) && (forall i | 0 <= i < |t| :: t[i] == t[0]) then Some(t[0]) else None
  }

  predicate IsTableBorder(line: string) {
    var t := Trim(line);
    |t| >= 3 && ((t[0] == '+' && t[|t| - 1] == '+' && forall i | 0 <= i < |t| :: t[i] in {'+', '-', '='})
                 || (' ' in t && t[0] == '=' && t[|t| - 1] == '=' && forall i | 0 <= i < |t| :: t[i] in {'=', ' '}))
  }

  /** A field's name and the rest of its first line. */
  function FieldHead(line: string): Option<(string, string)> {
    var t := TrimStart(line);
    if !StartsWith(t, ":") then None else
      var rest := t[1..];
      match Find(rest, ":", 0)
      case None => None
      case Some(end) =>
        var (name, after) := (rest[..end], rest[end + 1..]);
        if name == "" || '`' in name || (after != "" && after[0] != ' ') then None else Some((name, after))
  }

  predicate IsNameChar(c: char) {
    IsDigit(c) || 'a' <= c <= 'z' || 'A' <= c <= 'Z' || c in {'-', '_', '+', ':', '.'}
  }

  /** A directive's name and its argument. */
  function DirectiveHead(rest: string): Option<(string, string)> {
    match Find(rest, "::", 0)
    case None => None
    case Some(end) =>
      var name := rest[..end];
      if name == "" || (exists i | 0 <= i < |name| :: !IsNameChar(name[i])) then None else Some((name, rest[end + 2..]))
  }

  function StripLineBlock(line: string): Option<string> {
    var t := TrimStart(line);
    if !StartsWith(t, "|") then None
    else if |t| == 1 then Some("")
    else if t[1] == ' ' then Some(TrimStart(t[1..]))
    else None
  }

  function DigitsEnd(s: string, i: nat): (r: nat)
    requires i <= |s|
    ensures i <= r <= |s| && forall k | i <= k < r :: IsDigit(s[k])
    decreases |s| - i
  {
    if i < |s| && IsDigit(s[i]) then DigitsEnd(s, i + 1) else i
  }

  /** A marker's length, the number it carries, and where the text after it starts. */
  datatype Marker = Marker(length: nat, number: nat, text: nat)

  /** Where the text after a marker of the given length starts; a marker needs a space or the line's end. */
  function AfterMarker(rest: string, length: nat): (r: Option<nat>)
    requires length <= |rest|
    ensures r.Some? ==> length <= r.value <= |rest|
  {
    if length == |rest| then Some(|rest|)
    else if rest[length] == ' ' then Some(TextStart(rest, length))
    else None
  }

  /** `1.`, `2)`, `(3)` or `#.` at the start of the text. */
  function EnumeratorMarker(rest: string): (r: Option<Marker>)
    ensures r.Some? ==> 0 < r.value.length <= r.value.text <= |rest|
  {
    var paren := if StartsWith(rest, "(") then 1 else 0;
    var auto := paren < |rest| && rest[paren] == '#';
    var end := if auto then paren + 1 else DigitsEnd(rest, paren);
    if end == |rest| || end == paren || !(rest[end] == ')' || rest[end] == '.') then None else
      match AfterMarker(rest, end + 1)
      case None => None
      case Some(text) => Some(Marker(end + 1, if auto then 1 else NumberOf(rest[paren..end]), text))
  }

  /** A list starts at its first number, or at 1 where that is no 64-bit number. */
  function NumberOf(digits: string): nat
    requires AllDigits(digits)
  {
    if digits != "" && Value(digits) <= 0xffff_ffff_ffff_ffff then Value(digits) else 1
  }

  predicate IsBullet(c: char) { c in {'-', '*', '+'} || c as int in {0x2022, 0x2023, 0x2043} }

  function Enumerator(line: string): Option<nat> {
    match EnumeratorMarker(TrimStart(line)) case None => None case Some(m) => Some(m.number)
  }

  /** The character at which the text of a list item's first line starts. */
  function ListMarker(line: string): (r: Option<nat>)
    ensures r.Some? ==> Lead(line) < r.value <= |line|
  {
    var (lead, rest) := (Lead(line), TrimStart(line));
    if rest == "" then None
    else if IsBullet(rest[0]) then
      match AfterMarker(rest, 1) case None => None case Some(text) => Some(lead + text)
    else
      match EnumeratorMarker(rest) case None => None case Some(m) => Some(lead + m.text)
  }

  // ----- indentation ----------------------------------------------------------------------

  /** The smallest indent of those of the first `n` lines that are not blank, or None when all are. */
  function LeastIndent(lines: seq<string>, n: nat): Option<nat>
    requires n <= |lines|
  {
    if n == 0 then None else
      var (before, last) := (LeastIndent(lines, n - 1), lines[n - 1]);
      if IsBlank(last) then before
      else if before.Some? && before.value <= IndentOf(last) then before
      else Some(IndentOf(last))
  }

  function BaseIndent(lines: seq<string>): nat {
    match LeastIndent(lines, |lines|) case None => 0 case Some(n) => n
  }

  /** The line without so many bytes of its white space, or None when the cut falls inside a character. */
  function DedentLine(line: string, amount: nat): (r: Option<string>)
    ensures r.Some? ==> |r.value| <= |line|
  {
    match CharAt(line, Min(amount, IndentOf(line)), Lead(line))
    case None => None
    case Some(k) => Some(line[k..])
  }

  /** The first `n` lines dedented, or None as soon as one cannot be. */
  function DedentTo(lines: seq<string>, amount: nat, n: nat): (r: Option<seq<string>>)
    requires n <= |lines|
    ensures r.Some? ==> |r.value| == n && forall k | 0 <= k < n :: DedentLine(lines[k], amount) == Some(r.value[k])
    ensures r.None? ==> exists k | 0 <= k < n :: DedentLine(lines[k], amount).None?
  {
    if n == 0 then Some([]) else
      match DedentTo(lines, amount, n - 1)
      case None => None
      case Some(before) =>
        match DedentLine(lines[n - 1], amount) case None => None case Some(last) => Some(before + [last])
  }

  function DedentBy(lines: seq<string>, amount: nat): Option<seq<string>> { DedentTo(lines, amount, |lines|) }

  function Dedent(lines: seq<string>): Option<seq<string>> { DedentBy(lines, BaseIndent(lines)) }

  /** The cut a dedent makes in the line is where a character starts. */
  ghost predicate CutIsBoundary(line: string, amount: nat) {
    exists k: nat | k <= |line| :: BytesTo(line, k) == Min(amount, IndentOf(line))
  }

  lemma {:induction false} DedentLineSucceeds(line: string, amount: nat)
    ensures DedentLine(line, amount).Some? <==> CutIsBoundary(line, amount)
  {
    var cut := Min(amount, IndentOf(line));
    if CutIsBoundary(line, amount) {
      var k: nat :| k <= |line| && BytesTo(line, k) == cut;
      if k > Lead(line) { BytesRise(line, Lead(line), k); }
    }
  }

  /** Lines can be dedented exactly when every cut is a character boundary. */
  lemma {:induction false} DedentSucceeds(lines: seq<string>, amount: nat)
    ensures DedentBy(lines, amount).Some? <==> forall k | 0 <= k < |lines| :: CutIsBoundary(lines[k], amount)
  {
    forall k | 0 <= k < |lines| ensures DedentLine(lines[k], amount).Some? <==> CutIsBoundary(lines[k], amount) {
      DedentLineSucceeds(lines[k], amount);
    }
  }

  /** Every leading white space character is one byte. */
  ghost predicate PlainLine(line: string) { forall k | 0 <= k < Lead(line) :: Width(line[k]) == 1 }

  ghost predicate Plain(lines: seq<string>) { forall k | 0 <= k < |lines| :: PlainLine(lines[k]) }

  lemma {:induction false} PlainBytes(line: string, n: nat)
    requires PlainLine(line) && n <= Lead(line)
    ensures BytesTo(line, n) == n
  {
    if n > 0 { PlainBytes(line, n - 1); }
  }

  /** Plain lines can always be dedented, and stay plain. */
  lemma {:induction false} PlainDedents(lines: seq<string>, amount: nat)
    requires Plain(lines)
    ensures DedentBy(lines, amount).Some? && Plain(DedentBy(lines, amount).value)
  {
    forall k | 0 <= k < |lines|
      ensures DedentLine(lines[k], amount).Some? && PlainLine(DedentLine(lines[k], amount).value) {
      PlainLineDedents(lines[k], amount);
    }
  }

  lemma {:induction false} PlainLineDedents(line: string, amount: nat)
    requires PlainLine(line)
    ensures DedentLine(line, amount).Some? && PlainLine(DedentLine(line, amount).value)
  {
    PlainBytes(line, Lead(line));
    PlainBytes(line, Min(amount, IndentOf(line)));
    var k := CutOf(line, amount);
    LeadAfterCut(line, k);
  }

  /** The characters of the first `n` lines. */
  function CharsTo(lines: seq<string>, n: nat): nat
    requires n <= |lines|
  {
    if n == 0 then 0 else CharsTo(lines, n - 1) + |lines[n - 1]|
  }

  function Chars(lines: seq<string>): nat { CharsTo(lines, |lines|) }

  lemma {:induction false} CharsOfPrefix(a: seq<string>, b: seq<string>, n: nat)
    requires n <= |a|
    ensures CharsTo(a + b, n) == CharsTo(a, n)
  {
    if n > 0 { CharsOfPrefix(a, b, n - 1); }
  }

  lemma {:induction false} CharsJoin(a: seq<string>, b: seq<string>, n: nat)
    requires n <= |b|
    ensures CharsTo(a + b, |a| + n) == Chars(a) + CharsTo(b, n)
  {
    if n == 0 { CharsOfPrefix(a, b, |a|); } else { CharsJoin(a, b, n - 1); }
  }

  /** Lines from `i` to `end` hold no more characters than all, and without line `i` fewer by its length. */
  lemma {:induction false} CharsOfRun(lines: seq<string>, i: nat, end: nat)
    requires i < end <= |lines|
    ensures Chars(lines[i..end]) <= Chars(lines)
    ensures Chars(lines[i + 1..end]) + |lines[i]| == Chars(lines[i..end])
  {
    assert lines == lines[..i] + lines[i..end] + lines[end..];
    CharsOfMiddle(lines[..i], lines[i..end], lines[end..]);
    assert lines[i..end] == [lines[i]] + lines[i + 1..end];
    CharsAfterFirst(lines[i..end], lines[i], lines[i + 1..end]);
  }

  lemma {:induction false} CharsOfMiddle(before: seq<string>, run: seq<string>, after: seq<string>)
    ensures Chars(run) <= Chars(before + run + after)
  {
    CharsJoin(before, run, |run|);
    CharsJoin(before + run, after, |after|);
  }

  lemma {:induction false} CharsAfterFirst(run: seq<string>, first: string, rest: seq<string>)
    requires run == [first] + rest
    ensures Chars(run) == |first| + Chars(rest)
  {
    CharsJoin([first], rest, |rest|);
    assert CharsTo([first], 1) == CharsTo([first], 0) + |first|;
  }

  lemma {:induction false} DedentShrinks(lines: seq<string>, amount: nat, r: seq<string>, n: nat)
    requires n <= |lines| && DedentBy(lines, amount) == Some(r)
    ensures CharsTo(r, n) <= CharsTo(lines, n)
    ensures amount > 0 && (exists k | 0 <= k < n :: IndentOf(lines[k]) > 0) ==> CharsTo(r, n) < CharsTo(lines, n)
  {
    if n > 0 {
      DedentShrinks(lines, amount, r, n - 1);
      assert DedentLine(lines[n - 1], amount) == Some(r[n - 1]);
    }
  }

  lemma {:induction false} LeastIndentMeans(lines: seq<string>, n: nat)
    requires n <= |lines|
    ensures LeastIndent(lines, n).None? ==> forall k | 0 <= k < n :: IsBlank(lines[k])
    ensures LeastIndent(lines, n).Some? ==>
      (exists j | 0 <= j < n && !IsBlank(lines[j]) :: IndentOf(lines[j]) == LeastIndent(lines, n).value)
    ensures LeastIndent(lines, n).Some? ==>
      (forall k | 0 <= k < n && !IsBlank(lines[k]) :: LeastIndent(lines, n).value <= IndentOf(lines[k]))
  {
    if n > 0 { LeastIndentMeans(lines, n - 1); }
  }

  lemma {:induction false} TextStartShifts(s: string, n: nat, i: nat)
    requires n <= i <= |s|
    ensures TextStart(s[n..], i - n) + n == TextStart(s, i)
    decreases |s| - i
  {
    if i < |s| && IsSpace(s[i]) { TextStartShifts(s, n, i + 1); }
  }

  lemma {:induction false} TextStartSkips(s: string, i: nat)
    requires i <= Lead(s)
    ensures TextStart(s, i) == Lead(s)
    decreases i
  {
    if i > 0 { TextStartSkips(s, i - 1); }
  }

  lemma {:induction false} LeadAfterCut(line: string, k: nat)
    requires k <= Lead(line)
    ensures Lead(line[k..]) == Lead(line) - k
  {
    TextStartSkips(line, k);
    TextStartShifts(line, k, k);
  }

  lemma {:induction false} BytesAfterCut(line: string, k: nat, n: nat)
    requires k <= n <= |line|
    ensures BytesTo(line[k..], n - k) == BytesTo(line, n) - BytesTo(line, k)
  {
    var (a, b) := (line[..k], line[k..]);
    assert line == a + b;
    BytesAfter(a, b, n - k);
    BytesOfPrefix(a, b, k);
  }

  lemma {:induction false} TrimAfterCut(line: string, k: nat)
    requires k <= Lead(line)
    ensures TrimStart(line[k..]) == TrimStart(line)
  {
    LeadAfterCut(line, k);
    var n := Lead(line);
    assert line[k..][n - k..] == line[n..];
  }

  /** Where the cut falls: at a character within the leading white space. */
  lemma CutOf(line: string, amount: nat) returns (k: nat)
    requires DedentLine(line, amount).Some?
    ensures k <= Lead(line) && BytesTo(line, k) == Min(amount, IndentOf(line))
      && DedentLine(line, amount) == Some(line[k..])
  {
    k := CharAt(line, Min(amount, IndentOf(line)), Lead(line)).value;
  }

  /** Dedenting takes white space only: the text is kept and its indent is less by the amount, at least zero. */
  lemma {:induction false} DedentKeepsText(line: string, amount: nat)
    requires DedentLine(line, amount).Some?
    ensures var r := DedentLine(line, amount).value;
      TrimStart(r) == TrimStart(line) && IndentOf(r) == IndentOf(line) - Min(amount, IndentOf(line))
      && (IsBlank(r) <==> IsBlank(line))
  {
    var k := CutOf(line, amount);
    CutKeepsText(line, k, line[k..]);
  }

  lemma {:induction false} CutKeepsText(line: string, k: nat, r: string)
    requires k <= Lead(line) && r == line[k..]
    ensures TrimStart(r) == TrimStart(line) && IndentOf(r) == IndentOf(line) - BytesTo(line, k)
      && (IsBlank(r) <==> IsBlank(line))
  {
    LeadAfterCut(line, k);
    TrimAfterCut(line, k);
    BytesAfterCut(line, k, Lead(line));
  }

  /** A dedented block stands at the margin, its lines indented against each other as before. */
  lemma {:induction false} DedentedStandsAtMargin(lines: seq<string>, k: nat)
    requires k < |lines| && !IsBlank(lines[k]) && Dedent(lines).Some?
    ensures var d := Dedent(lines).value;
      BaseIndent(d) == 0 && !IsBlank(d[k]) && TrimStart(d[k]) == TrimStart(lines[k])
      && IndentOf(lines[k]) == IndentOf(d[k]) + BaseIndent(lines)
  {
    var (d, n) := (Dedent(lines).value, BaseIndent(lines));
    LeastIndentMeans(lines, |lines|);
    assert DedentLine(lines[k], n) == Some(d[k]);
    DedentKeepsText(lines[k], n);
    var j :| 0 <= j < |lines| && !IsBlank(lines[j]) && IndentOf(lines[j]) == n;
    assert DedentLine(lines[j], n) == Some(d[j]);
    DedentKeepsText(lines[j], n);
    LeastIndentMeans(d, |d|);
  }

  // ----- runs of lines ------------------------------------------------------------------------

  predicate Deeper(line: string, base: nat) { IsBlank(line) || IndentOf(line) > base }

  /** The run of lines indented past `base`: up to its last text line, and as far as it goes. */
  ghost predicate IndentedRunIs(lines: seq<string>, from: nat, base: nat, end: nat) {
    from <= end <= |lines| && (forall k {:trigger Deeper(lines[k], base)} | from <= k < end :: Deeper(lines[k], base))
    && (end > from ==> !IsBlank(lines[end - 1]))
      && exists stop | end <= stop <= |lines| :: StopsAt(lines, end, base, stop)
  }

  /** After `end` only blank lines come, up to the line that stops the run or the end of all. */
  ghost predicate StopsAt(lines: seq<string>, end: nat, base: nat, stop: nat)
    requires end <= stop <= |lines|
  {
    (forall k {:trigger IsBlank(lines[k])} | end <= k < stop :: IsBlank(lines[k]))
      && (stop < |lines| ==> !Deeper(lines[stop], base))
  }

  /** A run has one end only. */
  lemma {:induction false} RunEndsOnce(lines: seq<string>, from: nat, base: nat, end: nat, other: nat)
    requires IndentedRunIs(lines, from, base, end) && IndentedRunIs(lines, from, base, other)
    ensures end == other
  {
    RunEndsFirst(lines, from, base, end, other);
    RunEndsFirst(lines, from, base, other, end);
  }

  lemma {:induction false} RunEndsFirst(lines: seq<string>, from: nat, base: nat, end: nat, other: nat)
    requires IndentedRunIs(lines, from, base, end) && IndentedRunIs(lines, from, base, other)
    ensures other <= end
  {
    var stop :| end <= stop <= |lines| && StopsAt(lines, end, base, stop);
    assert stop < |lines| ==> !Deeper(lines[stop], base);
    assert other > from ==> !IsBlank(lines[other - 1]);
  }

  method IndentedRun(lines: seq<string>, from: nat, base: nat) returns (end: nat)
    requires from <= |lines|
    ensures IndentedRunIs(lines, from, base, end)
  {
    end := from;
    var at := from;
    while at < |lines|
      invariant from <= end <= at <= |lines| && (forall k | from <= k < at :: Deeper(lines[k], base))
      invariant end > from ==> !IsBlank(lines[end - 1])
      invariant forall k | end <= k < at :: IsBlank(lines[k])
      decreases |lines| - at
    {
      if IsBlank(lines[at]) {
        at := at + 1;
        continue;
      }
      if IndentOf(lines[at]) <= base { break; }
      at := at + 1;
      end := at;
    }
    assert StopsAt(lines, end, base, at);
  }

  /** The first line from `i` on that is not blank, or the end. */
  method TextFrom(lines: seq<string>, i: nat) returns (end: nat)
    requires i <= |lines|
    ensures i <= end <= |lines| && (forall k | i <= k < end :: IsBlank(lines[k]))
      && (end < |lines| ==> !IsBlank(lines[end]))
  {
    end := i;
    while end < |lines| && IsBlank(lines[end])
      invariant i <= end <= |lines| && forall k | i <= k < end :: IsBlank(lines[k])
    {
      end := end + 1;
    }
  }

  method BlankFrom(lines: seq<string>, i: nat) returns (end: nat)
    requires i <= |lines|
    ensures i <= end <= |lines| && (forall k | i <= k < end :: !IsBlank(lines[k]))
      && (end < |lines| ==> IsBlank(lines[end]))
  {
    end := i;
    while end < |lines| && !IsBlank(lines[end])
      invariant i <= end <= |lines| && forall k | i <= k < end :: !IsBlank(lines[k])
    {
      end := end + 1;
    }
  }
}
