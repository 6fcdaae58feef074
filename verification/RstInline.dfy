/**
 * Inline markup: literals, strong and emphasized text, interpreted text and references,
 * recognized by the characters around their markers, and which letters of a text reach
 * the renderer.
 */
module RstInline {
  import opened Wrappers
  import opened Sealed
  import opened Decimals
  import opened RstLines
  import opened RstText

  datatype Style = RawText | StrongText | ItalicText | LinkLabel

  /** What is written: a plain run, a styled one, or the target of a reference after its label. */
  datatype Piece = PlainRun(text: string) | Styled(style: Style, text: string) | Target(text: string)

  // ----- the recognition rules ----------------------------------------------------------------

  function Before(text: string, i: nat): Option<char>
    requires i <= |text|
  {
    if i == 0 then None else Some(text[i - 1])
  }

  function After(text: string, i: nat): Option<char> { if i < |text| then Some(text[i]) else None }

  predicate CanStart(before: Option<char>, after: Option<char>) {
    (before.Some? ==> IsSpace(before.value) || before.value in {'-', ':', '/', '\'', '"', '<', '(', '[', '{'})
    && after.Some? && !IsSpace(after.value)
  }

  predicate CanEnd(before: Option<char>, after: Option<char>) {
    before.Some? && !IsSpace(before.value)
    && (after.Some? ==>
          IsSpace(after.value)
          || after.value in {'-', '.', ',', ':', ';', '!', '?', '\\', '/', '\'', '"', ')', ']', '}', '>'})
  }

  /** Past the underscores from `i` on. */
  function SkipBars(text: string, i: nat): (r: nat)
    requires i <= |text|
    ensures i <= r <= |text| && (forall k | i <= k < r :: text[k] == '_') && (r < |text| ==> text[r] != '_')
    decreases |text| - i
  {
    if i < |text| && text[i] == '_' then SkipBars(text, i + 1) else i
  }

  /** What follows a marker that may close at `start`: the bars of a reference belong to its marker. */
  function Follows(text: string, start: nat, marker: string): nat
    requires start + |marker| <= |text|
  {
    if marker == "`" then SkipBars(text, start + 1) else start + |marker|
  }

  /** A marker at `start` closes the span opened before `from`. */
  predicate Closes(text: string, from: nat, start: nat, marker: string)
    requires start + |marker| <= |text|
  {
    start != from && Before(text, start) != Some('\\')
    && CanEnd(Before(text, start), After(text, Follows(text, start, marker)))
  }

  /** The marker stands at `i`. */
  predicate Stands(text: string, i: nat, marker: string) {
    i + |marker| <= |text| && forall k | 0 <= k < |marker| :: text[i + k] == marker[k]
  }

  /** Where the marker next stands, from `at` on. */
  function Seek(text: string, at: nat, marker: string): (r: Option<nat>)
    requires at <= |text|
    ensures r.Some? ==> at <= r.value && Stands(text, r.value, marker)
    decreases |text| - at
  {
    if Stands(text, at, marker) then Some(at) else if at < |text| then Seek(text, at + 1, marker) else None
  }

  /** Where the span opened before `from` is closed, looking from `at` on. */
  function FindEnd(text: string, from: nat, at: nat, marker: string): (r: Option<nat>)
    requires from <= at <= |text| && marker != ""
    ensures r.Some? ==> at <= r.value && Stands(text, r.value, marker) && Closes(text, from, r.value, marker)
    decreases |text| - at
  {
    match Seek(text, at, marker)
    case None => None
    case Some(start) =>
      if Closes(text, from, start, marker) then Some(start) else FindEnd(text, from, start + |marker|, marker)
  }

  /** A span: its marker, and its text between the two. */
  datatype Span = Span(marker: string, from: nat, end: nat)

  function TryMarker(text: string, i: nat, marker: string): (r: Option<Span>)
    requires i <= |text| && marker != ""
    ensures r.Some? ==> IsSpan(text, i, r.value) && r.value.marker == marker
  {
    var from := i + |marker|;
    if Stands(text, i, marker) && CanStart(Before(text, i), After(text, from)) then
      match FindEnd(text, from, from, marker)
      case None => None
      case Some(end) => Some(Span(marker, from, end))
    else None
  }

  ghost predicate IsSpan(text: string, i: nat, s: Span) {
    i < s.from <= s.end && s.from == i + |s.marker| && Stands(text, i, s.marker) && Stands(text, s.end, s.marker)
  }

  /** The first of two answers. */
  function Either<T>(a: Option<T>, b: Option<T>): Option<T> { if a.Some? then a else b }

  /** The span that opens at `i`: the longer markers win over the shorter. */
  function Opening(text: string, i: nat): (r: Option<Span>)
    requires i <= |text|
    ensures r.Some? ==> IsSpan(text, i, r.value) && r.value.marker in {"``", "**", "*", "`"}
  {
    Either(TryMarker(text, i, "``"),
           Either(TryMarker(text, i, "**"), Either(TryMarker(text, i, "*"), TryMarker(text, i, "`"))))
  }

  // ----- what is written ----------------------------------------------------------------------

  function LastColon(s: string, n: nat): (r: Option<nat>)
    requires n <= |s|
    ensures r.Some? ==> r.value < n && s[r.value] == ':'
    ensures forall k | (if r.Some? then r.value + 1 else 0) <= k < n :: s[k] != ':'
  {
    if n == 0 then None else if s[n - 1] == ':' then Some(n - 1) else LastColon(s, n - 1)
  }

  predicate IsRoleChar(c: char) {
    IsDigit(c) || 'a' <= c <= 'z' || 'A' <= c <= 'Z' || c in {'-', '_', '+', ':'}
  }

  /** Where a trailing `:role:` starts. */
  function RoleAt(plain: string): (r: Option<nat>)
    ensures r.Some? ==> r.value + 2 < |plain|
  {
    if plain == "" || plain[|plain| - 1] != ':' then None else
      match LastColon(plain, |plain| - 1)
      case None => None
      case Some(at) =>
        if at + 2 == |plain| || exists k | at < k < |plain| - 1 :: !IsRoleChar(plain[k]) then None else Some(at)
  }

  function StripRole(plain: string): string {
    match RoleAt(plain) case None => plain case Some(at) => plain[..at]
  }

  function Flushed(plain: string): seq<Piece> { if plain == "" then [] else [PlainRun(StripRole(plain))] }

  /** Where ` <` last occurs before `n`. */
  function LastAngle(s: string, n: nat): (r: Option<nat>)
    requires n <= |s|
    ensures r.Some? ==> r.value + 2 <= n && s[r.value] == ' ' && s[r.value + 1] == '<'
  {
    if n < 2 then None else if s[n - 2] == ' ' && s[n - 1] == '<' then Some(n - 2) else LastAngle(s, n - 1)
  }

  /** Where the label of a reference ends, if a target in angle brackets follows it. */
  function TargetAt(body: string): (r: Option<nat>)
    ensures r.Some? ==>
      r.value + 2 < |body| && body[r.value] == ' ' && body[r.value + 1] == '<' && body[|body| - 1] == '>'
  {
    match LastAngle(body, |body|)
    case None => None
    case Some(at) => if at + 2 < |body| && body[|body| - 1] == '>' then Some(at) else None
  }

  function Interpreted(body: string, reference: bool): seq<Piece> {
    if !reference then [Styled(RawText, body)] else
      match TargetAt(body)
      case None => [Styled(LinkLabel, body)]
      case Some(at) => [Styled(LinkLabel, Trim(body[..at])), Target(body[at + 2..|body| - 1])]
  }

  function SpanPieces(text: string, s: Span): seq<Piece>
    requires s.from <= s.end && s.end + |s.marker| <= |text|
  {
    var body := text[s.from..s.end];
    if s.marker == "``" then [Styled(RawText, body)]
    else if s.marker == "**" then [Styled(StrongText, body)]
    else if s.marker == "*" then [Styled(ItalicText, body)]
    else Interpreted(body, After(text, s.end + |s.marker|) == Some('_'))
  }

  /** Past the span; the bars of a reference go with it. */
  function Past(text: string, s: Span): (r: nat)
    requires s.end + |s.marker| <= |text|
    ensures s.end + |s.marker| <= r <= |text| && forall k | s.end + |s.marker| <= k < r :: text[k] == '_'
  {
    if s.marker == "`" then SkipBars(text, s.end + 1) else s.end + |s.marker|
  }

  /** The text from `i` on, after a plain run that is not written yet. */
  function Scan(text: string, i: nat, plain: string): seq<Piece>
    requires i <= |text|
    decreases |text| - i
  {
    if i == |text| then Flushed(plain)
    else if text[i] == '\\' && i + 1 < |text| then Scan(text, i + 2, plain + [text[i + 1]])
    else
      match Opening(text, i)
      case None => Scan(text, i + 1, plain + [text[i]])
      case Some(s) => Flushed(plain) + SpanPieces(text, s) + Scan(text, Past(text, s), "")
  }

  function Rendered(text: string): seq<Piece> { Scan(text, 0, "") }

  method FindClose(text: string, from: nat, marker: string) returns (r: Option<nat>)
    requires from <= |text| && marker != ""
    ensures r == FindEnd(text, from, from, marker)
  {
    var at := from;
    while true
      invariant from <= at <= |text| && FindEnd(text, from, at, marker) == FindEnd(text, from, from, marker)
      decreases |text| - at
    {
      var found := Seek(text, at, marker);
      if found.None? { return None; }
      if Closes(text, from, found.value, marker) { return found; }
      at := found.value + |marker|;
    }
  }

  method TryAt(text: string, i: nat, marker: string) returns (r: Option<Span>)
    requires i <= |text| && marker != ""
    ensures r == TryMarker(text, i, marker)
  {
    var from := i + |marker|;
    if !Stands(text, i, marker) || !CanStart(Before(text, i), After(text, from)) { return None; }
    var end := FindClose(text, from, marker);
    r := if end.None? then None else Some(Span(marker, from, end.value));
  }

  method SpanAt(text: string, i: nat) returns (r: Option<Span>)
    requires i <= |text|
    ensures r == Opening(text, i)
  {
    r := TryAt(text, i, "``");
    if r.None? { r := TryAt(text, i, "**"); }
    if r.None? { r := TryAt(text, i, "*"); }
    if r.None? { r := TryAt(text, i, "`"); }
  }

  method Inline(text: string) returns (pieces: seq<Piece>)
    ensures pieces == Rendered(text)
  {
    pieces := [];
    var plain := "";
    var i := 0;
    while i < |text|
      invariant i <= |text| && pieces + Scan(text, i, plain) == Rendered(text)
      decreases |text| - i
    {
      if text[i] == '\\' && i + 1 < |text| {
        plain := plain + [text[i + 1]];
        i := i + 2;
        continue;
      }
      var span := SpanAt(text, i);
      if span.None? {
        plain := plain + [text[i]];
        i := i + 1;
        continue;
      }
      var s := span.value;
      Regrouped(pieces, Flushed(plain), SpanPieces(text, s), Scan(text, Past(text, s), ""));
      pieces := pieces + Flushed(plain) + SpanPieces(text, s);
      plain, i := "", Past(text, s);
    }
    pieces := pieces + Flushed(plain);
  }

  lemma Regrouped(a: seq<Piece>, b: seq<Piece>, c: seq<Piece>, d: seq<Piece>)
    ensures a + (b + c + d) == a + b + c + d
  {
  }

  // ----- which letters are written ------------------------------------------------------------

  function LettersOf(pieces: seq<Piece>): string {
    if pieces == [] then "" else LettersOf(pieces[..|pieces| - 1]) + Letters(pieces[|pieces| - 1].text)
  }

  /** Letters of the trailing role of a plain run, which is not written. */
  function RoleLetters(plain: string): nat {
    match RoleAt(plain) case None => 0 case Some(at) => |Letters(plain[at..])|
  }

  /**
   * Letters not written of the text from `i` on: those of roles right before interpreted
   * text, which name how to read it, or else those of other runs that end like a role.
   */
  function Dropped(text: string, i: nat, plain: string, named: bool): nat
    requires i <= |text|
    decreases |text| - i
  {
    if i == |text| then (if named then 0 else RoleLetters(plain))
    else if text[i] == '\\' && i + 1 < |text| then Dropped(text, i + 2, plain + [text[i + 1]], named)
    else
      match Opening(text, i)
      case None => Dropped(text, i + 1, plain + [text[i]], named)
      case Some(s) =>
        (if named == (s.marker == "`") then RoleLetters(plain) else 0) + Dropped(text, Past(text, s), "", named)
  }

  /** Letters of roles before interpreted text. */
  function Roles(text: string): nat { Dropped(text, 0, "", true) }

  /** Letters of text taken for a role though none is interpreted. */
  function Eaten(text: string): nat { Dropped(text, 0, "", false) }

  /** The letters of the characters from `i` up to `j`. */
  function Between(s: string, i: nat, j: nat): string
    requires i <= j <= |s|
  {
    Letters(s[i..j])
  }

  lemma BetweenJoins(s: string, i: nat, j: nat, k: nat)
    requires i <= j <= k <= |s|
    ensures Between(s, i, k) == Between(s, i, j) + Between(s, j, k)
  {
    assert s[i..k] == s[i..j] + s[j..k];
    LettersJoin(s[i..j], s[j..k]);
  }

  lemma BetweenNone(s: string, i: nat, j: nat)
    requires i <= j <= |s| && forall k | i <= k < j :: !IsLetter(s[k])
    ensures Between(s, i, j) == ""
  {
    NoLetters(s[i..j], j - i);
  }

  lemma LettersOfOne(p: Piece)
    ensures LettersOf([p]) == Letters(p.text)
  {
    assert LettersOf([p][..0]) == "";
  }

  lemma {:induction false} LettersOfJoin(a: seq<Piece>, b: seq<Piece>)
    ensures LettersOf(a + b) == LettersOf(a) + LettersOf(b)
    decreases |b|
  {
    if b == [] {
      assert a + b == a;
      Appended(LettersOf(a), "", "");
    } else {
      var n := |b| - 1;
      assert (a + b)[..|a + b| - 1] == a + b[..n];
      LettersOfJoin(a, b[..n]);
      Appended(LettersOf(a), LettersOf(b[..n]), Letters(b[n].text));
    }
  }

  lemma Appended(a: string, b: string, c: string)
    ensures a + b + c == a + (b + c) && a + "" == a && "" + a == a
  {
  }

  /** A flushed run writes its letters but those of its role. */
  lemma FlushedLetters(plain: string)
    ensures |LettersOf(Flushed(plain))| + RoleLetters(plain) == |Letters(plain)|
    ensures RoleLetters(plain) == 0 ==> LettersOf(Flushed(plain)) == Letters(plain)
  {
    if plain == "" {
      assert LettersOf([]) == "" == Letters("");
    } else {
      LettersOfOne(PlainRun(StripRole(plain)));
      var role := RoleAt(plain);
      if role.Some? {
        var at := role.value;
        assert plain == plain[..at] + plain[at..];
        LettersJoin(plain[..at], plain[at..]);
        Appended(Letters(plain[..at]), "", "");
      }
    }
  }

  lemma InterpretedLetters(body: string, reference: bool)
    ensures LettersOf(Interpreted(body, reference)) == Letters(body)
  {
    var target := TargetAt(body);
    if !reference {
      LettersOfOne(Styled(RawText, body));
    } else if target.None? {
      LettersOfOne(Styled(LinkLabel, body));
    } else {
      var at := target.value;
      var (name, url) := (Trim(body[..at]), body[at + 2..|body| - 1]);
      LettersOfOne(Styled(LinkLabel, name));
      LettersOfOne(Target(url));
      LettersOfJoin([Styled(LinkLabel, name)], [Target(url)]);
      TrimKeepsLetters(body[..at]);
      BracketsHaveNoLetters(body, at);
    }
  }

  lemma BracketsHaveNoLetters(body: string, at: nat)
    requires at + 2 < |body| && body[at] == ' ' && body[at + 1] == '<' && body[|body| - 1] == '>'
    ensures Letters(body[..at]) + Letters(body[at + 2..|body| - 1]) == Letters(body)
  {
    var n := |body|;
    BetweenNone(body, at, at + 2);
    BetweenNone(body, n - 1, n);
    OuterParts(body, at, at + 2, n - 1);
    assert body[0..n] == body && body[0..at] == body[..at];
  }

  lemma OuterParts(s: string, a: nat, b: nat, c: nat)
    requires a <= b <= c <= |s| && Between(s, a, b) == "" && Between(s, c, |s|) == ""
    ensures Between(s, 0, |s|) == Between(s, 0, a) + Between(s, b, c)
  {
    BetweenJoins(s, 0, a, |s|);
    BetweenJoins(s, a, b, |s|);
    BetweenJoins(s, b, c, |s|);
    Appended(Between(s, b, c), "", "");
    Appended(Between(s, b, |s|), "", "");
  }

  /** A span writes all its letters; its markers have none. */
  lemma SpanLetters(text: string, i: nat, s: Span)
    requires IsSpan(text, i, s) && s.marker in {"``", "**", "*", "`"}
    ensures LettersOf(SpanPieces(text, s)) == Between(text, i, Past(text, s))
  {
    StyledLetters(text, s);
    MarkerHasNone(text, i, s.marker);
    MarkerHasNone(text, s.end, s.marker);
    BetweenNone(text, s.end + |s.marker|, Past(text, s));
    OnlyMiddle(text, i, s.from, s.end, s.end + |s.marker|, Past(text, s));
  }

  lemma OnlyMiddle(text: string, i: nat, a: nat, b: nat, c: nat, d: nat)
    requires i <= a <= b <= c <= d <= |text|
    requires Between(text, i, a) == "" && Between(text, b, c) == "" && Between(text, c, d) == ""
    ensures Between(text, i, d) == Between(text, a, b)
  {
    BetweenJoins(text, i, a, d);
    BetweenJoins(text, a, b, d);
    BetweenJoins(text, b, c, d);
    Appended(Between(text, a, d), "", "");
    Appended(Between(text, a, b), "", "");
  }

  lemma StyledLetters(text: string, s: Span)
    requires s.from <= s.end && s.end + |s.marker| <= |text|
    ensures LettersOf(SpanPieces(text, s)) == Letters(text[s.from..s.end])
  {
    var body := text[s.from..s.end];
    if s.marker == "``" { LettersOfOne(Styled(RawText, body)); }
    else if s.marker == "**" { LettersOfOne(Styled(StrongText, body)); }
    else if s.marker == "*" { LettersOfOne(Styled(ItalicText, body)); }
    else { InterpretedLetters(body, After(text, s.end + |s.marker|) == Some('_')); }
  }

  lemma MarkerHasNone(text: string, i: nat, marker: string)
    requires Stands(text, i, marker) && marker in {"``", "**", "*", "`"}
    ensures Between(text, i, i + |marker|) == ""
  {
    forall k | i <= k < i + |marker| ensures !IsLetter(text[k]) {
      assert text[i + (k - i)] == marker[k - i] && marker[k - i] in {'`', '*'};
    }
    BetweenNone(text, i, i + |marker|);
  }

  /** What is shown is short of what was handed over by what is lost, and is the same if nothing is. */
  ghost predicate Short(shown: string, handed: string, lost: nat) {
    |shown| + lost == |handed| && (lost == 0 ==> shown == handed)
  }

  lemma ShortJoins(a: string, b: string, m: nat, c: string, d: string, n: nat)
    requires Short(a, b, m) && Short(c, d, n)
    ensures Short(a + c, b + d, m + n)
  {
  }

  /** The letters written and those dropped are all there are; if none is dropped they come in order. */
  ghost predicate Accounted(text: string, i: nat, plain: string)
    requires i <= |text|
  {
    var all := Letters(plain) + Between(text, i, |text|);
    var lost := Dropped(text, i, plain, true) + Dropped(text, i, plain, false);
    var shown := LettersOf(Scan(text, i, plain));
    Short(shown, all, lost)
  }

  lemma {:induction false} ScanLetters(text: string, i: nat, plain: string)
    requires i <= |text|
    ensures Accounted(text, i, plain)
    decreases |text| - i
  {
    if i == |text| {
      ScanEnds(text, plain);
    } else if text[i] == '\\' && i + 1 < |text| {
      ScanLetters(text, i + 2, plain + [text[i + 1]]);
      EscapeLetters(text, i, plain);
    } else if Opening(text, i).None? {
      ScanLetters(text, i + 1, plain + [text[i]]);
      NextLetter(text, i, plain);
    } else {
      var s := Opening(text, i).value;
      ScanLetters(text, Past(text, s), "");
      ScanSpan(text, i, plain, s);
    }
  }

  lemma ScanEnds(text: string, plain: string)
    ensures Accounted(text, |text|, plain)
  {
    FlushedLetters(plain);
    BetweenNone(text, |text|, |text|);
    Appended(Letters(plain), "", "");
  }

  /** One more character of the plain run. */
  lemma NextLetter(text: string, i: nat, plain: string)
    requires i < |text|
    ensures Letters(plain + [text[i]]) + Between(text, i + 1, |text|) == Letters(plain) + Between(text, i, |text|)
  {
    BetweenJoins(text, i, i + 1, |text|);
    LettersJoin(plain, [text[i]]);
    assert text[i..i + 1] == [text[i]];
    Appended(Letters(plain), Letters([text[i]]), Between(text, i + 1, |text|));
  }

  lemma EscapeLetters(text: string, i: nat, plain: string)
    requires i + 1 < |text| && text[i] == '\\'
    ensures Letters(plain + [text[i + 1]]) + Between(text, i + 2, |text|) == Letters(plain) + Between(text, i, |text|)
  {
    NextLetter(text, i + 1, plain);
    BetweenJoins(text, i, i + 1, |text|);
    BetweenNone(text, i, i + 1);
    Appended(Between(text, i + 1, |text|), "", "");
  }

  lemma ScanSpan(text: string, i: nat, plain: string, s: Span)
    requires i < |text| && !(text[i] == '\\' && i + 1 < |text|) && Opening(text, i) == Some(s)
    requires Accounted(text, Past(text, s), "")
    ensures Accounted(text, i, plain)
  {
    var (next, flushed, pieces) := (Past(text, s), Flushed(plain), SpanPieces(text, s));
    var rest := Scan(text, next, "");
    FlushedLetters(plain);
    SpanLetters(text, i, s);
    BetweenJoins(text, i, next, |text|);
    LettersOfJoin(flushed + pieces, rest);
    LettersOfJoin(flushed, pieces);
    SpanAdds(LettersOf(flushed), Letters(plain), Between(text, i, next), LettersOf(rest), Between(text, next, |text|));
    assert Letters("") == "";
    Appended(Between(text, next, |text|), "", "");
  }

  lemma SpanAdds(flushed: string, plain: string, span: string, shown: string, rest: string)
    ensures flushed + span + shown == flushed + (span + shown)
    ensures |flushed + span + shown| == |flushed| + |span| + |shown|
    ensures |plain + (span + rest)| == |plain| + |span| + |rest|
    ensures flushed == plain && shown == rest ==> flushed + span + shown == plain + (span + rest)
  {
  }

  /**
   * All letters of a text are written, in order, exactly when no plain run of it ends in a
   * role with a letter; the letters dropped are those of roles, before interpreted text
   * or elsewhere, and no others.
   */
  lemma InlineLetters(text: string)
    ensures Short(LettersOf(Rendered(text)), Letters(text), Roles(text) + Eaten(text))
    ensures LettersOf(Rendered(text)) == Letters(text) <==> Roles(text) == 0 && Eaten(text) == 0
  {
    ScanLetters(text, 0, "");
    assert text[0..|text|] == text && Letters("") == "";
    Appended(Letters(text), "", "");
  }

  /** A text without markers and escapes is one plain run. */
  lemma {:induction false} ScanPlain(text: string, i: nat)
    requires i <= |text| && forall k | 0 <= k < |text| :: text[k] !in {'\\', '*', '`'}
    ensures Scan(text, i, text[..i]) == Flushed(text)
    ensures Dropped(text, i, text[..i], true) == 0 && Dropped(text, i, text[..i], false) == RoleLetters(text)
    decreases |text| - i
  {
    if i == |text| {
      assert text[..i] == text;
    } else {
      NoMarkerHere(text, i);
      assert text[..i] + [text[i]] == text[..i + 1];
      ScanPlain(text, i + 1);
    }
  }

  lemma NoMarkerHere(text: string, i: nat)
    requires i < |text| && text[i] !in {'*', '`'}
    ensures Opening(text, i).None?
  {
    StandsFirst(text, i, "``");
    StandsFirst(text, i, "**");
    StandsFirst(text, i, "*");
    StandsFirst(text, i, "`");
  }

  lemma StandsFirst(text: string, i: nat, marker: string)
    requires marker != ""
    ensures Stands(text, i, marker) ==> i < |text| && text[i] == marker[0]
  {
    if Stands(text, i, marker) { assert text[i + 0] == marker[0]; }
  }

  /** So what such a text loses is the role it ends like, though no interpreted text follows it. */
  lemma PlainTextLoses(text: string)
    requires forall k | 0 <= k < |text| :: text[k] !in {'\\', '*', '`'}
    ensures Rendered(text) == Flushed(text) && Roles(text) == 0 && Eaten(text) == RoleLetters(text)
  {
    ScanPlain(text, 0);
    assert text[..0] == "";
  }

  lemma {:induction false} LastColonAt(s: string, at: nat, n: nat)
    requires at < n <= |s| && s[at] == ':' && forall k | at < k < n :: s[k] != ':'
    ensures LastColon(s, n) == Some(at)
    decreases n
  {
    if at < n - 1 { LastColonAt(s, at, n - 1); }
  }

  /** Letters, digits and a few marks of ASCII. */
  predicate NamesRole(c: char) {
    '0' <= c <= '9' || 'a' <= c <= 'z' || 'A' <= c <= 'Z' || c == '-' || c == '_' || c == '+'
  }

  /** A run that ends in a role as it is written loses just the role, whatever stands before it. */
  lemma RoleReads(before: string, name: string)
    requires name != "" && forall k | 0 <= k < |name| :: NamesRole(name[k])
    ensures var plain := before + (":" + (name + ":")); RoleAt(plain) == Some(|before|) && StripRole(plain) == before
  {
    var plain := before + (":" + (name + ":"));
    var n := |plain| - 1;
    forall k | |before| < k < n ensures plain[k] == name[k - |before| - 1] {}
    LastColonAt(plain, |before|, n);
    assert plain[..|before|] == before;
  }

  lemma BarLetters()
    ensures |Letters(":bar:")| == 3
  {
    assert LettersTo(":bar:", 1) == "" && LettersTo(":bar:", 2) == "b" && LettersTo(":bar:", 3) == "ba";
    assert LettersTo(":bar:", 4) == "bar" && LettersTo(":bar:", 5) == "bar";
  }

  /** A sentence whose last word is taken for a role. */
  lemma RoleEatsText()
    ensures var text := "see foo" + (":" + ("bar" + ":"));
      Rendered(text) == [PlainRun("see foo")] && Eaten(text) == 3
  {
    var text := "see foo" + (":" + ("bar" + ":"));
    RoleReads("see foo", "bar");
    PlainTextLoses(text);
    BarLetters();
    assert text[7..] == ":bar:";
  }

  // ----- how markup as it is written is read ---------------------------------------------------------

  /** White space and the punctuation that may stand before a start marker. */
  predicate OpensAfter(c: char) { IsSpace(c) || c in {'-', ':', '/', '\'', '"', '<', '(', '[', '{'} }

  /** White space and the punctuation that may stand after an end marker. */
  predicate ClosesBefore(c: char) {
    IsSpace(c) || c in {'-', '.', ',', ':', ';', '!', '?', '\\', '/', '\'', '"', ')', ']', '}', '>'}
  }

  predicate IsMarker(marker: string) { marker in {"``", "**", "*", "`"} }

  /** Inside a word nothing opens, */
  lemma NothingOpens(text: string, i: nat)
    requires 0 < i < |text| && !OpensAfter(text[i - 1])
    ensures Opening(text, i).None?
  {
  }

  /** ... and a marker before white space does not open. */
  lemma NothingOpensBeforeSpace(text: string, i: nat, marker: string)
    requires i + |marker| <= |text| && marker != "" && (i + |marker| < |text| ==> IsSpace(text[i + |marker|]))
    ensures TryMarker(text, i, marker).None?
  {
  }

  /** What closes a span is not where it opened, follows text that is not escaped, and ends a word. */
  lemma CloseEndsWord(text: string, from: nat, marker: string)
    requires from <= |text| && IsMarker(marker) && FindEnd(text, from, from, marker).Some?
    ensures var end := FindEnd(text, from, from, marker).value;
      from < end && !IsSpace(text[end - 1]) && text[end - 1] != '\\'
      && var next := Follows(text, end, marker); next < |text| ==> ClosesBefore(text[next])
  {
  }

  ghost predicate StandsMarked(text: string, i: nat, marker: string, n: nat, m: nat) {
    IsMarker(marker) && 0 < n && i + |marker| + n + |marker| + m <= |text| && (m > 0 ==> marker == "`")
    && Stands(text, i, marker) && Stands(text, i + |marker| + n, marker)
    && Enclosed(text, i + |marker|, i + |marker| + n, marker[0])
    && AllBars(text, i + |marker| + n + |marker|, i + |marker| + n + |marker| + m)
    && Surrounded(text, i, i + |marker| + n + |marker| + m)
  }

  /** No white space or backslash at the edges, and the character of the marker nowhere. */
  ghost predicate Enclosed(text: string, from: nat, end: nat, marker: char)
    requires from < end <= |text|
  {
    !IsSpace(text[from]) && !IsSpace(text[end - 1]) && text[end - 1] != '\\'
    && forall k | from <= k < end :: text[k] != marker
  }

  ghost predicate WrittenAt(text: string, i: nat, marker: string) {
    i + |marker| <= |text| && text[i..i + |marker|] == marker
  }

  lemma WrittenStands(text: string, i: nat, marker: string)
    requires WrittenAt(text, i, marker)
    ensures Stands(text, i, marker)
  {
    forall k | 0 <= k < |marker| ensures text[i + k] == marker[k] {
      assert text[i..i + |marker|][k] == text[i + k];
    }
  }

  /** At `i` the marker is written, `n` characters it may enclose, the marker again, and `m` bars. */
  ghost predicate MarksAt(text: string, i: nat, marker: string, n: nat, m: nat) {
    IsMarker(marker) && 0 < n && i + |marker| + n + |marker| + m <= |text| && (m > 0 ==> marker == "`")
    && WrittenAt(text, i, marker) && WrittenAt(text, i + |marker| + n, marker)
    && Enclosed(text, i + |marker|, i + |marker| + n, marker[0])
    && AllBars(text, i + |marker| + n + |marker|, i + |marker| + n + |marker| + m)
    && Surrounded(text, i, i + |marker| + n + |marker| + m)
  }

  ghost predicate AllBars(text: string, i: nat, end: nat)
    requires i <= end <= |text|
  {
    forall k | i <= k < end :: text[k] == '_'
  }

  /** What may stand around markup. */
  ghost predicate Surrounded(text: string, i: nat, next: nat)
    requires i <= next <= |text|
  {
    (i > 0 ==> OpensAfter(text[i - 1])) && (next < |text| ==> ClosesBefore(text[next]))
  }

  lemma {:induction false} BarsSkipped(text: string, i: nat, end: nat)
    requires i <= end <= |text| && (forall k | i <= k < end :: text[k] == '_') && (end < |text| ==> text[end] != '_')
    ensures SkipBars(text, i) == end
    decreases end - i
  {
    if i < end { BarsSkipped(text, i + 1, end); }
  }

  /** The end marker is the first place the marker stands after the start. */
  lemma {:induction false} SeekFinds(text: string, at: nat, end: nat, marker: string)
    requires at <= end <= |text| && marker != "" && Stands(text, end, marker)
    requires forall k | at <= k < end :: text[k] != marker[0]
    ensures Seek(text, at, marker) == Some(end)
    decreases end - at
  {
    if at < end {
      StandsFirst(text, at, marker);
      SeekFinds(text, at + 1, end, marker);
    }
  }

  lemma SpanCloses(text: string, i: nat, marker: string, n: nat, m: nat)
    requires StandsMarked(text, i, marker, n, m)
    ensures var from := i + |marker|; TryMarker(text, i, marker) == Some(Span(marker, from, from + n))
  {
    var from := i + |marker|;
    EndCloses(text, i, marker, n, m);
    assert CanStart(Before(text, i), After(text, from));
  }

  lemma EndCloses(text: string, i: nat, marker: string, n: nat, m: nat)
    requires StandsMarked(text, i, marker, n, m)
    ensures FindEnd(text, i + |marker|, i + |marker|, marker) == Some(i + |marker| + n)
  {
    var from := i + |marker|;
    SeekFinds(text, from, from + n, marker);
    FollowsBars(text, i, marker, n, m);
  }

  lemma FollowsBars(text: string, i: nat, marker: string, n: nat, m: nat)
    requires StandsMarked(text, i, marker, n, m)
    ensures Follows(text, i + |marker| + n, marker) == i + |marker| + n + |marker| + m
  {
    if marker == "`" { BarsSkipped(text, i + n + 2, i + n + 2 + m); }
  }

  lemma SpanOpens(text: string, i: nat, marker: string, n: nat, m: nat)
    requires StandsMarked(text, i, marker, n, m)
    ensures Opening(text, i) == Some(Span(marker, i + |marker|, i + |marker| + n))
  {
    SpanCloses(text, i, marker, n, m);
    OtherMarkers(text, i, marker, n, m);
  }

  /** No longer marker stands there, and none of the other character. */
  lemma OtherMarkers(text: string, i: nat, marker: string, n: nat, m: nat)
    requires StandsMarked(text, i, marker, n, m)
    ensures marker == "**" ==> !Stands(text, i, "``")
    ensures marker == "*" ==> !Stands(text, i, "``") && !Stands(text, i, "**")
    ensures marker == "`" ==> !Stands(text, i, "``") && !Stands(text, i, "**") && !Stands(text, i, "*")
  {
    assert text[i + 0] == marker[0];
    assert Stands(text, i, "``") ==> text[i + 0] == "``"[0] && text[i + 1] == "``"[1];
    assert Stands(text, i, "**") ==> text[i + 0] == "**"[0] && text[i + 1] == "**"[1];
    assert Stands(text, i, "*") ==> text[i + 0] == "*"[0];
  }

  /** Wherever markup is written by the rules it is read as such, between a run before it and the text after it. */
  lemma MarkupReads(text: string, i: nat, plain: string, marker: string, n: nat, m: nat)
    requires MarksAt(text, i, marker, n, m)
    ensures var span := Span(marker, i + |marker|, i + |marker| + n);
      Past(text, span) == i + |marker| + n + |marker| + m
      && Scan(text, i, plain) == Flushed(plain) + SpanPieces(text, span) + Scan(text, Past(text, span), "")
  {
    WrittenStands(text, i, marker);
    WrittenStands(text, i + |marker| + n, marker);
    MarkupIsSpan(text, i, marker, n, m);
    ScanOpens(text, i, plain, Span(marker, i + |marker|, i + |marker| + n));
  }

  lemma MarkupIsSpan(text: string, i: nat, marker: string, n: nat, m: nat)
    requires StandsMarked(text, i, marker, n, m)
    ensures var span := Span(marker, i + |marker|, i + |marker| + n);
      i < |text| && text[i] != '\\' && Opening(text, i) == Some(span)
      && Past(text, span) == i + |marker| + n + |marker| + m
  {
    MarkupStarts(text, i, marker, n, m);
    SpanOpens(text, i, marker, n, m);
  }

  lemma MarkupStarts(text: string, i: nat, marker: string, n: nat, m: nat)
    requires StandsMarked(text, i, marker, n, m)
    ensures i < |text| && text[i] != '\\'
    ensures Past(text, Span(marker, i + |marker|, i + |marker| + n)) == i + |marker| + n + |marker| + m
  {
    FollowsBars(text, i, marker, n, m);
    assert text[i + 0] == marker[0];
  }

  lemma ScanOpens(text: string, i: nat, plain: string, s: Span)
    requires i < |text| && text[i] != '\\' && Opening(text, i) == Some(s)
    ensures Scan(text, i, plain) == Flushed(plain) + SpanPieces(text, s) + Scan(text, Past(text, s), "")
  {
  }

  /**
   * Double backquotes enclose raw text, two stars strong text, one star italic text, and
   * backquotes raw text unless a bar after them makes it a reference.
   */
  lemma MarkersMean(text: string, s: Span)
    requires s.from <= s.end && s.end + |s.marker| <= |text| && IsMarker(s.marker)
    ensures var body := text[s.from..s.end];
      match SpanPieces(text, s)[0]
      case Styled(RawText, all) =>
        all == body && (s.marker == "``" || (s.marker == "`" && (s.end + 1 < |text| ==> text[s.end + 1] != '_')))
      case Styled(StrongText, all) => all == body && s.marker == "**"
      case Styled(ItalicText, all) => all == body && s.marker == "*"
      case _ =>
        s.marker == "`" && s.end + 1 < |text| && text[s.end + 1] == '_'
        && SpanPieces(text, s) == Interpreted(body, true)
  {
  }

  /** A reference with a target in angle brackets shows its label and the target, */
  lemma TargetReads(body: string, url: string)
    requires url != "" && forall k | 0 <= k < |url| :: url[k] != ' '
    ensures Interpreted(body + (" <" + (url + ">")), true) == [Styled(LinkLabel, Trim(body)), Target(url)]
  {
    var text := body + (" <" + (url + ">"));
    TargetFound(body, url);
    assert text[..|body|] == body && text[|body| + 2..|text| - 1] == url;
  }

  lemma TargetFound(body: string, url: string)
    requires url != "" && forall k | 0 <= k < |url| :: url[k] != ' '
    ensures TargetAt(body + (" <" + (url + ">"))) == Some(|body|)
  {
    var text := body + (" <" + (url + ">"));
    assert text[|body|] == ' ' && text[|body| + 1] == '<' && text[|text| - 1] == '>';
    AngleFound(text, |body|, |text|);
  }

  lemma {:induction false} AngleFound(s: string, at: nat, n: nat)
    requires at + 2 <= n <= |s| && s[at] == ' ' && s[at + 1] == '<' && forall k | at < k < n :: s[k] != ' '
    ensures LastAngle(s, n) == Some(at)
    decreases n
  {
    if at + 2 < n { AngleFound(s, at, n - 1); }
  }

  /** ... and one without shows all it encloses. */
  lemma LabelReads(body: string)
    requires body != "" && body[|body| - 1] != '>'
    ensures Interpreted(body, true) == [Styled(LinkLabel, body)]
  {
  }

  /** A character with a backslash before it if it could mean something. */
  function EscapedChar(c: char): string { if c == '\\' || c == '*' || c == '`' then ['\\', c] else [c] }

  /** The first `n` characters so written. */
  function EscapedTo(s: string, n: nat): string
    requires n <= |s|
  {
    if n == 0 then "" else EscapedTo(s, n - 1) + EscapedChar(s[n - 1])
  }

  function Escaped(s: string): string { EscapedTo(s, |s|) }

  /** The part stands in the text from `i` on. */
  ghost predicate Holds(text: string, i: nat, part: string) {
    forall n: nat {:trigger Unseal(n)} | Unseal(n) :: i + |part| <= |text| && text[i..i + |part|] == part
  }

  lemma HoldsBoth(text: string, i: nat, a: string, b: string)
    requires Holds(text, i, a + b)
    ensures Holds(text, i, a) && Holds(text, i + |a|, b)
  {
    assert Unseal(0);
    var all := text[i..i + |a + b|];
    assert all[..|a|] == a && all[|a|..] == b;
  }

  /** The text from `i` to `j` is read as plain text. */
  ghost predicate ReadsAs(text: string, i: nat, j: nat, plain: string, s: string) {
    forall n: nat {:trigger Unseal(n)} | Unseal(n) ::
      i <= j <= |text| && Scan(text, i, plain) == Scan(text, j, plain + s)
  }

  lemma ReadsOn(text: string, i: nat, j: nat, k: nat, plain: string, s: string, t: string)
    requires ReadsAs(text, i, j, plain, s) && ReadsAs(text, j, k, plain + s, t)
    ensures ReadsAs(text, i, k, plain, s + t)
  {
    assert Unseal(0);
    Appended(plain, s, t);
  }

  lemma ReadsNothing(text: string, i: nat, plain: string)
    requires i <= |text|
    ensures ReadsAs(text, i, i, plain, "")
  {
    Appended(plain, "", "");
  }

  /** Escaped text is read as it was, whatever markup it holds and wherever it stands. */
  lemma {:induction false} EscapedReads(text: string, i: nat, s: string, n: nat, plain: string)
    requires n <= |s| && Holds(text, i, EscapedTo(s, n))
    ensures ReadsAs(text, i, i + |EscapedTo(s, n)|, plain, s[..n])
  {
    if n == 0 {
      NothingEscaped(text, i, s, plain);
    } else {
      EscapedPart(text, i, s, n);
      EscapedReads(text, i, s, n - 1, plain);
      EscapedMore(text, i, s, n, plain);
    }
  }

  lemma EscapedPart(text: string, i: nat, s: string, n: nat)
    requires 0 < n <= |s| && Holds(text, i, EscapedTo(s, n))
    ensures Holds(text, i, EscapedTo(s, n - 1)) && Holds(text, i + |EscapedTo(s, n - 1)|, EscapedChar(s[n - 1]))
  {
    HoldsBoth(text, i, EscapedTo(s, n - 1), EscapedChar(s[n - 1]));
  }

  lemma NothingEscaped(text: string, i: nat, s: string, plain: string)
    requires Holds(text, i, "")
    ensures EscapedTo(s, 0) == "" && ReadsAs(text, i, i, plain, s[..0])
  {
    assert Unseal(0);
    ReadsNothing(text, i, plain);
    assert s[..0] == "";
  }

  lemma EscapedMore(text: string, i: nat, s: string, n: nat, plain: string)
    requires 0 < n <= |s| && ReadsAs(text, i, i + |EscapedTo(s, n - 1)|, plain, s[..n - 1])
    requires Holds(text, i + |EscapedTo(s, n - 1)|, EscapedChar(s[n - 1]))
    ensures ReadsAs(text, i, i + |EscapedTo(s, n)|, plain, s[..n])
  {
    var (front, c) := (s[..n - 1], s[n - 1]);
    var at := i + |EscapedTo(s, n - 1)|;
    EscapedCharReads(text, at, c, plain + front);
    ReadsOn(text, i, at, at + |EscapedChar(c)|, plain, front, [c]);
    assert s[..n] == front + [c];
  }

  lemma EscapedCharReads(text: string, i: nat, c: char, plain: string)
    requires Holds(text, i, EscapedChar(c))
    ensures ReadsAs(text, i, i + |EscapedChar(c)|, plain, [c])
  {
    assert Unseal(0);
    var part := EscapedChar(c);
    assert text[i] == text[i..i + |part|][0];
    if |part| == 1 {
      NoMarkerHere(text, i);
    } else {
      assert text[i + 1] == text[i..i + |part|][1];
    }
  }

  /** A text escaped as a whole is one plain run of it. */
  lemma AllEscaped(s: string)
    ensures Rendered(Escaped(s)) == Flushed(s)
  {
    assert Unseal(0);
    var text := Escaped(s);
    assert text[0..|text|] == text;
    EscapedReads(text, 0, s, |s|, "");
    Appended(s, "", "");
    assert s[..|s|] == s;
  }

  /** No text is no piece. */
  lemma NothingRendered()
    ensures Rendered("") == []
  {
  }
}
