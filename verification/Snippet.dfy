/**
 * The grammar of LSP snippet bodies: the parser, a canonical printer, and the proof that
 * the parser yields exactly the printer's normal forms and inverts it on them.
 */
module Snippet {
  import opened Wrappers
  import opened Decimals

  datatype Node =
    | Text(text: string)
    | Stop(index: nat, body: seq<Node>, choices: seq<string>)

  datatype SnippetError =
    | TrailingDollar
    | Variable(name: string)
    | VariablePlaceholder(name: string)
    | Transform(index: nat)
    | Unterminated(index: nat)
    | UnterminatedChoice
    | ExpectedClose
    | UnexpectedClose

  /** A parse step's value with the position after it, or why it failed. */
  datatype Parsed<+T> = Yes(value: T, pos: nat) | No(error: SnippetError)

  const MAX_INDEX: nat := 0xffff_ffff

  predicate IsIdent(c: char) { IsDigit(c) || 'a' <= c <= 'z' || 'A' <= c <= 'Z' || c == '_' }

  predicate Escapable(c: char) { c == '$' || c == '}' || c == '\\' }

  predicate EscapableInChoice(c: char) { c == ',' || c == '|' || c == '\\' }

  // ----- the grammar as functions --------------------------------------------------------

  /** Where the digits from `pos` end, and their value after `n`, saturating. */
  function Digits(src: string, pos: nat, n: nat): (r: (nat, nat))
    requires pos <= |src|
    ensures pos <= r.1 <= |src| && (pos < |src| && IsDigit(src[pos]) ==> pos < r.1)
    ensures n <= MAX_INDEX ==> r.0 <= MAX_INDEX
    decreases |src| - pos
  {
    if pos < |src| && IsDigit(src[pos])
    then Digits(src, pos + 1, Min(MAX_INDEX, Min(MAX_INDEX, n * 10) + (src[pos] as int - '0' as int)))
    else (n, pos)
  }

  function IdentEnd(src: string, pos: nat): (r: nat)
    requires pos <= |src|
    ensures pos <= r <= |src|
    ensures forall i | pos <= i < r :: IsIdent(src[i])
    ensures r < |src| ==> !IsIdent(src[r])
    decreases |src| - pos
  {
    if pos < |src| && IsIdent(src[pos]) then IdentEnd(src, pos + 1) else pos
  }

  function Close<T>(src: string, pos: nat, value: T): Parsed<T> {
    if pos < |src| && src[pos] == '}' then Yes(value, pos + 1) else No(ExpectedClose)
  }

  /** The literal collected so far as a node, if there is one. */
  function Flush(lit: string): seq<Node> { if lit == "" then [] else [Text(lit)] }

  function Run(src: string, pos: nat, inBrace: bool, nodes: seq<Node>, lit: string): (r: Parsed<seq<Node>>)
    requires pos <= |src|
    ensures r.Yes? ==> pos <= r.pos <= |src|
    decreases |src| - pos, 1
  {
    if pos == |src| || (inBrace && src[pos] == '}') then Yes(nodes + Flush(lit), pos)
    else if src[pos] == '\\' && pos + 1 < |src| then
      if Escapable(src[pos + 1]) then Run(src, pos + 2, inBrace, nodes, lit + [src[pos + 1]])
      else Run(src, pos + 1, inBrace, nodes, lit + ['\\'])
    else if src[pos] == '$' then
      match Dollar(src, pos)
      case Yes(node, next) => Run(src, next, inBrace, nodes + Flush(lit) + [node], "")
      case No(e) => No(e)
    else Run(src, pos + 1, inBrace, nodes, lit + [src[pos]])
  }

  function Dollar(src: string, pos: nat): (r: Parsed<Node>)
    requires pos < |src|
    ensures r.Yes? ==> pos < r.pos <= |src|
    decreases |src| - pos, 0
  {
    if pos + 1 == |src| then No(TrailingDollar)
    else if src[pos + 1] == '{' then Braced(src, pos + 2)
    else if IsDigit(src[pos + 1]) then
      var (index, next) := Digits(src, pos + 1, 0);
      Yes(Stop(index, [], []), next)
    else No(Variable(src[pos + 1..IdentEnd(src, pos + 1)]))
  }

  function Braced(src: string, pos: nat): (r: Parsed<Node>)
    requires pos <= |src|
    ensures r.Yes? ==> pos < r.pos <= |src|
    decreases |src| - pos, 2
  {
    if pos == |src| || !IsDigit(src[pos]) then No(VariablePlaceholder(src[pos..IdentEnd(src, pos)]))
    else
      var (index, next) := Digits(src, pos, 0);
      if next == |src| then No(Unterminated(index))
      else if src[next] == '}' then Yes(Stop(index, [], []), next + 1)
      else if src[next] == ':' then
        match Run(src, next + 1, true, [], "")
        case Yes(body, end) => Close(src, end, Stop(index, body, []))
        case No(e) => No(e)
      else if src[next] == '|' then
        match Choices(src, next + 1, [], "")
        case Yes(choices, end) => Yes(Stop(index, [], choices), end)
        case No(e) => No(e)
      else if src[next] == '/' then No(Transform(index))
      else No(Unterminated(index))
  }

  function Choices(src: string, pos: nat, choices: seq<string>, cur: string): (r: Parsed<seq<string>>)
    requires pos <= |src|
    ensures r.Yes? ==> pos < r.pos <= |src| && |r.value| > |choices|
    decreases |src| - pos
  {
    if pos == |src| then No(UnterminatedChoice)
    else if src[pos] == '\\' && pos + 1 < |src| then
      if EscapableInChoice(src[pos + 1]) then Choices(src, pos + 2, choices, cur + [src[pos + 1]])
      else Choices(src, pos + 1, choices, cur + ['\\'])
    else if src[pos] == ',' then Choices(src, pos + 1, choices + [cur], "")
    else if src[pos] == '|' then Close(src, pos + 1, choices + [cur])
    else Choices(src, pos + 1, choices, cur + [src[pos]])
  }

  /** A whole body: all of it must be consumed. */
  function Parse(src: string): Result<seq<Node>, SnippetError> {
    match Run(src, 0, false, [], "")
    case Yes(nodes, pos) => if pos == |src| then Ok(nodes) else Err(UnexpectedClose)
    case No(e) => Err(e)
  }

  // ----- the parser ---------------------------------------------------------------------------

  method ParseInt(src: string, start: nat) returns (n: nat, pos: nat)
    requires start <= |src|
    ensures (n, pos) == Digits(src, start, 0)
  {
    n, pos := 0, start;
    while pos < |src| && IsDigit(src[pos])
      invariant start <= pos <= |src| && Digits(src, pos, n) == Digits(src, start, 0)
    {
      n := Min(MAX_INDEX, Min(MAX_INDEX, n * 10) + (src[pos] as int - '0' as int));
      pos := pos + 1;
    }
  }

  method ReadIdent(src: string, start: nat) returns (name: string)
    requires start <= |src|
    ensures name == src[start..IdentEnd(src, start)]
    ensures forall c | c in name :: IsIdent(c)
    ensures start + |name| < |src| ==> !IsIdent(src[start + |name|])
  {
    var pos := start;
    while pos < |src| && IsIdent(src[pos])
      invariant start <= pos <= |src| && IdentEnd(src, pos) == IdentEnd(src, start)
    {
      pos := pos + 1;
    }
    name := src[start..pos];
  }

  method ParseNodes(src: string, start: nat, inBrace: bool) returns (r: Parsed<seq<Node>>)
    requires start <= |src|
    ensures r == Run(src, start, inBrace, [], "")
    decreases |src| - start, 1
  {
    var nodes: seq<Node>, lit := [], "";
    var pos := start;
    while pos < |src| && !(inBrace && src[pos] == '}')
      invariant start <= pos <= |src| && Run(src, pos, inBrace, nodes, lit) == Run(src, start, inBrace, [], "")
      decreases |src| - pos
    {
      var c := src[pos];
      if c == '\\' && pos + 1 < |src| {
        if Escapable(src[pos + 1]) {
          lit := lit + [src[pos + 1]];
          pos := pos + 2;
        } else {
          lit := lit + ['\\'];
          pos := pos + 1;
        }
      } else if c == '$' {
        FlushEmpty(nodes);
        if lit != "" {
          nodes := nodes + [Text(lit)];
          lit := "";
        }
        var step := ParseDollar(src, pos);
        if step.No? { return No(step.error); }
        nodes := nodes + [step.value];
        pos := step.pos;
      } else {
        lit := lit + [c];
        pos := pos + 1;
      }
    }
    FlushEmpty(nodes);
    if lit != "" { nodes := nodes + [Text(lit)]; }
    r := Yes(nodes, pos);
  }

  lemma FlushEmpty(nodes: seq<Node>)
    ensures nodes + Flush("") == nodes
  {
  }

  method ParseDollar(src: string, start: nat) returns (r: Parsed<Node>)
    requires start < |src| && src[start] == '$'
    ensures r == Dollar(src, start)
    decreases |src| - start, 0
  {
    var pos := start + 1;
    if pos >= |src| { return No(TrailingDollar); }
    if src[pos] == '{' {
      r := ParseBraced(src, pos + 1);
    } else if IsDigit(src[pos]) {
      var index;
      index, pos := ParseInt(src, pos);
      r := Yes(Stop(index, [], []), pos);
    } else {
      var name := ReadIdent(src, pos);
      r := No(Variable(name));
    }
  }

  method ParseBraced(src: string, start: nat) returns (r: Parsed<Node>)
    requires start <= |src|
    ensures r == Braced(src, start)
    decreases |src| - start, 2
  {
    if start >= |src| || !IsDigit(src[start]) {
      var name := ReadIdent(src, start);
      return No(VariablePlaceholder(name));
    }
    var index, pos := ParseInt(src, start);
    if pos >= |src| { return No(Unterminated(index)); }
    match src[pos] {
      case '}' => r := Yes(Stop(index, [], []), pos + 1);
      case ':' =>
        var body := ParseNodes(src, pos + 1, true);
        if body.No? { return No(body.error); }
        r := Close(src, body.pos, Stop(index, body.value, []));
      case '|' =>
        var choices := ParseChoices(src, pos + 1);
        if choices.No? { return No(choices.error); }
        r := Yes(Stop(index, [], choices.value), choices.pos);
      case '/' => r := No(Transform(index));
      case _ => r := No(Unterminated(index));
    }
  }

  method ParseChoices(src: string, start: nat) returns (r: Parsed<seq<string>>)
    requires start <= |src|
    ensures r == Choices(src, start, [], "")
  {
    var choices: seq<string>, cur := [], "";
    var pos := start;
    while pos < |src|
      invariant start <= pos <= |src| && Choices(src, pos, choices, cur) == Choices(src, start, [], "")
    {
      var c := src[pos];
      if c == '\\' && pos + 1 < |src| {
        if EscapableInChoice(src[pos + 1]) {
          cur := cur + [src[pos + 1]];
          pos := pos + 2;
        } else {
          cur := cur + ['\\'];
          pos := pos + 1;
        }
      } else if c == ',' {
        choices := choices + [cur];
        cur := "";
        pos := pos + 1;
      } else if c == '|' {
        return Close(src, pos + 1, choices + [cur]);
      } else {
        cur := cur + [c];
        pos := pos + 1;
      }
    }
    r := No(UnterminatedChoice);
  }

  method ParseSnippet(src: string) returns (r: Result<seq<Node>, SnippetError>)
    ensures r == Parse(src)
  {
    var nodes := ParseNodes(src, 0, false);
    if nodes.No? { return Err(nodes.error); }
    r := if nodes.pos != |src| then Err(UnexpectedClose) else Ok(nodes.value);
  }

  // ----- normal forms and their printer ----------------------------------------------------------

  /** No empty text, no two texts in a row, and a stop is bare, has a body, or has choices. */
  predicate Normal(nodes: seq<Node>)
    decreases nodes
  {
    nodes == [] || (NormalNode(nodes[0]) && Normal(nodes[1..]) && (|nodes| > 1 && nodes[0].Text? ==> nodes[1].Stop?))
  }

  predicate NormalNode(n: Node)
    decreases n
  {
    match n
    case Text(s) => s != ""
    case Stop(index, body, choices) => index <= MAX_INDEX && Normal(body) && (body == [] || choices == [])
  }

  function Escape(s: string): string {
    if s == "" then "" else (if Escapable(s[0]) then ['\\', s[0]] else [s[0]]) + Escape(s[1..])
  }

  function EscapeChoice(s: string): string {
    if s == "" then "" else (if EscapableInChoice(s[0]) then ['\\', s[0]] else [s[0]]) + EscapeChoice(s[1..])
  }

  function PrintChoices(choices: seq<string>): string
    requires choices != []
  {
    EscapeChoice(choices[0]) + if |choices| == 1 then "|}" else "," + PrintChoices(choices[1..])
  }

  function PrintNode(n: Node): string
    decreases n
  {
    match n
    case Text(s) => Escape(s)
    case Stop(index, body, choices) =>
      "${" + (Decimal(index)
        + if choices != [] then "|" + PrintChoices(choices) else if body != [] then ":" + (Print(body) + "}") else "}")
  }

  /** What follows a stop's number in its printed form. */
  function Tail(n: Node): string
    requires n.Stop?
  {
    if n.choices != [] then "|" + PrintChoices(n.choices) else if n.body != [] then ":" + (Print(n.body) + "}") else "}"
  }

  function Print(nodes: seq<Node>): string
    decreases nodes
  {
    if nodes == [] then "" else PrintNode(nodes[0]) + Print(nodes[1..])
  }

  // ----- reading a printed form -------------------------------------------------------------------

  /** The source holds `p` at `pos`. */
  ghost predicate Holds(src: string, pos: nat, p: string)
    decreases |p|
  {
    if p == "" then pos <= |src| else pos < |src| && src[pos] == p[0] && Holds(src, pos + 1, p[1..])
  }

  lemma {:induction false} HoldsBoth(src: string, pos: nat, p: string, q: string)
    requires Holds(src, pos, p + q)
    ensures Holds(src, pos, p) && pos + |p| <= |src| && Holds(src, pos + |p|, q)
    decreases |p|
  {
    if p == "" {
      assert p + q == q;
      HoldsWithin(src, pos, q);
    } else {
      assert (p + q)[1..] == p[1..] + q;
      HoldsBoth(src, pos + 1, p[1..], q);
    }
  }

  lemma {:induction false} HoldsWithin(src: string, pos: nat, p: string)
    requires Holds(src, pos, p)
    ensures pos + |p| <= |src|
    decreases |p|
  {
    if p != "" { HoldsWithin(src, pos + 1, p[1..]); }
  }

  lemma {:induction false} HoldsSelf(before: string, p: string)
    ensures Holds(before + p, |before|, p)
    decreases |p|
  {
    if p != "" {
      HoldsSelf(before + [p[0]], p[1..]);
      assert before + [p[0]] + p[1..] == before + p;
    }
  }

  lemma HoldsHead(src: string, pos: nat, p: string)
    requires Holds(src, pos, p) && |p| > 0
    ensures pos < |src| && src[pos] == p[0] && Holds(src, pos + 1, p[1..])
  {
  }

  lemma {:induction false} ReadDecimal(src: string, pos: nat, n: nat)
    requires n <= MAX_INDEX && Holds(src, pos, Decimal(n))
    ensures pos + |Decimal(n)| <= |src| && Digits(src, pos, 0) == Digits(src, pos + |Decimal(n)|, n)
    decreases n
  {
    var d := [('0' as int + n % 10) as char];
    var front := if n < 10 then "" else Decimal(n / 10);
    HoldsBoth(src, pos, front, d);
    if n >= 10 { ReadDecimal(src, pos, n / 10); }
    HoldsHead(src, pos + |front|, d);
  }

  lemma {:induction false} ReadEscaped(src: string, pos: nat, inBrace: bool, nodes: seq<Node>, lit: string, s: string)
    requires Holds(src, pos, Escape(s))
    ensures pos + |Escape(s)| <= |src|
    ensures Run(src, pos, inBrace, nodes, lit) == Run(src, pos + |Escape(s)|, inBrace, nodes, lit + s)
    decreases |s|
  {
    if s == "" {
      assert lit + s == lit;
    } else {
      var head := if Escapable(s[0]) then ['\\', s[0]] else [s[0]];
      HoldsBoth(src, pos, head, Escape(s[1..]));
      HoldsHead(src, pos, head);
      if |head| == 2 { HoldsHead(src, pos + 1, head[1..]); }
      ReadEscaped(src, pos + |head|, inBrace, nodes, lit + [s[0]], s[1..]);
      assert lit + [s[0]] + s[1..] == lit + s;
    }
  }

  lemma {:induction false} ReadEscapedChoice(src: string, pos: nat, choices: seq<string>, cur: string, s: string)
    requires Holds(src, pos, EscapeChoice(s))
    ensures pos + |EscapeChoice(s)| <= |src|
    ensures Choices(src, pos, choices, cur) == Choices(src, pos + |EscapeChoice(s)|, choices, cur + s)
    decreases |s|
  {
    if s == "" {
      assert cur + s == cur;
    } else {
      var head := if EscapableInChoice(s[0]) then ['\\', s[0]] else [s[0]];
      HoldsBoth(src, pos, head, EscapeChoice(s[1..]));
      HoldsHead(src, pos, head);
      if |head| == 2 { HoldsHead(src, pos + 1, head[1..]); }
      ReadEscapedChoice(src, pos + |head|, choices, cur + [s[0]], s[1..]);
      assert cur + [s[0]] + s[1..] == cur + s;
    }
  }

  lemma ReadLastChoice(src: string, pos: nat, done: seq<string>, c: string)
    requires Holds(src, pos, EscapeChoice(c) + "|}")
    ensures Choices(src, pos, done, "") == Yes(done + [c], pos + |EscapeChoice(c)| + 2)
  {
    HoldsBoth(src, pos, EscapeChoice(c), "|}");
    ReadEscapedChoice(src, pos, done, "", c);
    assert "" + c == c;
    HoldsHead(src, pos + |EscapeChoice(c)|, "|}");
    HoldsHead(src, pos + |EscapeChoice(c)| + 1, "}");
  }

  lemma ReadFirstChoice(src: string, pos: nat, done: seq<string>, c: string, more: string)
    requires Holds(src, pos, EscapeChoice(c) + ("," + more))
    ensures pos + |EscapeChoice(c)| + 1 <= |src| && Holds(src, pos + |EscapeChoice(c)| + 1, more)
    ensures Choices(src, pos, done, "") == Choices(src, pos + |EscapeChoice(c)| + 1, done + [c], "")
  {
    HoldsBoth(src, pos, EscapeChoice(c), "," + more);
    ReadEscapedChoice(src, pos, done, "", c);
    assert "" + c == c;
    HoldsHead(src, pos + |EscapeChoice(c)|, "," + more);
    assert ("," + more)[1..] == more;
  }

  lemma {:induction false} ReadChoices(src: string, pos: nat, done: seq<string>, choices: seq<string>)
    requires choices != [] && Holds(src, pos, PrintChoices(choices))
    ensures Choices(src, pos, done, "") == Yes(done + choices, pos + |PrintChoices(choices)|)
    decreases |choices|
  {
    var c := choices[0];
    if |choices| == 1 {
      assert choices == [c];
      ReadLastChoice(src, pos, done, c);
    } else {
      ReadFirstChoice(src, pos, done, c, PrintChoices(choices[1..]));
      ReadChoices(src, pos + |EscapeChoice(c)| + 1, done + [c], choices[1..]);
      assert done + [c] + choices[1..] == done + choices;
    }
  }

  /** Wherever the source holds the printed body and a brace, the body is what is read. */
  ghost predicate BodyReadsBack(src: string, body: seq<Node>) {
    forall p: nat | Holds(src, p, Print(body) + "}") :: Run(src, p, true, [], "") == Yes(body, p + |Print(body)|)
  }

  lemma ReadHead(src: string, pos: nat, index: nat, tail: string)
    requires index <= MAX_INDEX && tail != "" && !IsDigit(tail[0])
    requires Holds(src, pos, "${") && Holds(src, pos + 2, Decimal(index) + tail)
    ensures pos + 2 < |src| && src[pos] == '$' && src[pos + 1] == '{' && IsDigit(src[pos + 2])
    ensures Digits(src, pos + 2, 0) == (index, pos + 2 + |Decimal(index)|)
    ensures Holds(src, pos + 2 + |Decimal(index)|, tail)
  {
    HoldsHead(src, pos, "${");
    HoldsHead(src, pos + 1, "{");
    HoldsBoth(src, pos + 2, Decimal(index), tail);
    HoldsHead(src, pos + 2, Decimal(index));
    ReadDecimal(src, pos + 2, index);
    HoldsHead(src, pos + 2 + |Decimal(index)|, tail);
  }

  lemma ReadChoiceTail(src: string, at: nat, next: nat, n: Node)
    requires at < next <= |src| && IsDigit(src[at]) && n.Stop? && n.body == [] && n.choices != []
    requires Digits(src, at, 0) == (n.index, next) && Holds(src, next, "|" + PrintChoices(n.choices))
    ensures Braced(src, at) == Yes(n, next + 1 + |PrintChoices(n.choices)|)
  {
    HoldsBoth(src, next, "|", PrintChoices(n.choices));
    HoldsHead(src, next, "|");
    ReadChoices(src, next + 1, [], n.choices);
    assert [] + n.choices == n.choices;
  }

  lemma ReadBodyTail(src: string, at: nat, next: nat, n: Node)
    requires at < next <= |src| && IsDigit(src[at]) && n.Stop? && n.body != [] && n.choices == []
    requires Digits(src, at, 0) == (n.index, next) && Holds(src, next, ":" + (Print(n.body) + "}"))
    requires BodyReadsBack(src, n.body)
    ensures Braced(src, at) == Yes(n, next + 2 + |Print(n.body)|)
  {
    var p := Print(n.body);
    HoldsBoth(src, next, ":", p + "}");
    HoldsHead(src, next, ":");
    HoldsBoth(src, next + 1, p, "}");
    HoldsHead(src, next + 1 + |p|, "}");
  }

  lemma ReadTail(src: string, at: nat, next: nat, n: Node)
    requires at < next <= |src| && IsDigit(src[at]) && n.Stop? && (n.body == [] || n.choices == [])
    requires Digits(src, at, 0) == (n.index, next) && Holds(src, next, Tail(n))
    requires n.body != [] ==> BodyReadsBack(src, n.body)
    ensures Braced(src, at) == Yes(n, next + |Tail(n)|)
  {
    if n.choices != [] {
      ReadChoiceTail(src, at, next, n);
    } else if n.body != [] {
      ReadBodyTail(src, at, next, n);
    } else {
      HoldsHead(src, next, "}");
    }
  }

  /** Reads the printed stop at `pos`, given that a printed body is read back wherever it is. */
  lemma ReadStop(src: string, pos: nat, n: Node)
    requires n.Stop? && NormalNode(n) && Holds(src, pos, PrintNode(n))
    requires n.body != [] ==> BodyReadsBack(src, n.body)
    ensures pos < |src| && src[pos] == '$' && Dollar(src, pos) == Yes(n, pos + |PrintNode(n)|)
  {
    var (num, tail) := (Decimal(n.index), Tail(n));
    HoldsBoth(src, pos, "${", num + tail);
    ReadHead(src, pos, n.index, tail);
    ReadTail(src, pos + 2, pos + 2 + |num|, n);
  }

  // ----- the round trip -----------------------------------------------------------------------------

  /** The printed nodes are at `pos`, and the run ends after them. */
  ghost predicate Printed(src: string, pos: nat, inBrace: bool, lit: string, nodes: seq<Node>) {
    var end := pos + |Print(nodes)|;
    Normal(nodes) && Holds(src, pos, Print(nodes)) && (lit != "" && nodes != [] ==> nodes[0].Stop?)
    && end <= |src| && (if inBrace then end < |src| && src[end] == '}' else end == |src|)
  }

  /** A run that holds the printed nodes, then its end, yields the nodes. */
  lemma {:induction false} ReadNodes(src: string, pos: nat, inBrace: bool, done: seq<Node>, lit: string,
      nodes: seq<Node>)
    requires Printed(src, pos, inBrace, lit, nodes)
    ensures Run(src, pos, inBrace, done, lit) == Yes(done + Flush(lit) + nodes, pos + |Print(nodes)|)
    decreases nodes, 1
  {
    if nodes == [] {
      RunEnds(src, pos, inBrace, done, lit);
    } else if nodes[0].Text? {
      ReadTextFirst(src, pos, inBrace, done, nodes);
    } else {
      ReadStopFirst(src, pos, inBrace, done, lit, nodes);
    }
  }

  lemma {:induction false} ReadTextFirst(src: string, pos: nat, inBrace: bool, done: seq<Node>, nodes: seq<Node>)
    requires Printed(src, pos, inBrace, "", nodes) && nodes != [] && nodes[0].Text?
    ensures Run(src, pos, inBrace, done, "") == Yes(done + Flush("") + nodes, pos + |Print(nodes)|)
    decreases nodes, 0
  {
    var s := nodes[0].text;
    FirstAndRest(nodes);
    HoldsBoth(src, pos, Escape(s), Print(nodes[1..]));
    ReadEscaped(src, pos, inBrace, done, "", s);
    FlushText(done, s, nodes);
    ReadNodes(src, pos + |Escape(s)|, inBrace, done, s, nodes[1..]);
  }

  lemma {:induction false} ReadStopFirst(src: string, pos: nat, inBrace: bool, done: seq<Node>, lit: string,
      nodes: seq<Node>)
    requires Printed(src, pos, inBrace, lit, nodes) && nodes != [] && nodes[0].Stop?
    ensures Run(src, pos, inBrace, done, lit) == Yes(done + Flush(lit) + nodes, pos + |Print(nodes)|)
    decreases nodes, 0
  {
    var n := nodes[0];
    FirstAndRest(nodes);
    HoldsBoth(src, pos, PrintNode(n), Print(nodes[1..]));
    if n.body != [] { BodiesReadBack(src, n.body); }
    ReadStop(src, pos, n);
    RunAtStop(src, pos, inBrace, done, lit);
    ReadNodes(src, pos + |PrintNode(n)|, inBrace, done + Flush(lit) + [n], "", nodes[1..]);
    FlushStop(done + Flush(lit), nodes);
  }

  lemma FirstAndRest(nodes: seq<Node>)
    requires Normal(nodes) && nodes != []
    ensures Print(nodes) == PrintNode(nodes[0]) + Print(nodes[1..])
    ensures NormalNode(nodes[0]) && Normal(nodes[1..])
    ensures nodes[0].Text? ==> nodes[0].text != "" && PrintNode(nodes[0]) == Escape(nodes[0].text)
    ensures nodes[0].Text? && nodes[1..] != [] ==> nodes[1..][0].Stop?
    ensures nodes[0].Stop? ==> Normal(nodes[0].body)
  {
  }

  lemma RunEnds(src: string, pos: nat, inBrace: bool, done: seq<Node>, lit: string)
    requires pos <= |src| && if inBrace then pos < |src| && src[pos] == '}' else pos == |src|
    ensures Run(src, pos, inBrace, done, lit) == Yes(done + Flush(lit) + [], pos)
  {
    assert done + Flush(lit) + [] == done + Flush(lit);
  }

  lemma RunAtStop(src: string, pos: nat, inBrace: bool, done: seq<Node>, lit: string)
    requires pos < |src| && src[pos] == '$' && Dollar(src, pos).Yes?
    ensures Run(src, pos, inBrace, done, lit)
         == Run(src, Dollar(src, pos).pos, inBrace, done + Flush(lit) + [Dollar(src, pos).value], "")
  {
  }

  lemma FlushText(done: seq<Node>, s: string, nodes: seq<Node>)
    requires nodes != [] && nodes[0] == Text(s) && s != ""
    ensures done + Flush(s) + nodes[1..] == done + Flush("") + nodes && "" + s == s
  {
  }

  lemma FlushStop(done: seq<Node>, nodes: seq<Node>)
    requires nodes != []
    ensures done + [nodes[0]] + Flush("") + nodes[1..] == done + nodes
  {
  }

  lemma {:induction false} BodiesReadBack(src: string, body: seq<Node>)
    requires Normal(body)
    ensures BodyReadsBack(src, body)
    decreases body, 2
  {
    forall p: nat | Holds(src, p, Print(body) + "}")
      ensures Run(src, p, true, [], "") == Yes(body, p + |Print(body)|)
    {
      HoldsBoth(src, p, Print(body), "}");
      HoldsHead(src, p + |Print(body)|, "}");
      ReadNodes(src, p, true, [], "", body);
      assert [] + Flush("") + body == body;
    }
  }

  /** Parsing inverts printing on every normal form. */
  lemma PrintThenParse(nodes: seq<Node>)
    requires Normal(nodes)
    ensures Parse(Print(nodes)) == Ok(nodes)
  {
    HoldsSelf("", Print(nodes));
    assert "" + Print(nodes) == Print(nodes);
    ReadNodes(Print(nodes), 0, false, [], "", nodes);
    assert [] + Flush("") + nodes == nodes;
  }

  lemma {:induction false} NormalAppends(nodes: seq<Node>, n: Node)
    requires Normal(nodes) && NormalNode(n) && (n.Stop? || nodes == [] || nodes[|nodes| - 1].Stop?)
    ensures Normal(nodes + [n])
    decreases |nodes|
  {
    if nodes != [] {
      NormalAppends(nodes[1..], n);
      assert (nodes + [n])[1..] == nodes[1..] + [n];
    }
  }

  ghost predicate EndsInStop(nodes: seq<Node>) { nodes == [] || nodes[|nodes| - 1].Stop? }

  /** What the parser yields is always a normal form. */
  lemma {:induction false} RunIsNormal(src: string, pos: nat, inBrace: bool, nodes: seq<Node>, lit: string)
    requires pos <= |src| && Normal(nodes) && EndsInStop(nodes)
    ensures var r := Run(src, pos, inBrace, nodes, lit); r.Yes? ==> Normal(r.value)
    decreases |src| - pos, 1
  {
    FlushIsNormal(nodes, lit);
    if pos == |src| || (inBrace && src[pos] == '}') {
    } else if src[pos] == '\\' && pos + 1 < |src| {
      if Escapable(src[pos + 1]) { RunIsNormal(src, pos + 2, inBrace, nodes, lit + [src[pos + 1]]); }
      else { RunIsNormal(src, pos + 1, inBrace, nodes, lit + ['\\']); }
    } else if src[pos] == '$' {
      DollarIsNormal(src, pos);
      var step := Dollar(src, pos);
      if step.Yes? {
        NormalAppends(nodes + Flush(lit), step.value);
        RunIsNormal(src, step.pos, inBrace, nodes + Flush(lit) + [step.value], "");
      }
    } else {
      RunIsNormal(src, pos + 1, inBrace, nodes, lit + [src[pos]]);
    }
  }

  lemma FlushIsNormal(nodes: seq<Node>, lit: string)
    requires Normal(nodes) && EndsInStop(nodes)
    ensures Normal(nodes + Flush(lit))
  {
    FlushEmpty(nodes);
    if lit != "" { NormalAppends(nodes, Text(lit)); }
  }

  lemma {:induction false} DollarIsNormal(src: string, pos: nat)
    requires pos < |src|
    ensures var r := Dollar(src, pos); r.Yes? ==> r.value.Stop? && NormalNode(r.value)
    decreases |src| - pos, 0
  {
    if pos + 1 < |src| && src[pos + 1] == '{' && pos + 2 < |src| && IsDigit(src[pos + 2]) {
      var next := Digits(src, pos + 2, 0).1;
      if next < |src| && src[next] == ':' { RunIsNormal(src, next + 1, true, [], ""); }
    }
  }

  /** So printing what was parsed and parsing it again changes nothing. */
  lemma ParseThenPrint(src: string)
    requires Parse(src).Ok?
    ensures Normal(Parse(src).value) && Parse(Print(Parse(src).value)) == Parse(src)
  {
    RunIsNormal(src, 0, false, [], "");
    PrintThenParse(Parse(src).value);
  }

  /** At the top level a run ends only at the end, so an unescaped brace there is text and never an error. */
  lemma {:induction false} TopLevelRunsToTheEnd(src: string, pos: nat, nodes: seq<Node>, lit: string)
    requires pos <= |src|
    ensures var r := Run(src, pos, false, nodes, lit); r.Yes? ==> r.pos == |src|
    decreases |src| - pos
  {
    if pos == |src| {
    } else if src[pos] == '\\' && pos + 1 < |src| {
      if Escapable(src[pos + 1]) { TopLevelRunsToTheEnd(src, pos + 2, nodes, lit + [src[pos + 1]]); }
      else { TopLevelRunsToTheEnd(src, pos + 1, nodes, lit + ['\\']); }
    } else if src[pos] == '$' {
      var step := Dollar(src, pos);
      if step.Yes? { TopLevelRunsToTheEnd(src, step.pos, nodes + Flush(lit) + [step.value], ""); }
    } else {
      TopLevelRunsToTheEnd(src, pos + 1, nodes, lit + [src[pos]]);
    }
  }

  /** The error for an unmatched brace arises nowhere inside the grammar. */
  lemma {:induction false} RunNeverUnexpectedClose(src: string, pos: nat, inBrace: bool, nodes: seq<Node>, lit: string)
    requires pos <= |src|
    ensures Run(src, pos, inBrace, nodes, lit) != No(UnexpectedClose)
    decreases |src| - pos, 1
  {
    if pos == |src| || (inBrace && src[pos] == '}') {
    } else if src[pos] == '\\' && pos + 1 < |src| {
      if Escapable(src[pos + 1]) { RunNeverUnexpectedClose(src, pos + 2, inBrace, nodes, lit + [src[pos + 1]]); }
      else { RunNeverUnexpectedClose(src, pos + 1, inBrace, nodes, lit + ['\\']); }
    } else if src[pos] == '$' {
      DollarNeverUnexpectedClose(src, pos);
      var step := Dollar(src, pos);
      if step.Yes? { RunNeverUnexpectedClose(src, step.pos, inBrace, nodes + Flush(lit) + [step.value], ""); }
    } else {
      RunNeverUnexpectedClose(src, pos + 1, inBrace, nodes, lit + [src[pos]]);
    }
  }

  lemma {:induction false} DollarNeverUnexpectedClose(src: string, pos: nat)
    requires pos < |src|
    ensures Dollar(src, pos) != No(UnexpectedClose)
    decreases |src| - pos, 0
  {
    if pos + 1 < |src| && src[pos + 1] == '{' && pos + 2 < |src| && IsDigit(src[pos + 2]) {
      var next := Digits(src, pos + 2, 0).1;
      if next < |src| && src[next] == ':' { RunNeverUnexpectedClose(src, next + 1, true, [], ""); }
      if next < |src| && src[next] == '|' { ChoicesNeverUnexpectedClose(src, next + 1, [], ""); }
    }
  }

  lemma {:induction false} ChoicesNeverUnexpectedClose(src: string, pos: nat, choices: seq<string>, cur: string)
    requires pos <= |src|
    ensures Choices(src, pos, choices, cur) != No(UnexpectedClose)
    decreases |src| - pos
  {
    if pos < |src| && src[pos] == '\\' && pos + 1 < |src| {
      if EscapableInChoice(src[pos + 1]) { ChoicesNeverUnexpectedClose(src, pos + 2, choices, cur + [src[pos + 1]]); }
      else { ChoicesNeverUnexpectedClose(src, pos + 1, choices, cur + ['\\']); }
    } else if pos < |src| && src[pos] == ',' {
      ChoicesNeverUnexpectedClose(src, pos + 1, choices + [cur], "");
    } else if pos < |src| && src[pos] != '|' {
      ChoicesNeverUnexpectedClose(src, pos + 1, choices, cur + [src[pos]]);
    }
  }

  /** No body at all is refused for an unmatched closing brace. */
  lemma ParseNeverUnexpectedClose(src: string)
    ensures Parse(src) != Err(UnexpectedClose)
  {
    RunNeverUnexpectedClose(src, 0, false, [], "");
    TopLevelRunsToTheEnd(src, 0, [], "");
  }
}
