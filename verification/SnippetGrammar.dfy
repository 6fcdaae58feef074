/**
 * The language of snippet bodies, told by which text spells which nodes, and the proof that
 * the parser accepts exactly that language and yields just the nodes spelled.
 */
module SnippetGrammar {
  import opened Wrappers
  import opened Decimals
  import opened Snippet

  /** A run of nodes taken apart: its characters and its stops. */
  datatype Token = Ch(c: char) | St(node: Node)

  function Chars(s: string): seq<Token> { seq(|s|, i requires 0 <= i < |s| => Ch(s[i])) }

  function TokensOf(n: Node): seq<Token> { if n.Text? then Chars(n.text) else [St(n)] }

  function Tokens(nodes: seq<Node>): seq<Token> {
    if nodes == [] then [] else TokensOf(nodes[0]) + Tokens(nodes[1..])
  }

  // ----- what spells what ---------------------------------------------------------------------

  /** The digits from `i` to `j`, and no more, spell the number, or any larger one the largest. */
  ghost predicate SpellsNumber(src: string, i: nat, n: nat, j: nat) {
    i < j <= |src| && AllDigits(src[i..j]) && (j < |src| ==> !IsDigit(src[j])) && n == Min(MAX_INDEX, Value(src[i..j]))
  }

  /** A character spells itself, but a backslash spells what it escapes if that is to be escaped. */
  ghost predicate SpellsChar(src: string, i: nat, c: char, j: nat, special: set<char>, closing: set<char>) {
    if i + 1 < |src| && src[i] == '\\' && src[i + 1] in special then c == src[i + 1] && j == i + 2
    else i < |src| && c == src[i] && c !in closing && j == i + 1
  }

  /** What a backslash escapes in text, and in alternatives. */
  const IN_TEXT: set<char> := {'$', '}', '\\'}
  const IN_CHOICE: set<char> := {',', '|', '\\'}

  /** The text from `pos` to `end` spells the tokens, up to the end of all or of the braces around it. */
  ghost predicate Spells(src: string, pos: nat, inBrace: bool, ts: seq<Token>, end: nat)
    requires pos <= |src|
    decreases |src| - pos, 1
  {
    if ts == [] then pos == end && (pos == |src| || (inBrace && src[pos] == '}'))
    else if ts[0].Ch? then
      exists mid: nat | pos < mid <= |src| ::
        SpellsChar(src, pos, ts[0].c, mid, IN_TEXT, if inBrace then {'$', '}'} else {'$'})
        && Spells(src, mid, inBrace, ts[1..], end)
    else
      exists mid: nat | pos < mid <= |src| ::
        SpellsStop(src, pos, ts[0].node, mid) && Spells(src, mid, inBrace, ts[1..], end)
  }

  /** `$1`, `${1}`, `${1:body}` or `${1|a,b|}`. */
  ghost predicate SpellsStop(src: string, pos: nat, n: Node, end: nat)
    decreases |src| - pos, 0
  {
    pos < |src| && src[pos] == '$' && n.Stop?
    && (if pos + 1 < |src| && src[pos + 1] == '{'
        then exists mid: nat | pos + 2 <= mid < |src| ::
               SpellsNumber(src, pos + 2, n.index, mid) && SpellsTail(src, mid, n, end)
        else n.body == [] && n.choices == [] && SpellsNumber(src, pos + 1, n.index, end))
  }

  /** What follows a number in braces. */
  ghost predicate SpellsTail(src: string, mid: nat, n: Node, end: nat)
    requires mid < |src| && n.Stop?
    decreases |src| - mid, 0
  {
    match src[mid]
    case '}' => n.body == [] && n.choices == [] && end == mid + 1
    case ':' =>
      n.choices == [] && Normal(n.body)
      && exists close: nat | mid < close < |src| ::
           Spells(src, mid + 1, true, Tokens(n.body), close) && src[close] == '}' && end == close + 1
    case '|' => n.body == [] && n.choices != [] && SpellsChoices(src, mid + 1, n.choices, end)
    case _ => false
  }

  /** Alternatives between commas, up to a bar and a brace. */
  ghost predicate SpellsChoices(src: string, pos: nat, choices: seq<string>, end: nat)
    requires pos <= |src| && choices != []
    decreases |choices|
  {
    exists mid: nat | pos <= mid < |src| ::
      SpellsChoice(src, pos, choices[0], mid)
      && if |choices| == 1 then src[mid] == '|' && mid + 1 < |src| && src[mid + 1] == '}' && end == mid + 2
         else src[mid] == ',' && SpellsChoices(src, mid + 1, choices[1..], end)
  }

  ghost predicate SpellsChoice(src: string, pos: nat, s: string, end: nat)
    requires pos <= |src|
    decreases |s|
  {
    if s == "" then pos == end else
      exists mid: nat | pos < mid <= |src| ::
        SpellsChar(src, pos, s[0], mid, IN_CHOICE, {',', '|'}) && SpellsChoice(src, mid, s[1..], end)
  }

  // ----- tokens and nodes ---------------------------------------------------------------------

  /** The nodes the tokens make, after those done and the text pending. */
  function Gather(done: seq<Node>, lit: string, ts: seq<Token>): seq<Node>
    decreases |ts|
  {
    if ts == [] then done + Flush(lit)
    else if ts[0].Ch? then Gather(done, lit + [ts[0].c], ts[1..])
    else Gather(done + Flush(lit) + [ts[0].node], "", ts[1..])
  }

  lemma {:induction false} TokensJoin(a: seq<Node>, b: seq<Node>)
    ensures Tokens(a + b) == Tokens(a) + Tokens(b)
    decreases |a|
  {
    if a == [] {
      assert a + b == b;
    } else {
      assert (a + b)[1..] == a[1..] + b;
      TokensJoin(a[1..], b);
    }
  }

  lemma TokensFlush(lit: string)
    ensures Tokens(Flush(lit)) == Chars(lit)
  {
    if lit != "" { assert [Text(lit)][1..] == []; }
  }

  ghost predicate Stopped(ts: seq<Token>) { forall i | 0 <= i < |ts| && ts[i].St? :: ts[i].node.Stop? }

  /** Gathering loses and moves nothing. */
  lemma {:induction false} GatherKeeps(done: seq<Node>, lit: string, ts: seq<Token>)
    requires Stopped(ts)
    ensures Tokens(Gather(done, lit, ts)) == Tokens(done) + Chars(lit) + ts
    decreases |ts|
  {
    TokensFlush(lit);
    TokensJoin(done, Flush(lit));
    if ts == [] {
      assert Tokens(done) + Chars(lit) + ts == Tokens(done) + Chars(lit);
    } else if ts[0].Ch? {
      GatherKeeps(done, lit + [ts[0].c], ts[1..]);
      assert Chars(lit + [ts[0].c]) == Chars(lit) + [ts[0]];
      FirstToken(Tokens(done) + Chars(lit), ts);
      assert Tokens(done) + (Chars(lit) + [ts[0]]) == Tokens(done) + Chars(lit) + [ts[0]];
    } else {
      GatherKeeps(done + Flush(lit) + [ts[0].node], "", ts[1..]);
      OneMoreStop(done + Flush(lit), ts[0].node);
      FirstToken(Tokens(done) + Chars(lit), ts);
      assert Tokens(done) + Chars(lit) + [ts[0]] + Chars("") == Tokens(done) + Chars(lit) + [ts[0]];
    }
  }

  lemma FirstToken(before: seq<Token>, ts: seq<Token>)
    requires ts != []
    ensures before + [ts[0]] + ts[1..] == before + ts
  {
  }

  lemma OneMoreStop(nodes: seq<Node>, n: Node)
    requires n.Stop?
    ensures Tokens(nodes + [n]) == Tokens(nodes) + [St(n)]
  {
    TokensJoin(nodes, [n]);
    assert [n][1..] == [] && Tokens([n]) == [St(n)] + [];
  }

  lemma {:induction false} GatherText(done: seq<Node>, lit: string, s: string, ts: seq<Token>)
    ensures Gather(done, lit, Chars(s) + ts) == Gather(done, lit + s, ts)
    decreases |s|
  {
    if s == "" {
      assert Chars(s) + ts == ts && lit + s == lit;
    } else {
      var all := Chars(s) + ts;
      assert all[0] == Ch(s[0]) && all[1..] == Chars(s[1..]) + ts;
      GatherText(done, lit + [s[0]], s[1..], ts);
      assert lit + [s[0]] + s[1..] == lit + s;
    }
  }

  /** Normal nodes are gathered again from their tokens. */
  lemma {:induction false} GatherTokens(done: seq<Node>, lit: string, nodes: seq<Node>)
    requires Normal(nodes) && (lit != "" && nodes != [] ==> nodes[0].Stop?)
    ensures Gather(done, lit, Tokens(nodes)) == done + Flush(lit) + nodes
    decreases |nodes|
  {
    if nodes == [] {
      assert done + Flush(lit) + nodes == done + Flush(lit);
    } else {
      var (n, rest) := (nodes[0], nodes[1..]);
      FirstAndRest(nodes);
      assert nodes == [n] + rest;
      if n.Text? {
        GatherText(done, lit, n.text, Tokens(rest));
        assert lit + n.text == n.text;
        GatherTokens(done, n.text, rest);
        assert done + Flush(n.text) + rest == done + Flush(lit) + nodes;
      } else {
        var ts := Tokens(nodes);
        assert ts[0] == St(n) && ts[1..] == Tokens(rest);
        GatherTokens(done + Flush(lit) + [n], "", rest);
        assert done + Flush(lit) + [n] + Flush("") + rest == done + Flush(lit) + nodes;
      }
    }
  }

  // ----- numbers ------------------------------------------------------------------------------

  lemma {:induction false} DigitsFrom(src: string, start: nat, pos: nat)
    requires start <= pos <= |src| && AllDigits(src[start..pos])
    ensures var r := Digits(src, pos, Min(MAX_INDEX, Value(src[start..pos])));
      AllDigits(src[start..r.1]) && (r.1 < |src| ==> !IsDigit(src[r.1]))
      && r.0 == Min(MAX_INDEX, Value(src[start..r.1]))
    decreases |src| - pos
  {
    if pos < |src| && IsDigit(src[pos]) {
      assert src[start..pos + 1][..pos - start] == src[start..pos];
      assert src[start..pos + 1][pos - start] == src[pos];
      DigitsFrom(src, start, pos + 1);
    }
  }

  /** The digits read are those that spell the number, and no others do. */
  lemma NumberReads(src: string, pos: nat, n: nat, j: nat)
    requires pos < |src|
    ensures IsDigit(src[pos]) ==> SpellsNumber(src, pos, Digits(src, pos, 0).0, Digits(src, pos, 0).1)
    ensures SpellsNumber(src, pos, n, j) ==> IsDigit(src[pos]) && Digits(src, pos, 0) == (n, j)
  {
    NumberSpelled(src, pos);
    if SpellsNumber(src, pos, n, j) {
      FirstDigit(src, pos, n, j);
      NumberUnique(src, pos, n, j, Digits(src, pos, 0).0, Digits(src, pos, 0).1);
    }
  }

  lemma NumberSpelled(src: string, pos: nat)
    requires pos < |src|
    ensures IsDigit(src[pos]) ==> SpellsNumber(src, pos, Digits(src, pos, 0).0, Digits(src, pos, 0).1)
  {
    assert src[pos..pos] == "";
    DigitsFrom(src, pos, pos);
  }

  lemma FirstDigit(src: string, pos: nat, n: nat, j: nat)
    requires SpellsNumber(src, pos, n, j)
    ensures IsDigit(src[pos])
  {
    assert src[pos] == src[pos..j][0];
  }

  lemma NumberUnique(src: string, pos: nat, n: nat, j: nat, m: nat, k: nat)
    requires SpellsNumber(src, pos, n, j) && SpellsNumber(src, pos, m, k)
    ensures j == k && n == m
  {
    DigitInRun(src, pos, n, j, k);
    DigitInRun(src, pos, m, k, j);
  }

  lemma DigitInRun(src: string, pos: nat, n: nat, j: nat, k: nat)
    requires SpellsNumber(src, pos, n, j)
    ensures pos <= k < j ==> IsDigit(src[k])
  {
    if pos <= k < j { assert src[k] == src[pos..j][k - pos]; }
  }

  // ----- alternatives -------------------------------------------------------------------------

  lemma {:induction false} ChoiceReads(src: string, pos: nat, done: seq<string>, cur: string, s: string, mid: nat)
    requires pos <= |src| && SpellsChoice(src, pos, s, mid)
    ensures pos <= mid <= |src| && Choices(src, pos, done, cur) == Choices(src, mid, done, cur + s)
    decreases |s|
  {
    if s == "" {
      assert cur + s == cur;
    } else {
      var next: nat :| pos < next <= |src| && SpellsChar(src, pos, s[0], next, IN_CHOICE, {',', '|'})
        && SpellsChoice(src, next, s[1..], mid);
      ChoiceReads(src, next, done, cur + [s[0]], s[1..], mid);
      assert cur + [s[0]] + s[1..] == cur + s;
    }
  }

  /** With the alternative pending in front of the first. */
  function Pending(cur: string, cs: seq<string>): seq<string>
    requires cs != []
  {
    [cur + cs[0]] + cs[1..]
  }

  lemma {:induction false} ChoicesRead(src: string, pos: nat, done: seq<string>, cur: string, cs: seq<string>, end: nat)
    requires pos <= |src| && cs != [] && SpellsChoices(src, pos, cs, end)
    ensures Choices(src, pos, done, cur) == Yes(done + Pending(cur, cs), end)
    decreases |cs|
  {
    var mid: nat :| pos <= mid < |src| && SpellsChoice(src, pos, cs[0], mid)
      && if |cs| == 1 then src[mid] == '|' && mid + 1 < |src| && src[mid + 1] == '}' && end == mid + 2
         else src[mid] == ',' && SpellsChoices(src, mid + 1, cs[1..], end);
    ChoiceReads(src, pos, done, cur, cs[0], mid);
    if |cs| == 1 {
      assert Pending(cur, cs) == [cur + cs[0]];
    } else {
      ChoicesRead(src, mid + 1, done + [cur + cs[0]], "", cs[1..], end);
      assert done + [cur + cs[0]] + Pending("", cs[1..]) == done + Pending(cur, cs) by {
        assert "" + cs[1..][0] == cs[1];
      }
    }
  }

  /** One more character in front of the first alternative. */
  lemma ChoiceGrows(src: string, pos: nat, c: char, next: nat, cs: seq<string>, end: nat)
    requires pos < next <= |src| && cs != [] && SpellsChoices(src, next, cs, end)
    requires SpellsChar(src, pos, c, next, IN_CHOICE, {',', '|'})
    ensures SpellsChoices(src, pos, [[c] + cs[0]] + cs[1..], end)
  {
    var all := [[c] + cs[0]] + cs[1..];
    var mid: nat :| next <= mid < |src| && SpellsChoice(src, next, cs[0], mid)
      && if |cs| == 1 then src[mid] == '|' && mid + 1 < |src| && src[mid + 1] == '}' && end == mid + 2
         else src[mid] == ',' && SpellsChoices(src, mid + 1, cs[1..], end);
    assert all[0][0] == c && all[0][1..] == cs[0] && all[1..] == cs[1..];
    assert SpellsChoice(src, pos, all[0], mid);
  }

  /** What is read as alternatives is spelled. */
  lemma {:induction false} ChoicesSpell(src: string, pos: nat, done: seq<string>, cur: string) returns (cs: seq<string>)
    requires pos <= |src| && Choices(src, pos, done, cur).Yes?
    ensures cs != [] && SpellsChoices(src, pos, cs, Choices(src, pos, done, cur).pos)
    ensures Choices(src, pos, done, cur).value == done + Pending(cur, cs)
    decreases |src| - pos
  {
    var end := Choices(src, pos, done, cur).pos;
    if src[pos] == ',' {
      var more := ChoicesSpell(src, pos + 1, done + [cur], "");
      cs := [""] + more;
      assert cs[1..] == more && "" + more[0] == more[0] && cur + "" == cur;
      assert Pending("", more) == more;
      assert SpellsChoice(src, pos, "", pos);
      assert done + [cur] + more == done + Pending(cur, cs);
    } else if src[pos] == '|' {
      cs := [""];
      assert SpellsChoice(src, pos, "", pos) && cur + "" == cur;
    } else {
      var escaped := src[pos] == '\\' && pos + 1 < |src| && EscapableInChoice(src[pos + 1]);
      var (c, next) := if escaped then (src[pos + 1], pos + 2) else (src[pos], pos + 1);
      var more := ChoicesSpell(src, next, done, cur + [c]);
      cs := [[c] + more[0]] + more[1..];
      ChoiceGrows(src, pos, c, next, more, end);
      assert cur + [c] + more[0] == cur + ([c] + more[0]);
      assert Pending(cur, cs) == Pending(cur + [c], more);
    }
  }

  // ----- runs and stops -----------------------------------------------------------------------

  /** What the text spells is what is read. */
  lemma {:induction false} RunReads(
      src: string, pos: nat, inBrace: bool, done: seq<Node>, lit: string, ts: seq<Token>, end: nat)
    requires pos <= |src| && Spells(src, pos, inBrace, ts, end)
    ensures Run(src, pos, inBrace, done, lit) == Yes(Gather(done, lit, ts), end)
    decreases |src| - pos, 1
  {
    if ts == [] {
    } else if ts[0].Ch? {
      var mid: nat :| pos < mid <= |src| && Spells(src, mid, inBrace, ts[1..], end)
        && SpellsChar(src, pos, ts[0].c, mid, IN_TEXT, if inBrace then {'$', '}'} else {'$'});
      RunReads(src, mid, inBrace, done, lit + [ts[0].c], ts[1..], end);
    } else {
      var mid: nat :| pos < mid <= |src| && SpellsStop(src, pos, ts[0].node, mid)
        && Spells(src, mid, inBrace, ts[1..], end);
      StopReads(src, pos, ts[0].node, mid);
      RunReads(src, mid, inBrace, done + Flush(lit) + [ts[0].node], "", ts[1..], end);
    }
  }

  lemma {:induction false} StopReads(src: string, pos: nat, n: Node, end: nat)
    requires SpellsStop(src, pos, n, end)
    ensures Dollar(src, pos) == Yes(n, end)
    decreases |src| - pos, 0
  {
    if pos + 1 < |src| && src[pos + 1] == '{' {
      var mid: nat :| pos + 2 <= mid < |src|
        && SpellsNumber(src, pos + 2, n.index, mid) && SpellsTail(src, mid, n, end);
      NumberReads(src, pos + 2, n.index, mid);
      TailReads(src, pos, mid, n, end);
    } else {
      NumberReads(src, pos + 1, n.index, end);
    }
  }

  lemma {:induction false} TailReads(src: string, pos: nat, mid: nat, n: Node, end: nat)
    requires n.Stop? && pos + 2 < mid < |src| && IsDigit(src[pos + 2]) && Digits(src, pos + 2, 0) == (n.index, mid)
    requires SpellsTail(src, mid, n, end)
    ensures Braced(src, pos + 2) == Yes(n, end)
    decreases |src| - mid, 1
  {
    if src[mid] == ':' {
      BodyReads(src, mid, n, end);
    } else if src[mid] == '|' {
      ChoicesRead(src, mid + 1, [], "", n.choices, end);
      NothingPending(n.choices);
    }
  }

  lemma {:induction false} BodyReads(src: string, mid: nat, n: Node, end: nat)
    requires n.Stop? && mid < |src| && src[mid] == ':' && SpellsTail(src, mid, n, end)
    ensures var run := Run(src, mid + 1, true, [], "");
      run.Yes? && run.value == n.body && Close(src, run.pos, n) == Yes(n, end)
    decreases |src| - mid, 0
  {
    var close: nat :| mid < close < |src| && Spells(src, mid + 1, true, Tokens(n.body), close)
      && src[close] == '}' && end == close + 1;
    RunReads(src, mid + 1, true, [], "", Tokens(n.body), close);
    GatherTokens([], "", n.body);
    assert [] + Flush("") + n.body == n.body;
  }

  lemma NothingPending(cs: seq<string>)
    requires cs != []
    ensures [] + Pending("", cs) == cs
  {
    assert "" + cs[0] == cs[0];
  }

  /** What is read is spelled, and by these tokens. */
  lemma {:induction false} RunSpells(src: string, pos: nat, inBrace: bool, done: seq<Node>, lit: string)
    returns (ts: seq<Token>)
    requires pos <= |src| && Run(src, pos, inBrace, done, lit).Yes?
    ensures var r := Run(src, pos, inBrace, done, lit);
      Spells(src, pos, inBrace, ts, r.pos) && r.value == Gather(done, lit, ts) && Stopped(ts)
    decreases |src| - pos, 1
  {
    if pos == |src| || (inBrace && src[pos] == '}') {
      ts := [];
    } else if src[pos] == '$' {
      var step := Dollar(src, pos);
      StopSpells(src, pos);
      var more := RunSpells(src, step.pos, inBrace, done + Flush(lit) + [step.value], "");
      ts := [St(step.value)] + more;
      assert ts[1..] == more;
    } else {
      var escaped := src[pos] == '\\' && pos + 1 < |src| && Escapable(src[pos + 1]);
      var (c, next) := if escaped then (src[pos + 1], pos + 2) else (src[pos], pos + 1);
      var more := RunSpells(src, next, inBrace, done, lit + [c]);
      ts := [Ch(c)] + more;
      assert ts[1..] == more;
      assert SpellsChar(src, pos, c, next, IN_TEXT, if inBrace then {'$', '}'} else {'$'});
    }
  }

  lemma {:induction false} StopSpells(src: string, pos: nat)
    requires pos < |src| && src[pos] == '$' && Dollar(src, pos).Yes?
    ensures SpellsStop(src, pos, Dollar(src, pos).value, Dollar(src, pos).pos)
    decreases |src| - pos, 0
  {
    if src[pos + 1] == '{' {
      var mid := Digits(src, pos + 2, 0).1;
      NumberReads(src, pos + 2, 0, 0);
      TailSpells(src, pos, mid);
    } else {
      NumberReads(src, pos + 1, 0, 0);
    }
  }

  lemma {:induction false} TailSpells(src: string, pos: nat, mid: nat)
    requires pos + 2 < |src| && Braced(src, pos + 2).Yes? && mid == Digits(src, pos + 2, 0).1
    ensures pos + 2 < mid < |src| && Braced(src, pos + 2).value.Stop?
    ensures Braced(src, pos + 2).value.index == Digits(src, pos + 2, 0).0
    ensures SpellsTail(src, mid, Braced(src, pos + 2).value, Braced(src, pos + 2).pos)
    decreases |src| - mid, 1
  {
    if src[mid] == ':' {
      BodySpells(src, mid, Digits(src, pos + 2, 0).0);
    } else if src[mid] == '|' {
      ChoiceTailSpells(src, mid, Digits(src, pos + 2, 0).0);
    }
  }

  lemma {:induction false} BodySpells(src: string, mid: nat, index: nat)
    requires mid < |src| && src[mid] == ':' && Run(src, mid + 1, true, [], "").Yes?
    ensures var run := Run(src, mid + 1, true, [], "");
      run.pos < |src| && src[run.pos] == '}' ==> SpellsTail(src, mid, Stop(index, run.value, []), run.pos + 1)
    decreases |src| - mid, 0
  {
    var ts := RunSpells(src, mid + 1, true, [], "");
    GatherKeeps([], "", ts);
    assert [] + Chars("") + ts == ts;
    RunIsNormal(src, mid + 1, true, [], "");
  }

  lemma ChoiceTailSpells(src: string, mid: nat, index: nat)
    requires mid < |src| && src[mid] == '|' && Choices(src, mid + 1, [], "").Yes?
    ensures var cs := Choices(src, mid + 1, [], ""); SpellsTail(src, mid, Stop(index, [], cs.value), cs.pos)
  {
    var cs := ChoicesSpell(src, mid + 1, [], "");
    NothingPending(cs);
  }

  /** The parser accepts a body and yields the nodes exactly when the body spells them. */
  lemma ParsesIffSpelled(src: string, nodes: seq<Node>)
    ensures Parse(src) == Ok(nodes) <==> Normal(nodes) && Spells(src, 0, false, Tokens(nodes), |src|)
  {
    if Parse(src) == Ok(nodes) {
      var ts := RunSpells(src, 0, false, [], "");
      GatherKeeps([], "", ts);
      assert [] + Chars("") + ts == ts;
      RunIsNormal(src, 0, false, [], "");
    }
    if Normal(nodes) && Spells(src, 0, false, Tokens(nodes), |src|) {
      RunReads(src, 0, false, [], "", Tokens(nodes), |src|);
      GatherTokens([], "", nodes);
      assert [] + Flush("") + nodes == nodes;
    }
  }
}
