/**
 * The spellings key notation accepts: modifiers in any order and number, names in any
 * case, the names that are never printed, and what a control byte is taken for.
 */
module KeySpellings {
  import opened Wrappers
  import opened Sealed
  import opened Decimals
  import opened Keys

  // ----- modifiers ------------------------------------------------------------------------

  predicate IsModifier(c: char) { c in {'C', 'c', 'S', 's', 'A', 'a', 'M', 'm', 'D', 'd'} }

  ghost predicate AreModifiers(mods: string) { forall k | 0 <= k < |mods| :: IsModifier(mods[k]) }

  /** Each modifier with a dash after it. */
  function Dashed(mods: string): string {
    if mods == "" then "" else [mods[0], '-'] + Dashed(mods[1..])
  }

  /** Starts with no modifier, and holds no end of a form. */
  ghost predicate IsName(name: string) {
    (|name| >= 2 && name[1] == '-' ==> !IsModifier(name[0])) && forall k | 0 <= k < |name| :: name[k] != '>'
  }

  ghost predicate Has(mods: string, c: char, d: char) { exists k | 0 <= k < |mods| :: mods[k] == c || mods[k] == d }

  lemma HasFirst(mods: string, c: char, d: char)
    requires mods != ""
    ensures Has(mods, c, d) <==> mods[0] == c || mods[0] == d || Has(mods[1..], c, d)
  {
    if Has(mods, c, d) {
      var k :| 0 <= k < |mods| && (mods[k] == c || mods[k] == d);
      assert k > 0 ==> mods[k] == mods[1..][k - 1];
    }
    if Has(mods[1..], c, d) {
      var k :| 0 <= k < |mods[1..]| && (mods[1..][k] == c || mods[1..][k] == d);
      assert mods[1..][k] == mods[k + 1];
    }
  }

  /** The form with one modifier more. */
  ghost function With(f: Form, c: char, rest: string): Form {
    Form(f.ctrl || c == 'C' || c == 'c', f.alt || c == 'A' || c == 'a' || c == 'M' || c == 'm',
         f.shift || c == 'S' || c == 's', f.cmd || c == 'D' || c == 'd', rest)
  }

  lemma PeelsModifier(f: Form, c: char, rest: string)
    requires IsModifier(c) && f.rest == [c, '-'] + rest
    ensures Peel(f) == Some(With(f, c, rest))
  {
    assert f.rest[0] == c && f.rest[1] == '-' && f.rest[2..] == rest;
  }

  /** What modifiers in front of a name leave of the form. */
  ghost predicate Stripped(f: Form, g: Form, mods: string, name: string) {
    g.rest == name && (g.ctrl <==> f.ctrl || Has(mods, 'C', 'c')) && (g.shift <==> f.shift || Has(mods, 'S', 's'))
    && (g.alt <==> f.alt || Has(mods, 'A', 'a') || Has(mods, 'M', 'm')) && (g.cmd <==> f.cmd || Has(mods, 'D', 'd'))
  }

  lemma {:induction false} ModifiersStripped(f: Form, mods: string, name: string)
    requires AreModifiers(mods) && IsName(name) && f.rest == Dashed(mods) + name
    ensures Stripped(f, Strip(f), mods, name)
    decreases |mods|
  {
    if mods == "" {
      assert f.rest == name;
    } else {
      var rest := Dashed(mods[1..]) + name;
      assert f.rest == [mods[0], '-'] + rest;
      PeelsModifier(f, mods[0], rest);
      ModifiersStripped(With(f, mods[0], rest), mods[1..], name);
      StrippedMore(f, Strip(f), mods, name);
    }
  }

  lemma StrippedMore(f: Form, g: Form, mods: string, name: string)
    requires mods != "" && Stripped(With(f, mods[0], Dashed(mods[1..]) + name), g, mods[1..], name)
    ensures Stripped(f, g, mods, name)
  {
    HasFirst(mods, 'C', 'c');
    HasFirst(mods, 'S', 's');
    HasFirst(mods, 'A', 'a');
    HasFirst(mods, 'M', 'm');
    HasFirst(mods, 'D', 'd');
  }

  /** The key of a code under modifiers: `A-` and `M-` are both the alt modifier. */
  ghost function Chord(mods: string, code: Code): Key {
    Key(code, Has(mods, 'C', 'c'), Has(mods, 'A', 'a') || Has(mods, 'M', 'm'), Has(mods, 'S', 's'), Has(mods, 'D', 'd'))
  }

  lemma DashedHasNoBracket(mods: string)
    requires AreModifiers(mods)
    ensures forall k | 0 <= k < |Dashed(mods)| :: Dashed(mods)[k] != '>'
  {
  }

  /**
   * A name in brackets after any modifiers, in any order and case and as often as one likes,
   * is the key of its code with just those modifiers; without a code the bracket is text.
   */
  lemma SpelledKeyReads(mods: string, name: string, after: string, fold: bool)
    requires AreModifiers(mods) && IsName(name)
    ensures var inner := Dashed(mods) + name;
      Head("<" + (inner + ">") + after, fold) ==
        match CodeOf(name)
        case None => Taken(Plain(Char('<')), 1)
        case Some(c) => Taken(if fold then Alias(Chord(mods, c)) else Chord(mods, c), |inner| + 2)
  {
    var inner := Dashed(mods) + name;
    DashedHasNoBracket(mods);
    ModifiersStripped(Form(false, false, false, false, inner), mods, name);
    HeadOfBracket(inner, after, fold);
  }

  // ----- names ----------------------------------------------------------------------------

  /** Equal but for the case of letters. */
  ghost predicate SameName(s: string, t: string) {
    |s| == |t| && forall k | 0 <= k < |s| :: LowerChar(s[k]) == LowerChar(t[k])
  }

  lemma LowerKeepsOthers(c: char, d: char)
    requires LowerChar(c) == LowerChar(d)
    ensures (c == '-' <==> d == '-') && (IsDigit(c) || IsDigit(d) ==> c == d)
  {
  }

  lemma MatchesAnyCase(s: string, t: string)
    requires SameName(s, t)
    ensures forall name | name != "" :: Matches(s, name) <==> Matches(t, name)
  {
  }

  lemma {:induction false} DashAnyCase(s: string, t: string, i: nat)
    requires SameName(s, t) && i <= |s|
    ensures Find(s, '-', i) == Find(t, '-', i)
    decreases |s| - i
  {
    if i < |s| {
      LowerKeepsOthers(s[i], t[i]);
      DashAnyCase(s, t, i + 1);
    }
  }

  lemma DigitsAnyCase(s: string, t: string)
    requires SameName(s, t)
    ensures AllDigits(s) <==> AllDigits(t)
    ensures AllDigits(s) ==> s == t
  {
    forall k | 0 <= k < |s| ensures IsDigit(s[k]) || IsDigit(t[k]) ==> s[k] == t[k] {
      LowerKeepsOthers(s[k], t[k]);
    }
  }

  lemma MouseNamedAnyCase(s: string, t: string)
    requires SameName(s, t)
    ensures MouseNamed(s) == MouseNamed(t)
  {
    MatchesAnyCase(s, t);
  }

  lemma MouseAnyCase(s: string, t: string)
    requires SameName(s, t)
    ensures ParseMouse(s) == ParseMouse(t)
  {
    var p := Find(s, '-', 0);
    DashAnyCase(s, t, 0);
    MouseNamedAnyCase(s, t);
    if p.Some? {
      DigitsAnyCase(s[..p.value], t[..p.value]);
      MouseNamedAnyCase(s[p.value + 1..], t[p.value + 1..]);
    }
  }

  lemma EditingAnyCase(s: string, t: string)
    requires SameName(s, t)
    ensures EditingKey(s) == EditingKey(t)
  {
    MatchesAnyCase(s, t);
  }

  lemma MovingAnyCase(s: string, t: string)
    requires SameName(s, t)
    ensures MovingKey(s) == MovingKey(t)
  {
    MatchesAnyCase(s, t);
  }

  lemma WheelAnyCase(s: string, t: string)
    requires SameName(s, t)
    ensures WheelKey(s) == WheelKey(t)
  {
    MatchesAnyCase(s, t);
  }

  /** A name means the same in any case. */
  lemma NameAnyCase(s: string, t: string)
    requires SameName(s, t)
    ensures CodeOf(s) == CodeOf(t)
  {
    CodeOfIs(s);
    CodeOfIs(t);
    MouseAnyCase(s, t);
    EditingAnyCase(s, t);
    MovingAnyCase(s, t);
    WheelAnyCase(s, t);
    if |s| >= 2 { DigitsAnyCase(s[1..], t[1..]); }
  }

  lemma EnterNames()
    ensures CodeOf("cr") == CodeOf("enter") == CodeOf("return") == Some(Enter)
  {
    MeansCR("CR");
    NameAnyCase("CR", "cr");
    IsEnter("enter");
    IsEnter("return");
  }

  lemma IsEnter(s: string)
    requires s == "enter" || s == "return"
    ensures CodeOf(s) == Some(Enter)
  {
    NoMouse(s);
    CodeOfIs(s);
  }

  lemma DeleteNames()
    ensures CodeOf("del") == CodeOf("delete") == Some(Delete)
  {
    MeansDel("Del");
    NameAnyCase("Del", "del");
    IsDelete("delete");
  }

  lemma IsDelete(s: string)
    requires s == "delete"
    ensures CodeOf(s) == Some(Delete)
  {
    NoMouse(s);
    CodeOfIs(s);
  }

  lemma BackspaceNames()
    ensures CodeOf("bs") == CodeOf("backspace") == Some(Backspace)
  {
    MeansBS("BS");
    NameAnyCase("BS", "bs");
    IsBackspace("backspace");
  }

  lemma IsBackspace(s: string)
    requires s == "backspace"
    ensures CodeOf(s) == Some(Backspace)
  {
    NoMouse(s);
    CodeOfIs(s);
  }

  lemma IsBar(s: string)
    requires s == "bar"
    ensures CodeOf(s) == Some(Char('|'))
  {
    NoMouse(s);
    CodeOfIs(s);
  }

  lemma IsBackslash(s: string)
    requires s == "bslash"
    ensures CodeOf(s) == Some(Char('\\'))
  {
    NoMouse(s);
    CodeOfIs(s);
  }

  lemma IsNull(s: string)
    requires s == "nul"
    ensures CodeOf(s) == Some(Char('\0'))
  {
    NoMouse(s);
    CodeOfIs(s);
  }

  /** The names of the characters that mean something in a notation or cannot be typed. */
  lemma CharacterNames()
    ensures CodeOf("space") == Some(Char(' ')) && CodeOf("lt") == Some(Char('<')) && CodeOf("gt") == Some(Char('>'))
    ensures CodeOf("bar") == Some(Char('|')) && CodeOf("bslash") == Some(Char('\\'))
    ensures CodeOf("nul") == Some(Char('\0'))
  {
    MeansSpace("Space");
    NameAnyCase("Space", "space");
    MeansLt("lt");
    MeansGt("gt");
    IsBar("bar");
    IsBackslash("bslash");
    IsNull("nul");
  }

  /** A press counts up to four clicks, a drag or release is always single, and no other count is read. */
  lemma CountedMouseReads(b: Button, n: Byte, kind: MouseKind)
    ensures ParseMouse(Decimal(n) + ("-" + MouseName(b, kind))) ==
      if 1 <= n <= 4 then Some(Mouse(Pressable(b), if kind.Press? then n else 1, kind)) else None
  {
    DecimalValue(n);
    MouseNamesMean(b, kind);
    CountedNameReads(Decimal(n), n, MouseName(b, kind), Pressable(b), kind);
  }

  lemma CountedNameReads(d: string, n: Byte, name: string, b: Button, kind: MouseKind)
    requires d != "" && AllDigits(d) && Value(d) == n && MouseNamed(name) == Some((b, kind))
    ensures ParseMouse(d + ("-" + name)) ==
      if 1 <= n <= 4 then Some(Mouse(b, if kind.Press? then n else 1, kind)) else None
  {
    var s := d + ("-" + name);
    FindFirst(s, '-', 0, |d|);
    assert s[..|d|] == d && s[|d| + 1..] == name;
  }

  // ----- aliases and control bytes ------------------------------------------------------------

  function Ctrl(c: char): Key { Key(Char(c), true, false, false, false) }

  /** The four chords that share a byte with a named key are read as that key where aliases are folded. */
  lemma FourAliases()
    ensures KeysFrom(Notation(Ctrl('i')), 0, true) == [Plain(Tab)]
    ensures KeysFrom(Notation(Ctrl('m')), 0, true) == [Plain(Enter)]
    ensures KeysFrom(Notation(Ctrl('[')), 0, true) == [Plain(Esc)]
    ensures KeysFrom(Notation(Ctrl('h')), 0, true) == [Plain(Backspace)]
  {
    FoldedReads(Ctrl('i'));
    FoldedReads(Ctrl('m'));
    FoldedReads(Ctrl('['));
    FoldedReads(Ctrl('h'));
  }

  /** A control byte is the key the notation of its chord folds to: the fold and the bytes agree. */
  lemma ControlByteIsFoldedChord(c: char)
    requires c as int <= 0x1f
    ensures RawChar(c) == Alias(Ctrl(LowerChar((c as int + 0x40) as char)))
  {
  }

  /** A bracket that is never closed is text. */
  lemma OpenBracketIsText(s: string, fold: bool)
    requires s != "" && s[0] == '<' && forall k | 1 <= k < |s| :: s[k] != '>'
    ensures Head(s, fold) == Taken(Plain(Char('<')), 1)
  {
    HeadIs(s, fold);
    FindFirst(s, '>', 1, |s|);
  }
}
