/**
 * Expanding a status-line format whose expressions may return formats in turn: the pieces
 * it appends, and the bounds it keeps whatever the expressions return.
 */
module StatusExpand {
  import opened Wrappers
  import opened StatusLayout

  type Line = seq<Glyph>

  datatype ExprKind = Eval | EvalItems | Whole

  datatype Item =
    | Literal(text: Line)
    | Field(id: nat)
    | HlSwitch(group: Group)
    | AlignItem
    | TruncateItem
    | StartItem(action: Action)
    | EndItem
    | Expr(kind: ExprKind, raw: string)

  /** The two texts that stand for what is not expanded. */
  datatype Warning = TooMany | TooDeep

  /**
   * What a line is expanded against: the text of the fields and warnings, what the n-th call
   * of the expression callback returns, and the parser of formats.
   */
  datatype Env = Env(show: nat -> Line, warn: Warning -> Line, eval: (nat, ExprKind, string) -> Line,
      parse: Line -> Result<seq<Item>, Line>)

  const MAX_DEPTH: nat := 16
  const MAX_EVALS: nat := 512

  /** Appends text, joined to the piece before it when that has the same group. */
  function PushText(out: seq<Piece>, text: Line, group: Group): seq<Piece> {
    if text == [] then out
    else if |out| > 0 && out[|out| - 1].Text? && out[|out| - 1].group == group
    then out[..|out| - 1] + [Text(out[|out| - 1].text + text, group)]
    else out + [Text(text, group)]
  }

  /** One call of the callback, and how deep the format was nested that made it. */
  datatype Call = Call(kind: ExprKind, raw: string, depth: nat)

  datatype State = State(group: Group, out: seq<Piece>, evals: nat, calls: seq<Call>)

  function Push(s: State, text: Line): State { s.(out := PushText(s.out, text, s.group)) }

  function Called(s: State, kind: ExprKind, raw: string, depth: nat): State {
    s.(evals := s.evals + 1, calls := s.calls + [Call(kind, raw, depth)])
  }

  /** The state after one item, before the rest; with `stop` when nothing more is expanded at this depth. */
  function Step(env: Env, item: Item, depth: nat, s: State): (r: (State, bool))
    requires depth <= MAX_DEPTH
    decreases MAX_DEPTH - depth, 0, 0
  {
    match item
    case Literal(text) => (Push(s, text), false)
    case Field(id) => (Push(s, env.show(id)), false)
    case HlSwitch(group) => (s.(group := group), false)
    case AlignItem => (s.(out := s.out + [Align]), false)
    case TruncateItem => (s.(out := s.out + [Truncate]), false)
    case StartItem(action) => (s.(out := s.out + [ClickStart(action)]), false)
    case EndItem => (s.(out := s.out + [ClickEnd]), false)
    case Expr(kind, raw) =>
      if s.evals >= MAX_EVALS then (Push(s, env.warn(TooMany)), true) else
        var s' := Called(s, kind, raw, depth);
        var result := env.eval(s.evals, kind, raw);
        if kind == Eval then (Push(s', result), false)
        else if depth == MAX_DEPTH then (Push(s', env.warn(TooDeep)), true)
        else match env.parse(result)
          case Ok(sub) => (After(env, sub, 0, depth + 1, s'), false)
          case Err(e) => (Push(s', e), false)
  }

  /** The state after the items from `i` on. */
  function After(env: Env, items: seq<Item>, i: nat, depth: nat, s: State): State
    requires i <= |items| && depth <= MAX_DEPTH
    decreases MAX_DEPTH - depth, 1, |items| - i
  {
    if i == |items| then s else
      var (s', stop) := Step(env, items[i], depth, s);
      if stop then s' else After(env, items, i + 1, depth, s')
  }

  class Expansion {
    const env: Env
    var group: Group
    var out: seq<Piece>
    var evals: nat
    ghost var calls: seq<Call>

    ghost function Now(): State
      reads this
    {
      State(group, out, evals, calls)
    }

    constructor (env: Env)
      ensures this.env == env && Now() == State(None, [], 0, [])
    {
      this.env := env;
      group, out, evals, calls := None, [], 0, [];
    }

    method ExpandInto(items: seq<Item>, depth: nat)
      requires depth <= MAX_DEPTH
      modifies this
      ensures Now() == After(env, items, 0, depth, old(Now()))
      decreases MAX_DEPTH - depth, 1
    {
      for i := 0 to |items|
        invariant After(env, items, i, depth, Now()) == After(env, items, 0, depth, old(Now()))
      {
        var stop := ExpandItem(items[i], depth);
        if stop { return; }
      }
    }

    method ExpandItem(item: Item, depth: nat) returns (stop: bool)
      requires depth <= MAX_DEPTH
      modifies this
      ensures (Now(), stop) == Step(env, item, depth, old(Now()))
      decreases MAX_DEPTH - depth, 0
    {
      stop := false;
      match item {
        case Literal(text) => out := PushText(out, text, group);
        case Field(id) => out := PushText(out, env.show(id), group);
        case HlSwitch(g) => group := g;
        case AlignItem => out := out + [Align];
        case TruncateItem => out := out + [Truncate];
        case StartItem(action) => out := out + [ClickStart(action)];
        case EndItem => out := out + [ClickEnd];
        case Expr(kind, raw) =>
          if evals >= MAX_EVALS {
            out := PushText(out, env.warn(TooMany), group);
            return true;
          }
          var result := env.eval(evals, kind, raw);
          evals, calls := evals + 1, calls + [Call(kind, raw, depth)];
          if kind == Eval {
            out := PushText(out, result, group);
          } else if depth >= MAX_DEPTH {
            out := PushText(out, env.warn(TooDeep), group);
            return true;
          } else {
            match env.parse(result) {
              case Ok(sub) => ExpandInto(sub, depth + 1);
              case Err(e) => out := PushText(out, e, group);
            }
          }
      }
    }
  }

  method Expand(env: Env, items: seq<Item>) returns (pieces: seq<Piece>)
    ensures pieces == After(env, items, 0, 0, State(None, [], 0, [])).out
  {
    var e := new Expansion(env);
    e.ExpandInto(items, 0);
    pieces := e.out;
  }

  // ----- what every expansion keeps ---------------------------------------------------------

  /** No empty text, and no two texts of one group side by side. */
  ghost predicate Tidy(out: seq<Piece>) {
    out == []
    || (var n := |out| - 1;
        Tidy(out[..n])
        && (out[n].Text? ==> out[n].text != [] && (n > 0 && out[n - 1].Text? ==> out[n - 1].group != out[n].group)))
  }

  /** Every call counted, within the budget, from a format nested no deeper than allowed. */
  ghost predicate Bounded(s: State) {
    s.evals == |s.calls| <= MAX_EVALS && forall c | c in s.calls :: c.depth <= MAX_DEPTH
  }

  /** A character with its group, or a marker. */
  datatype Bit = Ink(glyph: Glyph, group: Group) | Mark(piece: Piece)

  function TextBits(text: Line, group: Group): seq<Bit> {
    if text == [] then [] else TextBits(text[..|text| - 1], group) + [Bit.Ink(text[|text| - 1], group)]
  }

  /** What the pieces say, however their text is cut up. */
  function Bits(out: seq<Piece>): seq<Bit> {
    if out == [] then [] else
      var last := out[|out| - 1];
      Bits(out[..|out| - 1]) + if last.Text? then TextBits(last.text, last.group) else [Mark(last)]
  }

  lemma {:induction false} TextBitsJoin(a: Line, b: Line, group: Group)
    ensures TextBits(a + b, group) == TextBits(a, group) + TextBits(b, group)
    decreases |b|
  {
    if b == [] {
      assert a + b == a;
    } else {
      TextBitsJoin(a, b[..|b| - 1], group);
      assert (a + b)[..|a + b| - 1] == a + b[..|b| - 1];
    }
  }

  lemma PushMarker(out: seq<Piece>, p: Piece)
    requires Tidy(out) && !p.Text?
    ensures Tidy(out + [p]) && Bits(out + [p]) == Bits(out) + [Mark(p)]
  {
    assert (out + [p])[..|out|] == out;
  }

  lemma GrowText(out: seq<Piece>, text: Line)
    requires Tidy(out) && |out| > 0 && out[|out| - 1].Text?
    ensures var last := out[|out| - 1];
      var grown := out[..|out| - 1] + [Text(last.text + text, last.group)];
      Tidy(grown) && Bits(grown) == Bits(out) + TextBits(text, last.group)
  {
    var n := |out| - 1;
    TextBitsJoin(out[n].text, text, out[n].group);
    assert (out[..n] + [Text(out[n].text + text, out[n].group)])[..n] == out[..n];
  }

  lemma PushTextSays(out: seq<Piece>, text: Line, group: Group)
    requires Tidy(out)
    ensures Tidy(PushText(out, text, group))
    ensures Bits(PushText(out, text, group)) == Bits(out) + TextBits(text, group)
  {
    if text != [] {
      if |out| > 0 && out[|out| - 1].Text? && out[|out| - 1].group == group {
        GrowText(out, text);
      } else {
        assert (out + [Text(text, group)])[..|out|] == out;
      }
    }
  }

  /** A state reached from another: still tidy and bounded, with what was there before it in front. */
  ghost predicate Continues(s: State, s': State) {
    Tidy(s'.out) && Bounded(s') && Bits(s.out) <= Bits(s'.out) && s.calls <= s'.calls
  }

  lemma PushContinues(s: State, text: Line)
    requires Tidy(s.out) && Bounded(s)
    ensures Continues(s, Push(s, text))
  {
    PushTextSays(s.out, text, s.group);
  }

  lemma CallContinues(s: State, kind: ExprKind, raw: string, depth: nat)
    requires Tidy(s.out) && Bounded(s) && s.evals < MAX_EVALS && depth <= MAX_DEPTH
    ensures Continues(s, Called(s, kind, raw, depth))
  {
  }

  lemma ContinuesOn(a: State, b: State, c: State)
    requires Continues(a, b) && Continues(b, c)
    ensures Continues(a, c)
  {
  }

  lemma {:induction false} StepContinues(env: Env, item: Item, depth: nat, s: State)
    requires depth <= MAX_DEPTH && Tidy(s.out) && Bounded(s)
    ensures Continues(s, Step(env, item, depth, s).0)
    decreases MAX_DEPTH - depth, 0, 1
  {
    match item {
      case Literal(text) => PushContinues(s, text);
      case Field(id) => PushContinues(s, env.show(id));
      case HlSwitch(_) =>
      case AlignItem => PushMarker(s.out, Align);
      case TruncateItem => PushMarker(s.out, Truncate);
      case StartItem(action) => PushMarker(s.out, ClickStart(action));
      case EndItem => PushMarker(s.out, ClickEnd);
      case Expr(kind, raw) => ExprContinues(env, kind, raw, depth, s);
    }
  }

  lemma {:induction false} ExprContinues(env: Env, kind: ExprKind, raw: string, depth: nat, s: State)
    requires depth <= MAX_DEPTH && Tidy(s.out) && Bounded(s)
    ensures Continues(s, Step(env, Expr(kind, raw), depth, s).0)
    decreases MAX_DEPTH - depth, 0, 0
  {
    if s.evals >= MAX_EVALS {
      PushContinues(s, env.warn(TooMany));
    } else {
      var result := env.eval(s.evals, kind, raw);
      var s' := Called(s, kind, raw, depth);
      CallContinues(s, kind, raw, depth);
      if kind == Eval { PushContinues(s', result); }
      else if depth == MAX_DEPTH { PushContinues(s', env.warn(TooDeep)); }
      else if env.parse(result).Ok? { AfterContinues(env, env.parse(result).value, 0, depth + 1, s'); }
      else { PushContinues(s', env.parse(result).error); }
    }
  }

  /**
   * Whatever the expressions return, an expansion only appends, keeps the pieces tidy, makes
   * at most 512 calls in all, and none from a format nested deeper than 16.
   */
  lemma {:induction false} AfterContinues(env: Env, items: seq<Item>, i: nat, depth: nat, s: State)
    requires i <= |items| && depth <= MAX_DEPTH && Tidy(s.out) && Bounded(s)
    ensures Continues(s, After(env, items, i, depth, s))
    decreases MAX_DEPTH - depth, 1, |items| - i
  {
    if i < |items| {
      var (s', stop) := Step(env, items[i], depth, s);
      StepContinues(env, items[i], depth, s);
      if !stop {
        AfterContinues(env, items, i + 1, depth, s');
        ContinuesOn(s, s', After(env, items, i + 1, depth, s'));
      }
    }
  }

  // ----- within the budget ----------------------------------------------------------------------

  predicate Flat(items: seq<Item>) { forall i | 0 <= i < |items| :: items[i].Expr? ==> items[i].kind == Eval }

  /** The calls a flat format asks for, in its own order. */
  function Asked(items: seq<Item>, i: nat, depth: nat): seq<Call>
    requires i <= |items|
    decreases |items| - i
  {
    if i == |items| then []
    else AskedBy(items[i], depth) + Asked(items, i + 1, depth)
  }

  function AskedBy(item: Item, depth: nat): seq<Call> {
    if item.Expr? then [Call(item.kind, item.raw, depth)] else []
  }

  /** What a flat format says when the group in force is `group` and `n` calls were made before. */
  function Says(env: Env, items: seq<Item>, i: nat, group: Group, n: nat): seq<Bit>
    requires i <= |items|
    decreases |items| - i
  {
    if i == |items| then [] else
      ItemSays(env, items[i], group, n)
      + Says(env, items, i + 1, if items[i].HlSwitch? then items[i].group else group,
             if items[i].Expr? then n + 1 else n)
  }

  /** From one state to another these calls were made and these bits appended. */
  ghost predicate Appended(s: State, s': State, calls: seq<Call>, bits: seq<Bit>) {
    Tidy(s'.out) && s'.calls == s.calls + calls && Bits(s'.out) == Bits(s.out) + bits
  }

  lemma SaysNothing(s: State)
    requires Tidy(s.out)
    ensures Appended(s, s, [], [])
  {
  }

  lemma SaysJoins(a: State, b: State, c: State, calls: seq<Call>, bits: seq<Bit>, calls': seq<Call>, bits': seq<Bit>)
    requires Appended(a, b, calls, bits) && Appended(b, c, calls', bits')
    ensures Appended(a, c, calls + calls', bits + bits')
  {
  }

  /**
   * A format with plain expressions only, no more than the budget has left, evaluates each of
   * them once and in order, and says exactly its texts, fields, markers and results.
   */
  lemma {:induction false} FlatFormatSays(env: Env, items: seq<Item>, i: nat, depth: nat, s: State)
    requires i <= |items| && depth <= MAX_DEPTH && Flat(items) && Tidy(s.out)
    requires s.evals + |Asked(items, i, depth)| <= MAX_EVALS
    ensures Appended(s, After(env, items, i, depth, s), Asked(items, i, depth), Says(env, items, i, s.group, s.evals))
    decreases |items| - i
  {
    if i == |items| {
      SaysNothing(s);
    } else {
      var item := items[i];
      var s' := Step(env, item, depth, s).0;
      FlatStepSays(env, item, depth, s);
      assert After(env, items, i, depth, s) == After(env, items, i + 1, depth, s');
      FlatFormatSays(env, items, i + 1, depth, s');
      SaysJoins(s, s', After(env, items, i + 1, depth, s'), AskedBy(item, depth), ItemSays(env, item, s.group, s.evals),
                Asked(items, i + 1, depth), Says(env, items, i + 1, s'.group, s'.evals));
    }
  }

  function ItemSays(env: Env, item: Item, group: Group, n: nat): seq<Bit> {
    match item
    case Literal(text) => TextBits(text, group)
    case Field(id) => TextBits(env.show(id), group)
    case HlSwitch(g) => []
    case AlignItem => [Mark(Align)]
    case TruncateItem => [Mark(Truncate)]
    case StartItem(action) => [Mark(ClickStart(action))]
    case EndItem => [Mark(ClickEnd)]
    case Expr(kind, raw) => TextBits(env.eval(n, kind, raw), group)
  }

  lemma FlatStepSays(env: Env, item: Item, depth: nat, s: State)
    requires depth <= MAX_DEPTH && Tidy(s.out) && (item.Expr? ==> item.kind == Eval && s.evals < MAX_EVALS)
    ensures var (s', stop) := Step(env, item, depth, s);
      !stop && Appended(s, s', AskedBy(item, depth), ItemSays(env, item, s.group, s.evals))
      && s'.group == (if item.HlSwitch? then item.group else s.group)
      && s'.evals == (if item.Expr? then s.evals + 1 else s.evals)
  {
    match item {
      case Literal(text) => PushTextSays(s.out, text, s.group);
      case Field(id) => PushTextSays(s.out, env.show(id), s.group);
      case HlSwitch(_) =>
      case AlignItem => PushMarker(s.out, Align);
      case TruncateItem => PushMarker(s.out, Truncate);
      case StartItem(action) => PushMarker(s.out, ClickStart(action));
      case EndItem => PushMarker(s.out, ClickEnd);
      case Expr(kind, raw) => PushTextSays(s.out, env.eval(s.evals, kind, raw), s.group);
    }
  }

  // ----- every format -----------------------------------------------------------------------------

  /** What a format says, the calls it makes, and the group and the count of calls it leaves. */
  datatype Meaning = Meaning(bits: seq<Bit>, calls: seq<Call>, group: Group, evals: nat)

  function Then(a: Meaning, b: Meaning): Meaning { Meaning(a.bits + b.bits, a.calls + b.calls, b.group, b.evals) }

  function Saying(text: Line, group: Group, n: nat): Meaning { Meaning(TextBits(text, group), [], group, n) }

  /** One item's meaning, and whether nothing after it is expanded at its depth. */
  function ItemMeans(env: Env, item: Item, depth: nat, group: Group, n: nat): (Meaning, bool)
    requires depth <= MAX_DEPTH
    decreases MAX_DEPTH - depth, 0
  {
    match item
    case HlSwitch(g) => (Meaning([], [], g, n), false)
    case Expr(kind, raw) =>
      if n >= MAX_EVALS then (Saying(env.warn(TooMany), group, n), true) else
        var called := Meaning([], [Call(kind, raw, depth)], group, n + 1);
        var result := env.eval(n, kind, raw);
        if kind == Eval then (Then(called, Saying(result, group, n + 1)), false)
        else if depth == MAX_DEPTH then (Then(called, Saying(env.warn(TooDeep), group, n + 1)), true)
        else (
          match env.parse(result)
          case Ok(sub) => (Then(called, Means(env, sub, 0, depth + 1, group, n + 1)), false)
          case Err(e) => (Then(called, Saying(e, group, n + 1)), false))
    case _ => (Meaning(ItemSays(env, item, group, n), [], group, n), false)
  }

  /** The meaning of the items from `i` on, with nothing but the group in force and the calls made before to go by. */
  function Means(env: Env, items: seq<Item>, i: nat, depth: nat, group: Group, n: nat): Meaning
    requires i <= |items| && depth <= MAX_DEPTH
    decreases MAX_DEPTH - depth, 1, |items| - i
  {
    if i == |items| then Meaning([], [], group, n) else
      var (m, stop) := ItemMeans(env, items[i], depth, group, n);
      if stop then m else Then(m, Means(env, items, i + 1, depth, m.group, m.evals))
  }

  /** The second state is the first with the meaning appended. */
  ghost predicate Conveys(s: State, s': State, m: Meaning) {
    Appended(s, s', m.calls, m.bits) && s'.group == m.group && s'.evals == m.evals
  }

  lemma ConveysOn(a: State, b: State, c: State, m: Meaning, n: Meaning)
    requires Conveys(a, b, m) && Conveys(b, c, n)
    ensures Conveys(a, c, Then(m, n))
  {
    SaysJoins(a, b, c, m.calls, m.bits, n.calls, n.bits);
  }

  lemma PushConveys(s: State, text: Line)
    requires Tidy(s.out)
    ensures Conveys(s, Push(s, text), Saying(text, s.group, s.evals))
  {
    PushTextSays(s.out, text, s.group);
    assert s.calls + [] == s.calls;
  }

  lemma CallConveys(s: State, kind: ExprKind, raw: string, depth: nat)
    requires Tidy(s.out)
    ensures Conveys(s, Called(s, kind, raw, depth), Meaning([], [Call(kind, raw, depth)], s.group, s.evals + 1))
  {
    assert Bits(s.out) + [] == Bits(s.out);
  }

  /**
   * Any format, nested to any depth and over any budget, appends its meaning to whatever
   * stands before it, joined to it or not.
   */
  lemma {:induction false} FormatSays(env: Env, items: seq<Item>, i: nat, depth: nat, s: State)
    requires i <= |items| && depth <= MAX_DEPTH && Tidy(s.out)
    ensures Conveys(s, After(env, items, i, depth, s), Means(env, items, i, depth, s.group, s.evals))
    decreases MAX_DEPTH - depth, 1, |items| - i
  {
    if i == |items| {
      SaysNothing(s);
    } else {
      var (s', stop) := Step(env, items[i], depth, s);
      var m := ItemMeans(env, items[i], depth, s.group, s.evals).0;
      ItemConveys(env, items[i], depth, s);
      if !stop {
        FormatSays(env, items, i + 1, depth, s');
        ConveysOn(s, s', After(env, items, i + 1, depth, s'), m, Means(env, items, i + 1, depth, m.group, m.evals));
      }
    }
  }

  lemma {:induction false} ItemConveys(env: Env, item: Item, depth: nat, s: State)
    requires depth <= MAX_DEPTH && Tidy(s.out)
    ensures var ((s', stop), (m, halt)) := (Step(env, item, depth, s), ItemMeans(env, item, depth, s.group, s.evals));
      stop == halt && Conveys(s, s', m)
    decreases MAX_DEPTH - depth, 0, 1
  {
    match item {
      case Expr(kind, raw) => ExprConveys(env, kind, raw, depth, s);
      case _ => FlatStepSays(env, item, depth, s);
    }
  }

  lemma {:induction false} ExprConveys(env: Env, kind: ExprKind, raw: string, depth: nat, s: State)
    requires depth <= MAX_DEPTH && Tidy(s.out)
    ensures var item := Expr(kind, raw);
      var ((s', stop), (m, halt)) := (Step(env, item, depth, s), ItemMeans(env, item, depth, s.group, s.evals));
      stop == halt && Conveys(s, s', m)
    decreases MAX_DEPTH - depth, 0, 0
  {
    if s.evals >= MAX_EVALS {
      PushConveys(s, env.warn(TooMany));
    } else {
      var s' := Called(s, kind, raw, depth);
      var called := Meaning([], [Call(kind, raw, depth)], s.group, s.evals + 1);
      var result := env.eval(s.evals, kind, raw);
      CallConveys(s, kind, raw, depth);
      if kind != Eval && depth < MAX_DEPTH && env.parse(result).Ok? {
        var sub := env.parse(result).value;
        FormatSays(env, sub, 0, depth + 1, s');
        ConveysOn(s, s', After(env, sub, 0, depth + 1, s'), called,
                  Means(env, sub, 0, depth + 1, s.group, s.evals + 1));
      } else {
        var text :=
          if kind == Eval then result
          else if depth == MAX_DEPTH then env.warn(TooDeep)
          else env.parse(result).error;
        PushConveys(s', text);
        ConveysOn(s, s', Push(s', text), called, Saying(text, s.group, s.evals + 1));
      }
    }
  }
}
