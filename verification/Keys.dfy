/**
 * Vim key notation: the printer, the parser with and without its terminal-alias fold, and
 * exactly which keys survive the round trip.
 */
module Keys {
  import opened Wrappers
  import opened Sealed
  import opened Decimals

  datatype Button = LeftButton | RightButton | MiddleButton | WheelButton | MoveButton | X1 | X2

  datatype MouseKind = Press | Drag | Release

  datatype WheelDir = WheelUp | WheelDown | WheelLeft | WheelRight

  type Byte = b: int | 0 <= b < 256

  datatype Code =
    | Char(c: char)
    | Enter | Esc | Backspace | Tab | Delete
    | Left | Right | Up | Down | Home | End | PageUp | PageDown
    | Function(n: Byte)
    | Mouse(button: Button, clicks: Byte, kind: MouseKind)
    | PasteStart | PasteEnd
    | ScrollWheel(dir: WheelDir)

  datatype Key = Key(code: Code, ctrl: bool, alt: bool, shift: bool, cmd: bool)

  function Plain(code: Code): Key { Key(code, false, false, false, false) }

  predicate Modified(k: Key) { k.ctrl || k.alt || k.cmd }

  // ----- printing ---------------------------------------------------------------------

  function ButtonName(b: Button): string {
    match b case RightButton => "Right" case MiddleButton => "Middle" case _ => "Left"
  }

  function MouseName(b: Button, kind: MouseKind): string {
    ButtonName(b) + match kind case Press => "Mouse" case Drag => "Drag" case Release => "Release"
  }

  function WheelName(dir: WheelDir): string {
    match dir
    case WheelUp => "ScrollWheelUp" case WheelDown => "ScrollWheelDown"
    case WheelLeft => "ScrollWheelLeft" case WheelRight => "ScrollWheelRight"
  }

  /** Whether the code needs brackets of its own. */
  predicate Named(k: Key) {
    k.code.Char? ==> k.code.c == ' ' || (k.code.c == '<' && !Modified(k)) || (k.code.c == '>' && Modified(k))
  }

  function Stem(k: Key): string {
    match k.code
    case Char(c) =>
      if c == ' ' then "Space" else if c == '<' && !Modified(k) then "lt"
      else if c == '>' && Modified(k) then "gt" else [c]
    case Enter => "CR"
    case Esc => "Esc"
    case Backspace => "BS"
    case Tab => "Tab"
    case Delete => "Del"
    case Left => "Left"
    case Right => "Right"
    case Up => "Up"
    case Down => "Down"
    case Home => "Home"
    case End => "End"
    case PageUp => "PageUp"
    case PageDown => "PageDown"
    case Function(n) => "F" + Decimal(n)
    case PasteStart => "PasteStart"
    case PasteEnd => "PasteEnd"
    case Mouse(button, clicks, kind) =>
      (if kind == Press && clicks > 1 then Decimal(clicks) + "-" else "") + MouseName(button, kind)
    case ScrollWheel(dir) => WheelName(dir)
  }

  function Prefix(on: bool, p: string): string { if on then p else "" }

  function Prefixes(k: Key): string {
    Prefix(k.ctrl, "C-") + (Prefix(k.alt, "A-") + (Prefix(k.cmd, "D-") + Prefix(k.shift && Named(k), "S-")))
  }

  function Notation(k: Key): string {
    if !Named(k) && !Modified(k) then Stem(k) else "<" + ((Prefixes(k) + Stem(k)) + ">")
  }

  method KeyToNotation(k: Key) returns (s: string)
    ensures s == Notation(k)
  {
    var base := Stem(k);
    if !Named(k) && !Modified(k) { return base; }
    s := "<";
    s := s + Prefix(k.ctrl, "C-");
    s := s + Prefix(k.alt, "A-");
    s := s + Prefix(k.cmd, "D-");
    s := s + Prefix(k.shift && Named(k), "S-");
    s := s + base + ">";
    Regroup("<", Prefix(k.ctrl, "C-"), Prefix(k.alt, "A-"), Prefix(k.cmd, "D-"), Prefix(k.shift && Named(k), "S-"),
      base, ">");
  }

  lemma Regroup(o: string, a: string, b: string, c: string, d: string, e: string, p: string)
    ensures o + a + b + c + d + e + p == o + (((a + (b + (c + d))) + e) + p)
  {
    assert o + a + b + c + d == o + (a + (b + (c + d)));
  }

  // ----- parsing ------------------------------------------------------------------------

  function LowerChar(c: char): char { if 'A' <= c <= 'Z' then (c as int + 32) as char else c }

  /** The text in lower case is the name: decided by length and ends where those differ. */
  predicate Matches(s: string, name: string)
    requires name != ""
  {
    |s| == |name| && LowerChar(s[0]) == name[0] && LowerChar(s[|s| - 1]) == name[|name| - 1]
    && forall i | 0 <= i < |name| :: LowerChar(s[i]) == name[i]
  }

  /** Where the character first occurs, from `i` on. */
  function Find(s: string, c: char, i: nat): (r: Option<nat>)
    requires i <= |s|
    ensures r.Some? ==> i <= r.value < |s| && s[r.value] == c
    decreases |s| - i
  {
    if i == |s| then None else if s[i] == c then Some(i) else Find(s, c, i + 1)
  }

  lemma {:induction false} FindFirst(s: string, c: char, i: nat, p: nat)
    requires i <= p <= |s| && (forall j | i <= j < p :: s[j] != c) && (p < |s| ==> s[p] == c)
    ensures Find(s, c, i) == if p < |s| then Some(p) else None
    decreases p - i
  {
    if i < p { FindFirst(s, c, i + 1, p); }
  }

  function ParseByte(s: string): Option<Byte>
    requires AllDigits(s)
  {
    if s != "" && Value(s) < 256 then Some(Value(s)) else None
  }

  /** A mouse name without its count. */
  function MouseNamed(s: string): Option<(Button, MouseKind)> {
    if Matches(s, "leftmouse") then Some((LeftButton, Press))
    else if Matches(s, "rightmouse") then Some((RightButton, Press))
    else if Matches(s, "middlemouse") then Some((MiddleButton, Press))
    else if Matches(s, "leftdrag") then Some((LeftButton, Drag))
    else if Matches(s, "rightdrag") then Some((RightButton, Drag))
    else if Matches(s, "middledrag") then Some((MiddleButton, Drag))
    else if Matches(s, "leftrelease") then Some((LeftButton, Release))
    else if Matches(s, "rightrelease") then Some((RightButton, Release))
    else if Matches(s, "middlerelease") then Some((MiddleButton, Release))
    else None
  }

  function CountedMouse(clicks: Byte, name: string): Option<Code> {
    if clicks == 0 || clicks > 4 then None else
      match MouseNamed(name)
      case None => None
      case Some(m) => Some(Mouse(m.0, if m.1 == Press then clicks else 1, m.1))
  }

  function ParseMouse(rest: string): Option<Code> {
    match Find(rest, '-', 0)
    case Some(p) =>
      if p > 0 && AllDigits(rest[..p]) then
        match ParseByte(rest[..p]) case None => None case Some(n) => CountedMouse(n, rest[p + 1..])
      else CountedMouse(1, rest)
    case None => CountedMouse(1, rest)
  }

  function EditingKey(s: string): Option<Code> {
    if Matches(s, "cr") || Matches(s, "enter") || Matches(s, "return") then Some(Enter)
    else if Matches(s, "esc") then Some(Esc)
    else if Matches(s, "tab") then Some(Tab)
    else if Matches(s, "bs") || Matches(s, "backspace") then Some(Backspace)
    else if Matches(s, "del") || Matches(s, "delete") then Some(Delete)
    else if Matches(s, "space") then Some(Char(' '))
    else if Matches(s, "lt") then Some(Char('<'))
    else if Matches(s, "gt") then Some(Char('>'))
    else if Matches(s, "bar") then Some(Char('|'))
    else if Matches(s, "bslash") then Some(Char('\\'))
    else if Matches(s, "nul") then Some(Char('\0'))
    else None
  }

  function MovingKey(s: string): Option<Code> {
    if Matches(s, "up") then Some(Up)
    else if Matches(s, "down") then Some(Down)
    else if Matches(s, "left") then Some(Left)
    else if Matches(s, "right") then Some(Right)
    else if Matches(s, "home") then Some(Home)
    else if Matches(s, "end") then Some(End)
    else if Matches(s, "pageup") then Some(PageUp)
    else if Matches(s, "pagedown") then Some(PageDown)
    else if Matches(s, "pastestart") then Some(PasteStart)
    else if Matches(s, "pasteend") then Some(PasteEnd)
    else None
  }

  function WheelKey(s: string): Option<Code> {
    if Matches(s, "scrollwheelup") then Some(ScrollWheel(WheelUp))
    else if Matches(s, "scrollwheeldown") then Some(ScrollWheel(WheelDown))
    else if Matches(s, "scrollwheelleft") then Some(ScrollWheel(WheelLeft))
    else if Matches(s, "scrollwheelright") then Some(ScrollWheel(WheelRight))
    else None
  }

  /** A name, a function key, or a single character in lower case. */
  function ParseCode(rest: string): Option<Code> {
    if EditingKey(rest).Some? then EditingKey(rest)
    else if MovingKey(rest).Some? then MovingKey(rest)
    else if WheelKey(rest).Some? then WheelKey(rest)
    else if |rest| >= 2 && LowerChar(rest[0]) == 'f' && AllDigits(rest[1..]) then
      match ParseByte(rest[1..]) case None => None case Some(n) => Some(Function(n))
    else if |rest| == 1 then Some(Char(LowerChar(rest[0])))
    else None
  }

  /** Modifiers met so far, and what is left of the form. */
  datatype Form = Form(ctrl: bool, alt: bool, shift: bool, cmd: bool, rest: string)

  function Modifier(c: char): char { if 'a' <= c <= 'z' then (c as int - 32) as char else c }

  /** One modifier prefix, if the form starts with one. */
  function Peel(f: Form): Option<Form> {
    if |f.rest| >= 2 && f.rest[1] == '-' then
      var rest := f.rest[2..];
      match Modifier(f.rest[0])
      case 'C' => Some(f.(ctrl := true, rest := rest))
      case 'S' => Some(f.(shift := true, rest := rest))
      case 'A' => Some(f.(alt := true, rest := rest))
      case 'M' => Some(f.(alt := true, rest := rest))
      case 'D' => Some(f.(cmd := true, rest := rest))
      case _ => None
    else None
  }

  function Strip(f: Form): Form
    decreases |f.rest|
  {
    match Peel(f) case Some(g) => Strip(g) case None => f
  }

  /** What the form's remainder names: a mouse key, else any other. */
  function Meaning(rest: string): Option<Code> {
    if ParseMouse(rest).Some? then ParseMouse(rest) else ParseCode(rest)
  }

  ghost predicate IsMeaning(rest: string, c: Option<Code>) {
    forall n: nat {:trigger Unseal(n)} | Unseal(n) :: c == Meaning(rest)
  }

  /** `Meaning`, which proofs look into only through `CodeOfIs`. */
  ghost function CodeOf(rest: string): Option<Code> {
    assert IsMeaning(rest, Meaning(rest));
    var c: Option<Code> :| IsMeaning(rest, c);
    c
  }

  lemma CodeOfIs(rest: string)
    ensures CodeOf(rest) == Meaning(rest)
  {
    assert IsMeaning(rest, Meaning(rest)) && Unseal(0);
  }

  ghost function Special(inner: string): Option<Key> {
    var f := Strip(Form(false, false, false, false, inner));
    match CodeOf(f.rest) case None => None case Some(c) => Some(Key(c, f.ctrl, f.alt, f.shift, f.cmd))
  }

  method ParseSpecial(inner: string) returns (k: Option<Key>)
    ensures k == Special(inner)
  {
    var f := Form(false, false, false, false, inner);
    while Peel(f).Some?
      invariant Strip(f) == Strip(Form(false, false, false, false, inner))
      decreases |f.rest|
    {
      f := Peel(f).value;
    }
    CodeOfIs(f.rest);
    var code := ParseMouse(f.rest);
    if code.None? { code := ParseCode(f.rest); }
    if code.None? { return None; }
    k := Some(Key(code.value, f.ctrl, f.alt, f.shift, f.cmd));
  }

  /** The key of a raw control byte; any other character stands for itself. */
  function RawChar(c: char): Key {
    var b := c as int;
    if b == 0x0d then Plain(Enter) else if b == 0x1b then Plain(Esc) else if b == 0x09 then Plain(Tab)
    else if b == 0x08 then Plain(Backspace)
    else if b <= 0x1f then Key(Char(LowerChar((b + 0x40) as char)), true, false, false, false)
    else Plain(Char(c))
  }

  /** The chords that share a byte with a named terminal key, as that key. */
  function Alias(k: Key): Key {
    if !k.ctrl || k.alt || k.shift || !k.code.Char? then k
    else match k.code.c
      case 'i' => Plain(Tab) case 'm' => Plain(Enter) case '[' => Plain(Esc) case 'h' => Plain(Backspace)
      case _ => k
  }

  /** A key, and how many characters of the text it takes. */
  datatype Taken = Taken(key: Key, length: nat)

  /** The first key of the text. */
  ghost function First(s: string, fold: bool): (t: Taken)
    requires s != ""
    ensures 1 <= t.length <= |s|
  {
    if s[0] != '<' then Taken(RawChar(s[0]), 1) else
      match Find(s, '>', 1)
      case None => Taken(Plain(Char('<')), 1)
      case Some(p) =>
        match Special(s[1..p])
        case None => Taken(Plain(Char('<')), 1)
        case Some(k) => Taken(if fold then Alias(k) else k, p + 1)
  }

  ghost predicate IsFirst(s: string, fold: bool, t: Taken) {
    s != "" && 1 <= t.length <= |s| && forall n: nat {:trigger Unseal(n)} | Unseal(n) :: t == First(s, fold)
  }

  /** `First`, which proofs look into only through `HeadIs`. */
  ghost function Head(s: string, fold: bool): (t: Taken)
    requires s != ""
    ensures 1 <= t.length <= |s|
  {
    assert IsFirst(s, fold, First(s, fold));
    var t: Taken :| IsFirst(s, fold, t);
    t
  }

  lemma HeadIs(s: string, fold: bool)
    requires s != ""
    ensures Head(s, fold) == First(s, fold)
  {
    assert IsFirst(s, fold, First(s, fold)) && Unseal(0);
  }

  /** The keys of the text from `i` on. */
  ghost function KeysFrom(s: string, i: nat, fold: bool): seq<Key>
    requires i <= |s|
    decreases |s| - i
  {
    if i == |s| then [] else
      var t := Head(s[i..], fold);
      [t.key] + KeysFrom(s, i + t.length, fold)
  }

  method FirstKey(rest: string, fold: bool) returns (t: Taken)
    requires rest != ""
    ensures t == Head(rest, fold)
  {
    HeadIs(rest, fold);
    if rest[0] == '<' {
      var end := Find(rest, '>', 1);
      if end.Some? {
        var key := ParseSpecial(rest[1..end.value]);
        if key.Some? { return Taken(if fold then Alias(key.value) else key.value, end.value + 1); }
      }
      return Taken(Plain(Char('<')), 1);
    }
    return Taken(RawChar(rest[0]), 1);
  }

  method ParseKeys(input: string, fold: bool) returns (out: seq<Key>)
    ensures out == KeysFrom(input, 0, fold)
  {
    out := [];
    var i := 0;
    while i < |input|
      invariant i <= |input| && out + KeysFrom(input, i, fold) == KeysFrom(input, 0, fold)
    {
      var t := FirstKey(input[i..], fold);
      var next := i + t.length;
      KeysStep(input, i, next, fold, t);
      Regrouped(out, t.key, KeysFrom(input, next, fold));
      out, i := out + [t.key], next;
    }
  }

  lemma KeysStep(s: string, i: nat, next: nat, fold: bool, t: Taken)
    requires i < |s| && t == Head(s[i..], fold) && next == i + t.length
    ensures next <= |s| && KeysFrom(s, i, fold) == [t.key] + KeysFrom(s, next, fold)
  {
  }

  lemma Regrouped(out: seq<Key>, k: Key, rest: seq<Key>)
    ensures out + ([k] + rest) == (out + [k]) + rest
  {
  }

  // ----- what a printed stem is read as ---------------------------------------------------

  lemma NoMouse(s: string)
    requires (forall i | 0 <= i < |s| :: s[i] != '-') && MouseNamed(s).None?
    ensures ParseMouse(s).None?
  {
    FindFirst(s, '-', 0, |s|);
  }

  lemma MeansCR(s: string)
    requires s == "CR"
    ensures CodeOf(s) == Some(Enter)
  {
    NoMouse(s);
    CodeOfIs(s);
  }

  lemma MeansEsc(s: string)
    requires s == "Esc"
    ensures CodeOf(s) == Some(Esc)
  {
    NoMouse(s);
    CodeOfIs(s);
  }

  lemma MeansTab(s: string)
    requires s == "Tab"
    ensures CodeOf(s) == Some(Tab)
  {
    NoMouse(s);
    CodeOfIs(s);
  }

  lemma MeansBS(s: string)
    requires s == "BS"
    ensures CodeOf(s) == Some(Backspace)
  {
    NoMouse(s);
    CodeOfIs(s);
  }

  lemma MeansDel(s: string)
    requires s == "Del"
    ensures CodeOf(s) == Some(Delete)
  {
    NoMouse(s);
    CodeOfIs(s);
  }

  lemma MeansSpace(s: string)
    requires s == "Space"
    ensures CodeOf(s) == Some(Char(' '))
  {
    NoMouse(s);
    CodeOfIs(s);
  }

  lemma MeansLt(s: string)
    requires s == "lt"
    ensures CodeOf(s) == Some(Char('<'))
  {
    NoMouse(s);
    CodeOfIs(s);
  }

  lemma MeansGt(s: string)
    requires s == "gt"
    ensures CodeOf(s) == Some(Char('>'))
  {
    NoMouse(s);
    CodeOfIs(s);
  }

  lemma MeansUp(s: string)
    requires s == "Up"
    ensures CodeOf(s) == Some(Up)
  {
    NoMouse(s);
    CodeOfIs(s);
  }

  lemma MeansDown(s: string)
    requires s == "Down"
    ensures CodeOf(s) == Some(Down)
  {
    NoMouse(s);
    CodeOfIs(s);
  }

  lemma MeansLeft(s: string)
    requires s == "Left"
    ensures CodeOf(s) == Some(Left)
  {
    NoMouse(s);
    CodeOfIs(s);
  }

  lemma MeansRight(s: string)
    requires s == "Right"
    ensures CodeOf(s) == Some(Right)
  {
    NoMouse(s);
    CodeOfIs(s);
  }

  lemma MeansHome(s: string)
    requires s == "Home"
    ensures CodeOf(s) == Some(Home)
  {
    NoMouse(s);
    CodeOfIs(s);
  }

  lemma MeansEnd(s: string)
    requires s == "End"
    ensures CodeOf(s) == Some(End)
  {
    NoMouse(s);
    CodeOfIs(s);
  }

  lemma MeansPageUp(s: string)
    requires s == "PageUp"
    ensures CodeOf(s) == Some(PageUp)
  {
    NoMouse(s);
    CodeOfIs(s);
  }

  lemma MeansPageDown(s: string)
    requires s == "PageDown"
    ensures CodeOf(s) == Some(PageDown)
  {
    NoMouse(s);
    CodeOfIs(s);
  }

  lemma MeansPasteStart(s: string)
    requires s == "PasteStart"
    ensures CodeOf(s) == Some(PasteStart)
  {
    NoMouse(s);
    CodeOfIs(s);
  }

  lemma MeansPasteEnd(s: string)
    requires s == "PasteEnd"
    ensures CodeOf(s) == Some(PasteEnd)
  {
    NoMouse(s);
    CodeOfIs(s);
  }

  lemma LongName(s: string)
    requires |s| >= 13
    ensures EditingKey(s).None? && MovingKey(s).None?
    ensures |s| >= 14 ==> MouseNamed(s).None?
  {
  }

  lemma MeansWheel(s: string, code: Code)
    requires |s| >= 13 && WheelKey(s) == Some(code) && MouseNamed(s).None? && forall i | 0 <= i < |s| :: s[i] != '-'
    ensures CodeOf(s) == Some(code)
  {
    LongName(s);
    NoMouse(s);
    CodeOfIs(s);
  }

  lemma IsWheelUp(s: string)
    requires s == "ScrollWheelUp"
    ensures WheelKey(s) == Some(ScrollWheel(WheelUp)) && forall i | 0 <= i < |s| :: s[i] != '-'
  {
  }

  lemma IsWheelDown(s: string)
    requires s == "ScrollWheelDown"
    ensures WheelKey(s) == Some(ScrollWheel(WheelDown)) && forall i | 0 <= i < |s| :: s[i] != '-'
  {
  }

  lemma IsWheelLeft(s: string)
    requires s == "ScrollWheelLeft"
    ensures WheelKey(s) == Some(ScrollWheel(WheelLeft)) && forall i | 0 <= i < |s| :: s[i] != '-'
  {
  }

  lemma IsWheelRight(s: string)
    requires s == "ScrollWheelRight"
    ensures WheelKey(s) == Some(ScrollWheel(WheelRight)) && forall i | 0 <= i < |s| :: s[i] != '-'
  {
  }

  lemma WheelIsNoMouse(dir: WheelDir)
    ensures MouseNamed(WheelName(dir)).None?
  {
  }

  /** No name ends in a digit. */
  lemma EndsInDigit(s: string)
    requires s != "" && IsDigit(s[|s| - 1])
    ensures EditingKey(s).None? && MovingKey(s).None? && WheelKey(s).None? && MouseNamed(s).None?
  {
    assert LowerChar(s[|s| - 1]) == s[|s| - 1];
  }

  /** The numeral reads as the number. */
  ghost predicate IsNumeral(d: string, n: Byte) {
    forall k: nat {:trigger Unseal(k)} | Unseal(k) :: d != "" && AllDigits(d) && Value(d) == n
  }

  lemma MeansFunction(d: string, n: Byte)
    requires IsNumeral(d, n)
    ensures CodeOf("F" + d) == Some(Function(n))
  {
    assert Unseal(0);
    MeansFunctionNumber(d, n);
  }

  lemma MeansFunctionNumber(d: string, n: Byte)
    requires d != "" && AllDigits(d) && Value(d) == n
    ensures CodeOf("F" + d) == Some(Function(n))
  {
    var s := "F" + d;
    assert s[1..] == d;
    assert forall i | 1 <= i < |s| :: s[i] == d[i - 1];
    EndsInDigit(s);
    NoMouse(s);
    CodeOfIs(s);
  }

  lemma MeansChar(c: char)
    ensures CodeOf([c]) == Some(Char(LowerChar(c)))
  {
    CodeOfIs([c]);
    FindFirst([c], '-', 0, if c == '-' then 0 else 1);
  }

  /** The button a mouse name is read back as. */
  function Pressable(b: Button): Button { match b case RightButton => b case MiddleButton => b case _ => LeftButton }

  lemma PressNameMeans(b: Button)
    ensures MouseNamed(MouseName(b, Press)) == Some((Pressable(b), Press))
  {
  }

  lemma DragNameMeans(b: Button)
    ensures MouseNamed(MouseName(b, Drag)) == Some((Pressable(b), Drag))
  {
  }

  lemma ReleaseNameMeans(b: Button)
    ensures MouseNamed(MouseName(b, Release)) == Some((Pressable(b), Release))
  {
  }

  lemma MouseNameHasNoDash(b: Button, kind: MouseKind)
    ensures forall i | 0 <= i < |MouseName(b, kind)| :: MouseName(b, kind)[i] != '-' && MouseName(b, kind)[i] != '>'
    ensures |MouseName(b, kind)| >= 2
  {
  }

  lemma MouseNamesMean(b: Button, kind: MouseKind)
    ensures MouseNamed(MouseName(b, kind)) == Some((Pressable(b), kind))
  {
    match kind { case Press => PressNameMeans(b); case Drag => DragNameMeans(b); case Release => ReleaseNameMeans(b); }
  }

  lemma MeansMouse(b: Button, kind: MouseKind, s: string)
    requires s == MouseName(b, kind)
    ensures CodeOf(s) == Some(Mouse(Pressable(b), 1, kind))
  {
    MouseNamesMean(b, kind);
    MouseNameHasNoDash(b, kind);
    FindFirst(s, '-', 0, |s|);
    CodeOfIs(s);
  }

  lemma StartsWithDigit(s: string)
    requires |s| >= 2 && IsDigit(s[0])
    ensures ParseCode(s).None?
  {
    assert LowerChar(s[0]) == s[0];
  }

  lemma MeansCounted(b: Button, clicks: Byte, d: string, s: string)
    requires clicks > 1 && IsNumeral(d, clicks) && s == d + "-" + MouseName(b, Press)
    ensures CodeOf(s) == if clicks <= 4 then Some(Mouse(Pressable(b), clicks, Press)) else None
  {
    assert Unseal(0);
    MeansCountedMouse(b, clicks, d, MouseName(b, Press), s);
  }

  lemma MeansCountedMouse(b: Button, clicks: Byte, d: string, name: string, s: string)
    requires clicks > 1 && d != "" && AllDigits(d) && Value(d) == clicks && name == MouseName(b, Press)
      && s == d + "-" + name
    ensures CodeOf(s) == if clicks <= 4 then Some(Mouse(Pressable(b), clicks, Press)) else None
  {
    MouseNamesMean(b, Press);
    assert s[..|d|] == d && s[|d| + 1..] == name && s[|d|] == '-';
    assert forall i | 0 <= i < |d| :: s[i] == d[i];
    FindFirst(s, '-', 0, |d|);
    StartsWithDigit(s);
    CodeOfIs(s);
  }

  /** The code a bracketed form of the key is read back as. */
  function MeantBy(k: Key): Option<Code> {
    match k.code
    case Char(c) => Some(Char(if Named(k) then c else LowerChar(c)))
    case Mouse(button, clicks, kind) =>
      if kind == Press && clicks > 4 then None
      else Some(Mouse(Pressable(button), if kind == Press && clicks > 1 then clicks else 1, kind))
    case _ => Some(k.code)
  }

  lemma CharStemMeans(k: Key)
    requires k.code.Char?
    ensures CodeOf(Stem(k)) == MeantBy(k)
  {
    var s := Stem(k);
    if Named(k) {
      match k.code.c { case ' ' => MeansSpace(s); case '<' => MeansLt(s); case _ => MeansGt(s); }
    } else {
      MeansChar(k.code.c);
    }
  }

  lemma MouseStemMeans(k: Key)
    requires k.code.Mouse?
    ensures CodeOf(Stem(k)) == MeantBy(k)
  {
    var Mouse(b, clicks, kind) := k.code;
    if kind == Press && clicks > 1 {
      var d := NumeralOf(clicks);
      MeansCounted(b, clicks, d, d + "-" + MouseName(b, Press));
    } else {
      var name := MouseName(b, kind);
      UncountedStem(b, clicks, kind, k);
      MeansMouse(b, kind, name);
    }
  }

  lemma UncountedStem(b: Button, clicks: Byte, kind: MouseKind, k: Key)
    requires k.code == Mouse(b, clicks, kind) && !(kind == Press && clicks > 1)
    ensures Stem(k) == MouseName(b, kind)
  {
    assert "" + MouseName(b, kind) == MouseName(b, kind);
  }

  lemma WheelStemMeans(k: Key)
    requires k.code.ScrollWheel?
    ensures CodeOf(Stem(k)) == MeantBy(k)
  {
    var s := Stem(k);
    WheelIsNoMouse(k.code.dir);
    match k.code.dir {
      case WheelUp => IsWheelUp(s);
      case WheelDown => IsWheelDown(s);
      case WheelLeft => IsWheelLeft(s);
      case WheelRight => IsWheelRight(s);
    }
    MeansWheel(s, k.code);
  }

  lemma NumeralOf(n: Byte) returns (d: string)
    ensures d == Decimal(n) && IsNumeral(d, n)
  {
    d := Decimal(n);
    DecimalValue(n);
  }

  lemma FunctionStemMeans(k: Key)
    requires k.code.Function?
    ensures CodeOf(Stem(k)) == MeantBy(k)
  {
    var d := NumeralOf(k.code.n);
    MeansFunction(d, k.code.n);
  }

  /** A printed stem is read back as its own code, but for a character's case and a mouse key's button and count. */
  lemma StemMeans(k: Key)
    ensures CodeOf(Stem(k)) == MeantBy(k)
  {
    var s := Stem(k);
    match k.code {
      case Char(_) => CharStemMeans(k);
      case Enter => MeansCR(s);
      case Esc => MeansEsc(s);
      case Backspace => MeansBS(s);
      case Tab => MeansTab(s);
      case Delete => MeansDel(s);
      case Left => MeansLeft(s);
      case Right => MeansRight(s);
      case Up => MeansUp(s);
      case Down => MeansDown(s);
      case Home => MeansHome(s);
      case End => MeansEnd(s);
      case PageUp => MeansPageUp(s);
      case PageDown => MeansPageDown(s);
      case Function(_) => FunctionStemMeans(k);
      case Mouse(_, _, _) => MouseStemMeans(k);
      case PasteStart => MeansPasteStart(s);
      case PasteEnd => MeansPasteEnd(s);
      case ScrollWheel(_) => WheelStemMeans(k);
    }
  }

  // ----- the bracketed form ------------------------------------------------------------------

  predicate Bracketed(k: Key) { Named(k) || Modified(k) }

  /** Text that ends no form and starts with no modifier. */
  ghost predicate PlainStem(s: string) {
    s != "" && (forall i | 0 <= i < |s| :: s[i] != '>') && (|s| >= 2 ==> s[1] != '-' || IsDigit(s[0]))
  }

  lemma {:induction false} NumberedStemIsPlain(k: Key)
    requires k.code.Function? || k.code.Mouse?
    ensures PlainStem(Stem(k))
  {
    if k.code.Mouse? { MouseNameHasNoDash(k.code.button, k.code.kind); }
  }

  lemma EditingStemIsPlain(k: Key)
    requires Bracketed(k)
    requires k.code.Char? || k.code.Enter? || k.code.Esc? || k.code.Backspace? || k.code.Tab? || k.code.Delete?
    ensures PlainStem(Stem(k))
  {
  }

  lemma MovingStemIsPlain(k: Key)
    requires k.code.Left? || k.code.Right? || k.code.Up? || k.code.Down? || k.code.Home? || k.code.End?
      || k.code.PageUp? || k.code.PageDown?
    ensures PlainStem(Stem(k))
  {
  }

  lemma OtherStemIsPlain(k: Key)
    requires k.code.PasteStart? || k.code.PasteEnd? || k.code.ScrollWheel?
    ensures PlainStem(Stem(k))
  {
  }

  lemma StemIsPlain(k: Key)
    requires Bracketed(k)
    ensures PlainStem(Stem(k))
  {
    match k.code {
      case Function(_) => NumberedStemIsPlain(k);
      case Mouse(_, _, _) => NumberedStemIsPlain(k);
      case PasteStart => OtherStemIsPlain(k);
      case PasteEnd => OtherStemIsPlain(k);
      case ScrollWheel(_) => OtherStemIsPlain(k);
      case Char(_) => EditingStemIsPlain(k);
      case Enter => EditingStemIsPlain(k);
      case Esc => EditingStemIsPlain(k);
      case Backspace => EditingStemIsPlain(k);
      case Tab => EditingStemIsPlain(k);
      case Delete => EditingStemIsPlain(k);
      case _ => MovingStemIsPlain(k);
    }
  }

  lemma PeelOne(f: Form, p: string, rest: string)
    requires |p| == 2 && p[1] == '-' && f.rest == p + rest
    ensures p[0] == 'C' ==> Peel(f) == Some(f.(ctrl := true, rest := rest))
    ensures p[0] == 'A' ==> Peel(f) == Some(f.(alt := true, rest := rest))
    ensures p[0] == 'D' ==> Peel(f) == Some(f.(cmd := true, rest := rest))
    ensures p[0] == 'S' ==> Peel(f) == Some(f.(shift := true, rest := rest))
  {
    assert f.rest[0] == p[0] && f.rest[1] == p[1] && f.rest[2..] == rest;
  }

  /** The printed prefixes are peeled off one by one. */
  lemma StripPrinted(ctrl: bool, alt: bool, cmd: bool, shift: bool, stem: string)
    requires PlainStem(stem)
    ensures Strip(Form(false, false, false, false,
                       Prefix(ctrl, "C-") + (Prefix(alt, "A-") + (Prefix(cmd, "D-") + (Prefix(shift, "S-") + stem)))))
         == Form(ctrl, alt, shift, cmd, stem)
  {
    var s2 := Prefix(cmd, "D-") + (Prefix(shift, "S-") + stem);
    var s1 := Prefix(alt, "A-") + s2;
    var s0 := Prefix(ctrl, "C-") + s1;
    StripFlag(Form(false, false, false, false, s0), ctrl, "C-", s1, Form(ctrl, false, false, false, s1));
    StripFlag(Form(ctrl, false, false, false, s1), alt, "A-", s2, Form(ctrl, alt, false, false, s2));
    StripRest(ctrl, alt, cmd, shift, stem);
  }

  lemma StripRest(ctrl: bool, alt: bool, cmd: bool, shift: bool, stem: string)
    requires PlainStem(stem)
    ensures Strip(Form(ctrl, alt, false, false, Prefix(cmd, "D-") + (Prefix(shift, "S-") + stem)))
      == Form(ctrl, alt, shift, cmd, stem)
  {
    var s3 := Prefix(shift, "S-") + stem;
    var s2 := Prefix(cmd, "D-") + s3;
    StripFlag(Form(ctrl, alt, false, false, s2), cmd, "D-", s3, Form(ctrl, alt, false, cmd, s3));
    StripFlag(Form(ctrl, alt, false, cmd, s3), shift, "S-", stem, Form(ctrl, alt, shift, cmd, stem));
    assert Peel(Form(ctrl, alt, shift, cmd, stem)).None?;
  }

  lemma {:induction false} StripFlag(f: Form, on: bool, p: string, rest: string, g: Form)
    requires |p| == 2 && p[1] == '-' && p[0] in {'C', 'A', 'D', 'S'} && f.rest == Prefix(on, p) + rest && g.rest == rest
    requires g == if !on then f.(rest := rest) else
      match p[0] case 'C' => f.(ctrl := true, rest := rest) case 'A' => f.(alt := true, rest := rest)
                 case 'D' => f.(cmd := true, rest := rest) case _ => f.(shift := true, rest := rest)
    ensures Strip(f) == Strip(g)
  {
    if on {
      PeelOne(f, p, rest);
    } else {
      assert f.rest == rest;
    }
  }

  lemma PrefixesApart(k: Key)
    ensures Prefixes(k) + Stem(k)
         == Prefix(k.ctrl, "C-")
           + (Prefix(k.alt, "A-") + (Prefix(k.cmd, "D-") + (Prefix(k.shift && Named(k), "S-") + Stem(k))))
  {
    RegroupRight(Prefix(k.ctrl, "C-"), Prefix(k.alt, "A-"), Prefix(k.cmd, "D-"), Prefix(k.shift && Named(k), "S-"),
      Stem(k));
  }

  lemma RegroupRight(a: string, b: string, c: string, d: string, e: string)
    ensures (a + (b + (c + d))) + e == a + (b + (c + (d + e)))
  {
  }

  /** What a printed key is read back as; None when its form is not understood. */
  function ReadBack(k: Key): Option<Key> {
    if !Bracketed(k) && k.code.Char? then Some(RawChar(k.code.c)) else
      match MeantBy(k) case None => None case Some(c) => Some(Key(c, k.ctrl, k.alt, k.shift && Named(k), k.cmd))
  }

  lemma InnerReadBack(k: Key)
    requires Bracketed(k)
    ensures Special(Prefixes(k) + Stem(k)) == ReadBack(k)
  {
    StemIsPlain(k);
    PrefixesApart(k);
    StripPrinted(k.ctrl, k.alt, k.cmd, k.shift && Named(k), Stem(k));
    StemMeans(k);
  }

  lemma PrefixesHaveNoBracket(k: Key)
    ensures forall i | 0 <= i < |Prefixes(k)| :: Prefixes(k)[i] != '>'
  {
  }

  lemma HeadOfBracket(inner: string, rest: string, fold: bool)
    requires forall i | 0 <= i < |inner| :: inner[i] != '>'
    ensures var h := Head("<" + (inner + ">") + rest, fold);
      match Special(inner)
      case None => h == Taken(Plain(Char('<')), 1)
      case Some(r) => h == Taken(if fold then Alias(r) else r, |inner| + 2)
  {
    HeadIs("<" + (inner + ">") + rest, fold);
    BracketEnds(inner, rest);
  }

  /** The first key of a printed key, whatever follows it. */
  lemma HeadOfNotation(k: Key, rest: string, fold: bool)
    ensures |Notation(k) + rest| > 0
    ensures var h := Head(Notation(k) + rest, fold);
      match ReadBack(k)
      case None => h == Taken(Plain(Char('<')), 1)
      case Some(r) => h == Taken(if fold && Bracketed(k) then Alias(r) else r, |Notation(k)|)
  {
    if Bracketed(k) {
      var inner := Prefixes(k) + Stem(k);
      InnerReadBack(k);
      StemIsPlain(k);
      PrefixesHaveNoBracket(k);
      HeadOfBracket(inner, rest, fold);
    } else {
      HeadOfBare(k, rest, fold);
    }
  }

  lemma HeadOfBare(k: Key, rest: string, fold: bool)
    requires !Bracketed(k)
    ensures k.code.Char? && Notation(k) == [k.code.c] && Head(Notation(k) + rest, fold) == Taken(RawChar(k.code.c), 1)
  {
    var s := [k.code.c] + rest;
    HeadIs(s, fold);
    assert s[0] == k.code.c;
  }

  lemma BracketEnds(inner: string, rest: string)
    requires forall i | 0 <= i < |inner| :: inner[i] != '>'
    ensures var s := "<" + (inner + ">") + rest;
      |s| == |inner| + 2 + |rest| && s[0] == '<' && Find(s, '>', 1) == Some(|inner| + 1) && s[1..|inner| + 1] == inner
  {
    var s := "<" + (inner + ">") + rest;
    assert s[1..|inner| + 1] == inner && s[|inner| + 1] == '>';
    assert forall i | 1 <= i < |inner| + 1 :: s[i] == inner[i - 1];
    FindFirst(s, '>', 1, |inner| + 1);
  }

  // ----- the round trip --------------------------------------------------------------------------

  /** The keys whose notation is read back as the key itself. */
  predicate Canonical(k: Key) {
    match k.code
    case Char(c) =>
      Named(k) || (!k.shift && if Modified(k) then !('A' <= c <= 'Z') else c as int > 0x1f)
    case Mouse(button, clicks, kind) =>
      Pressable(button) == button && (if kind == Press then 1 <= clicks <= 4 else clicks == 1)
    case _ => true
  }

  lemma CanonicalMeans(k: Key)
    ensures ReadBack(k) == Some(k) <==> Canonical(k)
  {
  }

  ghost predicate IsShown(k: Key, s: string) {
    s != "" && forall n: nat {:trigger Unseal(n)} | Unseal(n) :: s == Notation(k)
  }

  /** `Notation`, which proofs look into only through `ShownIs`. */
  ghost function Shown(k: Key): (s: string)
    ensures s != ""
  {
    NotationNotEmpty(k);
    assert IsShown(k, Notation(k));
    var s: string :| IsShown(k, s);
    s
  }

  lemma ShownIs(k: Key)
    ensures Shown(k) == Notation(k)
  {
    NotationNotEmpty(k);
    assert IsShown(k, Notation(k)) && Unseal(0);
  }

  lemma NotationNotEmpty(k: Key)
    ensures Notation(k) != ""
  {
  }

  /** The notations of the keys, one after the other. */
  ghost function Printed(ks: seq<Key>): string {
    if ks == [] then "" else Shown(ks[0]) + Printed(ks[1..])
  }

  function Folded(ks: seq<Key>, fold: bool): seq<Key> {
    if ks == [] then [] else [if fold then Alias(ks[0]) else ks[0]] + Folded(ks[1..], fold)
  }

  /** One canonical key is read off the front, whatever stands before and after it. */
  lemma KeyReads(before: string, k: Key, rest: string, fold: bool)
    requires Canonical(k)
    ensures var s := before + (Shown(k) + rest);
      var next := |before| + |Shown(k)|;
      next <= |s| && KeysFrom(s, |before|, fold) == [if fold then Alias(k) else k] + KeysFrom(s, next, fold)
  {
    ShownIs(k);
    var s := before + (Notation(k) + rest);
    assert s[|before|..] == Notation(k) + rest;
    CanonicalMeans(k);
    CanonicalBare(k, fold);
    HeadOfNotation(k, rest, fold);
    KeysStep(s, |before|, |before| + |Notation(k)|, fold, Head(s[|before|..], fold));
  }

  lemma {:induction false} PrintedReads(ks: seq<Key>, before: string, fold: bool)
    requires forall k | k in ks :: Canonical(k)
    ensures KeysFrom(before + Printed(ks), |before|, fold) == Folded(ks, fold)
    decreases |ks|
  {
    if ks == [] {
      assert before + Printed(ks) == before;
    } else {
      var (note, rest) := (Shown(ks[0]), Printed(ks[1..]));
      KeyReads(before, ks[0], rest, fold);
      PrintedReads(ks[1..], before + note, fold);
      JoinRight(before, note, rest);
    }
  }

  lemma JoinRight(a: string, b: string, c: string)
    ensures a + b + c == a + (b + c) && |a + b| == |a| + |b|
  {
  }

  lemma CanonicalBare(k: Key, fold: bool)
    requires Canonical(k)
    ensures !Bracketed(k) ==> Alias(k) == k
    ensures Notation(k) != ""
  {
  }

  /** Reading the notation of a list of canonical keys gives the list, with aliases folded if that is asked. */
  lemma PrintThenParse(ks: seq<Key>, fold: bool)
    requires forall k | k in ks :: Canonical(k)
    ensures KeysFrom(Printed(ks), 0, fold) == Folded(ks, fold)
    ensures !fold ==> Folded(ks, fold) == ks
  {
    UnfoldedIsSame(ks);
    PrintedReads(ks, "", fold);
    assert "" + Printed(ks) == Printed(ks);
  }

  lemma {:induction false} UnfoldedIsSame(ks: seq<Key>)
    ensures Folded(ks, false) == ks
  {
    if ks != [] { UnfoldedIsSame(ks[1..]); }
  }

  /** One key survives the raw round trip exactly when it is canonical. */
  lemma SurvivesIffCanonical(k: Key)
    ensures KeysFrom(Notation(k), 0, false) == [k] <==> Canonical(k)
  {
    var s := Notation(k);
    NotationNotEmpty(k);
    assert s + "" == s && s[0..] == s;
    HeadOfNotation(k, "", false);
    CanonicalMeans(k);
    var h := Head(s, false);
    KeysStep(s, 0, h.length, false, h);
    assert KeysFrom(s, 0, false)[0] == h.key;
    assert ReadBack(k).Some? ==> KeysFrom(s, h.length, false) == [];
  }

  /** A modifier other than Ctrl that the first key has and the second has not. */
  predicate LosesModifier(k: Key, folded: Key) {
    (k.alt && !folded.alt) || (k.shift && !folded.shift) || (k.cmd && !folded.cmd)
  }

  /** A chord that shares its byte with a named key. */
  predicate NamedChord(k: Key) {
    k.ctrl && !k.alt && !k.shift && k.code.Char? && k.code.c in {'i', 'm', '[', 'h'}
  }

  lemma FoldedReads(k: Key)
    requires Canonical(k)
    ensures KeysFrom(Notation(k), 0, true) == [Alias(k)]
  {
    PrintThenParse([k], true);
    assert [k][1..] == [];
    ShownIs(k);
    assert Printed([k]) == Shown(k) + "" == Notation(k);
    assert Folded([k], true) == [Alias(k)] + [];
  }

  lemma RawIsNoAlias(c: char)
    ensures Alias(RawChar(c)) == RawChar(c)
  {
  }

  /** The first key read with the fold is the alias of the one read without. */
  lemma HeadFolds(s: string)
    requires s != ""
    ensures Head(s, true) == Taken(Alias(Head(s, false).key), Head(s, false).length)
  {
    HeadIs(s, true);
    HeadIs(s, false);
    RawIsNoAlias(s[0]);
  }

  /** So are all keys of any text. */
  lemma {:induction false} FoldIsAlias(s: string, i: nat)
    requires i <= |s|
    ensures KeysFrom(s, i, true) == Folded(KeysFrom(s, i, false), true)
    decreases |s| - i
  {
    if i < |s| {
      HeadFolds(s[i..]);
      FoldIsAlias(s, i + Head(s[i..], false).length);
    }
  }

  lemma {:induction false} FoldedAt(ks: seq<Key>, j: nat)
    requires j < |ks|
    ensures |Folded(ks, true)| == |ks| && Folded(ks, true)[j] == Alias(ks[j])
  {
    if j > 0 { FoldedAt(ks[1..], j - 1); } else if |ks| > 1 { FoldedAt(ks[1..], 0); }
  }

  /**
   * In any text the fold gives another key exactly for the named chords, and drops a modifier
   * other than Ctrl exactly where such a chord has the command modifier too.
   */
  lemma FoldLoses(text: string, j: nat)
    requires j < |KeysFrom(text, 0, false)|
    ensures var (raw, folded) := (KeysFrom(text, 0, false), KeysFrom(text, 0, true));
      |folded| == |raw| && (folded[j] != raw[j] <==> NamedChord(raw[j]))
      && (LosesModifier(raw[j], folded[j]) <==> NamedChord(raw[j]) && raw[j].cmd)
  {
    FoldIsAlias(text, 0);
    FoldedAt(KeysFrom(text, 0, false), j);
  }

  /** So Ctrl-Cmd-i, which survives without the fold, is read with it as a plain Tab. */
  lemma FoldDropsCommand()
    ensures var k := Key(Char('i'), true, false, false, true);
      Canonical(k) && KeysFrom(Notation(k), 0, false) == [k] && KeysFrom(Notation(k), 0, true) == [Plain(Tab)]
  {
    var k := Key(Char('i'), true, false, false, true);
    SurvivesIffCanonical(k);
    FoldedReads(k);
  }
}
