/**
 * Loading a file's text into the rope's LF convention and writing it back: which line
 * breaks a file uses, whether its last line was terminated, and when the round trip is
 * the identity.
 */
module LineEndings {
  import opened Wrappers
  import opened T = Text

  const CR: char := '\r'

  datatype FileFormat = Unix | Dos | Mac

  predicate IsBreak(c: char) { c == LF || c == CR }

  /** The first line break from `i` on is at `k`. */
  ghost predicate FirstBreak(t: Text, i: nat, k: nat) {
    i <= k < |t| && IsBreak(t[k]) && forall j | i <= j < k :: !IsBreak(t[j])
  }

  /** The convention a line break at `k` speaks for. */
  function FormatAt(t: Text, k: nat): FileFormat
    requires k < |t|
  {
    if t[k] == LF then Unix else if k + 1 < |t| && t[k + 1] == LF then Dos else Mac
  }

  /** The first line break decides; a text without one is Unix. */
  function Detected(t: Text, i: nat): (ff: FileFormat)
    requires i <= |t|
    ensures forall k | FirstBreak(t, i, k) :: ff == FormatAt(t, k)
    ensures (forall j | i <= j < |t| :: !IsBreak(t[j])) ==> ff == Unix
    decreases |t| - i
  {
    if i == |t| then Unix
    else if t[i] == CR then (if i + 1 < |t| && t[i + 1] == LF then Dos else Mac)
    else if t[i] == LF then Unix
    else Detected(t, i + 1)
  }

  method DetectFileformat(t: Text) returns (ff: FileFormat)
    ensures ff == Detected(t, 0)
  {
    var i := 0;
    while i < |t|
      invariant i <= |t| && Detected(t, i) == Detected(t, 0)
    {
      if t[i] == CR {
        return if i + 1 < |t| && t[i + 1] == LF then Dos else Mac;
      }
      if t[i] == LF { return Unix; }
      i := i + 1;
    }
    ff := Unix;
  }

  // ----- the library's string replacement -------------------------------------------

  /** Every CR LF pair becomes LF, scanning left to right. */
  function CrLfToLf(t: Text): Text {
    if |t| == 0 then []
    else if |t| >= 2 && t[0] == CR && t[1] == LF then [LF] + CrLfToLf(t[2..])
    else [t[0]] + CrLfToLf(t[1..])
  }

  /** Every occurrence of `c` becomes `rep`. */
  function ReplaceChar(t: Text, c: char, rep: Text): Text {
    if |t| == 0 then [] else (if t[0] == c then rep else [t[0]]) + ReplaceChar(t[1..], c, rep)
  }

  function NormalizeEol(t: Text, ff: FileFormat): Text {
    match ff
    case Unix => t
    case Dos => CrLfToLf(t)
    case Mac => ReplaceChar(t, CR, [LF])
  }

  function EndsWith(t: Text, c: char): bool { |t| > 0 && t[|t| - 1] == c }

  function EndsWithLineBreak(t: Text): bool { EndsWith(t, LF) || EndsWith(t, CR) }

  function EnsureTrailingNewline(t: Text): Text {
    if EndsWith(t, LF) then t else t + [LF]
  }

  // ----- load and save ----------------------------------------------------------------

  /** What a buffer remembers of the file beside its rope, which always ends in LF. */
  datatype Loaded = Loaded(rope: Text, fileformat: FileFormat, endofline: bool)

  function Load(t: Text): (b: Loaded)
    ensures EndsWith(b.rope, LF)
    ensures b.endofline <==> |t| > 0 && t[|t| - 1] in {LF, CR}
    ensures forall k | FirstBreak(t, 0, k) :: b.fileformat == FormatAt(t, k)
    ensures LF !in t && CR !in t ==> b.fileformat == Unix
  {
    var ff := Detected(t, 0);
    Loaded(EnsureTrailingNewline(NormalizeEol(t, ff)), ff, EndsWithLineBreak(t))
  }

  /** The rope, less the phantom final break when the file's last line had none. */
  function DocumentText(b: Loaded): Text
    requires EndsWith(b.rope, LF)
  {
    if b.endofline then b.rope else b.rope[..|b.rope| - 1]
  }

  function DocumentLen(b: Loaded): (n: nat)
    requires EndsWith(b.rope, LF)
    ensures n == |DocumentText(b)|
  {
    |b.rope| - if b.endofline then 0 else 1
  }

  function SaveText(b: Loaded, fixendofline: bool): Text
    requires EndsWith(b.rope, LF)
  {
    var text := DocumentText(b);
    if fixendofline && |text| > 0 && !EndsWith(text, LF) then text + [LF] else text
  }

  /** The line break of a convention. */
  function Break(ff: FileFormat): Text {
    match ff case Unix => [LF] case Dos => [CR, LF] case Mac => [CR]
  }

  function SaveBytes(b: Loaded, fixendofline: bool): Text
    requires EndsWith(b.rope, LF)
  {
    match b.fileformat
    case Unix => SaveText(b, fixendofline)
    case Dos => ReplaceChar(SaveText(b, fixendofline), LF, [CR, LF])
    case Mac => ReplaceChar(SaveText(b, fixendofline), LF, [CR])
  }

  /** What `'endofline'` becomes once the bytes are written. */
  function WrittenEndofline(b: Loaded, fixendofline: bool): bool
    requires EndsWith(b.rope, LF)
  {
    b.endofline || (fixendofline && DocumentLen(b) > 0)
  }

  // ----- the round trip ---------------------------------------------------------------

  /** A LF that no CR precedes. */
  ghost predicate HasLoneLf(t: Text) {
    exists i | 0 <= i < |t| :: t[i] == LF && (i == 0 || t[i - 1] != CR)
  }

  /**
   * The text keeps to the convention its first line break announces: in a Dos file every
   * LF follows a CR, in a Mac file there is no LF, and no file but a Mac one ends in CR.
   */
  ghost predicate KeepsToItsConvention(t: Text) {
    match Detected(t, 0)
    case Unix => !EndsWith(t, CR)
    case Dos => !HasLoneLf(t) && !EndsWith(t, CR)
    case Mac => LF !in t
  }

  /** What saving a freshly loaded file should give: the file, terminated if asked and not empty. */
  function Expected(t: Text, fixendofline: bool): Text {
    if fixendofline && |t| > 0 && !EndsWithLineBreak(t) then t + Break(Detected(t, 0)) else t
  }

  lemma {:induction false} ReplaceAppend(s: Text, t: Text, c: char, rep: Text)
    ensures ReplaceChar(s + t, c, rep) == ReplaceChar(s, c, rep) + ReplaceChar(t, c, rep)
    decreases |s|
  {
    if |s| == 0 {
      assert s + t == t;
    } else {
      assert (s + t)[1..] == s[1..] + t;
      ReplaceAppend(s[1..], t, c, rep);
    }
  }

  lemma ReplaceCons(h: char, t: Text, c: char, rep: Text)
    ensures ReplaceChar([h] + t, c, rep) == (if h == c then rep else [h]) + ReplaceChar(t, c, rep)
  {
    assert ([h] + t)[1..] == t;
  }

  lemma MacUnit(h: char, rest: Text)
    ensures ReplaceChar(ReplaceChar([h] + rest, CR, [LF]), LF, [CR])
         == [if h == LF then CR else h] + ReplaceChar(ReplaceChar(rest, CR, [LF]), LF, [CR])
  {
    ReplaceCons(h, rest, CR, [LF]);
    ReplaceCons(if h == CR then LF else h, ReplaceChar(rest, CR, [LF]), LF, [CR]);
  }

  lemma ConsEqual(h: char, s: Text, g: char, t: Text)
    ensures [h] + s == [g] + t <==> h == g && s == t
  {
    assert ([h] + s)[1..] == s && ([g] + t)[1..] == t;
  }

  /** Forth to LF and back to CR: the identity exactly on texts without LF. */
  lemma {:induction false} MacRoundTrip(t: Text)
    ensures ReplaceChar(ReplaceChar(t, CR, [LF]), LF, [CR]) == t <==> LF !in t
    decreases |t|
  {
    if |t| > 0 {
      var rest := t[1..];
      assert t == [t[0]] + rest;
      MacRoundTrip(rest);
      MacUnit(t[0], rest);
      ConsEqual(if t[0] == LF then CR else t[0], ReplaceChar(ReplaceChar(rest, CR, [LF]), LF, [CR]), t[0], rest);
    }
  }

  lemma {:induction false} MacKeepsLastBreak(t: Text)
    ensures |ReplaceChar(t, CR, [LF])| == |t|
    ensures EndsWith(ReplaceChar(t, CR, [LF]), LF) <==> EndsWithLineBreak(t)
    decreases |t|
  {
    if |t| > 0 { MacKeepsLastBreak(t[1..]); }
  }

  /** Where `CrLfToLf` splits a text: the length of its first character or CR LF pair. */
  function FirstUnit(t: Text): (n: nat)
    requires |t| > 0
    ensures 1 <= n <= |t|
  {
    if |t| >= 2 && t[0] == CR && t[1] == LF then 2 else 1
  }

  lemma PairRoundTrip(rest: Text)
    ensures ReplaceChar(CrLfToLf([CR, LF] + rest), LF, [CR, LF])
         == [CR, LF] + ReplaceChar(CrLfToLf(rest), LF, [CR, LF])
  {
    var t := [CR, LF] + rest;
    assert t[2..] == rest;
    assert CrLfToLf(t) == [LF] + CrLfToLf(rest);
    ReplaceCons(LF, CrLfToLf(rest), LF, [CR, LF]);
  }

  lemma SingleRoundTrip(h: char, rest: Text)
    requires FirstUnit([h] + rest) == 1
    ensures ReplaceChar(CrLfToLf([h] + rest), LF, [CR, LF])
         == (if h == LF then [CR, LF] else [h]) + ReplaceChar(CrLfToLf(rest), LF, [CR, LF])
  {
    var t := [h] + rest;
    assert t[1..] == rest;
    assert CrLfToLf(t) == [h] + CrLfToLf(rest);
    ReplaceCons(h, CrLfToLf(rest), LF, [CR, LF]);
  }

  /** One unit there and back: only a lone LF does not come back as it was. */
  lemma UnitRoundTrip(t: Text)
    requires |t| > 0
    ensures
      var (n, there) := (FirstUnit(t), ReplaceChar(CrLfToLf(t[FirstUnit(t)..]), LF, [CR, LF]));
      ReplaceChar(CrLfToLf(t), LF, [CR, LF]) == (if t[0] == LF then [CR, LF] else t[..n]) + there
  {
    var n := FirstUnit(t);
    assert t == t[..n] + t[n..];
    if n == 2 {
      assert t[..n] == [CR, LF];
      PairRoundTrip(t[2..]);
    } else {
      assert t[..n] == [t[0]];
      SingleRoundTrip(t[0], t[1..]);
    }
  }

  /** Forth to LF and back to CR LF: the identity exactly when every LF follows a CR, and never shorter. */
  lemma {:induction false} DosRoundTrip(t: Text)
    ensures ReplaceChar(CrLfToLf(t), LF, [CR, LF]) == t <==> !HasLoneLf(t)
    ensures |ReplaceChar(CrLfToLf(t), LF, [CR, LF])| >= |t|
    decreases |t|
  {
    if |t| > 0 {
      var n := FirstUnit(t);
      UnitRoundTrip(t);
      DosRoundTrip(t[n..]);
      LoneLfSkips(t, n);
      var v := ReplaceChar(CrLfToLf(t[n..]), LF, [CR, LF]);
      assert t == t[..n] + t[n..];
      if t[0] == LF {
        assert ([CR, LF] + v)[0] == CR;
      } else {
        assert t[..n] + v == t <==> v == t[n..] by { assert (t[..n] + v)[n..] == v; }
      }
    }
  }

  lemma {:induction false} CrLfKeepsLastLf(t: Text)
    ensures EndsWith(CrLfToLf(t), LF) <==> EndsWith(t, LF)
    ensures |t| > 0 ==> |CrLfToLf(t)| > 0
    decreases |t|
  {
    if |t| > 0 { CrLfKeepsLastLf(t[FirstUnit(t)..]); }
  }

  /** A lone LF is at the start or beyond the first character or CR LF pair. */
  lemma LoneLfSkips(t: Text, n: nat)
    requires |t| > 0 && n == FirstUnit(t)
    ensures HasLoneLf(t) <==> t[0] == LF || HasLoneLf(t[n..])
  {
    var rest := t[n..];
    if HasLoneLf(t) && t[0] != LF {
      var i :| 0 <= i < |t| && t[i] == LF && (i == 0 || t[i - 1] != CR);
      assert rest[i - n] == LF;
    }
    if HasLoneLf(rest) {
      var j :| 0 <= j < |rest| && rest[j] == LF && (j == 0 || rest[j - 1] != CR);
      assert t[j + n] == LF;
      assert j > 0 ==> t[j + n - 1] == rest[j - 1];
    }
  }

  lemma {:induction false} DetectedMeans(t: Text, i: nat)
    requires i <= |t| && forall k | 0 <= k < i :: t[k] != CR && t[k] != LF
    ensures Detected(t, i) != Unix ==> CR in t
    ensures Detected(t, i) == Unix && LF !in t ==> CR !in t
    decreases |t| - i
  {
    if i < |t| && t[i] != CR && t[i] != LF { DetectedMeans(t, i + 1); }
  }

  /**
   * Loading a file and saving it gives the file back, with at most the one terminator
   * `'fixendofline'` supplies to a non-empty unterminated text, exactly when the file
   * keeps to its own line-ending convention.
   */
  lemma LoadThenSave(t: Text, fixendofline: bool)
    ensures SaveBytes(Load(t), fixendofline) == Expected(t, fixendofline) <==> KeepsToItsConvention(t)
  {
    match Detected(t, 0)
    case Unix => UnixLoadThenSave(t, fixendofline);
    case Dos => DosLoadThenSave(t, fixendofline);
    case Mac => MacLoadThenSave(t, fixendofline);
  }

  lemma UnixLoadThenSave(t: Text, fixendofline: bool)
    requires Detected(t, 0) == Unix
    ensures SaveBytes(Load(t), fixendofline) == Expected(t, fixendofline) <==> !EndsWith(t, CR)
  {
    assert |t| > 0 && EndsWith(t, LF) ==> EnsureTrailingNewline(t) == t;
    assert !EndsWith(t, LF) ==> (t + [LF])[..|t|] == t;
  }

  lemma DosLoadThenSave(t: Text, fixendofline: bool)
    requires Detected(t, 0) == Dos
    ensures SaveBytes(Load(t), fixendofline) == Expected(t, fixendofline) <==> !HasLoneLf(t) && !EndsWith(t, CR)
  {
    DosRoundTrip(t);
    CrLfKeepsLastLf(t);
    DetectedMeans(t, 0);
    var u := CrLfToLf(t);
    var v := ReplaceChar(u, LF, [CR, LF]);
    DosBreakAppended(u);
    if EndsWithLineBreak(t) {
      assert SaveBytes(Load(t), fixendofline) == if EndsWith(t, LF) then v else v + [CR, LF];
    } else {
      assert (u + [LF])[..|u|] == u;
      assert SaveBytes(Load(t), fixendofline) == if fixendofline then v + [CR, LF] else v;
      assert v + [CR, LF] == t + [CR, LF] <==> v == t by {
        assert (v + [CR, LF])[..|v|] == v && (t + [CR, LF])[..|t|] == t;
      }
    }
  }

  lemma DosBreakAppended(u: Text)
    ensures ReplaceChar(u + [LF], LF, [CR, LF]) == ReplaceChar(u, LF, [CR, LF]) + [CR, LF]
  {
    ReplaceAppend(u, [LF], LF, [CR, LF]);
    assert ReplaceChar([LF], LF, [CR, LF]) == [CR, LF];
  }

  lemma MacLoadThenSave(t: Text, fixendofline: bool)
    requires Detected(t, 0) == Mac
    ensures SaveBytes(Load(t), fixendofline) == Expected(t, fixendofline) <==> LF !in t
  {
    MacRoundTrip(t);
    MacKeepsLastBreak(t);
    DetectedMeans(t, 0);
    var u := ReplaceChar(t, CR, [LF]);
    ReplaceAppend(u, [LF], LF, [CR]);
    assert ReplaceChar([LF], LF, [CR]) == [CR];
    assert (u + [LF])[..|u|] == u;
    var v := ReplaceChar(u, LF, [CR]);
    assert v + [CR] == t + [CR] <==> v == t by {
      assert (v + [CR])[..|v|] == v && (t + [CR])[..|t|] == t;
    }
  }

  /** An empty file stays empty, whatever `'fixendofline'` says. */
  lemma EmptyStaysEmpty(fixendofline: bool)
    ensures SaveBytes(Load([]), fixendofline) == []
  {
    LoadThenSave([], fixendofline);
  }

  /** A file that keeps to its convention is saved terminated exactly when the flag then says so. */
  lemma WrittenFlagIsTrue(t: Text, fixendofline: bool)
    requires KeepsToItsConvention(t)
    ensures WrittenEndofline(Load(t), fixendofline) <==> EndsWithLineBreak(SaveBytes(Load(t), fixendofline))
  {
    LoadThenSave(t, fixendofline);
    MacKeepsLastBreak(t);
    DosRoundTrip(t);
  }
}
