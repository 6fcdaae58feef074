/**
 * A field list as rows: argument roles give way to their argument, types are folded into
 * the rows they annotate, and which text of the fields reaches the renderer.
 */
module RstFields {
  import opened Wrappers
  import opened RstLines
  import opened RstText
  import opened RstInline

  datatype Field = Field(name: string, body: string)

  const ARGUMENT_ROLES: set<string> :=
    {"param", "parameter", "arg", "argument", "key", "keyword", "raises", "raise", "except", "exception",
     "var", "ivar", "cvar"}

  const TYPE_ROLES: set<string> := {"type", "vartype"}

  const RETURN_ROLES: set<string> := {"returns", "return"}

  /** The key a return type is kept under, which no argument of a name is likely to be. */
  const RETURN_KEY: string := "\U{0}return"

  /** The name column's cap. */
  const MAX_NAME: nat := 24

  function SpaceAt(s: string, i: nat): (r: nat)
    requires i <= |s|
    ensures i <= r <= |s| && (forall k | i <= k < r :: !IsSpace(s[k])) && (r < |s| ==> IsSpace(s[r]))
    decreases |s| - i
  {
    if i == |s| || IsSpace(s[i]) then i else SpaceAt(s, i + 1)
  }

  function Role(name: string): string { name[..SpaceAt(name, 0)] }

  function Argument(name: string): string {
    var p := SpaceAt(name, 0);
    if p == |name| then "" else Trim(name[p + 1..])
  }

  /** A type annotates a row and has none of its own. */
  predicate IsType(f: Field) { Role(f.name) in TYPE_ROLES || Role(f.name) == "rtype" }

  function TypeKey(f: Field): string { if Role(f.name) in TYPE_ROLES then Argument(f.name) else RETURN_KEY }

  function RowKey(f: Field): string { if Role(f.name) in RETURN_ROLES then RETURN_KEY else Argument(f.name) }

  /** The role word is dropped, and its argument is the name. */
  predicate DropsRole(f: Field) { Role(f.name) in ARGUMENT_ROLES && Argument(f.name) != "" }

  function ShownName(f: Field): string { if DropsRole(f) then Argument(f.name) else f.name }

  /** A field as it is folded: a type with the key it annotates, or a row with the key it takes a type by. */
  datatype Entry = Entry(isType: bool, key: string, name: string, body: string)

  function EntryOf(f: Field): Entry {
    Entry(IsType(f), if IsType(f) then TypeKey(f) else RowKey(f), ShownName(f), f.body)
  }

  function Entries(fields: seq<Field>): (es: seq<Entry>)
    ensures |es| == |fields| && forall i | 0 <= i < |es| :: es[i] == EntryOf(fields[i])
  {
    seq(|fields|, i requires 0 <= i < |fields| => EntryOf(fields[i]))
  }

  predicate TypeFor(e: Entry, key: string) { e.isType && e.key == key }

  /** The first type from `i` on with the key. */
  function FirstType(es: seq<Entry>, key: string, i: nat): (r: Option<nat>)
    requires i <= |es|
    ensures r.Some? ==>
      i <= r.value < |es| && TypeFor(es[r.value], key) && forall k | i <= k < r.value :: !TypeFor(es[k], key)
    ensures r.None? ==> forall k | i <= k < |es| :: !TypeFor(es[k], key)
    decreases |es| - i
  {
    if i == |es| then None else if TypeFor(es[i], key) then Some(i) else FirstType(es, key, i + 1)
  }

  /** The type shown in the row with the key. */
  function Annotation(es: seq<Entry>, key: string): string {
    match FirstType(es, key, 0) case None => "" case Some(k) => es[k].body
  }

  datatype Row = Row(name: string, body: string)

  function WithType(name: string, ty: string): string { if ty == "" then name else name + " (" + ty + ")" }

  /** The rows of the first `n` fields. */
  function RowsTo(es: seq<Entry>, n: nat): seq<Row>
    requires n <= |es|
  {
    if n == 0 then [] else
      var (before, e) := (RowsTo(es, n - 1), es[n - 1]);
      if e.isType then before else before + [Row(WithType(e.name, Annotation(es, e.key)), e.body)]
  }

  function Rows(fields: seq<Field>): seq<Row> { RowsTo(Entries(fields), |fields|) }

  /** The name column: the widest of the first `n` names. */
  function WidestTo(rows: seq<Row>, n: nat): nat
    requires n <= |rows|
  {
    if n == 0 then 0 else Max(WidestTo(rows, n - 1), |rows[n - 1].name|)
  }

  function Spaces(n: nat): (s: string)
    ensures |s| == n && forall k | 0 <= k < n :: s[k] == ' '
  {
    seq(n, k => ' ')
  }

  /** What is written for a row. */
  function RowPieces(row: Row, width: nat): seq<Piece> {
    var pad := (if width > |row.name| then width - |row.name| else 0) + 2;
    [PlainRun("  "), Styled(StrongText, row.name), PlainRun(Spaces(pad))] + Rendered(row.body)
  }

  /** What is written for the first `n` rows. */
  function LinesTo(rows: seq<Row>, width: nat, n: nat): seq<Piece>
    requires n <= |rows|
  {
    if n == 0 then [] else LinesTo(rows, width, n - 1) + RowPieces(rows[n - 1], width)
  }

  function Written(fields: seq<Field>): seq<Piece> {
    var rows := Rows(fields);
    LinesTo(rows, Min(WidestTo(rows, |rows|), MAX_NAME), |rows|)
  }

  datatype Noted = Noted(key: string, text: string)

  /** The keys and texts of the types among the first `n` fields. */
  function TypesTo(es: seq<Entry>, n: nat): seq<Noted>
    requires n <= |es|
  {
    if n == 0 then [] else
      var (before, e) := (TypesTo(es, n - 1), es[n - 1]);
      if e.isType then before + [Noted(e.key, e.body)] else before
  }

  /** The first of a list of types under the key, if there is one. */
  function Look(types: seq<Noted>, key: string, n: nat): Option<string>
    requires n <= |types|
  {
    if n == 0 then None else
      var before := Look(types, key, n - 1);
      if before.Some? then before else if types[n - 1].key == key then Some(types[n - 1].text) else None
  }

  lemma {:induction false} LookPrefix(types: seq<Noted>, more: Noted, key: string, n: nat)
    requires n <= |types|
    ensures Look(types + [more], key, n) == Look(types, key, n)
  {
    if n > 0 { LookPrefix(types, more, key, n - 1); }
  }

  /** The list holds what is found among the first `n` fields. */
  lemma {:induction false} LookFinds(es: seq<Entry>, key: string, n: nat)
    requires n <= |es|
    ensures var found := FirstType(es, key, 0); var types := TypesTo(es, n);
      Look(types, key, |types|) == if found.Some? && found.value < n then Some(es[found.value].body) else None
  {
    if n > 0 {
      LookFinds(es, key, n - 1);
      var e := es[n - 1];
      if e.isType { LookPrefix(TypesTo(es, n - 1), Noted(e.key, e.body), key, |TypesTo(es, n - 1)|); }
    }
  }

  method EmitFields(fields: seq<Field>) returns (pieces: seq<Piece>)
    ensures pieces == Written(fields)
  {
    var es := Entries(fields);
    var types: seq<Noted> := [];
    for i := 0 to |es|
      invariant types == TypesTo(es, i)
    {
      if es[i].isType { types := types + [Noted(es[i].key, es[i].body)]; }
    }
    var rows := FoldTypes(es, types);
    if rows == [] { return []; }
    pieces := WriteRows(rows);
  }

  method FoldTypes(es: seq<Entry>, types: seq<Noted>) returns (rows: seq<Row>)
    requires types == TypesTo(es, |es|)
    ensures rows == RowsTo(es, |es|)
  {
    rows := [];
    for i := 0 to |es|
      invariant rows == RowsTo(es, i)
    {
      if es[i].isType { continue; }
      var ty := Look(types, es[i].key, |types|);
      LookFinds(es, es[i].key, |es|);
      rows := rows + [Row(WithType(es[i].name, if ty.Some? then ty.value else ""), es[i].body)];
    }
  }

  method WriteRows(rows: seq<Row>) returns (pieces: seq<Piece>)
    ensures pieces == LinesTo(rows, Min(WidestTo(rows, |rows|), MAX_NAME), |rows|)
  {
    var width := 0;
    for i := 0 to |rows|
      invariant width == WidestTo(rows, i)
    {
      width := Max(width, |rows[i].name|);
    }
    width := Min(width, MAX_NAME);
    pieces := [];
    for i := 0 to |rows|
      invariant pieces == LinesTo(rows, width, i)
    {
      var body := Inline(rows[i].body);
      var pad := (if width > |rows[i].name| then width - |rows[i].name| else 0) + 2;
      pieces := pieces + ([PlainRun("  "), Styled(StrongText, rows[i].name), PlainRun(Spaces(pad))] + body);
    }
  }

  // ----- which text is written -----------------------------------------------------------------

  /** The row of field `i` shows the type that field `k` is. */
  ghost predicate Annotates(es: seq<Entry>, k: nat, i: nat)
    requires k < |es| && i < |es|
  {
    !es[i].isType && FirstType(es, es[i].key, 0) == Some(k) && es[k].body != ""
  }

  /** No type before `k` has its key. */
  ghost predicate FirstOfKey(es: seq<Entry>, k: nat)
    requires k < |es|
  {
    forall j | 0 <= j < k :: !TypeFor(es[j], es[k].key)
  }

  /** Some row takes its type by the key. */
  ghost predicate HasRow(es: seq<Entry>, key: string) { exists i: nat | i < |es| :: !es[i].isType && es[i].key == key }

  /**
   * A type is shown, in some row, exactly when it has a text, no type before it has its key
   * and some row takes its type by it.
   */
  lemma TypeShownIff(es: seq<Entry>, k: nat)
    requires k < |es| && es[k].isType
    ensures (exists i: nat | i < |es| :: Annotates(es, k, i))
       <==> es[k].body != "" && FirstOfKey(es, k) && HasRow(es, es[k].key)
  {
    var key := es[k].key;
    assert TypeFor(es[k], key);
    if FirstOfKey(es, k) && HasRow(es, key) && es[k].body != "" {
      var i: nat :| i < |es| && !es[i].isType && es[i].key == key;
      assert FirstType(es, key, 0) == Some(k);
      assert Annotates(es, k, i);
    }
  }

  /** Nothing at all is written exactly when all fields are types. */
  lemma {:induction false} NothingWritten(es: seq<Entry>, n: nat)
    requires n <= |es|
    ensures RowsTo(es, n) == [] <==> forall i | 0 <= i < n :: es[i].isType
  {
    if n > 0 { NothingWritten(es, n - 1); }
  }

  lemma WordIsRole(name: string)
    requires forall k | 0 <= k < |name| :: !IsSpace(name[k])
    ensures Role(name) == name && Argument(name) == ""
  {
    assert SpaceAt(name, 0) == |name|;
  }

  /** A field list of a return type alone. */
  lemma LoneTypeIsLost()
    ensures Written([Field("rtype", "str")]) == []
  {
    var fields := [Field("rtype", "str")];
    WordIsRole("rtype");
    assert Entries(fields)[0].isType;
    NothingWritten(Entries(fields), 1);
  }

  // ----- role words in another case --------------------------------------------------------------

  const KNOWN_ROLES: set<string> := ARGUMENT_ROLES + TYPE_ROLES + RETURN_ROLES + {"rtype"}

  lemma {:induction false} LowerKeeps(s: string)
    requires forall k | 0 <= k < |s| :: 'a' <= s[k] <= 'z'
    ensures Lower(s) == s
    decreases |s|
  {
    if s != "" {
      var n := |s| - 1;
      LowerKeeps(s[..n]);
      assert s == s[..n] + [s[n]];
    }
  }

  ghost predicate LowerWord(s: string) { forall k | 0 <= k < |s| :: 'a' <= s[k] <= 'z' }

  lemma ArgumentRolesAreLower(role: string)
    requires role in ARGUMENT_ROLES
    ensures LowerWord(role)
  {
  }

  lemma OtherRolesAreLower(role: string)
    requires role in TYPE_ROLES + RETURN_ROLES + {"rtype"}
    ensures LowerWord(role)
  {
  }

  /** A role is known as it is written; lowercased, as documented, the same are unless another case of it is known. */
  lemma RoleCaseMatters(name: string)
    ensures (Role(name) in KNOWN_ROLES <==> Lower(Role(name)) in KNOWN_ROLES)
       <==> Lower(Role(name)) == Role(name) || Lower(Role(name)) !in KNOWN_ROLES
  {
    CaseMatters(Role(name));
  }

  lemma CaseMatters(role: string)
    ensures (role in KNOWN_ROLES <==> Lower(role) in KNOWN_ROLES)
       <==> Lower(role) == role || Lower(role) !in KNOWN_ROLES
  {
    if role in KNOWN_ROLES {
      if role in ARGUMENT_ROLES { ArgumentRolesAreLower(role); } else { OtherRolesAreLower(role); }
      LowerKeeps(role);
    }
  }

  lemma LowerOfCapital()
    ensures Lower("Param") == "param"
  {
    var s := "Param";
    assert s[..4] == "Para" && s[..4][..3] == "Par" && s[..4][..3][..2] == "Pa" && s[..4][..3][..2][..1] == "P";
    assert Lower("P") == "p";
    assert Lower("Pa") == "pa";
    assert Lower("Par") == "par";
    assert Lower("Para") == "para";
  }

  lemma CapitalIsUnknown(role: string)
    requires role != "" && 'A' <= role[0] <= 'Z'
    ensures role !in KNOWN_ROLES
  {
    if role in ARGUMENT_ROLES { ArgumentRolesAreLower(role); }
    else if role in KNOWN_ROLES { OtherRolesAreLower(role); }
  }

  lemma RoleBeforeSpace(name: string, p: nat)
    requires p < |name| && IsSpace(name[p]) && forall k | 0 <= k < p :: !IsSpace(name[k])
    ensures Role(name) == name[..p]
  {
    assert SpaceAt(name, 0) == p;
  }

  /** A role with a capital is not known, and its word is shown. */
  lemma CapitalRole()
    ensures Role("Param x") !in KNOWN_ROLES && Lower(Role("Param x")) in KNOWN_ROLES
    ensures ShownName(Field("Param x", "")) == "Param x"
  {
    RoleBeforeSpace("Param x", 5);
    assert "Param x"[..5] == "Param";
    LowerOfCapital();
    CapitalIsUnknown("Param");
    assert "param" in ARGUMENT_ROLES;
  }

  // ----- letters -------------------------------------------------------------------------------

  /** The letters of the first `n` fields, names before bodies. */
  function FieldLetters(fields: seq<Field>, n: nat): string
    requires n <= |fields|
  {
    if n == 0 then "" else FieldLetters(fields, n - 1) + (Letters(fields[n - 1].name) + Letters(fields[n - 1].body))
  }

  lemma FieldLettersNext(fields: seq<Field>, n: nat)
    requires n < |fields|
    ensures FieldLetters(fields, n + 1)
         == FieldLetters(fields, n) + (Letters(fields[n].name) + Letters(fields[n].body))
  {
  }

  /** No role word is dropped and no field is a type, so each row is its field. */
  ghost predicate Unfolded(fields: seq<Field>) {
    forall i | 0 <= i < |fields| :: !IsType(fields[i]) && !DropsRole(fields[i])
  }

  /** Letters of the first `n` bodies that inline markup drops. */
  function DroppedTo(fields: seq<Field>, n: nat): nat
    requires n <= |fields|
  {
    if n == 0 then 0 else DroppedTo(fields, n - 1) + (Roles(fields[n - 1].body) + Eaten(fields[n - 1].body))
  }

  lemma RowLetters(row: Row, width: nat)
    ensures LettersOf(RowPieces(row, width)) == Letters(row.name) + LettersOf(Rendered(row.body))
  {
    var pad := (if width > |row.name| then width - |row.name| else 0) + 2;
    var (a, b, c) := (PlainRun("  "), Styled(StrongText, row.name), PlainRun(Spaces(pad)));
    NoLetters("  ", 2);
    NoLetters(Spaces(pad), pad);
    assert [a, b, c] == [a] + [b] + [c];
    LettersOfOne(a);
    LettersOfOne(b);
    LettersOfOne(c);
    LettersOfJoin([a], [b]);
    LettersOfJoin([a] + [b], [c]);
    LettersOfJoin([a, b, c], Rendered(row.body));
    Appended(Letters(row.name), "", "");
  }

  lemma {:induction false} UnfoldedRows(es: seq<Entry>, n: nat)
    requires n <= |es| && forall i | 0 <= i < |es| :: !es[i].isType
    ensures |RowsTo(es, n)| == n
    ensures forall i | 0 <= i < n :: RowsTo(es, n)[i] == Row(es[i].name, es[i].body)
  {
    if n > 0 {
      UnfoldedRows(es, n - 1);
      assert FirstType(es, es[n - 1].key, 0).None?;
    }
  }

  lemma UnfoldedEntries(fields: seq<Field>)
    requires Unfolded(fields)
    ensures forall i | 0 <= i < |fields| ::
      !Entries(fields)[i].isType && Entries(fields)[i].name == fields[i].name
      && Entries(fields)[i].body == fields[i].body
  {
  }

  /** A row shows its letters but those inline markup drops of its body. */
  lemma RowIsShort(row: Row, width: nat)
    ensures Short(LettersOf(RowPieces(row, width)), Letters(row.name) + Letters(row.body),
                  Roles(row.body) + Eaten(row.body))
  {
    RowLetters(row, width);
    InlineLetters(row.body);
    ShortJoins(Letters(row.name), Letters(row.name), 0,
               LettersOf(Rendered(row.body)), Letters(row.body), Roles(row.body) + Eaten(row.body));
  }

  lemma {:induction false} LinesAreShort(fields: seq<Field>, rows: seq<Row>, width: nat, n: nat)
    requires n <= |fields| == |rows| && forall i | 0 <= i < |fields| :: rows[i] == Row(fields[i].name, fields[i].body)
    ensures Short(LettersOf(LinesTo(rows, width, n)), FieldLetters(fields, n), DroppedTo(fields, n))
  {
    if n == 0 {
      assert LettersOf([]) == "";
    } else {
      var (f, row, before) := (fields[n - 1], rows[n - 1], LinesTo(rows, width, n - 1));
      LinesAreShort(fields, rows, width, n - 1);
      LettersOfJoin(before, RowPieces(row, width));
      RowIsShort(row, width);
      FieldLettersNext(fields, n - 1);
      ShortJoins(LettersOf(before), FieldLetters(fields, n - 1), DroppedTo(fields, n - 1),
                 LettersOf(RowPieces(row, width)), Letters(f.name) + Letters(f.body), Roles(f.body) + Eaten(f.body));
    }
  }

  /** Fields that fold nothing show all their letters, in order, exactly when inline markup drops none of a body. */
  lemma UnfoldedLetters(fields: seq<Field>)
    requires Unfolded(fields)
    ensures Short(LettersOf(Written(fields)), FieldLetters(fields, |fields|), DroppedTo(fields, |fields|))
    ensures LettersOf(Written(fields)) == FieldLetters(fields, |fields|) <==> DroppedTo(fields, |fields|) == 0
  {
    var rows := Rows(fields);
    UnfoldedEntries(fields);
    UnfoldedRows(Entries(fields), |fields|);
    LinesAreShort(fields, rows, Min(WidestTo(rows, |rows|), MAX_NAME), |fields|);
  }

  // ----- how rows are named and laid out -----------------------------------------------------------

  /** White space nowhere. */
  ghost predicate IsWord(s: string) { s != "" && forall k | 0 <= k < |s| :: !IsSpace(s[k]) }

  /** A name as it is written, a role and what it is about, is read as such. */
  lemma RoleReadsBack(role: string, argument: string)
    requires IsWord(role) && IsWord(argument)
    ensures Role(role + " " + argument) == role && Argument(role + " " + argument) == argument
  {
    var name := role + " " + argument;
    assert SpaceAt(name, 0) == |role| by { assert name[|role|] == ' '; }
    assert name[|role| + 1..] == argument && name[..|role|] == role;
    assert Lead(argument) == 0 && Trim(argument) == argument;
  }

  lemma TwoRows(f: Field, t: Field, row: Row)
    requires !IsType(f) && IsType(t) && TypeKey(t) == RowKey(f)
    requires row == Row(WithType(ShownName(f), t.body), f.body)
    ensures Rows([f, t]) == [row] && Rows([t, f]) == [row]
  {
    OneTyped(f, t, row);
    OneTypedAfter(f, t, row);
  }

  lemma OneTyped(f: Field, t: Field, row: Row)
    requires !IsType(f) && IsType(t) && TypeKey(t) == RowKey(f)
    requires row == Row(WithType(ShownName(f), t.body), f.body)
    ensures Rows([f, t]) == [row]
  {
    var es := Entries([f, t]);
    assert FirstType(es, RowKey(f), 0) == Some(1);
    assert RowsTo(es, 0) == [] && RowsTo(es, 1) == [row];
  }

  lemma OneTypedAfter(f: Field, t: Field, row: Row)
    requires !IsType(f) && IsType(t) && TypeKey(t) == RowKey(f)
    requires row == Row(WithType(ShownName(f), t.body), f.body)
    ensures Rows([t, f]) == [row]
  {
    var es := Entries([t, f]);
    assert FirstType(es, RowKey(f), 0) == Some(0);
    assert RowsTo(es, 0) == [] && RowsTo(es, 1) == [];
  }

  lemma NamedByArgument(f: Field, x: string)
    requires Role(f.name) in ARGUMENT_ROLES && Argument(f.name) == x && IsWord(x)
    ensures !IsType(f) && RowKey(f) == x && ShownName(f) == x
  {
    var role := Role(f.name);
    assert role !in TYPE_ROLES && role !in RETURN_ROLES && role != "rtype";
  }

  lemma TypesArgument(t: Field, x: string)
    requires Role(t.name) in TYPE_ROLES && Argument(t.name) == x
    ensures IsType(t) && TypeKey(t) == x
  {
  }

  /** A described argument with its type, in either order, is one row, named by it with the type in parentheses. */
  lemma ParamWithType(role: string, kind: string, x: string, ty: string, body: string)
    requires role in ARGUMENT_ROLES && kind in TYPE_ROLES && IsWord(role) && IsWord(kind) && IsWord(x) && ty != ""
    ensures var (f, t) := (Field(role + " " + x, body), Field(kind + " " + x, ty));
      var row := Row(x + " (" + ty + ")", body); Rows([f, t]) == [row] && Rows([t, f]) == [row]
  {
    RoleReadsBack(role, x);
    RoleReadsBack(kind, x);
    NamedByArgument(Field(role + " " + x, body), x);
    TypesArgument(Field(kind + " " + x, ty), x);
    TwoRows(Field(role + " " + x, body), Field(kind + " " + x, ty), Row(x + " (" + ty + ")", body));
  }

  /** `:returns:` with `:rtype:` is one row too, which keeps its own name. */
  lemma ReturnsWithType(ty: string, body: string)
    requires ty != ""
    ensures var (f, t) := (Field("returns", body), Field("rtype", ty));
      var row := Row("returns" + " (" + ty + ")", body); Rows([f, t]) == [row] && Rows([t, f]) == [row]
  {
    WordIsRole("returns");
    WordIsRole("rtype");
    TwoRows(Field("returns", body), Field("rtype", ty), Row("returns" + " (" + ty + ")", body));
  }

  /** A field of an unknown role keeps its whole name. */
  lemma UnknownKeepsName(f: Field)
    requires Role(f.name) !in KNOWN_ROLES
    ensures Rows([f]) == [Row(f.name, f.body)]
  {
    var es := Entries([f]);
    assert FirstType(es, RowKey(f), 0) == None;
    assert RowsTo(es, 0) == [];
  }

  /** Cells of a row before its body, one to a character. */
  function BodyColumn(row: Row, width: nat): nat {
    |RowPieces(row, width)[0].text| + |RowPieces(row, width)[1].text| + |RowPieces(row, width)[2].text|
  }

  lemma {:induction false} WidestIsWidest(rows: seq<Row>, n: nat, i: nat)
    requires i < n <= |rows|
    ensures |rows[i].name| <= WidestTo(rows, n)
  {
    if i < n - 1 { WidestIsWidest(rows, n - 1, i); }
  }

  /** Bodies start in one column, past the widest name, but where a name is longer than the column may get. */
  lemma BodiesAlign(rows: seq<Row>, i: nat)
    requires i < |rows|
    ensures var widest := WidestTo(rows, |rows|);
      BodyColumn(rows[i], Min(widest, MAX_NAME)) == 4 + if |rows[i].name| <= 24 then Min(widest, 24) else |rows[i].name|
  {
    WidestIsWidest(rows, |rows|, i);
  }
}
