/**
 * Laying a parsed snippet out: the text it inserts, where each tabstop lies in it, which
 * default a bare stop shows, and when all places of one stop read the same.
 */
module SnippetLayout {
  import opened Wrappers
  import opened Sealed
  import opened Utf8
  import opened Snippet

  type Defaults = map<nat, string>

  /** A range of byte offsets into the text. */
  datatype Span = Span(start: nat, end: nat)

  function Shown(d: Defaults, index: nat): string { if index in d then d[index] else "" }

  /** What a stop or a text renders under the defaults known. */
  function RenderNode(n: Node, d: Defaults): string
    decreases n
  {
    match n
    case Text(s) => s
    case Stop(index, body, choices) =>
      if choices != [] then choices[0] else if body != [] then Render(body, d) else Shown(d, index)
  }

  function Render(nodes: seq<Node>, d: Defaults): string
    decreases nodes
  {
    if nodes == [] then "" else RenderNode(nodes[0], d) + Render(nodes[1..], d)
  }

  function InsertIfAbsent<T>(m: map<nat, T>, k: nat, v: T): map<nat, T> { if k in m then m else m[k := v] }

  /** The defaults after one node: its own content first, then those its body defines. */
  function ResolveNode(n: Node, d: Defaults): Defaults
    decreases n
  {
    match n
    case Text(_) => d
    case Stop(index, body, choices) =>
      var d' := if choices != [] then InsertIfAbsent(d, index, choices[0])
                else if body != [] then InsertIfAbsent(d, index, Render(body, d))
                else d;
      Resolve(body, d')
  }

  function Resolve(nodes: seq<Node>, d: Defaults): Defaults
    decreases nodes
  {
    if nodes == [] then d else Resolve(nodes[1..], ResolveNode(nodes[0], d))
  }

  method ResolveDefaults(nodes: seq<Node>, defaults: Defaults) returns (d: Defaults)
    ensures d == Resolve(nodes, defaults)
    decreases nodes
  {
    d := defaults;
    for i := 0 to |nodes|
      invariant Resolve(nodes[i..], d) == Resolve(nodes, defaults)
    {
      var rest := nodes[i..];
      assert rest[0] == nodes[i] && rest[1..] == nodes[i + 1..];
      ghost var before := d;
      match nodes[i] {
        case Text(_) =>
        case Stop(index, body, choices) =>
          if choices != [] {
            d := InsertIfAbsent(d, index, choices[0]);
          } else if body != [] {
            var s := RenderDefault(body, d, "");
            d := InsertIfAbsent(d, index, s);
          }
          assert "" + Render(body, before) == Render(body, before);
          d := ResolveDefaults(body, d);
      }
      assert d == ResolveNode(nodes[i], before);
    }
  }

  method RenderDefault(nodes: seq<Node>, d: Defaults, before: string) returns (out: string)
    ensures out == before + Render(nodes, d)
    decreases nodes
  {
    out := before;
    for i := 0 to |nodes|
      invariant out + Render(nodes[i..], d) == before + Render(nodes, d)
    {
      var rest := nodes[i..];
      assert rest[0] == nodes[i] && rest[1..] == nodes[i + 1..];
      match nodes[i] {
        case Text(s) => out := out + s;
        case Stop(index, body, choices) =>
          if choices != [] {
            out := out + choices[0];
          } else if body != [] {
            out := RenderDefault(body, d, out);
          } else if index in d {
            out := out + d[index];
          }
      }
    }
  }

  // ----- the places of the stops ---------------------------------------------------------------

  /** One place of a stop, from byte to byte of the text; the `below` places before it in a list lie in its body. */
  datatype Place = Place(node: Node, start: nat, end: nat, below: nat)

  function NodePlaces(n: Node, d: Defaults, at: nat): seq<Place>
    decreases n
  {
    match n
    case Text(_) => []
    case Stop(index, body, choices) =>
      var inner := if choices == [] && body != [] then Places(body, d, at) else [];
      inner + [Place(n, at, at + Bytes(RenderNode(n, d)), |inner|)]
  }

  /** The places of the stops of nodes laid out from `at`, in the order they are recorded. */
  function Places(nodes: seq<Node>, d: Defaults, at: nat): seq<Place>
    decreases nodes
  {
    if nodes == [] then [] else NodePlaces(nodes[0], d, at) + Places(nodes[1..], d, at + Bytes(RenderNode(nodes[0], d)))
  }

  function Record(spans: map<nat, seq<Span>>, index: nat, span: Span): map<nat, seq<Span>> {
    spans[index := (if index in spans then spans[index] else []) + [span]]
  }

  ghost predicate AllStops(ps: seq<Place>) { forall i | 0 <= i < |ps| :: ps[i].node.Stop? }

  /** The span map after the first `n` of a list of places. */
  ghost function RecordTo(spans: map<nat, seq<Span>>, ps: seq<Place>, n: nat): map<nat, seq<Span>>
    requires AllStops(ps) && n <= |ps|
  {
    if n == 0 then spans else Record(RecordTo(spans, ps, n - 1), ps[n - 1].node.index,
      Span(ps[n - 1].start, ps[n - 1].end))
  }

  ghost function RecordAll(spans: map<nat, seq<Span>>, ps: seq<Place>): map<nat, seq<Span>>
    requires AllStops(ps)
  {
    RecordTo(spans, ps, |ps|)
  }

  lemma {:induction false} PlacesAreStops(nodes: seq<Node>, d: Defaults, at: nat)
    ensures AllStops(Places(nodes, d, at))
    decreases nodes, 1
  {
    if nodes != [] {
      NodePlacesAreStops(nodes[0], d, at);
      PlacesAreStops(nodes[1..], d, at + Bytes(RenderNode(nodes[0], d)));
    }
  }

  lemma {:induction false} NodePlacesAreStops(n: Node, d: Defaults, at: nat)
    ensures AllStops(NodePlaces(n, d, at))
    decreases n, 0
  {
    if n.Stop? && n.choices == [] && n.body != [] { PlacesAreStops(n.body, d, at); }
  }

  lemma {:induction false} RecordToPrefix(spans: map<nat, seq<Span>>, a: seq<Place>, b: seq<Place>, n: nat)
    requires AllStops(a) && AllStops(b) && n <= |a|
    ensures AllStops(a + b) && RecordTo(spans, a + b, n) == RecordTo(spans, a, n)
  {
    if n > 0 { RecordToPrefix(spans, a, b, n - 1); }
  }

  lemma {:induction false} RecordAllJoins(spans: map<nat, seq<Span>>, a: seq<Place>, b: seq<Place>, n: nat)
    requires AllStops(a) && AllStops(b) && n <= |b|
    ensures AllStops(a + b) && RecordTo(spans, a + b, |a| + n) == RecordTo(RecordAll(spans, a), b, n)
  {
    if n == 0 { RecordToPrefix(spans, a, b, |a|); } else { RecordAllJoins(spans, a, b, n - 1); }
  }

  /** The choices after the first `n` of a list of places: each stop keeps those of its first choice place. */
  ghost function ChoicesTo(choices: map<nat, seq<string>>, ps: seq<Place>, n: nat): map<nat, seq<string>>
    requires AllStops(ps) && n <= |ps|
  {
    if n == 0 then choices else
      var (before, node) := (ChoicesTo(choices, ps, n - 1), ps[n - 1].node);
      if node.choices != [] then InsertIfAbsent(before, node.index, node.choices) else before
  }

  ghost function ChoicesAll(choices: map<nat, seq<string>>, ps: seq<Place>): map<nat, seq<string>>
    requires AllStops(ps)
  {
    ChoicesTo(choices, ps, |ps|)
  }

  lemma {:induction false} ChoicesToPrefix(choices: map<nat, seq<string>>, a: seq<Place>, b: seq<Place>, n: nat)
    requires AllStops(a) && AllStops(b) && n <= |a|
    ensures AllStops(a + b) && ChoicesTo(choices, a + b, n) == ChoicesTo(choices, a, n)
  {
    if n > 0 { ChoicesToPrefix(choices, a, b, n - 1); }
  }

  lemma {:induction false} ChoicesAllJoins(choices: map<nat, seq<string>>, a: seq<Place>, b: seq<Place>, n: nat)
    requires AllStops(a) && AllStops(b) && n <= |b|
    ensures AllStops(a + b) && ChoicesTo(choices, a + b, |a| + n) == ChoicesTo(ChoicesAll(choices, a), b, n)
  {
    if n == 0 { ChoicesToPrefix(choices, a, b, |a|); } else { ChoicesAllJoins(choices, a, b, n - 1); }
  }

  // ----- the layout ------------------------------------------------------------------------------

  /** The text, spans and choices a layout appends to. */
  datatype State = State(text: string, spans: map<nat, seq<Span>>, choices: map<nat, seq<string>>)

  /** One step of the layout. */
  function AfterNode(n: Node, d: Defaults, s: State): State
    decreases n
  {
    match n
    case Text(t) => s.(text := s.text + t)
    case Stop(index, body, choices) =>
      var s' :=
        if choices != []
        then s.(text := s.text + choices[0], choices := InsertIfAbsent(s.choices, index, choices))
        else if body != [] then After(body, d, s)
        else s.(text := s.text + Shown(d, index));
      s'.(spans := Record(s'.spans, index, Span(Bytes(s.text), Bytes(s'.text))))
  }

  function After(nodes: seq<Node>, d: Defaults, s: State): State
    decreases nodes
  {
    if nodes == [] then s else After(nodes[1..], d, AfterNode(nodes[0], d, s))
  }

  class Layout {
    var text: string
    var spans: map<nat, seq<Span>>
    var choices: map<nat, seq<string>>

    ghost function Now(): State
      reads this
    {
      State(text, spans, choices)
    }

    constructor ()
      ensures Now() == State("", map[], map[])
    {
      text, spans, choices := "", map[], map[];
    }

    method LayOut(nodes: seq<Node>, d: Defaults)
      modifies this
      ensures Now() == After(nodes, d, old(Now()))
      decreases nodes, 1
    {
      ghost var before := Now();
      for i := 0 to |nodes|
        invariant After(nodes[i..], d, Now()) == After(nodes, d, before)
      {
        ghost var rest := nodes[i..];
        assert rest[0] == nodes[i] && rest[1..] == nodes[i + 1..];
        LayNode(nodes[i], d);
      }
    }

    method LayNode(n: Node, d: Defaults)
      modifies this
      ensures Now() == AfterNode(n, d, old(Now()))
      decreases n, 0
    {
      match n {
        case Text(s) => text := text + s;
        case Stop(index, body, ch) =>
          var start := Bytes(text);
          if ch != [] {
            text := text + ch[0];
            choices := InsertIfAbsent(choices, index, ch);
          } else if body != [] {
            LayOut(body, d);
          } else {
            if index in d { text := text + d[index]; }
            assert text == old(text) + Shown(d, index);
          }
          spans := Record(spans, index, Span(start, Bytes(text)));
      }
    }
  }

  /** The layout appends the rendering, records the places and keeps each stop's first choices. */
  ghost predicate Appended(before: State, after: State, text: string, ps: seq<Place>) {
    after.text == before.text + text && AllStops(ps) && after.spans == RecordAll(before.spans, ps)
    && after.choices == ChoicesAll(before.choices, ps)
  }

  /** `Appended`, which proofs look into only through `AppendsIs`. */
  ghost predicate Appends(before: State, after: State, text: string, ps: seq<Place>) {
    forall n: nat {:trigger Unseal(n)} | Unseal(n) :: Appended(before, after, text, ps)
  }

  lemma AppendsIs(before: State, after: State, text: string, ps: seq<Place>)
    ensures Appends(before, after, text, ps) <==> Appended(before, after, text, ps)
  {
    assert Unseal(0);
  }

  lemma AppendsJoins(a: State, b: State, c: State, s: string, t: string, ps: seq<Place>, qs: seq<Place>)
    requires Appends(a, b, s, ps) && Appends(b, c, t, qs)
    ensures Appends(a, c, s + t, ps + qs)
  {
    AppendsIs(a, b, s, ps);
    AppendsIs(b, c, t, qs);
    RecordAllJoins(a.spans, ps, qs, |qs|);
    ChoicesAllJoins(a.choices, ps, qs, |qs|);
    assert a.text + s + t == a.text + (s + t);
  }

  lemma AppendsLength(a: State, b: State, s: string, ps: seq<Place>)
    requires Appends(a, b, s, ps)
    ensures Bytes(b.text) == Bytes(a.text) + Bytes(s)
  {
    AppendsIs(a, b, s, ps);
    BytesJoin(a.text, s);
  }

  lemma AppendsNothing(s: State)
    ensures Appends(s, s, "", [])
  {
    assert s.text + "" == s.text;
  }

  lemma {:induction false} LayoutAppends(nodes: seq<Node>, d: Defaults, s: State)
    ensures Appends(s, After(nodes, d, s), Render(nodes, d), Places(nodes, d, Bytes(s.text)))
    decreases nodes, 1
  {
    if nodes == [] {
      AppendsNothing(s);
    } else {
      var n := nodes[0];
      var s' := AfterNode(n, d, s);
      NodeAppends(n, d, s);
      AppendsLength(s, s', RenderNode(n, d), NodePlaces(n, d, Bytes(s.text)));
      LayoutAppends(nodes[1..], d, s');
      AppendsJoins(s, s', After(nodes[1..], d, s'), RenderNode(n, d), Render(nodes[1..], d),
                   NodePlaces(n, d, Bytes(s.text)), Places(nodes[1..], d, Bytes(s'.text)));
    }
  }

  lemma {:induction false} NodeAppends(n: Node, d: Defaults, s: State)
    ensures Appends(s, AfterNode(n, d, s), RenderNode(n, d), NodePlaces(n, d, Bytes(s.text)))
    decreases n, 0
  {
    match n {
      case Text(t) =>
        AppendsIs(s, s.(text := s.text + t), t, []);
      case Stop(_, body, choices) =>
        if choices == [] && body != [] {
          LayoutAppends(body, d, s);
          BodyPlace(s, After(body, d, s), Render(body, d), Places(body, d, Bytes(s.text)), n);
        } else {
          LeafAppends(n, d, s);
        }
    }
  }

  /** The state once the stop's own span is recorded. */
  function Closed(s: State, s': State, n: Node): State
    requires n.Stop?
  {
    s'.(spans := Record(s'.spans, n.index, Span(Bytes(s.text), Bytes(s'.text))))
  }

  /** A body's places, and then the stop's own around them. */
  lemma BodyPlace(s: State, s': State, text: string, inner: seq<Place>, n: Node)
    requires n.Stop? && n.choices == [] && Appends(s, s', text, inner)
    ensures Appends(s, Closed(s, s', n), text, inner + [Place(n, Bytes(s.text), Bytes(s.text) + Bytes(text), |inner|)])
  {
    AppendsIs(s, s', text, inner);
    BytesJoin(s.text, text);
    var own := Place(n, Bytes(s.text), Bytes(s.text) + Bytes(text), |inner|);
    RecordToPrefix(s.spans, inner, [own], |inner|);
    ChoicesToPrefix(s.choices, inner, [own], |inner|);
    AppendsIs(s, Closed(s, s', n), text, inner + [own]);
  }

  /** A stop without a body that is laid out has its own place only. */
  lemma LeafPlace(s: State, s': State, text: string, n: Node)
    requires n.Stop? && s'.text == s.text + text && s'.spans == s.spans
    requires s'.choices == if n.choices != [] then InsertIfAbsent(s.choices, n.index, n.choices) else s.choices
    ensures Appends(s, Closed(s, s', n), text, [Place(n, Bytes(s.text), Bytes(s.text) + Bytes(text), 0)])
  {
    var ps := [Place(n, Bytes(s.text), Bytes(s.text) + Bytes(text), 0)];
    BytesJoin(s.text, text);
    assert RecordTo(s.spans, ps, 1) == Record(RecordTo(s.spans, ps, 0), n.index, Span(Bytes(s.text), Bytes(s'.text)));
    assert ChoicesTo(s.choices, ps, 0) == s.choices;
    AppendsIs(s, Closed(s, s', n), text, ps);
  }

  lemma LeafAppends(n: Node, d: Defaults, s: State)
    requires n.Stop? && (n.choices != [] || n.body == [])
    ensures Appends(s, AfterNode(n, d, s), RenderNode(n, d), NodePlaces(n, d, Bytes(s.text)))
  {
    var text := if n.choices != [] then n.choices[0] else Shown(d, n.index);
    var s' :=
      if n.choices != []
      then s.(text := s.text + text, choices := InsertIfAbsent(s.choices, n.index, n.choices))
      else s.(text := s.text + text);
    LeafPlace(s, s', text, n);
    LeafPlaces(n, d, Bytes(s.text), text);
  }

  lemma LeafPlaces(n: Node, d: Defaults, at: nat, text: string)
    requires n.Stop? && (n.choices != [] || n.body == [])
      && text == if n.choices != [] then n.choices[0] else Shown(d, n.index)
    ensures RenderNode(n, d) == text && NodePlaces(n, d, at) == [Place(n, at, at + Bytes(text), 0)]
  {
  }

  // ----- nested or disjoint, as the tree is ---------------------------------------------------------

  /** Within `[lo, hi]`, each place holds the `below` places before it and follows all earlier ones. */
  ghost predicate Laminar(ps: seq<Place>, lo: nat, hi: nat) {
    (forall j | 0 <= j < |ps| :: lo <= ps[j].start <= ps[j].end <= hi && ps[j].below <= j)
    && forall i, j | 0 <= i < j < |ps| :: Apart(ps[i], ps[j], j - i)
  }

  /** A place and one `gap` later in the list: inside its body, or wholly before it. */
  predicate Apart(p: Place, q: Place, gap: nat) {
    if gap <= q.below then q.start <= p.start && p.end <= q.end else p.end <= q.start
  }

  lemma LaminarJoins(ps: seq<Place>, qs: seq<Place>, lo: nat, mid: nat, hi: nat)
    requires Laminar(ps, lo, mid) && Laminar(qs, mid, hi) && lo <= mid <= hi
    ensures Laminar(ps + qs, lo, hi)
  {
    var (all, n) := (ps + qs, |ps|);
    forall j | 0 <= j < |all| ensures lo <= all[j].start <= all[j].end <= hi && all[j].below <= j {
      assert all[j] == if j < n then ps[j] else qs[j - n];
    }
    forall i, j | 0 <= i < j < |all| ensures Apart(all[i], all[j], j - i) {
      if j < n { assert Apart(ps[i], ps[j], j - i); }
      else if i >= n { assert Apart(qs[i - n], qs[j - n], j - i); }
    }
  }

  /** The places of a layout lie inside its text and are nested or disjoint as the stops are in the tree. */
  lemma {:induction false} PlacesLaminar(nodes: seq<Node>, d: Defaults, at: nat)
    ensures Laminar(Places(nodes, d, at), at, at + Bytes(Render(nodes, d)))
    decreases nodes, 1
  {
    if nodes != [] {
      var mid := at + Bytes(RenderNode(nodes[0], d));
      BytesJoin(RenderNode(nodes[0], d), Render(nodes[1..], d));
      NodePlacesLaminar(nodes[0], d, at);
      PlacesLaminar(nodes[1..], d, mid);
      LaminarJoins(NodePlaces(nodes[0], d, at), Places(nodes[1..], d, mid), at, mid, at + Bytes(Render(nodes, d)));
    }
  }

  lemma {:induction false} NodePlacesLaminar(n: Node, d: Defaults, at: nat)
    ensures Laminar(NodePlaces(n, d, at), at, at + Bytes(RenderNode(n, d)))
    decreases n, 0
  {
    if n.Stop? && n.choices == [] && n.body != [] {
      PlacesLaminar(n.body, d, at);
      LaminarClosed(Places(n.body, d, at), n, at, at + Bytes(RenderNode(n, d)));
    }
  }

  lemma LaminarClosed(inner: seq<Place>, n: Node, lo: nat, hi: nat)
    requires Laminar(inner, lo, hi) && lo <= hi
    ensures Laminar(inner + [Place(n, lo, hi, |inner|)], lo, hi)
  {
    var all := inner + [Place(n, lo, hi, |inner|)];
    forall i, j | 0 <= i < j < |all| ensures Apart(all[i], all[j], j - i) {
      if j < |inner| { assert Apart(inner[i], inner[j], j - i); }
    }
  }

  // ----- what the places read --------------------------------------------------------------------------

  /** The text of a place is what its stop renders. */
  ghost predicate Reads(text: string, d: Defaults, p: Place) {
    Slice(text, p.start, p.end) == Some(RenderNode(p.node, d))
  }

  ghost predicate AllRead(text: string, d: Defaults, ps: seq<Place>) {
    forall j | 0 <= j < |ps| :: Reads(text, d, ps[j])
  }

  /** Text at `at`, whatever surrounds it, reads right at every place of the nodes. */
  lemma {:induction false} PlacesRead(nodes: seq<Node>, d: Defaults, before: string, after: string)
    ensures AllRead(before + Render(nodes, d) + after, d, Places(nodes, d, Bytes(before)))
    decreases nodes, 1
  {
    if nodes != [] {
      var (head, rest) := (RenderNode(nodes[0], d), Render(nodes[1..], d));
      var next := Bytes(before + head);
      BytesJoin(before, head);
      NodePlacesRead(nodes[0], d, before, rest + after);
      PlacesRead(nodes[1..], d, before + head, after);
      Regroup(before, head, rest, after);
      AllReadJoins(before + Render(nodes, d) + after, d, NodePlaces(nodes[0], d, Bytes(before)),
        Places(nodes[1..], d, next));
    }
  }

  lemma Regroup(a: string, b: string, c: string, e: string)
    ensures a + (b + c) + e == a + b + (c + e) == a + b + c + e
  {
  }

  lemma AllReadJoins(text: string, d: Defaults, ps: seq<Place>, qs: seq<Place>)
    requires AllRead(text, d, ps) && AllRead(text, d, qs)
    ensures AllRead(text, d, ps + qs)
  {
  }

  lemma {:induction false} NodePlacesRead(n: Node, d: Defaults, before: string, after: string)
    ensures AllRead(before + RenderNode(n, d) + after, d, NodePlaces(n, d, Bytes(before)))
    decreases n, 0
  {
    if n.Stop? && n.choices == [] && n.body != [] {
      PlacesRead(n.body, d, before, after);
      OwnPlaceReads(n, d, before, Render(n.body, d), after, Places(n.body, d, Bytes(before)));
    } else {
      LeafPlacesRead(n, d, before, after);
    }
  }

  lemma LeafPlacesRead(n: Node, d: Defaults, before: string, after: string)
    requires n.Text? || n.choices != [] || n.body == []
    ensures AllRead(before + RenderNode(n, d) + after, d, NodePlaces(n, d, Bytes(before)))
  {
    if n.Stop? {
      var s := if n.choices != [] then n.choices[0] else Shown(d, n.index);
      LeafPlaces(n, d, Bytes(before), s);
      OwnPlaceReads(n, d, before, s, after, []);
    }
  }

  lemma OwnPlaceReads(n: Node, d: Defaults, before: string, s: string, after: string, inner: seq<Place>)
    requires RenderNode(n, d) == s && AllRead(before + s + after, d, inner)
    ensures AllRead(before + s + after, d, inner + [Place(n, Bytes(before), Bytes(before) + Bytes(s), |inner|)])
  {
    SliceMiddle(before, s, after);
    AllReadJoins(before + s + after, d, inner, [Place(n, Bytes(before), Bytes(before) + Bytes(s), |inner|)]);
  }

  // ----- one stop, one text --------------------------------------------------------------------------------

  predicate Bare(n: Node) { n.Stop? && n.choices == [] && n.body == [] }

  /** Every place of the stop renders the same. */
  ghost predicate InSync(ps: seq<Place>, d: Defaults, index: nat) {
    forall i, j | 0 <= i < |ps| && 0 <= j < |ps| && IsAt(ps[i], index) && IsAt(ps[j], index) ::
      RenderNode(ps[i].node, d) == RenderNode(ps[j].node, d)
  }

  predicate IsAt(p: Place, index: nat) { p.node.Stop? && p.node.index == index }

  /** The stops with content, of a list of nodes at any depth. */
  function Contents(nodes: seq<Node>): set<nat>
    decreases nodes
  {
    if nodes == [] then {} else NodeContents(nodes[0]) + Contents(nodes[1..])
  }

  function NodeContents(n: Node): set<nat>
    decreases n
  {
    match n
    case Text(_) => {}
    case Stop(index, body, choices) => (if Bare(n) then {} else {index}) + Contents(body)
  }

  /** The bare stops a list of nodes shows, at any depth. */
  function Bares(nodes: seq<Node>): set<nat>
    decreases nodes
  {
    if nodes == [] then {} else NodeBares(nodes[0]) + Bares(nodes[1..])
  }

  function NodeBares(n: Node): set<nat>
    decreases n
  {
    match n
    case Text(_) => {}
    case Stop(index, body, choices) => if Bare(n) then {index} else if choices == [] then Bares(body) else {}
  }

  ghost predicate Extends(d: Defaults, f: Defaults) { forall k | k in d :: k in f && f[k] == d[k] }

  /** The stops that only `f` gives a default, and a default that shows nothing. */
  ghost predicate Silent(stops: set<nat>, known: set<nat>, f: Defaults) {
    forall k | k in stops && k in f && k !in known :: f[k] == ""
  }

  /** More defaults never make a text shorter, and keep it exactly when those it newly shows are empty. */
  lemma {:induction false} RenderGrows(nodes: seq<Node>, d: Defaults, f: Defaults)
    requires Extends(d, f)
    ensures |Render(nodes, d)| <= |Render(nodes, f)|
    ensures |Render(nodes, d)| == |Render(nodes, f)| <==> Silent(Bares(nodes), d.Keys, f)
    ensures Render(nodes, d) == Render(nodes, f) <==> Silent(Bares(nodes), d.Keys, f)
    decreases nodes, 1
  {
    if nodes != [] {
      NodeRenderGrows(nodes[0], d, f);
      RenderGrows(nodes[1..], d, f);
    }
  }

  lemma {:induction false} NodeRenderGrows(n: Node, d: Defaults, f: Defaults)
    requires Extends(d, f)
    ensures |RenderNode(n, d)| <= |RenderNode(n, f)|
    ensures |RenderNode(n, d)| == |RenderNode(n, f)| <==> Silent(NodeBares(n), d.Keys, f)
    ensures RenderNode(n, d) == RenderNode(n, f) <==> Silent(NodeBares(n), d.Keys, f)
    decreases n, 0
  {
    if n.Stop? {
      if Bare(n) {
        assert n.index in NodeBares(n);
      } else if n.choices == [] {
        RenderGrows(n.body, d, f);
      }
    }
  }

  /** Resolving only adds defaults, one for each stop with content. */
  lemma {:induction false} ResolveAdds(nodes: seq<Node>, d: Defaults)
    ensures Extends(d, Resolve(nodes, d)) && Resolve(nodes, d).Keys == d.Keys + Contents(nodes)
    decreases nodes, 1
  {
    if nodes != [] {
      ResolveNodeAdds(nodes[0], d);
      ResolveAdds(nodes[1..], ResolveNode(nodes[0], d));
    }
  }

  lemma {:induction false} ResolveNodeAdds(n: Node, d: Defaults)
    ensures Extends(d, ResolveNode(n, d)) && ResolveNode(n, d).Keys == d.Keys + NodeContents(n)
    decreases n, 0
  {
    if n.Stop? { ResolveAdds(n.body, OwnDefault(n, d)); }
  }

  /** The defaults once the stop's own content is known. */
  function OwnDefault(n: Node, d: Defaults): Defaults
    requires n.Stop?
  {
    if n.choices != [] then InsertIfAbsent(d, n.index, n.choices[0])
    else if n.body != [] then InsertIfAbsent(d, n.index, Render(n.body, d))
    else d
  }

  /** A stop given content, and the stops given content before it. */
  datatype Content = Content(node: Node, known: set<nat>)

  /** The first content of a stop in the order defaults are resolved, `known` being given before. */
  function FirstContent(nodes: seq<Node>, known: set<nat>, index: nat): Option<Content>
    decreases nodes
  {
    if nodes == [] then None else
      var c := NodeContent(nodes[0], known, index);
      if c.Some? then c else FirstContent(nodes[1..], known + NodeContents(nodes[0]), index)
  }

  function NodeContent(n: Node, known: set<nat>, index: nat): Option<Content>
    decreases n
  {
    if n.Text? || Bare(n) then None
    else if n.index == index then Some(Content(n, known))
    else FirstContent(n.body, known + {n.index}, index)
  }

  /** The nodes that give a stop content, at any depth. */
  ghost function ContentNodes(nodes: seq<Node>, index: nat): set<Node>
    decreases nodes
  {
    if nodes == [] then {} else NodeContentNodes(nodes[0], index) + ContentNodes(nodes[1..], index)
  }

  ghost function NodeContentNodes(n: Node, index: nat): set<Node>
    decreases n
  {
    if n.Text? || Bare(n) then {} else (if n.index == index then {n} else {}) + ContentNodes(n.body, index)
  }

  /** A stop's default is its first content, rendered under the defaults known before it. */
  lemma {:induction false} DefaultOf(nodes: seq<Node>, d: Defaults, index: nat) returns (e: Defaults)
    requires index !in d && FirstContent(nodes, d.Keys, index).Some?
    ensures var c := FirstContent(nodes, d.Keys, index).value; var f := Resolve(nodes, d);
      e.Keys == c.known && Extends(e, f) && index in f && f[index] == RenderNode(c.node, e)
    decreases nodes, 1
  {
    var d' := ResolveNode(nodes[0], d);
    ResolveNodeAdds(nodes[0], d);
    ResolveAdds(nodes[1..], d');
    NodeContentIff(nodes[0], d.Keys, index);
    if NodeContent(nodes[0], d.Keys, index).Some? {
      e := NodeDefaultOf(nodes[0], d, index);
    } else {
      e := DefaultOf(nodes[1..], d', index);
    }
  }

  lemma {:induction false} NodeDefaultOf(n: Node, d: Defaults, index: nat) returns (e: Defaults)
    requires index !in d && NodeContent(n, d.Keys, index).Some?
    ensures var c := NodeContent(n, d.Keys, index).value; var f := ResolveNode(n, d);
      e.Keys == c.known && Extends(e, f) && index in f && f[index] == RenderNode(c.node, e)
    decreases n, 0
  {
    var d' := OwnDefault(n, d);
    ResolveAdds(n.body, d');
    assert d'.Keys == d.Keys + {n.index};
    if n.index == index {
      e := d;
      assert index in d' && d'[index] == RenderNode(n, d);
    } else {
      e := DefaultOf(n.body, d', index);
    }
  }

  /** A stop has a first content exactly when it is given content. */
  lemma {:induction false} FirstContentIff(nodes: seq<Node>, known: set<nat>, index: nat)
    ensures FirstContent(nodes, known, index).Some? <==> index in Contents(nodes)
    decreases nodes, 1
  {
    if nodes != [] {
      NodeContentIff(nodes[0], known, index);
      FirstContentIff(nodes[1..], known + NodeContents(nodes[0]), index);
    }
  }

  lemma {:induction false} NodeContentIff(n: Node, known: set<nat>, index: nat)
    ensures NodeContent(n, known, index).Some? <==> index in NodeContents(n)
    decreases n, 0
  {
    if n.Stop? && !Bare(n) { FirstContentIff(n.body, known + {n.index}, index); }
  }

  /** The nodes of a stop's places. */
  ghost function NodesAt(ps: seq<Place>, index: nat): set<Node> {
    set p | p in ps && IsAt(p, index) :: p.node
  }

  lemma NodesAtJoins(ps: seq<Place>, qs: seq<Place>, index: nat)
    ensures NodesAt(ps + qs, index) == NodesAt(ps, index) + NodesAt(qs, index)
  {
    assert forall p :: p in ps + qs <==> p in ps || p in qs;
  }

  lemma OwnNodeAt(inner: seq<Place>, own: Place, index: nat)
    requires own.node.Stop?
    ensures NodesAt(inner + [own], index) == NodesAt(inner, index) + if own.node.index == index then {own.node} else {}
  {
    NodesAtJoins(inner, [own], index);
    assert NodesAt([own], index) == if own.node.index == index then {own.node} else {};
  }

  ghost function BareNode(bare: bool, index: nat): set<Node> { if bare then {Stop(index, [], [])} else {} }

  /** A stop's places are its bare ones and those that give it content. */
  lemma {:induction false} PlacesOf(nodes: seq<Node>, f: Defaults, at: nat, index: nat)
    requires Normal(nodes)
    ensures NodesAt(Places(nodes, f, at), index) == BareNode(index in Bares(nodes), index) + ContentNodes(nodes, index)
    decreases nodes, 1
  {
    if nodes != [] {
      var (n, rest) := (nodes[0], nodes[1..]);
      var next := at + Bytes(RenderNode(n, f));
      NodePlacesOf(n, f, at, index);
      PlacesOf(rest, f, next, index);
      NodesAtJoins(NodePlaces(n, f, at), Places(rest, f, next), index);
    }
  }

  lemma {:induction false} NodePlacesOf(n: Node, f: Defaults, at: nat, index: nat)
    requires NormalNode(n)
    ensures NodesAt(NodePlaces(n, f, at), index) == BareNode(index in NodeBares(n), index) + NodeContentNodes(n, index)
    decreases n, 0
  {
    if n.Stop? {
      var inner := if n.choices == [] && n.body != [] then Places(n.body, f, at) else [];
      var own := Place(n, at, at + Bytes(RenderNode(n, f)), |inner|);
      OwnNodeAt(inner, own, index);
      if !Bare(n) { PlacesOf(n.body, f, at, index); }
    }
  }

  /** A stop's first content is one of those that give it content, and there is one if any does. */
  lemma {:induction false} FirstIsContent(nodes: seq<Node>, known: set<nat>, index: nat)
    ensures var c := FirstContent(nodes, known, index);
      if c.Some? then c.value.node in ContentNodes(nodes, index) else ContentNodes(nodes, index) == {}
    decreases nodes, 1
  {
    if nodes != [] {
      NodeFirstIsContent(nodes[0], known, index);
      FirstIsContent(nodes[1..], known + NodeContents(nodes[0]), index);
    }
  }

  lemma {:induction false} NodeFirstIsContent(n: Node, known: set<nat>, index: nat)
    ensures var c := NodeContent(n, known, index);
      if c.Some? then c.value.node in NodeContentNodes(n, index) else NodeContentNodes(n, index) == {}
    decreases n, 0
  {
    if n.Stop? && !Bare(n) && n.index != index { FirstIsContent(n.body, known + {n.index}, index); }
  }

  /** The content renders the same whatever is resolved after it: it is a choice, or shows no later default. */
  ghost predicate Settled(c: Content, f: Defaults) {
    c.node.Stop? && (c.node.choices != [] || Silent(Bares(c.node.body), c.known, f))
  }

  lemma InSyncIff(ps: seq<Place>, f: Defaults, index: nat)
    ensures InSync(ps, f, index)
       <==> forall m, n | m in NodesAt(ps, index) && n in NodesAt(ps, index) :: RenderNode(m, f) == RenderNode(n, f)
  {
    if InSync(ps, f, index) {
      forall m, n | m in NodesAt(ps, index) && n in NodesAt(ps, index) ensures RenderNode(m, f) == RenderNode(n, f) {
        var p :| p in ps && IsAt(p, index) && p.node == m;
        var q :| q in ps && IsAt(q, index) && q.node == n;
        var i :| 0 <= i < |ps| && ps[i] == p;
        var j :| 0 <= j < |ps| && ps[j] == q;
      }
    }
    forall i | 0 <= i < |ps| && IsAt(ps[i], index) ensures ps[i].node in NodesAt(ps, index) {}
  }

  /** Every node that gives the stop content renders as the first that does. */
  ghost predicate ContentsAgree(nodes: seq<Node>, index: nat, first: Node, f: Defaults) {
    forall n | n in ContentNodes(nodes, index) :: RenderNode(n, f) == RenderNode(first, f)
  }

  /**
   * All places of a stop read the same exactly when it has no content, or all its contents
   * render as the first does and, if it has a bare place, that first content is a choice or
   * its body shows no stop that is given a non-empty default only by this content or after it.
   */
  lemma MirrorsInSync(nodes: seq<Node>, index: nat)
    requires Normal(nodes)
    ensures var f := Resolve(nodes, map[]); var c := FirstContent(nodes, {}, index);
      InSync(Places(nodes, f, 0), f, index) <==>
        (c.Some? ==> ContentsAgree(nodes, index, c.value.node, f) && (index in Bares(nodes) ==> Settled(c.value, f)))
  {
    var (f, c) := (Resolve(nodes, map[]), FirstContent(nodes, {}, index));
    var ps := Places(nodes, f, 0);
    PlacesOf(nodes, f, 0, index);
    FirstIsContent(nodes, {}, index);
    InSyncIff(ps, f, index);
    if c.Some? {
      ContentSettled(nodes, index);
      var bare := Stop(index, [], []);
      assert c.value.node in NodesAt(ps, index);
      assert index in Bares(nodes) ==> bare in NodesAt(ps, index);
      assert forall n | n in NodesAt(ps, index) ::
        n in ContentNodes(nodes, index) || (n == bare && index in Bares(nodes));
    }
  }

  /** A first content reads as its stop's default exactly when it is settled. */
  lemma ContentSettled(nodes: seq<Node>, index: nat)
    requires FirstContent(nodes, {}, index).Some?
    ensures var f := Resolve(nodes, map[]); var c := FirstContent(nodes, {}, index).value;
      RenderNode(c.node, f) == RenderNode(Stop(index, [], []), f) <==> Settled(c, f)
  {
    var none: Defaults := map[];
    assert none.Keys == {};
    var f := Resolve(nodes, none);
    var c := FirstContent(nodes, {}, index).value;
    var e := DefaultOf(nodes, none, index);
    ContentIsStop(nodes, {}, index);
    if c.node.choices == [] { RenderGrows(c.node.body, e, f); }
  }

  lemma {:induction false} ContentIsStop(nodes: seq<Node>, known: set<nat>, index: nat)
    requires FirstContent(nodes, known, index).Some?
    ensures var n := FirstContent(nodes, known, index).value.node; n.Stop? && n.index == index && !Bare(n)
    decreases nodes
  {
    var n := nodes[0];
    if NodeContent(n, known, index).None? {
      ContentIsStop(nodes[1..], known + NodeContents(n), index);
    } else if n.index != index {
      ContentIsStop(n.body, known + {n.index}, index);
    }
  }

  /** The body `${1:$2}$1${2:x}`: the first stop's content refers to one given later. */
  function Forward(): seq<Node> {
    [Stop(1, [Stop(2, [], [])], []), Stop(1, [], []), Stop(2, [Text("x")], [])]
  }

  lemma ForwardDefaults()
    ensures Resolve(Forward(), map[]) == map[1 := "", 2 := "x"]
  {
    var none: Defaults := map[];
    var (first, second, third) := (Forward()[0], Forward()[1], Forward()[2]);
    assert Forward()[1..] == [second, third] && [second, third][1..] == [third];
    assert Render(first.body, none) == "" by { assert first.body[1..] == []; }
    assert Render(third.body, map[1 := ""]) == "x" by { assert third.body[1..] == []; }
    assert ResolveNode(first, none) == map[1 := ""] by { assert first.body[1..] == []; }
    assert ResolveNode(second, map[1 := ""]) == map[1 := ""];
    assert ResolveNode(third, map[1 := ""]) == map[1 := "", 2 := "x"] by { assert third.body[1..] == []; }
  }

  lemma ForwardParses()
    ensures Parse(Print(Forward())) == Ok(Forward())
  {
    var (first, second, third) := (Forward()[0], Forward()[1], Forward()[2]);
    assert Forward()[1..] == [second, third] && [second, third][1..] == [third] && [third][1..] == [];
    assert first.body[1..] == [] && third.body[1..] == [];
    PrintThenParse(Forward());
  }

  /** Its first stop is out of sync: the bodied place reads x, the mirror is empty. */
  lemma ForwardOutOfSync()
    ensures Parse(Print(Forward())) == Ok(Forward())
    ensures var d := Resolve(Forward(), map[]); !InSync(Places(Forward(), d, 0), d, 1)
  {
    ForwardParses();
    ForwardDefaults();
    var d: Defaults := map[1 := "", 2 := "x"];
    var (first, second, third) := (Forward()[0], Forward()[1], Forward()[2]);
    assert Forward()[1..] == [second, third];
    assert Render(first.body, d) == "x" by { assert first.body[1..] == []; }
    var (here, next) := (NodePlaces(first, d, 0), Bytes(RenderNode(first, d)));
    assert |here| == 2 && here[1].node == first by { assert first.body[1..] == []; }
    var ps := Places(Forward(), d, 0);
    assert ps == here + Places([second, third], d, next);
    assert Places([second, third], d, next)[0].node == second;
    assert ps[1].node == first && ps[2].node == second;
  }

  /** The body `${1:a}${1:b}`: one stop given two contents, and nothing bare. */
  function Twice(): seq<Node> { [Stop(1, [Text("a")], []), Stop(1, [Text("b")], [])] }

  /** It parses, and its two places read differently: each shows its own content. */
  lemma TwiceOutOfSync()
    ensures Parse(Print(Twice())) == Ok(Twice()) && Bares(Twice()) == {}
    ensures var d := Resolve(Twice(), map[]); !InSync(Places(Twice(), d, 0), d, 1)
  {
    var (first, second) := (Twice()[0], Twice()[1]);
    assert Twice()[1..] == [second] && [second][1..] == [];
    assert first.body[1..] == [] && second.body[1..] == [];
    PrintThenParse(Twice());
    var d := Resolve(Twice(), map[]);
    assert RenderNode(first, d) == "a" && RenderNode(second, d) == "b";
    PlacesOf(Twice(), d, 0, 1);
    assert first in ContentNodes(Twice(), 1) && second in ContentNodes(Twice(), 1);
    InSyncIff(Places(Twice(), d, 0), d, 1);
  }

  // ----- the tabstops ------------------------------------------------------------------------------------------

  datatype TabStop = TabStop(index: nat, spans: seq<Span>, choices: seq<string>)

  /** The spans of one stop among the first `n` places, in the order they were recorded. */
  ghost function SpansAt(ps: seq<Place>, index: nat, n: nat): seq<Span>
    requires n <= |ps|
  {
    if n == 0 then [] else
      SpansAt(ps, index, n - 1) + if IsAt(ps[n - 1], index) then [Span(ps[n - 1].start, ps[n - 1].end)] else []
  }

  lemma {:induction false} RecordAllMeans(ps: seq<Place>, index: nat, n: nat)
    requires AllStops(ps) && n <= |ps|
    ensures var spans := RecordTo(map[], ps, n);
      if index in spans then spans[index] == SpansAt(ps, index, n) != [] else SpansAt(ps, index, n) == []
  {
    if n > 0 { RecordAllMeans(ps, index, n - 1); }
  }

  /** Library's stable sort: each element goes after those whose key is no greater. */
  function InsertBy<T>(x: T, s: seq<T>, key: T -> int): seq<T> {
    if s == [] || key(s[|s| - 1]) <= key(x) then s + [x] else InsertBy(x, s[..|s| - 1], key) + [s[|s| - 1]]
  }

  function SortBy<T>(s: seq<T>, key: T -> int): seq<T> {
    if s == [] then [] else InsertBy(s[|s| - 1], SortBy(s[..|s| - 1], key), key)
  }

  /** Ascending by key, and by rank among equal keys. */
  ghost predicate Ordered<T(!new)>(s: seq<T>, key: T -> int, rank: T -> int) {
    forall i, j | 0 <= i < j < |s| :: Precedes(s[i], s[j], key, rank)
  }

  ghost predicate Precedes<T(!new)>(a: T, b: T, key: T -> int, rank: T -> int) {
    key(a) < key(b) || (key(a) == key(b) && rank(a) <= rank(b))
  }

  lemma {:induction false} InsertByKeeps<T(!new)>(x: T, s: seq<T>, key: T -> int)
    ensures multiset(InsertBy(x, s, key)) == multiset(s) + multiset{x}
    decreases |s|
  {
    if s != [] && key(s[|s| - 1]) > key(x) {
      assert s == s[..|s| - 1] + [s[|s| - 1]];
      InsertByKeeps(x, s[..|s| - 1], key);
    }
  }

  lemma {:induction false} InsertByOrders<T(!new)>(x: T, s: seq<T>, key: T -> int, rank: T -> int)
    requires Ordered(s, key, rank) && forall y | y in s :: rank(y) <= rank(x)
    ensures Ordered(InsertBy(x, s, key), key, rank)
    decreases |s|
  {
    if s != [] && key(s[|s| - 1]) > key(x) {
      var (front, last) := (s[..|s| - 1], s[|s| - 1]);
      InsertByOrders(x, front, key, rank);
      InsertByKeeps(x, front, key);
      forall y | y in InsertBy(x, front, key) ensures Precedes(y, last, key, rank) {
        if y != x {
          assert y in multiset(InsertBy(x, front, key));
          assert y in multiset(front);
        }
      }
      OrderedAppend(InsertBy(x, front, key), last, key, rank);
    } else if s != [] {
      forall y | y in s ensures Precedes(y, x, key, rank) {
        assert y != s[|s| - 1] ==> Precedes(y, s[|s| - 1], key, rank);
      }
      OrderedAppend(s, x, key, rank);
    }
  }

  lemma OrderedAppend<T(!new)>(s: seq<T>, x: T, key: T -> int, rank: T -> int)
    requires Ordered(s, key, rank) && forall y | y in s :: Precedes(y, x, key, rank)
    ensures Ordered(s + [x], key, rank)
  {
  }

  /** The sort keeps the elements and, where keys are equal, their order of rank. */
  lemma {:induction false} SortByOrders<T(!new)>(s: seq<T>, key: T -> int, rank: T -> int)
    requires forall i, j | 0 <= i < j < |s| :: rank(s[i]) <= rank(s[j])
    ensures Ordered(SortBy(s, key), key, rank) && multiset(SortBy(s, key)) == multiset(s)
    decreases |s|
  {
    if s != [] {
      var (front, last) := (s[..|s| - 1], s[|s| - 1]);
      assert s == front + [last];
      SortByOrders(front, key, rank);
      forall y | y in SortBy(front, key) ensures rank(y) <= rank(last) {
        assert y in multiset(front);
        assert y in front;
      }
      InsertByOrders(last, SortBy(front, key), key, rank);
      InsertByKeeps(last, SortBy(front, key), key);
    }
  }

  /** Tab order: ascending by number, with the final stop 0 in the place of the largest number there is. */
  function TabKey(index: nat): nat { if index == 0 then MAX_INDEX else index }

  function StopKey(t: TabStop): int { TabKey(t.index) }

  function StartKey(s: Span): int { s.start }

  ghost function Indices(stops: seq<TabStop>): set<nat> { set t | t in stops :: t.index }

  ghost predicate AscendingStops(stops: seq<TabStop>) {
    forall i, j | 0 <= i < j < |stops| :: stops[i].index < stops[j].index
  }

  /** One stop for each number, with its spans by start and its choices. */
  ghost predicate StopsOf(stops: seq<TabStop>, s: State) {
    Indices(stops) == s.spans.Keys && forall t | t in stops :: StopIs(t, s)
  }

  ghost predicate StopIs(t: TabStop, s: State) {
    t.index in s.spans && t.spans == SortBy(s.spans[t.index], StartKey)
    && t.choices == if t.index in s.choices then s.choices[t.index] else []
  }

  lemma Smallest(keys: set<nat>) returns (k: nat)
    requires keys != {}
    ensures k in keys && forall j | j in keys :: k <= j
  {
    var first :| first in keys;
    var rest := keys - {first};
    k := first;
    if rest != {} {
      var m := Smallest(rest);
      if m < first { k := m; }
    }
    forall j | j in keys ensures k <= j { assert j == first || j in rest; }
  }

  /** The stops collected so far: all but those still in `keys`, which are larger. */
  ghost predicate Collected(stops: seq<TabStop>, s: State, keys: set<nat>) {
    keys <= s.spans.Keys && Indices(stops) == s.spans.Keys - keys && AscendingStops(stops)
    && (forall t | t in stops :: StopIs(t, s))
    && forall t, k | t in stops && k in keys :: t.index < k
  }

  lemma CollectedExtends(stops: seq<TabStop>, s: State, keys: set<nat>, t: TabStop)
    requires Collected(stops, s, keys) && StopIs(t, s) && t.index in keys && forall j | j in keys :: t.index <= j
    ensures Collected(stops + [t], s, keys - {t.index})
  {
    IndicesAppend(stops, t);
    forall i | 0 <= i < |stops| ensures stops[i].index < t.index {
      assert stops[i] in stops;
    }
  }

  /** The stops, in ascending order as the ordered map yields them. */
  method CollectStops(s: State) returns (stops: seq<TabStop>)
    ensures StopsOf(stops, s) && AscendingStops(stops)
  {
    var keys := s.spans.Keys;
    stops := [];
    while keys != {}
      invariant Collected(stops, s, keys)
      decreases keys
    {
      ghost var least := Smallest(keys);
      var index: nat :| index in keys && forall j | j in keys :: index <= j;
      var stop := TabStop(index, SortBy(s.spans[index], StartKey), if index in s.choices then s.choices[index] else []);
      CollectedExtends(stops, s, keys, stop);
      stops, keys := stops + [stop], keys - {index};
    }
  }

  lemma IndicesAppend(stops: seq<TabStop>, t: TabStop)
    ensures Indices(stops + [t]) == Indices(stops) + {t.index}
  {
    assert forall u :: u in stops + [t] <==> u in stops || u == t;
  }

  lemma SortByMembers(stops: seq<TabStop>)
    requires AscendingStops(stops)
    ensures Ordered(SortBy(stops, StopKey), StopKey, StopRank) && |SortBy(stops, StopKey)| == |stops|
    ensures forall t :: t in SortBy(stops, StopKey) <==> t in stops
  {
    var r := SortBy(stops, StopKey);
    SortByOrders(stops, StopKey, StopRank);
    assert |multiset(r)| == |multiset(stops)|;
    forall t ensures t in r <==> t in stops {
      assert t in multiset(r) <==> t in multiset(stops);
    }
  }

  function StopRank(t: TabStop): int { t.index }

  /** The final stop comes last exactly when no stop has the largest number. */
  lemma {:induction false} FinalStopLast(stops: seq<TabStop>)
    requires AscendingStops(stops) && 0 in Indices(stops)
    requires forall t | t in stops :: t.index <= MAX_INDEX
    ensures var r := SortBy(stops, StopKey);
      |r| > 0 && (r[|r| - 1].index == 0 <==> MAX_INDEX !in Indices(stops))
  {
    var r := SortBy(stops, StopKey);
    SortByMembers(stops);
    var final :| final in stops && final.index == 0;
    assert final in r;
    var last := r[|r| - 1];
    assert last in stops;
    forall t | t in r && t != last ensures Precedes(t, last, StopKey, StopRank) {
      var i :| 0 <= i < |r| && r[i] == t;
    }
    if MAX_INDEX in Indices(stops) {
      var m :| m in stops && m.index == MAX_INDEX;
      assert m in r;
    }
  }

  /** The body `${0}${4294967295}`. */
  function Beyond(): seq<Node> { [Stop(0, [], []), Stop(MAX_INDEX, [], [])] }

  lemma BeyondLaidOut()
    ensures Resolve(Beyond(), map[]) == map[]
    ensures After(Beyond(), map[], State("", map[], map[])).spans.Keys == {0, MAX_INDEX}
  {
    var (first, last) := (Beyond()[0], Beyond()[1]);
    assert Beyond()[1..] == [last] && [last][1..] == [];
    assert ResolveNode(first, map[]) == map[] && ResolveNode(last, map[]) == map[];
    var s := AfterNode(first, map[], State("", map[], map[]));
    assert s.spans.Keys == {0};
    assert AfterNode(last, map[], s).spans.Keys == {0, MAX_INDEX};
  }

  lemma BeyondParses()
    ensures Parse(Print(Beyond())) == Ok(Beyond())
  {
    assert Beyond()[1..] == [Beyond()[1]] && [Beyond()[1]][1..] == [];
    PrintThenParse(Beyond());
  }

  lemma BeyondComesLast(stops: seq<TabStop>)
    requires AscendingStops(stops) && Indices(stops) == {0, MAX_INDEX}
    ensures var r := SortBy(stops, StopKey); |r| > 0 && r[|r| - 1].index == MAX_INDEX
  {
    forall t | t in stops ensures t.index <= MAX_INDEX { assert t.index in Indices(stops); }
    FinalStopLast(stops);
    SortByMembers(stops);
    var r := SortBy(stops, StopKey);
    assert r[|r| - 1] in stops;
    assert r[|r| - 1].index in Indices(stops);
  }

  /** It parses, and its last stop in tab order is the largest number and not the final stop 0. */
  lemma FinalStopNotLast(stops: seq<TabStop>)
    requires AscendingStops(stops) && StopsOf(stops, After(Beyond(), Resolve(Beyond(), map[]), State("", map[], map[])))
    ensures Parse(Print(Beyond())) == Ok(Beyond())
    ensures var r := SortBy(stops, StopKey); |r| > 0 && r[|r| - 1].index == MAX_INDEX
  {
    BeyondParses();
    BeyondLaidOut();
    BeyondComesLast(stops);
  }

  datatype ParsedSnippet = ParsedSnippet(text: string, stops: seq<TabStop>)

  /** The whole of a snippet body: parsed, defaults resolved, laid out, and its stops in tab order. */
  method Expand(src: string) returns (r: Result<ParsedSnippet, SnippetError>, ghost stops: seq<TabStop>)
    ensures r.Err? <==> Parse(src).Err?
    ensures r.Err? ==> r.error == Parse(src).error
    ensures r.Ok? ==> (
      var nodes := Parse(src).value;
      var d := Resolve(nodes, map[]);
      var s := After(nodes, d, State("", map[], map[]));
      r.value.text == s.text && AscendingStops(stops) && StopsOf(stops, s) && r.value.stops == SortBy(stops, StopKey))
  {
    var nodes := ParseSnippet(src);
    stops := [];
    if nodes.Err? { return Err(nodes.error), []; }
    var d := ResolveDefaults(nodes.value, map[]);
    var layout := new Layout();
    layout.LayOut(nodes.value, d);
    var ascending := CollectStops(State(layout.text, layout.spans, layout.choices));
    stops := ascending;
    r := Ok(ParsedSnippet(layout.text, SortBy(ascending, StopKey)));
  }

  /** What a laid-out snippet is: the rendered text, and places in it that read right and are laminar. */
  lemma SnippetMeans(nodes: seq<Node>)
    ensures var d := Resolve(nodes, map[]);
      var ps := Places(nodes, d, 0);
      var s := After(nodes, d, State("", map[], map[]));
      s.text == Render(nodes, d) && AllRead(s.text, d, ps) && Laminar(ps, 0, Bytes(s.text))
      && AllStops(ps) && s.spans == RecordAll(map[], ps) && s.choices == ChoicesAll(map[], ps)
  {
    var d := Resolve(nodes, map[]);
    var empty := State("", map[], map[]);
    LayoutAppends(nodes, d, empty);
    AppendsIs(empty, After(nodes, d, empty), Render(nodes, d), Places(nodes, d, 0));
    PlacesLaminar(nodes, d, 0);
    PlacesRead(nodes, d, "", "");
    assert "" + Render(nodes, d) + "" == Render(nodes, d) == "" + Render(nodes, d);
  }
}
