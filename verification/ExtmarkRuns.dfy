/**
 * Runs over every store of the process: what the structural stamps certify, and what
 * the placement serials let undo tell apart.
 */
module ExtmarkRuns {
  import opened Wrappers
  import opened Gravity
  import opened ExtmarkState

  /** What one store can do on its own. */
  datatype StoreOp =
    | Placing(ns: nat, want: Option<nat>, at: Anchors, payload: Payload)
    | Deleting(ns: nat, id: nat)
    | Clearing(ns: nat, range: Option<(nat, nat)>)
    | ClearingAll
    | Shifting(e: Edit)
    /** Undo taking the positions of a history point, whatever store that is. */
    | Undoing(point: State, textLen: nat, skip: set<nat>)

  predicate Enabled(op: StoreOp) { op.Shifting? ==> op.e.Fits() }

  function Apply(st: State, op: StoreOp, stamp: nat): State
    requires Enabled(op)
  {
    match op
    case Placing(ns, id, at, payload) => Place(st, ns, id, at, payload, stamp)
    case Deleting(ns, id) => Delete(st, ns, id, stamp)
    case Clearing(ns, range) => Clear(st, ns, range, stamp)
    case ClearingAll => ClearAll(st, stamp)
    case Shifting(e) => Shift(st, e)
    case Undoing(point, textLen, skip) => Adopt(st, point, textLen, skip, stamp)
  }

  /** How many stamps the operation takes. */
  function StampsTaken(st: State, op: StoreOp): nat {
    match op
    case Placing(_, _, _, _) => 2
    case Deleting(ns, id) => if Has(st, ns, id) then 2 else 1
    case Clearing(ns, _) => if ns in st.byNs then 2 else 1
    case ClearingAll => 1
    case Shifting(_) => 0
    case Undoing(_, _, _) => 1
  }

  /** The process: the stamp counter and every store alive. */
  datatype World = World(stamps: nat, stores: seq<State>)

  datatype WorldOp =
    | NewStore
    | Cloning(i: nat)
    | On(i: nat, op: StoreOp)
    | Moving(i: nat, j: nat, ns: nat)

  predicate CanStep(w: World, op: WorldOp) {
    match op
    case NewStore => true
    case Cloning(i) => i < |w.stores|
    case On(i, op) => i < |w.stores| && Enabled(op)
    case Moving(i, j, _) => i < |w.stores| && j < |w.stores| && i != j
  }

  function Step(w: World, op: WorldOp): World
    requires CanStep(w, op)
  {
    var stamp := w.stamps + 1;
    match op
    case NewStore => w.(stores := w.stores + [EMPTY])
    case Cloning(i) => w.(stores := w.stores + [w.stores[i]])
    case On(i, op) =>
      World(w.stamps + StampsTaken(w.stores[i], op), w.stores[i := Apply(w.stores[i], op, stamp)])
    case Moving(i, j, ns) =>
      World(w.stamps + 2, w.stores[i := MoveOut(w.stores[i], ns, stamp)]
                                  [j := MoveIn(w.stores[j], w.stores[i], ns, stamp + 1)])
  }

  ghost predicate CanRun(w: World, ops: seq<WorldOp>)
    decreases |ops|
  {
    |ops| == 0 || (CanStep(w, ops[0]) && CanRun(Step(w, ops[0]), ops[1..]))
  }

  ghost function Run(w: World, ops: seq<WorldOp>): World
    requires CanRun(w, ops)
    decreases |ops|
  {
    if |ops| == 0 then w else Run(Step(w, ops[0]), ops[1..])
  }

  // ----- stamps certify content ----------------------------------------------------

  /** A mark without its anchors: what a stamp vouches for. */
  function Core(m: Extmark): Extmark {
    m.(at := Anchors(0, None, m.at.rightGravity, m.at.endRightGravity))
  }

  function Content(slot: NsMarks): map<nat, Extmark> {
    map id | id in slot.marks :: Core(slot.marks[id])
  }

  function Stamps(st: State): map<nat, nat> {
    map ns | ns in st.byNs :: st.byNs[ns].gen
  }

  /** What each namespace stamp and each store generation handed out so far stands for. */
  datatype Ledger = Ledger(content: map<nat, map<nat, Extmark>>, stamps: map<nat, map<nat, nat>>)

  ghost predicate Vouched(st: State, l: Ledger) {
    && (forall ns | ns in st.byNs ::
          st.byNs[ns].gen in l.content && l.content[st.byNs[ns].gen] == Content(st.byNs[ns]))
    && st.generation in l.stamps
    && l.stamps[st.generation] == Stamps(st)
  }

  ghost predicate Certified(w: World, l: Ledger) {
    && (forall s | s in l.content :: s <= w.stamps)
    && (forall s | s in l.stamps :: s <= w.stamps)
    && (0 in l.stamps && l.stamps[0] == map[])
    && (forall i | 0 <= i < |w.stores| :: Vouched(w.stores[i], l))
  }

  ghost predicate Extends(l: Ledger, l': Ledger) {
    && (forall s | s in l.content :: s in l'.content && l'.content[s] == l.content[s])
    && (forall s | s in l.stamps :: s in l'.stamps && l'.stamps[s] == l.stamps[s])
  }

  lemma VouchedStays(st: State, l: Ledger, l': Ledger)
    requires Vouched(st, l) && Extends(l, l')
    ensures Vouched(st, l')
  {
  }

  /** The stores hold the same marks under the same stamps; anchors may differ. */
  ghost predicate OnlyAnchorsDiffer(st: State, st': State) {
    Stamps(st) == Stamps(st')
    && forall ns | ns in st.byNs :: ns in st'.byNs && Content(st'.byNs[ns]) == Content(st.byNs[ns])
  }

  lemma ShiftMovesAnchorsOnly(st: State, e: Edit)
    requires e.Fits()
    ensures OnlyAnchorsDiffer(st, Shift(st, e))
  {
  }

  lemma UndoMovesAnchorsOnly(st: State, point: State, textLen: nat, skip: set<nat>, stamp: nat)
    ensures OnlyAnchorsDiffer(st, Adopt(st, point, textLen, skip, stamp))
  {
  }

  /** The ledger entries one changed store adds: its new generation, and the slot it restamped. */
  ghost function Entered(l: Ledger, st: State, ns: nat): Ledger {
    Ledger(if ns in st.byNs then l.content[st.byNs[ns].gen := Content(st.byNs[ns])] else l.content,
           l.stamps[st.generation := Stamps(st)])
  }

  /** The ledger grew to vouch for the new state, with stamps below the bound. */
  ghost predicate Recorded(l: Ledger, l': Ledger, st': State, bound: nat) {
    Extends(l, l') && Vouched(st', l') && (forall s | s in l'.content :: s < bound)
    && forall s | s in l'.stamps :: s < bound
  }

  ghost predicate Below(l: Ledger, stamp: nat) {
    (forall s | s in l.content :: s < stamp) && forall s | s in l.stamps :: s < stamp
  }

  lemma PlacingVouched(st: State, op: StoreOp, l: Ledger, stamp: nat)
    requires Enabled(op) && op.Placing? && Vouched(st, l) && Below(l, stamp)
    ensures var st' := Apply(st, op, stamp); Recorded(l, Entered(l, st', op.ns), st', stamp + StampsTaken(st, op))
  {
  }

  lemma DeletingVouched(st: State, op: StoreOp, l: Ledger, stamp: nat)
    requires Enabled(op) && op.Deleting? && Vouched(st, l) && Below(l, stamp)
    ensures var st' := Apply(st, op, stamp);
      Recorded(l, if Has(st, op.ns, op.id) then Entered(l, st', op.ns)
                  else l.(stamps := l.stamps[stamp := Stamps(st')]),
               st', stamp + StampsTaken(st, op))
  {
  }

  lemma ClearingVouched(st: State, op: StoreOp, l: Ledger, stamp: nat)
    requires Enabled(op) && op.Clearing? && Vouched(st, l) && Below(l, stamp)
    ensures var st' := Apply(st, op, stamp);
      Recorded(l, if op.ns in st.byNs then Entered(l, st', op.ns) else l.(stamps := l.stamps[stamp := Stamps(st')]),
               st', stamp + StampsTaken(st, op))
  {
  }

  lemma ApplyVouched(st: State, op: StoreOp, l: Ledger, stamp: nat) returns (l': Ledger)
    requires Enabled(op) && Vouched(st, l) && Below(l, stamp)
    ensures Recorded(l, l', Apply(st, op, stamp), stamp + StampsTaken(st, op))
  {
    var st' := Apply(st, op, stamp);
    match op
    case Placing(ns, id, at, payload) =>
      l' := Entered(l, st', ns);
      PlacingVouched(st, op, l, stamp);
    case Deleting(ns, id) =>
      l' := if Has(st, ns, id) then Entered(l, st', ns) else l.(stamps := l.stamps[stamp := Stamps(st')]);
      DeletingVouched(st, op, l, stamp);
    case Clearing(ns, range) =>
      l' := if ns in st.byNs then Entered(l, st', ns) else l.(stamps := l.stamps[stamp := Stamps(st')]);
      ClearingVouched(st, op, l, stamp);
    case ClearingAll =>
      l' := l.(stamps := l.stamps[stamp := Stamps(st')]);
    case Shifting(e) =>
      l' := l;
      ShiftMovesAnchorsOnly(st, e);
    case Undoing(point, textLen, skip) =>
      l' := l.(stamps := l.stamps[stamp := Stamps(st')]);
      UndoMovesAnchorsOnly(st, point, textLen, skip, stamp);
  }

  lemma MoveCertified(w: World, i: nat, j: nat, ns: nat, l: Ledger) returns (l': Ledger)
    requires CanStep(w, Moving(i, j, ns)) && Certified(w, l)
    ensures Certified(Step(w, Moving(i, j, ns)), l')
  {
    var (w', stamp) := (Step(w, Moving(i, j, ns)), w.stamps + 1);
    l' := l.(stamps := l.stamps[stamp := Stamps(w'.stores[i])][stamp + 1 := Stamps(w'.stores[j])]);
    MovedVouched(w.stores[j], w.stores[i], ns, l, stamp);
    forall k | 0 <= k < |w'.stores| ensures Vouched(w'.stores[k], l') {
      VouchedStays(w.stores[k], l, l');
    }
  }

  lemma MovedVouched(dst: State, src: State, ns: nat, l: Ledger, stamp: nat)
    requires Vouched(dst, l) && Vouched(src, l) && Below(l, stamp)
    ensures var (out, got) := (MoveOut(src, ns, stamp), MoveIn(dst, src, ns, stamp + 1));
      var l' := l.(stamps := l.stamps[stamp := Stamps(out)][stamp + 1 := Stamps(got)]);
      Vouched(out, l') && Vouched(got, l') && Extends(l, l')
  {
  }

  lemma OnCertified(w: World, i: nat, op: StoreOp, l: Ledger) returns (l': Ledger)
    requires CanStep(w, On(i, op)) && Certified(w, l)
    ensures Certified(Step(w, On(i, op)), l')
  {
    l' := ApplyVouched(w.stores[i], op, l, w.stamps + 1);
    var w' := Step(w, On(i, op));
    forall k | 0 <= k < |w'.stores| ensures Vouched(w'.stores[k], l') {
      if k != i { VouchedStays(w.stores[k], l, l'); }
    }
  }

  lemma StepCertified(w: World, op: WorldOp, l: Ledger) returns (l': Ledger)
    requires CanStep(w, op) && Certified(w, l)
    ensures Certified(Step(w, op), l')
  {
    match op
    case NewStore => l' := l;
    case Cloning(i) => l' := l;
    case On(i, op) => l' := OnCertified(w, i, op, l);
    case Moving(i, j, ns) => l' := MoveCertified(w, i, j, ns, l);
  }

  lemma {:induction false} RunCertified(w: World, ops: seq<WorldOp>, l: Ledger) returns (l': Ledger)
    requires CanRun(w, ops) && Certified(w, l)
    ensures Certified(Run(w, ops), l')
    decreases |ops|
  {
    if |ops| == 0 {
      l' := l;
    } else {
      var next := StepCertified(w, ops[0], l);
      l' := RunCertified(Step(w, ops[0]), ops[1..], next);
    }
  }

  /** The same ids, serials and payloads; only anchors may differ. */
  ghost predicate SameContent(a: NsMarks, b: NsMarks) {
    && a.marks.Keys == b.marks.Keys
    && (forall id | id in a.marks :: Core(a.marks[id]) == Core(b.marks[id]))
  }

  /** Two slots of equal stamp, anywhere in any reachable process, hold the same marks. */
  lemma EqualStampsCertifyContent(ops: seq<WorldOp>, i: nat, j: nat, ns: nat, ns': nat)
    requires CanRun(World(0, []), ops)
    requires var w := Run(World(0, []), ops);
      && i < |w.stores| && j < |w.stores| && ns in w.stores[i].byNs && ns' in w.stores[j].byNs
      && w.stores[i].byNs[ns].gen == w.stores[j].byNs[ns'].gen
    ensures var w := Run(World(0, []), ops);
      SameContent(w.stores[i].byNs[ns], w.stores[j].byNs[ns'])
  {
    var w := Run(World(0, []), ops);
    var l := RunCertified(World(0, []), ops, Ledger(map[], map[0 := map[]]));
    var (a, b) := (w.stores[i].byNs[ns], w.stores[j].byNs[ns']);
    assert Vouched(w.stores[i], l) && Vouched(w.stores[j], l);
    assert Content(a) == Content(b);
    assert a.marks.Keys == Content(a).Keys == Content(b).Keys == b.marks.Keys;
    forall id | id in a.marks ensures Core(a.marks[id]) == Core(b.marks[id]) {
      assert Content(a)[id] == Content(b)[id];
    }
  }

  /** Two stores of equal generation agree on every namespace. */
  lemma EqualGenerationsAgree(ops: seq<WorldOp>, i: nat, j: nat, ns: nat)
    requires CanRun(World(0, []), ops)
    requires var w := Run(World(0, []), ops);
      i < |w.stores| && j < |w.stores| && w.stores[i].generation == w.stores[j].generation
    ensures var w := Run(World(0, []), ops);
      && (ns in w.stores[i].byNs <==> ns in w.stores[j].byNs)
      && (ns in w.stores[i].byNs ==> SameContent(w.stores[i].byNs[ns], w.stores[j].byNs[ns]))
  {
    var w := Run(World(0, []), ops);
    var l := RunCertified(World(0, []), ops, Ledger(map[], map[0 := map[]]));
    assert Vouched(w.stores[i], l) && Vouched(w.stores[j], l);
    assert Stamps(w.stores[i]) == Stamps(w.stores[j]);
    assert ns in w.stores[i].byNs <==> ns in Stamps(w.stores[i]);
    assert ns in w.stores[j].byNs <==> ns in Stamps(w.stores[j]);
    if ns in w.stores[i].byNs {
      assert Stamps(w.stores[i])[ns] == Stamps(w.stores[j])[ns];
      EqualStampsCertifyContent(ops, i, j, ns, ns);
    }
  }

  // ----- serials tell placements apart ---------------------------------------------

  /** What a store goes through between a history point and its undo: its own operations, and namespaces moved. */
  datatype HistoryOp = Own(op: StoreOp) | MovingIn(ns: nat, src: State) | MovingOut(ns: nat)

  /** Every mark outside the namespaces `hidden` has a serial the counter has reached. */
  ghost predicate SerialsBounded(st: State, hidden: set<nat>) {
    forall ns, id | ns !in hidden && Has(st, ns, id) :: st.byNs[ns].marks[id].serial <= st.nextSerial
  }

  ghost predicate KeyedOutside(st: State, hidden: set<nat>) {
    forall ns, id | ns !in hidden && Has(st, ns, id) :: st.byNs[ns].marks[id].id == id
  }

  predicate Can(op: HistoryOp) { op.Own? ==> Enabled(op.op) }

  function Become(st: State, op: HistoryOp): State
    requires Can(op)
  {
    match op
    case Own(op) => Apply(st, op, 0)
    case MovingIn(ns, src) => MoveIn(st, src, ns, 0)
    case MovingOut(ns) => MoveOut(st, ns, 0)
  }

  ghost predicate AllCan(ops: seq<HistoryOp>) {
    forall k | 0 <= k < |ops| :: Can(ops[k])
  }

  /** The run moves no namespaces but those `hidden`. */
  ghost predicate MovesWithin(ops: seq<HistoryOp>, hidden: set<nat>) {
    forall k | 0 <= k < |ops| :: Within(ops[k], hidden)
  }

  predicate Within(op: HistoryOp, hidden: set<nat>) { !op.Own? ==> op.ns in hidden }

  /** The store after a run. */
  ghost function After(st: State, ops: seq<HistoryOp>): State
    requires AllCan(ops)
    decreases |ops|
  {
    if |ops| == 0 then st else Become(After(st, ops[..|ops| - 1]), ops[|ops| - 1])
  }

  /** Whether the run placed a mark under the id. */
  ghost predicate PlacedDuring(st: State, ops: seq<HistoryOp>, ns: nat, id: nat)
    requires AllCan(ops)
    decreases |ops|
  {
    |ops| > 0 &&
    var (before, op) := (ops[..|ops| - 1], ops[|ops| - 1]);
    || PlacedDuring(st, before, ns, id)
    || Places(After(st, before), op, ns, id)
  }

  ghost predicate Places(st: State, op: HistoryOp, ns: nat, id: nat) {
    op.Own? && op.op.Placing? && op.op.ns == ns && IdFor(Slot(st, ns), op.op.want) == id
  }

  lemma OwnKeepsSerial(st: State, op: StoreOp, ns: nat, id: nat)
    requires Enabled(op)
    ensures var st' := Apply(st, op, 0);
      st'.nextSerial >= st.nextSerial
      && (Has(st', ns, id) ==>
            if Places(st, Own(op), ns, id)
            then st.nextSerial < st'.byNs[ns].marks[id].serial <= st'.nextSerial && st'.byNs[ns].marks[id].id == id
            else Has(st, ns, id) && Core(st'.byNs[ns].marks[id]) == Core(st.byNs[ns].marks[id])
                 && st'.byNs[ns].marks[id].id == st.byNs[ns].marks[id].id)
  {
  }

  lemma StepKeepsSerial(st: State, op: HistoryOp, hidden: set<nat>, ns: nat, id: nat)
    requires Can(op) && Within(op, hidden) && ns !in hidden
    ensures var st' := Become(st, op);
      st'.nextSerial >= st.nextSerial
      && (Has(st', ns, id) ==>
            if Places(st, op, ns, id)
            then st.nextSerial < st'.byNs[ns].marks[id].serial <= st'.nextSerial && st'.byNs[ns].marks[id].id == id
            else Has(st, ns, id) && Core(st'.byNs[ns].marks[id]) == Core(st.byNs[ns].marks[id])
                 && st'.byNs[ns].marks[id].id == st.byNs[ns].marks[id].id)
  {
    if op.Own? { OwnKeepsSerial(st, op.op, ns, id); }
  }

  /**
   * Over every run that moves hidden namespaces only, any other mark keeps its serial, and
   * what it carries, unless it is placed again; placing it again gives a newer serial.
   */
  lemma {:induction false} RunKeepsSerials(st: State, ops: seq<HistoryOp>, hidden: set<nat>, ns: nat, id: nat)
    requires SerialsBounded(st, hidden) && KeyedOutside(st, hidden)
    requires AllCan(ops) && MovesWithin(ops, hidden) && ns !in hidden
    ensures After(st, ops).nextSerial >= st.nextSerial
    ensures Has(After(st, ops), ns, id) ==>
      var m := After(st, ops).byNs[ns].marks[id];
      m.id == id && m.serial <= After(st, ops).nextSerial
      && if PlacedDuring(st, ops, ns, id) then m.serial > st.nextSerial
         else Has(st, ns, id) && Core(m) == Core(st.byNs[ns].marks[id])
    decreases |ops|
  {
    if |ops| > 0 {
      var (before, op) := (ops[..|ops| - 1], ops[|ops| - 1]);
      RunKeepsSerials(st, before, hidden, ns, id);
      StepKeepsSerial(After(st, before), op, hidden, ns, id);
    }
  }

  /** Undo after the run treats the mark by its rule: back to the history point, or left where it is but clamped. */
  ghost predicate UndoneRight(snap: State, ops: seq<HistoryOp>, ns: nat, id: nat, textLen: nat, skip: set<nat>)
    requires AllCan(ops) && Has(After(snap, ops), ns, id)
  {
    var live := After(snap, ops).byNs[ns].marks[id];
    var undone := Adopt(After(snap, ops), snap, textLen, skip, 0).byNs[ns].marks[id];
    if PlacedDuring(snap, ops, ns, id) then undone == live.(at := Clamp(live.at, textLen))
    else Has(snap, ns, id) && undone == snap.byNs[ns].marks[id]
  }

  /**
   * Undo's rule, over every run between a history point and the undo: a mark both hold
   * goes back to where the history point had it exactly when it was not placed again in
   * between; a mark placed again keeps its live place, clamped into the restored text.
   */
  lemma UndoRestoresWhatWasNotPlacedAgain(
      snap: State, ops: seq<HistoryOp>, hidden: set<nat>, ns: nat, id: nat, textLen: nat, skip: set<nat>)
    requires SerialsBounded(snap, hidden) && KeyedOutside(snap, hidden)
    requires AllCan(ops) && MovesWithin(ops, hidden)
    requires hidden <= skip && ns !in skip && Has(After(snap, ops), ns, id)
    ensures UndoneRight(snap, ops, ns, id, textLen, skip)
  {
    RunKeepsSerials(snap, ops, hidden, ns, id);
    var live := After(snap, ops).byNs[ns].marks[id];
    if PlacedDuring(snap, ops, ns, id) {
      assert !SamePlacement(snap, ns, live);
    } else {
      var then_ := snap.byNs[ns].marks[id];
      assert Core(live) == Core(then_);
    }
  }

  /** Undo's rule for a history point: right for every mark, over every run since that moves hidden namespaces only. */
  ghost predicate UndoRule(snap: State, hidden: set<nat>) {
    forall ops, ns, id, textLen, skip
      | AllCan(ops) && MovesWithin(ops, hidden) && hidden <= skip && ns !in skip && Has(After(snap, ops), ns, id) ::
      UndoneRight(snap, ops, ns, id, textLen, skip)
  }

  /** Undo's rule holds for a history point exactly when no mark undo looks at has a serial ahead of the counter. */
  lemma UndoRuleIff(snap: State, hidden: set<nat>)
    requires KeyedOutside(snap, hidden)
    ensures UndoRule(snap, hidden) <==> SerialsBounded(snap, hidden)
  {
    if SerialsBounded(snap, hidden) {
      forall ops, ns, id, textLen, skip
        | AllCan(ops) && MovesWithin(ops, hidden) && hidden <= skip && ns !in skip && Has(After(snap, ops), ns, id)
        ensures UndoneRight(snap, ops, ns, id, textLen, skip)
      {
        UndoRestoresWhatWasNotPlacedAgain(snap, ops, hidden, ns, id, textLen, skip);
      }
    } else {
      var ns: nat, id: nat :| ns !in hidden && Has(snap, ns, id) && snap.byNs[ns].marks[id].serial > snap.nextSerial;
      SerialComesRound(snap, hidden, ns, id);
    }
  }

  /** The run that places a mark under one id so many times. */
  function Again(ns: nat, id: nat, at: Anchors, payload: Payload, n: nat): (ops: seq<HistoryOp>)
    ensures |ops| == n && AllCan(ops) && forall k | 0 <= k < n :: ops[k].Own?
  {
    if n == 0 then [] else Again(ns, id, at, payload, n - 1) + [Own(Placing(ns, Some(id), at, payload))]
  }

  /** A run that ends by placing a mark. */
  lemma EndsPlacing(st: State, ops: seq<HistoryOp>, ns: nat, id: nat, at: Anchors, payload: Payload)
    requires AllCan(ops)
    ensures var run := ops + [Own(Placing(ns, Some(id), at, payload))];
      AllCan(run) && PlacedDuring(st, run, ns, id)
      && After(st, run) == Place(After(st, ops), ns, Some(id), at, payload, 0)
  {
    var op := Own(Placing(ns, Some(id), at, payload));
    var run := ops + [op];
    assert run[..|run| - 1] == ops && run[|run| - 1] == op;
  }

  lemma PlaceGives(st: State, ns: nat, id: nat, at: Anchors, payload: Payload)
    ensures var st' := Place(st, ns, Some(id), at, payload, 0);
      st'.nextSerial == st.nextSerial + 1 && Has(st', ns, id)
      && st'.byNs[ns].marks[id] == Extmark(id, at, payload, st.nextSerial + 1)
  {
  }

  lemma {:induction false} AgainPlaces(st: State, ns: nat, id: nat, at: Anchors, payload: Payload, n: nat)
    ensures var (ops, st') := (Again(ns, id, at, payload, n), After(st, Again(ns, id, at, payload, n)));
      st'.nextSerial == st.nextSerial + n
      && (n > 0 ==> PlacedDuring(st, ops, ns, id) && Has(st', ns, id)
                    && st'.byNs[ns].marks[id] == Extmark(id, at, payload, st.nextSerial + n))
  {
    if n > 0 {
      var before := Again(ns, id, at, payload, n - 1);
      AgainPlaces(st, ns, id, at, payload, n - 1);
      EndsPlacing(st, before, ns, id, at, payload);
      PlaceGives(After(st, before), ns, id, at, payload);
    }
  }

  /** A serial ahead of the counter is given out again, and undo then drags the new placement back. */
  lemma SerialComesRound(snap: State, hidden: set<nat>, ns: nat, id: nat)
    requires ns !in hidden && Has(snap, ns, id)
    requires snap.byNs[ns].marks[id].id == id && snap.byNs[ns].marks[id].serial > snap.nextSerial
    ensures !UndoRule(snap, hidden)
  {
    var m := snap.byNs[ns].marks[id];
    var at := Anchors(m.at.start + 1, None, true, false);
    var (n, textLen) := (m.serial - snap.nextSerial, m.at.start + 1);
    var ops := Again(ns, id, at, m.payload, n);
    AgainPlaces(snap, ns, id, at, m.payload, n);
    assert !UndoneRight(snap, ops, ns, id, textLen, hidden);
  }

  /**
   * After a namespace moved in, undo's rule holds for every run since exactly when undo
   * skips the namespace or no moved mark has a serial ahead of the receiver's counter.
   */
  lemma MoveKeepsUndoRule(dst: State, src: State, ns: nat, stamp: nat, hidden: set<nat>)
    requires SerialsBounded(dst, hidden) && KeyedOutside(dst, hidden) && KeyedOutside(src, hidden)
    ensures UndoRule(MoveIn(dst, src, ns, stamp), hidden)
       <==> ns in hidden || forall id | Has(src, ns, id) :: src.byNs[ns].marks[id].serial <= dst.nextSerial
  {
    var st' := MoveIn(dst, src, ns, stamp);
    UndoRuleIff(st', hidden);
    if SerialsBounded(st', hidden) && ns !in hidden {
      forall id | Has(src, ns, id) ensures src.byNs[ns].marks[id].serial <= dst.nextSerial {
        assert Has(st', ns, id);
      }
    }
  }

  /**
   * Without that bound undo can mistake one placement for another: a mark moved in with
   * serial 1, snapshotted, then placed again under its id gets serial 1 once more, and
   * undo drags the new placement back to the old one's place.
   */
  lemma MovedSerialCanCollide()
    ensures
      var old_ := Anchors(5, None, true, false);
      var new_ := Anchors(9, None, true, false);
      var pay := Payload(0, 0, 0);
      var src := Place(EMPTY, 1, Some(7), old_, pay, 0);
      var snap := MoveIn(EMPTY, src, 1, 0);
      var live := After(snap, [Own(Placing(1, Some(7), new_, pay))]);
      && PlacedDuring(snap, [Own(Placing(1, Some(7), new_, pay))], 1, 7)
      && Adopt(live, snap, 100, {}, 0).byNs[1].marks[7].at == old_
  {
    var pay := Payload(0, 0, 0);
    var src := Place(EMPTY, 1, Some(7), Anchors(5, None, true, false), pay, 0);
    var snap := MoveIn(EMPTY, src, 1, 0);
    var op := Own(Placing(1, Some(7), Anchors(9, None, true, false), pay));
    assert [op][..0] == [];
    assert After(snap, [op]) == Become(snap, op);
  }
}
