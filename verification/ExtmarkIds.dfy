/** The ids the store gives out, over runs of operations. */
module ExtmarkIds {
  import opened Wrappers
  import opened Gravity
  import opened ExtmarkState
  import opened ExtmarkLaws
  import opened ExtmarkRuns

  lemma OwnKeepsIds(st: State, op: StoreOp, stamp: nat)
    requires WellKeyed(st.byNs) && Enabled(op)
    ensures WellKeyed(Apply(st, op, stamp).byNs)
  {
    var st' := Apply(st, op, stamp);
    if op.Placing? {
      var m := Extmark(IdFor(Slot(st, op.ns), op.want), op.at, op.payload, st.nextSerial + 1);
      PlacedIsAllocated(Slot(st, op.ns), op.want, m, stamp + 1);
    }
    forall ns | ns in st'.byNs ensures SlotWellKeyed(st'.byNs[ns]) {
      assert ns in st.byNs ==> SlotWellKeyed(st.byNs[ns]);
    }
  }

  ghost predicate AllWellKeyed(w: World) { forall i | 0 <= i < |w.stores| :: WellKeyed(w.stores[i].byNs) }

  lemma StepKeepsIds(w: World, op: WorldOp)
    requires AllWellKeyed(w) && CanStep(w, op)
    ensures AllWellKeyed(Step(w, op))
  {
    if op.On? { OwnKeepsIds(w.stores[op.i], op.op, w.stamps + 1); }
  }

  /** In every store any run leads to, each mark is under its own id and the allocator is past all of them. */
  lemma {:induction false} RunKeepsIds(w: World, ops: seq<WorldOp>)
    requires AllWellKeyed(w) && CanRun(w, ops)
    ensures AllWellKeyed(Run(w, ops))
    decreases |ops|
  {
    if |ops| > 0 {
      StepKeepsIds(w, ops[0]);
      RunKeepsIds(Step(w, ops[0]), ops[1..]);
    }
  }

  /** The operation leaves the namespace's slot in its store. */
  predicate KeepsSlot(op: HistoryOp, ns: nat) { if op.Own? then op.op != ClearingAll else op.ns != ns }

  ghost predicate SlotStays(ops: seq<HistoryOp>, ns: nat) { forall k | 0 <= k < |ops| :: KeepsSlot(ops[k], ns) }

  lemma AllocatorRises(st: State, op: HistoryOp, ns: nat)
    requires ns in st.byNs && st.byNs[ns].nextId <= MAX_U64 && Can(op) && KeepsSlot(op, ns)
    ensures ns in Become(st, op).byNs && st.byNs[ns].nextId <= Become(st, op).byNs[ns].nextId <= MAX_U64
  {
  }

  lemma {:induction false} AllocatorRisesOverRun(st: State, ops: seq<HistoryOp>, ns: nat)
    requires ns in st.byNs && st.byNs[ns].nextId <= MAX_U64 && AllCan(ops) && SlotStays(ops, ns)
    ensures ns in After(st, ops).byNs && st.byNs[ns].nextId <= After(st, ops).byNs[ns].nextId <= MAX_U64
    decreases |ops|
  {
    if |ops| > 0 {
      var before := ops[..|ops| - 1];
      AllocatorRisesOverRun(st, before, ns);
      AllocatorRises(After(st, before), ops[|ops| - 1], ns);
    }
  }

  /**
   * An id given automatically below the limit is not given automatically again while its
   * namespace's slot stays, whatever is deleted or cleared in between.
   */
  lemma NotGivenAgain(st: State, ns: nat, at: Anchors, payload: Payload, stamp: nat, ops: seq<HistoryOp>)
    requires Slot(st, ns).nextId < MAX_U64 && AllCan(ops) && SlotStays(ops, ns)
    ensures IdFor(Slot(After(Place(st, ns, None, at, payload, stamp), ops), ns), None) > IdFor(Slot(st, ns), None)
  {
    AllocatorRisesOverRun(Place(st, ns, None, at, payload, stamp), ops, ns);
  }
}
