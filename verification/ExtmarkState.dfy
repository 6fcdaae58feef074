/**
 * The marks of one buffer as plain state, and what each operation does to them.  The
 * store class carries caches beside this state; its methods are proved against these
 * functions, and the run-level claims are proved about them.
 */
module ExtmarkState {
  import opened Wrappers
  import opened Gravity

  const MAX_U64: nat := 0xFFFF_FFFF_FFFF_FFFF

  /**
   * What a mark carries besides its place: fixed for the mark's lifetime and opaque
   * here, except for the two numbers the store counts.
   */
  datatype Payload = Payload(content: int, virtLines: nat, gutterWidth: nat)

  datatype Extmark = Extmark(id: nat, at: Anchors, payload: Payload, serial: nat) {
    function Shift(e: Edit): Extmark
      requires e.Fits()
    {
      this.(at := at.Shift(e))
    }
  }

  /** One namespace: its marks by id, its structural stamp and its id allocator. */
  datatype NsMarks = NsMarks(marks: map<nat, Extmark>, gen: nat, nextId: nat)

  datatype State = State(byNs: map<nat, NsMarks>, generation: nat, nextSerial: nat)

  const EMPTY_SLOT := NsMarks(map[], 0, 0)

  const EMPTY := State(map[], 0, 0)

  ghost predicate SlotWellKeyed(slot: NsMarks) {
    slot.nextId <= MAX_U64 && forall id | id in slot.marks :: slot.marks[id].id == id && Allocated(slot, id)
  }

  /** The allocator is past the id, or at its limit for good. */
  predicate Allocated(slot: NsMarks, id: nat) { id < slot.nextId || slot.nextId == MAX_U64 }

  /** Every mark sits under its own id, which the allocator is past. */
  ghost predicate WellKeyed(byNs: map<nat, NsMarks>) {
    forall ns | ns in byNs :: SlotWellKeyed(byNs[ns])
  }

  function Slot(st: State, ns: nat): NsMarks {
    if ns in st.byNs then st.byNs[ns] else EMPTY_SLOT
  }

  function SaturatingInc(n: nat): nat { if n < MAX_U64 then n + 1 else MAX_U64 }

  /** The id a placement gets: the caller's, or the allocator's next. */
  function IdFor(slot: NsMarks, id: Option<nat>): nat {
    if id.Some? then id.value else slot.nextId
  }

  function NextIdAfter(slot: NsMarks, id: Option<nat>): nat {
    if id.Some? then Max(slot.nextId, SaturatingInc(id.value)) else SaturatingInc(slot.nextId)
  }

  /** `stamp` is the first of the fresh stamps the operation takes. */
  function Place(st: State, ns: nat, id: Option<nat>, at: Anchors, payload: Payload, stamp: nat): State {
    var slot := Slot(st, ns);
    var m := Extmark(IdFor(slot, id), at, payload, st.nextSerial + 1);
    State(st.byNs[ns := NsMarks(slot.marks[m.id := m], stamp + 1, NextIdAfter(slot, id))],
          stamp, st.nextSerial + 1)
  }

  predicate Has(st: State, ns: nat, id: nat) {
    ns in st.byNs && id in st.byNs[ns].marks
  }

  function Delete(st: State, ns: nat, id: nat, stamp: nat): State {
    if Has(st, ns, id) then
      var slot := st.byNs[ns];
      State(st.byNs[ns := slot.(marks := slot.marks - {id}, gen := stamp + 1)], stamp, st.nextSerial)
    else st.(generation := stamp)
  }

  /** The range a clear covers; absent for the whole buffer. */
  predicate InRange(range: Option<(nat, nat)>, m: Extmark) {
    range.Some? ==> range.value.0 <= m.at.start < range.value.1
  }

  function Kept(marks: map<nat, Extmark>, range: Option<(nat, nat)>): map<nat, Extmark> {
    map id | id in marks && !InRange(range, marks[id]) :: marks[id]
  }

  function Clear(st: State, ns: nat, range: Option<(nat, nat)>, stamp: nat): State {
    if ns in st.byNs then
      var slot := st.byNs[ns];
      State(st.byNs[ns := slot.(marks := Kept(slot.marks, range), gen := stamp + 1)], stamp, st.nextSerial)
    else st.(generation := stamp)
  }

  function ClearAll(st: State, stamp: nat): State {
    State(map[], stamp, st.nextSerial)
  }

  /** The namespace leaves `src` ... */
  function MoveOut(src: State, ns: nat, stamp: nat): State {
    State(src.byNs - {ns}, stamp, src.nextSerial)
  }

  /** ... and replaces whatever `dst` held for it. */
  function MoveIn(dst: State, src: State, ns: nat, stamp: nat): State {
    State(if ns in src.byNs then dst.byNs[ns := src.byNs[ns]] else dst.byNs - {ns}, stamp, dst.nextSerial)
  }

  /** Whether the snapshot holds the very placement `m` is. */
  predicate SamePlacement(snap: State, ns: nat, m: Extmark) {
    Has(snap, ns, m.id) && snap.byNs[ns].marks[m.id].serial == m.serial
  }

  function Clamp(at: Anchors, len: nat): Anchors {
    var s := Min(at.start, len);
    at.(start := s, end := if at.end.Some? then Some(Max(Min(at.end.value, len), s)) else None)
  }

  function Adopted(snap: State, ns: nat, m: Extmark, textLen: nat): Extmark {
    if SamePlacement(snap, ns, m) then
      var then_ := snap.byNs[ns].marks[m.id].at;
      m.(at := m.at.(start := then_.start, end := then_.end))
    else m.(at := Clamp(m.at, textLen))
  }

  function AdoptedMarks(snap: State, ns: nat, marks: map<nat, Extmark>, textLen: nat): map<nat, Extmark> {
    map id | id in marks :: Adopted(snap, ns, marks[id], textLen)
  }

  function AdoptedNs(byNs: map<nat, NsMarks>, snap: State, textLen: nat, skip: set<nat>): map<nat, NsMarks> {
    map ns | ns in byNs ::
      if ns in skip then byNs[ns]
      else byNs[ns].(marks := AdoptedMarks(snap, ns, byNs[ns].marks, textLen))
  }

  function Adopt(st: State, snap: State, textLen: nat, skip: set<nat>, stamp: nat): State {
    State(AdoptedNs(st.byNs, snap, textLen, skip), stamp, st.nextSerial)
  }

  function ShiftMarks(marks: map<nat, Extmark>, e: Edit): map<nat, Extmark>
    requires e.Fits()
  {
    map id | id in marks :: marks[id].Shift(e)
  }

  function ShiftNs(byNs: map<nat, NsMarks>, e: Edit): map<nat, NsMarks>
    requires e.Fits()
  {
    map ns | ns in byNs :: byNs[ns].(marks := ShiftMarks(byNs[ns].marks, e))
  }

  function Shift(st: State, e: Edit): State
    requires e.Fits()
  {
    st.(byNs := ShiftNs(st.byNs, e))
  }
}
