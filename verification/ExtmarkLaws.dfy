/** What each operation on the marks does, mark by mark, and what ids it gives out. */
module ExtmarkLaws {
  import opened Wrappers
  import opened Gravity
  import opened ExtmarkState

  /** The two hold the same marks but for the one of this id, which the second may have besides. */
  ghost predicate SameBut(st: State, st': State, ns: nat, id: nat) {
    forall n, i | n != ns || i != id :: Has(st, n, i) == Has(st', n, i) && (Has(st, n, i) ==> SameMark(st, st', n, i))
  }

  ghost predicate SameMark(st: State, st': State, ns: nat, id: nat)
    requires Has(st, ns, id) && Has(st', ns, id)
  {
    st'.byNs[ns].marks[id] == st.byNs[ns].marks[id]
  }

  ghost predicate OnlyPlaced(st: State, st': State, ns: nat, id: nat) { Has(st', ns, id) && SameBut(st, st', ns, id) }

  /** A slot with a mark placed in it under the id it gives. */
  function WithMark(slot: NsMarks, id: Option<nat>, m: Extmark, gen: nat): NsMarks {
    NsMarks(slot.marks[IdFor(slot, id) := m], gen, NextIdAfter(slot, id))
  }

  /** The allocator stays past every id held, and past the one just given. */
  lemma PlacedIsAllocated(slot: NsMarks, id: Option<nat>, m: Extmark, gen: nat)
    requires SlotWellKeyed(slot) && m.id == IdFor(slot, id)
    ensures SlotWellKeyed(WithMark(slot, id, m, gen)) && slot.nextId <= NextIdAfter(slot, id)
    ensures Allocated(WithMark(slot, id, m, gen), m.id)
  {
  }

  /** An id the allocator gives is held by no mark, as long as the allocator is below its limit. */
  lemma AutomaticIsFresh(st: State, ns: nat)
    requires WellKeyed(st.byNs) && Slot(st, ns).nextId < MAX_U64
    ensures !Has(st, ns, IdFor(Slot(st, ns), None))
  {
    if ns in st.byNs { assert SlotWellKeyed(st.byNs[ns]); }
  }

  /** At its limit it gives the limit, which can replace only the mark of that id. */
  lemma AutomaticAtLimit(st: State, ns: nat)
    requires Slot(st, ns).nextId == MAX_U64
    ensures IdFor(Slot(st, ns), None) == MAX_U64
  {
  }

  /** Placing adds or replaces one mark, with a new serial, and touches no other. */
  lemma PlaceMeans(st: State, ns: nat, id: Option<nat>, at: Anchors, payload: Payload, stamp: nat)
    ensures var st' := Place(st, ns, id, at, payload, stamp); var used := IdFor(Slot(st, ns), id);
      OnlyPlaced(st, st', ns, used) && st'.byNs[ns].marks[used] == Extmark(used, at, payload, st'.nextSerial)
      && (id.Some? ==> used == id.value)
  {
  }

  lemma DeleteMeans(st: State, ns: nat, id: nat, stamp: nat)
    ensures var st' := Delete(st, ns, id, stamp); !Has(st', ns, id) && SameBut(st, st', ns, id)
  {
  }

  /** Clearing takes just the marks of the namespace that start in the range. */
  lemma ClearMeans(st: State, ns: nat, range: Option<(nat, nat)>, stamp: nat)
    ensures var st' := Clear(st, ns, range, stamp);
      forall n, i | Has(st, n, i) ::
        var m := st.byNs[n].marks[i];
        if n == ns && (range == None || range.value.0 <= m.at.start < range.value.1) then !Has(st', n, i)
        else Has(st', n, i) && SameMark(st, st', n, i)
    ensures var st' := Clear(st, ns, range, stamp); forall n, i | Has(st', n, i) :: Has(st, n, i)
  {
  }

  lemma ClearAllMeans(st: State, stamp: nat)
    ensures forall n, i :: !Has(ClearAll(st, stamp), n, i)
  {
  }

  /** A move empties the namespace in one store and puts its marks, and no others, in that of the other. */
  lemma MoveMeans(dst: State, src: State, ns: nat, stamp: nat, stamp': nat)
    ensures var (out, got) := (MoveOut(src, ns, stamp), MoveIn(dst, src, ns, stamp'));
      forall n, i ::
        (Has(out, n, i) <==> n != ns && Has(src, n, i)) && (Has(out, n, i) ==> SameMark(src, out, n, i))
        && (Has(got, n, i) <==> if n == ns then Has(src, n, i) else Has(dst, n, i))
        && (Has(got, n, i) ==> SameMark(if n == ns then src else dst, got, n, i))
  {
  }

  /** Ids are given out in order, and an id asked for moves the allocator only if it is not past it yet. */
  lemma AllocatorMoves(st: State, ns: nat, id: Option<nat>, at: Anchors, payload: Payload, stamp: nat)
    requires Slot(st, ns).nextId < MAX_U64
    ensures var (next, next') := (Slot(st, ns).nextId, Slot(Place(st, ns, id, at, payload, stamp), ns).nextId);
      match id
      case None => next' == next + 1
      case Some(k) => if k < next then next' == next else next' == if k < MAX_U64 then k + 1 else MAX_U64
  {
  }

  /** A clamped mark lies in the text, its end not before its start; one that did stays where it is. */
  lemma ClampMeans(at: Anchors, len: nat)
    ensures var r := Clamp(at, len);
      r.start <= len && (at.start <= len ==> r.start == at.start) && (at.start > len ==> r.start == len)
      && (r.end.Some? <==> at.end.Some?)
      && (at.end.Some? ==> r.start <= r.end.value <= len && (r.start <= at.end.value <= len ==> r.end == at.end))
      && r.rightGravity == at.rightGravity && r.endRightGravity == at.endRightGravity
  {
  }

  /**
   * Undo leaves the namespaces it skips alone; of any other it takes a mark back to where the
   * same placement was, and clamps the rest, and it holds the same marks as before.
   */
  lemma AdoptMeans(st: State, snap: State, len: nat, skip: set<nat>, stamp: nat)
    ensures var st' := Adopt(st, snap, len, skip, stamp);
      forall n, i ::
        (Has(st', n, i) <==> Has(st, n, i))
        && (Has(st, n, i) ==>
              var (m, m') := (st.byNs[n].marks[i], st'.byNs[n].marks[i]);
              if n in skip then m' == m
              else if SamePlacement(snap, n, m) then
                m'.at.start == snap.byNs[n].marks[m.id].at.start && m'.at.end == snap.byNs[n].marks[m.id].at.end
              else m'.at == Clamp(m.at, len))
  {
  }
}
