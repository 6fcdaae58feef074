/**
 * The extmark store: the marks of one buffer together with everything derived from
 * them, each method keeping the derived data exact.
 */
module ExtmarkStore {
  import opened Wrappers
  import opened Gravity
  import opened Positions
  import T = MaxEndTree
  import opened ExtmarkState
  import opened ExtmarkLaws
  import opened ExtmarkIndex
  import opened ExtmarkCounters

  /** The process-wide counter every structural stamp comes from. */
  class StampSource {
    var last: nat

    constructor()
      ensures last == 0
    {
      last := 0;
    }

    method Next() returns (stamp: nat)
      modifies this
      ensures stamp == last == old(last) + 1
    {
      last := last + 1;
      stamp := last;
    }
  }

  /** The combined index; its max-end tree is built by the first query that needs it. */
  datatype Index = Index(entries: seq<PosEntry>, tree: Option<T.Tree>)

  function Ends(entries: seq<PosEntry>): (r: seq<nat>)
    ensures |r| == |entries|
  {
    seq(|entries|, i requires 0 <= i < |entries| => entries[i].end)
  }

  ghost predicate IndexExact(index: Option<Index>, byNs: map<nat, NsMarks>) {
    index.Some? ==>
      && index.value.entries == IndexOf(byNs)
      && (index.value.tree.Some? ==> T.TreeOf(index.value.tree.value, Ends(index.value.entries)))
  }

  /** The two range queries: marks starting in `[lo, hi)`, and marks reaching into it. */
  datatype Query = StartsIn(lo: nat, hi: nat) | Reaches(lo: nat, hi: nat) {
    predicate Wants(m: Extmark) {
      match this
      case StartsIn(lo, hi) => lo <= m.at.start < hi
      case Reaches(lo, hi) => m.at.start < hi && lo <= m.at.Reach()
    }

    predicate Picks(e: PosEntry) {
      match this
      case StartsIn(lo, hi) => lo <= e.start < hi
      case Reaches(lo, hi) => e.start < hi && lo <= e.end
    }
  }

  /** The marks in `r` are exactly those the query wants, in `(start, ns, id)` order. */
  ghost predicate Answers(r: seq<(nat, Extmark)>, byNs: map<nat, NsMarks>, q: Query) {
    && (forall i, j | 0 <= i < j < |r| :: KeyLess(EntryOf(r[i].0, r[i].1), EntryOf(r[j].0, r[j].1)))
    && (forall ns, m ::
          (ns, m) in r <==> ns in byNs && m.id in byNs[ns].marks && byNs[ns].marks[m.id] == m && q.Wants(m))
  }

  class Store {
    const stamps: StampSource
    var byNs: map<nat, NsMarks>
    var generation: nat
    var virtLinesMarks: nat
    var gutterWidths: map<nat, nat>
    var nextSerial: nat
    /** Each namespace's own sorted run, for those whose run is built. */
    var runs: map<nat, seq<PosEntry>>
    var index: Option<Index>

    ghost function View(): State
      reads this
    {
      State(byNs, generation, nextSerial)
    }

    /** Every cache equals what it caches. */
    ghost predicate Valid()
      reads this
    {
      && WellKeyed(byNs)
      && RunsExact(runs, byNs)
      && IndexExact(index, byNs)
      && Tally(virtLinesMarks, gutterWidths) == TallyOf(Flatten(byNs))
    }

    constructor(stamps: StampSource)
      ensures Valid() && View() == EMPTY && this.stamps == stamps && runs == map[] && index == None
    {
      this.stamps := stamps;
      byNs, generation, virtLinesMarks, gutterWidths := map[], 0, 0, map[];
      nextSerial, runs, index := 0, map[], None;
      EmptyTally();
    }

    /** A snapshot: the same marks and stamps, none of the built indexes. */
    method Clone() returns (c: Store)
      requires Valid()
      ensures fresh(c) && c.Valid() && c.View() == View() && c.stamps == stamps
      ensures c.runs == map[] && c.index == None
    {
      c := new Store(stamps);
      c.byNs, c.generation, c.nextSerial := byNs, generation, nextSerial;
      c.virtLinesMarks, c.gutterWidths := virtLinesMarks, gutterWidths;
    }

    method TouchStructure()
      modifies `generation, `index, stamps
      ensures generation == stamps.last == old(stamps.last) + 1 && index == None
    {
      generation := stamps.Next();
      index := None;
    }

    /**
     * Places a mark, under a given id or one no mark holds while the allocator is below its
     * limit, and touches no other mark.
     */
    method Set(ns: nat, id: Option<nat>, at: Anchors, payload: Payload) returns (used: nat)
      requires Valid()
      modifies this, stamps
      ensures Valid()
      ensures View() == Place(old(View()), ns, id, at, payload, old(stamps.last) + 1)
      ensures used == IdFor(Slot(old(View()), ns), id)
      ensures id == None && Slot(old(View()), ns).nextId < MAX_U64 ==> !Has(old(View()), ns, used)
      ensures OnlyPlaced(old(View()), View(), ns, used)
      ensures View().byNs[ns].marks[used] == Extmark(used, at, payload, old(nextSerial) + 1)
      ensures stamps.last == old(stamps.last) + 2
    {
      PlaceMeans(View(), ns, id, at, payload, stamps.last + 1);
      if Slot(View(), ns).nextId < MAX_U64 { AutomaticIsFresh(View(), ns); }
      used := PlaceMark(ns, id, at, payload);
    }

    method PlaceMark(ns: nat, id: Option<nat>, at: Anchors, payload: Payload) returns (used: nat)
      requires Valid()
      modifies this, stamps
      ensures Valid()
      ensures View() == Place(old(View()), ns, id, at, payload, old(stamps.last) + 1)
      ensures used == IdFor(Slot(old(View()), ns), id)
      ensures stamps.last == old(stamps.last) + 2
    {
      TouchStructure();
      var slot := if ns in byNs then byNs[ns] else EMPTY_SLOT;
      used := slot.nextId;
      if id.Some? {
        used := id.value;
        slot := slot.(nextId := Max(slot.nextId, SaturatingInc(used)));
      } else {
        slot := slot.(nextId := SaturatingInc(slot.nextId));
      }
      nextSerial := nextSerial + 1;
      var mark := Extmark(used, at, payload, nextSerial);
      var stamp := stamps.Next();
      PlacedIsAllocated(Slot(old(View()), ns), id, mark, stamp);
      slot := slot.(marks := slot.marks[used := mark], gen := stamp);
      var t := CountPlaced(byNs, ns, slot, used, mark, Tally(virtLinesMarks, gutterWidths));
      PutSlot(ns, slot, t);
    }

    /** Put a changed slot in its place, with the counts that go with it; its run is stale. */
    method PutSlot(ns: nat, slot: NsMarks, t: Tally)
      requires WellKeyed(byNs) && RunsExact(runs, byNs) && index == None && SlotWellKeyed(slot)
      requires t == TallyOf(Flatten(byNs[ns := slot]))
      modifies `byNs, `runs, `virtLinesMarks, `gutterWidths
      ensures Valid() && byNs == old(byNs)[ns := slot]
    {
      OtherRunsSurvive(runs, byNs, byNs[ns := slot], ns);
      byNs, runs := byNs[ns := slot], runs - {ns};
      virtLinesMarks, gutterWidths := t.virt, t.widths;
    }

    method Del(ns: nat, id: nat) returns (existed: bool)
      requires Valid()
      modifies this, stamps
      ensures Valid()
      ensures View() == Delete(old(View()), ns, id, old(stamps.last) + 1)
      ensures existed == Has(old(View()), ns, id)
      ensures stamps.last == old(stamps.last) + if existed then 2 else 1
    {
      TouchStructure();
      existed := ns in byNs && id in byNs[ns].marks;
      if existed {
        var stamp := stamps.Next();
        var slot := byNs[ns].(marks := byNs[ns].marks - {id}, gen := stamp);
        var t := CountDeleted(byNs, ns, slot, id, Tally(virtLinesMarks, gutterWidths));
        PutSlot(ns, slot, t);
      }
    }

    method ClearNamespace(ns: nat, range: Option<(nat, nat)>)
      requires Valid()
      modifies this, stamps
      ensures Valid()
      ensures View() == Clear(old(View()), ns, range, old(stamps.last) + 1)
      ensures stamps.last == old(stamps.last) + if ns in old(byNs) then 2 else 1
    {
      TouchStructure();
      if ns !in byNs { return; }
      var stamp := stamps.Next();
      var slot, t := CountCleared(byNs, ns, range, stamp, Tally(virtLinesMarks, gutterWidths));
      PutSlot(ns, slot, t);
    }

    method ClearEverything()
      modifies this, stamps
      ensures Valid()
      ensures View() == ClearAll(old(View()), old(stamps.last) + 1)
      ensures stamps.last == old(stamps.last) + 1
    {
      TouchStructure();
      byNs, runs := map[], map[];
      virtLinesMarks, gutterWidths := 0, map[];
      EmptyTally();
    }

    /** Move a namespace's marks into `dst`, replacing whatever `dst` held for it. */
    method MoveNamespaceInto(ns: nat, dst: Store)
      requires Valid() && dst.Valid() && dst != this && dst.stamps == stamps
      modifies this, dst, stamps
      ensures Valid() && dst.Valid()
      ensures View() == MoveOut(old(View()), ns, old(stamps.last) + 1)
      ensures dst.View() == MoveIn(old(dst.View()), old(View()), ns, old(stamps.last) + 2)
      ensures stamps.last == old(stamps.last) + 2
    {
      var slot := TakeNamespace(ns);
      dst.GiveNamespace(ns, slot);
    }

    method TakeNamespace(ns: nat) returns (slot: Option<NsMarks>)
      requires Valid()
      modifies this, stamps
      ensures Valid()
      ensures View() == MoveOut(old(View()), ns, old(stamps.last) + 1)
      ensures stamps.last == old(stamps.last) + 1
      ensures slot == if ns in old(byNs) then Some(old(byNs)[ns]) else None
      ensures slot.Some? ==> SlotWellKeyed(slot.value)
    {
      TouchStructure();
      slot := if ns in byNs then Some(byNs[ns]) else None;
      DropNamespace(ns);
    }

    method GiveNamespace(ns: nat, slot: Option<NsMarks>)
      requires Valid() && (slot.Some? ==> SlotWellKeyed(slot.value))
      modifies this, stamps
      ensures Valid()
      ensures View() == State(if slot.Some? then old(byNs)[ns := slot.value] else old(byNs) - {ns},
                              old(stamps.last) + 1, old(nextSerial))
      ensures stamps.last == old(stamps.last) + 1
    {
      TouchStructure();
      DropNamespace(ns);
      if slot.Some? {
        InstallNamespace(ns, slot.value);
        assert (old(byNs) - {ns})[ns := slot.value] == old(byNs)[ns := slot.value];
      }
    }

    /** Take a namespace out of the store and out of its counts. */
    method DropNamespace(ns: nat)
      requires Valid() && index == None
      modifies `byNs, `runs, `virtLinesMarks, `gutterWidths
      ensures Valid() && byNs == old(byNs) - {ns}
    {
      var t := CountDropped(byNs, ns, Tally(virtLinesMarks, gutterWidths));
      virtLinesMarks, gutterWidths := t.virt, t.widths;
      OtherRunsSurvive(runs, byNs, byNs - {ns}, ns);
      byNs, runs := byNs - {ns}, runs - {ns};
    }

    method InstallNamespace(ns: nat, slot: NsMarks)
      requires Valid() && index == None && ns !in byNs && SlotWellKeyed(slot)
      modifies `byNs, `runs, `virtLinesMarks, `gutterWidths
      ensures Valid() && byNs == old(byNs)[ns := slot]
    {
      var t := CountInstalled(byNs, ns, slot, Tally(virtLinesMarks, gutterWidths));
      PutSlot(ns, slot, t);
    }

    /**
     * Take a history point's mark positions without changing which marks exist: the
     * same placement goes back to where the snapshot had it, any other mark is clamped
     * into the restored text.
     */
    method AdoptPositionsFrom(snap: Store, textLen: nat, skip: set<nat>)
      requires Valid() && snap != this
      modifies this, stamps
      ensures Valid()
      ensures View() == Adopt(old(View()), old(snap.View()), textLen, skip, old(stamps.last) + 1)
      ensures stamps.last == old(stamps.last) + 1
    {
      ghost var was := byNs;
      AdoptEveryMark(snap, textLen, skip);
      TallySame(was, byNs);
      TouchStructure();
    }

    method AdoptEveryMark(snap: Store, textLen: nat, skip: set<nat>)
      requires WellKeyed(byNs) && RunsExact(runs, byNs) && snap != this
      modifies `byNs, `runs
      ensures byNs == AdoptedNs(old(byNs), snap.View(), textLen, skip)
      ensures WellKeyed(byNs) && RunsExact(runs, byNs)
    {
      ghost var was := byNs;
      var todo := byNs.Keys - skip;
      while todo != {}
        invariant todo <= was.Keys - skip
        invariant byNs.Keys == was.Keys && RunsExact(runs, byNs)
        invariant forall ns | ns in was ::
          byNs[ns] == if ns in todo || ns in skip then was[ns]
                      else was[ns].(marks := AdoptedMarks(snap.View(), ns, was[ns].marks, textLen))
      {
        var ns :| ns in todo;
        todo := todo - {ns};
        var marks := AdoptSlot(ns, byNs[ns].marks, snap.byNs, textLen, snap.View());
        var slot := byNs[ns].(marks := marks);
        OtherRunsSurvive(runs, byNs, byNs[ns := slot], ns);
        runs, byNs := runs - {ns}, byNs[ns := slot];
      }
    }

    static method AdoptSlot(ns: nat, marks: map<nat, Extmark>, theirs: map<nat, NsMarks>, textLen: nat,
                            ghost snap: State)
        returns (moved: map<nat, Extmark>)
      requires theirs == snap.byNs
      ensures moved == AdoptedMarks(snap, ns, marks, textLen)
    {
      moved := marks;
      var todo := marks.Keys;
      while todo != {}
        invariant todo <= marks.Keys == moved.Keys
        invariant forall id | id in marks ::
          moved[id] == if id in todo then marks[id] else Adopted(snap, ns, marks[id], textLen)
      {
        var id :| id in todo;
        todo := todo - {id};
        var m := moved[id];
        if ns in theirs && m.id in theirs[ns].marks && theirs[ns].marks[m.id].serial == m.serial {
          var there := theirs[ns].marks[m.id].at;
          m := m.(at := m.at.(start := there.start, end := there.end));
        } else {
          var start := Min(m.at.start, textLen);
          var end := if m.at.end.Some? then Some(Max(Min(m.at.end.value, textLen), start)) else None;
          m := m.(at := m.at.(start := start, end := end));
        }
        moved := moved[id := m];
      }
    }

    /** Shift every anchor for an edit, the built indexes along with the marks. */
    method ShiftAnchors(e: Edit)
      requires Valid() && e.Fits()
      modifies this
      ensures Valid()
      ensures View() == Shift(old(View()), e)
      ensures index.Some? == old(index).Some? && runs.Keys == old(runs).Keys
    {
      if e.NoOp() {
        ShiftNoOp(View(), e);
        return;
      }
      ghost var was := byNs;
      ShiftEveryMark(e);
      TallySame(was, byNs);
      if index.Some? {
        IndexExists(was);
        var entries := ShiftEntries(index.value.entries, was, e);
        index := Some(Index(entries, None));
      }
      ShiftRuns(was, e);
    }

    method ShiftEveryMark(e: Edit)
      requires e.Fits() && WellKeyed(byNs)
      modifies `byNs
      ensures byNs == ShiftNs(old(byNs), e) && WellKeyed(byNs)
    {
      var todo := byNs.Keys;
      while todo != {}
        invariant todo <= old(byNs).Keys == byNs.Keys
        invariant forall ns | ns in byNs ::
          byNs[ns] == if ns in todo then old(byNs)[ns]
                      else old(byNs)[ns].(marks := ShiftMarks(old(byNs)[ns].marks, e))
      {
        var ns :| ns in todo;
        todo := todo - {ns};
        var marks := ShiftSlot(byNs[ns].marks, e);
        byNs := byNs[ns := byNs[ns].(marks := marks)];
      }
    }

    static method ShiftSlot(marks: map<nat, Extmark>, e: Edit) returns (moved: map<nat, Extmark>)
      requires e.Fits()
      ensures moved == ShiftMarks(marks, e)
    {
      moved := marks;
      var todo := marks.Keys;
      while todo != {}
        invariant todo <= marks.Keys == moved.Keys
        invariant forall id | id in marks :: moved[id] == if id in todo then marks[id] else marks[id].Shift(e)
      {
        var id :| id in todo;
        todo := todo - {id};
        moved := moved[id := moved[id].Shift(e)];
      }
    }

    static lemma ShiftNoOp(st: State, e: Edit)
      requires e.Fits() && e.NoOp()
      ensures Shift(st, e) == st
    {
      forall ns | ns in st.byNs ensures ShiftNs(st.byNs, e)[ns] == st.byNs[ns] {
        assert ShiftMarks(st.byNs[ns].marks, e) == st.byNs[ns].marks;
      }
      assert ShiftNs(st.byNs, e) == st.byNs;
    }

    /** Carry a built listing across the edit. */
    static method ShiftEntries(entries: seq<PosEntry>, ghost was: map<nat, NsMarks>, e: Edit)
        returns (moved: seq<PosEntry>)
      requires e.Fits() && !e.NoOp() && IsIndexOf(entries, was)
      ensures moved == IndexOf(ShiftNs(was, e))
    {
      var a := new PosEntry[|entries|](i requires 0 <= i < |entries| => entries[i]);
      assert a[..] == entries;
      IndexHasDistinctKeys(entries, was);
      ShiftInPlace(a, e);
      moved := a[..];
      ShiftedIndex(entries, moved, was, e);
      IndexUnique(moved, ShiftNs(was, e));
    }

    static method ShiftRun(run: seq<PosEntry>, ghost ns: nat, ghost slot: NsMarks, e: Edit)
        returns (moved: seq<PosEntry>)
      requires e.Fits() && !e.NoOp() && SlotWellKeyed(slot) && run == IndexOf(map[ns := slot])
      ensures moved == IndexOf(map[ns := slot.(marks := ShiftMarks(slot.marks, e))])
    {
      ghost var alone := map[ns := slot];
      IndexExists(alone);
      moved := ShiftEntries(run, alone, e);
      assert ShiftNs(alone, e) == map[ns := slot.(marks := ShiftMarks(slot.marks, e))];
    }

    method ShiftRuns(ghost was: map<nat, NsMarks>, e: Edit)
      requires e.Fits() && !e.NoOp() && WellKeyed(was) && RunsExact(runs, was) && byNs == ShiftNs(was, e)
      modifies `runs
      ensures RunsExact(runs, byNs) && runs.Keys == old(runs).Keys
    {
      var todo := runs.Keys;
      while todo != {}
        invariant todo <= runs.Keys == old(runs).Keys
        invariant forall ns | ns in runs ::
          ns in was && runs[ns] == IndexOf(map[ns := if ns in todo then was[ns] else byNs[ns]])
      {
        var ns :| ns in todo;
        todo := todo - {ns};
        var run := ShiftRun(runs[ns], ns, was[ns], e);
        runs := runs[ns := run];
      }
    }

    // ----- queries ------------------------------------------------------------------

    /** The namespace's run, built now if a change dropped it. */
    method Run(ns: nat) returns (run: seq<PosEntry>)
      requires Valid() && ns in byNs
      modifies `runs
      ensures Valid() && run == IndexOf(map[ns := byNs[ns]])
    {
      if ns in runs { return runs[ns]; }
      run := BuildRun(ns, byNs[ns]);
      runs := runs[ns := run];
    }

    /** The combined index, merged now from the runs if a change dropped it. */
    method EnsureIndex()
      requires Valid()
      modifies `runs, `index
      ensures Valid() && index.Some?
      ensures old(index).Some? ==> index == old(index)
    {
      if index.Some? { return; }
      var acc: seq<PosEntry> := [];
      var todo := byNs.Keys;
      while todo != {}
        invariant Valid() && index == None
        invariant todo <= byNs.Keys
        invariant DistinctKeys(acc) && forall e :: e in acc <==> Lists(byNs, e) && e.ns !in todo
      {
        var ns :| ns in todo;
        IndexExists(map[ns := byNs[ns]]);
        ghost var before := acc;
        if |byNs[ns].marks| > 0 {
          var run := Run(ns);
          acc := acc + run;
        } else {
          assert IndexOf(map[ns := byNs[ns]]) == [] by { NothingListed(ns, byNs[ns]); }
          assert acc == before + [];
        }
        AppendRun(before, IndexOf(map[ns := byNs[ns]]), byNs, ns, todo);
        todo := todo - {ns};
      }
      SortGivesIndex(acc, byNs);
      index := Some(Index(SortByKey(acc), None));
    }

    static lemma NothingListed(ns: nat, slot: NsMarks)
      requires |slot.marks| == 0
      ensures IndexOf(map[ns := slot]) == []
    {
      assert IsIndexOf([], map[ns := slot]);
      IndexUnique([], map[ns := slot]);
    }

    /** Look up the marks the entries name. */
    method Resolve(slice: seq<PosEntry>) returns (r: seq<(nat, Extmark)>)
      requires forall e | e in slice :: Lists(byNs, e)
      ensures |r| == |slice|
      ensures forall k | 0 <= k < |r| ::
        Lists(byNs, slice[k]) && r[k] == (slice[k].ns, byNs[slice[k].ns].marks[slice[k].id])
    {
      r := [];
      for i := 0 to |slice|
        invariant |r| == i
        invariant forall k | 0 <= k < i ::
          Lists(byNs, slice[k]) && r[k] == (slice[k].ns, byNs[slice[k].ns].marks[slice[k].id])
      {
        assert slice[i] in slice;
        r := r + [(slice[i].ns, byNs[slice[i].ns].marks[slice[i].id])];
      }
    }

    /** Every mark whose start lies in `[lo, hi)`, in `(start, ns, id)` order. */
    method StartingIn(lo: nat, hi: nat) returns (r: seq<(nat, Extmark)>)
      requires Valid()
      modifies `runs, `index
      ensures Valid()
      ensures Answers(r, byNs, StartsIn(lo, hi))
    {
      EnsureIndex();
      IndexExists(byNs);
      var entries := index.value.entries;
      SortedStarts(entries);
      var from := PartitionPoint(entries, lo);
      var to := PartitionPoint(entries, hi);
      if to < from { to := from; }
      var slice := entries[from..to];
      forall e ensures e in slice <==> e in entries && lo <= e.start < hi {
        if e in entries && lo <= e.start < hi {
          var k :| 0 <= k < |entries| && entries[k] == e;
          assert slice[k - from] == e;
        }
      }
      r := Resolve(slice);
      AnswersFromSlice(r, slice, byNs, StartsIn(lo, hi));
    }

    /**
     * Every mark that reaches into `[lo, hi)`: its start is below `hi` and its end (its
     * start, for a point mark) is at or past `lo`; in `(start, ns, id)` order.
     */
    method Reaching(lo: nat, hi: nat) returns (r: seq<(nat, Extmark)>)
      requires Valid()
      modifies `runs, `index
      ensures Valid()
      ensures Answers(r, byNs, Reaches(lo, hi))
    {
      EnsureIndex();
      IndexExists(byNs);
      var entries := index.value.entries;
      SortedStarts(entries);
      var upto := PartitionPoint(entries, hi);
      if index.value.tree.None? {
        var built := T.Build(Ends(entries));
        index := Some(Index(entries, Some(built)));
      }
      var hits := T.Reaching(index.value.tree.value, Ends(entries), upto, lo);
      var slice := Pick(entries, hits, upto, lo, hi);
      r := Resolve(slice);
      AnswersFromSlice(r, slice, byNs, Reaches(lo, hi));
    }

    /** The entries at the hit indices. */
    static method Pick(entries: seq<PosEntry>, hits: seq<nat>, upto: nat, lo: nat, ghost hi: nat)
        returns (slice: seq<PosEntry>)
      requires Sorted(entries) && upto <= |entries| && hits == T.Hits(Ends(entries), 0, upto, lo)
      requires forall i | 0 <= i < |entries| :: i < upto <==> entries[i].start < hi
      ensures Sorted(slice)
      ensures forall e :: e in slice <==> e in entries && e.start < hi && lo <= e.end
    {
      T.HitsAscend(Ends(entries), 0, upto, lo);
      forall i ensures i in hits <==> 0 <= i < upto && entries[i].end >= lo {
        if i >= 0 { T.HitsMembers(Ends(entries), 0, upto, lo, i); }
      }
      assert forall k | 0 <= k < |hits| :: hits[k] in hits;
      slice := seq(|hits|, k requires 0 <= k < |hits| => entries[hits[k]]);
      forall e ensures e in slice <==> e in entries && e.start < hi && lo <= e.end {
        if e in slice {
          var k :| 0 <= k < |slice| && slice[k] == e;
        }
        if e in entries && e.start < hi && lo <= e.end {
          var i :| 0 <= i < |entries| && entries[i] == e;
          assert i in hits;
          var k :| 0 <= k < |hits| && hits[k] == i;
          assert slice[k] == e;
        }
      }
    }

    method HasAnyVirtLines() returns (b: bool)
      requires Valid()
      ensures b <==> exists ns, id | ns in byNs && id in byNs[ns].marks :: byNs[ns].marks[id].payload.virtLines > 0
    {
      b := virtLinesMarks > 0;
      TallyMeans(Flatten(byNs), Tally(virtLinesMarks, gutterWidths));
      FlattenIsFlat(byNs);
      if b {
        assert VirtKeys(Flatten(byNs)) != {};
        ghost var k :| k in VirtKeys(Flatten(byNs));
        assert byNs[k.ns].marks[k.id].payload.virtLines > 0;
      } else {
        assert VirtKeys(Flatten(byNs)) == {};
        forall ns, id | ns in byNs && id in byNs[ns].marks ensures byNs[ns].marks[id].payload.virtLines == 0 {
          assert Key(ns, id) !in VirtKeys(Flatten(byNs));
        }
      }
    }

    /** The width of the gutter text column: the widest any mark carries, 0 when none does. */
    method GutterTextWidth() returns (w: nat)
      requires Valid()
      ensures forall ns, id | ns in byNs && id in byNs[ns].marks :: byNs[ns].marks[id].payload.gutterWidth <= w
      ensures w > 0 ==> exists ns, id | ns in byNs && id in byNs[ns].marks ::
        byNs[ns].marks[id].payload.gutterWidth == w
    {
      w := LargestKey(gutterWidths);
      TallyMeans(Flatten(byNs), Tally(virtLinesMarks, gutterWidths));
      FlattenIsFlat(byNs);
      forall ns, id | ns in byNs && id in byNs[ns].marks ensures byNs[ns].marks[id].payload.gutterWidth <= w {
        ghost var (m, k) := (Flatten(byNs), Key(ns, id));
        assert k in m && m[k] == byNs[ns].marks[id];
        assert m[k].payload.gutterWidth > 0 ==> m[k].payload.gutterWidth in Widths(m);
        assert m[k].payload.gutterWidth > 0 ==> m[k].payload.gutterWidth in gutterWidths;
      }
      if w > 0 {
        assert w in Widths(Flatten(byNs));
        ghost var k :| k in Flatten(byNs) && Flatten(byNs)[k].payload.gutterWidth == w;
        assert byNs[k.ns].marks[k.id].payload.gutterWidth == w;
      }
    }

    static method LargestKey(widths: map<nat, nat>) returns (w: nat)
      ensures forall k | k in widths :: k <= w
      ensures w in widths || (w == 0 && widths == map[])
    {
      w := 0;
      if widths == map[] { return; }
      var todo := widths.Keys;
      w :| w in todo;
      while todo != {}
        invariant todo <= widths.Keys && w in widths
        invariant forall k | k in widths :: k in todo || k <= w
      {
        var k :| k in todo;
        todo := todo - {k};
        if k > w { w := k; }
      }
    }
  }

  lemma SortedStarts(s: seq<PosEntry>)
    requires Sorted(s)
    ensures forall i, j | 0 <= i < j < |s| :: s[i].start <= s[j].start
  {
    forall i, j | 0 <= i < j < |s| ensures s[i].start <= s[j].start {
      assert KeyLess(s[i], s[j]);
    }
  }

  /** Marks looked up from the wanted entries of an exact index answer the query. */
  lemma AnswersFromSlice(r: seq<(nat, Extmark)>, slice: seq<PosEntry>, byNs: map<nat, NsMarks>, q: Query)
    requires WellKeyed(byNs) && Sorted(slice) && |r| == |slice|
    requires forall e :: e in slice <==> Lists(byNs, e) && q.Picks(e)
    requires forall k | 0 <= k < |r| ::
      Lists(byNs, slice[k]) && r[k] == (slice[k].ns, byNs[slice[k].ns].marks[slice[k].id])
    ensures Answers(r, byNs, q)
  {
    forall k | 0 <= k < |r| ensures EntryOf(r[k].0, r[k].1) == slice[k] && q.Wants(r[k].1) {
      assert slice[k] in slice;
    }
    forall i, j | 0 <= i < j < |r| ensures KeyLess(EntryOf(r[i].0, r[i].1), EntryOf(r[j].0, r[j].1)) {
      assert KeyLess(slice[i], slice[j]);
    }
    forall ns, m ensures (ns, m) in r
      <==> ns in byNs && m.id in byNs[ns].marks && byNs[ns].marks[m.id] == m && q.Wants(m) {
      if (ns, m) in r {
        var k :| 0 <= k < |r| && r[k] == (ns, m);
        assert SlotWellKeyed(byNs[slice[k].ns]);
      }
      if ns in byNs && m.id in byNs[ns].marks && byNs[ns].marks[m.id] == m && q.Wants(m) {
        assert EntryOf(ns, m) in slice;
        var k :| 0 <= k < |slice| && slice[k] == EntryOf(ns, m);
        assert r[k] == (ns, m);
      }
    }
  }
}
