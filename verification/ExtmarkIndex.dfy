/** What it means for a list of position entries to be the index of the marks there are. */
module ExtmarkIndex {
  import opened Wrappers
  import opened Gravity
  import opened Positions
  import opened ExtmarkState

  function EntryOf(ns: nat, m: Extmark): PosEntry {
    PosEntry(m.at.start, m.at.Reach(), m.at.end.Some?, m.at.rightGravity, m.at.endRightGravity, ns, m.id)
  }

  /** The entry is that of a mark the namespaces hold, with its current anchors and gravity. */
  ghost predicate Lists(byNs: map<nat, NsMarks>, e: PosEntry) {
    e.ns in byNs && e.id in byNs[e.ns].marks && e == EntryOf(e.ns, byNs[e.ns].marks[e.id])
  }

  /** Exactly the marks there are, each once, in `(start, ns, id)` order. */
  ghost predicate IsIndexOf(entries: seq<PosEntry>, byNs: map<nat, NsMarks>) {
    Sorted(entries) && forall e :: e in entries <==> Lists(byNs, e)
  }

  lemma IndexHasDistinctKeys(entries: seq<PosEntry>, byNs: map<nat, NsMarks>)
    requires IsIndexOf(entries, byNs)
    ensures DistinctKeys(entries)
  {
    forall i, j | 0 <= i < j < |entries| ensures entries[i].ns != entries[j].ns || entries[i].id != entries[j].id {
      assert entries[i] in entries && entries[j] in entries;
      assert KeyLess(entries[i], entries[j]);
    }
  }

  /** The copy of a mark's anchors in the index moves exactly as the mark does. */
  lemma EntryMovesWithMark(ns: nat, m: Extmark, ed: Edit)
    requires ed.Fits() && !ed.NoOp()
    ensures EntryOf(ns, m.Shift(ed)) == ShiftEntry(EntryOf(ns, m), ed)
  {
  }

  /** Moving the entries of an index gives the index of the moved marks. */
  lemma ShiftedIndex(was: seq<PosEntry>, now: seq<PosEntry>, byNs: map<nat, NsMarks>, ed: Edit)
    requires ed.Fits() && !ed.NoOp()
    requires IsIndexOf(was, byNs) && Sorted(now) && SameElements(now, ShiftAll(was, ed))
    ensures IsIndexOf(now, ShiftNs(byNs, ed))
  {
    var moved := ShiftAll(was, ed);
    forall e ensures e in moved <==> Lists(ShiftNs(byNs, ed), e) {
      if e in moved {
        var k :| 0 <= k < |was| && moved[k] == e;
        assert was[k] in was;
        EntryMovesWithMark(was[k].ns, byNs[was[k].ns].marks[was[k].id], ed);
      }
      if Lists(ShiftNs(byNs, ed), e) {
        var e0 := EntryOf(e.ns, byNs[e.ns].marks[e.id]);
        EntryMovesWithMark(e.ns, byNs[e.ns].marks[e.id], ed);
        assert Lists(byNs, e0);
        var k :| 0 <= k < |was| && was[k] == e0;
        assert moved[k] == e;
      }
    }
  }

  /** The index of the marks there are: the one sorted listing of them. */
  ghost function IndexOf(byNs: map<nat, NsMarks>): seq<PosEntry> {
    if exists s :: IsIndexOf(s, byNs) then
      var s :| IsIndexOf(s, byNs);
      s
    else []
  }

  lemma IndexUnique(s: seq<PosEntry>, byNs: map<nat, NsMarks>)
    requires IsIndexOf(s, byNs)
    ensures s == IndexOf(byNs)
  {
    SortedListingUnique(s, IndexOf(byNs));
  }

  /** Entries collected in any order become the index by sorting. */
  lemma SortGivesIndex(acc: seq<PosEntry>, byNs: map<nat, NsMarks>)
    requires DistinctKeys(acc) && forall e :: e in acc <==> Lists(byNs, e)
    ensures IsIndexOf(SortByKey(acc), byNs) && SortByKey(acc) == IndexOf(byNs)
  {
    SortByKeySorts(acc);
    IndexUnique(SortByKey(acc), byNs);
  }

  method BuildRun(ns: nat, slot: NsMarks) returns (entries: seq<PosEntry>)
    requires SlotWellKeyed(slot)
    ensures IsIndexOf(entries, map[ns := slot]) && entries == IndexOf(map[ns := slot])
  {
    var acc: seq<PosEntry> := [];
    var todo := slot.marks.Keys;
    while todo != {}
      invariant todo <= slot.marks.Keys
      invariant forall e :: e in acc <==> Lists(map[ns := slot], e) && e.id !in todo
      invariant DistinctKeys(acc)
    {
      var id :| id in todo;
      todo := todo - {id};
      forall k | 0 <= k < |acc| ensures acc[k].id != id {
        assert acc[k] in acc;
      }
      acc := acc + [EntryOf(ns, slot.marks[id])];
    }
    SortGivesIndex(acc, map[ns := slot]);
    entries := SortByKey(acc);
  }

  /** Append one namespace's run to the entries collected from others. */
  lemma AppendRun(acc: seq<PosEntry>, run: seq<PosEntry>, byNs: map<nat, NsMarks>, ns: nat, todo: set<nat>)
    requires ns in byNs && ns in todo && IsIndexOf(run, map[ns := byNs[ns]])
    requires DistinctKeys(acc) && forall e :: e in acc <==> Lists(byNs, e) && e.ns !in todo
    ensures DistinctKeys(acc + run)
    ensures forall e :: e in acc + run <==> Lists(byNs, e) && e.ns !in todo - {ns}
  {
    IndexHasDistinctKeys(run, map[ns := byNs[ns]]);
    forall k | 0 <= k < |acc| ensures acc[k].ns != ns { assert acc[k] in acc; }
    forall k | 0 <= k < |run| ensures run[k].ns == ns { assert run[k] in run; }
    forall e ensures e in run <==> Lists(byNs, e) && e.ns == ns {
      assert e in run <==> Lists(map[ns := byNs[ns]], e);
    }
  }

  /** Marks under their own ids always have an index. */
  lemma IndexExists(byNs: map<nat, NsMarks>)
    requires WellKeyed(byNs)
    ensures IsIndexOf(IndexOf(byNs), byNs)
  {
    var acc: seq<PosEntry> := [];
    var todo := byNs.Keys;
    while todo != {}
      invariant todo <= byNs.Keys
      invariant DistinctKeys(acc) && forall e :: e in acc <==> Lists(byNs, e) && e.ns !in todo
    {
      var ns :| ns in todo;
      var run := RunExists(ns, byNs[ns]);
      AppendRun(acc, run, byNs, ns, todo);
      acc, todo := acc + run, todo - {ns};
    }
    SortGivesIndex(acc, byNs);
  }

  lemma RunExists(ns: nat, slot: NsMarks) returns (run: seq<PosEntry>)
    requires SlotWellKeyed(slot)
    ensures IsIndexOf(run, map[ns := slot])
  {
    var acc: seq<PosEntry> := [];
    var todo := slot.marks.Keys;
    while todo != {}
      invariant todo <= slot.marks.Keys
      invariant DistinctKeys(acc) && forall e :: e in acc <==> Lists(map[ns := slot], e) && e.id !in todo
    {
      var id :| id in todo;
      todo := todo - {id};
      forall k | 0 <= k < |acc| ensures acc[k].id != id {
        assert acc[k] in acc;
      }
      acc := acc + [EntryOf(ns, slot.marks[id])];
    }
    SortGivesIndex(acc, map[ns := slot]);
    run := SortByKey(acc);
  }

  /** Every built run is the index of its namespace alone. */
  ghost predicate RunsExact(runs: map<nat, seq<PosEntry>>, byNs: map<nat, NsMarks>) {
    forall ns | ns in runs :: ns in byNs && runs[ns] == IndexOf(map[ns := byNs[ns]])
  }

  /** A change to one namespace leaves the runs of the others exact. */
  lemma OtherRunsSurvive(runs: map<nat, seq<PosEntry>>, byNs: map<nat, NsMarks>, byNs': map<nat, NsMarks>, ns: nat)
    requires RunsExact(runs, byNs)
    requires forall n | n in byNs && n != ns :: n in byNs' && byNs'[n] == byNs[n]
    ensures RunsExact(runs - {ns}, byNs')
  {
  }
}
