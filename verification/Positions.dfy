/**
 * The sorted position index behind the per-frame range queries: entries ordered by
 * `(start, ns, id)`, kept sorted across an edit by re-sorting one window in place,
 * and a max-end segment tree walked with an explicit stack.
 */
module Positions {
  import opened Wrappers
  import opened Gravity

  datatype PosEntry = PosEntry(
    start: nat, end: nat, hasEnd: bool, rightGravity: bool, endRightGravity: bool, ns: nat, id: nat)

  predicate KeyLess(a: PosEntry, b: PosEntry) {
    a.start < b.start || (a.start == b.start && (a.ns < b.ns || (a.ns == b.ns && a.id < b.id)))
  }

  ghost predicate Sorted(s: seq<PosEntry>) {
    forall i, j | 0 <= i < j < |s| :: KeyLess(s[i], s[j])
  }

  ghost predicate DistinctKeys(s: seq<PosEntry>) {
    forall i, j | 0 <= i < j < |s| :: s[i].ns != s[j].ns || s[i].id != s[j].id
  }

  ghost predicate SameElements(s: seq<PosEntry>, t: seq<PosEntry>) {
    forall e :: e in s <==> e in t
  }

  /** A sorted listing of given entries is unique, so "sorted and the same elements" pins a sequence down. */
  lemma {:induction false} SortedListingUnique(s: seq<PosEntry>, t: seq<PosEntry>)
    requires Sorted(s) && Sorted(t) && SameElements(s, t)
    ensures s == t
    decreases |s|
  {
    assert |s| > 0 ==> s[0] in t;
    assert |t| > 0 ==> t[0] in s;
    if |s| > 0 {
      assert s[0] == t[0];
      forall e ensures e in s[1..] <==> e in t[1..] {
        assert e in s[1..] ==> e in s && e != s[0];
        assert e in t[1..] ==> e in t && e != t[0];
        assert s == [s[0]] + s[1..] && t == [t[0]] + t[1..];
      }
      SortedListingUnique(s[1..], t[1..]);
    }
  }

  // ----- sorting (the library's sort_by_key, as a function) ----------------------

  function Insert(e: PosEntry, s: seq<PosEntry>): (r: seq<PosEntry>)
    ensures |r| == |s| + 1
    ensures forall x :: x in r <==> x == e || x in s
  {
    if |s| == 0 then [e]
    else if KeyLess(e, s[0]) then [e] + s
    else
      var r := [s[0]] + Insert(e, s[1..]);
      assert s == [s[0]] + s[1..];
      r
  }

  function SortByKey(s: seq<PosEntry>): (r: seq<PosEntry>)
    ensures |r| == |s| && SameElements(r, s)
  {
    if |s| == 0 then []
    else
      assert s == [s[0]] + s[1..];
      Insert(s[0], SortByKey(s[1..]))
  }

  lemma {:induction false} InsertKeepsSorted(e: PosEntry, s: seq<PosEntry>)
    requires Sorted(s) && forall x | x in s :: x.ns != e.ns || x.id != e.id
    ensures Sorted(Insert(e, s))
    decreases |s|
  {
    if |s| > 0 && !KeyLess(e, s[0]) {
      InsertKeepsSorted(e, s[1..]);
      assert s[0] in s;
      var r := Insert(e, s[1..]);
      forall j | 0 <= j < |r| ensures KeyLess(s[0], r[j]) {
        assert r[j] in r;
      }
    }
  }

  lemma {:induction false} SortByKeySorts(s: seq<PosEntry>)
    requires DistinctKeys(s)
    ensures Sorted(SortByKey(s))
    decreases |s|
  {
    if |s| > 0 {
      SortByKeySorts(s[1..]);
      forall x | x in SortByKey(s[1..]) ensures x.ns != s[0].ns || x.id != s[0].id {
        var j :| 0 <= j < |s[1..]| && s[1..][j] == x;
        assert s[j + 1] == x;
      }
      InsertKeepsSorted(s[0], SortByKey(s[1..]));
    }
  }

  /** The library's binary search for the first entry not below `bound`. */
  method PartitionPoint(s: seq<PosEntry>, bound: nat) returns (k: nat)
    requires forall i, j | 0 <= i < j < |s| && s[j].start < bound :: s[i].start < bound
    ensures k <= |s|
    ensures forall i | 0 <= i < k :: s[i].start < bound
    ensures forall i | k <= i < |s| :: bound <= s[i].start
  {
    var hi := |s|;
    k := 0;
    while k < hi
      invariant k <= hi <= |s|
      invariant forall i | 0 <= i < k :: s[i].start < bound
      invariant forall i | hi <= i < |s| :: bound <= s[i].start
    {
      var mid := (k + hi) / 2;
      if s[mid].start < bound { k := mid + 1; } else { hi := mid; }
    }
  }

  // ----- moving the index across an edit -----------------------------------------

  function ShiftEntry(e: PosEntry, ed: Edit): PosEntry
    requires ed.Fits()
  {
    var s := ShiftAnchor(e.start, e.rightGravity, ed);
    var t := if e.hasEnd then Max(ShiftAnchor(e.end, e.endRightGravity, ed), s) else s;
    e.(start := s, end := t)
  }

  ghost function ShiftAll(s: seq<PosEntry>, ed: Edit): seq<PosEntry>
    requires ed.Fits()
  {
    seq(|s|, i requires 0 <= i < |s| => ShiftEntry(s[i], ed))
  }

  /**
   * Why re-sorting one window is enough.  After the map, the entries below the edit's
   * start come first, then those landing on `start..newEnd`, then the rest; the outer
   * two parts are still sorted, and only the middle one can have changed places.
   */
  lemma ShiftKeepsOrderOutsideWindow(old_: seq<PosEntry>, ed: Edit)
    requires ed.Fits() && Sorted(old_)
    ensures var s := ShiftAll(old_, ed);
      && (forall i, j | 0 <= i < j < |s| && s[j].start < ed.start :: s[i].start < ed.start)
      && (forall i, j | 0 <= i < j < |s| && s[j].start <= ed.newEnd :: s[i].start <= ed.newEnd)
      && (forall i, j | 0 <= i < j < |s| && (s[i].start < ed.start || ed.newEnd < s[j].start) ::
            KeyLess(s[i], s[j]))
  {
    var s := ShiftAll(old_, ed);
    forall i | 0 <= i < |s|
      ensures s[i].start < ed.start <==> old_[i].start < ed.start
      ensures s[i].start <= ed.newEnd <==> old_[i].start <= ed.oldEnd
    {
    }
    forall i, j | 0 <= i < j < |s| && (s[i].start < ed.start || ed.newEnd < s[j].start)
      ensures KeyLess(s[i], s[j])
    {
      assert KeyLess(old_[i], old_[j]);
    }
  }

  ghost predicate Windowed(s: seq<PosEntry>, from: nat, to: nat) {
    && from <= to <= |s|
    && (forall i, j | 0 <= i < j < |s| && (i < from || to <= j) :: KeyLess(s[i], s[j]))
  }

  ghost function WindowSorted(s: seq<PosEntry>, from: nat, to: nat): (r: seq<PosEntry>)
    requires from <= to <= |s|
    ensures |r| == |s|
  {
    s[..from] + SortByKey(s[from..to]) + s[to..]
  }

  /** Where an element of the window-sorted sequence came from. */
  lemma WindowSource(s: seq<PosEntry>, from: nat, to: nat, k: nat) returns (m: nat)
    requires from <= to <= |s| && k < |s|
    ensures m < |s| && s[m] == WindowSorted(s, from, to)[k]
    ensures if from <= k < to then from <= m < to else m == k
  {
    m := k;
    if from <= k < to {
      var w := SortByKey(s[from..to]);
      assert w[k - from] in w && w[k - from] in s[from..to];
      var j :| 0 <= j < to - from && s[from..to][j] == w[k - from];
      m := from + j;
    }
  }

  lemma WindowTarget(s: seq<PosEntry>, from: nat, to: nat, m: nat)
    requires from <= to <= |s| && m < |s|
    ensures s[m] in WindowSorted(s, from, to)
  {
    var r := WindowSorted(s, from, to);
    if from <= m < to {
      var w := SortByKey(s[from..to]);
      assert s[m] == s[from..to][m - from];
      assert s[m] in w;
      var j :| 0 <= j < |w| && w[j] == s[m];
      assert r[from + j] == s[m];
    } else {
      assert r[m] == s[m];
    }
  }

  /** Sorting the window of a sequence that is otherwise in place sorts the whole of it. */
  lemma WindowSortSorts(s: seq<PosEntry>, from: nat, to: nat)
    requires Windowed(s, from, to) && DistinctKeys(s)
    ensures Sorted(WindowSorted(s, from, to)) && SameElements(WindowSorted(s, from, to), s)
  {
    var w := SortByKey(s[from..to]);
    SortByKeySorts(s[from..to]);
    var r := WindowSorted(s, from, to);
    forall i, j | 0 <= i < j < |r| ensures KeyLess(r[i], r[j]) {
      if from <= i && j < to {
        assert r[i] == w[i - from] && r[j] == w[j - from];
      } else {
        var i' := WindowSource(s, from, to, i);
        var j' := WindowSource(s, from, to, j);
        assert KeyLess(s[i'], s[j']);
      }
    }
    forall e ensures e in r <==> e in s {
      if e in r {
        var k :| 0 <= k < |r| && r[k] == e;
        var m := WindowSource(s, from, to, k);
      }
      if e in s {
        var m :| 0 <= m < |s| && s[m] == e;
        WindowTarget(s, from, to, m);
      }
    }
  }

  method ShiftEach(a: array<PosEntry>, ed: Edit)
    requires ed.Fits()
    modifies a
    ensures a[..] == ShiftAll(old(a[..]), ed)
  {
    var i := 0;
    while i < a.Length
      invariant 0 <= i <= a.Length
      invariant forall k | 0 <= k < i :: a[k] == ShiftEntry(old(a[k]), ed)
      invariant forall k | i <= k < a.Length :: a[k] == old(a[k])
    {
      a[i] := ShiftEntry(a[i], ed);
      i := i + 1;
    }
  }

  method SortWindow(a: array<PosEntry>, from: nat, to: nat)
    requires from <= to <= a.Length
    modifies a
    ensures a[..] == WindowSorted(old(a[..]), from, to)
  {
    var window := SortByKey(a[from..to]);
    forall k | from <= k < to { a[k] := window[k - from]; }
  }

  /**
   * Move every entry for the edit, in place, then re-sort only the run of entries whose
   * new start lies in `[start, newEnd]`.  The result is the sorted listing of exactly
   * the moved entries.
   */
  method ShiftInPlace(a: array<PosEntry>, ed: Edit)
    requires ed.Fits() && Sorted(a[..]) && DistinctKeys(a[..])
    modifies a
    ensures Sorted(a[..]) && SameElements(a[..], ShiftAll(old(a[..]), ed))
  {
    ShiftEach(a, ed);
    ghost var moved := a[..];
    ShiftKeepsOrderOutsideWindow(old(a[..]), ed);
    var from := PartitionPoint(a[..], ed.start);
    var to := PartitionPoint(a[..], ed.newEnd + 1);
    assert from > 0 ==> moved[from - 1].start < ed.start;
    WindowSortSorts(moved, from, to);
    if to > from {
      SortWindow(a, from, to);
    } else {
      assert a[..] == WindowSorted(moved, from, to);
    }
  }
}
