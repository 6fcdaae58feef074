/**
 * The two cached counts over every mark of a store: how many carry virtual lines, and
 * how many carry a gutter text of each positive width.
 */
module ExtmarkCounters {
  import opened Wrappers
  import opened ExtmarkState

  datatype Key = Key(ns: nat, id: nat)

  /** Every mark of the store under its `(namespace, id)` key. */
  type Flat = map<Key, Extmark>

  ghost predicate IsFlat(m: Flat, byNs: map<nat, NsMarks>) {
    forall k: Key :: if k.ns in byNs && k.id in byNs[k.ns].marks
                then k in m && m[k] == byNs[k.ns].marks[k.id]
                else k !in m
  }

  lemma FlatExists(byNs: map<nat, NsMarks>)
    ensures exists m :: IsFlat(m, byNs)
  {
    var keys := set ns, id | ns in byNs && id in byNs[ns].marks :: Key(ns, id);
    assert IsFlat(map k | k in keys :: byNs[k.ns].marks[k.id], byNs);
  }

  ghost function Flatten(byNs: map<nat, NsMarks>): Flat {
    FlatExists(byNs);
    var m :| IsFlat(m, byNs);
    m
  }

  lemma FlattenIsFlat(byNs: map<nat, NsMarks>)
    ensures IsFlat(Flatten(byNs), byNs)
  {
    FlatExists(byNs);
  }

  ghost function VirtKeys(m: Flat): set<Key> {
    set k | k in m && m[k].payload.virtLines > 0
  }

  ghost function WidthKeys(m: Flat, w: nat): set<Key> {
    set k | k in m && m[k].payload.gutterWidth == w
  }

  ghost function Widths(m: Flat): set<nat> {
    set k | k in m && m[k].payload.gutterWidth > 0 :: m[k].payload.gutterWidth
  }

  /** How many marks carry a gutter text of each positive width. */
  ghost function Histogram(m: Flat): map<nat, nat> {
    map w | w in Widths(m) :: |WidthKeys(m, w)|
  }

  function HasVirtLines(m: Extmark): nat { if m.payload.virtLines > 0 then 1 else 0 }

  /** Count one width in or out. */
  function CountGutter(widths: map<nat, nat>, w: nat, add: bool): map<nat, nat> {
    if w == 0 then widths
    else if add then widths[w := (if w in widths then widths[w] else 0) + 1]
    else if w in widths then
      if widths[w] <= 1 then widths - {w} else widths[w := widths[w] - 1]
    else widths
  }

  lemma KeysAfterAdd(m: Flat, k: Key, mark: Extmark, w: nat)
    requires k !in m
    ensures WidthKeys(m[k := mark], w) == WidthKeys(m, w) + if w == mark.payload.gutterWidth then {k} else {}
    ensures VirtKeys(m[k := mark]) == VirtKeys(m) + if HasVirtLines(mark) == 1 then {k} else {}
    ensures k !in WidthKeys(m, w) && k !in VirtKeys(m)
  {
  }

  lemma KeysAfterRemove(m: Flat, k: Key, w: nat)
    requires k in m
    ensures WidthKeys(m - {k}, w) == WidthKeys(m, w) - {k}
    ensures VirtKeys(m - {k}) == VirtKeys(m) - {k}
    ensures k in WidthKeys(m, w) <==> w == m[k].payload.gutterWidth
    ensures k in VirtKeys(m) <==> HasVirtLines(m[k]) == 1
  {
  }

  lemma WidthPresent(m: Flat, w: nat)
    ensures w in Widths(m) <==> w > 0 && WidthKeys(m, w) != {}
    ensures w !in Widths(m) && w > 0 ==> |WidthKeys(m, w)| == 0
  {
    if w in Widths(m) {
      var k :| k in m && m[k].payload.gutterWidth == w;
      assert k in WidthKeys(m, w);
    }
    if WidthKeys(m, w) != {} {
      var k :| k in WidthKeys(m, w);
      assert w > 0 ==> m[k].payload.gutterWidth in Widths(m);
    }
  }

  /** One width's count after a mark is added. */
  lemma AddKeyWidth(m: Flat, k: Key, mark: Extmark, w: nat)
    requires k !in m
    ensures
      var (h, h') := (Histogram(m), Histogram(m[k := mark]));
      if w > 0 && w == mark.payload.gutterWidth then
        w in h' && h'[w] == (if w in h then h[w] else 0) + 1
      else (w in h' <==> w in h) && (w in h ==> h'[w] == h[w])
  {
    WidthPresent(m, w);
    WidthPresent(m[k := mark], w);
    KeysAfterAdd(m, k, mark, w);
  }

  lemma AddKey(m: Flat, k: Key, mark: Extmark)
    requires k !in m
    ensures Histogram(m[k := mark]) == CountGutter(Histogram(m), mark.payload.gutterWidth, true)
    ensures |VirtKeys(m[k := mark])| == |VirtKeys(m)| + HasVirtLines(mark)
  {
    KeysAfterAdd(m, k, mark, 0);
    var (h, h') := (CountGutter(Histogram(m), mark.payload.gutterWidth, true), Histogram(m[k := mark]));
    forall w: nat ensures w in h' <==> w in h
      ensures w in h' ==> h'[w] == h[w]
    {
      AddKeyWidth(m, k, mark, w);
    }
  }

  lemma RemoveKey(m: Flat, k: Key)
    requires k in m
    ensures Histogram(m - {k}) == CountGutter(Histogram(m), m[k].payload.gutterWidth, false)
    ensures |VirtKeys(m - {k})| == |VirtKeys(m)| - HasVirtLines(m[k])
  {
    AddKey(m - {k}, k, m[k]);
    assert (m - {k})[k := m[k]] == m;
  }

  /** Counting the new mark in before the replaced one out gives the same histogram. */
  lemma CountOrder(widths: map<nat, nat>, gained: nat, lost: nat)
    requires lost > 0 ==> lost in widths && widths[lost] >= 1
    ensures CountGutter(CountGutter(widths, gained, true), lost, false)
         == CountGutter(CountGutter(widths, lost, false), gained, true)
  {
  }

  /** The two counts a store caches. */
  datatype Tally = Tally(virt: nat, widths: map<nat, nat>)

  ghost predicate Counts(t: Tally, m: Flat) {
    t.virt == |VirtKeys(m)| && t.widths == Histogram(m)
  }

  /** What the two caches over the marks `m` must hold. */
  ghost function TallyOf(m: Flat): Tally {
    assert Counts(Tally(|VirtKeys(m)|, Histogram(m)), m);
    var t :| Counts(t, m);
    t
  }

  lemma TallyMeans(m: Flat, t: Tally)
    ensures t == TallyOf(m) <==> Counts(t, m)
  {
    assert Counts(Tally(|VirtKeys(m)|, Histogram(m)), m);
  }

  /** Replacing the mark under a key: the new one is counted in, then the old one out. */
  lemma ReplaceKey(m: Flat, k: Key, mark: Extmark)
    requires k in m
    ensures Histogram(m[k := mark]) ==
      CountGutter(CountGutter(Histogram(m), mark.payload.gutterWidth, true), m[k].payload.gutterWidth, false)
    ensures |VirtKeys(m[k := mark])| == |VirtKeys(m)| + HasVirtLines(mark) - HasVirtLines(m[k])
    ensures |VirtKeys(m)| >= HasVirtLines(m[k])
  {
    RemoveKey(m, k);
    AddKey(m - {k}, k, mark);
    assert (m - {k})[k := mark] == m[k := mark];
    var lost := m[k].payload.gutterWidth;
    KeysAfterRemove(m, k, lost);
    WidthPresent(m, lost);
    CountOrder(Histogram(m), mark.payload.gutterWidth, lost);
  }

  /** Moving anchors changes neither count: they read payloads only. */
  lemma PayloadsDecide(m: Flat, m': Flat)
    requires m.Keys == m'.Keys && forall k | k in m :: m[k].payload == m'[k].payload
    ensures VirtKeys(m) == VirtKeys(m') && Histogram(m) == Histogram(m')
  {
    assert Widths(m) == Widths(m');
    forall w | w in Widths(m) ensures WidthKeys(m, w) == WidthKeys(m', w) {
    }
  }

  ghost predicate AreNsKeys(keys: set<Key>, ns: nat, ids: set<nat>) {
    forall k :: k in keys <==> k.ns == ns && k.id in ids
  }

  ghost function NsKeys(ns: nat, ids: set<nat>): (keys: set<Key>)
    ensures AreNsKeys(keys, ns, ids)
  {
    assert AreNsKeys(set id | id in ids :: Key(ns, id), ns, ids);
    var keys :| AreNsKeys(keys, ns, ids);
    keys
  }

  /** One namespace's marks as they appear among all of them. */
  ghost predicate HoldsSlot(m: Flat, ns: nat, marks: map<nat, Extmark>) {
    forall id | id in marks :: Key(ns, id) in m && m[Key(ns, id)] == marks[id]
  }

  lemma FlattenPlace(byNs: map<nat, NsMarks>, ns: nat, slot: NsMarks, id: nat, mark: Extmark)
    requires slot.marks == (if ns in byNs then byNs[ns].marks else map[])[id := mark]
    ensures Flatten(byNs[ns := slot]) == Flatten(byNs)[Key(ns, id) := mark]
  {
    FlattenIsFlat(byNs);
    FlattenIsFlat(byNs[ns := slot]);
  }

  lemma FlattenKeep(byNs: map<nat, NsMarks>, ns: nat, slot: NsMarks, gone: set<Key>)
    requires ns in byNs && slot.marks.Keys <= byNs[ns].marks.Keys
    requires forall id | id in slot.marks :: slot.marks[id] == byNs[ns].marks[id]
    requires AreNsKeys(gone, ns, byNs[ns].marks.Keys - slot.marks.Keys)
    ensures Flatten(byNs[ns := slot]) == Flatten(byNs) - gone
  {
    FlattenIsFlat(byNs);
    FlattenIsFlat(byNs[ns := slot]);
  }

  lemma FlattenDrop(byNs: map<nat, NsMarks>, ns: nat)
    requires ns in byNs
    ensures Flatten(byNs - {ns}) == Flatten(byNs) - NsKeys(ns, byNs[ns].marks.Keys)
  {
    FlattenIsFlat(byNs);
    FlattenIsFlat(byNs - {ns});
  }

  lemma FlattenInstall(byNs: map<nat, NsMarks>, ns: nat, slot: NsMarks)
    requires ns !in byNs
    ensures Flatten(byNs[ns := slot]) == Flatten(byNs) + AsFlat(ns, slot.marks)
  {
    FlattenIsFlat(byNs);
    FlattenIsFlat(byNs[ns := slot]);
  }

  lemma FlattenHolds(byNs: map<nat, NsMarks>, ns: nat)
    requires ns in byNs
    ensures HoldsSlot(Flatten(byNs), ns, byNs[ns].marks)
  {
    FlattenIsFlat(byNs);
  }

  /** Walk a namespace's marks, counting out those the range covers and keeping the others. */
  method Retain(ns: nat, marks: map<nat, Extmark>, range: Option<(nat, nat)>, t: Tally, ghost m: Flat)
      returns (kept: map<nat, Extmark>, t': Tally)
    requires t == TallyOf(m) && HoldsSlot(m, ns, marks)
    ensures kept == Kept(marks, range)
    ensures t' == TallyOf(m - NsKeys(ns, marks.Keys - kept.Keys))
  {
    kept, t' := map[], t;
    var todo := marks.Keys;
    ghost var cur := m;
    ghost var gone: set<nat> := {};
    while todo != {}
      invariant Sorting(marks, range, todo, kept, gone)
      invariant Without(cur, m, ns, gone) && t' == TallyOf(cur)
    {
      var id :| id in todo;
      if InRange(range, marks[id]) {
        t' := CountOutOne(ns, id, marks[id], t', cur);
        WithoutOneMore(cur, m, ns, gone, id);
        cur, gone := cur - {Key(ns, id)}, gone + {id};
      } else {
        kept := kept[id := marks[id]];
      }
      todo := todo - {id};
    }
    SortedOut(marks, range, kept, gone);
    WithoutIsMinus(cur, m, ns, gone);
  }

  /** Of the marks looked at, those in the range are gone and the others kept. */
  ghost predicate Sorting(marks: map<nat, Extmark>, range: Option<(nat, nat)>, todo: set<nat>,
      kept: map<nat, Extmark>, gone: set<nat>) {
    todo <= marks.Keys && gone <= marks.Keys
    && (forall id: nat :: id in kept <==> id in marks && id !in todo && !InRange(range, marks[id]))
    && (forall id | id in marks :: id in gone <==> id !in todo && InRange(range, marks[id]))
    && forall id | id in kept :: kept[id] == marks[id]
  }

  lemma SortedOut(marks: map<nat, Extmark>, range: Option<(nat, nat)>, kept: map<nat, Extmark>, gone: set<nat>)
    requires Sorting(marks, range, {}, kept, gone)
    ensures kept == Kept(marks, range) && gone == marks.Keys - kept.Keys
  {
  }

  lemma WithoutOneMore(cur: Flat, m: Flat, ns: nat, gone: set<nat>, id: nat)
    requires Without(cur, m, ns, gone)
    ensures Without(cur - {Key(ns, id)}, m, ns, gone + {id})
  {
  }

  /** `cur` is `m` without the marks `ids` of namespace `ns`. */
  ghost predicate Without(cur: Flat, m: Flat, ns: nat, ids: set<nat>) {
    && (forall k | k in cur :: k in m && cur[k] == m[k])
    && (forall k | k in m :: k in cur <==> !(k.ns == ns && k.id in ids))
  }

  lemma WithoutIsMinus(cur: Flat, m: Flat, ns: nat, ids: set<nat>)
    requires Without(cur, m, ns, ids)
    ensures cur == m - NsKeys(ns, ids)
  {
  }

  method CountOutOne(ns: nat, id: nat, mark: Extmark, t: Tally, ghost m: Flat) returns (t': Tally)
    requires t == TallyOf(m) && Key(ns, id) in m && m[Key(ns, id)] == mark
    ensures t' == TallyOf(m - {Key(ns, id)})
  {
    RemoveKey(m, Key(ns, id));
    KeysAfterRemove(m, Key(ns, id), 0);
    TallyMeans(m, t);
    t' := Tally(t.virt - HasVirtLines(mark), CountGutter(t.widths, mark.payload.gutterWidth, false));
    TallyMeans(m - {Key(ns, id)}, t');
  }

  method CountInOne(ns: nat, id: nat, mark: Extmark, t: Tally, ghost m: Flat) returns (t': Tally)
    requires t == TallyOf(m) && Key(ns, id) !in m
    ensures t' == TallyOf(m[Key(ns, id) := mark])
  {
    AddKey(m, Key(ns, id), mark);
    TallyMeans(m, t);
    t' := Tally(t.virt + HasVirtLines(mark), CountGutter(t.widths, mark.payload.gutterWidth, true));
    TallyMeans(m[Key(ns, id) := mark], t');
  }

  ghost function AsFlat(ns: nat, marks: map<nat, Extmark>): Flat {
    map k | k in NsKeys(ns, marks.Keys) :: marks[k.id]
  }

  /** Count a whole namespace's marks in. */
  method CountIn(ns: nat, marks: map<nat, Extmark>, t: Tally, ghost m: Flat) returns (t': Tally)
    requires t == TallyOf(m) && forall k | k in m :: k.ns != ns
    ensures t' == TallyOf(m + AsFlat(ns, marks))
  {
    t' := t;
    var todo := marks.Keys;
    ghost var cur := m;
    while todo != {}
      invariant todo <= marks.Keys
      invariant WithAlso(cur, m, ns, marks, marks.Keys - todo) && t' == TallyOf(cur)
    {
      var id :| id in todo;
      t' := CountInOne(ns, id, marks[id], t', cur);
      WithOneMore(cur, m, ns, marks, marks.Keys - todo, id);
      cur := cur[Key(ns, id) := marks[id]];
      assert marks.Keys - (todo - {id}) == marks.Keys - todo + {id};
      todo := todo - {id};
    }
    assert marks.Keys - todo == marks.Keys;
    WithAllIsPlus(cur, m, ns, marks);
  }

  lemma WithOneMore(cur: Flat, m: Flat, ns: nat, marks: map<nat, Extmark>, ids: set<nat>, id: nat)
    requires ids <= marks.Keys && id in marks && WithAlso(cur, m, ns, marks, ids)
    ensures WithAlso(cur[Key(ns, id) := marks[id]], m, ns, marks, ids + {id})
  {
  }

  lemma WithAllIsPlus(cur: Flat, m: Flat, ns: nat, marks: map<nat, Extmark>)
    requires WithAlso(cur, m, ns, marks, marks.Keys) && forall k | k in m :: k.ns != ns
    ensures cur == m + AsFlat(ns, marks)
  {
  }

  /** `cur` is `m` and the marks `ids` of namespace `ns`, which `m` has none of. */
  ghost predicate WithAlso(cur: Flat, m: Flat, ns: nat, marks: map<nat, Extmark>, ids: set<nat>)
    requires ids <= marks.Keys
  {
    forall k: Key ::
      if k.ns == ns then (k in cur <==> k.id in ids) && (k in cur ==> cur[k] == marks[k.id])
      else (k in cur <==> k in m) && (k in cur ==> cur[k] == m[k])
  }

  // ----- the counts of a store after each change ----------------------------------

  /** Count a placement in, and the mark it replaces out. */
  method CountPlaced(byNs: map<nat, NsMarks>, ns: nat, slot: NsMarks, id: nat, mark: Extmark, t: Tally)
      returns (t': Tally)
    requires t == TallyOf(Flatten(byNs))
    requires slot.marks == (if ns in byNs then byNs[ns].marks else map[])[id := mark]
    ensures t' == TallyOf(Flatten(byNs[ns := slot]))
  {
    ghost var (m, k) := (Flatten(byNs), Key(ns, id));
    TallyMeans(m, t);
    FlattenIsFlat(byNs);
    FlattenPlace(byNs, ns, slot, id, mark);
    t' := Tally(t.virt + HasVirtLines(mark), CountGutter(t.widths, mark.payload.gutterWidth, true));
    if ns in byNs && id in byNs[ns].marks {
      var replaced := byNs[ns].marks[id];
      ReplaceKey(m, k, mark);
      t' := Tally(t'.virt - HasVirtLines(replaced), CountGutter(t'.widths, replaced.payload.gutterWidth, false));
    } else {
      AddKey(m, k, mark);
    }
    TallyMeans(m[k := mark], t');
  }

  method CountDeleted(byNs: map<nat, NsMarks>, ns: nat, slot: NsMarks, id: nat, t: Tally) returns (t': Tally)
    requires t == TallyOf(Flatten(byNs))
    requires ns in byNs && id in byNs[ns].marks && slot.marks == byNs[ns].marks - {id}
    ensures t' == TallyOf(Flatten(byNs[ns := slot]))
  {
    FlattenHolds(byNs, ns);
    assert slot.marks.Keys == byNs[ns].marks.Keys - {id};
    FlattenKeep(byNs, ns, slot, {Key(ns, id)});
    t' := CountOutOne(ns, id, byNs[ns].marks[id], t, Flatten(byNs));
  }

  /** Clear a slot, the counts with it; `gen` is the slot's new stamp. */
  method CountCleared(byNs: map<nat, NsMarks>, ns: nat, range: Option<(nat, nat)>, gen: nat, t: Tally)
      returns (slot: NsMarks, t': Tally)
    requires ns in byNs && t == TallyOf(Flatten(byNs))
    ensures slot == byNs[ns].(marks := Kept(byNs[ns].marks, range), gen := gen)
    ensures t' == TallyOf(Flatten(byNs[ns := slot]))
  {
    FlattenHolds(byNs, ns);
    var kept;
    kept, t' := Retain(ns, byNs[ns].marks, range, t, Flatten(byNs));
    slot := byNs[ns].(marks := kept, gen := gen);
    FlattenKeep(byNs, ns, slot, NsKeys(ns, byNs[ns].marks.Keys - kept.Keys));
  }

  /** Count a namespace that leaves the store out. */
  method CountDropped(byNs: map<nat, NsMarks>, ns: nat, t: Tally) returns (t': Tally)
    requires t == TallyOf(Flatten(byNs))
    ensures t' == TallyOf(Flatten(byNs - {ns}))
  {
    t' := t;
    if ns in byNs {
      FlattenHolds(byNs, ns);
      FlattenDrop(byNs, ns);
      var kept;
      kept, t' := Retain(ns, byNs[ns].marks, None, t, Flatten(byNs));
      assert byNs[ns].marks.Keys - kept.Keys == byNs[ns].marks.Keys;
    } else {
      assert byNs - {ns} == byNs;
    }
  }

  /** Count a namespace new to the store in. */
  method CountInstalled(byNs: map<nat, NsMarks>, ns: nat, slot: NsMarks, t: Tally) returns (t': Tally)
    requires ns !in byNs && t == TallyOf(Flatten(byNs))
    ensures t' == TallyOf(Flatten(byNs[ns := slot]))
  {
    FlattenIsFlat(byNs);
    FlattenInstall(byNs, ns, slot);
    t' := CountIn(ns, slot.marks, t, Flatten(byNs));
  }

  lemma EmptyTally()
    ensures Tally(0, map[]) == TallyOf(Flatten(map[]))
  {
    FlattenIsFlat(map[]);
    assert Flatten(map[]) == map[];
    assert VirtKeys(map[]) == {} && Histogram(map[]) == map[];
    TallyMeans(map[], Tally(0, map[]));
  }

  /** The counts read payloads only, so moving anchors leaves them as they are. */
  lemma TallySame(byNs: map<nat, NsMarks>, byNs': map<nat, NsMarks>)
    requires byNs.Keys == byNs'.Keys
    requires forall ns | ns in byNs :: SamePayloads(byNs[ns].marks, byNs'[ns].marks)
    ensures TallyOf(Flatten(byNs')) == TallyOf(Flatten(byNs))
  {
    FlattenIsFlat(byNs);
    FlattenIsFlat(byNs');
    var (m, m') := (Flatten(byNs), Flatten(byNs'));
    forall k ensures k in m <==> k in m' ensures k in m ==> m[k].payload == m'[k].payload {
      if k in m { assert SamePayloads(byNs[k.ns].marks, byNs'[k.ns].marks); }
      if k in m' { assert SamePayloads(byNs[k.ns].marks, byNs'[k.ns].marks); }
    }
    assert m.Keys == m'.Keys;
    PayloadsDecide(m, m');
    TallyMeans(m, TallyOf(m));
    TallyMeans(m', TallyOf(m));
  }

  ghost predicate SamePayloads(marks: map<nat, Extmark>, marks': map<nat, Extmark>) {
    marks.Keys == marks'.Keys && forall id | id in marks :: marks[id].payload == marks'[id].payload
  }
}
