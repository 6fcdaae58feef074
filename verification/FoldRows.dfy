/** One replaced row span for a whole batch of edits, and for a whole-text replacement. */
module FoldRows {
  import opened Wrappers
  import opened Text

  /** Rows with one more byte at their end. */
  function Push(ls: seq<Text>, c: char): (r: seq<Text>)
    requires |ls| > 0
    ensures |r| == |ls| + if c == LF then 1 else 0
  {
    if c == LF then ls + [[]] else ls[..|ls| - 1] + [ls[|ls| - 1] + [c]]
  }

  /** The rows of a text, line breaks excluded; the last one may be empty. */
  function SplitRows(t: Text): (ls: seq<Text>)
    ensures |ls| == Rows(t) + 1
  {
    if |t| == 0 then [[]] else Push(SplitRows(t[..|t| - 1]), t[|t| - 1])
  }

  /** The same rows, as one value: what is proved about whole texts need not look into the splitting. */
  ghost function Lines(t: Text): seq<Text> {
    var ls :| ls == SplitRows(t);
    ls
  }

  lemma LinesAreRows(t: Text)
    ensures Lines(t) == SplitRows(t)
  {
  }

  /** Rows run together: the last of the one continues as the first of the other. */
  function Join(la: seq<Text>, lb: seq<Text>): (r: seq<Text>)
    requires |la| > 0 && |lb| > 0
    ensures |r| == |la| + |lb| - 1
    ensures r[..|la| - 1] == la[..|la| - 1] && r[|la|..] == lb[1..]
  {
    la[..|la| - 1] + [la[|la| - 1] + lb[0]] + lb[1..]
  }

  lemma JoinPush(la: seq<Text>, lb: seq<Text>, c: char)
    requires |la| > 0 && |lb| > 0
    ensures Join(la, Push(lb, c)) == Push(Join(la, lb), c)
  {
    if c == LF {
      assert (lb + [[]])[1..] == lb[1..] + [[]];
    } else if |lb| == 1 {
      assert la[|la| - 1] + (lb[0] + [c]) == (la[|la| - 1] + lb[0]) + [c];
    } else {
      var last := lb[|lb| - 1];
      assert Push(lb, c)[1..] == lb[1..|lb| - 1] + [last + [c]];
      assert Join(la, lb)[..|la| + |lb| - 2] == la[..|la| - 1] + [la[|la| - 1] + lb[0]] + lb[1..|lb| - 1];
    }
  }

  lemma {:induction false} SplitOfConcat(a: Text, b: Text)
    ensures SplitRows(a + b) == Join(SplitRows(a), SplitRows(b))
    decreases |b|
  {
    if |b| == 0 {
      assert a + b == a;
      var la := SplitRows(a);
      assert la[|la| - 1] + [] == la[|la| - 1];
      assert Join(la, [[]]) == la;
    } else {
      assert (a + b)[..|a + b| - 1] == a + b[..|b| - 1];
      SplitOfConcat(a, b[..|b| - 1]);
      JoinPush(SplitRows(a), SplitRows(b[..|b| - 1]), b[|b| - 1]);
    }
  }

  /** The rows of `a + c` outside the one where they meet. */
  lemma OuterLines(a: Text, c: Text)
    ensures Rows(a + c) == Rows(a) + Rows(c)
    ensures |Lines(a + c)| == Rows(a) + Rows(c) + 1
    ensures Lines(a + c)[..Rows(a)] == SplitRows(a)[..Rows(a)]
    ensures Lines(a + c)[Rows(a) + 1..] == SplitRows(c)[1..]
  {
    RowsOfConcat(a, c);
    SplitOfConcat(a, c);
    LinesAreRows(a + c);
  }

  /** What follows a prefix has no bearing on the rows above where it ends. */
  lemma SameAbove(a: Text, c: Text, c': Text)
    ensures Rows(a) < |Lines(a + c)| && Rows(a) < |Lines(a + c')|
    ensures Lines(a + c)[..Rows(a)] == Lines(a + c')[..Rows(a)]
  {
    OuterLines(a, c);
    OuterLines(a, c');
  }

  /** What precedes a suffix has no bearing on the rows below where it starts. */
  lemma SameBelow(a: Text, a': Text, c: Text)
    ensures Rows(a) < |Lines(a + c)| && Rows(a') < |Lines(a' + c)|
    ensures Lines(a + c)[Rows(a) + 1..] == Lines(a' + c)[Rows(a') + 1..]
  {
    OuterLines(a, c);
    OuterLines(a', c);
  }

  lemma EditKeepsRowsAbove(t: Text, e: BufferEdit)
    requires Fits(t, e)
    ensures var (was, now) := (Lines(t), Lines(Apply(t, e)));
      e.startPoint.row < |was| && e.startPoint.row < |now| && now[..e.startPoint.row] == was[..e.startPoint.row]
  {
    var (a, b) := (t[..e.start], t[e.start..]);
    assert t == a + b;
    assert Apply(t, e) == a + (e.text + t[e.oldEnd..]);
    SameAbove(a, b, e.text + t[e.oldEnd..]);
  }

  lemma EditKeepsRowsBelow(t: Text, e: BufferEdit)
    requires Fits(t, e)
    ensures var (was, now) := (Lines(t), Lines(Apply(t, e)));
      && e.oldEndPoint.row < |was| && e.newEndPoint.row < |now|
      && now[e.newEndPoint.row + 1..] == was[e.oldEndPoint.row + 1..]
  {
    var (b, c) := (t[..e.oldEnd], t[e.oldEnd..]);
    assert t == b + c;
    SameBelow(b, t[..e.start] + e.text, c);
  }

  lemma EditRowsInOrder(t: Text, e: BufferEdit)
    requires Fits(t, e)
    ensures e.startPoint.row <= e.oldEndPoint.row && e.startPoint.row <= e.newEndPoint.row
  {
    assert t[..e.oldEnd] == t[..e.start] + t[e.start..e.oldEnd];
    RowsOfConcat(t[..e.start], t[e.start..e.oldEnd]);
    RowsOfConcat(t[..e.start], e.text);
  }

  /** Replacing the old rows `start..=oldEnd` by the new rows `start..=newEnd` turns the old text into the new. */
  ghost predicate IsRowSplice(was: seq<Text>, now: seq<Text>, start: nat, oldEnd: nat, newEnd: nat) {
    && start <= oldEnd < |was|
    && start <= newEnd < |now|
    && now == was[..start] + now[start..newEnd + 1] + was[oldEnd + 1..]
  }

  /** Every edit of the first `n` starts at or below the last row the one before it put in. */
  ghost predicate ForwardTo(es: seq<BufferEdit>, n: nat)
    requires n <= |es|
  {
    n <= 1 || (ForwardTo(es, n - 1) && es[n - 2].newEndPoint.row <= es[n - 1].startPoint.row)
  }

  ghost predicate Forward(es: seq<BufferEdit>) { ForwardTo(es, |es|) }

  /** A further edit at or below the folded span extends it. */
  lemma SpliceThenEdit(was: seq<Text>, t: Text, e: BufferEdit, start: nat, oldEnd: nat, newEnd: nat)
    requires Fits(t, e) && IsRowSplice(was, Lines(t), start, oldEnd, newEnd) && newEnd <= e.startPoint.row
    ensures e.oldEndPoint.row + oldEnd - newEnd >= 0
    ensures IsRowSplice(was, Lines(Apply(t, e)), start, e.oldEndPoint.row + oldEnd - newEnd, e.newEndPoint.row)
  {
    EditKeepsRowsAbove(t, e);
    EditKeepsRowsBelow(t, e);
    EditRowsInOrder(t, e);
    JoinSplices(was, Lines(t), Lines(Apply(t, e)), start, oldEnd, newEnd,
                e.startPoint.row, e.oldEndPoint.row, e.newEndPoint.row);
  }

  /** Rows kept above `first` and below `last`, at or below a splice: one splice for both. */
  lemma {:induction false} JoinSplices(was: seq<Text>, mid: seq<Text>, now: seq<Text>, start: nat, oldEnd: nat,
      newEnd: nat, first: nat, last: nat, end: nat)
    requires IsRowSplice(was, mid, start, oldEnd, newEnd) && newEnd <= first <= last < |mid| && first <= end < |now|
    requires now[..first] == mid[..first] && now[end + 1..] == mid[last + 1..]
    ensures IsRowSplice(was, now, start, last + oldEnd - newEnd, end)
  {
    var oldEnd' := last + oldEnd - newEnd;
    TailOfSplice(was, mid, start, oldEnd, newEnd, last);
    assert now[..start] == now[..first][..start] == mid[..first][..start] == was[..start];
    assert now == now[..start] + now[start..end + 1] + now[end + 1..];
  }

  lemma TailOfSplice(was: seq<Text>, mid: seq<Text>, start: nat, oldEnd: nat, newEnd: nat, last: nat)
    requires IsRowSplice(was, mid, start, oldEnd, newEnd) && newEnd <= last < |mid|
    ensures last + oldEnd - newEnd < |was| && mid[last + 1..] == was[last + oldEnd - newEnd + 1..]
    ensures mid[..start] == was[..start]
  {
    var below := was[oldEnd + 1..];
    assert mid[newEnd + 1..] == below;
    assert mid[last + 1..] == mid[newEnd + 1..][last - newEnd..];
    assert was[last + oldEnd - newEnd + 1..] == below[last - newEnd..];
  }

  /** The row span of the first `n` edits: none when an edit steps back behind the span so far. */
  function FoldTo(es: seq<BufferEdit>, n: nat): Option<(nat, nat, nat)>
    requires 1 <= n <= |es|
    decreases n
  {
    var e := es[n - 1];
    if n == 1 then Some((e.startPoint.row, e.oldEndPoint.row, e.newEndPoint.row))
    else match FoldTo(es, n - 1)
      case None => None
      case Some((start, oldEnd, newEnd)) =>
        var mapped := e.oldEndPoint.row - (newEnd - oldEnd);
        if e.startPoint.row < newEnd || mapped < 0 then None else Some((start, mapped, e.newEndPoint.row))
  }

  function Fold(es: seq<BufferEdit>): Option<(nat, nat, nat)> {
    if |es| == 0 then None else FoldTo(es, |es|)
  }

  method FoldEditRows(edits: seq<BufferEdit>) returns (r: Option<(nat, nat, nat)>)
    ensures r == Fold(edits)
  {
    if |edits| == 0 { return None; }
    var start: nat := edits[0].startPoint.row;
    var oldEnd: nat := edits[0].oldEndPoint.row;
    var newEnd: nat := edits[0].newEndPoint.row;
    var shift: int := newEnd - oldEnd;
    var i := 1;
    while i < |edits|
      invariant 1 <= i <= |edits| && shift == newEnd - oldEnd
      invariant FoldTo(edits, i) == Some((start, oldEnd, newEnd))
    {
      var e := edits[i];
      if e.startPoint.row < newEnd || e.oldEndPoint.row - shift < 0 {
        NoneStays(edits, i + 1, |edits|);
        return None;
      }
      oldEnd := e.oldEndPoint.row - shift;
      newEnd := e.newEndPoint.row;
      shift := newEnd - oldEnd;
      i := i + 1;
    }
    r := Some((start, oldEnd, newEnd));
  }

  lemma {:induction false} NoneStays(es: seq<BufferEdit>, n: nat, m: nat)
    requires 1 <= n <= m <= |es| && FoldTo(es, n) == None
    ensures FoldTo(es, m) == None
    decreases m
  {
    if n < m { NoneStays(es, n, m - 1); }
  }

  /**
   * For the journal of any run of edits of any text, the folded span splices the old
   * rows into the new ones; no span comes back exactly for an empty journal or one that
   * does not move forward.
   */
  lemma FoldSplices(t: Text, es: seq<BufferEdit>)
    requires Chain(t, es)
    ensures Fold(es) == None <==> |es| == 0 || !Forward(es)
    ensures Fold(es).Some? ==>
      var (start, oldEnd, newEnd) := Fold(es).value;
      IsRowSplice(Lines(t), Lines(Replay(t, es)), start, oldEnd, newEnd)
  {
    if |es| > 0 { FoldToSplices(t, es, |es|); }
  }

  lemma {:induction false} FoldToSplices(t: Text, es: seq<BufferEdit>, n: nat)
    requires 1 <= n <= |es| && ChainTo(t, es, n)
    ensures FoldTo(es, n).Some? <==> ForwardTo(es, n)
    ensures FoldTo(es, n).Some? ==>
      var (start, oldEnd, newEnd) := FoldTo(es, n).value;
      && newEnd == es[n - 1].newEndPoint.row
      && IsRowSplice(Lines(t), Lines(ReplayTo(t, es, n)), start, oldEnd, newEnd)
    decreases n
  {
    if n == 1 {
      FirstSplice(t, es);
    } else {
      FoldToSplices(t, es, n - 1);
      if FoldTo(es, n - 1).Some? {
        var (start, oldEnd, newEnd) := FoldTo(es, n - 1).value;
        if newEnd <= es[n - 1].startPoint.row {
          SpliceThenEdit(Lines(t), ReplayTo(t, es, n - 1), es[n - 1], start, oldEnd, newEnd);
        }
      }
    }
  }

  lemma FirstSplice(t: Text, es: seq<BufferEdit>)
    requires |es| > 0 && ChainTo(t, es, 1)
    ensures IsRowSplice(Lines(t), Lines(ReplayTo(t, es, 1)),
                        es[0].startPoint.row, es[0].oldEndPoint.row, es[0].newEndPoint.row)
  {
    EditKeepsRowsAbove(t, es[0]);
    EditKeepsRowsBelow(t, es[0]);
    EditRowsInOrder(t, es[0]);
    var now := Lines(Apply(t, es[0]));
    var (start, newEnd) := (es[0].startPoint.row, es[0].newEndPoint.row);
    assert now == now[..start] + now[start..newEnd + 1] + now[newEnd + 1..];
  }

  /**
   * The rows a whole-text replacement changed: the common prefix and suffix of rows are
   * left out, neither can be longer, and nothing is reported exactly when no row changed.
   */
  method ChangedLineSpan(was: seq<Text>, now: seq<Text>) returns (r: Option<(nat, nat, nat)>)
    ensures r == None <==> was == now
    ensures r.Some? ==>
      var (p, oe, ne) := r.value;
      && p <= oe <= |was| && p <= ne <= |now|
      && now == was[..p] + now[p..ne] + was[oe..]
      && (p < |was| && p < |now| ==> was[p] != now[p])
      && (p < oe && p < ne ==> was[oe - 1] != now[ne - 1])
  {
    var p := 0;
    while p < |was| && p < |now| && was[p] == now[p]
      invariant p <= |was| && p <= |now| && was[..p] == now[..p]
    {
      p := p + 1;
    }
    if p == |was| && p == |now| {
      assert was == was[..p] && now == now[..p];
      return None;
    }
    var q := 0;
    while q < |was| - p && q < |now| - p && was[|was| - 1 - q] == now[|now| - 1 - q]
      invariant q <= |was| - p && q <= |now| - p
      invariant was[|was| - q..] == now[|now| - q..]
    {
      q := q + 1;
      assert was[|was| - q..] == [was[|was| - q]] + was[|was| - q + 1..];
      assert now[|now| - q..] == [now[|now| - q]] + now[|now| - q + 1..];
    }
    assert now == now[..p] + now[p..|now| - q] + now[|now| - q..];
    r := Some((p, |was| - q, |now| - q));
  }
}
