/**
 * The max-end segment tree over the sorted entries: which of them reach past a byte
 * offset, found by walking only subtrees whose largest end does.
 */
module MaxEndTree {
  import opened Wrappers

  predicate IsPow2(n: nat) {
    n == 1 || (n > 1 && n % 2 == 0 && IsPow2(n / 2))
  }

  /** The library's next_power_of_two: the first of `p, 2p, 4p, ...` that is at least `n`. */
  function NextPow2(p: nat, n: nat): (r: nat)
    requires IsPow2(p)
    ensures IsPow2(r) && r >= n && r >= p
    decreases n - p
  {
    if p >= n then p else
      assert (2 * p) / 2 == p;
      NextPow2(2 * p, n)
  }

  /** `nodes[1]` is the root, `nodes[leaves..]` the leaves. */
  datatype Tree = Tree(leaves: nat, nodes: seq<nat>)

  ghost predicate LargerChild(nodes: seq<nat>, n: nat)
    requires 2 * n + 1 < |nodes|
  {
    nodes[n] == Max(nodes[2 * n], nodes[2 * n + 1])
  }

  /** A full tree: each inner node holds the larger of its two children. */
  ghost predicate Valid(t: Tree) {
    && IsPow2(t.leaves)
    && |t.nodes| == 2 * t.leaves
    && (forall n | 1 <= n < t.leaves :: LargerChild(t.nodes, n))
  }

  /** A full tree whose leaves are `ends`, padded with zeros. */
  ghost predicate TreeOf(t: Tree, ends: seq<nat>) {
    && Valid(t)
    && |ends| <= t.leaves
    && t.nodes[t.leaves..t.leaves + |ends|] == ends
    && (forall q | t.leaves + |ends| <= q < 2 * t.leaves :: t.nodes[q] == 0)
  }

  method FillLeaves(nodes: array<nat>, leaves: nat, ends: seq<nat>)
    requires nodes.Length == 2 * leaves && |ends| <= leaves
    requires forall q | leaves <= q < 2 * leaves :: nodes[q] == 0
    modifies nodes
    ensures nodes[leaves..leaves + |ends|] == ends
    ensures forall q | leaves + |ends| <= q < 2 * leaves :: nodes[q] == 0
  {
    var i := 0;
    while i < |ends|
      invariant 0 <= i <= |ends|
      invariant forall q | leaves <= q < leaves + i :: nodes[q] == ends[q - leaves]
      invariant forall q | leaves + i <= q < 2 * leaves :: nodes[q] == 0
    {
      nodes[leaves + i] := ends[i];
      i := i + 1;
    }
  }

  method FillInner(nodes: array<nat>, leaves: nat)
    requires nodes.Length == 2 * leaves && leaves >= 1
    modifies nodes
    ensures nodes[leaves..] == old(nodes[leaves..])
    ensures forall n | 1 <= n < leaves :: LargerChild(nodes[..], n)
  {
    var node := leaves;
    while node > 1
      invariant 1 <= node <= leaves
      invariant nodes[leaves..] == old(nodes[leaves..])
      invariant forall n | node <= n < leaves :: LargerChild(nodes[..], n)
    {
      ghost var before := nodes[..];
      node := node - 1;
      nodes[node] := Max(nodes[2 * node], nodes[2 * node + 1]);
      assert nodes[..] == before[node := nodes[node]];
      forall n | node <= n < leaves ensures LargerChild(nodes[..], n) {
        assert n > node ==> LargerChild(before, n);
      }
    }
  }

  method Build(ends: seq<nat>) returns (t: Tree)
    ensures TreeOf(t, ends)
  {
    var leaves := NextPow2(1, |ends|);
    var nodes := new nat[2 * leaves](_ => 0);
    FillLeaves(nodes, leaves, ends);
    ghost var filled := nodes[leaves..];
    FillInner(nodes, leaves);
    t := Tree(leaves, nodes[..]);
    assert t.nodes[leaves..] == filled;
    assert t.nodes[leaves..leaves + |ends|] == filled[..|ends|] == ends;
    assert forall q | leaves + |ends| <= q < 2 * leaves :: t.nodes[q] == t.nodes[leaves..][q - leaves];
  }

  /** The product, by repeated addition: it keeps the arithmetic of the walk linear. */
  ghost function Times(a: nat, b: nat): (r: nat)
    ensures a == 1 ==> r == b
  {
    if a == 0 then 0 else b + Times(a - 1, b)
  }

  lemma {:induction false} TimesAtLeast(a: nat, b: nat, low: nat)
    requires low <= b
    ensures Times(a, b) >= Times(a, low)
  {
    if a > 0 { TimesAtLeast(a - 1, b, low); }
  }

  lemma {:induction false} TimesSmall(a: nat)
    ensures Times(a, 1) == a && Times(a, 2) == 2 * a
  {
    if a > 0 { TimesSmall(a - 1); }
  }

  lemma {:induction false} TimesHalf(a: nat, half: nat)
    ensures Times(2 * a, half) == Times(a, 2 * half)
  {
    if a > 0 { TimesHalf(a - 1, half); }
  }

  /** `node` is the root of the subtree over the leaves `first .. first + count`. */
  ghost predicate Covers(t: Tree, node: nat, first: nat, count: nat) {
    IsPow2(count) && Times(node, count) == t.leaves + first && first + count <= t.leaves
  }

  lemma CoveringNodeInRange(t: Tree, node: nat, first: nat, count: nat)
    requires Valid(t) && Covers(t, node, first, count)
    ensures 1 <= node < 2 * t.leaves
    ensures if count == 1 then node == t.leaves + first else node < t.leaves
  {
    TimesSmall(node);
    TimesAtLeast(node, count, 1);
    if count > 1 { TimesAtLeast(node, count, 2); }
  }

  lemma ChildrenCover(t: Tree, node: nat, first: nat, count: nat)
    requires Valid(t) && Covers(t, node, first, count) && count > 1
    ensures Covers(t, 2 * node, first, count / 2)
    ensures Covers(t, 2 * node + 1, first + count / 2, count / 2)
  {
    TimesHalf(node, count / 2);
  }

  /** A node holds the largest leaf under it: no leaf is larger and one is equal. */
  lemma {:induction false} NodeIsLargest(t: Tree, node: nat, first: nat, count: nat)
    requires Valid(t) && Covers(t, node, first, count)
    ensures 1 <= node < 2 * t.leaves
    ensures forall q | t.leaves + first <= q < t.leaves + first + count :: t.nodes[q] <= t.nodes[node]
    ensures exists q | t.leaves + first <= q < t.leaves + first + count :: t.nodes[q] == t.nodes[node]
    decreases count
  {
    CoveringNodeInRange(t, node, first, count);
    if count == 1 {
      assert t.nodes[t.leaves + first] == t.nodes[node];
    } else {
      ChildrenCover(t, node, first, count);
      NodeIsLargest(t, 2 * node, first, count / 2);
      NodeIsLargest(t, 2 * node + 1, first + count / 2, count / 2);
      assert LargerChild(t.nodes, node);
    }
  }

  // ----- the query ----------------------------------------------------------------

  /** The indices in `[a, b)` whose end is at or past `lo`, ascending. */
  function Hits(ends: seq<nat>, a: nat, b: nat, lo: nat): seq<nat>
    requires b <= |ends|
    decreases b
  {
    if b <= a then []
    else if ends[b - 1] >= lo then Hits(ends, a, b - 1, lo) + [b - 1]
    else Hits(ends, a, b - 1, lo)
  }

  lemma {:induction false} HitsMembers(ends: seq<nat>, a: nat, b: nat, lo: nat, i: nat)
    requires b <= |ends|
    ensures i in Hits(ends, a, b, lo) <==> a <= i < b && ends[i] >= lo
    decreases b
  {
    if a < b { HitsMembers(ends, a, b - 1, lo, i); }
  }

  ghost predicate Ascending(r: seq<nat>) {
    forall i, j | 0 <= i < j < |r| :: r[i] < r[j]
  }

  lemma {:induction false} HitsAscend(ends: seq<nat>, a: nat, b: nat, lo: nat)
    requires b <= |ends|
    ensures Ascending(Hits(ends, a, b, lo))
    decreases b
  {
    if a < b {
      HitsAscend(ends, a, b - 1, lo);
      var before := Hits(ends, a, b - 1, lo);
      forall i | i in before ensures i < b - 1 {
        HitsMembers(ends, a, b - 1, lo, i);
      }
      assert forall k | 0 <= k < |before| :: before[k] in before;
    }
  }

  lemma {:induction false} HitsJoin(ends: seq<nat>, a: nat, mid: nat, b: nat, lo: nat)
    requires a <= mid <= b <= |ends|
    ensures Hits(ends, a, b, lo) == Hits(ends, a, mid, lo) + Hits(ends, mid, b, lo)
    decreases b
  {
    if mid < b {
      HitsJoin(ends, a, mid, b - 1, lo);
    }
  }

  lemma {:induction false} NoHits(ends: seq<nat>, a: nat, b: nat, lo: nat)
    requires b <= |ends| && forall i | a <= i < b :: ends[i] < lo
    ensures Hits(ends, a, b, lo) == []
    decreases b
  {
    if a < b { NoHits(ends, a, b - 1, lo); }
  }

  datatype Frame = Frame(node: nat, first: nat, count: nat)

  /** The leaf the walk has reached: where the top frame starts. */
  ghost function Cursor(t: Tree, stack: seq<Frame>): nat {
    if |stack| == 0 then t.leaves else stack[|stack| - 1].first
  }

  /** The frames, top first, cover what is left of the leaves one after the other. */
  ghost predicate Contiguous(t: Tree, stack: seq<Frame>) {
    |stack| > 0 ==>
      var (top, below) := (stack[|stack| - 1], stack[..|stack| - 1]);
      && Covers(t, top.node, top.first, top.count)
      && top.first + top.count == Cursor(t, below)
      && Contiguous(t, below)
  }

  function Push(stack: seq<Frame>, f: Frame): (s: seq<Frame>)
    ensures |s| == |stack| + 1 && s[|stack|] == f && s[..|stack|] == stack
  {
    stack + [f]
  }

  lemma LeafEnd(t: Tree, ends: seq<nat>, i: nat)
    requires TreeOf(t, ends) && i < |ends|
    ensures t.nodes[t.leaves + i] == ends[i]
  {
    assert t.nodes[t.leaves..t.leaves + |ends|][i] == ends[i];
  }

  /** What one frame adds to the answer when its subtree is skipped or is a single leaf. */
  lemma FrameDone(t: Tree, ends: seq<nat>, f: Frame, upto: nat, lo: nat)
    requires TreeOf(t, ends) && upto <= |ends| && Covers(t, f.node, f.first, f.count)
    ensures 1 <= f.node < 2 * t.leaves && f.count > 0
    ensures
      var before := Hits(ends, 0, Min(f.first, upto), lo);
      var after := Hits(ends, 0, Min(f.first + f.count, upto), lo);
      && (f.first >= upto || t.nodes[f.node] < lo ==> after == before)
      && (f.first < upto && t.nodes[f.node] >= lo && f.count == 1 ==> after == before + [f.first])
  {
    NodeIsLargest(t, f.node, f.first, f.count);
    if f.first < upto {
      var past := Min(f.first + f.count, upto);
      HitsJoin(ends, 0, f.first, past, lo);
      if t.nodes[f.node] < lo {
        forall i | f.first <= i < past ensures ends[i] < lo {
          LeafEnd(t, ends, i);
        }
        NoHits(ends, f.first, past, lo);
      } else if f.count == 1 {
        CoveringNodeInRange(t, f.node, f.first, f.count);
        LeafEnd(t, ends, f.first);
        assert Hits(ends, f.first, f.first, lo) == [];
      }
    }
  }

  method Reaching(t: Tree, ends: seq<nat>, upto: nat, lo: nat) returns (out: seq<nat>)
    requires TreeOf(t, ends) && upto <= |ends|
    ensures out == Hits(ends, 0, upto, lo)
  {
    out := [];
    if upto == 0 { return; }
    var stack := [Frame(1, 0, t.leaves)];
    while |stack| > 0
      invariant Contiguous(t, stack)
      invariant Cursor(t, stack) <= t.leaves
      invariant out == Hits(ends, 0, Min(Cursor(t, stack), upto), lo)
      decreases t.leaves - Cursor(t, stack), if |stack| == 0 then 0 else stack[|stack| - 1].count
    {
      var top := stack[|stack| - 1];
      stack := stack[..|stack| - 1];
      FrameDone(t, ends, top, upto, lo);
      if top.first >= upto || t.nodes[top.node] < lo {
        continue;
      }
      if top.count == 1 {
        out := out + [top.first];
        continue;
      }
      ChildrenCover(t, top.node, top.first, top.count);
      var half := top.count / 2;
      stack := Push(stack, Frame(2 * top.node + 1, top.first + half, half));
      stack := Push(stack, Frame(2 * top.node, top.first, half));
    }
  }
}
