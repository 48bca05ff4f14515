/** seg_tree.c: a set of disjoint extents in a search tree, with a count and a
    running maximum. Adding an extent overwrites, splits and trims the extents in
    its way and then merges it with its neighbours. */
module SegTree {
  import opened Extents
  import opened IntervalTree
  import opened Wrappers

  /** get_non_overlapping_range: the first part of extent 1 outside range 2, if any. */
  function NonOverlappingRange(start1: nat, end1: nat, start2: nat, end2: nat): (r: Option<(nat, nat)>)
    requires start1 <= end2 && start2 <= end1 && start1 <= end1 && start2 <= end2
    ensures r.None? <==> start2 <= start1 && end1 <= end2
    ensures r.Some? ==> start1 <= r.value.0 <= r.value.1 <= end1 && (r.value.1 < start2 || end2 < r.value.0)
    // the part returned is the leading one whenever there is a leading one
    ensures r.Some? && end2 < r.value.0 ==> start2 <= start1
    // and it is maximal
    ensures r.Some? ==> (r.value.0 == start1 && r.value.1 + 1 == start2) || (r.value.0 == end2 + 1 && r.value.1 == end1)
  {
    if start1 < start2 then Some((start1, start2 - 1))
    else if end1 > end2 then Some((end2 + 1, end1))
    else None
  }

  // ---------- the termination measure of the overwrite loop ----------

  /** Bytes of `x` inside the range, plus one if `x` starts before it. */
  ghost function Weight(x: Seg, s: nat, e: nat): nat {
    if !Proper(x) || e < s || !Overlaps(x, s, e) then 0
    else
      (if x.end < e then x.end else e) - (if x.start < s then s else x.start) + 1
      + (if x.start < s then 1 else 0)
  }

  ghost function TotalWeight(ss: seq<Seg>, s: nat, e: nat): nat {
    if ss == [] then 0 else Weight(ss[0], s, e) + TotalWeight(ss[1..], s, e)
  }

  lemma {:induction false} WeightConcat(a: seq<Seg>, b: seq<Seg>, s: nat, e: nat)
    ensures TotalWeight(a + b, s, e) == TotalWeight(a, s, e) + TotalWeight(b, s, e)
  {
    if a == [] {
      assert a + b == b;
    } else {
      WeightConcat(a[1..], b, s, e);
      assert (a + b)[1..] == a[1..] + b && (a + b)[0] == a[0];
    }
  }

  /** `mid` lies inside `x`, is the same as `x` outside the range, and weighs less. */
  ghost predicate Lighter(x: Seg, mid: seq<Seg>, s: nat, e: nat) {
    && Ordered(mid) && EndsBelow(mid, x.end + 1) && (forall i :: 0 <= i < |mid| ==> x.start <= mid[i].start)
    && Cut(mid, s, e) == Pieces(x, s, e) && TotalWeight(mid, s, e) < Weight(x, s, e)
  }

  /** Replacing one extent by some of the pieces it breaks into. */
  lemma {:induction false} ReplaceMiddle(a: seq<Seg>, x: Seg, mid: seq<Seg>, b: seq<Seg>, s: nat, e: nat, hi: nat)
    requires Ordered(a + [x] + b) && EndsBelow(a + [x] + b, hi) && Lighter(x, mid, s, e)
    ensures Ordered(a + mid + b) && EndsBelow(a + mid + b, hi)
    ensures Cut(a + mid + b, s, e) == Cut(a + [x] + b, s, e)
    ensures TotalWeight(a + mid + b, s, e) < TotalWeight(a + [x] + b, s, e)
  {
    ReplaceOrdered(a, x, mid, b, hi);
    ReplaceCut(a, x, mid, b, s, e);
    ReplaceWeight(a, x, mid, b, s, e);
  }

  lemma {:induction false} ReplaceOrdered(a: seq<Seg>, x: Seg, mid: seq<Seg>, b: seq<Seg>, hi: nat)
    requires Ordered(a + [x] + b) && EndsBelow(a + [x] + b, hi)
    requires Ordered(mid) && EndsBelow(mid, x.end + 1)
    requires forall i :: 0 <= i < |mid| ==> x.start <= mid[i].start
    ensures Ordered(a + mid + b) && EndsBelow(a + mid + b, hi)
  {
    SplitAround(a, x, b);
    assert (a + [x] + b)[|a|] == x;
    OrderedConcat(a, mid);
    forall i, j | 0 <= i < |a + mid| && 0 <= j < |b| ensures (a + mid)[i].end < b[j].start {
      if i < |a| { assert (a + mid)[i] == a[i] && Proper(x); } else { assert (a + mid)[i] == mid[i - |a|]; }
    }
    OrderedConcat(a + mid, b);
    EndsBelowConcat(a + [x], b, hi);
    EndsBelowConcat(a, [x], hi);
    EndsBelowConcat(a + mid, b, hi);
    EndsBelowConcat(a, mid, hi);
  }

  /** An ordered sequence around one of its elements. */
  lemma {:induction false} SplitAround(a: seq<Seg>, x: Seg, b: seq<Seg>)
    requires Ordered(a + [x] + b)
    ensures Ordered(a) && Ordered(b) && Ordered(a + b) && Proper(x)
    ensures EndsBelow(a, x.start) && StartsAbove(b, x.end)
  {
    OrderedConcat(a + [x], b);
    OrderedConcat(a, [x]);
    assert [x][0] == x;
    assert (a + [x])[|a|] == x;
    forall i, j | 0 <= i < |a| && 0 <= j < |b| ensures a[i].end < b[j].start { assert (a + [x])[i] == a[i]; }
    OrderedConcat(a, b);
  }

  lemma {:induction false} ReplaceWeight(a: seq<Seg>, x: Seg, mid: seq<Seg>, b: seq<Seg>, s: nat, e: nat)
    requires TotalWeight(mid, s, e) < Weight(x, s, e)
    ensures TotalWeight(a + mid + b, s, e) < TotalWeight(a + [x] + b, s, e)
  {
    WeightConcat(a + [x], b, s, e);
    WeightConcat(a, [x], s, e);
    assert [x][1..] == [];
    assert TotalWeight([x], s, e) == Weight(x, s, e);
    WeightConcat(a + mid, b, s, e);
    WeightConcat(a, mid, s, e);
  }

  lemma {:induction false} ReplaceCut(a: seq<Seg>, x: Seg, mid: seq<Seg>, b: seq<Seg>, s: nat, e: nat)
    requires Cut(mid, s, e) == Pieces(x, s, e)
    ensures Cut(a + mid + b, s, e) == Cut(a + [x] + b, s, e)
  {
    CutConcat(a + [x], b, s, e);
    CutConcat(a, [x], s, e);
    CutOne(x, s, e);
    CutConcat(a + mid, b, s, e);
    CutConcat(a, mid, s, e);
  }

  /** An extent that reaches into the range from the left breaks into its front,
      which is safe, and the rest, which weighs one less. */
  lemma {:induction false} FrontThenBack(x: Seg, front: Seg, rest: Seg, s: nat, e: nat)
    requires Proper(x) && s <= e && Overlaps(x, s, e) && x.start < s
    requires front == Seg(x.start, s - 1, x.ptr) && rest == Seg(s, x.end, x.ptr + (s - x.start))
    ensures Lighter(x, [front, rest], s, e)
  {
    assert [front, rest] == [front] + [rest];
    CutConcat([front], [rest], s, e);
    CutOne(front, s, e);
    CutOne(rest, s, e);
    WeightConcat([front], [rest], s, e);
    assert [front][1..] == [] && [rest][1..] == [];
    assert TotalWeight([front], s, e) == 0;
    assert TotalWeight([rest], s, e) == Weight(rest, s, e);
  }

  lemma {:induction false} NothingLeft(x: Seg, s: nat, e: nat)
    requires Proper(x) && s <= x.start && x.end <= e
    ensures Lighter(x, [], s, e)
  {
  }

  lemma {:induction false} BackOnly(x: Seg, back: Seg, s: nat, e: nat)
    requires Proper(x) && s <= e && Overlaps(x, s, e) && s <= x.start && e < x.end
    requires back == Seg(e + 1, x.end, x.ptr + (e + 1 - x.start))
    ensures Lighter(x, [back], s, e)
  {
    CutOne(back, s, e);
    assert [back][1..] == [];
    assert TotalWeight([back], s, e) == 0;
  }

  /** An extent strictly between two parts of an ordered sequence inserts at the seam. */
  lemma {:induction false} FitsBetween(a: seq<Seg>, g: Seg, b: seq<Seg>)
    requires Ordered(a) && Proper(g) && EndsBelow(a, g.start) && StartsAbove(b, g.end)
    ensures NoOverlap(a + b, g.start, g.end) && InsertSorted(a + b, g) == a + [g] + b
  {
    AroundLeaf(a, b, g);
    InsertAt(a, g, b);
  }

  /** One turn of the overwrite loop: the extent in the way is deleted, or replaced by
      its part outside the range plus a remainder to be looked at again. */
  method Evict(t: Tree, x: Seg, start: nat, end: nat, ghost hi: nat) returns (t': Tree, delta: int)
    requires Ordered(InOrder(t)) && EndsBelow(InOrder(t), hi) && start <= end
    requires x in InOrder(t) && Overlaps(x, start, end)
    ensures Ordered(InOrder(t')) && EndsBelow(InOrder(t'), hi)
    ensures Cut(InOrder(t'), start, end) == Cut(InOrder(t), start, end)
    ensures TotalWeight(InOrder(t'), start, end) < TotalWeight(InOrder(t), start, end)
    ensures |InOrder(t')| == |InOrder(t)| + delta
  {
    hide Ordered, EndsBelow, Cut, TotalWeight, InOrder, Lighter;
    ghost var a, b := SplitAt(InOrder(t), x);
    SplitAround(a, x, b);
    t' := RbRemove(t, x, a, b);
    var range := NonOverlappingRange(x.start, x.end, start, end);
    if range.None? {
      delta := -1;
      assert a + [] + b == a + b;
      NothingLeft(x, start, end);
      ReplaceMiddle(a, x, [], b, start, end, hi);
    } else {
      var resized := Seg(range.value.0, range.value.1, x.ptr + (range.value.0 - x.start));
      if resized.end < x.end {
        var remaining := Seg(resized.end + 1, x.end, x.ptr + (resized.end + 1 - x.start));
        FrontThenBack(x, resized, remaining, start, end);
        ReplaceMiddle(a, x, [resized, remaining], b, start, end, hi);
        t' := PutTwo(t', resized, remaining, a, b);
        delta := 1;
      } else {
        BackOnly(x, resized, start, end);
        ReplaceMiddle(a, x, [resized], b, start, end, hi);
        t' := PutBetween(t', resized, a, b);
        delta := 0;
      }
    }
  }

  lemma {:induction false} SplitAt(ss: seq<Seg>, x: Seg) returns (a: seq<Seg>, b: seq<Seg>)
    requires x in ss
    ensures ss == a + [x] + b
  {
    var i :| 0 <= i < |ss| && ss[i] == x;
    a, b := ss[..i], ss[i + 1..];
  }

  /** RB_INSERT of an extent known to fit between two neighbours; its result is ignored by the callers. */
  method PutBetween(t: Tree, g: Seg, ghost a: seq<Seg>, ghost b: seq<Seg>) returns (t': Tree)
    requires InOrder(t) == a + b && Ordered(a + [g] + b)
    ensures InOrder(t') == a + [g] + b
  {
    SplitAround(a, g, b);
    FitsBetween(a, g, b);
    var _, t1 := RbInsert(t, g);
    t' := t1;
  }

  method PutTwo(t: Tree, g: Seg, h: Seg, ghost a: seq<Seg>, ghost b: seq<Seg>) returns (t': Tree)
    requires InOrder(t) == a + b && Ordered(a + [g, h] + b)
    ensures InOrder(t') == a + [g, h] + b
  {
    assert a + [g, h] + b == a + [g] + [h] + b;
    SplitAround(a + [g], h, b);
    t' := PutBetween(t, g, a, b);
    t' := PutBetween(t', h, a + [g], b);
  }

  /** Merge a node into its predecessor when both are contiguous in file and log. */
  method MergePrev(t: Tree, target: Seg, ghost left: seq<Seg>, ghost right: seq<Seg>)
    returns (t': Tree, target': Seg, merged: bool)
    requires Ordered(left + [target] + right) && InOrder(t) == left + [target] + right
    ensures InOrder(t') == Join(left, [target]) + right
    ensures target' == Join(left, [target])[|Join(left, [target])| - 1]
    ensures |InOrder(t')| == |InOrder(t)| - (if merged then 1 else 0)
  {
    t', target', merged := t, target, false;
    var prev := RbPrev(t, target, left, right);
    if prev.Some? && Adjacent(prev.value, target) {
      merged := true;
      target' := Merge(prev.value, target);
      ghost var l1 := left[..|left| - 1];
      SplitAround(left, target, right);
      JoinLast(left, target, right);
      t' := RbRemove(t, target, left, right);
      t' := UpdateNode(t', prev.value, target', l1, right);
    }
  }

  /** The shape of a merge with the last extent of `left`. */
  lemma {:induction false} JoinLast(left: seq<Seg>, g: Seg, right: seq<Seg>)
    requires left != [] && Adjacent(left[|left| - 1], g)
    ensures var l1, x := left[..|left| - 1], left[|left| - 1];
            && left + right == l1 + [x] + right
            && Join(left, [g]) == l1 + [Merge(x, g)] && Join(left, [g])[|left| - 1] == Merge(x, g)
  {
    assert left == left[..|left| - 1] + [left[|left| - 1]];
    assert [g][1..] == [];
  }

  /** Merge the successor of a node into it when both are contiguous in file and log. */
  method MergeNext(t: Tree, target: Seg, ghost left: seq<Seg>, ghost right: seq<Seg>)
    returns (t': Tree, merged: bool)
    requires Ordered(left + right) && InOrder(t) == left + right
    requires left != [] && left[|left| - 1] == target
    ensures InOrder(t') == Join(left, right)
    ensures |InOrder(t')| == |InOrder(t)| - (if merged then 1 else 0)
  {
    t', merged := t, false;
    ghost var l1 := left[..|left| - 1];
    assert left == l1 + [target];
    var next := RbNext(t, target, l1, right);
    if next.Some? && Adjacent(target, next.value) {
      merged := true;
      ghost var r1 := right[1..];
      assert left + right == left + [next.value] + r1;
      SplitAround(left, next.value, r1);
      t' := RbRemove(t, next.value, left, r1);
      t' := UpdateNode(t', target, Merge(target, next.value), l1, r1);
    }
  }

  /** The overwrite loop: insert the node, making room for it as long as something is in the way. */
  method Overwrite(t: Tree, node: Seg, ghost hi: nat) returns (t': Tree, delta: int)
    requires Ordered(InOrder(t)) && EndsBelow(InOrder(t), hi) && Proper(node)
    ensures InOrder(t') == InsertSorted(Cut(InOrder(t), node.start, node.end), node)
    ensures |InOrder(t')| == |InOrder(t)| + delta
  {
    var tree := t;
    delta := 1;
    var overlap;
    overlap, t' := RbInsert(tree, node);
    while overlap.Some?
      invariant Ordered(InOrder(tree)) && EndsBelow(InOrder(tree), hi)
      invariant |InOrder(tree)| == |InOrder(t)| + delta - 1
      invariant Cut(InOrder(tree), node.start, node.end) == Cut(InOrder(t), node.start, node.end)
      invariant overlap.None? ==>
                  NoOverlap(InOrder(tree), node.start, node.end) && InOrder(t') == InsertSorted(InOrder(tree), node)
      invariant overlap.Some? ==> overlap.value in InOrder(tree) && Overlaps(overlap.value, node.start, node.end)
      decreases TotalWeight(InOrder(tree), node.start, node.end)
    {
      var d;
      tree, d := Evict(tree, overlap.value, node.start, node.end, hi);
      delta := delta + d;
      overlap, t' := RbInsert(tree, node);
    }
    CutNoOverlap(InOrder(tree), node.start, node.end);
  }

  /** Overwrite, then merge once to the left and once to the right. */
  method AddTree(t: Tree, node: Seg, ghost hi: nat) returns (t': Tree, delta: int)
    requires Ordered(InOrder(t)) && EndsBelow(InOrder(t), hi) && Proper(node)
    ensures InOrder(t') == AddNodes(InOrder(t), node)
    ensures |InOrder(t')| == |InOrder(t)| + delta
  {
    ghost var left, right := CutAround(InOrder(t), node);
    t', delta := Overwrite(t, node, hi);
    var fewer;
    t', fewer := MergeBoth(t', node, left, right);
    delta := delta - fewer;
  }

  method MergeBoth(t: Tree, node: Seg, ghost left: seq<Seg>, ghost right: seq<Seg>) returns (t': Tree, fewer: nat)
    requires Ordered(left + [node] + right) && InOrder(t) == left + [node] + right
             && Ordered(Join(left, [node]) + right)
    ensures InOrder(t') == Join(Join(left, [node]), right) && |InOrder(t')| + fewer == |InOrder(t)|
  {
    ghost var joined := Join(left, [node]);
    assert joined != [];
    hide Ordered, Join, InOrder;
    var target, merged, also;
    t', target, merged := MergePrev(t, node, left, right);
    t', also := MergeNext(t', target, joined, right);
    fewer := (if merged then 1 else 0) + (if also then 1 else 0);
  }

  /** What is outside the range stays as it is, and weighs nothing. */
  lemma {:induction false} PiecesStable(x: Seg, s: nat, e: nat)
    requires Proper(x) && s <= e && Overlaps(x, s, e)
    ensures Cut(Pieces(x, s, e), s, e) == Pieces(x, s, e) && Ordered(Pieces(x, s, e))
    ensures TotalWeight(Pieces(x, s, e), s, e) < Weight(x, s, e)
  {
    CutNoOverlap(Pieces(x, s, e), s, e);
    NoOverlapWeightless(Pieces(x, s, e), s, e);
  }

  lemma {:induction false} NoOverlapWeightless(ss: seq<Seg>, s: nat, e: nat)
    requires NoOverlap(ss, s, e)
    ensures TotalWeight(ss, s, e) == 0
  {
    if ss != [] {
      assert !Overlaps(ss[0], s, e);
      NoOverlapWeightless(ss[1..], s, e);
    }
  }

  /** The three branches of seg_tree_remove that delete or trim one node in place. */
  method TrimNode(t: Tree, x: Seg, start: nat, end: nat, ghost hi: nat) returns (t': Tree, removed: bool)
    requires Ordered(InOrder(t)) && EndsBelow(InOrder(t), hi) && start <= end
    requires x in InOrder(t) && Overlaps(x, start, end) && !Straddles(x, start, end)
    ensures Ordered(InOrder(t')) && EndsBelow(InOrder(t'), hi)
    ensures Cut(InOrder(t'), start, end) == Cut(InOrder(t), start, end)
    ensures TotalWeight(InOrder(t'), start, end) < TotalWeight(InOrder(t), start, end)
    ensures |InOrder(t')| == |InOrder(t)| - (if removed then 1 else 0)
  {
    ghost var a, b := SplitAt(InOrder(t), x);
    removed := false;
    if start <= x.start {
      if x.end <= end {
        t' := RbRemove(t, x, a, b);
        removed := true;
        assert a + [] + b == a + b;
      } else {
        t' := UpdateNode(t, x, Seg(end + 1, x.end, x.ptr + (end + 1 - x.start)), a, b);
      }
    } else {
      t' := UpdateNode(t, x, Seg(x.start, start - 1, x.ptr), a, b);
    }
    Trimmed(a, x, b, start, end, hi, InOrder(t'));
  }

  lemma {:induction false} Trimmed(a: seq<Seg>, x: Seg, b: seq<Seg>, s: nat, e: nat, hi: nat, r: seq<Seg>)
    requires Ordered(a + [x] + b) && EndsBelow(a + [x] + b, hi) && s <= e && Overlaps(x, s, e)
    requires r == a + Pieces(x, s, e) + b
    ensures Ordered(r) && EndsBelow(r, hi)
    ensures Cut(r, s, e) == Cut(a + [x] + b, s, e)
    ensures TotalWeight(r, s, e) < TotalWeight(a + [x] + b, s, e)
  {
    SplitAround(a, x, b);
    PiecesStable(x, s, e);
    ReplaceMiddle(a, x, Pieces(x, s, e), b, s, e, hi);
  }

  /** The fourth branch: the node spans the whole range. Its front stays in the node and
      its back is added again; in a canonical tree nothing merges with it. */
  lemma {:induction false} SplitNode(a: seq<Seg>, x: Seg, b: seq<Seg>, s: nat, e: nat, hi: nat, front: Seg, back: Seg)
    requires Ordered(a + [x] + b) && EndsBelow(a + [x] + b, hi) && s <= e && Straddles(x, s, e)
    requires front == Seg(x.start, s - 1, x.ptr) && back == Seg(e + 1, x.end, x.ptr + (e + 1 - x.start))
    ensures Ordered(a + [front] + b) && EndsBelow(a + [front] + b, hi)
    ensures NoOverlap(AddNodes(a + [front] + b, back), s, e)
    ensures ToMap(AddNodes(a + [front] + b, back)) == ToMap(Cut(a + [x] + b, s, e))
    ensures Canonical(Cut(a + [x] + b, s, e)) ==> AddNodes(a + [front] + b, back) == Cut(a + [x] + b, s, e)
  {
    SplitAround(a, x, b);
    ReplaceOrdered(a, x, [front], b, hi);
    SplitCut(a, x, b, s, e, front, back);
    CutOrdered(a + [x] + b, s, e);
    AddDisjoint(a + [front], back, b);
    JoinTwice(a + [front], back, b, s, e);
  }

  lemma {:induction false} JoinTwice(left: seq<Seg>, g: Seg, right: seq<Seg>, s: nat, e: nat)
    requires Ordered(left + [g] + right) && NoOverlap(left + [g] + right, s, e) && s <= e
    ensures NoOverlap(Join(Join(left, [g]), right), s, e)
  {
    SplitAround(left, g, right);
    JoinBetween(left, g, right);
    NoOverlapConcat(left + [g], right, s, e);
    NoOverlapConcat(left, [g], s, e);
    JoinNoOverlap(left, [g], s, e);
    JoinNoOverlap(Join(left, [g]), right, s, e);
  }

  /** Adding an extent that meets nothing leaves only the two merges to do. */
  lemma {:induction false} AddDisjoint(left: seq<Seg>, g: Seg, right: seq<Seg>)
    requires Ordered(left + [g] + right)
    ensures AddNodes(left + right, g) == Join(Join(left, [g]), right)
    ensures ToMap(AddNodes(left + right, g)) == ToMap(left + [g] + right)
    ensures Canonical(left + [g] + right) ==> AddNodes(left + right, g) == left + [g] + right
  {
    SplitAround(left, g, right);
    FitsBetween(left, g, right);
    CutNoOverlap(left + right, g.start, g.end);
    var c, k := left + right, Rank(left + right, g.start);
    assert c[..k] + [g] + c[k..] == left + [g] + right;
    RankAt(left, g, right);
    OrderedConcat(left, [g]);
    JoinBetween(left, g, right);
    JoinMap(left, [g]);
    JoinMap(Join(left, [g]), right);
    ToMapConcat(left + [g], right);
    ToMapConcat(left, [g]);
    CanonicalConcat(left + [g], right);
    CanonicalConcat(left, [g]);
    if Canonical(left + [g] + right) {
      assert Join(left, [g]) == left + [g];
    }
  }

  lemma {:induction false} RankAt(left: seq<Seg>, g: Seg, right: seq<Seg>)
    requires Ordered(left) && Proper(g) && EndsBelow(left, g.start) && StartsAbove(right, g.end)
    ensures Rank(left + right, g.start) == |left|
    ensures (left + right)[..|left|] == left && (left + right)[|left|..] == right
  {
    var c := left + right;
    forall i | 0 <= i < |left| ensures c[i].start < g.start { assert c[i] == left[i] && Proper(left[i]); }
    assert right != [] ==> c[|left|] == right[0];
  }

  lemma {:induction false} SplitCut(a: seq<Seg>, x: Seg, b: seq<Seg>, s: nat, e: nat, front: Seg, back: Seg)
    requires Ordered(a + [x] + b) && s <= e && Straddles(x, s, e)
    requires front == Seg(x.start, s - 1, x.ptr) && back == Seg(e + 1, x.end, x.ptr + (e + 1 - x.start))
    ensures Cut(a + [x] + b, s, e) == (a + [front]) + [back] + b
  {
    SplitAround(a, x, b);
    assert Pieces(x, s, e) == [front, back];
    CutConcat(a + [x], b, s, e);
    CutConcat(a, [x], s, e);
    CutOne(x, s, e);
    CutNoOverlap(a, s, e);
    CutNoOverlap(b, s, e);
    ConcatPair(a, front, back, b);
  }

  lemma {:induction false} ConcatPair(a: seq<Seg>, x: Seg, y: Seg, b: seq<Seg>)
    ensures a + [x, y] + b == (a + [x]) + [y] + b
  {
  }

  lemma {:induction false} NoOverlapConcat(a: seq<Seg>, b: seq<Seg>, s: nat, e: nat)
    ensures NoOverlap(a + b, s, e) <==> NoOverlap(a, s, e) && NoOverlap(b, s, e)
  {
    var c := a + b;
    assert forall i :: 0 <= i < |a| ==> c[i] == a[i];
    if NoOverlap(c, s, e) {
      forall i | 0 <= i < |b| ensures !Overlaps(b[i], s, e) { assert c[|a| + i] == b[i]; }
    }
  }

  /** A merge closes no gap, so it cannot reach into a range that neither part met. */
  lemma {:induction false} JoinNoOverlap(a: seq<Seg>, b: seq<Seg>, s: nat, e: nat)
    requires Ordered(a + b) && NoOverlap(a, s, e) && NoOverlap(b, s, e) && s <= e
    ensures NoOverlap(Join(a, b), s, e)
  {
    OrderedConcat(a, b);
    if a != [] && b != [] && Adjacent(a[|a| - 1], b[0]) {
      var x, y := a[|a| - 1], b[0];
      assert Proper(x) && Proper(y) && !Overlaps(x, s, e) && !Overlaps(y, s, e);
      NoOverlapConcat(a[..|a| - 1], [Merge(x, y)], s, e);
      NoOverlapConcat(a[..|a| - 1] + [Merge(x, y)], b[1..], s, e);
    } else {
      NoOverlapConcat(a, b, s, e);
    }
  }

  lemma {:induction false} OverlapWeighs(a: seq<Seg>, x: Seg, b: seq<Seg>, s: nat, e: nat)
    requires Ordered(a + [x] + b) && s <= e && Overlaps(x, s, e)
    ensures TotalWeight(a + [x] + b, s, e) > 0
  {
    SplitAround(a, x, b);
    WeightConcat(a + [x], b, s, e);
    WeightConcat(a, [x], s, e);
    assert [x][1..] == [];
    assert TotalWeight([x], s, e) == Weight(x, s, e);
  }

  /** The branch of seg_tree_remove that trims the node and re-enters seg_tree_add with its back part. */
  method SplitTree(t: Tree, x: Seg, start: nat, end: nat, ghost hi: nat) returns (t': Tree, delta: int)
    requires Ordered(InOrder(t)) && EndsBelow(InOrder(t), hi) && start <= end
    requires x in InOrder(t) && Straddles(x, start, end)
    ensures Ordered(InOrder(t')) && EndsBelow(InOrder(t'), hi) && NoOverlap(InOrder(t'), start, end)
    ensures ToMap(InOrder(t')) == ToMap(Cut(InOrder(t), start, end))
    ensures Canonical(Cut(InOrder(t), start, end)) ==> InOrder(t') == Cut(InOrder(t), start, end)
    ensures TotalWeight(InOrder(t'), start, end) < TotalWeight(InOrder(t), start, end)
    ensures |InOrder(t')| == |InOrder(t)| + delta
  {
    ghost var a, b := SplitAt(InOrder(t), x);
    assert InOrder(t)[|a|] == x;
    var front, back := Seg(x.start, start - 1, x.ptr), Seg(end + 1, x.end, x.ptr + (end + 1 - x.start));
    t' := UpdateNode(t, x, front, a, b);
    ghost var ss := InOrder(t');
    SplitNode(a, x, b, start, end, hi, front, back);
    AddNodesLaw(ss, back);
    AddNodesBelow(ss, back, hi);
    t', delta := AddTree(t', back, hi);
    OverlapWeighs(a, x, b, start, end);
    NoOverlapWeightless(InOrder(t'), start, end);
  }

  /** One turn of the loop of seg_tree_remove. */
  method RemoveStep(t: Tree, x: Seg, start: nat, end: nat, ghost hi: nat) returns (t': Tree, delta: int)
    requires Ordered(InOrder(t)) && EndsBelow(InOrder(t), hi) && start <= end
    requires x in InOrder(t) && Overlaps(x, start, end)
    ensures Ordered(InOrder(t')) && EndsBelow(InOrder(t'), hi)
    ensures ToMap(Cut(InOrder(t'), start, end)) == ToMap(Cut(InOrder(t), start, end))
    ensures Canonical(Cut(InOrder(t), start, end)) || hi <= end + 1 ==>
              Cut(InOrder(t'), start, end) == Cut(InOrder(t), start, end)
    ensures TotalWeight(InOrder(t'), start, end) < TotalWeight(InOrder(t), start, end)
    ensures |InOrder(t')| == |InOrder(t)| + delta
  {
    if x.start < start && end < x.end {
      t', delta := SplitTree(t, x, start, end, hi);
      CutNoOverlap(InOrder(t'), start, end);
    } else {
      var removed;
      t', removed := TrimNode(t, x, start, end, hi);
      delta := if removed then -1 else 0;
    }
  }

  method FindTree(t: Tree, start: nat, end: nat) returns (r: Option<Seg>, ghost k: nat)
    requires Ordered(InOrder(t))
    ensures r.None? <==> NoOverlap(InOrder(t), start, end)
    ensures r.Some? ==> k < |InOrder(t)| && InOrder(t)[k] == r.value && Overlaps(r.value, start, end)
    ensures r.Some? ==> EndsBelow(InOrder(t)[..k], start)
  {
    ghost var ss := InOrder(t);
    r, k := RbNfind(t, start);
    if r.None? || r.value.start > end {
      forall i | 0 <= i < |ss| ensures !Overlaps(ss[i], start, end) {
        if i < k { assert ss[i] == ss[..k][i]; } else { assert i == k || ss[k].end < ss[i].start; }
      }
      r := None;
    }
  }

  method RemoveTree(t: Tree, start: nat, end: nat, ghost hi: nat) returns (t': Tree, delta: int)
    requires Ordered(InOrder(t)) && EndsBelow(InOrder(t), hi) && start <= end
    ensures Ordered(InOrder(t')) && EndsBelow(InOrder(t'), hi)
    ensures ToMap(InOrder(t')) == ToMap(Cut(InOrder(t), start, end))
    ensures Canonical(Cut(InOrder(t), start, end)) || hi <= end + 1 ==> InOrder(t') == Cut(InOrder(t), start, end)
    ensures |InOrder(t')| == |InOrder(t)| + delta
  {
    t', delta := t, 0;
    ghost var c := Cut(InOrder(t), start, end);
    var node, k := FindTree(t', start, end);
    while node.Some?
      invariant Ordered(InOrder(t')) && EndsBelow(InOrder(t'), hi)
      invariant |InOrder(t')| == |InOrder(t)| + delta
      invariant ToMap(Cut(InOrder(t'), start, end)) == ToMap(c)
      invariant Canonical(c) || hi <= end + 1 ==> Cut(InOrder(t'), start, end) == c
      invariant node.None? ==> NoOverlap(InOrder(t'), start, end)
      invariant node.Some? ==> node.value in InOrder(t') && Overlaps(node.value, start, end)
      decreases TotalWeight(InOrder(t'), start, end)
    {
      var d;
      t', d := RemoveStep(t', node.value, start, end, hi);
      delta := delta + d;
      node, k := FindTree(t', start, end);
    }
    CutNoOverlap(InOrder(t'), start, end);
  }

  /** A range that reaches past every extent, as truncation uses it, splits none of them. */
  lemma {:induction false} CutUnbounded(ss: seq<Seg>, s: nat, e: nat, hi: nat)
    requires Ordered(ss) && EndsBelow(ss, hi) && s <= e && hi <= e + 1
    ensures |Cut(ss, s, e)| <= |ss|
  {
    CutLength(ss, s, e);
  }

  /** The loop of seg_tree_clear frees every node one step behind the iteration. */
  method ClearTree(t: Tree) returns (t': Tree)
    requires Ordered(InOrder(t))
    ensures InOrder(t') == []
  {
    t' := t;
    var node := RbMin(t');
    var oldnode: Option<Seg> := None;
    while node.Some?
      invariant Ordered(InOrder(t'))
      invariant oldnode.None? ==> node == (if InOrder(t') == [] then None else Some(InOrder(t')[0]))
      invariant oldnode.Some? ==> InOrder(t') != [] && InOrder(t')[0] == oldnode.value
                                  && node == (if |InOrder(t')| == 1 then None else Some(InOrder(t')[1]))
      decreases |InOrder(t')| - (if oldnode.Some? then 1 else 0)
    {
      if oldnode.Some? {
        ghost var rest := HeadSplit(InOrder(t'));
        t' := RbRemove(t', oldnode.value, [], rest);
        assert [] + rest == rest;
      }
      oldnode := node;
      ghost var rest := HeadSplit(InOrder(t'));
      node := RbNext(t', node.value, [], rest);
    }
    if oldnode.Some? {
      ghost var rest := HeadSplit(InOrder(t'));
      t' := RbRemove(t', oldnode.value, [], rest);
    }
  }

  lemma {:induction false} HeadSplit(ss: seq<Seg>) returns (rest: seq<Seg>)
    requires Ordered(ss) && ss != []
    ensures rest == ss[1..] && ss == [] + [ss[0]] + rest && Ordered(rest)
  {
    rest := ss[1..];
    OrderedTail(ss);
  }

  class SegTree {
    var root: Tree
    var count: nat
    var max: nat

    ghost function Nodes(): seq<Seg>
      reads this
    {
      InOrder(root)
    }

    ghost predicate Valid()
      reads this
    {
      Ordered(Nodes()) && count == |Nodes()| && EndsBelow(Nodes(), max + 1)
    }

    /** The offset-to-log map the tree stands for. */
    ghost function Map(): map<nat, nat>
      reads this
    {
      ToMap(Nodes())
    }

    constructor ()
      ensures Valid() && Nodes() == [] && max == 0
    {
      root, count, max := Leaf, 0, 0;
    }

    /** seg_tree_add, for every tree of disjoint extents and every range: the resulting
        extents are exactly those of the specification, whatever order the
        overlapping ones were met in. */
    method Add(start: nat, end: nat, ptr: nat)
      requires Valid() && start <= end
      modifies this
      ensures Valid()
      ensures Nodes() == AddNodes(old(Nodes()), Seg(start, end, ptr))
      ensures Map() == old(Map()) + SegMap(Seg(start, end, ptr))
      ensures count <= old(count) + 2
      ensures max == if old(max) < end then end else old(max)
      ensures old(Canonical(Nodes())) ==> Canonical(Nodes())
    {
      var node := Seg(start, end, ptr);
      hide AddNodes, ToMap, SegMap, Canonical, EndsBelow, Ordered;
      AddNodesLaw(Nodes(), node);
      EndsBelowWeaken(Nodes(), max + 1, (if max < end then end else max) + 1);
      AddNodesBelow(Nodes(), node, (if max < end then end else max) + 1);
      if Canonical(Nodes()) { AddNodesCanonical(Nodes(), node); }
      var tree, delta := AddTree(root, node, max + 1);
      root := tree;
      count := count + delta;
      max := if max < end then end else max;
    }

    /** seg_tree_find_nolock: the overlapping extent that starts lowest, if any overlaps. */
    method Find(start: nat, end: nat) returns (r: Option<Seg>, ghost k: nat)
      requires Valid()
      ensures r.None? <==> NoOverlap(Nodes(), start, end)
      ensures r.Some? ==> k < |Nodes()| && Nodes()[k] == r.value && Overlaps(r.value, start, end)
      ensures r.Some? ==> EndsBelow(Nodes()[..k], start)
    {
      r, k := FindTree(root, start, end);
    }

    /** seg_tree_remove: exactly the offsets of the range disappear from the map. */
    method Remove(start: nat, end: nat)
      requires Valid() && start <= end
      modifies this
      ensures Valid() && max == old(max)
      ensures Map() == old(Map()) - Range(start, end)
      ensures old(Canonical(Nodes())) || old(max) <= end ==> Nodes() == Cut(old(Nodes()), start, end)
      ensures old(Canonical(Nodes())) ==> Canonical(Nodes())
      ensures old(max) <= end ==> count <= old(count)
    {
      assert forall i :: 0 <= i < |Nodes()| ==> Proper(Nodes()[i]);
      CutMap(Nodes(), start, end);
      hide Cut, ToMap, Canonical, EndsBelow, Ordered;
      if max <= end { CutUnbounded(Nodes(), start, end, max + 1); }
      if Canonical(Nodes()) { CutCanonical(Nodes(), start, end); }
      var tree, delta := RemoveTree(root, start, end, max + 1);
      root := tree;
      count := count + delta;
    }

    /** seg_tree_iter: the first extent, or the one after a given extent of the tree. */
    method Iter(cur: Option<Seg>, ghost k: nat) returns (next: Option<Seg>)
      requires Valid()
      requires cur.Some? ==> k < |Nodes()| && Nodes()[k] == cur.value
      ensures cur.None? ==> next == if Nodes() == [] then None else Some(Nodes()[0])
      ensures cur.Some? ==> next == if k + 1 < |Nodes()| then Some(Nodes()[k + 1]) else None
    {
      if cur.None? {
        next := RbMin(root);
      } else {
        // seg_tree_iter first looks the node up again, which in an unchanged tree succeeds
        ghost var a, b := Nodes()[..k], Nodes()[k + 1..];
        assert Nodes() == a + [cur.value] + b;
        next := RbNext(root, cur.value, a, b);
      }
    }

    /** seg_tree_clear: frees the nodes one behind the iteration; an empty tree keeps its old maximum. */
    method Clear()
      requires Valid()
      modifies this
      ensures Valid() && Nodes() == []
      ensures max == if old(Nodes()) == [] then old(max) else 0
    {
      if root.Leaf? {
        return;
      }
      var tree := ClearTree(root);
      root := tree;
      count := 0;
      max := 0;
    }
  }
}
