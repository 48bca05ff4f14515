/** The search tree under the segment tree, and the descents of tree.h over it.
    Balancing is left open: after every structural change the tree may be
    replaced by any other tree with the same in-order sequence, so what is
    proved holds whatever the rotations do, and whichever overlapping node an
    insertion happens to meet first. */
module IntervalTree {
  import opened Extents
  import opened Wrappers

  datatype Tree = Leaf | Node(left: Tree, seg: Seg, right: Tree)

  function InOrder(t: Tree): seq<Seg> {
    match t
    case Leaf => []
    case Node(l, x, r) => InOrder(l) + [x] + InOrder(r)
  }

  /** The comparison of the tree: 0 as soon as the two ranges overlap. */
  function Compare(x: Seg, y: Seg): int {
    if x.start > y.end then 1
    else if x.end < y.start then -1
    else 0
  }

  /** The comparison is no total order: "equal" is not transitive. */
  lemma {:induction false} CompareNotTransitive()
    ensures exists x, y, z :: Proper(x) && Proper(y) && Proper(z)
                              && Compare(x, y) == 0 && Compare(y, z) == 0 && Compare(x, z) != 0
  {
    var x, y, z := Seg(0, 1, 0), Seg(1, 2, 0), Seg(2, 3, 0);
    assert Compare(x, y) == 0 && Compare(y, z) == 0 && Compare(x, z) != 0;
  }

  // ---------- positions: a subtree together with the chain of its parents ----------

  datatype Path =
    | Top
    | WentLeft(seg: Seg, right: Tree, up: Path)
    | WentRight(left: Tree, seg: Seg, up: Path)

  function Plug(p: Path, t: Tree): Tree {
    match p
    case Top => t
    case WentLeft(x, r, up) => Plug(up, Node(t, x, r))
    case WentRight(l, x, up) => Plug(up, Node(l, x, t))
  }

  ghost function Before(p: Path): seq<Seg> {
    match p
    case Top => []
    case WentLeft(x, r, up) => Before(up)
    case WentRight(l, x, up) => Before(up) + (InOrder(l) + [x])
  }

  ghost function After(p: Path): seq<Seg> {
    match p
    case Top => []
    case WentLeft(x, r, up) => [x] + InOrder(r) + After(up)
    case WentRight(l, x, up) => After(up)
  }

  lemma {:induction false} PlugInOrder(p: Path, t: Tree)
    ensures InOrder(Plug(p, t)) == Before(p) + InOrder(t) + After(p)
    decreases p
  {
    match p
    case Top =>
    case WentLeft(x, r, up) =>
      PlugInOrder(up, Node(t, x, r));
      ConcatShiftLeft(Before(up), InOrder(t), x, InOrder(r), After(up));
    case WentRight(l, x, up) =>
      PlugInOrder(up, Node(l, x, t));
      ConcatShiftRight(Before(up), InOrder(l), x, InOrder(t), After(up));
  }

  lemma {:induction false} ConcatShiftLeft(b: seq<Seg>, l: seq<Seg>, x: Seg, r: seq<Seg>, a: seq<Seg>)
    ensures b + (l + [x] + r) + a == b + l + ([x] + r + a)
  {
  }

  lemma {:induction false} ConcatShiftRight(b: seq<Seg>, l: seq<Seg>, x: Seg, r: seq<Seg>, a: seq<Seg>)
    ensures b + (l + [x] + r) + a == (b + (l + [x])) + r + a
  {
  }

  /** Reading off the pieces of an in-order sequence around a node. */
  lemma {:induction false} AroundNode(b: seq<Seg>, l: seq<Seg>, x: Seg, r: seq<Seg>, a: seq<Seg>, y: Seg)
    ensures var s, i := b + (l + [x] + r) + a, |b| + |l|;
            && i < |s| && s[i] == x && s[..i] == b + l && s[i + 1..] == r + a
            && b + (l + r) + a == s[..i] + s[i + 1..]
            && b + (l + [y] + r) + a == s[i := y]
  {
    Regroup(b, l, [x], r, a);
    Regroup(b, l, [y], r, a);
    Regroup(b, l, [], r, a);
    assert l + [] == l && (b + l) + [] == b + l;
    AroundItem(b + l, x, r + a, y);
  }

  lemma {:induction false} Regroup(b: seq<Seg>, l: seq<Seg>, x: seq<Seg>, r: seq<Seg>, a: seq<Seg>)
    ensures b + (l + x + r) + a == (b + l) + x + (r + a)
  {
  }

  lemma {:induction false} AroundItem(b: seq<Seg>, x: Seg, a: seq<Seg>, y: Seg)
    ensures var s := b + [x] + a;
            s[|b|] == x && s[..|b|] == b && s[|b| + 1..] == a && b + [y] + a == s[|b| := y]
  {
  }

  // ---------- the descents ----------

  /** Rotations and recolouring: any tree with the same in-order sequence. */
  method Rebalance(t: Tree) returns (t': Tree)
    ensures InOrder(t') == InOrder(t)
  {
    t' :| InOrder(t') == InOrder(t);
  }

  /** `sub` hangs at the end of `path` in `t`; the path has passed only nodes that end below `lo`
      on the left and nodes that start above `hi` on the right. */
  ghost predicate Reached(path: Path, sub: Tree, t: Tree, lo: nat, hi: nat) {
    Plug(path, sub) == t && EndsBelow(Before(path), lo) && StartsAbove(After(path), hi)
  }

  lemma {:induction false} GoLeft(path: Path, sub: Tree, t: Tree, lo: nat, hi: nat)
    requires Ordered(InOrder(t)) && Reached(path, sub, t, lo, hi) && sub.Node? && hi < sub.seg.start
    ensures Reached(WentLeft(sub.seg, sub.right, path), sub.left, t, lo, hi)
  {
    PlugInOrder(path, sub);
    SplitOrdered(Before(path), InOrder(sub.left), sub.seg, InOrder(sub.right), After(path));
    AllAbove(sub.seg, InOrder(sub.right), After(path), hi);
    hide EndsBelow, StartsAbove, Ordered, InOrder;
  }

  lemma {:induction false} GoRight(path: Path, sub: Tree, t: Tree, lo: nat, hi: nat)
    requires Ordered(InOrder(t)) && Reached(path, sub, t, lo, hi) && sub.Node? && sub.seg.end < lo
    ensures Reached(WentRight(sub.left, sub.seg, path), sub.right, t, lo, hi)
  {
    PlugInOrder(path, sub);
    SplitOrdered(Before(path), InOrder(sub.left), sub.seg, InOrder(sub.right), After(path));
    AllBelow(Before(path), InOrder(sub.left), sub.seg, lo);
    hide EndsBelow, StartsAbove, Ordered, InOrder;
  }

  lemma {:induction false} AtLeaf(path: Path, t: Tree, g: Seg)
    requires Reached(path, Leaf, t, g.start, g.end)
    ensures InOrder(t) == Before(path) + After(path) && NoOverlap(InOrder(t), g.start, g.end)
  {
    PlugInOrder(path, Leaf);
    AroundLeaf(Before(path), After(path), g);
    hide EndsBelow, StartsAbove, NoOverlap;
  }

  lemma {:induction false} AtNode(path: Path, sub: Tree, t: Tree)
    requires Plug(path, sub) == t && sub.Node?
    ensures sub.seg in InOrder(t)
  {
    PlugInOrder(path, sub);
    AroundNode(Before(path), InOrder(sub.left), sub.seg, InOrder(sub.right), After(path), sub.seg);
    assert InOrder(t)[|Before(path)| + |InOrder(sub.left)|] == sub.seg;
  }

  /** The loop shared by RB_INSERT and RB_FIND. It stops at an overlapping node
      exactly when there is one; everything off the path is strictly before or after `g`. */
  method Descend(t: Tree, g: Seg) returns (path: Path, sub: Tree)
    requires Ordered(InOrder(t)) && Proper(g)
    ensures Reached(path, sub, t, g.start, g.end)
    ensures sub.Leaf? <==> NoOverlap(InOrder(t), g.start, g.end)
    ensures sub.Node? ==> Overlaps(sub.seg, g.start, g.end)
  {
    path, sub := Top, t;
    assert Reached(path, sub, t, g.start, g.end);
    hide Reached, Ordered, InOrder;
    while sub.Node? && Compare(g, sub.seg) != 0
      invariant Reached(path, sub, t, g.start, g.end)
      decreases sub
    {
      if Compare(g, sub.seg) < 0 {
        GoLeft(path, sub, t, g.start, g.end);
        path, sub := WentLeft(sub.seg, sub.right, path), sub.left;
      } else {
        GoRight(path, sub, t, g.start, g.end);
        path, sub := WentRight(sub.left, sub.seg, path), sub.right;
      }
    }
    if sub.Leaf? {
      AtLeaf(path, t, g);
    } else {
      StoppedAt(path, sub, t, g);
    }
  }

  lemma {:induction false} StoppedAt(path: Path, sub: Tree, t: Tree, g: Seg)
    requires Reached(path, sub, t, g.start, g.end) && sub.Node? && Overlaps(sub.seg, g.start, g.end)
    ensures !NoOverlap(InOrder(t), g.start, g.end)
  {
    AtNode(path, sub, t);
  }

  lemma {:induction false} AroundLeaf(b: seq<Seg>, a: seq<Seg>, g: Seg)
    requires EndsBelow(b, g.start) && StartsAbove(a, g.end)
    ensures b + [] + a == b + a && NoOverlap(b + a, g.start, g.end)
  {
    assert b + [] == b;
  }

  lemma {:induction false} AllBelow(b: seq<Seg>, l: seq<Seg>, x: Seg, hi: nat)
    requires EndsBelow(b, hi) && EndsBelow(l, x.start) && Proper(x) && x.end < hi
    ensures EndsBelow(b + (l + [x]), hi)
  {
  }

  lemma {:induction false} AllAbove(x: Seg, r: seq<Seg>, a: seq<Seg>, lo: nat)
    requires StartsAbove(a, lo) && StartsAbove(r, x.end) && Proper(x) && lo < x.start
    ensures StartsAbove([x] + r + a, lo)
  {
  }

  lemma {:induction false} OverlapUnique(ss: seq<Seg>, i: nat, k: nat)
    requires Ordered(ss) && i < |ss| && k < |ss| && Overlaps(ss[k], ss[i].start, ss[i].end)
    ensures i == k
  {
  }

  lemma {:induction false} SplitOrdered(b: seq<Seg>, l: seq<Seg>, x: Seg, r: seq<Seg>, a: seq<Seg>)
    requires Ordered(b + (l + [x] + r) + a)
    ensures Proper(x) && EndsBelow(l, x.start) && StartsAbove(r, x.end)
  {
    var all := b + (l + [x] + r) + a;
    assert all[|b| + |l|] == x;
    forall i | 0 <= i < |l| ensures l[i].end < x.start { assert all[|b| + i] == l[i]; }
    forall i | 0 <= i < |r| ensures x.end < r[i].start { assert all[|b| + |l| + 1 + i] == r[i]; }
  }

  /** RB_INSERT: reports an overlapping node if and only if there is one, and
      otherwise puts the new node at its place in the order. */
  method RbInsert(t: Tree, g: Seg) returns (overlap: Option<Seg>, t': Tree)
    requires Ordered(InOrder(t)) && Proper(g)
    ensures overlap.None? <==> NoOverlap(InOrder(t), g.start, g.end)
    ensures overlap.Some? ==> t' == t && overlap.value in InOrder(t) && Overlaps(overlap.value, g.start, g.end)
    ensures overlap.None? ==> InOrder(t') == InsertSorted(InOrder(t), g)
  {
    var path, sub := Descend(t, g);
    if sub.Node? {
      AtNode(path, sub, t);
      return Some(sub.seg), t;
    }
    overlap := None;
    t' := Rebalance(Plug(path, Node(Leaf, g, Leaf)));
    InsertLeaf(path, t, g);
  }

  lemma {:induction false} InsertLeaf(path: Path, t: Tree, g: Seg)
    requires Reached(path, Leaf, t, g.start, g.end) && Ordered(InOrder(t)) && Proper(g)
    ensures InOrder(Plug(path, Node(Leaf, g, Leaf))) == InsertSorted(InOrder(t), g)
  {
    AtLeaf(path, t, g);
    PlugInOrder(path, Node(Leaf, g, Leaf));
    assert [] + [g] + [] == [g];
    OrderedConcat(Before(path), After(path));
    InsertAt(Before(path), g, After(path));
    hide InsertSorted, EndsBelow, StartsAbove, NoOverlap;
  }

  /** Where an extent goes in an ordered sequence is determined by its neighbours. */
  lemma {:induction false} InsertAt(a: seq<Seg>, g: Seg, b: seq<Seg>)
    requires EndsBelow(a, g.start) && StartsAbove(b, g.end) && Proper(g)
    requires Ordered(a)
    ensures InsertSorted(a + b, g) == a + [g] + b
  {
    var c, k := a + b, Rank(a + b, g.start);
    forall i | 0 <= i < |a| ensures c[i].start < g.start { assert c[i] == a[i] && Proper(a[i]); }
    assert b != [] ==> c[|a|] == b[0];
    assert k == |a|;
    assert c[..k] == a && c[k..] == b;
  }

  /** The node holding `x`; in C this is the pointer the caller already has. */
  method Locate(t: Tree, x: Seg, ghost a: seq<Seg>, ghost b: seq<Seg>) returns (path: Path, sub: Tree)
    requires Ordered(InOrder(t)) && InOrder(t) == a + [x] + b
    ensures Plug(path, sub) == t && sub.Node? && sub.seg == x
    ensures a == Before(path) + InOrder(sub.left) && b == InOrder(sub.right) + After(path)
  {
    assert InOrder(t)[|a|] == x;
    assert Proper(InOrder(t)[|a|]) && Overlaps(InOrder(t)[|a|], x.start, x.end);
    path, sub := Descend(t, x);
    PlugInOrder(path, sub);
    LocateSplit(InOrder(t), a, x, b, Before(path), InOrder(sub.left), sub.seg, InOrder(sub.right), After(path));
  }

  lemma {:induction false} LocateSplit(s: seq<Seg>, a: seq<Seg>, x: Seg, b: seq<Seg>,
                                       p: seq<Seg>, l: seq<Seg>, y: Seg, r: seq<Seg>, q: seq<Seg>)
    requires Ordered(s) && s == a + [x] + b && s == p + (l + [y] + r) + q && Overlaps(y, x.start, x.end)
    ensures x == y && a == p + l && b == r + q
  {
    AroundNode(p, l, y, r, q, y);
    assert s[|a|] == x && s[..|a|] == a && s[|a| + 1..] == b;
    OverlapUnique(s, |a|, |p| + |l|);
  }

  /** The smallest node of a non-empty tree, and what is left without it. */
  function PopMin(t: Tree): (r: (Seg, Tree))
    requires t.Node?
    ensures InOrder(t) == [r.0] + InOrder(r.1)
  {
    if t.left.Leaf? then (t.seg, t.right)
    else
      var (m, l) := PopMin(t.left);
      assert [m] + InOrder(l) + [t.seg] + InOrder(t.right) == [m] + (InOrder(l) + [t.seg] + InOrder(t.right));
      (m, Node(l, t.seg, t.right))
  }

  /** RB_REMOVE without the recolouring: a node with two children is replaced by its successor. */
  method RemoveRoot(t: Tree) returns (r: Tree)
    requires t.Node?
    ensures InOrder(r) == InOrder(t.left) + InOrder(t.right)
  {
    if t.left.Leaf? {
      r := t.right;
    } else if t.right.Leaf? {
      r := t.left;
    } else {
      var (m, rest) := PopMin(t.right);
      r := Node(t.left, m, rest);
      assert InOrder(t.left) + [m] + InOrder(rest) == InOrder(t.left) + ([m] + InOrder(rest));
    }
  }

  method RbRemove(t: Tree, x: Seg, ghost a: seq<Seg>, ghost b: seq<Seg>) returns (t': Tree)
    requires Ordered(InOrder(t)) && InOrder(t) == a + [x] + b
    ensures InOrder(t') == a + b
  {
    var path, sub := Locate(t, x, a, b);
    var rest := RemoveRoot(sub);
    t' := Rebalance(Plug(path, rest));
    PlugInOrder(path, rest);
    ConcatDrop(Before(path), InOrder(sub.left), InOrder(sub.right), After(path));
  }

  lemma {:induction false} ConcatDrop(b: seq<Seg>, l: seq<Seg>, r: seq<Seg>, a: seq<Seg>)
    ensures b + (l + r) + a == (b + l) + (r + a)
  {
  }

  /** Assigning to the fields of a node in place. */
  method UpdateNode(t: Tree, x: Seg, y: Seg, ghost a: seq<Seg>, ghost b: seq<Seg>) returns (t': Tree)
    requires Ordered(InOrder(t)) && InOrder(t) == a + [x] + b
    ensures InOrder(t') == a + [y] + b
  {
    var path, sub := Locate(t, x, a, b);
    t' := Plug(path, sub.(seg := y));
    PlugInOrder(path, sub.(seg := y));
    ConcatRegroup(Before(path), InOrder(sub.left), y, InOrder(sub.right), After(path));
  }

  lemma {:induction false} ConcatRegroup(b: seq<Seg>, l: seq<Seg>, x: Seg, r: seq<Seg>, a: seq<Seg>)
    ensures b + (l + [x] + r) + a == (b + l) + [x] + (r + a)
  {
  }

  /** RB_MINMAX towards the left end. */
  method RbMin(t: Tree) returns (m: Option<Seg>)
    ensures m == if InOrder(t) == [] then None else Some(InOrder(t)[0])
  {
    var tmp := t;
    m := None;
    while tmp.Node?
      invariant InOrder(tmp) <= InOrder(t)
      invariant m.None? ==> tmp == t
      invariant m.Some? ==> InOrder(t) != [] && (InOrder(tmp) == [] ==> InOrder(t)[0] == m.value)
      decreases tmp
    {
      assert InOrder(tmp.left) + [tmp.seg] + InOrder(tmp.right) == InOrder(tmp.left) + ([tmp.seg] + InOrder(tmp.right));
      m, tmp := Some(tmp.seg), tmp.left;
    }
  }

  /** RB_NEXT: down to the leftmost node of the right subtree, or up past every right turn. */
  method RbNext(t: Tree, x: Seg, ghost a: seq<Seg>, ghost b: seq<Seg>) returns (r: Option<Seg>)
    requires Ordered(InOrder(t)) && InOrder(t) == a + [x] + b
    ensures r == if b == [] then None else Some(b[0])
  {
    var path, sub := Locate(t, x, a, b);
    if sub.right.Node? {
      r := RbMin(sub.right);
    } else {
      while path.WentRight?
        invariant After(path) == b
        decreases path
      {
        path := path.up;
      }
      r := if path.Top? then None else Some(path.seg);
    }
  }

  /** RB_MINMAX towards the right end, as the inner loop of RB_PREV runs it. */
  method RbMax(t: Tree) returns (m: Option<Seg>)
    ensures m == if InOrder(t) == [] then None else Some(InOrder(t)[|InOrder(t)| - 1])
  {
    var tmp := t;
    ghost var before: seq<Seg> := [];
    m := None;
    while tmp.Node?
      invariant InOrder(t) == before + InOrder(tmp)
      invariant m.None? ==> tmp == t && before == []
      invariant m.Some? ==> before != [] && before[|before| - 1] == m.value
      decreases tmp
    {
      before := before + (InOrder(tmp.left) + [tmp.seg]);
      m, tmp := Some(tmp.seg), tmp.right;
    }
  }

  /** RB_PREV, the mirror image. */
  method RbPrev(t: Tree, x: Seg, ghost a: seq<Seg>, ghost b: seq<Seg>) returns (r: Option<Seg>)
    requires Ordered(InOrder(t)) && InOrder(t) == a + [x] + b
    ensures r == if a == [] then None else Some(a[|a| - 1])
  {
    var path, sub := Locate(t, x, a, b);
    if sub.left.Node? {
      r := RbMax(sub.left);
    } else {
      while path.WentLeft?
        invariant Before(path) == a
        decreases path
      {
        path := path.up;
      }
      r := if path.Top? then None else Some(path.seg);
    }
  }

  /** A descent that ends at a leaf ends between two neighbours. */
  lemma {:induction false} FellOff(path: Path, t: Tree, at: nat)
    requires Reached(path, Leaf, t, at, at)
    ensures var s, k := InOrder(t), |Before(path)|;
            && |s| == k + |After(path)| && EndsBelow(s[..k], at) && (After(path) != [] ==> s[k] == After(path)[0])
  {
    AtLeaf(path, t, Seg(at, at, 0));
    assert (Before(path) + After(path))[..|Before(path)|] == Before(path);
  }

  lemma {:induction false} FoundAt(path: Path, sub: Tree, t: Tree, at: nat)
    requires sub.Node? && Reached(path, sub, t, at, at) && Ordered(InOrder(t)) && sub.seg.start <= at
    ensures var s, k := InOrder(t), |Before(path)| + |InOrder(sub.left)|;
            k < |s| && s[k] == sub.seg && EndsBelow(s[..k], at)
  {
    PlugInOrder(path, sub);
    SplitOrdered(Before(path), InOrder(sub.left), sub.seg, InOrder(sub.right), After(path));
    AroundNode(Before(path), InOrder(sub.left), sub.seg, InOrder(sub.right), After(path), sub.seg);
  }

  lemma {:induction false} NodeProper(path: Path, sub: Tree, t: Tree, at: nat)
    requires Reached(path, sub, t, at, at) && sub.Node? && Ordered(InOrder(t))
    ensures Proper(sub.seg)
  {
    AtNode(path, sub, t);
  }

  /** RB_NFIND with a one-byte key: the lowest node that ends at or after `at`. */
  method RbNfind(t: Tree, at: nat) returns (r: Option<Seg>, ghost k: nat)
    requires Ordered(InOrder(t))
    ensures k <= |InOrder(t)| && EndsBelow(InOrder(t)[..k], at)
    ensures r == if k < |InOrder(t)| then Some(InOrder(t)[k]) else None
    ensures r.Some? ==> at <= r.value.end
  {
    var key := Seg(at, at, 0);
    var tmp := t;
    ghost var path := Top;
    r := None;
    assert Reached(path, tmp, t, at, at);
    hide Ordered, Reached, InOrder, EndsBelow;
    while tmp.Node?
      invariant Reached(path, tmp, t, at, at)
      invariant r == if After(path) == [] then None else Some(After(path)[0])
      invariant r.Some? ==> at <= r.value.end
      decreases tmp
    {
      var comp := Compare(key, tmp.seg);
      if comp < 0 {
        NodeProper(path, tmp, t, at);
        r := Some(tmp.seg);
        GoLeft(path, tmp, t, at, at);
        path, tmp := WentLeft(tmp.seg, tmp.right, path), tmp.left;
      } else if comp > 0 {
        GoRight(path, tmp, t, at, at);
        path, tmp := WentRight(tmp.left, tmp.seg, path), tmp.right;
      } else {
        k := |Before(path)| + |InOrder(tmp.left)|;
        FoundAt(path, tmp, t, at);
        return Some(tmp.seg), k;
      }
    }
    k := |Before(path)|;
    FellOff(path, t, at);
  }
}
