/** Extents of a file: closed ranges of file offsets, each stored at consecutive
    log positions, and what a sorted sequence of them denotes. The functions here
    are the specification of the segment tree; every one is a plain fold over the
    sequence, with no notion of a tree. */
module Extents {

  /** File offsets `start..end` (both included) are stored from log position `ptr` on. */
  datatype Seg = Seg(start: nat, end: nat, ptr: nat)

  predicate Proper(x: Seg) {
    x.start <= x.end
  }

  predicate Overlaps(x: Seg, s: nat, e: nat) {
    x.start <= e && s <= x.end
  }

  /** The ordering invariant of the segment tree: proper, disjoint and increasing. */
  ghost predicate Ordered(ss: seq<Seg>) {
    && (forall i :: 0 <= i < |ss| ==> Proper(ss[i]))
    && (forall i, j :: 0 <= i < j < |ss| ==> ss[i].end < ss[j].start)
  }

  /** Two neighbours that are contiguous both in the file and in the log. */
  predicate Adjacent(x: Seg, y: Seg) {
    x.end + 1 == y.start && x.ptr + (x.end - x.start + 1) == y.ptr
  }

  /** No two neighbours could be merged. */
  ghost predicate Canonical(ss: seq<Seg>) {
    forall i :: 0 <= i < |ss| - 1 ==> !Adjacent(ss[i], ss[i + 1])
  }

  ghost predicate NoOverlap(ss: seq<Seg>, s: nat, e: nat) {
    forall i :: 0 <= i < |ss| ==> !Overlaps(ss[i], s, e)
  }

  // ---------- denotation: offset -> log position ----------

  ghost predicate Within(o: nat, s: nat, e: nat) {
    s <= o <= e
  }

  ghost function Range(s: nat, e: nat): set<nat> {
    set o: nat | s <= o <= e && Within(o, s, e)
  }

  ghost function SegMap(x: Seg): map<nat, nat> {
    map o: nat | x.start <= o <= x.end && Within(o, x.start, x.end) :: x.ptr + (o - x.start)
  }

  ghost function ToMap(ss: seq<Seg>): map<nat, nat> {
    if ss == [] then map[] else SegMap(ss[0]) + ToMap(ss[1..])
  }

  lemma {:induction false} ToMapConcat(a: seq<Seg>, b: seq<Seg>)
    ensures ToMap(a + b) == ToMap(a) + ToMap(b)
  {
    if a == [] {
      assert a + b == b;
    } else {
      ToMapConcat(a[1..], b);
      assert (a + b)[1..] == a[1..] + b && (a + b)[0] == a[0];
      MapAssoc(SegMap(a[0]), ToMap(a[1..]), ToMap(b));
    }
  }

  lemma {:induction false} MapAssoc(a: map<nat, nat>, b: map<nat, nat>, c: map<nat, nat>)
    ensures (a + b) + c == a + (b + c)
  {
  }

  lemma {:induction false} ToMapOne(x: Seg)
    ensures ToMap([x]) == SegMap(x)
  {
    assert [x][1..] == [];
  }

  /** `o` is mapped exactly when some extent covers it. */
  lemma {:induction false} ToMapDomain(ss: seq<Seg>, o: nat)
    ensures o in ToMap(ss) <==> exists i :: 0 <= i < |ss| && ss[i].start <= o <= ss[i].end
  {
    if ss != [] {
      ToMapDomain(ss[1..], o);
      if i :| 0 <= i < |ss| && ss[i].start <= o <= ss[i].end {
        if i > 0 { assert ss[1..][i - 1] == ss[i]; }
      }
      if j :| 0 <= j < |ss[1..]| && ss[1..][j].start <= o <= ss[1..][j].end {
        assert ss[j + 1] == ss[1..][j];
      }
    }
  }

  /** In an ordered sequence the covering extent alone determines the log position. */
  lemma {:induction false} ToMapAt(ss: seq<Seg>, i: nat, o: nat)
    requires Ordered(ss) && i < |ss| && ss[i].start <= o <= ss[i].end
    ensures o in ToMap(ss) && ToMap(ss)[o] == ss[i].ptr + (o - ss[i].start)
  {
    if i == 0 {
      ToMapDomain(ss[1..], o);
      forall j | 0 <= j < |ss[1..]| ensures ss[0].end < ss[1..][j].start { assert ss[1..][j] == ss[j + 1]; }
    } else {
      OrderedTail(ss);
      ToMapAt(ss[1..], i - 1, o);
    }
  }

  // ---------- ordering and concatenation ----------

  lemma {:induction false} OrderedTail(ss: seq<Seg>)
    requires Ordered(ss) && ss != []
    ensures Ordered(ss[1..])
  {
  }

  lemma {:induction false} OrderedConcat(a: seq<Seg>, b: seq<Seg>)
    ensures Ordered(a + b) <==>
              Ordered(a) && Ordered(b)
              && (forall i, j :: 0 <= i < |a| && 0 <= j < |b| ==> a[i].end < b[j].start)
  {
    var c := a + b;
    assert forall i :: 0 <= i < |a| ==> c[i] == a[i];
    assert forall j :: 0 <= j < |b| ==> b[j] == c[|a| + j];
    if Ordered(c) {
      forall i, j | 0 <= i < |a| && 0 <= j < |b| ensures a[i].end < b[j].start {
        assert c[i] == a[i] && c[|a| + j] == b[j];
      }
    }
  }

  // ---------- removing a range ----------

  /** What is left of one extent outside `[s, e]`: at most a front and a back part. */
  ghost function Pieces(x: Seg, s: nat, e: nat): seq<Seg> {
    if !Overlaps(x, s, e) then [x]
    else
      (if x.start < s then [Seg(x.start, s - 1, x.ptr)] else [])
      + (if e < x.end then [Seg(e + 1, x.end, x.ptr + (e + 1 - x.start))] else [])
  }

  ghost function Cut(ss: seq<Seg>, s: nat, e: nat): seq<Seg> {
    if ss == [] then [] else Pieces(ss[0], s, e) + Cut(ss[1..], s, e)
  }

  lemma {:induction false} ConcatAssoc(a: seq<Seg>, b: seq<Seg>, c: seq<Seg>)
    ensures a + (b + c) == (a + b) + c
  {
  }

  lemma {:induction false} CutConcat(a: seq<Seg>, b: seq<Seg>, s: nat, e: nat)
    ensures Cut(a + b, s, e) == Cut(a, s, e) + Cut(b, s, e)
  {
    if a == [] {
      assert a + b == b;
    } else {
      CutConcat(a[1..], b, s, e);
      assert (a + b)[1..] == a[1..] + b && (a + b)[0] == a[0];
      ConcatAssoc(Pieces(a[0], s, e), Cut(a[1..], s, e), Cut(b, s, e));
      hide Pieces;
    }
  }

  lemma {:induction false} CutOne(x: Seg, s: nat, e: nat)
    ensures Cut([x], s, e) == Pieces(x, s, e)
  {
    assert [x][1..] == [];
  }

  lemma {:induction false} CutNoOverlap(ss: seq<Seg>, s: nat, e: nat)
    requires NoOverlap(ss, s, e)
    ensures Cut(ss, s, e) == ss
  {
    if ss != [] {
      CutNoOverlap(ss[1..], s, e);
    }
  }

  /** Where the extents of a cut come from, and that none of them meets the range. */
  lemma {:induction false} CutMember(ss: seq<Seg>, s: nat, e: nat, k: nat)
    requires s <= e && (forall i :: 0 <= i < |ss| ==> Proper(ss[i]))
    requires k < |Cut(ss, s, e)|
    ensures Proper(Cut(ss, s, e)[k]) && !Overlaps(Cut(ss, s, e)[k], s, e)
    ensures exists i :: 0 <= i < |ss| && ss[i].start <= Cut(ss, s, e)[k].start && Cut(ss, s, e)[k].end <= ss[i].end
  {
    var p := Pieces(ss[0], s, e);
    if k >= |p| {
      CutMember(ss[1..], s, e, k - |p|);
      var i :| 0 <= i < |ss[1..]| && ss[1..][i].start <= Cut(ss, s, e)[k].start
               && Cut(ss, s, e)[k].end <= ss[1..][i].end;
      assert ss[i + 1] == ss[1..][i];
    } else {
      assert Cut(ss, s, e)[k] == p[k];
      assert ss[0].start <= p[k].start && p[k].end <= ss[0].end;
    }
  }

  lemma {:induction false} CutOrdered(ss: seq<Seg>, s: nat, e: nat)
    requires Ordered(ss) && s <= e
    ensures Ordered(Cut(ss, s, e)) && NoOverlap(Cut(ss, s, e), s, e)
  {
    if ss != [] {
      OrderedTail(ss);
      CutOrdered(ss[1..], s, e);
      var p, c := Pieces(ss[0], s, e), Cut(ss[1..], s, e);
      forall i, j | 0 <= i < |p| && 0 <= j < |c| ensures p[i].end < c[j].start {
        CutMember(ss[1..], s, e, j);
        var k :| 0 <= k < |ss[1..]| && ss[1..][k].start <= c[j].start && c[j].end <= ss[1..][k].end;
        assert ss[1..][k] == ss[k + 1];
      }
      assert Ordered(p);
      OrderedConcat(p, c);
      forall k | 0 <= k < |Cut(ss, s, e)| ensures !Overlaps(Cut(ss, s, e)[k], s, e) {
        CutMember(ss, s, e, k);
      }
    }
  }

  /** Cutting an ordered sequence removes exactly the offsets of the range from its map. */
  lemma {:induction false} CutMap(ss: seq<Seg>, s: nat, e: nat)
    requires s <= e && (forall i :: 0 <= i < |ss| ==> Proper(ss[i]))
    ensures ToMap(Cut(ss, s, e)) == ToMap(ss) - Range(s, e)
  {
    if ss != [] {
      CutMap(ss[1..], s, e);
      ToMapConcat(Pieces(ss[0], s, e), Cut(ss[1..], s, e));
      PiecesMap(ss[0], s, e);
      MinusDistributes(SegMap(ss[0]), ToMap(ss[1..]), Range(s, e));
    }
  }

  lemma {:induction false} MinusDistributes(a: map<nat, nat>, b: map<nat, nat>, r: set<nat>)
    ensures (a + b) - r == (a - r) + (b - r)
  {
  }

  lemma {:induction false} PiecesMap(x: Seg, s: nat, e: nat)
    requires s <= e && Proper(x)
    ensures ToMap(Pieces(x, s, e)) == SegMap(x) - Range(s, e)
  {
    var p := Pieces(x, s, e);
    if |p| == 2 {
      assert p == [p[0]] + [p[1]];
      ToMapConcat([p[0]], [p[1]]);
      ToMapOne(p[0]);
      ToMapOne(p[1]);
    } else if |p| == 1 {
      assert p == [p[0]];
      ToMapOne(p[0]);
    } else {
      assert p == [];
    }
  }

  /** An extent that sticks out of the range on both sides is the only one that splits in two. */
  predicate Straddles(x: Seg, s: nat, e: nat) {
    x.start < s && e < x.end
  }

  lemma {:induction false} CutLength(ss: seq<Seg>, s: nat, e: nat)
    requires Ordered(ss) && s <= e
    ensures |Cut(ss, s, e)| <= |ss| + 1
    ensures (forall i :: 0 <= i < |ss| ==> !Straddles(ss[i], s, e)) ==> |Cut(ss, s, e)| <= |ss|
  {
    if ss != [] {
      OrderedTail(ss);
      CutLength(ss[1..], s, e);
      if Straddles(ss[0], s, e) {
        forall i | 0 <= i < |ss[1..]| ensures !Overlaps(ss[1..][i], s, e) { assert ss[1..][i] == ss[i + 1]; }
        CutNoOverlap(ss[1..], s, e);
      }
      if forall i :: 0 <= i < |ss| ==> !Straddles(ss[i], s, e) {
        forall i | 0 <= i < |ss[1..]| ensures !Straddles(ss[1..][i], s, e) { assert ss[1..][i] == ss[i + 1]; }
      }
    }
  }

  // ---------- adding a range ----------

  /** Number of leading extents that start before `x`. */
  ghost function Rank(ss: seq<Seg>, x: nat): (k: nat)
    ensures k <= |ss|
    ensures forall i :: 0 <= i < k ==> ss[i].start < x
    ensures k < |ss| ==> x <= ss[k].start
  {
    if ss == [] || x <= ss[0].start then 0 else 1 + Rank(ss[1..], x)
  }

  ghost function InsertSorted(ss: seq<Seg>, g: Seg): seq<Seg> {
    var k := Rank(ss, g.start);
    ss[..k] + [g] + ss[k..]
  }

  function Merge(x: Seg, y: Seg): Seg {
    Seg(x.start, y.end, x.ptr)
  }

  /** `a ++ b`, with the two extents at the seam merged when they are adjacent. */
  ghost function Join(a: seq<Seg>, b: seq<Seg>): seq<Seg> {
    if a != [] && b != [] && Adjacent(a[|a| - 1], b[0])
    then a[..|a| - 1] + [Merge(a[|a| - 1], b[0])] + b[1..]
    else a + b
  }

  /** The specification of seg_tree_add: clear the range, insert the extent, merge once on each side. */
  ghost function AddNodes(ss: seq<Seg>, g: Seg): seq<Seg> {
    var c := Cut(ss, g.start, g.end);
    var k := Rank(c, g.start);
    Join(Join(c[..k], [g]), c[k..])
  }

  lemma {:induction false} InsertOrdered(ss: seq<Seg>, g: Seg)
    requires Ordered(ss) && Proper(g) && NoOverlap(ss, g.start, g.end)
    ensures Ordered(InsertSorted(ss, g))
    ensures EndsBelow(ss[..Rank(ss, g.start)], g.start)
    ensures StartsAbove(ss[Rank(ss, g.start)..], g.end)
  {
    var k := Rank(ss, g.start);
    forall i | 0 <= i < k ensures ss[i].end < g.start { assert !Overlaps(ss[i], g.start, g.end); }
    forall i | k <= i < |ss| ensures g.end < ss[i].start {
      assert !Overlaps(ss[i], g.start, g.end);
      assert i == k || ss[k].start < ss[i].start;
    }
    InsertBetween(ss[..k], g, ss[k..]);
  }

  lemma {:induction false} InsertBetween(left: seq<Seg>, g: Seg, right: seq<Seg>)
    requires Ordered(left) && Ordered(right) && Proper(g)
    requires EndsBelow(left, g.start) && StartsAbove(right, g.end)
    ensures Ordered(left + [g] + right)
  {
    OrderedConcat(left, [g]);
    OrderedConcat(left + [g], right);
  }

  lemma {:induction false} MergeMap(x: Seg, y: Seg)
    requires Proper(x) && Proper(y) && Adjacent(x, y)
    ensures Proper(Merge(x, y)) && SegMap(Merge(x, y)) == SegMap(x) + SegMap(y)
  {
  }

  /** Coalescing at a seam changes neither the order, nor the map, nor canonicity of the parts. */
  lemma {:induction false} JoinMap(a: seq<Seg>, b: seq<Seg>)
    requires Ordered(a + b)
    ensures ToMap(Join(a, b)) == ToMap(a) + ToMap(b)
    ensures |a| + |b| - 1 <= |Join(a, b)| <= |a| + |b|
  {
    if a != [] && b != [] && Adjacent(a[|a| - 1], b[0]) {
      OrderedConcat(a, b);
      var a1, b1 := a[..|a| - 1], b[1..];
      var x, y := a[|a| - 1], b[0];
      assert a == a1 + [x] && b == [y] + b1;
      assert Proper(x) && Proper(y);
      SeamMap(a1, x, y, b1);
      assert Join(a, b) == a1 + [Merge(x, y)] + b1;
    } else {
      ToMapConcat(a, b);
    }
  }

  lemma {:induction false} SeamMap(a: seq<Seg>, x: Seg, y: Seg, b: seq<Seg>)
    requires Proper(x) && Proper(y) && Adjacent(x, y)
    ensures ToMap(a + [Merge(x, y)] + b) == ToMap(a + [x]) + ToMap([y] + b)
  {
    ToMapConcat(a + [Merge(x, y)], b);
    ToMapConcat(a, [Merge(x, y)]);
    ToMapConcat(a, [x]);
    ToMapConcat([y], b);
    ToMapOne(Merge(x, y));
    ToMapOne(x);
    ToMapOne(y);
    MergeMap(x, y);
    MapAssoc(ToMap(a), SegMap(x), SegMap(y));
    MapAssoc(ToMap(a) + SegMap(x), SegMap(y), ToMap(b));
  }

  lemma {:induction false} JoinOrdered(a: seq<Seg>, b: seq<Seg>)
    requires Ordered(a + b)
    ensures Ordered(Join(a, b))
  {
    var c, r := a + b, Join(a, b);
    OrderedConcat(a, b);
    if a != [] && b != [] && Adjacent(a[|a| - 1], b[0]) {
      var n := |a| - 1;
      assert forall i :: 0 <= i < n ==> r[i] == c[i];
      assert r[n] == Merge(c[n], c[n + 1]);
      assert forall i :: n < i < |r| ==> r[i] == c[i + 1];
      assert Proper(c[n]) && Proper(c[n + 1]);
    } else {
      assert r == c;
    }
  }

  ghost predicate EndsBelow(ss: seq<Seg>, hi: nat) {
    forall i :: 0 <= i < |ss| ==> ss[i].end < hi
  }

  ghost predicate StartsAbove(ss: seq<Seg>, lo: nat) {
    forall i :: 0 <= i < |ss| ==> lo < ss[i].start
  }

  lemma {:induction false} JoinBelow(a: seq<Seg>, b: seq<Seg>, hi: nat)
    requires EndsBelow(a, hi) && EndsBelow(b, hi)
    ensures EndsBelow(Join(a, b), hi)
  {
  }

  lemma {:induction false} MergeCanonical(a: seq<Seg>, x: Seg, y: Seg, b: seq<Seg>)
    requires Proper(x) && Proper(y) && Adjacent(x, y) && Canonical(a + [x]) && Canonical([y] + b)
    ensures Canonical(a + [Merge(x, y)] + b)
  {
    hide Canonical;
    CanonicalConcat(a, [x]);
    CanonicalConcat([y], b);
    CanonicalOne(Merge(x, y));
    CanonicalConcat(a, [Merge(x, y)]);
    CanonicalConcat(a + [Merge(x, y)], b);
  }

  lemma {:induction false} CanonicalOne(x: Seg)
    ensures Canonical([x])
  {
  }

  lemma {:induction false} JoinCanonical(a: seq<Seg>, b: seq<Seg>)
    requires Ordered(a + b) && Canonical(a) && Canonical(b)
    ensures Canonical(Join(a, b))
  {
    if a != [] && b != [] && Adjacent(a[|a| - 1], b[0]) {
      var x, y := a[|a| - 1], b[0];
      var a1, b1 := a[..|a| - 1], b[1..];
      OrderedConcat(a, b);
      assert Proper(x) && Proper(y);
      assert a == a1 + [x] && b == [y] + b1;
      MergeCanonical(a1, x, y, b1);
    } else {
      CanonicalConcat(a, b);
    }
  }

  /** After clearing the range the new extent fits between two parts of what is left. */
  lemma {:induction false} CutAround(ss: seq<Seg>, g: Seg) returns (left: seq<Seg>, right: seq<Seg>)
    requires Ordered(ss) && Proper(g)
    ensures Cut(ss, g.start, g.end) == left + right
    ensures Ordered(left + [g] + right) && InsertSorted(left + right, g) == left + [g] + right
    ensures Ordered(left + [g]) && Ordered(Join(left, [g]) + right)
    ensures AddNodes(ss, g) == Join(Join(left, [g]), right)
  {
    var c := Cut(ss, g.start, g.end);
    CutOrdered(ss, g.start, g.end);
    InsertOrdered(c, g);
    var k := Rank(c, g.start);
    left, right := c[..k], c[k..];
    assert c == left + right;
    OrderedConcat(left, right);
    JoinBetween(left, g, right);
  }

  lemma {:induction false} JoinBetween(left: seq<Seg>, g: Seg, right: seq<Seg>)
    requires Ordered(left) && Ordered(right) && Proper(g)
    requires EndsBelow(left, g.start) && StartsAbove(right, g.end)
    ensures Ordered(left + [g]) && Ordered(Join(left, [g]) + right)
  {
    OrderedConcat(left, [g]);
    JoinOrdered(left, [g]);
    JoinBelow(left, [g], g.end + 1);
    OrderedConcat(Join(left, [g]), right);
  }

  /** The main law of adding: the old map overridden on exactly the new range,
      and at most two more extents. */
  lemma {:induction false} AddNodesLaw(ss: seq<Seg>, g: Seg)
    requires Ordered(ss) && Proper(g)
    ensures Ordered(AddNodes(ss, g))
    ensures ToMap(AddNodes(ss, g)) == ToMap(ss) + SegMap(g)
    ensures |AddNodes(ss, g)| <= |ss| + 2
  {
    var c := Cut(ss, g.start, g.end);
    var left, right := CutAround(ss, g);
    JoinOrdered(Join(left, [g]), right);
    JoinMap(left, [g]);
    JoinMap(Join(left, [g]), right);
    ToMapOne(g);
    CutMap(ss, g.start, g.end);
    CutLength(ss, g.start, g.end);
    ToMapConcat(left, right);
    MapMiddle(ToMap(left), ToMap(right), SegMap(g), ToMap(c), ToMap(ss), g);
  }

  lemma {:induction false} MapMiddle(l: map<nat, nat>, r: map<nat, nat>, g: map<nat, nat>, c: map<nat, nat>,
                                     old_: map<nat, nat>, x: Seg)
    requires g == SegMap(x) && c == l + r && c == old_ - Range(x.start, x.end)
    ensures l + g + r == old_ + g
  {
    assert forall o :: o in r ==> o in c;
    assert forall o :: o in l ==> o in c;
    forall o | o in l + g + r ensures o in old_ + g && (l + g + r)[o] == (old_ + g)[o] {
      if o in r { assert c[o] == r[o]; }
      else if o in g { }
      else { assert c[o] == l[o]; }
    }
    forall o | o in old_ + g ensures o in l + g + r {
      if o !in g { assert o in c; }
    }
  }

  // ---------- upper bounds ----------

  lemma {:induction false} EndsBelowWeaken(ss: seq<Seg>, lo: nat, hi: nat)
    requires EndsBelow(ss, lo) && lo <= hi
    ensures EndsBelow(ss, hi)
  {
  }

  lemma {:induction false} EndsBelowConcat(a: seq<Seg>, b: seq<Seg>, hi: nat)
    ensures EndsBelow(a + b, hi) <==> EndsBelow(a, hi) && EndsBelow(b, hi)
  {
    var c := a + b;
    assert forall i :: 0 <= i < |a| ==> c[i] == a[i];
    if EndsBelow(c, hi) {
      forall i | 0 <= i < |b| ensures b[i].end < hi { assert c[|a| + i] == b[i]; }
    }
  }

  lemma {:induction false} CutBelow(ss: seq<Seg>, s: nat, e: nat, hi: nat)
    requires s <= e && Ordered(ss) && EndsBelow(ss, hi)
    ensures EndsBelow(Cut(ss, s, e), hi)
  {
    forall k | 0 <= k < |Cut(ss, s, e)| ensures Cut(ss, s, e)[k].end < hi { CutMember(ss, s, e, k); }
  }

  /** New ends are ends of the old extents or of the new one. */
  lemma {:induction false} AddNodesBelow(ss: seq<Seg>, g: Seg, hi: nat)
    requires Ordered(ss) && Proper(g) && EndsBelow(ss, hi) && g.end < hi
    ensures EndsBelow(AddNodes(ss, g), hi)
  {
    var left, right := CutAround(ss, g);
    var c := Cut(ss, g.start, g.end);
    CutBelow(ss, g.start, g.end, hi);
    EndsBelowConcat(left, right, hi);
    JoinBelow(left, [g], hi);
    JoinBelow(Join(left, [g]), right, hi);
  }

  // ---------- canonical form ----------

  lemma {:induction false} CanonicalConcat(a: seq<Seg>, b: seq<Seg>)
    ensures Canonical(a + b) <==>
              Canonical(a) && Canonical(b) && (a != [] && b != [] ==> !Adjacent(a[|a| - 1], b[0]))
  {
    var c := a + b;
    assert forall i :: 0 <= i < |a| ==> c[i] == a[i];
    assert forall i :: 0 <= i < |b| ==> c[|a| + i] == b[i];
    if Canonical(c) {
      forall i | 0 <= i < |a| - 1 ensures !Adjacent(a[i], a[i + 1]) { assert c[i] == a[i] && c[i + 1] == a[i + 1]; }
      forall i | 0 <= i < |b| - 1 ensures !Adjacent(b[i], b[i + 1]) {
        assert c[|a| + i] == b[i] && c[|a| + i + 1] == b[i + 1];
      }
      if a != [] && b != [] { assert c[|a| - 1] == a[|a| - 1] && c[|a| - 1 + 1] == b[0]; }
    }
    if Canonical(a) && Canonical(b) && (a != [] && b != [] ==> !Adjacent(a[|a| - 1], b[0])) {
      forall i | 0 <= i < |c| - 1 ensures !Adjacent(c[i], c[i + 1]) {
        if i < |a| - 1 { assert !Adjacent(a[i], a[i + 1]); }
        else if i >= |a| { assert !Adjacent(b[i - |a|], b[i - |a| + 1]); }
      }
    }
  }

  /** Cutting keeps the first and last log alignment, so it can create no new merge. */
  lemma {:induction false} CutCanonical(ss: seq<Seg>, s: nat, e: nat)
    requires Ordered(ss) && Canonical(ss) && s <= e
    ensures Canonical(Cut(ss, s, e))
  {
    if ss != [] {
      OrderedTail(ss);
      CanonicalTail(ss);
      CutCanonical(ss[1..], s, e);
      var p, c := Pieces(ss[0], s, e), Cut(ss[1..], s, e);
      PiecesCanonical(ss[0], s, e);
      if p != [] && c != [] {
        SeamApart(ss, s, e);
      }
      CanonicalConcat(p, c);
      hide Canonical, Ordered, Pieces;
    }
  }

  lemma {:induction false} PiecesCanonical(x: Seg, s: nat, e: nat)
    requires Proper(x) && s <= e
    ensures Canonical(Pieces(x, s, e))
  {
  }

  /** What is left of the first extent does not merge with what follows it. */
  lemma {:induction false} SeamApart(ss: seq<Seg>, s: nat, e: nat)
    requires Ordered(ss) && Canonical(ss) && s <= e && ss != [] && Pieces(ss[0], s, e) != [] && Cut(ss[1..], s, e) != []
    ensures !Adjacent(Pieces(ss[0], s, e)[|Pieces(ss[0], s, e)| - 1], Cut(ss[1..], s, e)[0])
  {
    var x, y := Pieces(ss[0], s, e)[|Pieces(ss[0], s, e)| - 1], Cut(ss[1..], s, e)[0];
    OrderedTail(ss);
    CutHead(ss[1..], s, e);
    var k :| 0 <= k < |ss[1..]| && PartOf(y, ss[1..][k]);
    assert ss[1..][k] == ss[k + 1] && PartOf(x, ss[0]) && Proper(ss[0]) && Proper(ss[k + 1]);
    if k > 0 {
      assert ss[0].end < ss[1].start <= ss[1].end < ss[k + 1].start;
    } else {
      assert !Adjacent(ss[0], ss[0 + 1]);
    }
    hide Pieces, Cut;
  }

  /** `x` is a part of `y`, with the same log alignment. */
  ghost predicate PartOf(x: Seg, y: Seg) {
    y.start <= x.start && x.end <= y.end && x.ptr == y.ptr + (x.start - y.start)
  }

  /** The first extent of a cut is part of an extent it was cut from. */
  lemma {:induction false} CutHead(ss: seq<Seg>, s: nat, e: nat)
    requires Ordered(ss) && s <= e && Cut(ss, s, e) != []
    ensures exists k :: 0 <= k < |ss| && PartOf(Cut(ss, s, e)[0], ss[k])
  {
    var p := Pieces(ss[0], s, e);
    if p == [] {
      OrderedTail(ss);
      CutHead(ss[1..], s, e);
      var k :| 0 <= k < |ss[1..]| && PartOf(Cut(ss[1..], s, e)[0], ss[1..][k]);
      assert ss[k + 1] == ss[1..][k];
    } else {
      assert Cut(ss, s, e)[0] == p[0] && PartOf(p[0], ss[0]);
    }
    hide Pieces, PartOf;
  }

  lemma {:induction false} AddNodesCanonical(ss: seq<Seg>, g: Seg)
    requires Ordered(ss) && Canonical(ss) && Proper(g)
    ensures Canonical(AddNodes(ss, g))
  {
    var left, right := CutAround(ss, g);
    CutCanonical(ss, g.start, g.end);
    CanonicalConcat(left, right);
    JoinCanonical(left, [g]);
    JoinCanonical(Join(left, [g]), right);
  }

  /** A map has at most one canonical ordered sequence: the extents kept by the
      tree are exactly the maximal runs of its map. */
  lemma {:induction false} CanonicalUnique(a: seq<Seg>, b: seq<Seg>)
    requires Ordered(a) && Ordered(b) && Canonical(a) && Canonical(b)
    requires ToMap(a) == ToMap(b)
    ensures a == b
  {
    if a == [] || b == [] {
      if a != [] { ToMapAt(a, 0, a[0].start); }
      if b != [] { ToMapAt(b, 0, b[0].start); }
    } else {
      FirstStart(a, b);
      FirstStart(b, a);
      ToMapAt(a, 0, a[0].start);
      ToMapAt(b, 0, b[0].start);
      FirstEnd(a, b);
      FirstEnd(b, a);
      assert a[0] == b[0];
      TailMap(a);
      TailMap(b);
      OrderedTail(a);
      OrderedTail(b);
      CanonicalTail(a);
      CanonicalTail(b);
      CanonicalUnique(a[1..], b[1..]);
      assert a == [a[0]] + a[1..] && b == [b[0]] + b[1..];
    }
  }

  lemma {:induction false} CanonicalTail(a: seq<Seg>)
    requires a != [] && Canonical(a)
    ensures Canonical(a[1..])
  {
    assert a == [a[0]] + a[1..];
    CanonicalConcat([a[0]], a[1..]);
  }

  lemma {:induction false} FirstStart(a: seq<Seg>, b: seq<Seg>)
    requires Ordered(a) && Ordered(b) && a != [] && b != [] && ToMap(a) == ToMap(b)
    ensures a[0].start <= b[0].start
  {
    ToMapAt(b, 0, b[0].start);
    ToMapDomain(a, b[0].start);
    var i :| 0 <= i < |a| && a[i].start <= b[0].start <= a[i].end;
    assert i == 0 || a[0].end < a[i].start;
  }

  lemma {:induction false} FirstEnd(a: seq<Seg>, b: seq<Seg>)
    requires Ordered(a) && Ordered(b) && Canonical(a) && a != [] && b != [] && ToMap(a) == ToMap(b)
    requires a[0].start == b[0].start && a[0].ptr == b[0].ptr
    ensures b[0].end <= a[0].end
  {
    if a[0].end < b[0].end {
      var o := a[0].end + 1;
      ToMapAt(b, 0, o);
      ToMapDomain(a, o);
      var i :| 0 <= i < |a| && a[i].start <= o <= a[i].end;
      assert i != 0;
      assert a[0].end < a[i].start;
      assert a[i].start == o;
      assert i <= 1;
      ToMapAt(a, i, o);
      assert Adjacent(a[0], a[1]);
      assert false;
    }
  }

  lemma {:induction false} TailMap(a: seq<Seg>)
    requires Ordered(a) && a != []
    ensures ToMap(a[1..]) == ToMap(a) - Range(a[0].start, a[0].end)
  {
    forall o | o in ToMap(a[1..]) ensures o !in Range(a[0].start, a[0].end) {
      ToMapDomain(a[1..], o);
      var i :| 0 <= i < |a[1..]| && a[1..][i].start <= o <= a[1..][i].end;
      assert a[1..][i] == a[i + 1];
    }
  }
}
