/** Runs of reservations and matching releases on one slot map, and the exact
    slot counts for which no run can ever hand out a slot past the end. */
module SlotHistory {
  import opened Bits
  import opened SlotRuns
  import opened SlotSpec
  import SlotMap

  datatype Op = DoReserve(n: nat) | DoRelease(i: nat)

  /** A run: the operations performed so far, the latest outermost. */
  datatype Trace = Start | Then(before: Trace, op: Op)

  /** A slot map and the reservations not yet released, as (start, length). */
  datatype World = World(st: Slots, live: seq<(nat, nat)>)

  ghost predicate Disjoint(a: (nat, nat), b: (nat, nat)) {
    a.0 + a.1 <= b.0 || b.0 + b.1 <= a.0
  }

  /** Live reservations are non-empty, pairwise disjoint runs of set bits. */
  ghost predicate Good(w: World) {
    && Valid(w.st)
    && (forall i :: 0 <= i < |w.live| ==> w.live[i].1 > 0 && Run(w.live[i].0, w.live[i].1) <= UsedSet(w.st.bytes))
    && (forall i, j :: 0 <= i < j < |w.live| ==> Disjoint(w.live[i], w.live[j]))
  }

  lemma {:induction false} RunInBounds(st: Slots, start: nat, n: nat)
    requires n > 0 && Run(start, n) <= UsedSet(st.bytes)
    ensures start + n <= 8 * |st.bytes|
  {
    assert start + n - 1 in Run(start, n);
  }

  /** One operation. Worlds that are not `Good` are never reached and are left alone. */
  ghost function Step(w: World, op: Op): World {
    if !Good(w) then w
    else
      match op
      case DoReserve(n) =>
        var slot := ReserveSlot(w.st, n);
        if slot < 0 then w else World(Reserve(w.st, n), w.live + [(slot, n)])
      case DoRelease(i) =>
        if i >= |w.live| then w
        else
          RunInBounds(w.st, w.live[i].0, w.live[i].1);
          World(Release(w.st, w.live[i].0, w.live[i].1), w.live[..i] + w.live[i + 1..])
  }

  lemma {:induction false} StepGood(w: World, op: Op)
    requires Good(w)
    ensures Good(Step(w, op)) && Step(w, op).st.total == w.st.total
  {
    match op
    case DoReserve(n) => ReserveGood(w, n);
    case DoRelease(i) => if i < |w.live| { ReleaseGood(w, i); }
  }

  lemma {:induction false} ReserveGood(w: World, n: nat)
    requires Good(w)
    ensures Good(Step(w, DoReserve(n))) && Step(w, DoReserve(n)).st.total == w.st.total
  {
    var slot := ReserveSlot(w.st, n);
    ReserveKeeps(w.st, n);
    ReserveSound(w.st, n);
    if slot >= 0 {
      ReserveStep(w, n, slot);
      GoodAppend(w, Reserve(w.st, n), slot, n);
    }
  }

  lemma {:induction false} GoodAppend(w: World, st: Slots, slot: nat, n: nat)
    requires Good(w) && Valid(st) && n > 0
    requires Run(slot, n) !! UsedSet(w.st.bytes) && UsedSet(st.bytes) == UsedSet(w.st.bytes) + Run(slot, n)
    ensures Good(World(st, w.live + [(slot, n)]))
  {
    hide Valid, UsedSet, Run;
    forall i | 0 <= i < |w.live| ensures Disjoint(w.live[i], (slot, n)) {
      SetsApart(w.live[i], (slot, n));
    }
  }

  lemma {:induction false} SetsApart(a: (nat, nat), b: (nat, nat))
    requires a.1 > 0 && b.1 > 0
    ensures Run(a.0, a.1) !! Run(b.0, b.1) <==> Disjoint(a, b)
  {
    if !Disjoint(a, b) {
      var s := if a.0 < b.0 then b.0 else a.0;
      assert s in Run(a.0, a.1) && s in Run(b.0, b.1);
    }
  }

  lemma {:induction false} ReleaseGood(w: World, i: nat)
    requires Good(w) && i < |w.live|
    ensures Good(Step(w, DoRelease(i))) && Step(w, DoRelease(i)).st.total == w.st.total
  {
    var (start, n) := w.live[i];
    RunInBounds(w.st, start, n);
    ReleaseKeeps(w.st, start, n);
    var live' := w.live[..i] + w.live[i + 1..];
    forall k | 0 <= k < |live'|
      ensures live'[k].1 > 0 && Run(live'[k].0, live'[k].1) <= UsedSet(w.st.bytes) - Run(start, n)
    {
      var k0 := if k < i then k else k + 1;
      assert live'[k] == w.live[k0];
      assert Disjoint(w.live[k0], w.live[i]);
      SetsApart(w.live[k0], w.live[i]);
    }
  }

  /** The state after a whole run. */
  ghost function After(total: nat, run: Trace): World {
    match run
    case Start => World(Init(total), [])
    case Then(before, op) => Step(After(total, before), op)
  }

  /** In every run the counter is exact and the live reservations are disjoint runs of set bits. */
  lemma {:induction false} AfterGood(total: nat, run: Trace)
    ensures Good(After(total, run)) && After(total, run).st.total == total
  {
    match run
    case Start => SlotMap.InitValid(total);
    case Then(before, op) =>
      AfterGood(total, before);
      StepGood(After(total, before), op);
  }

  lemma {:induction false} AfterThen(total: nat, before: Trace, op: Op)
    ensures After(total, Then(before, op)) == Step(After(total, before), op)
  {
  }

  ghost predicate Escapes(w: World) {
    exists i :: 0 <= i < |w.live| && w.live[i].0 + w.live[i].1 > w.st.total
  }

  ghost predicate EscapesAfter(total: nat, run: Trace) {
    Escapes(After(total, run))
  }

  // ---------- maps that are full up to a slot ----------

  ghost predicate FilledTo(bytes: seq<Byte>, k: nat) {
    forall s: nat :: s < 8 * |bytes| ==> (IsUsed(bytes, s) <==> s < k)
  }

  /** A byte whose bits from `r` on are free and whose bits below `r` are used, or too scattered to matter. */
  lemma {:induction false} TailLongest(v: Byte, r: nat)
    requires r < 8 && (forall j: nat :: r <= j < 8 ==> !Bit(v, j))
    requires forall i: nat :: i < r ==> RunLen(Free(v), i) < 8 - r
    ensures Longest(v) == (r, 8 - r)
  {
    var z := Free(v);
    forall i: nat | r <= i < 8 ensures RunLen(z, i) == |z| - i { AllFreeRun(z, i); }
    LongestUnique(v, r, 8 - r);
  }

  lemma {:induction false} FilledByte(bytes: seq<Byte>, k: nat, b: nat)
    requires FilledTo(bytes, k) && b < |bytes|
    ensures 8 * (b + 1) <= k ==> bytes[b] == 0xFF
    ensures 8 * b <= k < 8 * (b + 1) ==> bytes[b] != 0xFF && Longest(bytes[b]) == (k - 8 * b, 8 * (b + 1) - k)
  {
    forall j: nat | j < 8 ensures Bit(bytes[b], j) <==> 8 * b + j < k {
      assert (8 * b + j) / 8 == b && (8 * b + j) % 8 == j;
      assert IsUsed(bytes, 8 * b + j) <==> 8 * b + j < k;
    }
    FullByte(bytes[b]);
    if 8 * b <= k < 8 * (b + 1) {
      var r := k - 8 * b;
      assert !Bit(bytes[b], r);
      forall i: nat | i < r ensures RunLen(Free(bytes[b]), i) == 0 { assert Bit(bytes[b], i); }
      TailLongest(bytes[b], r);
    }
  }

  /** In a map filled up to `k`, reserving one slot returns slot `k`. */
  lemma {:induction false} ReserveNext(st: Slots, k: nat, n: nat)
    requires Valid(st) && FilledTo(st.bytes, k) && st.used == k < st.total && n == 1
    ensures ReserveSlot(st, n) == k && FilledTo(Reserve(st, n).bytes, k + 1)
  {
    FilledSearch(st.bytes, k, n);
    ReserveSound(st, n);
  }

  lemma {:induction false} FilledSearch(bytes: seq<Byte>, k: nat, n: nat)
    requires FilledTo(bytes, k) && k < 8 * |bytes| && n == 1
    ensures Search(bytes, 0, n) == k / 8 && StartAt(bytes, k / 8, n) == k
  {
    var b := k / 8;
    var fits := FitMap(bytes, n);
    forall i: nat | i < b ensures !fits[i] { FilledByte(bytes, k, i); }
    FilledByte(bytes, k, b);
    assert FitsAt(bytes, b, n);
    SlotMap.FirstIs(fits, 0, b);
  }

  ghost function FillOps(k: nat): Trace {
    if k == 0 then Start else Then(FillOps(k - 1), DoReserve(1))
  }

  /** The first `k` slots are reserved one by one. */
  ghost predicate Filled(w: World, k: nat) {
    w.st.used == k && FilledTo(w.st.bytes, k) && |w.live| == k && forall i: nat :: i < k ==> w.live[i] == (i, 1)
  }

  lemma {:induction false} FillStep(w: World, k: nat, n: nat)
    requires Good(w) && Filled(w, k) && k < w.st.total && n == 1
    ensures Filled(Step(w, DoReserve(n)), k + 1)
  {
    ReserveNext(w.st, k, n);
    ReserveStep(w, n, k);
    FilledAppend(Reserve(w.st, n), w.live, k);
  }

  lemma {:induction false} FilledAppend(st: Slots, live: seq<(nat, nat)>, k: nat)
    requires st.used == k + 1 && FilledTo(st.bytes, k + 1) && |live| == k
    requires forall i: nat :: i < k ==> live[i] == (i, 1)
    ensures Filled(World(st, live + [(k, 1)]), k + 1)
  {
  }

  lemma {:induction false} ReserveStep(w: World, n: nat, slot: nat)
    requires Good(w) && ReserveSlot(w.st, n) == slot
    ensures Step(w, DoReserve(n)) == World(Reserve(w.st, n), w.live + [(slot, n)])
    ensures Reserve(w.st, n).used == w.st.used + n
  {
  }

  lemma {:induction false} FilledNone(total: nat)
    ensures FilledTo(Init(total).bytes, 0)
  {
    var bytes := Init(total).bytes;
    forall s: nat | s < 8 * |bytes| ensures !IsUsed(bytes, s) { ZeroByte(bytes[s / 8]); }
  }

  lemma {:induction false} FillBase(total: nat)
    ensures Filled(World(Init(total), []), 0)
  {
    FilledNone(total);
  }

  lemma {:induction false} FillRun(total: nat, k: nat)
    requires k <= total
    ensures Filled(After(total, FillOps(k)), k)
  {
    hide Step, Good, Filled;
    if k == 0 {
      FillBase(total);
    } else {
      FillRun(total, k - 1);
      AfterGood(total, FillOps(k - 1));
      AfterThen(total, FillOps(k - 1), DoReserve(1));
      FillStep(After(total, FillOps(k - 1)), k - 1, 1);
    }
  }

  // ---------- the runs that escape ----------

  /** Everything used but slot 0 and everything from the last slot on. */
  ghost predicate Holes(bytes: seq<Byte>, k: nat) {
    forall s: nat :: s < 8 * |bytes| ==> (IsUsed(bytes, s) <==> 0 < s < k)
  }

  /** Fill the map, then release the last slot and the first one. */
  lemma {:induction false} TwoHoles(w: World, total: nat)
    requires total >= 3 && w.st.total == total && Good(w) && Filled(w, total)
    ensures Good(Step(w, DoRelease(total - 1)))
    ensures var w' := Step(Step(w, DoRelease(total - 1)), DoRelease(0));
            w'.st.used == total - 2 && Holes(w'.st.bytes, total - 1)
  {
    StepGood(w, DoRelease(total - 1));
    var w1 := Step(w, DoRelease(total - 1));
    assert w1.live == w.live[..total - 1];
    assert w1.live[0] == w.live[0];
    assert |w.st.bytes| == MapBytes(total);
    assert FilledTo(w1.st.bytes, total - 1);
  }

  /** With the total not a multiple of 8, two slots asked for next straddle the end of the map. */
  lemma {:induction false} TwoHolesEscape(st: Slots)
    requires Valid(st) && st.total >= 3 && st.total % 8 != 0 && st.used == st.total - 2
    requires Holes(st.bytes, st.total - 1)
    ensures ReserveSlot(st, 2) == st.total - 1
  {
    var k := st.total - 1;
    var b := k / 8;
    var fits := FitMap(st.bytes, 2);
    forall i: nat | i < b ensures !fits[i] { NoFitBefore(st.bytes, k, i, 2); }
    LastByteHole(st.bytes, k, b);
    assert FitsAt(st.bytes, b, 2);
    SlotMap.FirstIs(fits, 0, b);
    assert Search(st.bytes, 0, 2) == b;
  }

  lemma {:induction false} NoFitBefore(bytes: seq<Byte>, k: nat, i: nat, n: nat)
    requires Holes(bytes, k) && i < k / 8 < |bytes| && n == 2
    ensures !FitsAt(bytes, i, n)
  {
    HoleBits(bytes, k, i);
    if i == 0 { FirstByteHole(bytes[0]); } else { FullByte(bytes[i]); }
  }

  lemma {:induction false} HoleBits(bytes: seq<Byte>, k: nat, i: nat)
    requires Holes(bytes, k) && i < |bytes|
    ensures forall j: nat :: j < 8 ==> (Bit(bytes[i], j) <==> 0 < 8 * i + j < k)
  {
    forall j: nat | j < 8 ensures Bit(bytes[i], j) <==> 0 < 8 * i + j < k {
      assert (8 * i + j) / 8 == i && (8 * i + j) % 8 == j;
      assert IsUsed(bytes, 8 * i + j) <==> 0 < 8 * i + j < k;
    }
  }

  lemma {:induction false} LastByteHole(bytes: seq<Byte>, k: nat, b: nat)
    requires Holes(bytes, k) && b == k / 8 < |bytes| && k >= 2 && k % 8 != 7
    ensures bytes[b] != 0xFF && Longest(bytes[b]) == (k - 8 * b, 8 * (b + 1) - k)
  {
    HoleBits(bytes, k, b);
    var r := k - 8 * b;
    FullByte(bytes[b]);
    assert !Bit(bytes[b], r);
    var z := Free(bytes[b]);
    forall i: nat | i < r ensures RunLen(z, i) < 8 - r {
      HoleRun(z, i, b == 0, r);
    }
    TailLongest(bytes[b], r);
  }

  lemma {:induction false} HoleRun(z: seq<bool>, i: nat, first: bool, r: nat)
    requires |z| == 8 && i < r <= 6 && (first ==> r >= 2)
    requires forall j: nat :: j < r ==> (z[j] <==> first && j == 0)
    ensures RunLen(z, i) < 8 - r
  {
    if first && i == 0 { assert !z[1]; assert RunLen(z, 1) == 0; }
  }

  lemma {:induction false} FirstByteHole(v: Byte)
    requires forall j: nat :: j < 8 ==> (Bit(v, j) <==> 0 < j)
    ensures Longest(v) == (0, 1)
  {
    var z := Free(v);
    assert !z[1] && RunLen(z, 1) == 0;
    forall i: nat | i < 8 ensures RunLen(z, i) <= 1 { if i > 0 { assert !z[i]; } }
    LongestUnique(v, 0, 1);
  }

  /** Two slots with slot 0 released: its one-bit hole is shorter than the padding behind slot 1. */
  lemma {:induction false} TinySearch(st: Slots)
    requires Shaped(st) && st.total == 2 && st.used == 1 && |st.bytes| == 1
    requires forall s: nat :: s < 8 ==> (IsUsed(st.bytes, s) <==> s == 1)
    ensures ReserveSlot(st, 1) == 2
  {
    var v := st.bytes[0];
    forall j: nat | j < 8 ensures Bit(v, j) <==> j == 1 {
      assert j / 8 == 0 && j % 8 == j;
      assert IsUsed(st.bytes, j) <==> j == 1;
    }
    var z := Free(v);
    assert !z[1] && RunLen(z, 1) == 0;
    TailLongest(v, 2);
    FullByte(v);
    assert !Bit(v, 0);
    var fits := FitMap(st.bytes, 1);
    assert FitsAt(st.bytes, 0, 1);
    SlotMap.FirstIs(fits, 0, 0);
  }

  ghost predicate OnlyFirst(w: World) {
    forall i :: 0 <= i < |w.live| ==> w.live[i] == (0, 1)
  }

  /** One slot: the only reservation a run can ever hold is slot 0. */
  lemma {:induction false} SingleStep(w: World, op: Op)
    requires Good(w) && w.st.total == 1 && OnlyFirst(w)
    ensures OnlyFirst(Step(w, op))
  {
    if op.DoReserve? && ReserveSlot(w.st, op.n) >= 0 {
      ReserveSound(w.st, op.n);
      assert w.st.used == 0 && UsedSet(w.st.bytes) == {};
      forall s: nat | s < 8 * |w.st.bytes| ensures !IsUsed(w.st.bytes, s) { assert s !in UsedSet(w.st.bytes); }
      ReserveNext(w.st, 0, op.n);
    }
  }

  /** The totals with which no reservation ever reaches past the total. */
  predicate SafeTotal(total: nat) {
    total % 8 == 0 || total <= 1
  }

  /** With such a total a reservation lies below it, from any valid map. */
  lemma {:induction false} ReserveInside(st: Slots, n: nat)
    requires Valid(st) && SafeTotal(st.total)
    ensures ReserveSlot(st, n) + n <= st.total || ReserveSlot(st, n) < 0
  {
    ReserveSound(st, n);
    if ReserveSlot(st, n) >= 0 && st.total == 1 {
      assert UsedSet(st.bytes) == {};
      forall s: nat | s < 8 * |st.bytes| ensures !IsUsed(st.bytes, s) { assert s !in UsedSet(st.bytes); }
      ReserveNext(st, 0, n);
    }
  }

  lemma {:induction false} SingleSlot(total: nat, run: Trace)
    requires total == 1
    ensures OnlyFirst(After(total, run))
  {
    if run.Then? {
      SingleSlot(total, run.before);
      AfterGood(total, run.before);
      SingleStep(After(total, run.before), run.op);
    }
  }

  /** Every reservation succeeds, and only reservations below the total are released. */
  ghost predicate Tame(total: nat, run: Trace) {
    match run
    case Start => true
    case Then(before, op) => Tame(total, before) && TameOp(After(total, before), op)
  }

  ghost predicate TameOp(w: World, op: Op) {
    match op
    case DoReserve(n) => Good(w) && ReserveSlot(w.st, n) >= 0
    case DoRelease(i) => i < |w.live| && w.live[i].0 + w.live[i].1 <= w.st.total
  }

  // ---------- a full slot map with a reservation past the total ----------

  lemma {:induction false} FillTame(total: nat, k: nat)
    requires k <= total
    ensures Tame(total, FillOps(k))
  {
    hide After, Good, Filled, TameOp;
    if k > 0 {
      FillTame(total, k - 1);
      FillRun(total, k - 1);
      AfterGood(total, FillOps(k - 1));
      FillTameOp(After(total, FillOps(k - 1)), k - 1, 1);
    }
  }

  lemma {:induction false} TameThen(total: nat, before: Trace, op: Op)
    requires Tame(total, before) && TameOp(After(total, before), op)
    ensures Tame(total, Then(before, op))
    ensures After(total, Then(before, op)) == Step(After(total, before), op)
  {
  }

  lemma {:induction false} FillTameOp(w: World, k: nat, n: nat)
    requires Good(w) && Filled(w, k) && k < w.st.total && n == 1
    ensures TameOp(w, DoReserve(n))
  {
    ReserveNext(w.st, k, n);
  }

  /** All slots are in use by the counter, and the latest reservation covers the slot behind the last one. */
  ghost predicate FullPast(w: World) {
    && w.live != [] && w.st.used == w.st.total
    && var r := w.live[|w.live| - 1]; r.0 <= w.st.total < r.0 + r.1
  }

  lemma {:induction false} TinyPast(w: World, total: nat, one: nat)
    requires total == 2 && one == 1 && w.st.total == total && Good(w) && Filled(w, total)
    ensures TameOp(w, DoRelease(0))
    ensures var w1 := Step(w, DoRelease(0));
            TameOp(w1, DoReserve(one)) && FullPast(Step(w1, DoReserve(one)))
  {
    assert w.live[0] == (0, 1);
    StepGood(w, DoRelease(0));
    var w1 := Step(w, DoRelease(0));
    assert |w1.st.bytes| == 1;
    TinySearch(w1.st);
    ReserveStep(w1, one, 2);
  }

  lemma {:induction false} LongHoles(w: World, total: nat) returns (w1: World, w2: World)
    requires total >= 3 && w.st.total == total && Good(w) && Filled(w, total)
    ensures TameOp(w, DoRelease(total - 1)) && w1 == Step(w, DoRelease(total - 1))
    ensures TameOp(w1, DoRelease(0)) && w2 == Step(w1, DoRelease(0))
    ensures Good(w2) && w2.st.total == total && w2.st.used == total - 2 && Holes(w2.st.bytes, total - 1)
  {
    assert w.live[total - 1] == (total - 1, 1) && w.live[0] == (0, 1);
    w1 := Step(w, DoRelease(total - 1));
    assert w1.live[0] == (0, 1);
    hide Step, Filled, Good, Holes;
    TwoHoles(w, total);
    StepGood(w, DoRelease(total - 1));
    StepGood(w1, DoRelease(0));
    w2 := Step(w1, DoRelease(0));
  }

  lemma {:induction false} LongPast(w: World, total: nat, two: nat)
    requires Good(w) && w.st.total == total && w.st.used == total - 2 && Holes(w.st.bytes, total - 1)
    requires total >= 3 && total % 8 != 0 && two == 2
    ensures TameOp(w, DoReserve(two)) && FullPast(Step(w, DoReserve(two)))
  {
    assert Valid(w.st);
    TwoHolesEscape(w.st);
    ReserveStep(w, two, total - 1);
    hide Step, Good, Holes, Valid, ReserveSlot;
  }

  /** For every total that is not safe some tame run ends so. */
  lemma {:induction false} PastRun(total: nat) returns (run: Trace)
    requires !SafeTotal(total)
    ensures Tame(total, run) && FullPast(After(total, run))
  {
    hide *;
    var fill := FillOps(total);
    FillTame(total, total);
    FillRun(total, total);
    AfterGood(total, fill);
    if total == 2 {
      var one := 1;
      TinyPast(After(total, fill), total, one);
      TameThen(total, fill, DoRelease(0));
      run := Then(fill, DoRelease(0));
      TameThen(total, run, DoReserve(one));
      run := Then(run, DoReserve(one));
    } else {
      var two := 2;
      Unsafe(total);
      var w1, w2 := LongHoles(After(total, fill), total);
      LongPast(w2, total, two);
      TameThen(total, fill, DoRelease(total - 1));
      run := Then(fill, DoRelease(total - 1));
      TameThen(total, run, DoRelease(0));
      run := Then(run, DoRelease(0));
      TameThen(total, run, DoReserve(two));
      run := Then(run, DoReserve(two));
    }
  }

  lemma {:induction false} Unsafe(total: nat)
    requires !SafeTotal(total) && total != 2
    ensures total >= 3 && total % 8 != 0
  {
  }

  /** Some run hands out a slot at or past the total exactly when the total is neither
      a multiple of 8 nor at most 1. */
  lemma {:induction false} EscapeIff(total: nat)
    ensures (exists run :: EscapesAfter(total, run)) <==> !SafeTotal(total)
  {
    if !SafeTotal(total) {
      var run := PastRun(total);
      AfterGood(total, run);
      assert EscapesAfter(total, run);
    } else {
      forall run ensures !EscapesAfter(total, run) {
        StaysInside(total, run);
      }
    }
  }

  lemma {:induction false} StaysInside(total: nat, run: Trace)
    requires SafeTotal(total)
    ensures !EscapesAfter(total, run)
  {
    var w := After(total, run);
    AfterGood(total, run);
    if total == 1 {
      SingleSlot(total, run);
    } else {
      forall i | 0 <= i < |w.live| ensures w.live[i].0 + w.live[i].1 <= total {
        RunInBounds(w.st, w.live[i].0, w.live[i].1);
      }
    }
  }
}
