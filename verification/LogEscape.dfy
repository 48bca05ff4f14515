/** The slot total of the shmem log decides whether log ranges can overlap: a total with which a
    reservation can reach past the end lets some run put a shmem range over a spill range. */
module LogEscape {
  import opened Wrappers
  import opened SlotSpec
  import opened LogSpec
  import opened LogHistory
  import SlotHistory
  import LogOverlap

  // ---------- runs of the shmem slot map as runs of the log ----------

  /** Ask for whole chunks. */
  ghost function LiftOp(c: nat, op: SlotHistory.Op): Op {
    match op
    case DoReserve(n) => DoAlloc(ChunkBytes(n, c))
    case DoRelease(i) => DoFree(i)
  }

  ghost function Lift(c: nat, run: SlotHistory.Trace): Trace {
    match run
    case Start => Start
    case Then(before, op) => Then(Lift(c, before), LiftOp(c, op))
  }

  ghost function Range(c: nat, r: (nat, nat)): Live {
    Live(ChunkBytes(r.0, c), ChunkBytes(r.1, c), r, (0, 0))
  }

  /** The shmem log is the slot map, with a live range per reservation; the spill log is untouched. */
  ghost predicate Mirrors(w: World, sw: SlotHistory.World, ts: Tiers) {
    && ValidTiers(w.ts) && ts.shmem.Some? && SameGeometry(w.ts.shmem, ts.shmem) && w.ts.spill == ts.spill
    && w.ts.shmem.value.slots == sw.st && |w.live| == |sw.live|
    && forall i :: 0 <= i < |w.live| ==> w.live[i] == Range(ts.shmem.value.chunkSz, sw.live[i])
  }

  lemma {:induction false} MirrorAlloc(w: World, sw: SlotHistory.World, ts: Tiers, n: nat, slot: nat)
    requires Mirrors(w, sw, ts) && SlotHistory.Good(sw) && ReserveSlot(sw.st, n) == slot
    ensures var op := DoAlloc(ChunkBytes(n, ts.shmem.value.chunkSz));
            Mirrors(Step(w, op), SlotHistory.Step(sw, SlotHistory.DoReserve(n)), ts) && Allowed(w, op)
  {
    var m := w.ts.shmem.value;
    ReserveSound(sw.st, n);
    LogOverlap.MemStep(w, ChunkBytes(n, m.chunkSz), slot, n);
    TakeValid(m, n, ChunkBytes(n, m.chunkSz));
    SlotHistory.ReserveStep(sw, n, slot);
    hide Step, SlotHistory.Step, SlotHistory.Good, ReserveSlot, Reserve, ValidLog, ChunkBytes;
  }

  lemma {:induction false} MirrorFree(w: World, sw: SlotHistory.World, ts: Tiers, i: nat)
    requires Mirrors(w, sw, ts) && SlotHistory.Good(sw) && i < |sw.live| && sw.live[i].0 + sw.live[i].1 <= sw.st.total
    ensures Mirrors(Step(w, DoFree(i)), SlotHistory.Step(sw, SlotHistory.DoRelease(i)), ts) && Allowed(w, DoFree(i))
  {
    var m, r := w.ts.shmem.value, w.live[i];
    var (slot, n) := sw.live[i];
    assert Run(slot, n) <= UsedSet(m.slots.bytes);
    DivExact(n, m.chunkSz);
    ChunkBytesMono(1, n, m.chunkSz);
    assert MemShape(w.ts, r) && !SpanShape(w.ts, r);
    FreeExact(w.ts, r);
    GaveBackHeld(m, slot, n);
    assert slot in Run(slot, n);
    assert GiveBack(m, slot, n) == m.(slots := Release(m.slots, slot, n));
    hide ReserveSlot, Reserve, ChunkBytes, FreeChunks, Release, BytesToChunks;
  }

  lemma {:induction false} Lifted(ts: Tiers, total: nat, run: SlotHistory.Trace)
    requires ValidTiers(ts) && ts.shmem.Some? && ts.shmem.value.slots == SlotSpec.Init(total)
             && SlotHistory.Tame(total, run)
    ensures Mirrors(After(ts, Lift(ts.shmem.value.chunkSz, run)), SlotHistory.After(total, run), ts)
    ensures RunAllowed(ts, Lift(ts.shmem.value.chunkSz, run))
  {
    match run
    case Start =>
    case Then(before, op) =>
      Lifted(ts, total, before);
      SlotHistory.AfterGood(total, before);
      var w, sw := After(ts, Lift(ts.shmem.value.chunkSz, before)), SlotHistory.After(total, before);
      match op {
        case DoReserve(n) => MirrorAlloc(w, sw, ts, n, ReserveSlot(sw.st, n));
        case DoRelease(i) => MirrorFree(w, sw, ts, i);
      }
      hide Mirrors, Step, SlotHistory.Step, Allowed;
  }

  // ---------- the overlap ----------

  /** With shmem full, one byte goes to the first spill chunk. */
  lemma {:induction false} FullMap(st: Slots, n: nat)
    requires |st.bytes| == MapBytes(st.total) && st.used == st.total
    ensures ReserveSlot(st, n) == -1
  {
  }

  lemma {:induction false} SpillPlan(m: Log, l: Log, one: nat)
    requires ValidLog(m) && ValidLog(l) && one == 1 && m.slots.used == m.slots.total
    requires l.slots == Init(l.slots.total) && l.slots.total >= 1
    ensures PlanOf(Tiers(Some(m), Some(l)), one) == InFile(0, one)
  {
    hide ReserveSlot, BytesToChunks, Init;
    LogOverlap.OneChunk(one, m.chunkSz);
    LogOverlap.OneChunk(one, l.chunkSz);
    FullMap(m.slots, one);
    FullMap(m.slots, LogEndChunks(m));
    LogOverlap.FreshReservation(l.slots, one);
  }

  lemma {:induction false} SpillByte(w: World, one: nat)
    requires ValidTiers(w.ts) && w.ts.shmem.Some? && w.ts.spill.Some? && one == 1
    requires w.ts.shmem.value.slots.used == w.ts.shmem.value.slots.total
    requires w.ts.spill.value.slots == Init(w.ts.spill.value.slots.total) && w.ts.spill.value.slots.total >= 1
    ensures Step(w, DoAlloc(one)).live == w.live + [Live(MemSize(w.ts), one, (0, 0), (0, one))]
    ensures Allowed(w, DoAlloc(one))
  {
    hide ReserveSlot, Reserve, Take, BytesToChunks, Alloc, PlanOf, Init, ValidLog;
    assert w.ts == Tiers(Some(w.ts.shmem.value), Some(w.ts.spill.value));
    SpillPlan(w.ts.shmem.value, w.ts.spill.value, one);
    AllocServed(w.ts, one);
  }

  /** The slot behind the last one begins inside the data area and ends behind it. */
  lemma {:induction false} PastData(m: Log, r: (nat, nat), one: nat)
    requires ValidLog(m) && r.0 <= m.slots.total < r.0 + r.1 && one == 1
    ensures !RangesApart(Range(m.chunkSz, r), Live(m.dataSz, one, (0, 0), (0, one)))
  {
    ChunksInData(m, m.slots.total);
    TailShort(m);
    ChunkBytesMono(r.0, m.slots.total, m.chunkSz);
    ChunkBytesMono(m.slots.total + 1, r.0 + r.1, m.chunkSz);
    ChunkBytesAdd(m.slots.total, 1, m.chunkSz);
    ChunkBytesAdd(r.0, r.1, m.chunkSz);
    assert ChunkBytes(1, m.chunkSz) == m.chunkSz;
    hide ChunkBytes, ValidLog;
  }

  /** If the shmem total is not safe, some run that keeps all other assumptions makes a shmem range
      and a spill range overlap. */
  lemma {:induction false} UnsafeOverlaps(ts: Tiers) returns (run: Trace)
    requires LogOverlap.FreshTiers(ts) && ts.spill.value.slots.total >= 1
             && !SlotHistory.SafeTotal(ts.shmem.value.slots.total)
    ensures RunAllowed(ts, run) && !LogOverlap.AllDisjoint(After(ts, run))
  {
    var m, total, one := ts.shmem.value, ts.shmem.value.slots.total, 1;
    var slots := SlotHistory.PastRun(total);
    Lifted(ts, total, slots);
    SlotHistory.AfterGood(total, slots);
    var before := Lift(m.chunkSz, slots);
    var w, sw := After(ts, before), SlotHistory.After(total, slots);
    run := Then(before, DoAlloc(one));
    var k := |w.live| - 1;
    assert w.live[k] == Range(m.chunkSz, sw.live[k]);
    SpillByte(w, one);
    PastData(m, sw.live[k], one);
    assert MemSize(w.ts) == m.dataSz;
    hide Step, Allowed, SlotHistory.After, Lift, ValidLog, ValidTiers, Init, SlotHistory.Tame, SlotHistory.Good;
    var w' := After(ts, run);
    assert w'.live[k] == w.live[k] && w'.live[k + 1] == Live(m.dataSz, one, (0, 0), (0, one));
  }

  /** Under the other assumptions live ranges stay disjoint in every run exactly if the shmem total is safe. */
  lemma {:induction false} DisjointIff(ts: Tiers)
    requires LogOverlap.FreshTiers(ts) && ts.spill.value.slots.total >= 1
    ensures (forall run :: RunAllowed(ts, run) ==> LogOverlap.AllDisjoint(After(ts, run)))
            <==> SlotHistory.SafeTotal(ts.shmem.value.slots.total)
  {
    if SlotHistory.SafeTotal(ts.shmem.value.slots.total) {
      forall run | RunAllowed(ts, run) ensures LogOverlap.AllDisjoint(After(ts, run)) {
        forall i, j | 0 <= i < j < |After(ts, run).live|
          ensures RangesApart(After(ts, run).live[i], After(ts, run).live[j])
        {
          RunDisjoint(ts, run, i, j);
        }
      }
    } else {
      var run := UnsafeOverlaps(ts);
    }
  }
}
