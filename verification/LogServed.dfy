/** When an allocation succeeds, and what a request that is larger than the rest of a filled shmem log gets. */
module LogServed {
  import opened Wrappers
  import opened Bits
  import opened SlotRuns
  import opened SlotSpec
  import opened SlotFit
  import opened LogSpec
  import opened LogHistory
  import LogOverlap
  import SlotHistory

  // ---------- when an allocation succeeds ----------

  /** The chunk map of the tier has room for `n` chunks, judged by its bits. */
  ghost predicate HasRoom(st: Slots, n: nat) {
    0 < n <= st.total - st.used && exists b: nat :: RoomAt(st, b, n)
  }

  ghost predicate TierHolds(l: Option<Log>, nbytes: nat)
    requires l.Some? ==> ValidLog(l.value)
  {
    l.Some? && HasRoom(l.value.slots, BytesToChunks(nbytes, l.value.chunkSz))
  }

  /** The shmem chunks behind the latest reservation are available, and the spill log has its first chunks
      for the rest. */
  ghost predicate BothHold(ts: Tiers, nbytes: nat)
    requires ValidTiers(ts)
  {
    && ts.shmem.Some? && ts.spill.Some? && HasRoom(ts.shmem.value.slots, LogEndChunks(ts.shmem.value))
    && ChunkBytes(LogEndChunks(ts.shmem.value), ts.shmem.value.chunkSz) < nbytes
    && ChunkSlot(ts.spill.value, nbytes - ChunkBytes(LogEndChunks(ts.shmem.value), ts.shmem.value.chunkSz)) == 0
  }

  lemma {:induction false} RoomIff(l: Log, n: nat)
    requires ValidLog(l)
    ensures ReserveSlot(l.slots, n) >= 0 <==> HasRoom(l.slots, n)
  {
    ReserveIff(l.slots, n);
    hide ReserveSlot, RoomAt;
  }

  /** If the whole request fits the spill log, so does what is left of it. */
  lemma {:induction false} RestFits(l: Log, nbytes: nat, rest: nat)
    requires ValidLog(l) && 0 < rest <= nbytes && ChunkSlot(l, nbytes) >= 0
    ensures ChunkSlot(l, rest) >= 0
  {
    ChunksCover(rest, l.chunkSz);
    ChunksMono(rest, nbytes, l.chunkSz);
    ReserveSound(l.slots, BytesToChunks(rest, l.chunkSz));
    if ChunkSlot(l, rest) < 0 {
      ReserveMonotone(l.slots, BytesToChunks(rest, l.chunkSz), BytesToChunks(nbytes, l.chunkSz));
    }
    hide ReserveSlot, BytesToChunks;
  }

  lemma {:induction false} ChunksMono(a: nat, b: nat, c: nat)
    requires c > 0 && a <= b
    ensures BytesToChunks(a, c) <= BytesToChunks(b, c)
  {
    ChunksCover(a, c);
    ChunksCover(b, c);
    var n, k := BytesToChunks(a, c), BytesToChunks(b, c);
    if k < n { ChunkBytesMono(k + 1, n, c); ChunkBytesAdd(k, 1, c); }
    hide BytesToChunks;
  }

  /** An allocation succeeds exactly if one of the tiers can hold all of it, or both together. */
  lemma {:induction false} AllocIff(ts: Tiers, nbytes: nat)
    requires ValidTiers(ts) && nbytes > 0
    ensures Alloc(ts, nbytes).0.Allocated?
            <==> TierHolds(ts.shmem, nbytes) || TierHolds(ts.spill, nbytes) || BothHold(ts, nbytes)
    ensures TierHolds(ts.shmem, nbytes) ==> Alloc(ts, nbytes).1.spill == ts.spill
  {
    AllocServed(ts, nbytes);
    hide Alloc, ReserveSlot, Reserve, HasRoom, BytesToChunks, ChunkBytes, Took;
    if ts.shmem.Some? {
      var m := ts.shmem.value;
      RoomIff(m, BytesToChunks(nbytes, m.chunkSz));
      RoomIff(m, LogEndChunks(m));
      if ChunkSlot(m, nbytes) < 0 && LogEndSlot(m) >= 0 {
        LogEndSmaller(m, nbytes);
        if ts.spill.Some? && ChunkSlot(ts.spill.value, nbytes) >= 0 {
          RestFits(ts.spill.value, nbytes, nbytes - ChunkBytes(LogEndChunks(m), m.chunkSz));
        }
      }
    }
    if ts.spill.Some? { RoomIff(ts.spill.value, BytesToChunks(nbytes, ts.spill.value.chunkSz)); }
  }

  // ---------- the end of a filled map ----------

  lemma {:induction false} FilledRuns(bytes: seq<Byte>, k: nat, b: nat)
    requires SlotHistory.FilledTo(bytes, k) && b < |bytes|
    ensures 8 * b <= k < 8 * b + 8 ==> FirstLongest(bytes, b, k - 8 * b, 8 * b + 8 - k)
    ensures k <= 8 * b ==> FirstLongest(bytes, b, 0, 8)
  {
    if 8 * b <= k < 8 * b + 8 {
      forall i: nat, n: nat | FreeInByte(bytes, b, i, n)
        ensures n < 8 * b + 8 - k || (n == 8 * b + 8 - k && k - 8 * b <= i)
      {
        if n > 0 { assert !IsUsed(bytes, 8 * b + i); }
      }
    }
    hide IsUsed;
  }

  lemma {:induction false} NoRoomBelow(st: Slots, k: nat, b: nat, n: nat)
    requires SlotHistory.FilledTo(st.bytes, k) && 8 * b + 8 <= k && n > 0
    ensures !RoomAt(st, b, n)
  {
    if b < |st.bytes| {
      assert IsUsed(st.bytes, 8 * b);
      forall s: nat, l: nat ensures !FirstLongest(st.bytes, b, s, l) {
        if s < 8 { assert IsUsed(st.bytes, 8 * b + s); }
      }
    }
    hide IsUsed;
  }

  lemma {:induction false} RoomAtEnd(st: Slots, k: nat, n: nat)
    requires Shaped(st) && SlotHistory.FilledTo(st.bytes, k) && 0 < n <= st.total - k && n <= 8
    ensures RoomAt(st, k / 8, n) && FirstLongest(st.bytes, k / 8, k % 8, 8 - k % 8)
  {
    hide FirstLongest, SlotHistory.FilledTo;
    var b, l := k / 8, 8 - k % 8;
    FilledRuns(st.bytes, k, b);
    if l < n {
      FilledRuns(st.bytes, k, b + 1);
      assert Head(st.bytes, b + 1, n - l);
    }
    hide Head;
    assert Enough(st.bytes, b, k % 8, l, n);
  }

  /** Filled up to `k`, up to eight slots that still fit the total begin at slot `k`. */
  lemma {:induction false} FewAtEnd(st: Slots, k: nat, n: nat)
    requires Shaped(st) && SlotHistory.FilledTo(st.bytes, k) && st.used == k && 0 < n <= st.total - k && n <= 8
    ensures ReserveSlot(st, n) == k
  {
    hide FirstLongest, ReserveSlot, RoomAt, Longest, SlotHistory.FilledTo;
    RoomAtEnd(st, k, n);
    forall i: nat | i < k / 8 ensures !RoomAt(st, i, n) { NoRoomBelow(st, k, i, n); }
    ReserveIff(st, n);
    var slot := ReserveSlot(st, n);
    assert slot / 8 == k / 8;
    var l: nat :| FirstLongest(st.bytes, slot / 8, slot % 8, l);
    LongestOne(st.bytes, k / 8, slot % 8, l);
    LongestOne(st.bytes, k / 8, k % 8, 8 - k % 8);
  }

  lemma {:induction false} ManyAtEnd(st: Slots, k: nat, n: nat)
    requires Shaped(st) && SlotHistory.FilledTo(st.bytes, k) && st.used == k && 8 < n <= st.total - k
    ensures ReserveSlot(st, n) == k <==> k % 8 == 0
  {
    var b := k / 8;
    if k % 8 == 0 { assert RunFree(st.bytes, 8 * b, 8 * MapBytes(n)); }
    hide ReserveSlot, SlotHistory.FilledTo, RunFree;
    if k % 8 == 0 { assert RoomAt(st, b, n); }
    forall i: nat | i < b ensures !RoomAt(st, i, n) { NoRoomBelow(st, k, i, n); }
    ReserveIff(st, n);
  }

  // ---------- runs that fill shmem from its first chunk on ----------

  /** The live ranges are in shmem, one behind the other from the first chunk up to chunk `k`. */
  ghost predicate Packed(live: seq<Live>, k: nat) {
    if live == [] then k == 0
    else
      var r := live[|live| - 1];
      r.file == (0, 0) && 0 < r.mem.1 <= k && r.mem.0 == k - r.mem.1 && Packed(live[..|live| - 1], k - r.mem.1)
  }

  ghost predicate FilledLog(m: Log, m': Log, k: nat) {
    && ValidLog(m') && m'.dataSz == m.dataSz && m'.chunkSz == m.chunkSz && m'.slots.total == m.slots.total
    && m'.slots.used == k && SlotHistory.FilledTo(m'.slots.bytes, k) && m'.maxSlot == if k == 0 then 0 else k - 1
  }

  ghost predicate FilledTiers(ts: Tiers, ts': Tiers, k: nat)
    requires LogOverlap.FreshTiers(ts)
  {
    ts'.shmem.Some? && FilledLog(ts.shmem.value, ts'.shmem.value, k) && ts'.spill == ts.spill
  }

  lemma {:induction false} TookNext(m: Log, m1: Log, m2: Log, k: nat, n: nat)
    requires FilledLog(m, m1, k) && Took(Some(m1), Some(m2), k, n) && n > 0
    ensures FilledLog(m, m2, k + n)
  {
    ReserveSound(m1.slots, n);
    hide ReserveSlot, ValidLog;
  }

  lemma {:induction false} PackedLast(live: seq<Live>, r: Live, k: nat)
    ensures Packed(live + [r], k)
            <==> r.file == (0, 0) && 0 < r.mem.1 <= k && r.mem.0 == k - r.mem.1 && Packed(live, k - r.mem.1)
  {
    assert (live + [r])[..|live|] == live;
  }

  /** What an allocation does to the live ranges and the tiers. */
  lemma {:induction false} StepAlloc(w: World, nbytes: nat)
    requires ValidTiers(w.ts)
    ensures var a, w' := Alloc(w.ts, nbytes), Step(w, DoAlloc(nbytes));
            && (a.0.Allocated? ==> w'.live == w.live + [RecordOf(PlanOf(w.ts, nbytes), a.0.offset, nbytes)])
            && (!a.0.Allocated? ==> w'.live == w.live && w'.ts == w.ts) && w'.ts == a.1
  {
    if nbytes > 0 { AllocServed(w.ts, nbytes); }
    assert nbytes == 0 ==> Alloc(w.ts, nbytes) == (Empty, w.ts);
    hide Alloc, PlanOf, RecordOf, ValidTiers, Served;
  }

  lemma {:induction false} PackedStep(ts: Tiers, w: World, k: nat, nbytes: nat, k': nat)
    requires LogOverlap.FreshTiers(ts) && FilledTiers(ts, w.ts, k) && Packed(w.live, k)
    requires Packed(Step(w, DoAlloc(nbytes)).live, k')
    ensures FilledTiers(ts, Step(w, DoAlloc(nbytes)).ts, k')
  {
    assert ValidTiers(w.ts);
    hide Step, Packed, Alloc, ReserveSlot, Reserve, Took, FilledLog, BytesToChunks, ChunkBytes, ValidLog, PlanOf;
    StepAlloc(w, nbytes);
    var p, a := PlanOf(w.ts, nbytes), Alloc(w.ts, nbytes);
    if a.0.Allocated? {
      AllocServedAt(w.ts, nbytes);
      var r := RecordOf(p, a.0.offset, nbytes);
      PackedLast(w.live, r, k');
      PackedOnce(w.live, k, k' - r.mem.1);
      TookNext(ts.shmem.value, w.ts.shmem.value, a.1.shmem.value, k, p.n);
    } else {
      PackedOnce(w.live, k, k');
    }
  }

  lemma {:induction false} AllocServedAt(ts: Tiers, nbytes: nat)
    requires ValidTiers(ts) && Alloc(ts, nbytes).0.Allocated?
    ensures var p, a := PlanOf(ts, nbytes), Alloc(ts, nbytes);
            nbytes > 0 && !p.Nothing? && Served(ts, a.1, a.0.offset, nbytes, p)
  {
    assert nbytes > 0;
    hide Alloc, PlanOf, ValidTiers, Served;
    AllocServed(ts, nbytes);
  }

  lemma {:induction false} PackedOnce(live: seq<Live>, k: nat, k': int)
    requires Packed(live, k) && k' >= 0 && Packed(live, k')
    ensures k == k'
  {
    if live != [] { PackedOnce(live[..|live| - 1], k - live[|live| - 1].mem.1, k' - live[|live| - 1].mem.1); }
  }

  lemma {:induction false} AllocOnlyValid(ts: Tiers, run: Trace)
    requires ValidTiers(ts) && LogOverlap.AllocOnly(run)
    ensures ValidTiers(After(ts, run).ts)
  {
    match run
    case Start =>
    case Then(before, op) =>
      AllocOnlyValid(ts, before);
      StepValid(After(ts, before), op.nbytes);
      hide Step, ValidTiers;
  }

  lemma {:induction false} StepValid(w: World, nbytes: nat)
    requires ValidTiers(w.ts)
    ensures ValidTiers(Step(w, DoAlloc(nbytes)).ts)
  {
    hide Step, Alloc, PlanOf, ValidLog, ReserveSlot, Reserve;
    StepAlloc(w, nbytes);
    if Alloc(w.ts, nbytes).0.Allocated? { AllocServedAt(w.ts, nbytes); }
  }

  lemma {:induction false} PackedFilled(ts: Tiers, run: Trace, k: nat)
    requires LogOverlap.FreshTiers(ts) && LogOverlap.AllocOnly(run) && Packed(After(ts, run).live, k)
    ensures FilledTiers(ts, After(ts, run).ts, k)
  {
    match run
    case Start =>
      SlotHistory.FilledNone(ts.shmem.value.slots.total);
    case Then(before, op) =>
      var w := After(ts, before);
      AllocOnlyValid(ts, before);
      var k0 := PackedBefore(w, op.nbytes, k);
      PackedFilled(ts, before, k0);
      PackedStep(ts, w, k0, op.nbytes, k);
      hide Step, Packed, FilledTiers;
  }

  /** What was there before the last allocation was packed too. */
  lemma {:induction false} PackedBefore(w: World, nbytes: nat, k: nat) returns (k0: nat)
    requires ValidTiers(w.ts) && Packed(Step(w, DoAlloc(nbytes)).live, k)
    ensures Packed(w.live, k0)
  {
    hide Step, Packed, Alloc, PlanOf, RecordOf, ValidTiers;
    StepAlloc(w, nbytes);
    var a := Alloc(w.ts, nbytes).0;
    k0 := k;
    if a.Allocated? {
      var r := RecordOf(PlanOf(w.ts, nbytes), a.offset, nbytes);
      PackedLast(w.live, r, k);
      k0 := k - r.mem.1;
    }
  }

  /** A request for more than the rest of such a shmem log, of which the spill log can hold what is left over. */
  ghost predicate Exceeds(ts: Tiers, k: nat, nbytes: nat)
    requires LogOverlap.FreshTiers(ts)
  {
    var m, l := ts.shmem.value, ts.spill.value;
    && 0 < k < m.slots.total && m.slots.total - k < BytesToChunks(nbytes, m.chunkSz)
    && ChunkBytes(m.slots.total - k, m.chunkSz) < nbytes
    && BytesToChunks(nbytes - ChunkBytes(m.slots.total - k, m.chunkSz), l.chunkSz) <= l.slots.total
  }

  /** All chunks from `k` on, and the first spill chunks. */
  ghost function SpanOf(ts: Tiers, k: nat, nbytes: nat): Live
    requires LogOverlap.FreshTiers(ts) && Exceeds(ts, k, nbytes)
  {
    var m, l := ts.shmem.value, ts.spill.value;
    Live(ChunkBytes(k, m.chunkSz), nbytes, (k, m.slots.total - k),
         (0, BytesToChunks(nbytes - ChunkBytes(m.slots.total - k, m.chunkSz), l.chunkSz)))
  }

  /** What is left behind chunk `k` is at most eight chunks, or begins at a multiple of eight. */
  ghost predicate AtEnd(total: nat, k: nat) {
    total - k <= 8 || k % 8 == 0
  }

  lemma {:induction false} EndReserved(m: Log, l: Log, k: nat, n: nat, rest: nat, chunks: nat)
    requires ValidLog(m) && SlotHistory.FilledTo(m.slots.bytes, k) && m.slots.used == k && m.maxSlot == k - 1
    requires ValidLog(l) && LogOverlap.FreshLog(l) && 0 < k && 0 < n == m.slots.total - k < chunks
    requires 0 < rest && BytesToChunks(rest, l.chunkSz) <= l.slots.total
    ensures LogEndChunks(m) == n && ReserveSlot(m.slots, chunks) < 0 && ChunkSlot(l, rest) == 0
    ensures LogEndSlot(m) == k <==> AtEnd(m.slots.total, k)
  {
    assert Shaped(m.slots);
    hide ReserveSlot, BytesToChunks, SlotHistory.FilledTo, Valid;
    LogOverlap.TooMany(m.slots, chunks);
    if n <= 8 { FewAtEnd(m.slots, k, n); } else { ManyAtEnd(m.slots, k, n); }
    ChunksCover(rest, l.chunkSz);
    LogOverlap.FreshReservation(l.slots, BytesToChunks(rest, l.chunkSz));
  }

  lemma {:induction false} EndPlan(m: Log, l: Log, n: nat, nbytes: nat, rest: nat)
    requires ValidLog(m) && ValidLog(l) && LogEndChunks(m) == n && rest == nbytes - ChunkBytes(n, m.chunkSz) > 0
    requires ChunkSlot(m, nbytes) < 0 && ChunkSlot(l, rest) == 0
    ensures PlanOf(Tiers(Some(m), Some(l)), nbytes)
            == if LogEndSlot(m) >= 0 then Span(LogEndSlot(m), n, BytesToChunks(rest, l.chunkSz))
               else FilePlan(l, nbytes)
  {
    hide ReserveSlot, BytesToChunks, ChunkBytes, Valid;
  }

  lemma {:induction false} PlanAtEnd(ts: Tiers, m: Log, k: nat, nbytes: nat)
    requires LogOverlap.FreshTiers(ts) && FilledLog(ts.shmem.value, m, k) && Exceeds(ts, k, nbytes)
    ensures var p, r := PlanOf(Tiers(Some(m), ts.spill), nbytes), SpanOf(ts, k, nbytes);
            (p == Span(k, r.mem.1, r.file.1) <==> AtEnd(m.slots.total, k)) && !p.InMem? && (p.Span? ==> p.k == r.mem.1)
  {
    var n, l := m.slots.total - k, ts.spill.value;
    var rest := nbytes - ChunkBytes(n, m.chunkSz);
    EndReserved(m, l, k, n, rest, BytesToChunks(nbytes, m.chunkSz));
    hide PlanOf, ReserveSlot, BytesToChunks, ChunkBytes, SlotHistory.FilledTo, Valid, LogEndChunks;
    EndPlan(m, l, n, nbytes, rest);
  }

  /** What an allocation adds to the live ranges. */
  lemma {:induction false} LiveAdded(w: World, nbytes: nat, r: Live)
    requires ValidTiers(w.ts)
    ensures var a := Alloc(w.ts, nbytes).0;
            Step(w, DoAlloc(nbytes)).live == w.live + [r]
            <==> a.Allocated? && RecordOf(PlanOf(w.ts, nbytes), a.offset, nbytes) == r
  {
    hide Step, Alloc, PlanOf, RecordOf, ValidTiers;
    StepAlloc(w, nbytes);
    var a := Alloc(w.ts, nbytes).0;
    if a.Allocated? {
      assert Step(w, DoAlloc(nbytes)).live[|w.live|] == RecordOf(PlanOf(w.ts, nbytes), a.offset, nbytes);
    }
    assert (w.live + [r])[|w.live|] == r;
  }

  lemma {:induction false} SpanStep(ts: Tiers, w: World, k: nat, nbytes: nat)
    requires LogOverlap.FreshTiers(ts) && FilledTiers(ts, w.ts, k) && Exceeds(ts, k, nbytes)
    ensures Step(w, DoAlloc(nbytes)).live == w.live + [SpanOf(ts, k, nbytes)]
            <==> AtEnd(ts.shmem.value.slots.total, k)
  {
    assert w.ts == Tiers(Some(w.ts.shmem.value), ts.spill) && ValidTiers(w.ts);
    hide ReserveSlot, Reserve, BytesToChunks, ChunkBytes, Alloc, PlanOf, Took, ValidLog, LogOverlap.FreshTiers, AtEnd;
    hide Step;
    PlanAtEnd(ts, w.ts.shmem.value, k, nbytes);
    AllocServed(w.ts, nbytes);
    LiveAdded(w, nbytes, SpanOf(ts, k, nbytes));
  }

  /** Allocations alone have filled shmem, one behind the other, up to chunk `k`. A larger request than what
      is left gets the rest of shmem and the first spill chunks exactly if that rest is at most
      eight chunks or begins at a multiple of eight. */
  lemma {:induction false} SpanAtEndIff(ts: Tiers, run: Trace, k: nat, nbytes: nat)
    requires LogOverlap.FreshTiers(ts) && LogOverlap.AllocOnly(run) && Packed(After(ts, run).live, k)
    requires Exceeds(ts, k, nbytes)
    ensures var w := After(ts, run);
            Step(w, DoAlloc(nbytes)).live == w.live + [SpanOf(ts, k, nbytes)]
            <==> AtEnd(ts.shmem.value.slots.total, k)
  {
    PackedFilled(ts, run, k);
    SpanStep(ts, After(ts, run), k, nbytes);
  }

  lemma {:induction false} OneChunkBytes(one: nat, c: nat)
    requires one == 1
    ensures ChunkBytes(one, c) == c
  {
  }

  lemma {:induction false} FirstChunk(ts: Tiers, one: nat)
    requires LogOverlap.FreshTiers(ts) && ts.shmem.value.slots.total >= 1 && one == 1
    ensures Packed(Step(World(ts, []), DoAlloc(ts.shmem.value.chunkSz)).live, one)
  {
    hide Step, Packed, Init, ChunkBytes, ValidLog, ReserveSlot, Take;
    var m := ts.shmem.value;
    OneChunkBytes(one, m.chunkSz);
    LogOverlap.FreshReservation(m.slots, one);
    LogOverlap.MemStep(World(ts, []), m.chunkSz, 0, one);
    var r := Live(ChunkBytes(0, m.chunkSz), m.chunkSz, (0, one), (0, 0));
    PackedLast([], r, one);
    PackedNone();
  }

  lemma {:induction false} PackedNone()
    ensures Packed([], 0)
  {
  }

  /** One chunk, and then more than the rest: with ten or more shmem chunks that rest is not used. */
  lemma {:induction false} EndMissed(ts: Tiers, one: nat, nbytes: nat)
    requires LogOverlap.FreshTiers(ts) && ts.shmem.value.slots.total >= 10 && one == 1 && Exceeds(ts, one, nbytes)
    ensures var w := After(ts, Then(Start, DoAlloc(ts.shmem.value.chunkSz)));
            Packed(w.live, one) && Step(w, DoAlloc(nbytes)).live != w.live + [SpanOf(ts, one, nbytes)]
  {
    var run := Then(Start, DoAlloc(ts.shmem.value.chunkSz));
    assert After(ts, Start) == World(ts, []) && LogOverlap.AllocOnly(Start);
    hide Step, Packed, Exceeds, SpanOf;
    FirstChunk(ts, one);
    SpanAtEndIff(ts, run, one, nbytes);
  }
}
