/** What the reserved size of the log headers counts: the bytes of all chunks ever handed out, never less
    for what was freed, and short by the shmem chunks that a retry gave back. */
module LogReserved {
  import opened Wrappers
  import opened SlotSpec
  import opened LogSpec
  import opened LogHistory
  import LogOverlap
  import LogSmall

  /** Both tiers use the one chunk size of the configuration. */
  ghost predicate OneChunkSize(ts: Tiers) {
    ts.shmem.Some? && ts.spill.Some? ==> ts.shmem.value.chunkSz == ts.spill.value.chunkSz
  }

  /** Reserved bytes beyond those of the chunks in use. */
  ghost function Excess(l: Option<Log>): int {
    if l.None? then 0 else l.value.reservedSz - ChunkBytes(l.value.slots.used, l.value.chunkSz)
  }

  /** The request takes the retry: the spill part of a spanning attempt did not start at the first spill
      chunk, and the whole request fits the spill file. */
  ghost predicate Retries(ts: Tiers, nbytes: nat)
    requires ValidTiers(ts)
  {
    && nbytes > 0 && ts.shmem.Some? && ts.spill.Some?
    && ChunkSlot(ts.shmem.value, nbytes) < 0 && LogEndSlot(ts.shmem.value) >= 0
    && ChunkBytes(LogEndChunks(ts.shmem.value), ts.shmem.value.chunkSz) < nbytes
    && ChunkSlot(ts.spill.value, nbytes - ChunkBytes(LogEndChunks(ts.shmem.value), ts.shmem.value.chunkSz)) > 0
    && ChunkSlot(ts.spill.value, nbytes) >= 0
  }

  /** The bytes of the shmem chunks a retry gives back. */
  ghost function GivenBack(ts: Tiers, nbytes: nat): nat
    requires ValidTiers(ts)
  {
    if Retries(ts, nbytes) then ChunkBytes(LogEndChunks(ts.shmem.value), ts.shmem.value.chunkSz) else 0
  }

  // ---------- one step ----------

  lemma {:induction false} TakeExcess(l: Log, n: nat, counted: nat)
    requires ValidLog(l) && ReserveSlot(l.slots, n) >= 0
    ensures Excess(Some(Take(l, n, counted))) == Excess(Some(l)) + counted - ChunkBytes(n, l.chunkSz)
  {
    ChunkBytesAdd(l.slots.used, n, l.chunkSz);
    hide ReserveSlot, ChunkBytes;
  }

  lemma {:induction false} SpillExcess(ts: Tiers, nbytes: nat, counted: nat)
    requires ValidTiers(ts) && ts.spill.Some?
    ensures var (r, ts') := AllocSpill(ts, nbytes, counted);
            var l := ts.spill.value;
            && ts'.shmem == ts.shmem
            && Excess(ts'.spill) == Excess(ts.spill)
                                    + if ChunkSlot(l, nbytes) < 0 then 0
                                      else counted - ChunkBytes(BytesToChunks(nbytes, l.chunkSz), l.chunkSz)
  {
    var l := ts.spill.value;
    hide ReserveSlot, ChunkBytes, BytesToChunks, Take, ValidLog, Excess;
    if ChunkSlot(l, nbytes) >= 0 {
      TakeExcess(l, BytesToChunks(nbytes, l.chunkSz), counted);
    }
  }

  lemma {:induction false} SpanExcess(m: Log, l: Log, nbytes: nat, rest: nat, n: nat)
    requires Spanning(m, l, nbytes, rest, n) && m.chunkSz == l.chunkSz && ChunkSlot(m, nbytes) < 0
    ensures var ts := Tiers(Some(m), Some(l));
            var ts' := AllocSpan(ts, nbytes).1;
            Excess(ts'.shmem) == Excess(Some(m)) && Excess(ts'.spill) == Excess(Some(l)) - GivenBack(ts, nbytes)
  {
    var ts, k, c := Tiers(Some(m), Some(l)), LogEndChunks(m), l.chunkSz;
    hide ReserveSlot, Reserve, Take, AllocSpill, AllocSpan, BytesToChunks, ChunkBytes, Excess, Valid;
    if ReserveSlot(l.slots, n) < 0 {
      SpanNone(m, l, nbytes, rest, n);
    } else if ReserveSlot(l.slots, n) == 0 {
      SpanBoth(m, l, nbytes, rest, n);
      TakeExcess(m, k, ChunkBytes(k, c));
      TakeExcess(l, n, ChunkBytes(n, c));
    } else {
      SpanRetry(m, l, nbytes, rest, n);
      RetryExcess(m, l, nbytes, rest, n);
    }
  }

  lemma {:induction false} RetryChunks(m: Log, l: Log, nbytes: nat, rest: nat, n: nat)
    requires Spanning(m, l, nbytes, rest, n) && m.chunkSz == l.chunkSz
    ensures ChunkBytes(BytesToChunks(nbytes, l.chunkSz), l.chunkSz)
            == ChunkBytes(n, l.chunkSz) + ChunkBytes(LogEndChunks(m), m.chunkSz)
  {
    ChunksMinus(nbytes, LogEndChunks(m), l.chunkSz);
    ChunkBytesAdd(n, LogEndChunks(m), l.chunkSz);
    hide ReserveSlot, BytesToChunks, ChunkBytes, Valid;
  }

  lemma {:induction false} RetryExcess(m: Log, l: Log, nbytes: nat, rest: nat, n: nat)
    requires Spanning(m, l, nbytes, rest, n) && m.chunkSz == l.chunkSz && ChunkSlot(m, nbytes) < 0
    requires ReserveSlot(l.slots, n) > 0
    ensures var ts := Tiers(Some(m), Some(l));
            var ts' := AllocSpill(ts, nbytes, ChunkBytes(n, l.chunkSz)).1;
            ts'.shmem == Some(m) && Excess(ts'.spill) == Excess(Some(l)) - GivenBack(ts, nbytes)
  {
    hide ReserveSlot, ChunkSlot, Take, AllocSpill, BytesToChunks, ChunkBytes, Excess, Valid, GivenBack, LogEndChunks;
    GivenBackIs(m, l, nbytes, rest, n);
    RetryChunks(m, l, nbytes, rest, n);
    SpillExcess(Tiers(Some(m), Some(l)), nbytes, ChunkBytes(n, l.chunkSz));
  }

  lemma {:induction false} GivenBackIs(m: Log, l: Log, nbytes: nat, rest: nat, n: nat)
    requires Spanning(m, l, nbytes, rest, n) && ChunkSlot(m, nbytes) < 0 && ReserveSlot(l.slots, n) > 0
    ensures GivenBack(Tiers(Some(m), Some(l)), nbytes)
            == if ChunkSlot(l, nbytes) >= 0 then ChunkBytes(LogEndChunks(m), m.chunkSz) else 0
  {
    hide ReserveSlot, BytesToChunks, ChunkBytes, Valid;
  }

  lemma {:induction false} AllocExcess(ts: Tiers, nbytes: nat)
    requires ValidTiers(ts) && OneChunkSize(ts)
    ensures var ts' := Alloc(ts, nbytes).1;
            && Excess(ts'.shmem) == Excess(ts.shmem) && Excess(ts'.spill) == Excess(ts.spill) - GivenBack(ts, nbytes)
  {
    assert ts.shmem.Some? ==> ts.shmem.value.maxSlot < SIZE_RANGE;
    hide ReserveSlot, Reserve, Take, AllocSpill, AllocSpan, BytesToChunks, ChunkBytes, Excess, Valid;
    if nbytes > 0 {
      if ts.shmem.Some? && ChunkSlot(ts.shmem.value, nbytes) >= 0 {
        var m := ts.shmem.value;
        TakeExcess(m, BytesToChunks(nbytes, m.chunkSz), ChunkBytes(BytesToChunks(nbytes, m.chunkSz), m.chunkSz));
      } else if ts.shmem.Some? && LogEndSlot(ts.shmem.value) >= 0 {
        var m := ts.shmem.value;
        LogEndSmaller(m, nbytes);
        if ts.spill.Some? {
          var l, rest := ts.spill.value, nbytes - ChunkBytes(LogEndChunks(m), m.chunkSz);
          SpanExcess(m, l, nbytes, rest, BytesToChunks(rest, l.chunkSz));
          assert ts == Tiers(Some(m), Some(l));
        } else {
          SpanAlone(ts, nbytes);
        }
      } else if ts.spill.Some? {
        var l := ts.spill.value;
        SpillExcess(ts, nbytes, ChunkBytes(BytesToChunks(nbytes, l.chunkSz), l.chunkSz));
      }
    }
  }

  lemma {:induction false} SpanAlone(ts: Tiers, nbytes: nat)
    requires ValidTiers(ts) && ts.shmem.Some? && ts.spill.None? && LogEndSlot(ts.shmem.value) >= 0
    requires ChunkBytes(LogEndChunks(ts.shmem.value), ts.shmem.value.chunkSz) < nbytes
    ensures AllocSpan(ts, nbytes) == (NoSpace, ts)
  {
    hide ReserveSlot, ChunkBytes, ValidLog;
  }

  lemma {:induction false} GiveBackExcess(l: Log, slot: nat, n: nat)
    requires ValidLog(l) && n > 0 && HeldIn(Some(l), (slot, n))
    ensures slot + n <= 8 * |l.slots.bytes|
    ensures Excess(Some(GiveBack(l, slot, n))) == Excess(Some(l)) + ChunkBytes(n, l.chunkSz)
  {
    GaveBackHeld(l, slot, n);
    assert slot in Run(slot, n);
    RunCard(slot, n);
    SubsetCard(Run(slot, n), UsedSet(l.slots.bytes));
    ChunkBytesAdd(l.slots.used - n, n, l.chunkSz);
  }

  lemma {:induction false} SubsetCard(a: set<nat>, b: set<nat>)
    requires a <= b
    ensures |a| <= |b|
  {
    assert b == a + (b - a);
  }

  /** A free leaves the reserved size alone, so it exceeds the chunks in use by those freed. */
  lemma {:induction false} FreeExcess(w: World, i: nat)
    requires Good(w) && i < |w.live| && Allowed(w, DoFree(i))
    ensures var w', r := Step(w, DoFree(i)), w.live[i];
            && Excess(w'.ts.shmem) == Excess(w.ts.shmem)
                                      + (if r.mem.1 > 0 then ChunkBytes(r.mem.1, w.ts.shmem.value.chunkSz) else 0)
            && Excess(w'.ts.spill) == Excess(w.ts.spill)
                                      + (if r.file.1 > 0 then ChunkBytes(r.file.1, w.ts.spill.value.chunkSz) else 0)
  {
    var r := w.live[i];
    FreeGood(w, i);
    assert Holds(w.ts, r) && HeldIn(w.ts.shmem, r.mem) && HeldIn(w.ts.spill, r.file);
    hide Excess, GiveBack, ChunkBytes, FreeChunks, ValidLog, Good, Holds;
    if r.mem.1 > 0 {
      GiveBackExcess(w.ts.shmem.value, r.mem.0, r.mem.1);
    }
    if r.file.1 > 0 {
      GiveBackExcess(w.ts.spill.value, r.file.0, r.file.1);
    }
  }

  // ---------- runs of allocations ----------

  /** The bytes given back in the retries of a run. */
  ghost function Shortfall(ts: Tiers, run: Trace): nat {
    match run
    case Start => 0
    case Then(before, op) =>
      Shortfall(ts, before)
      + if op.DoAlloc? && ValidTiers(After(ts, before).ts) then GivenBack(After(ts, before).ts, op.nbytes) else 0
  }

  /** No step of the run takes the retry. */
  ghost predicate NoRetry(ts: Tiers, run: Trace) {
    match run
    case Start => true
    case Then(before, op) =>
      && NoRetry(ts, before)
      && (op.DoAlloc? && ValidTiers(After(ts, before).ts) ==> !Retries(After(ts, before).ts, op.nbytes))
  }

  lemma {:induction false} AllocKeeps(w: World, nbytes: nat)
    requires ValidTiers(w.ts)
    ensures ValidTiers(Step(w, DoAlloc(nbytes)).ts)
  {
    hide ValidLog, ReserveSlot, Reserve, BytesToChunks, ChunkBytes;
    if nbytes > 0 {
      hide Alloc, PlanOf;
      AllocServed(w.ts, nbytes);
    }
  }

  lemma {:induction false} RetryGivesBack(ts: Tiers, nbytes: nat)
    requires ValidTiers(ts)
    ensures GivenBack(ts, nbytes) > 0 <==> Retries(ts, nbytes)
  {
    if Retries(ts, nbytes) {
      LogEndSmaller(ts.shmem.value, nbytes);
    }
    hide ReserveSlot, BytesToChunks, ChunkBytes;
  }

  /** Over any run of allocations the reserved sizes fall short by exactly what retries gave back. */
  lemma {:induction false} AllocRunExcess(ts: Tiers, run: Trace)
    requires ValidTiers(ts) && OneChunkSize(ts) && LogOverlap.AllocOnly(run)
    ensures ValidTiers(After(ts, run).ts) && LogSmall.SameSizes(ts, After(ts, run).ts)
    ensures Excess(After(ts, run).ts.shmem) == Excess(ts.shmem)
    ensures Excess(After(ts, run).ts.spill) == Excess(ts.spill) - Shortfall(ts, run)
    ensures Shortfall(ts, run) == 0 <==> NoRetry(ts, run)
  {
    match run
    case Start =>
    case Then(before, op) =>
      AllocRunExcess(ts, before);
      var w := After(ts, before);
      AllocKeeps(w, op.nbytes);
      LogSmall.StepSizes(w, op);
      AllocExcess(w.ts, op.nbytes);
      RetryGivesBack(w.ts, op.nbytes);
      hide ValidLog, Alloc, PlanOf, Excess, GivenBack, Retries;
  }

  /** From fresh tiers, allocations alone keep both reserved sizes equal to the bytes of the chunks in use
      exactly if none of them takes the retry. */
  lemma {:induction false} ReservedIff(ts: Tiers, run: Trace)
    requires LogOverlap.FreshTiers(ts) && OneChunkSize(ts) && LogOverlap.AllocOnly(run)
    ensures var ts' := After(ts, run).ts;
            && ts'.shmem.Some? && ts'.spill.Some?
            && (&& ts'.shmem.value.reservedSz == ChunkBytes(ts'.shmem.value.slots.used, ts.shmem.value.chunkSz)
                && ts'.spill.value.reservedSz == ChunkBytes(ts'.spill.value.slots.used, ts.shmem.value.chunkSz)
                <==> NoRetry(ts, run))
  {
    AllocRunExcess(ts, run);
    assert ChunkBytes(0, ts.shmem.value.chunkSz) == 0;
    hide Shortfall, NoRetry, After, ValidLog, ChunkBytes;
  }

  // ---------- runs with frees ----------

  /** The bytes of chunks freed in a run, in shmem and in the spill file. */
  ghost function Freed(ts: Tiers, run: Trace): (nat, nat) {
    match run
    case Start => (0, 0)
    case Then(before, op) =>
      var (mem, file) := Freed(ts, before);
      var w := After(ts, before);
      if op.DoAlloc? || op.i >= |w.live| then (mem, file)
      else (mem + ChunksIn(w.ts.shmem, w.live[op.i].mem), file + ChunksIn(w.ts.spill, w.live[op.i].file))
  }

  ghost function ChunksIn(l: Option<Log>, run: (nat, nat)): nat {
    if l.Some? && run.1 > 0 then ChunkBytes(run.1, l.value.chunkSz) else 0
  }

  lemma {:induction false} StepExcess(w: World, op: Op)
    requires Good(w) && OneChunkSize(w.ts) && Allowed(w, op)
    ensures var w' := Step(w, op);
            if op.DoAlloc? then
              && Excess(w'.ts.shmem) == Excess(w.ts.shmem)
              && Excess(w'.ts.spill) == Excess(w.ts.spill) - GivenBack(w.ts, op.nbytes)
            else if op.i < |w.live| then
              && Excess(w'.ts.shmem) == Excess(w.ts.shmem) + ChunksIn(w.ts.shmem, w.live[op.i].mem)
              && Excess(w'.ts.spill) == Excess(w.ts.spill) + ChunksIn(w.ts.spill, w.live[op.i].file)
            else w' == w
  {
    match op
    case DoAlloc(nbytes) =>
      AllocExcess(w.ts, nbytes);
      hide Alloc, PlanOf, Excess, GivenBack, ValidLog;
    case DoFree(i) =>
      if i < |w.live| {
        assert Holds(w.ts, w.live[i]) && HeldIn(w.ts.shmem, w.live[i].mem) && HeldIn(w.ts.spill, w.live[i].file);
        FreeExcess(w, i);
        hide Step, Excess, ChunkBytes, Good, Holds, ValidLog;
      }
  }

  /** In every run that keeps the allocator's assumptions the reserved sizes count all chunks in use and all
      that were ever freed, less what retries gave back. */
  lemma {:induction false} RunExcess(ts: Tiers, run: Trace)
    requires ValidTiers(ts) && SafeTier(ts.shmem) && OneChunkSize(ts) && RunAllowed(ts, run)
    ensures LogSmall.SameSizes(ts, After(ts, run).ts)
    ensures Excess(After(ts, run).ts.shmem) == Excess(ts.shmem) + Freed(ts, run).0
    ensures Excess(After(ts, run).ts.spill) == Excess(ts.spill) + Freed(ts, run).1 - Shortfall(ts, run)
  {
    match run
    case Start =>
    case Then(before, op) =>
      hide Good, Step, Allowed, Excess, GivenBack, ValidLog;
      RunExcess(ts, before);
      RunGood(ts, before);
      GoodValid(After(ts, before));
      StepExcess(After(ts, before), op);
      LogSmall.StepSizes(After(ts, before), op);
  }

  lemma {:induction false} GoodValid(w: World)
    requires Good(w)
    ensures ValidTiers(w.ts)
  {
  }
}
