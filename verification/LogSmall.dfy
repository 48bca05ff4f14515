/** Runs in which no request can span both tiers. They need no assumption about where the allocator
    finds the chunks "at the end of the shmem log". */
module LogSmall {
  import opened SlotSpec
  import opened LogSpec
  import opened LogHistory

  /** Requests of `nbytes` cannot span: a tier is missing, shmem has at most one chunk, or the request
      fits one shmem chunk. */
  ghost predicate NeverSpans(ts: Tiers, nbytes: nat) {
    ts.shmem.Some? && ts.spill.Some? && ts.shmem.value.slots.total > 1 ==> nbytes <= ts.shmem.value.chunkSz
  }

  lemma {:induction false} SmallPlan(ts: Tiers, nbytes: nat)
    requires ValidTiers(ts) && NeverSpans(ts, nbytes)
    ensures !PlanOf(ts, nbytes).Span?
  {
    if ts.shmem.Some? {
      var m := ts.shmem.value;
      if nbytes <= m.chunkSz {
        OneChunkNeverSpans(ts, nbytes);
      } else if ts.spill.Some? {
        ReserveSound(m.slots, LogEndChunks(m));
      }
    }
    hide ReserveSlot, BytesToChunks;
  }

  // ---------- the sizes of the tiers never change ----------

  ghost predicate SameSizes(ts: Tiers, ts': Tiers) {
    SameGeometry(ts.shmem, ts'.shmem) && SameGeometry(ts.spill, ts'.spill)
  }

  lemma {:induction false} StepSizes(w: World, op: Op)
    ensures SameSizes(w.ts, Step(w, op).ts)
  {
    assert SameSizes(w.ts, w.ts);
    if ValidTiers(w.ts) {
      match op
      case DoAlloc(nbytes) => AllocSizes(w.ts, nbytes);
      case DoFree(i) =>
        if i < |w.live| && Freeable(w.ts, w.live[i]) {
          FreeSizes(w.ts, w.live[i].offset, w.live[i].nbytes);
        }
    }
    hide SameSizes, Alloc, Free, PlanOf, Freeable, ValidLog;
  }

  lemma {:induction false} AllocSizes(ts: Tiers, nbytes: nat)
    requires ValidTiers(ts)
    ensures SameSizes(ts, Alloc(ts, nbytes).1)
  {
    if nbytes > 0 {
      AllocServed(ts, nbytes);
      hide Alloc, PlanOf;
    }
    hide ValidLog, Reserve, ReserveSlot, BytesToChunks, ChunkBytes;
  }

  lemma {:induction false} FreeSizes(ts: Tiers, offset: nat, nbytes: nat)
    requires ValidTiers(ts)
    requires ChunksInMap(ts.shmem, FreeChunks(ts, offset, nbytes).0)
    requires ChunksInMap(ts.spill, FreeChunks(ts, offset, nbytes).1)
    ensures SameSizes(ts, Free(ts, offset, nbytes))
  {
    hide ValidLog, FreeChunks;
  }

  // ---------- runs ----------

  ghost predicate SmallRun(ts: Tiers, run: Trace) {
    match run
    case Start => true
    case Then(before, op) => SmallRun(ts, before) && (op.DoAlloc? ==> NeverSpans(ts, op.nbytes))
  }

  /** No live range has chunks in both tiers. */
  ghost predicate OneTierEach(live: seq<Live>) {
    forall i :: 0 <= i < |live| ==> live[i].mem.1 == 0 || live[i].file.1 == 0
  }

  lemma {:induction false} StepOneTier(w: World, op: Op)
    requires OneTierEach(w.live) && (op.DoAlloc? && ValidTiers(w.ts) ==> !PlanOf(w.ts, op.nbytes).Span?)
    ensures OneTierEach(Step(w, op).live)
  {
    hide Alloc, PlanOf, Free, ValidLog, Freeable;
  }

  lemma {:induction false} StepAllowed(w: World, op: Op)
    requires OneTierEach(w.live) && (op.DoAlloc? ==> NeverSpans(w.ts, op.nbytes))
    ensures Allowed(w, op) && OneTierEach(Step(w, op).live)
  {
    if op.DoAlloc? && ValidTiers(w.ts) {
      SmallPlan(w.ts, op.nbytes);
    }
    StepOneTier(w, op);
    hide PlanOf, Step;
  }

  /** Every such run keeps all that the allocator relies on. */
  lemma {:induction false} SmallRunAllowed(ts: Tiers, run: Trace)
    requires SmallRun(ts, run)
    ensures RunAllowed(ts, run) && SameSizes(ts, After(ts, run).ts) && OneTierEach(After(ts, run).live)
  {
    match run
    case Start =>
    case Then(before, op) =>
      hide Step, Allowed, OneTierEach;
      SmallRunAllowed(ts, before);
      StepAllowed(After(ts, before), op);
      StepSizes(After(ts, before), op);
  }

  /** So live ranges never overlap, with nothing left to assume but the shmem total. */
  lemma {:induction false} SmallRunDisjoint(ts: Tiers, run: Trace, i: nat, j: nat)
    requires ValidTiers(ts) && SafeTier(ts.shmem) && SmallRun(ts, run) && i < j < |After(ts, run).live|
    ensures RangesApart(After(ts, run).live[i], After(ts, run).live[j])
  {
    SmallRunAllowed(ts, run);
    RunDisjoint(ts, run, i, j);
  }
}
