/** When unifyfs_sync_extents leaves data in the spill file unflushed. It compares the largest file offset
    it is about to sync, which it takes for a log offset, with the size of the shmem log. */
module SpillFlush {
  import opened Wrappers
  import opened Bits
  import opened Extents
  import opened SlotSpec
  import opened LogSpec
  import opened Client
  import LogHistory
  import LogSmall
  import LogOverlap
  import LogEscape
  import WriteSpec

  /** A sync of these extents hands the server data in the spill file without flushing that file. */
  ghost predicate MissesFlush(ss: seq<Seg>, memSize: nat) {
    WriteSpec.InSpill(ss, memSize) && !WriteSpec.Flushes(ss, memSize)
  }

  /** A sync of this file would now miss the flush. */
  ghost predicate SyncMisses(s: State, fid: nat) {
    fid < |s.files| && MissesFlush(s.files[fid].pending, MemSize(s.log.ts))
  }

  /** There is a shmem log, and the spill log has a chunk. */
  ghost predicate BothTiers(ts: Tiers) {
    MemSize(ts) > 0 && ts.spill.Some? && ts.spill.value.slots.total >= 1
  }

  // ---------- the sizes of the tiers never change ----------

  lemma {:induction false} AfterSizes(s: State, run: Trace)
    ensures LogSmall.SameSizes(s.log.ts, After(s, run).log.ts)
  {
    match run
    case Start =>
    case Then(before, op) =>
      hide Step, LogHistory.Step;
      AfterSizes(s, before);
      StepLog(After(s, before), op);
      if op.DoWrite? { LogSmall.StepSizes(After(s, before).log, LogHistory.DoAlloc(|op.data|)); }
  }

  // ---------- one tier: never missed ----------

  /** Without spill chunks a live range lies in shmem. */
  lemma {:induction false} LiveInMem(ts: Tiers, r: LogHistory.Live)
    requires ValidTiers(ts) && LogHistory.Holds(ts, r) && LogHistory.BelowTotal(ts.spill, r.file)
    requires ts.spill.None? || ts.spill.value.slots.total == 0
    ensures r.offset + r.nbytes <= MemSize(ts)
  {
    assert LogHistory.MemShape(ts, r);
    LogHistory.EndsInChunks(r.mem.0, r.mem.1, r.nbytes, ts.shmem.value.chunkSz);
    LogHistory.ChunksInData(ts.shmem.value, r.mem.0 + r.mem.1);
  }

  /** The log position behind the last byte of a pending extent is in use. */
  lemma {:induction false} PendingLive(f: WriteSpec.File, content: map<nat, Byte>, log: LogHistory.World,
                                       store: seq<Byte>, i: nat)
    requires FileOk(f, content, log, store) && i < |f.pending|
    ensures Proper(f.pending[i]) && InLive(log.live, f.pending[i].ptr + (f.pending[i].end - f.pending[i].start))
  {
    var g := f.pending[i];
    ToMapAt(f.pending, i, g.end);
    assert ToMap(f.extents)[g.end] == ToMap(f.pending)[g.end];
    assert HoldsByte(ToMap(f.extents)[g.end], content[g.end], log, store);
  }

  lemma {:induction false} NeverMissed(s: State, contents: seq<map<nat, Byte>>, fid: nat)
    requires Inv(s, contents) && !BothTiers(s.log.ts)
    ensures !SyncMisses(s, fid)
  {
    if SyncMisses(s, fid) && MemSize(s.log.ts) > 0 {
      var f := s.files[fid];
      var i :| 0 <= i < |f.pending| && f.pending[i].ptr + (f.pending[i].end - f.pending[i].start) >= MemSize(s.log.ts);
      PendingLive(f, contents[fid], s.log, s.store, i);
      var p := f.pending[i].ptr + (f.pending[i].end - f.pending[i].start);
      var k :| 0 <= k < |s.log.live| && Owns(s.log.live[k], p);
      LiveInMem(s.log.ts, s.log.live[k]);
    }
  }

  // ---------- two tiers: a run that misses it ----------

  /** Nothing was ever allocated. */
  ghost predicate Unused(l: Option<Log>) {
    l.Some? ==> LogOverlap.FreshLog(l.value)
  }

  /** Fill shmem, sync, and rewrite the first byte: the new byte is in the spill file. */
  ghost function MissRun(fid: nat, fill: seq<Byte>, b: Byte): Trace {
    Then(Then(Then(Start, DoWrite(fid, 0, fill)), DoSync(fid)), DoWrite(fid, 0, [b]))
  }

  ghost predicate Writable(s: State, fid: nat) {
    fid < |s.files| && !s.files[fid].laminated && !s.files[fid].writeSync
  }

  ghost predicate MemFull(ts: Tiers, ts': Tiers) {
    && ValidTiers(ts') && ts'.shmem.Some? && ts'.shmem.value.slots.used == ts'.shmem.value.slots.total
    && ts'.spill == ts.spill && MemSize(ts') == MemSize(ts)
  }

  /** The request for all shmem chunks at once is served from the first one on. */
  lemma {:induction false} FillAlloc(w: LogHistory.World, total: nat, nbytes: nat)
    requires ValidTiers(w.ts) && w.ts.shmem.Some? && Unused(w.ts.shmem)
    requires total == w.ts.shmem.value.slots.total > 0 && nbytes == ChunkBytes(total, w.ts.shmem.value.chunkSz)
    ensures nbytes > 0 && LogHistory.Allowed(w, LogHistory.DoAlloc(nbytes)) && Alloc(w.ts, nbytes).0 == Allocated(0)
    ensures MemFull(w.ts, LogHistory.Step(w, LogHistory.DoAlloc(nbytes)).ts)
  {
    var m := w.ts.shmem.value;
    LogHistory.ChunkBytesMono(1, total, m.chunkSz);
    LogOverlap.TakenFirst(m, total);
    LogOverlap.MemStep(w, nbytes, 0, total);
    LogHistory.AllocServed(w.ts, nbytes);
    hide ReserveSlot, Reserve, Take, Alloc, LogHistory.PlanOf, BytesToChunks, LogHistory.Step;
  }

  lemma {:induction false} Fill(s: State, fid: nat, fill: seq<Byte>)
    requires Mounted(s) && Writable(s, fid) && s.log.ts.shmem.Some? && Unused(s.log.ts.shmem)
    requires |fill| == ChunkBytes(s.log.ts.shmem.value.slots.total, s.log.ts.shmem.value.chunkSz)
    ensures AllocAllowed(s, DoWrite(fid, 0, fill))
    ensures MemFull(s.log.ts, Step(s, DoWrite(fid, 0, fill)).log.ts) && Writable(Step(s, DoWrite(fid, 0, fill)), fid)
  {
    var m := s.log.ts.shmem.value;
    if m.slots.total == 0 {
      assert fill == [];
    } else {
      FillAlloc(s.log, m.slots.total, |fill|);
      LogHistory.ChunksInData(m, m.slots.total);
    }
    hide ReserveSlot, Take, Alloc, BytesToChunks, LogHistory.Step, MemFull, AddNodes;
  }

  lemma {:induction false} FirstPending(f: WriteSpec.File, g: Seg)
    requires f.pending == [] && !f.needsSync && !f.laminated && !f.writeSync
    ensures WriteSpec.Write(f, g).pending == [g]
  {
    WriteSpec.AddToEmpty(g);
  }

  lemma {:induction false} HasData(l: Log)
    requires ValidLog(l) && l.slots.total >= 1
    ensures l.dataSz > 0
  {
    LogHistory.ChunksInData(l, 1);
  }

  lemma {:induction false} SpillAlloc(w: LogHistory.World, one: nat)
    requires MemFull(w.ts, w.ts) && BothTiers(w.ts) && Unused(w.ts.spill) && one == 1
    ensures LogHistory.Allowed(w, LogHistory.DoAlloc(one)) && Alloc(w.ts, one).0 == Allocated(MemSize(w.ts))
    ensures MemSize(LogHistory.Step(w, LogHistory.DoAlloc(one)).ts) == MemSize(w.ts) < Capacity(w.ts)
  {
    hide ReserveSlot, Reserve, Take, Alloc, LogHistory.PlanOf, BytesToChunks, LogHistory.Step, ValidLog, Init;
    var ts := w.ts;
    assert ts == Tiers(Some(ts.shmem.value), Some(ts.spill.value));
    LogEscape.SpillPlan(ts.shmem.value, ts.spill.value, one);
    LogHistory.AllocServed(ts, one);
    LogSmall.StepSizes(w, LogHistory.DoAlloc(one));
    HasData(ts.spill.value);
  }

  /** Shmem is full, nothing is pending. */
  ghost predicate Primed(s: State, fid: nat) {
    && MemFull(s.log.ts, s.log.ts) && BothTiers(s.log.ts) && Unused(s.log.ts.spill) && |s.store| == Capacity(s.log.ts)
    && Writable(s, fid) && s.files[fid].pending == [] && !s.files[fid].needsSync
  }

  /** Then a byte goes to the spill file, and its sync misses the flush. */
  lemma {:induction false} SpilledByte(s: State, fid: nat, b: Byte)
    requires Primed(s, fid)
    ensures AllocAllowed(s, DoWrite(fid, 0, [b])) && SyncMisses(Step(s, DoWrite(fid, 0, [b])), fid)
  {
    hide ReserveSlot, Alloc, LogHistory.Step, LogHistory.Allowed, WriteSpec.Write, Unused, Capacity;
    SpillAlloc(s.log, |[b]|);
    var g := Seg(0, 0, MemSize(s.log.ts));
    FirstPending(s.files[fid], g);
    assert Step(s, DoWrite(fid, 0, [b])).files[fid].pending == [g];
    assert MissesFlush([g], MemSize(s.log.ts)) by { assert [g][0] == g; }
  }

  lemma {:induction false} Synced(s: State, contents: seq<map<nat, Byte>>, fid: nat)
    requires Inv(s, contents) && Writable(s, fid) && MemFull(s.log.ts, s.log.ts) && BothTiers(s.log.ts)
    requires Unused(s.log.ts.spill)
    ensures Primed(Step(s, DoSync(fid)), fid)
  {
    WriteSpec.SyncCoherent(s.files[fid], ToMap(s.files[fid].extents));
    hide MemFull, BothTiers, Unused, Capacity, LogOk;
  }

  lemma {:induction false} FillSync(s: State, fid: nat, fill: seq<Byte>)
    requires Mounted(s) && Writable(s, fid) && BothTiers(s.log.ts) && Unused(s.log.ts.shmem) && Unused(s.log.ts.spill)
    requires |fill| == ChunkBytes(s.log.ts.shmem.value.slots.total, s.log.ts.shmem.value.chunkSz)
    requires |fill| <= WriteSpec.ULONG_MAX
    ensures RunAllowed(s, Then(Start, DoWrite(fid, 0, fill)))
    ensures Primed(After(s, Then(Then(Start, DoWrite(fid, 0, fill)), DoSync(fid))), fid)
  {
    hide Step, Mounted, Unused, ChunkBytes, Inv, AllocAllowed, Writable, Primed;
    Fill(s, fid, fill);
    var run := Then(Start, DoWrite(fid, 0, fill));
    assert After(s, Start) == s && RunAllowed(s, Start);
    RunInv(s, run);
    Synced(After(s, run), Contents(s, run), fid);
  }

  lemma {:induction false} MissRunMisses(s: State, fid: nat, fill: seq<Byte>, b: Byte)
    requires Mounted(s) && Writable(s, fid) && BothTiers(s.log.ts) && Unused(s.log.ts.shmem) && Unused(s.log.ts.spill)
    requires |fill| == ChunkBytes(s.log.ts.shmem.value.slots.total, s.log.ts.shmem.value.chunkSz)
    requires |fill| <= WriteSpec.ULONG_MAX
    ensures RunAllowed(s, MissRun(fid, fill, b)) && SyncMisses(After(s, MissRun(fid, fill, b)), fid)
  {
    hide Step, Mounted, Unused, ChunkBytes, Primed, SyncMisses, Writable;
    FillSync(s, fid, fill);
    var run := Then(Then(Start, DoWrite(fid, 0, fill)), DoSync(fid));
    SpilledByte(After(s, run), fid, b);
    assert RunAllowed(s, run);
  }

  /** Some run from here on leaves a file whose next sync misses the flush. */
  ghost predicate CanMiss(s: State) {
    exists run, fid :: RunAllowed(s, run) && SyncMisses(After(s, run), fid)
  }

  /** A client whose first file does not sync every write can miss the flush exactly when it has both
      tiers: then filling shmem and rewriting one byte is enough. */
  lemma {:induction false} CanMissIff(s: State)
    requires Mounted(s) && Writable(s, 0) && Unused(s.log.ts.shmem) && Unused(s.log.ts.spill)
    requires MemSize(s.log.ts) <= WriteSpec.ULONG_MAX
    ensures CanMiss(s) <==> BothTiers(s.log.ts)
  {
    if BothTiers(s.log.ts) {
      var fill := seq(ChunkBytes(s.log.ts.shmem.value.slots.total, s.log.ts.shmem.value.chunkSz), _ => 0 as Byte);
      LogHistory.ChunksInData(s.log.ts.shmem.value, s.log.ts.shmem.value.slots.total);
      MissRunMisses(s, 0, fill, 0 as Byte);
    } else {
      hide Mounted, Inv, SyncMisses, Unused, RunAllowed;
      forall run, fid | RunAllowed(s, run) ensures !SyncMisses(After(s, run), fid) {
        RunInv(s, run);
        AfterSizes(s, run);
        NeverMissed(After(s, run), Contents(s, run), fid);
      }
    }
  }
}
