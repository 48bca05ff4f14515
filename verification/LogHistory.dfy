/** Whole runs of log allocations and frees: the byte ranges handed out and not yet
    freed never overlap, under exactly the conditions the allocator relies on. */
module LogHistory {
  import opened Arith
  import opened Wrappers
  import opened SlotSpec
  import opened LogSpec
  import SlotHistory

  /** A live allocation: the byte range handed out and the chunks held for it in each tier,
      as (slot, count); a count of 0 means none. */
  datatype Live = Live(offset: nat, nbytes: nat, mem: (nat, nat), file: (nat, nat))

  ghost predicate Apart(a: (nat, nat), b: (nat, nat)) {
    a.1 > 0 && b.1 > 0 ==> a.0 + a.1 <= b.0 || b.0 + b.1 <= a.0
  }

  ghost predicate RangesApart(a: Live, b: Live) {
    a.offset + a.nbytes <= b.offset || b.offset + b.nbytes <= a.offset
  }

  /** The chunks of `run` are reserved. */
  ghost predicate HeldIn(l: Option<Log>, run: (nat, nat)) {
    run.1 > 0 ==> l.Some? && Run(run.0, run.1) <= UsedSet(l.value.slots.bytes)
  }

  /** The chunks of `run` lie below the slot total. */
  ghost predicate BelowTotal(l: Option<Log>, run: (nat, nat)) {
    run.1 > 0 ==> l.Some? && run.0 + run.1 <= l.value.slots.total
  }

  /** Everything in shmem. */
  ghost predicate MemShape(ts: Tiers, r: Live)
    requires ValidTiers(ts)
  {
    && ts.shmem.Some? && r.mem.1 > 0 && r.file == (0, 0)
    && r.offset == ChunkBytes(r.mem.0, ts.shmem.value.chunkSz)
    && r.mem.1 == BytesToChunks(r.nbytes, ts.shmem.value.chunkSz)
  }

  /** Everything in the spill file. */
  ghost predicate FileShape(ts: Tiers, r: Live)
    requires ValidTiers(ts)
  {
    && ts.spill.Some? && r.mem == (0, 0) && r.file.1 > 0
    && r.offset == MemSize(ts) + ChunkBytes(r.file.0, ts.spill.value.chunkSz)
    && r.file.1 == BytesToChunks(r.nbytes, ts.spill.value.chunkSz)
  }

  /** The last chunks of shmem followed by the first chunks of the spill file. */
  ghost predicate SpanShape(ts: Tiers, r: Live)
    requires ValidTiers(ts)
  {
    && ts.shmem.Some? && ts.spill.Some? && r.mem.1 > 0 && r.file.1 > 0 && r.file.0 == 0
    && r.offset == ChunkBytes(r.mem.0, ts.shmem.value.chunkSz)
    && r.mem.0 + r.mem.1 == ts.shmem.value.slots.total
    && ChunkBytes(r.mem.1, ts.shmem.value.chunkSz) < r.nbytes
    && r.file.1 == BytesToChunks(r.nbytes - ChunkBytes(r.mem.1, ts.shmem.value.chunkSz), ts.spill.value.chunkSz)
  }

  ghost predicate Holds(ts: Tiers, r: Live)
    requires ValidTiers(ts)
  {
    && r.nbytes > 0 && HeldIn(ts.shmem, r.mem) && HeldIn(ts.spill, r.file) && BelowTotal(ts.shmem, r.mem)
    && (MemShape(ts, r) || FileShape(ts, r) || SpanShape(ts, r))
  }

  // ---------- ranges that own disjoint chunks are disjoint ----------

  lemma {:induction false} ChunkBytesMono(a: nat, b: nat, c: nat)
    requires a <= b
    ensures ChunkBytes(a, c) <= ChunkBytes(b, c)
  {
    assert (b - a) * c >= 0;
    assert a * c + (b - a) * c == b * c;
  }

  lemma {:induction false} ChunkBytesAdd(a: nat, b: nat, c: nat)
    ensures ChunkBytes(a + b, c) == ChunkBytes(a, c) + ChunkBytes(b, c)
  {
  }

  /** A range in one tier ends inside the chunks held for it. */
  lemma {:induction false} EndsInChunks(slot: nat, k: nat, nbytes: nat, c: nat)
    requires c > 0 && k == BytesToChunks(nbytes, c)
    ensures ChunkBytes(slot, c) + nbytes <= ChunkBytes(slot + k, c)
  {
    ChunksCover(nbytes, c);
    ChunkBytesAdd(slot, k, c);
  }

  /** All chunks lie inside the data area. */
  lemma {:induction false} ChunksInData(l: Log, n: nat)
    requires ValidLog(l) && n <= l.slots.total
    ensures ChunkBytes(n, l.chunkSz) <= l.dataSz
  {
    ChunkBytesMono(n, l.slots.total, l.chunkSz);
    DivBounds(l.dataSz, l.chunkSz, l.slots.total);
  }

  /** A spanning range ends inside the spill chunks held for it. */
  lemma {:induction false} SpanEnd(ts: Tiers, r: Live)
    requires ValidTiers(ts) && Holds(ts, r) && SpanShape(ts, r)
    ensures r.offset + r.nbytes <= MemSize(ts) + ChunkBytes(r.file.1, ts.spill.value.chunkSz)
  {
    var m, l := ts.shmem.value, ts.spill.value;
    ChunkBytesAdd(r.mem.0, r.mem.1, m.chunkSz);
    ChunksInData(m, m.slots.total);
    ChunksCover(r.nbytes - ChunkBytes(r.mem.1, m.chunkSz), l.chunkSz);
  }

  /** `a` lies before `b` in the file part. */
  lemma {:induction false} FileBefore(ts: Tiers, a: Live, b: Live)
    requires ValidTiers(ts) && Holds(ts, a) && Holds(ts, b) && !MemShape(ts, a) && FileShape(ts, b)
    requires a.file.0 + a.file.1 <= b.file.0
    ensures RangesApart(a, b)
  {
    var c := ts.spill.value.chunkSz;
    ChunkBytesMono(a.file.0 + a.file.1, b.file.0, c);
    if FileShape(ts, a) {
      EndsInChunks(a.file.0, a.file.1, a.nbytes, c);
    } else {
      SpanEnd(ts, a);
    }
  }

  /** `a` lies before `b` in the memory part. */
  lemma {:induction false} MemBefore(ts: Tiers, a: Live, b: Live)
    requires ValidTiers(ts) && Holds(ts, a) && Holds(ts, b) && MemShape(ts, a)
    requires b.mem.1 > 0 ==> a.mem.0 + a.mem.1 <= b.mem.0
    ensures RangesApart(a, b)
  {
    var m := ts.shmem.value;
    EndsInChunks(a.mem.0, a.mem.1, a.nbytes, m.chunkSz);
    if b.mem.1 > 0 {
      ChunkBytesMono(a.mem.0 + a.mem.1, b.mem.0, m.chunkSz);
    } else {
      ChunksInData(m, a.mem.0 + a.mem.1);
    }
  }

  lemma {:induction false} LiveDisjoint(ts: Tiers, a: Live, b: Live)
    requires ValidTiers(ts) && Holds(ts, a) && Holds(ts, b)
    requires Apart(a.mem, b.mem) && Apart(a.file, b.file)
    ensures RangesApart(a, b)
  {
    if MemShape(ts, a) && (b.mem.1 > 0 ==> a.mem.0 + a.mem.1 <= b.mem.0) {
      MemBefore(ts, a, b);
    } else if MemShape(ts, b) && (a.mem.1 > 0 ==> b.mem.0 + b.mem.1 <= a.mem.0) {
      MemBefore(ts, b, a);
    } else if FileShape(ts, b) && a.file.0 + a.file.1 <= b.file.0 {
      FileBefore(ts, a, b);
    } else {
      FileBefore(ts, b, a);
    }
  }

  // ---------- what one allocation hands out ----------

  /** How a request is served: chunks of shmem, chunks of the spill file, or the last
      of the one and the first of the other. */
  datatype Plan = Nothing | InMem(slot: nat, n: nat) | InFile(slot: nat, n: nat) | Span(slot: nat, k: nat, n: nat)

  ghost function FilePlan(l: Log, nbytes: nat): Plan
    requires ValidLog(l)
  {
    var slot := ChunkSlot(l, nbytes);
    if slot < 0 then Nothing else InFile(slot, BytesToChunks(nbytes, l.chunkSz))
  }

  ghost function SpanPlan(m: Log, l: Log, nbytes: nat): Plan
    requires ValidLog(m) && ValidLog(l) && LogEndSlot(m) >= 0
    requires ChunkBytes(LogEndChunks(m), m.chunkSz) < nbytes
  {
    var rest := nbytes - ChunkBytes(LogEndChunks(m), m.chunkSz);
    var slot := ChunkSlot(l, rest);
    if slot < 0 then Nothing
    else if slot == 0 then Span(LogEndSlot(m), LogEndChunks(m), BytesToChunks(rest, l.chunkSz))
    else FilePlan(l, nbytes)
  }

  ghost function PlanOf(ts: Tiers, nbytes: nat): Plan
    requires ValidTiers(ts)
  {
    if nbytes == 0 then Nothing
    else if ts.shmem.Some? && ChunkSlot(ts.shmem.value, nbytes) >= 0 then
      InMem(ChunkSlot(ts.shmem.value, nbytes), BytesToChunks(nbytes, ts.shmem.value.chunkSz))
    else if ts.spill.None? then Nothing
    else if ts.shmem.Some? && LogEndSlot(ts.shmem.value) >= 0 then
      LogEndSmaller(ts.shmem.value, nbytes);
      SpanPlan(ts.shmem.value, ts.spill.value, nbytes)
    else FilePlan(ts.spill.value, nbytes)
  }

  ghost predicate SameGeometry(a: Option<Log>, b: Option<Log>) {
    a.Some? == b.Some? &&
    (a.Some? ==> a.value.dataSz == b.value.dataSz && a.value.chunkSz == b.value.chunkSz
                 && a.value.slots.total == b.value.slots.total)
  }

  /** `l'` is `l` with `n` more chunks reserved at `slot`, the last of them remembered. */
  ghost predicate Took(l: Option<Log>, l': Option<Log>, slot: nat, n: nat) {
    && l.Some? && l'.Some? && ValidLog(l.value) && ValidLog(l'.value) && SameGeometry(l, l')
    && ReserveSlot(l.value.slots, n) == slot && l'.value.slots == Reserve(l.value.slots, n)
    && l'.value.maxSlot == slot + n - 1
  }

  ghost predicate Served(ts: Tiers, ts': Tiers, offset: nat, nbytes: nat, p: Plan)
    requires ValidTiers(ts)
  {
    match p
    case Nothing => false
    case InMem(slot, n) =>
      && Took(ts.shmem, ts'.shmem, slot, n) && ts'.spill == ts.spill
      && n == BytesToChunks(nbytes, ts.shmem.value.chunkSz) && offset == ChunkBytes(slot, ts.shmem.value.chunkSz)
    case InFile(slot, n) =>
      && Took(ts.spill, ts'.spill, slot, n) && ts'.shmem == ts.shmem
      && n == BytesToChunks(nbytes, ts.spill.value.chunkSz)
      && offset == MemSize(ts) + ChunkBytes(slot, ts.spill.value.chunkSz)
    case Span(slot, k, n) =>
      && Took(ts.shmem, ts'.shmem, slot, k) && Took(ts.spill, ts'.spill, 0, n)
      && ChunkBytes(k, ts.shmem.value.chunkSz) < nbytes
      && n == BytesToChunks(nbytes - ChunkBytes(k, ts.shmem.value.chunkSz), ts.spill.value.chunkSz)
      && offset == ChunkBytes(slot, ts.shmem.value.chunkSz)
  }

  lemma {:induction false} TakeTook(l: Log, n: nat, counted: nat)
    requires ValidLog(l) && ReserveSlot(l.slots, n) >= 0
    ensures Took(Some(l), Some(Take(l, n, counted)), ReserveSlot(l.slots, n), n)
  {
    TakeValid(l, n, counted);
    ReserveSound(l.slots, n);
  }

  lemma {:induction false} FileServed(ts: Tiers, nbytes: nat, counted: nat)
    requires ValidTiers(ts) && ts.spill.Some?
    ensures DoesPlan(ts, AllocSpill(ts, nbytes, counted), nbytes, FilePlan(ts.spill.value, nbytes))
  {
    var l := ts.spill.value;
    if ChunkSlot(l, nbytes) >= 0 { TakeTook(l, BytesToChunks(nbytes, l.chunkSz), counted); }
    hide ValidLog, ReserveSlot, Reserve, Take, BytesToChunks, ChunkBytes, Took;
  }

  /** The outcome of an allocation is what the plan says. */
  ghost predicate DoesPlan(ts: Tiers, r: (Outcome, Tiers), nbytes: nat, p: Plan)
    requires ValidTiers(ts)
  {
    if p.Nothing? then r == (NoSpace, ts) else r.0.Allocated? && Served(ts, r.1, r.0.offset, nbytes, p)
  }

  lemma {:induction false} SpanPlanCases(m: Log, l: Log, nbytes: nat, rest: nat, n: nat)
    requires Spanning(m, l, nbytes, rest, n)
    ensures SpanPlan(m, l, nbytes) == if ReserveSlot(l.slots, n) < 0 then Nothing
                                      else if ReserveSlot(l.slots, n) == 0 then Span(LogEndSlot(m), LogEndChunks(m), n)
                                      else FilePlan(l, nbytes)
  {
    hide ReserveSlot, FilePlan, BytesToChunks, ChunkBytes, Valid;
  }

  lemma {:induction false} SpanServed(m: Log, l: Log, nbytes: nat, rest: nat, n: nat)
    requires Spanning(m, l, nbytes, rest, n)
    ensures DoesPlan(Tiers(Some(m), Some(l)), AllocSpan(Tiers(Some(m), Some(l)), nbytes), nbytes,
                     SpanPlan(m, l, nbytes))
  {
    SpanPlanCases(m, l, nbytes, rest, n);
    var ts := Tiers(Some(m), Some(l));
    assert ValidTiers(ts);
    if ReserveSlot(l.slots, n) < 0 {
      hide *;
      SpanNone(m, l, nbytes, rest, n);
      NoPlan(ts, nbytes);
    } else if ReserveSlot(l.slots, n) == 0 {
      SpanBoth(m, l, nbytes, rest, n);
      BothServed(m, l, nbytes, rest, n);
      hide Served, ReserveSlot, AllocSpan, SpanPlan, ValidLog, Take, BytesToChunks, ChunkBytes;
    } else {
      hide *;
      SpanRetry(m, l, nbytes, rest, n);
      FileServed(ts, nbytes, ChunkBytes(n, l.chunkSz));
    }
  }

  lemma {:induction false} NoPlan(ts: Tiers, nbytes: nat)
    requires ValidTiers(ts)
    ensures DoesPlan(ts, (NoSpace, ts), nbytes, Nothing)
  {
  }

  lemma {:induction false} BothServed(m: Log, l: Log, nbytes: nat, rest: nat, n: nat)
    requires Spanning(m, l, nbytes, rest, n) && ReserveSlot(l.slots, n) == 0
    ensures Served(Tiers(Some(m), Some(l)),
                   Tiers(Some(Take(m, LogEndChunks(m), ChunkBytes(LogEndChunks(m), m.chunkSz))),
                         Some(Take(l, n, ChunkBytes(n, l.chunkSz)))),
                   ChunkBytes(LogEndSlot(m), m.chunkSz), nbytes, Span(LogEndSlot(m), LogEndChunks(m), n))
  {
    assert m.maxSlot < SIZE_RANGE;
    hide ValidLog, ReserveSlot, Reserve, Take, BytesToChunks, ChunkBytes, Took, LogEndChunks;
    TakeTook(m, LogEndChunks(m), ChunkBytes(LogEndChunks(m), m.chunkSz));
    TakeTook(l, n, ChunkBytes(n, l.chunkSz));
  }

  /** An allocation does what its plan says, and without a plan it changes nothing. */
  lemma {:induction false} AllocServed(ts: Tiers, nbytes: nat)
    requires ValidTiers(ts) && nbytes > 0
    ensures DoesPlan(ts, Alloc(ts, nbytes), nbytes, PlanOf(ts, nbytes))
  {
    if ts.shmem.Some? && ChunkSlot(ts.shmem.value, nbytes) >= 0 {
      var m := ts.shmem.value;
      var n := BytesToChunks(nbytes, m.chunkSz);
      TakeTook(m, n, ChunkBytes(n, m.chunkSz));
    } else if ts.shmem.Some? && LogEndSlot(ts.shmem.value) >= 0 {
      LogEndSmaller(ts.shmem.value, nbytes);
      if ts.spill.Some? {
        var rest := nbytes - ChunkBytes(LogEndChunks(ts.shmem.value), ts.shmem.value.chunkSz);
        SpanServed(ts.shmem.value, ts.spill.value, nbytes, rest, BytesToChunks(rest, ts.spill.value.chunkSz));
        assert ts == Tiers(Some(ts.shmem.value), Some(ts.spill.value));
      }
    } else if ts.spill.Some? {
      FileServed(ts, nbytes, ChunkBytes(BytesToChunks(nbytes, ts.spill.value.chunkSz), ts.spill.value.chunkSz));
    }
    hide ValidLog, ReserveSlot, Reserve, Take, BytesToChunks, ChunkBytes, Took, AllocSpill, FilePlan, SpanPlan, Served;
  }

  // ---------- one tier ----------

  ghost predicate SafeTier(l: Option<Log>) {
    l.Some? ==> SlotHistory.SafeTotal(l.value.slots.total)
  }

  lemma {:induction false} RunsApart(a: (nat, nat), b: (nat, nat))
    requires a.1 > 0 && b.1 > 0 ==> Run(a.0, a.1) !! Run(b.0, b.1)
    ensures Apart(a, b)
  {
    var s := if a.0 < b.0 then b.0 else a.0;
    assert a.1 > 0 && b.1 > 0 && s in Run(a.0, a.1) ==> s !in Run(b.0, b.1);
  }

  lemma {:induction false} ApartRuns(a: (nat, nat), b: (nat, nat))
    requires Apart(a, b) && a.1 > 0 && b.1 > 0
    ensures Run(a.0, a.1) !! Run(b.0, b.1)
  {
  }

  /** Newly taken chunks are held, clear of everything held before, and nothing held is lost. */
  lemma {:induction false} TookHeld(l: Option<Log>, l': Option<Log>, slot: nat, n: nat)
    requires Took(l, l', slot, n)
    ensures n > 0 && HeldIn(l', (slot, n)) && (SafeTier(l) ==> BelowTotal(l', (slot, n)))
    ensures forall r: (nat, nat) :: HeldIn(l, r) ==> HeldIn(l', r) && Apart(r, (slot, n))
  {
    ReserveKeeps(l.value.slots, n);
    ReserveSound(l.value.slots, n);
    if SafeTier(l) { SlotHistory.ReserveInside(l.value.slots, n); }
    hide ReserveSlot, Reserve, Valid;
    forall r: (nat, nat) | HeldIn(l, r) ensures HeldIn(l', r) && Apart(r, (slot, n)) {
      RunsApart(r, (slot, n));
    }
  }

  /** Giving a held run back loses nothing that lies apart from it. */
  lemma {:induction false} GaveBackHeld(l: Log, slot: nat, n: nat)
    requires ValidLog(l) && n > 0 && HeldIn(Some(l), (slot, n))
    ensures slot + n <= 8 * |l.slots.bytes|
    ensures var l' := GiveBack(l, slot, n);
            && ValidLog(l') && SameGeometry(Some(l), Some(l'))
            && forall r: (nat, nat) :: HeldIn(Some(l), r) && Apart(r, (slot, n)) ==> HeldIn(Some(l'), r)
  {
    assert slot in Run(slot, n);
    SlotHistory.RunInBounds(l.slots, slot, n);
    ReleaseKeeps(l.slots, slot, n);
    var l' := GiveBack(l, slot, n);
    forall r: (nat, nat) | HeldIn(Some(l), r) && Apart(r, (slot, n)) ensures HeldIn(Some(l'), r) {
      if r.1 > 0 { ApartRuns(r, (slot, n)); }
    }
  }

  /** Shapes only depend on the geometry of the tiers. */
  lemma {:induction false} ShapeKept(ts: Tiers, ts': Tiers, r: Live)
    requires ValidTiers(ts) && ValidTiers(ts') && Holds(ts, r)
    requires SameGeometry(ts.shmem, ts'.shmem) && SameGeometry(ts.spill, ts'.spill)
    requires HeldIn(ts'.shmem, r.mem) && HeldIn(ts'.spill, r.file)
    ensures Holds(ts', r)
  {
    hide ValidLog, HeldIn, BytesToChunks, ChunkBytes;
  }

  // ---------- runs ----------

  datatype World = World(ts: Tiers, live: seq<Live>)

  ghost predicate ApartLive(a: Live, b: Live) {
    Apart(a.mem, b.mem) && Apart(a.file, b.file)
  }

  ghost predicate Good(w: World) {
    && ValidTiers(w.ts)
    && (forall i :: 0 <= i < |w.live| ==> Holds(w.ts, w.live[i]))
    && (forall i, j :: 0 <= i < j < |w.live| ==> ApartLive(w.live[i], w.live[j]))
  }

  datatype Op = DoAlloc(nbytes: nat) | DoFree(i: nat)

  datatype Trace = Start | Then(before: Trace, op: Op)

  ghost function RecordOf(p: Plan, offset: nat, nbytes: nat): Live {
    match p
    case Nothing => Live(offset, nbytes, (0, 0), (0, 0))
    case InMem(slot, n) => Live(offset, nbytes, (slot, n), (0, 0))
    case InFile(slot, n) => Live(offset, nbytes, (0, 0), (slot, n))
    case Span(slot, k, n) => Live(offset, nbytes, (slot, k), (0, n))
  }

  /** What the allocator relies on without checking it: a spanning request finds its shmem part at the
      very end of shmem, and a spanning range is freed only if shmem is a whole number of chunks. */
  ghost predicate Allowed(w: World, op: Op) {
    ValidTiers(w.ts) ==>
    match op
    case DoAlloc(nbytes) => PlanOf(w.ts, nbytes).Span? ==> EndsAtTotal(w.ts.shmem.value, PlanOf(w.ts, nbytes))
    case DoFree(i) => i < |w.live| && SpanShape(w.ts, w.live[i]) ==> WholeChunks(w.ts.shmem.value)
  }

  ghost predicate EndsAtTotal(m: Log, p: Plan) {
    p.Span? ==> p.slot + p.k == m.slots.total
  }

  ghost predicate WholeChunks(m: Log) {
    m.dataSz == ChunkBytes(m.slots.total, m.chunkSz)
  }

  lemma {:induction false} AllocGood(w: World, nbytes: nat, offset: nat, ts': Tiers, p: Plan)
    requires Good(w) && SafeTier(w.ts.shmem) && nbytes > 0 && Served(w.ts, ts', offset, nbytes, p)
    requires p.Span? ==> EndsAtTotal(w.ts.shmem.value, p)
    ensures Good(World(ts', w.live + [RecordOf(p, offset, nbytes)])) && SafeTier(ts'.shmem)
  {
    var r := RecordOf(p, offset, nbytes);
    ServedKeeps(w.ts, ts', offset, nbytes, p);
    forall i | 0 <= i < |w.live| ensures Holds(ts', w.live[i]) && ApartLive(w.live[i], r) {
      ServedOther(w.ts, ts', offset, nbytes, p, w.live[i]);
    }
    hide Holds, ValidTiers, ApartLive;
  }

  lemma {:induction false} ServedKeeps(ts: Tiers, ts': Tiers, offset: nat, nbytes: nat, p: Plan)
    requires ValidTiers(ts) && SafeTier(ts.shmem) && nbytes > 0 && Served(ts, ts', offset, nbytes, p)
    requires p.Span? ==> EndsAtTotal(ts.shmem.value, p)
    ensures ValidTiers(ts') && Holds(ts', RecordOf(p, offset, nbytes))
    ensures SameGeometry(ts.shmem, ts'.shmem) && SameGeometry(ts.spill, ts'.spill)
  {
    NoneHeld(ts'.shmem);
    NoneHeld(ts'.spill);
    hide ValidLog, HeldIn, ReserveSlot, Reserve, BytesToChunks, ChunkBytes;
    match p
    case InMem(slot, n) => TookHeld(ts.shmem, ts'.shmem, slot, n);
    case InFile(slot, n) => TookHeld(ts.spill, ts'.spill, slot, n);
    case Span(slot, k, n) =>
      TookHeld(ts.shmem, ts'.shmem, slot, k);
      TookHeld(ts.spill, ts'.spill, 0, n);
  }

  lemma {:induction false} NoneHeld(l: Option<Log>)
    ensures HeldIn(l, (0, 0))
  {
  }

  lemma {:induction false} ServedOther(ts: Tiers, ts': Tiers, offset: nat, nbytes: nat, p: Plan, r: Live)
    requires ValidTiers(ts) && SafeTier(ts.shmem) && nbytes > 0 && Served(ts, ts', offset, nbytes, p)
    requires p.Span? ==> EndsAtTotal(ts.shmem.value, p)
    requires Holds(ts, r)
    ensures ValidTiers(ts') && Holds(ts', r) && ApartLive(r, RecordOf(p, offset, nbytes))
  {
    ServedKeeps(ts, ts', offset, nbytes, p);
    match p
    case InMem(slot, n) => TookHeld(ts.shmem, ts'.shmem, slot, n); ShapeKept(ts, ts', r);
    case InFile(slot, n) => TookHeld(ts.spill, ts'.spill, slot, n); ShapeKept(ts, ts', r);
    case Span(slot, k, n) =>
      TookHeld(ts.shmem, ts'.shmem, slot, k);
      TookHeld(ts.spill, ts'.spill, 0, n);
      ShapeKept(ts, ts', r);
  }

  // ---------- freeing finds the chunks again ----------

  lemma {:induction false} DivExact(slot: nat, c: nat)
    requires c > 0
    ensures ChunkBytes(slot, c) / c == slot && BytesToChunks(ChunkBytes(slot, c), c) == slot
  {
    var x := slot * c;
    assert x / c == slot by { DivUnique(x, c, slot, 0); }
    assert x % c == 0 by { assert x == (x / c) * c + x % c; }
  }

  lemma {:induction false} DivChunks(bytes: nat, c: nat, k: nat)
    requires c > 0 && ChunkBytes(k, c) < bytes <= ChunkBytes(k, c) + c
    ensures BytesToChunks(bytes, c) == k + 1
  {
    assert (k + 1) * c == k * c + c;
    if bytes == k * c + c {
      DivExact(k + 1, c);
    } else {
      DivUnique(bytes, c, k, bytes - k * c);
      assert bytes == (bytes / c) * c + bytes % c;
    }
  }

  lemma {:induction false} FreeMem(ts: Tiers, r: Live)
    requires ValidTiers(ts) && Holds(ts, r) && MemShape(ts, r)
    ensures FreeChunks(ts, r.offset, r.nbytes) == (r.mem, r.file)
  {
    var m := ts.shmem.value;
    EndsInChunks(r.mem.0, r.mem.1, r.nbytes, m.chunkSz);
    ChunksInData(m, r.mem.0 + r.mem.1);
    DivExact(r.mem.0, m.chunkSz);
  }

  lemma {:induction false} FreeFile(ts: Tiers, r: Live)
    requires ValidTiers(ts) && Holds(ts, r) && FileShape(ts, r)
    ensures FreeChunks(ts, r.offset, r.nbytes) == (r.mem, r.file)
  {
    DivExact(r.file.0, ts.spill.value.chunkSz);
  }

  /** A spanning range is found again exactly when shmem is a whole number of chunks. */
  lemma {:induction false} FreeSpanIff(ts: Tiers, r: Live)
    requires ValidTiers(ts) && Holds(ts, r) && SpanShape(ts, r)
    ensures FreeChunks(ts, r.offset, r.nbytes) == (r.mem, r.file) <==> WholeChunks(ts.shmem.value)
  {
    var m := ts.shmem.value;
    var c := m.chunkSz;
    ChunkBytesAdd(r.mem.0, r.mem.1, c);
    ChunksInData(m, m.slots.total);
    DivExact(r.mem.0, c);
    DivExact(r.mem.1, c);
    var tail := m.dataSz - ChunkBytes(m.slots.total, c);
    TailShort(m);
    if tail > 0 {
      var inMem := LogSizes(r.offset, r.nbytes, m.dataSz).0;
      DivChunks(inMem, c, r.mem.1);
    } else {
      assert ChunkBytes(r.mem.1, c) > 0 by { ChunkBytesMono(1, r.mem.1, c); }
      DivExact(0, ts.spill.value.chunkSz);
    }
  }

  lemma {:induction false} TailShort(m: Log)
    requires ValidLog(m)
    ensures m.dataSz < ChunkBytes(m.slots.total, m.chunkSz) + m.chunkSz
  {
    assert m.dataSz == (m.dataSz / m.chunkSz) * m.chunkSz + m.dataSz % m.chunkSz;
  }

  lemma {:induction false} FreeExact(ts: Tiers, r: Live)
    requires ValidTiers(ts) && Holds(ts, r) && (SpanShape(ts, r) ==> WholeChunks(ts.shmem.value))
    ensures FreeChunks(ts, r.offset, r.nbytes) == (r.mem, r.file)
    ensures ChunksInMap(ts.shmem, r.mem) && ChunksInMap(ts.spill, r.file)
  {
    if MemShape(ts, r) {
      FreeMem(ts, r);
    } else if FileShape(ts, r) {
      FreeFile(ts, r);
    } else {
      FreeSpanIff(ts, r);
    }
    if r.mem.1 > 0 { GaveBackHeld(ts.shmem.value, r.mem.0, r.mem.1); }
    if r.file.1 > 0 { GaveBackHeld(ts.spill.value, r.file.0, r.file.1); }
  }

  lemma {:induction false} FreeGood(w: World, i: nat)
    requires Good(w) && i < |w.live| && (SpanShape(w.ts, w.live[i]) ==> WholeChunks(w.ts.shmem.value))
    ensures var r := w.live[i];
            && FreeChunks(w.ts, r.offset, r.nbytes) == (r.mem, r.file)
            && ChunksInMap(w.ts.shmem, r.mem) && ChunksInMap(w.ts.spill, r.file)
            && Good(World(Free(w.ts, r.offset, r.nbytes), w.live[..i] + w.live[i + 1..]))
  {
    var r := w.live[i];
    FreeExact(w.ts, r);
    var ts' := Free(w.ts, r.offset, r.nbytes);
    var live' := w.live[..i] + w.live[i + 1..];
    FreedKeeps(w.ts, r, ts');
    forall k | 0 <= k < |live'| ensures Holds(ts', live'[k]) {
      var k0 := if k < i then k else k + 1;
      assert live'[k] == w.live[k0] && (ApartLive(w.live[k0], r) || ApartLive(r, w.live[k0]));
      FreedOther(w.ts, r, ts', w.live[k0]);
    }
    hide Holds, ValidTiers, ApartLive, Free;
  }

  ghost predicate Freed(l: Option<Log>, l': Option<Log>, run: (nat, nat)) {
    if run.1 > 0 then
      && l.Some? && l'.Some? && run.0 + run.1 <= 8 * |l.value.slots.bytes|
      && l'.value == GiveBack(l.value, run.0, run.1)
    else l' == l
  }

  lemma {:induction false} FreedTier(l: Option<Log>, l': Option<Log>, run: (nat, nat))
    requires (l.Some? ==> ValidLog(l.value)) && HeldIn(l, run) && Freed(l, l', run)
    ensures SameGeometry(l, l') && (l'.Some? ==> ValidLog(l'.value))
    ensures forall r: (nat, nat) :: HeldIn(l, r) && Apart(r, run) ==> HeldIn(l', r)
  {
    if run.1 > 0 { GaveBackHeld(l.value, run.0, run.1); }
  }

  lemma {:induction false} FreedKeeps(ts: Tiers, r: Live, ts': Tiers)
    requires ValidTiers(ts) && Holds(ts, r)
    requires Freed(ts.shmem, ts'.shmem, r.mem) && Freed(ts.spill, ts'.spill, r.file)
    ensures ValidTiers(ts')
    ensures SameGeometry(ts.shmem, ts'.shmem) && SameGeometry(ts.spill, ts'.spill)
  {
    FreedTier(ts.shmem, ts'.shmem, r.mem);
    FreedTier(ts.spill, ts'.spill, r.file);
  }

  lemma {:induction false} FreedOther(ts: Tiers, r: Live, ts': Tiers, other: Live)
    requires ValidTiers(ts) && Holds(ts, r) && Holds(ts, other)
    requires ApartLive(other, r) || ApartLive(r, other)
    requires Freed(ts.shmem, ts'.shmem, r.mem) && Freed(ts.spill, ts'.spill, r.file)
    ensures ValidTiers(ts') && Holds(ts', other)
  {
    FreedKeeps(ts, r, ts');
    FreedTier(ts.shmem, ts'.shmem, r.mem);
    FreedTier(ts.spill, ts'.spill, r.file);
    assert Apart(other.mem, r.mem) && Apart(other.file, r.file);
    ShapeKept(ts, ts', other);
  }

  // ---------- the run theorem ----------

  ghost predicate Freeable(ts: Tiers, r: Live) {
    && ValidTiers(ts)
    && ChunksInMap(ts.shmem, FreeChunks(ts, r.offset, r.nbytes).0)
    && ChunksInMap(ts.spill, FreeChunks(ts, r.offset, r.nbytes).1)
  }

  ghost function Step(w: World, op: Op): World {
    if !ValidTiers(w.ts) then w
    else
      match op
      case DoAlloc(nbytes) =>
        var (r, ts') := Alloc(w.ts, nbytes);
        if r.Allocated? then World(ts', w.live + [RecordOf(PlanOf(w.ts, nbytes), r.offset, nbytes)])
        else World(ts', w.live)
      case DoFree(i) =>
        if i < |w.live| && Freeable(w.ts, w.live[i])
        then World(Free(w.ts, w.live[i].offset, w.live[i].nbytes), w.live[..i] + w.live[i + 1..])
        else w
  }

  ghost function After(ts: Tiers, run: Trace): World {
    match run
    case Start => World(ts, [])
    case Then(before, op) => Step(After(ts, before), op)
  }

  ghost predicate RunAllowed(ts: Tiers, run: Trace) {
    match run
    case Start => true
    case Then(before, op) => RunAllowed(ts, before) && Allowed(After(ts, before), op)
  }

  lemma {:induction false} StepGood(w: World, op: Op)
    requires Good(w) && SafeTier(w.ts.shmem) && Allowed(w, op)
    ensures Good(Step(w, op)) && SafeTier(Step(w, op).ts.shmem)
  {
    match op
    case DoAlloc(nbytes) =>
      if nbytes > 0 {
        AllocServed(w.ts, nbytes);
        var (r, ts') := Alloc(w.ts, nbytes);
        if r.Allocated? {
          hide Good, Alloc, Served, PlanOf;
          AllocGood(w, nbytes, r.offset, ts', PlanOf(w.ts, nbytes));
        }
      }
    case DoFree(i) =>
      if i < |w.live| {
        FreeGood(w, i);
      }
  }

  /** In every run that keeps the allocator's silent assumptions, live ranges never overlap
      and every one of them lies in chunks reserved for it alone. */
  lemma {:induction false} RunGood(ts: Tiers, run: Trace)
    requires ValidTiers(ts) && SafeTier(ts.shmem) && RunAllowed(ts, run)
    ensures Good(After(ts, run)) && SafeTier(After(ts, run).ts.shmem)
  {
    match run
    case Start =>
    case Then(before, op) =>
      RunGood(ts, before);
      StepGood(After(ts, before), op);
  }

  lemma {:induction false} RunDisjoint(ts: Tiers, run: Trace, i: nat, j: nat)
    requires ValidTiers(ts) && SafeTier(ts.shmem) && RunAllowed(ts, run)
    requires i < j < |After(ts, run).live|
    ensures RangesApart(After(ts, run).live[i], After(ts, run).live[j])
  {
    RunGood(ts, run);
    var w := After(ts, run);
    assert ApartLive(w.live[i], w.live[j]);
    LiveDisjoint(w.ts, w.live[i], w.live[j]);
  }

  // ---------- the assumptions are needed, and when they cannot fail ----------

  /** Byte `x` lies in the shmem chunks a spanning plan reserves, or behind all shmem chunks. */
  ghost predicate OwnedByte(p: Plan, m: Log, x: nat)
    requires p.Span?
  {
    x < ChunkBytes(p.slot + p.k, m.chunkSz) || ChunkBytes(m.slots.total, m.chunkSz) <= x
  }

  /** A spanning range stays inside the shmem chunks reserved for it exactly when those are the last ones. */
  lemma {:induction false} SpanInsideIff(ts: Tiers, nbytes: nat, p: Plan, offset: nat, ts': Tiers)
    requires ValidTiers(ts) && SafeTier(ts.shmem) && p.Span? && Served(ts, ts', offset, nbytes, p)
    ensures EndsAtTotal(ts.shmem.value, p) <==>
              forall x: nat :: InRun(x, offset, nbytes) ==> OwnedByte(p, ts.shmem.value, x)
  {
    TookHeld(ts.shmem, ts'.shmem, p.slot, p.k);
    OwnedIff(ts.shmem.value, p, offset, nbytes);
  }

  lemma {:induction false} OwnedIff(m: Log, p: Plan, offset: nat, nbytes: nat)
    requires ValidLog(m) && p.Span? && p.slot + p.k <= m.slots.total
    requires offset == ChunkBytes(p.slot, m.chunkSz) && ChunkBytes(p.k, m.chunkSz) < nbytes
    ensures EndsAtTotal(m, p) <==> forall x: nat :: InRun(x, offset, nbytes) ==> OwnedByte(p, m, x)
  {
    ChunkBytesAdd(p.slot, p.k, m.chunkSz);
    if p.slot + p.k < m.slots.total {
      NextChunk(m, p.slot + p.k);
      hide ValidLog, ChunkBytes;
      var x := ChunkBytes(p.slot + p.k, m.chunkSz);
      assert InRun(x, offset, nbytes) && !OwnedByte(p, m, x);
    }
  }

  lemma {:induction false} NextChunk(m: Log, slot: nat)
    requires ValidLog(m) && slot < m.slots.total
    ensures ChunkBytes(slot, m.chunkSz) < ChunkBytes(m.slots.total, m.chunkSz)
  {
    MulGap(slot, m.slots.total, m.chunkSz);
  }

  /** A request of at most one chunk never spans. */
  lemma {:induction false} OneChunkNeverSpans(ts: Tiers, nbytes: nat)
    requires ValidTiers(ts) && ts.shmem.Some? && nbytes <= ts.shmem.value.chunkSz
    ensures !PlanOf(ts, nbytes).Span?
  {
    var m := ts.shmem.value;
    if nbytes > 0 && ChunkSlot(m, nbytes) < 0 && LogEndSlot(m) >= 0 {
      LogEndSmaller(m, nbytes);
      ReserveSound(m.slots, LogEndChunks(m));
      ChunkBytesMono(1, LogEndChunks(m), m.chunkSz);
      assert false;
    }
  }

  /** The retry path under-counts the reserved bytes by exactly the shmem chunks it gave back. */
  lemma {:induction false} RetryUndercounts(m: Log, l: Log, nbytes: nat, n: nat, k: nat)
    requires ValidLog(m) && ValidLog(l) && m.chunkSz == l.chunkSz
    requires n == BytesToChunks(nbytes, l.chunkSz) && k == LogEndChunks(m)
    requires LogEndSlot(m) >= 0 && ChunkBytes(k, m.chunkSz) < nbytes
    requires ChunkSlot(l, nbytes - ChunkBytes(k, m.chunkSz)) > 0 && ChunkSlot(l, nbytes) >= 0
    ensures k < n
    ensures AllocSpan(Tiers(Some(m), Some(l)), nbytes).1.spill.Some?
    ensures AllocSpan(Tiers(Some(m), Some(l)), nbytes).1.spill.value.reservedSz
            == l.reservedSz + ChunkBytes(n, l.chunkSz) - ChunkBytes(k, l.chunkSz)
  {
    hide ReserveSlot, Reserve, BytesToChunks, ChunkBytes, AllocSpan, Valid;
    var c := l.chunkSz;
    var rest := nbytes - ChunkBytes(k, c);
    ChunksMinus(nbytes, k, c);
    SpanRetry(m, l, nbytes, rest, BytesToChunks(rest, c));
    ChunkBytesAdd(n - k, k, c);
  }

  lemma {:induction false} ChunksMinus(nbytes: nat, k: nat, c: nat)
    requires c > 0 && ChunkBytes(k, c) < nbytes
    ensures BytesToChunks(nbytes, c) == BytesToChunks(nbytes - ChunkBytes(k, c), c) + k
    ensures BytesToChunks(nbytes - ChunkBytes(k, c), c) > 0
  {
    var rest := nbytes - ChunkBytes(k, c);
    var a := BytesToChunks(rest, c);
    ChunksCover(rest, c);
    ChunkBytesAdd(a - 1, 1, c);
    ChunkBytesAdd(a - 1, k, c);
    DivChunks(nbytes, c, a - 1 + k);
  }
}
