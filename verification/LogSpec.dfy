/** unifyfs_logio.c on values: the two tiers of the write log and what allocating
    and freeing space does to them. There is no rollback here: an allocation either
    succeeds or leaves both tiers alone. */
module LogSpec {
  import opened Wrappers
  import opened SlotSpec

  /** A log header together with its chunk map. */
  datatype Log = Log(dataSz: nat, chunkSz: nat, reservedSz: nat, maxSlot: nat, slots: Slots)

  datatype Tiers = Tiers(shmem: Option<Log>, spill: Option<Log>)

  datatype Outcome = Empty | Allocated(offset: nat) | NoSpace

  /** What init_log_header establishes, and every operation keeps. */
  ghost predicate ValidLog(l: Log) {
    && l.chunkSz > 0 && l.slots.total == l.dataSz / l.chunkSz && l.slots.total + 8 < SIZE_RANGE
    && l.maxSlot < 8 * |l.slots.bytes| + 1
    && Valid(l.slots)
  }

  ghost predicate ValidTiers(ts: Tiers) {
    (ts.shmem.Some? ==> ValidLog(ts.shmem.value)) && (ts.spill.Some? ==> ValidLog(ts.spill.value))
  }

  /** bytes_to_chunks. */
  function BytesToChunks(bytes: nat, chunkSz: nat): nat
    requires chunkSz > 0
  {
    bytes / chunkSz + (if bytes % chunkSz != 0 then 1 else 0)
  }

  function ChunkBytes(n: nat, chunkSz: nat): nat {
    n * chunkSz
  }

  /** The chunks counted are enough, and one fewer would not be. */
  lemma {:induction false} ChunksCover(bytes: nat, chunkSz: nat)
    requires chunkSz > 0
    ensures bytes <= ChunkBytes(BytesToChunks(bytes, chunkSz), chunkSz) < bytes + chunkSz
    ensures bytes > 0 ==> BytesToChunks(bytes, chunkSz) > 0
  {
    var q, r := bytes / chunkSz, bytes % chunkSz;
    assert bytes == q * chunkSz + r;
    assert (q + 1) * chunkSz == q * chunkSz + chunkSz;
  }

  /** get_log_sizes: how much of a log range lies in each tier, and where it starts in the spill file. */
  function LogSizes(offset: nat, nbytes: nat, memSz: nat): (r: (nat, nat, nat))
    ensures r.0 + r.1 == nbytes
    ensures r.0 > 0 ==> offset + r.0 <= memSz
    ensures r.1 > 0 ==> memSz + r.2 == offset + r.0
  {
    if offset + nbytes <= memSz then (nbytes, 0, 0)
    else if offset < memSz then (memSz - offset, nbytes - (memSz - offset), 0)
    else (0, nbytes, offset - memSz)
  }

  function MemSize(ts: Tiers): nat {
    if ts.shmem.Some? then ts.shmem.value.dataSz else 0
  }

  // ---------- allocation ----------

  ghost function ChunkSlot(l: Log, nbytes: nat): int
    requires ValidLog(l)
  {
    ReserveSlot(l.slots, BytesToChunks(nbytes, l.chunkSz))
  }

  /** Reserve the chunks for `nbytes` and account for `counted` bytes. */
  ghost function Take(l: Log, nchunks: nat, counted: nat): Log
    requires ValidLog(l) && ReserveSlot(l.slots, nchunks) >= 0
  {
    ReserveSound(l.slots, nchunks);
    l.(reservedSz := l.reservedSz + counted,
       maxSlot := ReserveSlot(l.slots, nchunks) + nchunks - 1,
       slots := Reserve(l.slots, nchunks))
  }

  /** A chunk reservation is -1 or a run of free chunks inside the map. */
  lemma {:induction false} ChunksSound(l: Log, n: nat)
    requires ValidLog(l)
    ensures l.chunkSz > 0 && l.maxSlot < SIZE_RANGE
    ensures ReserveSlot(l.slots, n) >= -1
    ensures ReserveSlot(l.slots, n) >= 0 ==> n > 0 && ValidLog(l.(slots := Reserve(l.slots, n)))
    ensures ReserveSlot(l.slots, n) < 0 ==> Reserve(l.slots, n) == l.slots
  {
    ReserveSound(l.slots, n);
    ReserveKeeps(l.slots, n);
  }

  lemma {:induction false} TakeValid(l: Log, nchunks: nat, counted: nat)
    requires ValidLog(l) && ReserveSlot(l.slots, nchunks) >= 0
    ensures ValidLog(Take(l, nchunks, counted))
  {
    ReserveSound(l.slots, nchunks);
    ReserveKeeps(l.slots, nchunks);
  }

  /** Number of chunks behind the end of the latest reservation, as a size_t. */
  function LogEnd(total: nat, maxSlot: nat): nat
    requires maxSlot < SIZE_RANGE
  {
    if maxSlot + 1 <= total then total - (maxSlot + 1) else total + SIZE_RANGE - (maxSlot + 1)
  }

  function LogEndChunks(l: Log): nat
    requires l.maxSlot < SIZE_RANGE
  {
    LogEnd(l.slots.total, l.maxSlot)
  }

  /** The slot at which "the end of the shmem log" is reserved, or -1. */
  ghost function LogEndSlot(l: Log): int
    requires ValidLog(l)
  {
    ReserveSlot(l.slots, LogEndChunks(l))
  }

  /** Spill tier only; `base` is the size of the shmem tier in front of it. */
  ghost function AllocSpill(ts: Tiers, nbytes: nat, counted: nat): (Outcome, Tiers)
    requires ValidTiers(ts)
  {
    if ts.spill.None? || ChunkSlot(ts.spill.value, nbytes) < 0 then (NoSpace, ts)
    else
      var l := ts.spill.value;
      (Allocated(MemSize(ts) + ChunkBytes(ChunkSlot(l, nbytes), l.chunkSz)),
       ts.(spill := Some(Take(l, BytesToChunks(nbytes, l.chunkSz), counted))))
  }

  /** The request did not fit into shmem, but `k` chunks at `slot` are available there. */
  ghost function AllocSpan(ts: Tiers, nbytes: nat): (Outcome, Tiers)
    requires ValidTiers(ts) && ts.shmem.Some? && LogEndSlot(ts.shmem.value) >= 0
    requires ChunkBytes(LogEndChunks(ts.shmem.value), ts.shmem.value.chunkSz) < nbytes
  {
    var m := ts.shmem.value;
    var rest := nbytes - ChunkBytes(LogEndChunks(m), m.chunkSz);
    if ts.spill.None? || ChunkSlot(ts.spill.value, rest) < 0 then (NoSpace, ts)
    else
      var l := ts.spill.value;
      var restBytes := ChunkBytes(BytesToChunks(rest, l.chunkSz), l.chunkSz);
      if ChunkSlot(l, rest) != 0 then AllocSpill(ts, nbytes, restBytes)
      else
        (Allocated(ChunkBytes(LogEndSlot(m), m.chunkSz)),
         Tiers(Some(Take(m, LogEndChunks(m), ChunkBytes(LogEndChunks(m), m.chunkSz))),
               Some(Take(l, BytesToChunks(rest, l.chunkSz), restBytes))))
  }

  /** The request has to look at both tiers: `rest` bytes in `n` chunks go to the spill file. */
  ghost predicate Spanning(m: Log, l: Log, nbytes: nat, rest: nat, n: nat) {
    && ValidLog(m) && ValidLog(l) && LogEndSlot(m) >= 0
    && rest == nbytes - ChunkBytes(LogEndChunks(m), m.chunkSz) > 0 && n == BytesToChunks(rest, l.chunkSz)
  }

  lemma {:induction false} SpanNone(m: Log, l: Log, nbytes: nat, rest: nat, n: nat)
    requires Spanning(m, l, nbytes, rest, n) && ReserveSlot(l.slots, n) < 0
    ensures AllocSpan(Tiers(Some(m), Some(l)), nbytes) == (NoSpace, Tiers(Some(m), Some(l)))
  {
    hide ReserveSlot, Reserve, Take, AllocSpill, BytesToChunks, ChunkBytes, Valid;
  }

  lemma {:induction false} SpanBoth(m: Log, l: Log, nbytes: nat, rest: nat, n: nat)
    requires Spanning(m, l, nbytes, rest, n) && ReserveSlot(l.slots, n) == 0
    ensures AllocSpan(Tiers(Some(m), Some(l)), nbytes)
            == (Allocated(ChunkBytes(LogEndSlot(m), m.chunkSz)),
                Tiers(Some(Take(m, LogEndChunks(m), ChunkBytes(LogEndChunks(m), m.chunkSz))),
                      Some(Take(l, n, ChunkBytes(n, l.chunkSz)))))
  {
    hide ReserveSlot, Reserve, Take, AllocSpill, BytesToChunks, ChunkBytes, Valid;
  }

  lemma {:induction false} SpanRetry(m: Log, l: Log, nbytes: nat, rest: nat, n: nat)
    requires Spanning(m, l, nbytes, rest, n) && ReserveSlot(l.slots, n) > 0
    ensures AllocSpan(Tiers(Some(m), Some(l)), nbytes)
            == AllocSpill(Tiers(Some(m), Some(l)), nbytes, ChunkBytes(n, l.chunkSz))
  {
    hide ReserveSlot, Reserve, Take, AllocSpill, BytesToChunks, ChunkBytes, Valid;
  }

  /** If all chunks do not fit, the chunks at the end of the shmem log are fewer than needed. */
  lemma {:induction false} LogEndSmaller(l: Log, nbytes: nat)
    requires ValidLog(l) && nbytes > 0 && ChunkSlot(l, nbytes) < 0 && LogEndSlot(l) >= 0
    ensures LogEndChunks(l) < BytesToChunks(nbytes, l.chunkSz)
    ensures 0 < ChunkBytes(LogEndChunks(l), l.chunkSz) < nbytes
  {
    var k, n := LogEndChunks(l), BytesToChunks(nbytes, l.chunkSz);
    LogEndFewer(l.slots, k, n);
    ChunksCover(nbytes, l.chunkSz);
    FewerChunks(k, n, l.chunkSz, nbytes);
  }

  lemma {:induction false} LogEndFewer(st: Slots, k: nat, n: nat)
    requires Shaped(st) && ReserveSlot(st, k) >= 0 && ReserveSlot(st, n) < 0
    ensures 0 < k && (0 < n ==> k < n)
  {
    ReserveSound(st, k);
    ReserveSound(st, n);
    if 0 < n <= k {
      ReserveMonotone(st, n, k);
    }
  }

  lemma {:induction false} FewerChunks(k: nat, n: nat, c: nat, nbytes: nat)
    requires 0 < k < n && c > 0 && ChunkBytes(n, c) < nbytes + c
    ensures 0 < ChunkBytes(k, c) < nbytes
  {
    assert k * c <= (n - 1) * c;
    assert (n - 1) * c == n * c - c;
  }

  /** unifyfs_logio_alloc. */
  ghost function Alloc(ts: Tiers, nbytes: nat): (Outcome, Tiers)
    requires ValidTiers(ts)
  {
    if nbytes == 0 then (Empty, ts)
    else if ts.shmem.Some? && ChunkSlot(ts.shmem.value, nbytes) >= 0 then
      var m := ts.shmem.value;
      var n := BytesToChunks(nbytes, m.chunkSz);
      (Allocated(ChunkBytes(ChunkSlot(m, nbytes), m.chunkSz)), ts.(shmem := Some(Take(m, n, ChunkBytes(n, m.chunkSz)))))
    else if ts.shmem.Some? && LogEndSlot(ts.shmem.value) >= 0 then
      LogEndSmaller(ts.shmem.value, nbytes);
      AllocSpan(ts, nbytes)
    else if ts.spill.None? then (NoSpace, ts)
    else
      AllocSpill(ts, nbytes, ChunkBytes(BytesToChunks(nbytes, ts.spill.value.chunkSz), ts.spill.value.chunkSz))
  }

  // ---------- freeing ----------

  /** Release `n` chunks from `slot` on, provided the first of them is in use. */
  ghost function GiveBack(l: Log, slot: nat, n: nat): Log
    requires slot + n <= 8 * |l.slots.bytes|
  {
    if slot < 8 * |l.slots.bytes| && IsUsed(l.slots.bytes, slot) then l.(slots := Release(l.slots, slot, n)) else l
  }

  /** The chunks unifyfs_logio_free takes to hold a log range: (shmem slot, count) and (spill slot, count). */
  function FreeChunks(ts: Tiers, offset: nat, nbytes: nat): ((nat, nat), (nat, nat))
    requires (ts.shmem.Some? ==> ts.shmem.value.chunkSz > 0) && (ts.spill.Some? ==> ts.spill.value.chunkSz > 0)
  {
    var (inMem, inSpill, spillOff) := LogSizes(offset, nbytes, MemSize(ts));
    (if inMem > 0 && ts.shmem.Some?
     then (offset / ts.shmem.value.chunkSz, BytesToChunks(inMem, ts.shmem.value.chunkSz)) else (0, 0),
     if inSpill > 0 && ts.spill.Some?
     then (spillOff / ts.spill.value.chunkSz, BytesToChunks(inSpill, ts.spill.value.chunkSz)) else (0, 0))
  }

  ghost predicate ChunksInMap(l: Option<Log>, run: (nat, nat)) {
    run.1 > 0 ==> l.Some? && run.0 + run.1 <= 8 * |l.value.slots.bytes|
  }

  /** unifyfs_logio_free. */
  ghost function Free(ts: Tiers, offset: nat, nbytes: nat): Tiers
    requires ValidTiers(ts)
    requires ChunksInMap(ts.shmem, FreeChunks(ts, offset, nbytes).0)
    requires ChunksInMap(ts.spill, FreeChunks(ts, offset, nbytes).1)
  {
    var (mem, file) := FreeChunks(ts, offset, nbytes);
    Tiers(if mem.1 > 0 then Some(GiveBack(ts.shmem.value, mem.0, mem.1)) else ts.shmem,
          if file.1 > 0 then Some(GiveBack(ts.spill.value, file.0, file.1)) else ts.spill)
  }
}
