/** unifyfs_logio.c: allocation from the two-tier write log, with the reservations,
    releases, retry and rollback of the source. */
module LogIO {
  import opened Wrappers
  import opened Arith
  import opened SlotSpec
  import opened LogSpec
  import SlotMap

  /** log_header and the chunk map that follows it. */
  class LogHeader {
    const dataSz: nat
    const chunkSz: nat
    var reservedSz: nat
    var maxSlot: nat
    const chunkmap: SlotMap.SlotMap

    ghost function State(): Log
      reads this, chunkmap, chunkmap.usemap
    {
      Log(dataSz, chunkSz, reservedSz, maxSlot, chunkmap.State())
    }

    ghost predicate Valid()
      reads this, chunkmap, chunkmap.usemap
    {
      ValidLog(State())
    }

    /** A header around a chunk map that is still empty. */
    constructor (dataBytes: nat, chunkBytes: nat, chunks: SlotMap.SlotMap)
      requires chunkBytes > 0 && dataBytes / chunkBytes + 8 < SIZE_RANGE
      requires chunks.Valid() && chunks.State() == Init(dataBytes / chunkBytes)
      ensures Valid() && chunkmap == chunks && State() == Log(dataBytes, chunkBytes, 0, 0, Init(dataBytes / chunkBytes))
    {
      dataSz, chunkSz, reservedSz, maxSlot, chunkmap := dataBytes, chunkBytes, 0, 0, chunks;
    }

    /** Reserve chunks without accounting for them yet. */
    method Reserve(n: nat) returns (slot: int)
      requires Valid()
      modifies chunkmap, chunkmap.usemap
      ensures Valid() && slot == ReserveSlot(old(State()).slots, n)
      ensures State() == old(State()).(slots := SlotSpec.Reserve(old(State()).slots, n))
    {
      ReserveKeeps(chunkmap.State(), n);
      slot := chunkmap.Reserve(n);
    }

    /** Give back chunks that were reserved from state `before` and not accounted for. */
    method Undo(slot: nat, n: nat, ghost before: Log)
      requires ValidLog(before) && State() == before.(slots := SlotSpec.Reserve(before.slots, n))
      requires slot == ReserveSlot(before.slots, n)
      modifies chunkmap, chunkmap.usemap
      ensures State() == before
    {
      ReserveKeeps(before.slots, n);
      ReserveRelease(before.slots, n);
      var ok := chunkmap.Release(slot, n);
    }

    /** Release chunks as slotmap_release does, ignoring a run whose first chunk is not in use. */
    method Release(slot: nat, n: nat)
      requires Valid() && n > 0 && slot + n <= 8 * |State().slots.bytes|
      modifies chunkmap, chunkmap.usemap
      ensures State() == GiveBack(old(State()), slot, n)
    {
      var ok := chunkmap.Release(slot, n);
    }

    /** Account for chunks that were reserved from state `before`. */
    method Commit(slot: nat, n: nat, counted: nat, ghost before: Log)
      requires ValidLog(before) && State() == before.(slots := SlotSpec.Reserve(before.slots, n))
      requires slot == ReserveSlot(before.slots, n)
      modifies this
      ensures Valid() && State() == Take(before, n, counted)
    {
      TakeValid(before, n, counted);
      ReserveSound(before.slots, n);
      reservedSz := reservedSz + counted;
      maxSlot := slot + n - 1;
    }

    /** Reserve chunks and account for `counted` bytes; without room nothing changes. */
    method TakeChunks(n: nat, counted: nat) returns (slot: int)
      requires Valid()
      modifies this, chunkmap, chunkmap.usemap
      ensures Valid() && -1 <= slot == ReserveSlot(old(State()).slots, n)
      ensures State() == if slot < 0 then old(State()) else Take(old(State()), n, counted)
    {
      ghost var before := State();
      ChunksSound(before, n);
      hide ReserveSlot, SlotSpec.Reserve, ValidLog, Take;
      slot := Reserve(n);
      if slot != -1 {
        Commit(slot, n, counted, before);
      }
    }
  }

  /** sizeof(log_header). */
  const HEADER_BYTES: nat := 48

  function HeaderSize(pages: nat, pageSz: nat): nat {
    pages * pageSz
  }

  /** A header of `hdrSz` bytes leaves room for data, and the map of that data's chunks fits into it. */
  predicate SizeFits(regionSz: nat, chunkSz: nat, hdrSz: nat)
    requires chunkSz > 0
  {
    && hdrSz < regionSz
    && HEADER_BYTES + SlotMap.STRUCT_BYTES + MapBytes((regionSz - hdrSz) / chunkSz) <= hdrSz
  }

  ghost predicate PagesFit(regionSz: nat, chunkSz: nat, pageSz: nat, pages: nat)
    requires chunkSz > 0
  {
    SizeFits(regionSz, chunkSz, HeaderSize(pages, pageSz))
  }

  lemma {:induction false} PageSizes(pages: nat, pageSz: nat)
    requires pages >= 1 && pageSz >= 1
    ensures HeaderSize(pages, pageSz) >= pageSz && HeaderSize(pages, pageSz) >= pages
  {
  }

  lemma {:induction false} NoMorePages(regionSz: nat, chunkSz: nat, pageSz: nat, pages: nat, p: nat)
    requires chunkSz > 0 && HeaderSize(pages, pageSz) >= regionSz && p >= pages
    ensures !PagesFit(regionSz, chunkSz, pageSz, p)
  {
    if p > pages {
      MulGap(pages, p, pageSz);
    }
  }

  lemma {:induction false} FewerChunks(regionSz: nat, chunkSz: nat, data: nat)
    requires chunkSz > 0 && data <= regionSz
    ensures data / chunkSz <= regionSz / chunkSz
  {
    var a, b := data / chunkSz, regionSz / chunkSz;
    DivBounds(data, chunkSz, a);
    DivBounds(regionSz, chunkSz, b);
    if b < a {
      MulGap(b, a, chunkSz);
    }
  }

  /** A new header in front of the rest of its region. */
  ghost predicate FreshHeader(hdr: LogHeader, regionSz: nat, chunkSz: nat, hdrSz: nat)
    requires chunkSz > 0
    reads hdr, hdr.chunkmap, hdr.chunkmap.usemap
  {
    && hdrSz < regionSz && hdr.Valid()
    && hdr.State() == Log(regionSz - hdrSz, chunkSz, 0, 0, Init((regionSz - hdrSz) / chunkSz))
  }

  /** One turn of the loop that looks for the header size. */
  method TryHeader(regionSz: nat, chunkSz: nat, hdrSz: nat) returns (hdr: LogHeader?)
    requires chunkSz > 0 && regionSz / chunkSz + 8 < SIZE_RANGE
    requires HEADER_BYTES + SlotMap.STRUCT_BYTES <= hdrSz < regionSz
    ensures hdr == null <==> !SizeFits(regionSz, chunkSz, hdrSz)
    ensures hdr != null ==>
              fresh({hdr, hdr.chunkmap, hdr.chunkmap.usemap}) && FreshHeader(hdr, regionSz, chunkSz, hdrSz)
  {
    var dataSz := regionSz - hdrSz;
    FewerChunks(regionSz, chunkSz, dataSz);
    var chunkmap := SlotMap.SlotmapInit(dataSz / chunkSz, hdrSz - HEADER_BYTES);
    hdr := null;
    if chunkmap != null {
      hdr := new LogHeader(dataSz, chunkSz, chunkmap);
    }
  }

  /** `pages` is the least number of pages that fits. */
  ghost predicate LeastPages(regionSz: nat, chunkSz: nat, pageSz: nat, pages: nat)
    requires chunkSz > 0
  {
    && pages >= 1 && PagesFit(regionSz, chunkSz, pageSz, pages)
    && forall p: nat :: 1 <= p < pages ==> !PagesFit(regionSz, chunkSz, pageSz, p)
  }

  /** init_log_header: the least number of pages that fits, counting up; null exactly if none does. */
  method InitLogHeader(regionSz: nat, chunkSz: nat, pageSz: nat) returns (hdr: LogHeader?, pages: nat)
    requires chunkSz > 0 && HEADER_BYTES + SlotMap.STRUCT_BYTES <= pageSz && regionSz / chunkSz + 8 < SIZE_RANGE
    ensures hdr == null <==> forall p: nat :: p >= 1 ==> !PagesFit(regionSz, chunkSz, pageSz, p)
    ensures hdr != null ==>
              && LeastPages(regionSz, chunkSz, pageSz, pages)
              && fresh({hdr, hdr.chunkmap, hdr.chunkmap.usemap})
              && FreshHeader(hdr, regionSz, chunkSz, HeaderSize(pages, pageSz))
  {
    hide HeaderSize, SizeFits, FreshHeader;
    pages := 1;
    hdr := null;
    while true
      invariant hdr == null && pages >= 1 && forall p: nat :: 1 <= p < pages ==> !PagesFit(regionSz, chunkSz, pageSz, p)
      decreases regionSz - pages
    {
      var hdrSz := HeaderSize(pages, pageSz);
      PageSizes(pages, pageSz);
      if hdrSz >= regionSz {
        forall p: nat | p >= pages ensures !PagesFit(regionSz, chunkSz, pageSz, p) {
          NoMorePages(regionSz, chunkSz, pageSz, pages, p);
        }
        return;
      }
      hdr := TryHeader(regionSz, chunkSz, hdrSz);
      if hdr != null {
        assert PagesFit(regionSz, chunkSz, pageSz, pages);
        return;
      }
      pages := pages + 1;
    }
  }

  class LogContext {
    const shmem: LogHeader?
    const spill: LogHeader?

    ghost function Repr(): set<object> {
      (if shmem != null then {shmem, shmem.chunkmap, shmem.chunkmap.usemap} else {})
      + (if spill != null then {spill, spill.chunkmap, spill.chunkmap.usemap} else {})
    }

    ghost predicate Separate() {
      shmem != null && spill != null ==>
        shmem != spill && shmem.chunkmap != spill.chunkmap && shmem.chunkmap.usemap != spill.chunkmap.usemap
    }

    ghost function State(): Tiers
      reads Repr()
    {
      Tiers(if shmem == null then None else Some(shmem.State()), if spill == null then None else Some(spill.State()))
    }

    ghost predicate Valid()
      reads Repr()
    {
      Separate() && ValidTiers(State())
    }

    constructor (mem: LogHeader?, file: LogHeader?)
      requires mem != null && file != null ==>
                 mem != file && mem.chunkmap != file.chunkmap && mem.chunkmap.usemap != file.chunkmap.usemap
      requires (mem != null ==> mem.Valid()) && (file != null ==> file.Valid())
      ensures shmem == mem && spill == file && Valid()
    {
      shmem, spill := mem, file;
    }

    /** unifyfs_logio_alloc, against the specification that knows no rollback: on NoSpace both
        bitmaps, counters, reserved sizes and maximum slots are what they were before. */
    method Alloc(nbytes: nat) returns (r: Outcome)
      requires Valid()
      modifies Repr()
      ensures Valid()
      ensures (r, State()) == LogSpec.Alloc(old(State()), nbytes)
      ensures r.NoSpace? ==> State() == old(State())
    {
      if nbytes == 0 {
        return Empty;
      }
      assert (shmem != null ==> ValidLog(shmem.State()))
             && (spill != null ==> ValidLog(spill.State()) && spill.chunkSz > 0);
      if shmem != null {
        ghost var m := shmem.State();
        var n := BytesToChunks(nbytes, shmem.chunkSz);
        ChunksSound(m, n);
        var k := LogEnd(shmem.chunkmap.total, shmem.maxSlot);
        ChunksSound(m, k);
        if ReserveSlot(m.slots, n) < 0 <= ReserveSlot(m.slots, k) { LogEndSmaller(m, nbytes); }
        hide ReserveSlot, SlotSpec.Reserve, ValidLog, Take, BytesToChunks, ChunkBytes, AllocSpill, AllocSpan, LogEnd;
        var slot := TakeShmem(n, ChunkBytes(n, shmem.chunkSz));
        if slot != -1 {
          return Allocated(ChunkBytes(slot, shmem.chunkSz));
        }
        if k > 0 {
          slot := shmem.Reserve(k);
          if slot != -1 {
            r := AllocHeld(nbytes, slot, k, m);
            return;
          }
        }
      }
      if spill == null {
        return NoSpace;
      }
      r := AllocSpillOnly(nbytes, ChunkBytes(BytesToChunks(nbytes, spill.chunkSz), spill.chunkSz));
    }

    /** What is left to do once `k` shmem chunks at `memSlot` are held. */
    method AllocHeld(nbytes: nat, memSlot: nat, k: nat, ghost m: Log) returns (r: Outcome)
      requires Separate() && shmem != null && ValidLog(m) && (spill != null ==> spill.Valid())
      requires nbytes > 0 && k == LogEndChunks(m) && memSlot == LogEndSlot(m)
      requires shmem.State() == m.(slots := SlotSpec.Reserve(m.slots, k))
      requires ChunkBytes(k, shmem.chunkSz) < nbytes
      modifies Repr()
      ensures Valid()
      ensures (r, State()) == AllocSpan(old(State()).(shmem := Some(m)), nbytes)
      ensures r.NoSpace? ==> State() == old(State()).(shmem := Some(m))
    {
      if spill == null {
        shmem.Undo(memSlot, k, m);
        return NoSpace;
      }
      r := AllocRest(nbytes, memSlot, k, m);
    }

    /** The sizes of the tiers, which never change. */
    lemma {:induction false} Sizes()
      requires Valid()
      ensures ValidTiers(State()) && MemSize(State()) == if shmem != null then shmem.dataSz else 0
      ensures State().spill.Some? == (spill != null)
      ensures spill != null ==> spill.chunkSz == State().spill.value.chunkSz > 0
    {
    }

    method TakeSpill(n: nat, counted: nat) returns (slot: int)
      requires Valid() && spill != null
      modifies Repr()
      ensures Valid() && -1 <= slot == ReserveSlot(old(State()).spill.value.slots, n)
      ensures State() == if slot < 0 then old(State())
                         else old(State()).(spill := Some(Take(old(State()).spill.value, n, counted)))
    {
      hide ReserveSlot, ValidLog, Take;
      slot := spill.TakeChunks(n, counted);
    }

    method TakeShmem(n: nat, counted: nat) returns (slot: int)
      requires Valid() && shmem != null
      modifies Repr()
      ensures Valid() && -1 <= slot == ReserveSlot(old(State()).shmem.value.slots, n)
      ensures State() == if slot < 0 then old(State())
                         else old(State()).(shmem := Some(Take(old(State()).shmem.value, n, counted)))
    {
      hide ReserveSlot, ValidLog, Take;
      slot := shmem.TakeChunks(n, counted);
    }

    /** The full request from spill alone; `counted` bytes are added to its reserved size. */
    method AllocSpillOnly(nbytes: nat, counted: nat) returns (r: Outcome)
      requires Valid() && nbytes > 0 && spill != null
      modifies Repr()
      ensures Valid()
      ensures (r, State()) == AllocSpill(old(State()), nbytes, counted)
    {
      Sizes();
      hide State, Valid, ReserveSlot, ValidLog, Take, BytesToChunks, ChunkBytes;
      var n := BytesToChunks(nbytes, spill.chunkSz);
      var slot := TakeSpill(n, counted);
      if slot == -1 {
        return NoSpace;
      }
      return Allocated((if shmem != null then shmem.dataSz else 0) + ChunkBytes(slot, spill.chunkSz));
    }

    /** Chunks reserved in one tier or both, not accounted for yet. */
    ghost predicate Holding(m: Log, k: nat, l: Log, n: nat)
      reads Repr()
    {
      && Separate() && shmem != null && spill != null && ValidLog(m) && ValidLog(l)
      && shmem.State() == m.(slots := SlotSpec.Reserve(m.slots, k))
      && spill.State() == l.(slots := SlotSpec.Reserve(l.slots, n))
    }

    method CommitBoth(memSlot: nat, k: nat, memBytes: nat, ghost m: Log,
                      slot: nat, n: nat, spillBytes: nat, ghost l: Log)
      requires Holding(m, k, l, n) && memSlot == ReserveSlot(m.slots, k) && slot == ReserveSlot(l.slots, n)
      modifies Repr()
      ensures Valid() && State() == Tiers(Some(Take(m, k, memBytes)), Some(Take(l, n, spillBytes)))
    {
      hide ReserveSlot, SlotSpec.Reserve, ValidLog, Take;
      shmem.Commit(memSlot, k, memBytes, m);
      spill.Commit(slot, n, spillBytes, l);
    }

    method ReleaseBoth(memSlot: nat, k: nat, ghost m: Log, slot: nat, n: nat, ghost l: Log)
      requires Holding(m, k, l, n) && memSlot == ReserveSlot(m.slots, k) && slot == ReserveSlot(l.slots, n)
      modifies Repr()
      ensures Valid() && State() == Tiers(Some(m), Some(l))
    {
      hide ReserveSlot, SlotSpec.Reserve, ValidLog;
      spill.Undo(slot, n, l);
      shmem.Undo(memSlot, k, m);
    }

    method ReleaseShmem(memSlot: nat, k: nat, ghost m: Log, ghost l: Log)
      requires Separate() && shmem != null && spill != null && ValidLog(m) && ValidLog(l)
      requires shmem.State() == m.(slots := SlotSpec.Reserve(m.slots, k)) && spill.State() == l
      requires memSlot == ReserveSlot(m.slots, k)
      modifies Repr()
      ensures Valid() && State() == Tiers(Some(m), Some(l))
    {
      hide ReserveSlot, SlotSpec.Reserve, ValidLog;
      shmem.Undo(memSlot, k, m);
    }

    /** The spill part when `k` shmem chunks at `memSlot` are held: span both tiers if the spill part
        starts at its first chunk, otherwise release both and retry in spill alone. */
    method AllocRest(nbytes: nat, memSlot: nat, k: nat, ghost m: Log) returns (r: Outcome)
      requires Separate() && shmem != null && spill != null && ValidLog(m) && spill.Valid()
      requires nbytes > 0 && k == LogEndChunks(m) && memSlot == LogEndSlot(m)
      requires shmem.State() == m.(slots := SlotSpec.Reserve(m.slots, k))
      requires ChunkBytes(k, shmem.chunkSz) < nbytes
      modifies Repr()
      ensures Valid()
      ensures (r, State()) == AllocSpan(Tiers(Some(m), Some(old(spill.State()))), nbytes)
    {
      ghost var l := spill.State();
      var rest := nbytes - ChunkBytes(k, shmem.chunkSz);
      var n := BytesToChunks(rest, spill.chunkSz);
      ChunksSound(l, n);
      if ReserveSlot(l.slots, n) < 0 {
        SpanNone(m, l, nbytes, rest, n);
      } else if ReserveSlot(l.slots, n) == 0 {
        SpanBoth(m, l, nbytes, rest, n);
      } else {
        SpanRetry(m, l, nbytes, rest, n);
      }
      hide ReserveSlot, SlotSpec.Reserve, ValidLog, Take, BytesToChunks, ChunkBytes, AllocSpill, AllocSpan;
      var slot := spill.Reserve(n);
      if slot == -1 {
        ReleaseShmem(memSlot, k, m, l);
        return NoSpace;
      }
      var allocBytes := ChunkBytes(n, spill.chunkSz);
      if slot == 0 {
        CommitBoth(memSlot, k, ChunkBytes(k, shmem.chunkSz), m, slot, n, allocBytes, l);
        return Allocated(ChunkBytes(memSlot, shmem.chunkSz));
      }
      ReleaseBoth(memSlot, k, m, slot, n, l);
      // the byte count of the abandoned attempt is what gets added
      r := AllocSpillOnly(nbytes, allocBytes);
    }

    /** unifyfs_logio_free. */
    method Free(offset: nat, nbytes: nat)
      requires Valid()
      requires ChunksInMap(State().shmem, FreeChunks(State(), offset, nbytes).0)
      requires ChunksInMap(State().spill, FreeChunks(State(), offset, nbytes).1)
      requires offset + nbytes > MemSize(State()) && nbytes > 0 ==> spill != null
      modifies Repr()
      ensures State() == LogSpec.Free(old(State()), offset, nbytes)
    {
      if nbytes == 0 {
        return;
      }
      var memSize := if shmem != null then shmem.dataSz else 0;
      var (inMem, inSpill, spillOff) := LogSizes(offset, nbytes, memSize);
      var mem, file := (0, 0), (0, 0);
      if inMem > 0 {
        mem := (offset / shmem.chunkSz, BytesToChunks(inMem, shmem.chunkSz));
      }
      if inSpill > 0 {
        file := (spillOff / spill.chunkSz, BytesToChunks(inSpill, spill.chunkSz));
      }
      assert (mem, file) == FreeChunks(State(), offset, nbytes);
      ReleaseRuns(mem, file, offset, nbytes);
    }

    method ReleaseRuns(mem: (nat, nat), file: (nat, nat), ghost offset: nat, ghost nbytes: nat)
      requires Valid() && (mem, file) == FreeChunks(State(), offset, nbytes)
      requires ChunksInMap(State().shmem, mem) && ChunksInMap(State().spill, file)
      modifies Repr()
      ensures State() == LogSpec.Free(old(State()), offset, nbytes)
    {
      hide ValidLog, GiveBack, BytesToChunks, FreeChunks;
      if mem.1 > 0 {
        shmem.Release(mem.0, mem.1);
      }
      if file.1 > 0 {
        spill.Release(file.0, file.1);
      }
    }
  }
}
