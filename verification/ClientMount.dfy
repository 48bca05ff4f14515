/** unifyfs_logio_init_client and the empty file table: the objects a client starts with, built from the
    sizes of its log regions, and what any session that starts from them reads. */
module ClientMount {
  import opened Wrappers
  import opened Bits
  import opened LogSpec
  import opened LogIO
  import opened LogStore
  import opened LocalRead
  import opened WriteIndex
  import opened ClientIO
  import Client
  import LogHistory
  import SlotHistory
  import SlotMap
  import SlotSpec
  import WriteSpec

  /** Sizes the client can work with: chunks are not empty, header and slot map structure fit a page,
      and chunk numbers fit a size_t. A region of size 0 is not created. */
  predicate Config(regionSz: nat, chunkSz: nat, pageSz: nat) {
    && chunkSz > 0 && HEADER_BYTES + SlotMap.STRUCT_BYTES <= pageSz
    && regionSz / chunkSz + 8 < SlotSpec.SIZE_RANGE
  }

  /** The region is not used, or some header fits it. */
  ghost predicate Creatable(regionSz: nat, chunkSz: nat, pageSz: nat)
    requires chunkSz > 0
  {
    regionSz == 0 || exists p: nat :: p >= 1 && PagesFit(regionSz, chunkSz, pageSz, p)
  }

  /** The log created in a region. */
  ghost predicate TierOf(l: Option<Log>, regionSz: nat, chunkSz: nat, pageSz: nat)
    requires chunkSz > 0
  {
    && (l.None? <==> regionSz == 0)
    && (l.Some? ==> exists p: nat :: LeastPages(regionSz, chunkSz, pageSz, p)
                                     && NewTier(l.value, regionSz, chunkSz, HeaderSize(p, pageSz)))
  }

  ghost predicate NewTier(l: Log, regionSz: nat, chunkSz: nat, hdrSz: nat)
    requires chunkSz > 0
  {
    && hdrSz < regionSz
    && l == Log(regionSz - hdrSz, chunkSz, 0, 0, SlotSpec.Init((regionSz - hdrSz) / chunkSz))
  }

  /** The number of chunks that the header leaves room for is one that no reservation passes. */
  ghost predicate SafeRegion(regionSz: nat, chunkSz: nat, pageSz: nat)
    requires chunkSz > 0
  {
    forall p: nat :: LeastPages(regionSz, chunkSz, pageSz, p) && HeaderSize(p, pageSz) < regionSz ==>
                       SlotHistory.SafeTotal((regionSz - HeaderSize(p, pageSz)) / chunkSz)
  }

  lemma {:induction false} RegionSafe(l: Option<Log>, regionSz: nat, chunkSz: nat, pageSz: nat)
    requires chunkSz > 0 && TierOf(l, regionSz, chunkSz, pageSz) && SafeRegion(regionSz, chunkSz, pageSz)
    ensures LogHistory.SafeTier(l)
  {
    hide HeaderSize, LeastPages;
  }

  // ---------- the log ----------

  ghost function HeaderRepr(h: LogHeader?): set<object> {
    if h == null then {} else {h, h.chunkmap, h.chunkmap.usemap}
  }

  ghost function HeaderState(h: LogHeader?): Option<Log>
    reads HeaderRepr(h)
  {
    if h == null then None else Some(h.State())
  }

  ghost predicate HeaderIs(h: LogHeader?, regionSz: nat, chunkSz: nat, pageSz: nat)
    requires chunkSz > 0
    reads HeaderRepr(h)
  {
    TierOf(HeaderState(h), regionSz, chunkSz, pageSz) && (h != null ==> h.Valid())
  }

  method NewHeader(regionSz: nat, chunkSz: nat, pageSz: nat) returns (ok: bool, h: LogHeader?)
    requires Config(regionSz, chunkSz, pageSz)
    ensures ok <==> Creatable(regionSz, chunkSz, pageSz)
    ensures fresh(HeaderRepr(h)) && (ok ==> HeaderIs(h, regionSz, chunkSz, pageSz))
  {
    hide HeaderSize, PagesFit;
    ok, h := true, null;
    if regionSz > 0 {
      var pages;
      h, pages := InitLogHeader(regionSz, chunkSz, pageSz);
      ok := h != null;
      if ok {
        assert NewTier(h.State(), regionSz, chunkSz, HeaderSize(pages, pageSz));
      }
    }
  }

  /** The log as the client creates it; it fails if a header fits its region with no number of pages. */
  method NewLog(memSz: nat, spillSz: nat, chunkSz: nat, pageSz: nat)
    returns (ok: bool, context: LogContext?, store: LogStore?)
    requires Config(memSz, chunkSz, pageSz) && Config(spillSz, chunkSz, pageSz)
    ensures ok <==> Creatable(memSz, chunkSz, pageSz) && Creatable(spillSz, chunkSz, pageSz)
    ensures ok ==>
              && context != null && store != null && fresh(context.Repr() + {store.mem, store.file})
              && LogReady(context, store) && TierOf(context.State().shmem, memSz, chunkSz, pageSz)
              && TierOf(context.State().spill, spillSz, chunkSz, pageSz)
              && store.mem.Length == MemSize(context.State())
  {
    hide Config, Creatable, TierOf, ValidLog;
    context, store := null, null;
    var m, l;
    ok, m := NewHeader(memSz, chunkSz, pageSz);
    if !ok {
      return;
    }
    ok, l := NewHeader(spillSz, chunkSz, pageSz);
    if !ok {
      return;
    }
    context, store := NewContext(m, l);
  }

  method NewContext(m: LogHeader?, l: LogHeader?) returns (context: LogContext, store: LogStore)
    requires (m != null ==> m.Valid()) && (l != null ==> l.Valid()) && HeaderRepr(m) !! HeaderRepr(l)
    ensures context.Repr() == HeaderRepr(m) + HeaderRepr(l) && fresh({store.mem, store.file})
    ensures context.State() == Tiers(HeaderState(m), HeaderState(l)) && LogReady(context, store)
  {
    hide ValidLog;
    context := new LogContext(m, l);
    store := new LogStore(if m == null then 0 else m.dataSz, if l == null then 0 else l.dataSz);
  }

  // ---------- the client ----------

  /** Mounting: both tiers as their regions allow, and files without data. */
  method Mount(memSz: nat, spillSz: nat, chunkSz: nat, pageSz: nat, nfiles: nat, syncEveryWrite: bool,
               maxIndexEntries: nat)
    returns (c: ClientIO?, ghost s: Client.State)
    requires Config(memSz, chunkSz, pageSz) && Config(spillSz, chunkSz, pageSz)
    requires WriteSpec.RoomyConfig(syncEveryWrite, maxIndexEntries)
    ensures c != null <==> Creatable(memSz, chunkSz, pageSz) && Creatable(spillSz, chunkSz, pageSz)
    ensures c != null ==>
              && fresh(c.LogRepr()) && fresh(Footprint(c.files)) && c.Is(s) && |c.files| == nfiles == |s.files|
              && s.log.live == [] && TierOf(s.log.ts.shmem, memSz, chunkSz, pageSz)
              && TierOf(s.log.ts.spill, spillSz, chunkSz, pageSz)
              && (forall i :: 0 <= i < nfiles ==> c.files[i].memSize == MemSize(s.log.ts))
              && (Client.Mounted(s) <==>
                  LogHistory.SafeTier(s.log.ts.shmem) && LogHistory.SafeTier(s.log.ts.spill))
  {
    hide Config, Creatable, TierOf, FilesAre, Apart, LogReady, WriteSpec.RoomyConfig, WriteSpec.Fresh, Footprint;
    hide ClientIO.Is, Client.Mounted, LogHistory.SafeTier;
    c, s := null, Client.State(LogHistory.World(Tiers(None, None), []), [], []);
    var ok, context, store := NewLog(memSz, spillSz, chunkSz, pageSz);
    if !ok {
      return;
    }
    var files;
    ghost var values;
    files, values := NewFiles(nfiles, syncEveryWrite, maxIndexEntries, store.mem.Length);
    c, s := Assemble(context, store, files, values, syncEveryWrite, maxIndexEntries);
  }

  method Assemble(context: LogContext, store: LogStore, files: seq<FileMeta>, ghost values: seq<WriteSpec.File>,
                  ghost sync: bool, ghost maxIndex: nat)
    returns (c: ClientIO, ghost s: Client.State)
    requires LogReady(context, store) && Apart(files) && FilesAre(files, values)
    requires context.Repr() + {store.mem, store.file} !! Footprint(files)
    requires forall i :: 0 <= i < |values| ==> values[i] == WriteSpec.Fresh(true, sync, maxIndex)
    ensures fresh(c) && c.Is(s) && c.log == context && c.store == store && c.files == files && |s.files| == |values|
    ensures s.log == LogHistory.World(context.State(), [])
    ensures Client.Mounted(s) <==> LogHistory.SafeTier(s.log.ts.shmem) && LogHistory.SafeTier(s.log.ts.spill)
  {
    MountedFresh(context, store, values, sync, maxIndex);
    hide FileIs, Apart, LogReady, WriteSpec.Fresh, Client.Mounted, LogHistory.SafeTier;
    s := Client.State(LogHistory.World(context.State(), []), store.Flat(), values);
    c := new ClientIO(context, store, files);
  }

  lemma {:induction false} MountedFresh(context: LogContext, store: LogStore, values: seq<WriteSpec.File>, sync: bool,
                                        maxIndex: nat)
    requires LogReady(context, store)
    requires forall i :: 0 <= i < |values| ==> values[i] == WriteSpec.Fresh(true, sync, maxIndex)
    ensures Client.Mounted(Client.State(LogHistory.World(context.State(), []), store.Flat(), values))
            <==> LogHistory.SafeTier(context.State().shmem) && LogHistory.SafeTier(context.State().spill)
  {
    hide ValidLog;
  }

  // ---------- from mounting to reading ----------

  /** The operations fit the machine's integers, and no write can span both tiers. */
  ghost predicate SmallOps(ops: seq<Client.Op>, memSz: nat, spillSz: nat, chunkSz: nat) {
    forall i :: 0 <= i < |ops| ==>
      Client.Legal(ops[i]) && (ops[i].DoWrite? && memSz > 0 && spillSz > 0 ==> |ops[i].data| <= chunkSz)
  }

  lemma {:induction false} SmallTrace(ts: Tiers, ops: seq<Client.Op>, memSz: nat, spillSz: nat, chunkSz: nat,
                                      pageSz: nat)
    requires chunkSz > 0 && SmallOps(ops, memSz, spillSz, chunkSz)
    requires TierOf(ts.shmem, memSz, chunkSz, pageSz) && TierOf(ts.spill, spillSz, chunkSz, pageSz)
    ensures Client.SmallRun(ts, TraceOf(ops))
  {
    hide LeastPages, HeaderSize, Client.Legal;
    if ops != [] {
      SmallTrace(ts, ops[..|ops| - 1], memSz, spillSz, chunkSz, pageSz);
    }
  }

  /** Mount a client on regions whose chunk numbers are safe, perform any operations whose writes each fit
      one chunk (any writes if there is only one tier), and read: the request is served locally exactly when
      every byte it asks for was written and not truncated since, with the bytes last written. */
  method MountAndRead(memSz: nat, spillSz: nat, chunkSz: nat, pageSz: nat, nfiles: nat, syncEveryWrite: bool,
                      maxIndexEntries: nat, ops: seq<Client.Op>, fid: nat, req: ReadReq)
    returns (c: ClientIO?, haveLocal: bool, ghost content: map<nat, Byte>, ghost s: Client.State)
    requires Config(memSz, chunkSz, pageSz) && Config(spillSz, chunkSz, pageSz)
    requires SafeRegion(memSz, chunkSz, pageSz) && SafeRegion(spillSz, chunkSz, pageSz)
    requires WriteSpec.RoomyConfig(syncEveryWrite, maxIndexEntries) && SmallOps(ops, memSz, spillSz, chunkSz)
    requires fid < nfiles && req.Valid() && req.coverBegin == UNSET && req.coverEnd == UNSET
    modifies req`coverBegin, req`coverEnd, req.buf
    ensures c != null <==> Creatable(memSz, chunkSz, pageSz) && Creatable(spillSz, chunkSz, pageSz)
    ensures c != null ==>
              && Client.Mounted(s) && |s.files| == nfiles && content == Client.Contents(s, TraceOf(ops))[fid]
              && (haveLocal <==> Client.AllIn(content, req.offset, req.length))
              && (haveLocal ==> Client.Returned(req.buf[..], req.length, content, req.offset))
              && (haveLocal ==> req.coverBegin == 0 && req.coverEnd == req.length - 1)
              && (!haveLocal ==> req.buf[..] == old(req.buf[..]) && req.coverBegin == UNSET && req.coverEnd == UNSET)
  {
    haveLocal, content := false, map[];
    assert chunkSz > 0;
    hide *;
    c, s := Mount(memSz, spillSz, chunkSz, pageSz, nfiles, syncEveryWrite, maxIndexEntries);
    if c != null {
      RegionSafe(s.log.ts.shmem, memSz, chunkSz, pageSz);
      RegionSafe(s.log.ts.spill, spillSz, chunkSz, pageSz);
      SmallTrace(s.log.ts, ops, memSz, spillSz, chunkSz, pageSz);
      Client.SmallAllowed(s, TraceOf(ops));
      content := Client.Contents(s, TraceOf(ops))[fid];
      haveLocal := c.Session(ops, fid, req, s);
    }
  }
}
