/** The client's objects put together: the log allocator, the log's bytes and the files. Writing,
    syncing, truncating and reading on them are the steps of the client's value. */
module ClientIO {
  import opened Wrappers
  import opened Bits
  import opened Extents
  import opened LogSpec
  import opened LogIO
  import opened LogStore
  import opened LocalRead
  import opened WriteIndex
  import Client
  import LogHistory
  import LogServed
  import WriteSpec

  const SUCCESS: int := 0
  const ENOSPC: int := 28
  const EROFS: int := 30
  const EINVAL: int := 22

  /** All objects of the files. */
  ghost function Footprint(files: seq<FileMeta>): set<object> {
    set f: FileMeta, o: object | f in files && o in f.Repr() :: o
  }

  lemma {:induction false} ReprIn(files: seq<FileMeta>, i: nat)
    requires i < |files|
    ensures files[i].Repr() <= Footprint(files)
  {
    forall o | o in files[i].Repr() ensures o in Footprint(files) {
      assert files[i] in files;
    }
  }

  /** No two files share an object. */
  ghost predicate Apart(files: seq<FileMeta>) {
    forall i, j :: 0 <= i < j < |files| ==> files[i].Repr() !! files[j].Repr()
  }

  ghost predicate FileIs(f: FileMeta, value: WriteSpec.File)
    reads f.Repr()
  {
    f.Valid() && f.State() == value
  }

  /** The files are in order and have the given values. */
  ghost predicate FilesAre(files: seq<FileMeta>, values: seq<WriteSpec.File>)
    reads Footprint(files)
  {
    |files| == |values| && forall i :: 0 <= i < |files| ==> files[i] in files && FileIs(files[i], values[i])
  }

  // ---------- one file among others ----------

  method SyncFile(f: FileMeta, ghost value: WriteSpec.File)
    requires FileIs(f, value)
    modifies f, f.index, f.pending
    ensures FileIs(f, WriteSpec.Sync(value))
  {
    hide WriteSpec.Coherent, WriteSpec.Room;
    var _ := f.Sync();
  }

  method TruncateFile(f: FileMeta, length: nat, ghost value: WriteSpec.File) returns (ok: bool)
    requires FileIs(f, value) && length <= WriteSpec.ULONG_MAX
    modifies f, f.index, f.pending, f.extents
    ensures FileIs(f, WriteSpec.Truncate(value, length)) && ok == !value.laminated
  {
    hide WriteSpec.Coherent, WriteSpec.Room;
    ok := f.Truncate(length);
  }

  method WriteFile(f: FileMeta, pos: nat, logPos: nat, length: nat, ghost value: WriteSpec.File)
    requires FileIs(f, value) && length > 0 && pos + length - 1 <= WriteSpec.ULONG_MAX
    modifies f, f.index, f.pending, f.extents
    ensures FileIs(f, WriteSpec.Write(value, Seg(pos, pos + length - 1, logPos)))
  {
    hide WriteSpec.Coherent, WriteSpec.Room;
    var _ := f.Write(pos, logPos, length);
  }

  /** The file becomes read-only. */
  method LaminateFile(f: FileMeta, ghost value: WriteSpec.File)
    requires FileIs(f, value)
    modifies f
    ensures FileIs(f, value.(laminated := true))
  {
    f.laminated := true;
  }

  method SyncIn(files: seq<FileMeta>, fid: nat, ghost values: seq<WriteSpec.File>)
    requires Apart(files) && FilesAre(files, values) && fid < |files|
    modifies Footprint(files)
    ensures FilesAre(files, values[fid := WriteSpec.Sync(values[fid])])
  {
    hide FileIs;
    ReprIn(files, fid);
    SyncFile(files[fid], values[fid]);
  }

  method TruncateIn(files: seq<FileMeta>, fid: nat, length: nat, ghost values: seq<WriteSpec.File>) returns (ok: bool)
    requires Apart(files) && FilesAre(files, values) && fid < |files| && length <= WriteSpec.ULONG_MAX
    modifies Footprint(files)
    ensures FilesAre(files, values[fid := WriteSpec.Truncate(values[fid], length)]) && ok == !values[fid].laminated
  {
    hide FileIs;
    ReprIn(files, fid);
    ok := TruncateFile(files[fid], length, values[fid]);
  }

  method WriteIn(files: seq<FileMeta>, fid: nat, pos: nat, logPos: nat, length: nat, ghost values: seq<WriteSpec.File>)
    requires Apart(files) && FilesAre(files, values) && fid < |files| && length > 0
             && pos + length - 1 <= WriteSpec.ULONG_MAX
    modifies Footprint(files)
    ensures FilesAre(files, values[fid := WriteSpec.Write(values[fid], Seg(pos, pos + length - 1, logPos))])
  {
    hide FileIs;
    ReprIn(files, fid);
    WriteFile(files[fid], pos, logPos, length, values[fid]);
  }

  method LaminateIn(files: seq<FileMeta>, fid: nat, ghost values: seq<WriteSpec.File>)
    requires Apart(files) && FilesAre(files, values) && fid < |files|
    modifies Footprint(files)
    ensures FilesAre(files, values[fid := values[fid].(laminated := true)])
  {
    hide FileIs;
    ReprIn(files, fid);
    LaminateFile(files[fid], values[fid]);
  }

  /** What an allocation means for the log as a whole. */
  lemma {:induction false} LogLemma(w: LogHistory.World, bytes: seq<Byte>, n: nat)
    requires Client.LogOk(w) && |bytes| == Client.Capacity(w.ts) && n > 0
             && LogHistory.Allowed(w, LogHistory.DoAlloc(n))
    ensures ValidTiers(w.ts) && !Alloc(w.ts, n).0.Empty?
    ensures var (r, ts') := Alloc(w.ts, n);
            && LogHistory.Step(w, LogHistory.DoAlloc(n)).ts == ts' && MemSize(ts') == MemSize(w.ts)
            && (r.NoSpace? ==> ts' == w.ts)
            && (r.Allocated? ==> r.offset + n <= |bytes|)
  {
    LogHistory.AllocServed(w.ts, n);
    if Alloc(w.ts, n).0.Allocated? {
      Client.AllocFresh(w, n);
    }
    hide Alloc, LogHistory.PlanOf, ValidLog;
  }

  /** The run that performs the operations in order. */
  ghost function TraceOf(ops: seq<Client.Op>): Client.Trace {
    if ops == [] then Client.Start else Client.Then(TraceOf(ops[..|ops| - 1]), ops[|ops| - 1])
  }

  lemma {:induction false} TraceStart(s0: Client.State, ops: seq<Client.Op>)
    ensures Client.After(s0, TraceOf(ops[..0])) == s0
  {
  }

  lemma {:induction false} TraceNext(ops: seq<Client.Op>, i: nat)
    requires i < |ops|
    ensures TraceOf(ops[..i + 1]) == Client.Then(TraceOf(ops[..i]), ops[i])
  {
    assert ops[..i + 1][..i] == ops[..i];
  }

  lemma {:induction false} AllowedPrefix(s0: Client.State, ops: seq<Client.Op>, i: nat)
    requires Client.RunAllowed(s0, TraceOf(ops)) && i <= |ops|
    ensures Client.RunAllowed(s0, TraceOf(ops[..i]))
  {
    if i == |ops| {
      assert ops[..i] == ops;
    } else {
      AllowedPrefix(s0, ops[..|ops| - 1], i);
      assert ops[..|ops| - 1][..i] == ops[..i];
    }
  }

  /** What every operation of an allowed run can count on. */
  lemma {:induction false} Ready(s0: Client.State, ops: seq<Client.Op>, i: nat)
    requires Client.Mounted(s0) && Client.RunAllowed(s0, TraceOf(ops)) && i < |ops|
    ensures var s := Client.After(s0, TraceOf(ops[..i]));
            && Client.LogOk(s.log) && |s.store| == Client.Capacity(s.log.ts) && |s.files| == |s0.files|
            && ValidTiers(s.log.ts)
            && Client.Legal(ops[i]) && Client.AllocAllowed(s, ops[i])
            && Client.After(s0, TraceOf(ops[..i + 1])) == Client.Step(s, ops[i])
  {
    AllowedPrefix(s0, ops, i + 1);
    TraceNext(ops, i);
    hide TraceOf;
    Client.RunInv(s0, TraceOf(ops[..i]));
    Client.AfterFiles(s0, TraceOf(ops[..i]));
    hide Client.FileOk, Client.Contents, Client.Mounted, Client.Step, Client.Capacity, LogHistory.Allowed;
  }

  ghost function WriteCode(s: Client.State, fid: nat, data: seq<Byte>): int
    requires fid < |s.files| && ValidTiers(s.log.ts)
  {
    if data == [] then SUCCESS else if s.files[fid].laminated then EROFS
    else if Client.Accepted(s, fid, data) then SUCCESS else ENOSPC
  }

  lemma {:induction false} Refused(s: Client.State, fid: nat, pos: nat, data: seq<Byte>)
    requires fid < |s.files| && ValidTiers(s.log.ts) && !Client.Accepted(s, fid, data)
    ensures Client.Step(s, Client.DoWrite(fid, pos, data)) == s
    ensures WriteCode(s, fid, data) == if data == [] then SUCCESS else if s.files[fid].laminated then EROFS else ENOSPC
  {
  }

  /** A write that is not empty is refused for space exactly if the file is not laminated and neither one tier nor
      both together hold it. */
  lemma {:induction false} NoSpaceIff(s: Client.State, fid: nat, data: seq<Byte>)
    requires fid < |s.files| && ValidTiers(s.log.ts) && data != []
    ensures WriteCode(s, fid, data) == ENOSPC
            <==> && !s.files[fid].laminated
                 && !LogServed.TierHolds(s.log.ts.shmem, |data|) && !LogServed.TierHolds(s.log.ts.spill, |data|)
                 && !LogServed.BothHold(s.log.ts, |data|)
  {
    hide Alloc, ValidTiers, LogServed.TierHolds, LogServed.BothHold;
    LogServed.AllocIff(s.log.ts, |data|);
  }

  /** In every run that laminated the file, and in no other of a file that was not, a write gives EROFS. */
  lemma {:induction false} ReadOnlyIff(s: Client.State, run: Client.Trace, fid: nat, data: seq<Byte>)
    requires Client.Mounted(s) && Client.RunAllowed(s, run) && fid < |s.files| && data != []
    ensures var now := Client.After(s, run);
            && ValidTiers(now.log.ts) && |now.files| == |s.files|
            && (WriteCode(now, fid, data) == EROFS <==> s.files[fid].laminated || Client.Laminates(run, fid))
  {
    hide Client.Accepted, Client.Mounted, Client.RunAllowed;
    Client.TiersStay(s, run);
    Client.LaminatedIff(s, run, fid);
  }

  lemma {:induction false} Stored(s: Client.State, fid: nat, pos: nat, data: seq<Byte>, at: nat)
    requires fid < |s.files| && ValidTiers(s.log.ts) && data != [] && !s.files[fid].laminated
    requires Alloc(s.log.ts, |data|).0 == Allocated(at) && at + |data| <= |s.store|
    ensures Client.Accepted(s, fid, data) && WriteCode(s, fid, data) == SUCCESS
    ensures Client.Step(s, Client.DoWrite(fid, pos, data))
            == Client.State(LogHistory.Step(s.log, LogHistory.DoAlloc(|data|)), Splice(s.store, at, data),
                            s.files[fid := WriteSpec.Write(s.files[fid], Seg(pos, pos + |data| - 1, at))])
  {
  }

  lemma {:induction false} Final(s0: Client.State, ops: seq<Client.Op>, fid: nat)
    requires Client.Mounted(s0) && Client.RunAllowed(s0, TraceOf(ops)) && fid < |s0.files|
    ensures var s := Client.After(s0, TraceOf(ops));
            |s.files| == |s0.files| && Client.FileOk(s.files[fid], Client.Contents(s0, TraceOf(ops))[fid], s.log,
                                                     s.store)
  {
    hide TraceOf;
    Client.RunInv(s0, TraceOf(ops));
    Client.AfterFiles(s0, TraceOf(ops));
    hide Client.FileOk, Client.Contents, Client.After, Client.LogOk;
  }

  lemma {:induction false} SyncTwice(f: WriteSpec.File)
    ensures WriteSpec.Sync(WriteSpec.Sync(f)) == WriteSpec.Sync(f)
  {
  }

  lemma {:induction false} SyncStep(s: Client.State, fid: nat)
    requires fid < |s.files|
    ensures Client.OnFile(s, fid, WriteSpec.DoSync) == s.(files := s.files[fid := WriteSpec.Sync(s.files[fid])])
  {
  }

  lemma {:induction false} FootprintMore(files: seq<FileMeta>, f: FileMeta)
    ensures Footprint(files + [f]) == Footprint(files) + f.Repr()
  {
    var more := files + [f];
    forall o: object ensures o in Footprint(more) <==> o in Footprint(files) || o in f.Repr() {
      assert f in more;
      if o in Footprint(more) {
        var g: FileMeta :| g in more && o in g.Repr();
        assert g in files || g == f;
      }
      if o in Footprint(files) {
        var g: FileMeta :| g in files && o in g.Repr();
        assert g in more;
      }
    }
  }

  lemma {:induction false} ApartMore(files: seq<FileMeta>, f: FileMeta)
    requires Apart(files) && f.Repr() !! Footprint(files)
    ensures Apart(files + [f])
  {
    hide Footprint;
    var more := files + [f];
    forall i, j | 0 <= i < j < |more| ensures more[i].Repr() !! more[j].Repr() {
      if j == |files| {
        ReprIn(files, i);
      } else {
        assert files[i].Repr() !! files[j].Repr();
      }
    }
  }

  /** One more file that shares nothing with the others. */
  lemma {:induction false} OneMore(files: seq<FileMeta>, values: seq<WriteSpec.File>, f: FileMeta,
                                   value: WriteSpec.File)
    requires Apart(files) && FilesAre(files, values) && FileIs(f, value) && f.Repr() !! Footprint(files)
    ensures Apart(files + [f]) && FilesAre(files + [f], values + [value])
            && Footprint(files + [f]) == Footprint(files) + f.Repr()
  {
    hide FileIs, Apart, Footprint;
    ApartMore(files, f);
    FootprintMore(files, f);
  }

  method NewFile(syncEveryWrite: bool, maxIndexEntries: nat, memSize: nat) returns (f: FileMeta)
    requires WriteSpec.RoomyConfig(syncEveryWrite, maxIndexEntries)
    ensures fresh(f.Repr()) && FileIs(f, WriteSpec.Fresh(true, syncEveryWrite, maxIndexEntries))
    ensures f.memSize == memSize
  {
    f := new FileMeta(true, syncEveryWrite, maxIndexEntries, memSize);
  }

  /** Files without data. */
  method NewFiles(n: nat, syncEveryWrite: bool, maxIndexEntries: nat, memSize: nat)
    returns (files: seq<FileMeta>, ghost values: seq<WriteSpec.File>)
    requires WriteSpec.RoomyConfig(syncEveryWrite, maxIndexEntries)
    ensures |files| == n == |values| && Apart(files) && FilesAre(files, values) && fresh(Footprint(files))
    ensures forall i :: 0 <= i < n ==> values[i] == WriteSpec.Fresh(true, syncEveryWrite, maxIndexEntries)
    ensures forall i :: 0 <= i < n ==> files[i].memSize == memSize
  {
    hide FileIs;
    files, values := [], [];
    for i := 0 to n
      invariant |files| == i == |values| && Apart(files) && FilesAre(files, values) && fresh(Footprint(files))
      invariant forall k :: 0 <= k < i ==> values[k] == WriteSpec.Fresh(true, syncEveryWrite, maxIndexEntries)
      invariant forall k :: 0 <= k < i ==> files[k].memSize == memSize
    {
      hide Apart, FilesAre, Footprint;
      var f := NewFile(syncEveryWrite, maxIndexEntries, memSize);
      ghost var v := WriteSpec.Fresh(true, syncEveryWrite, maxIndexEntries);
      OneMore(files, values, f, v);
      files, values := files + [f], values + [v];
    }
  }

  /** A log without data ranges in it, and its bytes. */
  ghost predicate LogReady(context: LogContext, store: LogStore)
    reads context.Repr(), store.mem, store.file
  {
    && context.Valid() && store.Valid() && store.mem !in context.Repr() && store.file !in context.Repr()
    && store.mem.Length == MemSize(context.State()) && |store.Flat()| == Client.Capacity(context.State())
  }

  class ClientIO {
    const log: LogContext
    const store: LogStore
    const files: seq<FileMeta>
    /** The log ranges handed out. */
    ghost var live: seq<LogHistory.Live>

    ghost function LogRepr(): set<object> {
      {this, store.mem, store.file} + log.Repr()
    }

    ghost predicate Separate() {
      && store.Valid() && store.mem !in log.Repr() && store.file !in log.Repr() && Apart(files)
      && this !in log.Repr() && LogRepr() !! Footprint(files)
    }

    /** The log is in order and has the given value. */
    ghost predicate LogIs(w: LogHistory.World, bytes: seq<Byte>)
      reads LogRepr()
    {
      && log.Valid() && w == LogHistory.World(log.State(), live) && bytes == store.Flat()
      && store.mem.Length == MemSize(w.ts)
    }

    /** The value of this client is `s`. */
    ghost predicate Is(s: Client.State)
      reads LogRepr(), Footprint(files)
    {
      Separate() && LogIs(s.log, s.store) && FilesAre(files, s.files)
    }

    lemma {:induction false} LogValid(s: Client.State)
      requires LogIs(s.log, s.store)
      ensures ValidTiers(s.log.ts)
    {
    }

    constructor (context: LogContext, bytes: LogStore, metas: seq<FileMeta>)
      requires LogReady(context, bytes) && Apart(metas) && context.Repr() + {bytes.mem, bytes.file} !! Footprint(metas)
      ensures log == context && store == bytes && files == metas
      ensures Separate() && LogIs(LogHistory.World(context.State(), []), bytes.Flat())
    {
      log, store, files, live := context, bytes, metas, [];
      new;
      hide Footprint, Apart, LogContext.State;
    }

    /** unifyfs_fid_sync. */
    method Sync(fid: nat, ghost s: Client.State)
      requires Is(s) && fid < |files|
      modifies Footprint(files)
      ensures Is(Client.Step(s, Client.DoSync(fid)))
      ensures fid < |s.files| && Client.Step(s, Client.DoSync(fid)) == Client.OnFile(s, fid, WriteSpec.DoSync)
    {
      hide FileIs, LogIs, Apart, Footprint, ValidTiers;
      LogValid(s);
      SyncIn(files, fid, s.files);
    }

    /** unifyfs_fid_truncate. */
    method Truncate(fid: nat, length: nat, ghost s: Client.State) returns (rc: int)
      requires Is(s) && fid < |files| && length <= WriteSpec.ULONG_MAX
      modifies Footprint(files)
      ensures Is(Client.Step(s, Client.DoTruncate(fid, length)))
      ensures rc == if s.files[fid].laminated then EINVAL else SUCCESS
    {
      hide FileIs, LogIs, Apart, Footprint, ValidTiers;
      LogValid(s);
      var ok := TruncateIn(files, fid, length, s.files);
      rc := if ok then SUCCESS else EINVAL;
    }

    method Laminate(fid: nat, ghost s: Client.State)
      requires Is(s) && fid < |files|
      modifies Footprint(files)
      ensures Is(Client.Step(s, Client.DoLaminate(fid)))
    {
      hide FileIs, LogIs, Apart, Footprint, ValidTiers;
      LogValid(s);
      LaminateIn(files, fid, s.files);
    }

    /** Allocate room in the log and copy the data there; without room nothing changes. */
    method WriteLog(data: seq<Byte>, ghost w: LogHistory.World, ghost bytes: seq<Byte>) returns (at: Option<nat>)
      requires Separate() && LogIs(w, bytes) && Client.LogOk(w) && |bytes| == Client.Capacity(w.ts) && data != []
      requires LogHistory.Allowed(w, LogHistory.DoAlloc(|data|))
      modifies LogRepr()
      ensures ValidTiers(w.ts) && Alloc(w.ts, |data|).0 == if at.Some? then Allocated(at.value) else NoSpace
      ensures at.None? ==> LogIs(w, bytes)
      ensures at.Some? ==> at.value + |data| <= |bytes|
                           && LogIs(LogHistory.Step(w, LogHistory.DoAlloc(|data|)), Splice(bytes, at.value, data))
    {
      LogLemma(w, bytes, |data|);
      hide Client.LogOk, ValidTiers, Alloc, LogHistory.Allowed, Client.Capacity, LogHistory.Step;
      ghost var next := LogHistory.Step(w, LogHistory.DoAlloc(|data|));
      var r := Claim(|data|, w, bytes);
      if !r.Allocated? {
        return None;
      }
      Fill(r.offset, data, next, bytes);
      at := Some(r.offset);
    }

    /** The allocation alone; the log's bytes are as they were. */
    method Claim(n: nat, ghost w: LogHistory.World, ghost bytes: seq<Byte>) returns (r: Outcome)
      requires Separate() && LogIs(w, bytes) && ValidTiers(w.ts) && MemSize(Alloc(w.ts, n).1) == MemSize(w.ts)
      modifies log.Repr()
      ensures r == Alloc(w.ts, n).0 && LogIs(LogHistory.World(Alloc(w.ts, n).1, w.live), bytes)
    {
      hide Alloc, ValidTiers;
      r := log.Alloc(n);
    }

    /** The data goes to the range handed out. */
    method Fill(offset: nat, data: seq<Byte>, ghost w: LogHistory.World, ghost bytes: seq<Byte>)
      requires Separate() && LogIs(LogHistory.World(w.ts, live), bytes) && offset + |data| <= |bytes|
      modifies this, store.mem, store.file
      ensures LogIs(w, Splice(bytes, offset, data))
    {
      hide LogContext.State, LogContext.Valid;
      store.Write(offset, data);
      live := w.live;
    }

    /** unifyfs_fid_write: nothing to write, a laminated file and a full log leave the client alone. */
    method Write(fid: nat, pos: nat, data: seq<Byte>, ghost s: Client.State) returns (rc: int)
      requires Is(s) && Client.LogOk(s.log) && |s.store| == Client.Capacity(s.log.ts)
               && pos + |data| <= WriteSpec.ULONG_MAX
      requires LogHistory.Allowed(s.log, LogHistory.DoAlloc(|data|)) && fid < |files| == |s.files|
               && ValidTiers(s.log.ts)
      modifies LogRepr(), Footprint(files)
      ensures Is(Client.Step(s, Client.DoWrite(fid, pos, data))) && rc == WriteCode(s, fid, data)
    {
      hide LogIs, Apart, ValidTiers, Client.LogOk, Alloc, LogHistory.Allowed, LogRepr, Client.Step, Footprint,
           Client.Capacity;
      hide FileMeta.Valid;
      assert FileIs(files[fid], s.files[fid]);
      if |data| == 0 {
        Refused(s, fid, pos, data);
        return SUCCESS;
      }
      if files[fid].laminated {
        Refused(s, fid, pos, data);
        return EROFS;
      }
      rc := WriteData(fid, pos, data, s);
    }

    method WriteData(fid: nat, pos: nat, data: seq<Byte>, ghost s: Client.State) returns (rc: int)
      requires Is(s) && Client.LogOk(s.log) && |s.store| == Client.Capacity(s.log.ts) && data != []
               && pos + |data| <= WriteSpec.ULONG_MAX
      requires LogHistory.Allowed(s.log, LogHistory.DoAlloc(|data|)) && fid < |files| == |s.files|
               && !s.files[fid].laminated
      requires ValidTiers(s.log.ts)
      modifies LogRepr(), Footprint(files)
      ensures Is(Client.Step(s, Client.DoWrite(fid, pos, data))) && rc == WriteCode(s, fid, data)
    {
      hide FilesAre, LogIs, Apart, ValidTiers, Client.LogOk, Alloc, Splice, LogHistory.Allowed, Client.Step;
      hide WriteSpec.Write, Client.Capacity, LogHistory.Step, WriteCode;
      var at := WriteLog(data, s.log, s.store);
      if at.None? {
        Refused(s, fid, pos, data);
        return ENOSPC;
      }
      Stored(s, fid, pos, data, at.value);
      WriteIn(files, fid, pos, at.value, |data|, s.files);
      rc := SUCCESS;
    }

    /** One operation; a file id the client does not have changes nothing. */
    method Do(op: Client.Op, ghost s: Client.State)
      requires Is(s) && Client.LogOk(s.log) && |s.store| == Client.Capacity(s.log.ts) && Client.Legal(op)
               && Client.AllocAllowed(s, op)
      requires |files| == |s.files| && ValidTiers(s.log.ts)
      modifies LogRepr(), Footprint(files)
      ensures Is(Client.Step(s, op))
    {
      hide Is, Client.LogOk, ValidTiers, Client.Capacity, LogHistory.Allowed, LogRepr, Footprint;
      if op.fid >= |files| {
        return;
      }
      hide Client.Step;
      match op
      case DoWrite(fid, pos, data) => var _ := Write(fid, pos, data, s);
      case DoSync(fid) => Sync(fid, s);
      case DoTruncate(fid, length) => var _ := Truncate(fid, length, s);
      case DoLaminate(fid) => Laminate(fid, s);
    }

    /** Any sequence of operations: the objects end with the value of the run. */
    method Perform(ops: seq<Client.Op>, ghost s0: Client.State)
      requires Is(s0) && Client.Mounted(s0) && Client.RunAllowed(s0, TraceOf(ops)) && |files| == |s0.files|
      modifies LogRepr(), Footprint(files)
      ensures Is(Client.After(s0, TraceOf(ops)))
    {
      hide Is, LogRepr, Footprint, Client.Mounted, Client.RunAllowed, Client.After, Client.Step, TraceOf;
      TraceStart(s0, ops);
      for i := 0 to |ops|
        invariant Is(Client.After(s0, TraceOf(ops[..i])))
      {
        ghost var s := Client.After(s0, TraceOf(ops[..i]));
        Ready(s0, ops, i);
        Do(ops[i], s);
      }
      assert ops[..|ops|] == ops;
    }

    /** Answer a read from the local extents. */
    method Read(fid: nat, req: ReadReq, ghost s: Client.State, ghost content: map<nat, Byte>) returns (haveLocal: bool)
      requires Is(s) && fid < |files| == |s.files| && Client.FileOk(s.files[fid], content, s.log, s.store)
      requires req.Valid() && req.buf !in LogRepr() && req.coverBegin == UNSET && req.coverEnd == UNSET
      modifies req`coverBegin, req`coverEnd, req.buf
      ensures haveLocal <==> Client.AllIn(content, req.offset, req.length)
      ensures haveLocal ==> Client.Returned(req.buf[..], req.length, content, req.offset)
      ensures haveLocal ==> req.coverBegin == 0 && req.coverEnd == req.length - 1
      ensures !haveLocal ==> req.buf[..] == old(req.buf[..]) && req.coverBegin == UNSET && req.coverEnd == UNSET
    {
      assert FileIs(files[fid], s.files[fid]);
      ghost var ss := s.files[fid].extents;
      var extents := files[fid].extents;
      Client.BackedInLog(ss, content, s.log, s.store);
      Client.MappedIsWritten(ss, content, req.offset, req.length);
      assert extents.Map() == ToMap(ss) && Client.Backed(ToMap(ss), content, s.log, s.store);
      assert extents.Valid() && extents.Nodes() == ss && store.Flat() == s.store;
      hide *;
      haveLocal := ServeLocal(extents, store, req);
      if haveLocal {
        Client.FilledIsContent(ss, content, s.log, s.store, req.buf[..], req.length, req.offset);
      }
    }

    /** After any sequence of writes, syncs, truncations and laminations on any number of files, a request
        is served locally exactly when every byte it asks for was written and not truncated since, and
        then the buffer holds the bytes last written and the coverage window is the whole request. */
    method Session(ops: seq<Client.Op>, fid: nat, req: ReadReq, ghost s0: Client.State) returns (haveLocal: bool)
      requires Is(s0) && Client.Mounted(s0) && Client.RunAllowed(s0, TraceOf(ops)) && fid < |files| == |s0.files|
      requires req.Valid() && req.coverBegin == UNSET && req.coverEnd == UNSET
      requires {req, req.buf} !! LogRepr() && {req, req.buf} !! Footprint(files)
      modifies LogRepr(), Footprint(files), req`coverBegin, req`coverEnd, req.buf
      ensures haveLocal <==> Client.AllIn(Client.Contents(s0, TraceOf(ops))[fid], req.offset, req.length)
      ensures haveLocal ==> Client.Returned(req.buf[..], req.length, Client.Contents(s0, TraceOf(ops))[fid], req.offset)
      ensures haveLocal ==> req.coverBegin == 0 && req.coverEnd == req.length - 1
      ensures !haveLocal ==> req.buf[..] == old(req.buf[..]) && req.coverBegin == UNSET && req.coverEnd == UNSET
    {
      ghost var s := Client.After(s0, TraceOf(ops));
      Final(s0, ops, fid);
      hide Is, LogRepr, Footprint, Client.Mounted, Client.RunAllowed, Client.After, Client.Contents, TraceOf,
           Client.FileOk,
           Client.AllIn, Client.Returned;
      Perform(ops, s0);
      haveLocal := Read(fid, req, s, Client.Contents(s0, TraceOf(ops))[fid]);
    }

    /** unifyfs_sync_extents for all files: the file of each descriptor in use. */
    method SyncAll(fds: seq<int>, ghost s: Client.State) returns (ghost s': Client.State)
      requires Is(s) && |files| == |s.files| && forall i :: 0 <= i < |fds| ==> -1 <= fds[i] < |files|
      modifies Footprint(files)
      ensures Is(s') && s' == s.(files := s'.files) && |s'.files| == |s.files|
      ensures forall fid: nat :: fid < |files| ==>
                s'.files[fid] == if fid as int in fds then WriteSpec.Sync(s.files[fid]) else s.files[fid]
    {
      hide Is, Footprint, WriteSpec.Sync;
      s' := s;
      for i := 0 to |fds|
        invariant Is(s') && s' == s.(files := s'.files) && |s'.files| == |s.files|
        invariant forall fid: nat :: fid < |files| ==>
                    s'.files[fid] == if fid as int in fds[..i] then WriteSpec.Sync(s.files[fid]) else s.files[fid]
      {
        if fds[i] != -1 {
          SyncStep(s', fds[i]);
          SyncTwice(s.files[fds[i]]);
          Sync(fds[i], s');
          s' := Client.OnFile(s', fds[i], WriteSpec.DoSync);
        }
        assert fds[..i + 1] == fds[..i] + [fds[i]];
      }
      assert fds[..|fds|] == fds;
    }
  }
}
