/** A client with several files on one write log, on values: whatever was last written and not truncated
    since is what the extents of the file point at. */
module Client {
  import opened Bits
  import opened Extents
  import opened LogSpec
  import opened LogStore
  import opened LocalRead
  import LogHistory
  import LogSmall
  import SlotSpec
  import WriteSpec

  /** The log allocator, the bytes of the log, and the files by local file id. */
  datatype State = State(log: LogHistory.World, store: seq<Byte>, files: seq<WriteSpec.File>)

  datatype Op =
    | DoWrite(fid: nat, pos: nat, data: seq<Byte>)
    | DoSync(fid: nat)
    | DoTruncate(fid: nat, length: nat)
    | DoLaminate(fid: nat)

  datatype Trace = Start | Then(before: Trace, op: Op)

  ghost function Capacity(ts: Tiers): nat {
    MemSize(ts) + if ts.spill.Some? then ts.spill.value.dataSz else 0
  }

  /** unifyfs_fid_write goes through: there is something to write, the file is not laminated and
      the log has room. */
  ghost predicate Accepted(s: State, fid: nat, data: seq<Byte>)
    requires fid < |s.files| && ValidTiers(s.log.ts)
  {
    data != [] && !s.files[fid].laminated && Alloc(s.log.ts, |data|).0.Allocated?
  }

  /** unifyfs_fid_write with full log writes: allocate, copy the data, record the extent. A refused
      write changes nothing. The range handed out always lies inside the log, see `AllocFresh`. */
  ghost function Write(s: State, fid: nat, pos: nat, data: seq<Byte>): State
    requires fid < |s.files| && ValidTiers(s.log.ts)
  {
    if !Accepted(s, fid, data) then s
    else
      var offset := Alloc(s.log.ts, |data|).0.offset;
      if offset + |data| > |s.store| then s
      else
        State(LogHistory.Step(s.log, LogHistory.DoAlloc(|data|)),
              Splice(s.store, offset, data),
              s.files[fid := WriteSpec.Write(s.files[fid], Seg(pos, pos + |data| - 1, offset))])
  }

  ghost function OnFile(s: State, fid: nat, op: WriteSpec.Op): State
    requires fid < |s.files|
  {
    s.(files := s.files[fid := WriteSpec.Step(s.files[fid], op)])
  }

  ghost function Step(s: State, op: Op): State {
    if op.fid >= |s.files| || !ValidTiers(s.log.ts) then s
    else
      match op
      case DoWrite(fid, pos, data) => Write(s, fid, pos, data)
      case DoSync(fid) => OnFile(s, fid, WriteSpec.DoSync)
      case DoTruncate(fid, length) => OnFile(s, fid, WriteSpec.DoTruncate(length))
      case DoLaminate(fid) => OnFile(s, fid, WriteSpec.DoLaminate)
  }

  ghost function After(s: State, run: Trace): State {
    match run
    case Start => s
    case Then(before, op) => Step(After(s, before), op)
  }

  // ---------- what the files contain, without extents or logs ----------

  ghost function Cropped(m: map<nat, Byte>, length: nat): map<nat, Byte> {
    map o | o in m && o < length :: m[o]
  }

  /** What one operation makes of the contents: an accepted write overlays its bytes, a truncation
      drops those behind the new end, nothing else matters. */
  ghost function Effect(s: State, op: Op, contents: seq<map<nat, Byte>>): seq<map<nat, Byte>>
    requires |contents| == |s.files|
  {
    if op.fid >= |s.files| || !ValidTiers(s.log.ts) || s.files[op.fid].laminated then contents
    else
      match op
      case DoWrite(fid, pos, data) =>
        if Accepted(s, fid, data) then contents[fid := contents[fid] + Bytes(pos, data)] else contents
      case DoTruncate(fid, length) => contents[fid := Cropped(contents[fid], length)]
      case _ => contents
  }

  lemma {:induction false} StepFiles(s: State, op: Op)
    ensures |Step(s, op).files| == |s.files|
  {
  }

  lemma {:induction false} AfterFiles(s: State, run: Trace)
    ensures |After(s, run).files| == |s.files|
  {
    match run
    case Start =>
    case Then(before, op) =>
      AfterFiles(s, before);
      StepFiles(After(s, before), op);
  }

  /** The bytes of every file after a run, by file offset. */
  ghost function Contents(s: State, run: Trace): (r: seq<map<nat, Byte>>)
    ensures |r| == |s.files|
  {
    match run
    case Start => seq(|s.files|, _ => map[])
    case Then(before, op) =>
      AfterFiles(s, before);
      Effect(After(s, before), op, Contents(s, before))
  }

  /** One more operation, byte by byte: an accepted write puts its data there, a truncation of a file that is not
      laminated removes what is behind, and every other byte of every file stays. */
  lemma {:induction false} ContentsAt(s: State, run: Trace, op: Op, fid: nat, o: nat)
    requires fid < |s.files| && ValidTiers(After(s, run).log.ts)
    ensures |After(s, run).files| == |s.files|
    ensures var m, m', now := Contents(s, run)[fid], Contents(s, Then(run, op))[fid], After(s, run);
            if op.fid == fid && op.DoWrite? && Accepted(now, fid, op.data) && op.pos <= o < op.pos + |op.data| then
              o in m' && m'[o] == op.data[o - op.pos]
            else if op.fid == fid && op.DoTruncate? && !now.files[fid].laminated && o >= op.length then o !in m'
            else (o in m' <==> o in m) && (o in m ==> m'[o] == m[o])
  {
    hide After, Alloc, ValidTiers, Bytes;
    AfterFiles(s, run);
    if op.DoWrite? { BytesDomain(op.pos, op.data, o); }
  }

  // ---------- the invariant ----------

  ghost predicate InLive(live: seq<LogHistory.Live>, p: nat) {
    exists i :: 0 <= i < |live| && Owns(live[i], p)
  }

  ghost predicate Owns(r: LogHistory.Live, p: nat) {
    r.offset <= p < r.offset + r.nbytes
  }

  /** The extents cover exactly the contents, point at its bytes, and only into allocated ranges. */
  ghost predicate Backed(extents: map<nat, nat>, content: map<nat, Byte>, log: LogHistory.World, store: seq<Byte>) {
    && extents.Keys == content.Keys
    && forall o :: o in extents ==> HoldsByte(extents[o], content[o], log, store)
  }

  ghost predicate HoldsByte(p: nat, b: Byte, log: LogHistory.World, store: seq<Byte>) {
    p < |store| && store[p] == b && InLive(log.live, p)
  }

  ghost predicate FileOk(f: WriteSpec.File, content: map<nat, Byte>, log: LogHistory.World, store: seq<Byte>) {
    f.local && WriteSpec.Coherent(f, ToMap(f.extents)) && Backed(ToMap(f.extents), content, log, store)
  }

  /** The log allocator is in order, with every live range below the slot totals. */
  ghost predicate LogOk(w: LogHistory.World) {
    && LogHistory.Good(w) && LogHistory.SafeTier(w.ts.shmem) && LogHistory.SafeTier(w.ts.spill)
    && forall i :: 0 <= i < |w.live| ==> LogHistory.BelowTotal(w.ts.spill, w.live[i].file)
  }

  ghost predicate Inv(s: State, contents: seq<map<nat, Byte>>) {
    && LogOk(s.log) && |s.store| == Capacity(s.log.ts) && |contents| == |s.files|
    && forall i :: 0 <= i < |s.files| ==> FileOk(s.files[i], contents[i], s.log, s.store)
  }

  /** A live range lies inside the log. */
  lemma {:induction false} LiveInside(ts: Tiers, r: LogHistory.Live)
    requires ValidTiers(ts) && LogHistory.Holds(ts, r) && LogHistory.BelowTotal(ts.spill, r.file)
    ensures r.offset + r.nbytes <= Capacity(ts)
  {
    if LogHistory.MemShape(ts, r) {
      LogHistory.EndsInChunks(r.mem.0, r.mem.1, r.nbytes, ts.shmem.value.chunkSz);
      LogHistory.ChunksInData(ts.shmem.value, r.mem.0 + r.mem.1);
    } else if LogHistory.FileShape(ts, r) {
      LogHistory.EndsInChunks(r.file.0, r.file.1, r.nbytes, ts.spill.value.chunkSz);
      LogHistory.ChunksInData(ts.spill.value, r.file.0 + r.file.1);
    } else {
      LogHistory.SpanEnd(ts, r);
      LogHistory.ChunksInData(ts.spill.value, r.file.1);
    }
  }

  /** The log got one more range, which `data` now fills. */
  ghost predicate Appended(log: LogHistory.World, log': LogHistory.World, size: nat, offset: nat, n: nat) {
    && |log'.live| == |log.live| + 1 && log'.live[..|log.live|] == log.live && offset + n <= size
    && log'.live[|log.live|].offset == offset && log'.live[|log.live|].nbytes == n
    && forall i :: 0 <= i < |log.live| ==> LogHistory.RangesApart(log.live[i], log'.live[|log.live|])
  }

  /** What an accepted write does to the log: a new live range in bounds and apart from all others. */
  lemma {:induction false} AllocFresh(w: LogHistory.World, nbytes: nat)
    requires LogOk(w) && LogHistory.Allowed(w, LogHistory.DoAlloc(nbytes)) && nbytes > 0
    requires Alloc(w.ts, nbytes).0.Allocated?
    ensures var w' := LogHistory.Step(w, LogHistory.DoAlloc(nbytes));
            && LogOk(w') && Capacity(w'.ts) == Capacity(w.ts)
            && Appended(w, w', Capacity(w.ts), Alloc(w.ts, nbytes).0.offset, nbytes)
  {
    LogHistory.StepGood(w, LogHistory.DoAlloc(nbytes));
    var w' := LogHistory.Step(w, LogHistory.DoAlloc(nbytes));
    var n := |w.live|;
    AllocCapacity(w, nbytes);
    LiveInside(w'.ts, w'.live[n]);
    forall i | 0 <= i < n ensures LogHistory.RangesApart(w.live[i], w'.live[n]) {
      assert w'.live[i] == w.live[i] && LogHistory.ApartLive(w'.live[i], w'.live[n]);
      LogHistory.LiveDisjoint(w'.ts, w'.live[i], w'.live[n]);
    }
    hide ValidTiers, Alloc, LogHistory.Holds, LogHistory.ApartLive, LogHistory.PlanOf;
  }

  lemma {:induction false} AllocCapacity(w: LogHistory.World, nbytes: nat)
    requires LogOk(w) && nbytes > 0 && Alloc(w.ts, nbytes).0.Allocated?
    ensures var w' := LogHistory.Step(w, LogHistory.DoAlloc(nbytes));
            && Capacity(w'.ts) == Capacity(w.ts) && LogHistory.SafeTier(w'.ts.spill)
            && forall i :: 0 <= i < |w'.live| ==> LogHistory.BelowTotal(w'.ts.spill, w'.live[i].file)
  {
    hide ValidLog, Alloc, LogHistory.PlanOf, LogHistory.Holds, LogHistory.HeldIn, LogHistory.ApartLive;
    hide SlotSpec.ReserveSlot, SlotSpec.Reserve, BytesToChunks, ChunkBytes;
    LogHistory.AllocServed(w.ts, nbytes);
    var p := LogHistory.PlanOf(w.ts, nbytes);
    var (r, ts') := Alloc(w.ts, nbytes);
    if p.InFile? || p.Span? {
      LogHistory.TookHeld(w.ts.spill, ts'.spill, if p.InFile? then p.slot else 0, p.n);
    }
  }

  /** Writing to a fresh range leaves every byte in use alone. */
  lemma {:induction false} OldByte(p: nat, b: Byte, log: LogHistory.World, log': LogHistory.World, store: seq<Byte>,
                                   offset: nat, data: seq<Byte>)
    requires HoldsByte(p, b, log, store) && offset + |data| <= |store|
    requires |log'.live| == |log.live| + 1 && log'.live[..|log.live|] == log.live
    requires log'.live[|log.live|].offset == offset && log'.live[|log.live|].nbytes == |data|
    requires forall i :: 0 <= i < |log.live| ==> LogHistory.RangesApart(log.live[i], log'.live[|log.live|])
    ensures HoldsByte(p, b, log', Splice(store, offset, data))
  {
    var i :| 0 <= i < |log.live| && Owns(log.live[i], p);
    assert log'.live[i] == log.live[i] && Owns(log'.live[i], p);
  }

  lemma {:induction false} NewByte(o: nat, pos: nat, data: seq<Byte>, log': LogHistory.World, store: seq<Byte>,
                                   offset: nat)
    requires InSpan(o, pos, |data|) && offset + |data| <= |store| && log'.live != []
    requires log'.live[|log'.live| - 1].offset == offset && log'.live[|log'.live| - 1].nbytes == |data|
    ensures HoldsByte(offset + (o - pos), data[o - pos], log', Splice(store, offset, data))
  {
    assert Owns(log'.live[|log'.live| - 1], offset + (o - pos));
  }

  lemma {:induction false} BackedKept(m: map<nat, nat>, content: map<nat, Byte>, log: LogHistory.World,
                                      log': LogHistory.World, store: seq<Byte>, offset: nat, data: seq<Byte>)
    requires Backed(m, content, log, store) && Appended(log, log', |store|, offset, |data|)
    ensures Backed(m, content, log', Splice(store, offset, data))
  {
    forall o | o in m ensures HoldsByte(m[o], content[o], log', Splice(store, offset, data)) {
      OldByte(m[o], content[o], log, log', store, offset, data);
    }
  }

  lemma {:induction false} SameKeys(m: map<nat, nat>, content: map<nat, Byte>, pos: nat, data: seq<Byte>, offset: nat)
    requires m.Keys == content.Keys && data != []
    ensures (m + SegMap(Seg(pos, pos + |data| - 1, offset))).Keys == (content + Bytes(pos, data)).Keys
  {
    forall o: nat ensures o in m + SegMap(Seg(pos, pos + |data| - 1, offset)) <==> o in content + Bytes(pos, data) {
      assert o in m.Keys <==> o in content.Keys;
      assert InSpan(o, pos, |data|) <==> Within(o, pos, pos + |data| - 1);
    }
  }

  lemma {:induction false} BackedOver(m: map<nat, nat>, content: map<nat, Byte>, log: LogHistory.World,
                                      log': LogHistory.World, store: seq<Byte>, offset: nat, pos: nat, data: seq<Byte>)
    requires Backed(m, content, log, store) && Appended(log, log', |store|, offset, |data|) && data != []
    ensures Backed(m + SegMap(Seg(pos, pos + |data| - 1, offset)), content + Bytes(pos, data), log',
                   Splice(store, offset, data))
  {
    var m', content' := m + SegMap(Seg(pos, pos + |data| - 1, offset)), content + Bytes(pos, data);
    SameKeys(m, content, pos, data, offset);
    forall o | o in m' ensures HoldsByte(m'[o], content'[o], log', Splice(store, offset, data)) {
      if Within(o, pos, pos + |data| - 1) {
        assert InSpan(o, pos, |data|);
        NewByte(o, pos, data, log', store, offset);
      } else {
        assert o in m;
        OldByte(m[o], content[o], log, log', store, offset, data);
      }
    }
  }

  lemma {:induction false} BackedCropped(m: map<nat, nat>, content: map<nat, Byte>, log: LogHistory.World,
                                         store: seq<Byte>, length: nat)
    requires Backed(m, content, log, store)
    ensures Backed(WriteSpec.Below(m, length), Cropped(content, length), log, store)
  {
    hide HoldsByte;
    assert WriteSpec.Below(m, length).Keys == Cropped(content, length).Keys by {
      forall o: nat ensures o in WriteSpec.Below(m, length) <==> o in Cropped(content, length) {
        assert o in m.Keys <==> o in content.Keys;
      }
    }
  }

  /** What a legal call passes: file positions and lengths are off_t values. */
  ghost predicate Legal(op: Op) {
    && (op.DoWrite? ==> op.pos + |op.data| <= WriteSpec.ULONG_MAX)
    && (op.DoTruncate? ==> op.length <= WriteSpec.ULONG_MAX)
  }

  /** The allocator's silent assumption about requests that span both tiers. */
  ghost predicate AllocAllowed(s: State, op: Op) {
    op.DoWrite? ==> LogHistory.Allowed(s.log, LogHistory.DoAlloc(|op.data|))
  }

  ghost predicate RunAllowed(s: State, run: Trace) {
    match run
    case Start => true
    case Then(before, op) => RunAllowed(s, before) && Legal(op) && AllocAllowed(After(s, before), op)
  }

  lemma {:induction false} WriteFile(f: WriteSpec.File, content: map<nat, Byte>, log: LogHistory.World,
                                     log': LogHistory.World, store: seq<Byte>, offset: nat, pos: nat, data: seq<Byte>)
    requires FileOk(f, content, log, store) && !f.laminated && data != [] && pos + |data| <= WriteSpec.ULONG_MAX
    requires Appended(log, log', |store|, offset, |data|)
    ensures FileOk(WriteSpec.Write(f, Seg(pos, pos + |data| - 1, offset)), content + Bytes(pos, data), log',
                   Splice(store, offset, data))
  {
    var g := Seg(pos, pos + |data| - 1, offset);
    var m := ToMap(f.extents);
    WriteSpec.WriteCoherent(f, g, m);
    BackedOver(m, content, log, log', store, offset, pos, data);
    var f' := WriteSpec.Write(f, g);
    assert f'.local;
    assert ToMap(f'.extents) == m + SegMap(g);
    hide Backed, WriteSpec.Write, Splice, Bytes, Appended;
  }

  lemma {:induction false} StepFile(f: WriteSpec.File, op: WriteSpec.Op, content: map<nat, Byte>, log: LogHistory.World,
                                    store: seq<Byte>)
    requires FileOk(f, content, log, store) && !op.DoWrite? && WriteSpec.Legal(op)
    ensures FileOk(WriteSpec.Step(f, op),
                   if op.DoTruncate? && !f.laminated then Cropped(content, op.length) else content, log, store)
  {
    var m := ToMap(f.extents);
    WriteSpec.StepCoherent(f, op, m);
    if op.DoTruncate? { BackedCropped(m, content, log, store, op.length); }
    var f' := WriteSpec.Step(f, op);
    assert f'.local;
    hide Backed, WriteSpec.Step;
  }

  lemma {:induction false} OtherFiles(s: State, contents: seq<map<nat, Byte>>, log': LogHistory.World, offset: nat,
                                      data: seq<Byte>)
    requires |contents| == |s.files| && Appended(s.log, log', |s.store|, offset, |data|)
    requires forall i :: 0 <= i < |s.files| ==> FileOk(s.files[i], contents[i], s.log, s.store)
    ensures forall i :: 0 <= i < |s.files| ==> FileOk(s.files[i], contents[i], log', Splice(s.store, offset, data))
  {
    forall i | 0 <= i < |s.files| ensures FileOk(s.files[i], contents[i], log', Splice(s.store, offset, data)) {
      BackedKept(ToMap(s.files[i].extents), contents[i], s.log, log', s.store, offset, data);
    }
    hide Appended, Backed, WriteSpec.Coherent;
  }

  lemma {:induction false} WriteInv(s: State, fid: nat, pos: nat, data: seq<Byte>, contents: seq<map<nat, Byte>>)
    requires Inv(s, contents) && fid < |s.files| && pos + |data| <= WriteSpec.ULONG_MAX && Accepted(s, fid, data)
    requires LogHistory.Allowed(s.log, LogHistory.DoAlloc(|data|))
    ensures Inv(Write(s, fid, pos, data), contents[fid := contents[fid] + Bytes(pos, data)])
  {
    assert ValidTiers(s.log.ts);
    hide FileOk, LogOk, LogHistory.Step, LogHistory.Allowed, Alloc, Bytes, WriteSpec.Write, ValidTiers, Capacity,
         Splice;
    AllocFresh(s.log, |data|);
    var offset := Alloc(s.log.ts, |data|).0.offset;
    var log' := LogHistory.Step(s.log, LogHistory.DoAlloc(|data|));
    assert offset + |data| <= |s.store|;
    hide Appended;
    SpliceLength(s.store, offset, data);
    WriteFile(s.files[fid], contents[fid], s.log, log', s.store, offset, pos, data);
    OtherFiles(s, contents, log', offset, data);
    var file' := WriteSpec.Write(s.files[fid], Seg(pos, pos + |data| - 1, offset));
    assert Write(s, fid, pos, data) == State(log', Splice(s.store, offset, data), s.files[fid := file']);
    hide Write;
  }

  lemma {:induction false} SpliceLength(store: seq<Byte>, at: nat, data: seq<Byte>)
    requires at + |data| <= |store|
    ensures |Splice(store, at, data)| == |store|
  {
  }

  lemma {:induction false} StepInv(s: State, op: Op, contents: seq<map<nat, Byte>>)
    requires Inv(s, contents) && Legal(op) && AllocAllowed(s, op)
    ensures |contents| == |s.files| && Inv(Step(s, op), Effect(s, op, contents))
  {
    if op.fid < |s.files| {
      match op
      case DoWrite(fid, pos, data) =>
        if Accepted(s, fid, data) { WriteInv(s, fid, pos, data, contents); }
      case DoSync(fid) => StepFile(s.files[fid], WriteSpec.DoSync, contents[fid], s.log, s.store);
      case DoTruncate(fid, length) => StepFile(s.files[fid], WriteSpec.DoTruncate(length), contents[fid], s.log,
                                               s.store);
      case DoLaminate(fid) => StepFile(s.files[fid], WriteSpec.DoLaminate, contents[fid], s.log, s.store);
    }
    hide FileOk, LogOk, Write, Accepted, WriteSpec.Step, Cropped;
  }

  /** A client that has just mounted: an empty log and files without data, local extents on. */
  ghost predicate Mounted(s: State) {
    && ValidTiers(s.log.ts) && LogHistory.SafeTier(s.log.ts.shmem) && LogHistory.SafeTier(s.log.ts.spill)
    && s.log.live == [] && |s.store| == Capacity(s.log.ts)
    && forall i :: 0 <= i < |s.files| ==> s.files[i].local && s.files[i].extents == [] && s.files[i].pending == []
                                          && s.files[i].server == map[]
  }

  lemma {:induction false} RunInv(s: State, run: Trace)
    requires Mounted(s) && RunAllowed(s, run)
    ensures Inv(After(s, run), Contents(s, run))
  {
    match run
    case Start =>
      forall i | 0 <= i < |s.files| ensures FileOk(s.files[i], map[], s.log, s.store) {
        WriteSpec.FreshCoherent(s.files[i]);
      }
    case Then(before, op) =>
      RunInv(s, before);
      StepInv(After(s, before), op, Contents(s, before));
  }

  // ---------- lamination ----------

  ghost predicate Laminates(run: Trace, fid: nat) {
    match run
    case Start => false
    case Then(before, op) => Laminates(before, fid) || (op.DoLaminate? && op.fid == fid)
  }

  ghost predicate Extends(run: Trace, base: Trace) {
    run == base || (run.Then? && Extends(run.before, base))
  }

  lemma {:induction false} StepLaminated(s: State, op: Op, fid: nat)
    requires ValidTiers(s.log.ts) && fid < |s.files|
    ensures |Step(s, op).files| == |s.files|
    ensures Step(s, op).files[fid].laminated <==> s.files[fid].laminated || (op.DoLaminate? && op.fid == fid)
  {
    hide ValidTiers, Alloc, Splice, LogHistory.Step, AddNodes, Cut, ToMap, WriteSpec.Below;
  }

  lemma {:induction false} TiersStay(s: State, run: Trace)
    requires Mounted(s) && RunAllowed(s, run)
    ensures ValidTiers(After(s, run).log.ts) && |After(s, run).files| == |s.files|
  {
    RunInv(s, run);
    AfterFiles(s, run);
    hide After, Contents, FileOk;
  }

  /** A file of the client is laminated in the runs that laminate it, and in no others. */
  lemma {:induction false} LaminatedIff(s: State, run: Trace, fid: nat)
    requires Mounted(s) && RunAllowed(s, run) && fid < |s.files|
    ensures |After(s, run).files| == |s.files|
    ensures After(s, run).files[fid].laminated <==> s.files[fid].laminated || Laminates(run, fid)
  {
    match run
    case Start =>
    case Then(before, op) =>
      hide Step, Mounted;
      LaminatedIff(s, before, fid);
      TiersStay(s, before);
      StepLaminated(After(s, before), op, fid);
  }

  /** Once a file is laminated no write is accepted any more, and whatever happens its contents stay. */
  lemma {:induction false} Frozen(s: State, run: Trace, base: Trace, fid: nat)
    requires Mounted(s) && RunAllowed(s, run) && Extends(run, base) && Laminates(base, fid) && fid < |s.files|
    ensures Laminates(run, fid) && Contents(s, run)[fid] == Contents(s, base)[fid]
    ensures |After(s, run).files| == |s.files| && ValidTiers(After(s, run).log.ts)
    ensures forall data :: !Accepted(After(s, run), fid, data)
  {
    TiersStay(s, run);
    if run != base {
      Frozen(s, run.before, base, fid);
      TiersStay(s, run.before);
      LaminatedIff(s, run.before, fid);
      FrozenStep(s, run, fid);
      hide After, Contents;
    }
    LaminatedIff(s, run, fid);
    hide Mounted, RunAllowed, ValidTiers, Step, Alloc, Effect;
  }

  lemma {:induction false} FrozenStep(s: State, run: Trace, fid: nat)
    requires run.Then? && fid < |s.files| == |After(s, run.before).files| && After(s, run.before).files[fid].laminated
    ensures Contents(s, run)[fid] == Contents(s, run.before)[fid]
  {
    hide After, Alloc, ValidTiers, Cropped, Bytes;
  }

  // ---------- runs whose writes cannot span ----------

  /** Operations that need no assumption about the allocator. */
  ghost predicate SmallRun(ts: Tiers, run: Trace) {
    match run
    case Start => true
    case Then(before, op) =>
      SmallRun(ts, before) && Legal(op) && (op.DoWrite? ==> LogSmall.NeverSpans(ts, |op.data|))
  }

  lemma {:induction false} StepLog(s: State, op: Op)
    ensures Step(s, op).log == s.log
            || (op.DoWrite? && Step(s, op).log == LogHistory.Step(s.log, LogHistory.DoAlloc(|op.data|)))
  {
    hide LogHistory.Step, Alloc, ValidTiers;
  }

  lemma {:induction false} SmallStep(ts: Tiers, s: State, op: Op)
    requires LogSmall.SameSizes(ts, s.log.ts) && LogSmall.OneTierEach(s.log.live)
    requires op.DoWrite? ==> LogSmall.NeverSpans(ts, |op.data|)
    ensures AllocAllowed(s, op)
    ensures LogSmall.SameSizes(ts, Step(s, op).log.ts) && LogSmall.OneTierEach(Step(s, op).log.live)
  {
    hide Step, LogHistory.Step, LogHistory.Allowed, LogSmall.OneTierEach;
    StepLog(s, op);
    if op.DoWrite? {
      LogSmall.StepAllowed(s.log, LogHistory.DoAlloc(|op.data|));
      LogSmall.StepSizes(s.log, LogHistory.DoAlloc(|op.data|));
    }
  }

  /** If every write fits one shmem chunk, or a tier is missing, the allocator's silent assumption holds. */
  lemma {:induction false} SmallAllowed(s: State, run: Trace)
    requires s.log.live == [] && SmallRun(s.log.ts, run)
    ensures RunAllowed(s, run)
    ensures LogSmall.SameSizes(s.log.ts, After(s, run).log.ts) && LogSmall.OneTierEach(After(s, run).log.live)
  {
    match run
    case Start =>
    case Then(before, op) =>
      hide Step, AllocAllowed, LogSmall.SameSizes, LogSmall.OneTierEach;
      SmallAllowed(s, before);
      SmallStep(s.log.ts, After(s, before), op);
  }

  // ---------- reading back ----------

  lemma {:induction false} BackedInLog(ss: seq<Seg>, content: map<nat, Byte>, log: LogHistory.World, store: seq<Byte>)
    requires Ordered(ss) && Backed(ToMap(ss), content, log, store)
    ensures InLog(ss, |store|)
  {
    forall i | 0 <= i < |ss| ensures Proper(ss[i]) && ss[i].ptr + (ss[i].end - ss[i].start) < |store| {
      ToMapAt(ss, i, ss[i].end);
      assert HoldsByte(ToMap(ss)[ss[i].end], content[ss[i].end], log, store);
    }
  }

  ghost predicate AllIn(content: map<nat, Byte>, offset: nat, length: nat) {
    forall o: nat :: InSpan(o, offset, length) ==> o in content
  }

  ghost predicate IsAt(content: map<nat, Byte>, o: nat, b: Byte) {
    o in content && content[o] == b
  }

  /** The first `n` bytes of the buffer are those of the file from `offset` on. */
  ghost predicate Returned(buf: seq<Byte>, n: nat, content: map<nat, Byte>, offset: nat) {
    n <= |buf| && forall i: nat :: i < n ==> IsAt(content, offset + i, buf[i])
  }

  lemma {:induction false} FilledIsContent(ss: seq<Seg>, content: map<nat, Byte>, log: LogHistory.World,
                                           store: seq<Byte>, buf: seq<Byte>, n: nat, offset: nat)
    requires Backed(ToMap(ss), content, log, store) && Filled(buf, n, ToMap(ss), offset, store)
    ensures Returned(buf, n, content, offset)
  {
    forall i: nat | i < n ensures IsAt(content, offset + i, buf[i]) {
      var b, o := buf[i], offset + i;
      assert o in ToMap(ss) && b == store[ToMap(ss)[o]];
      assert o in content.Keys;
      assert HoldsByte(ToMap(ss)[o], content[o], log, store);
    }
  }

  lemma {:induction false} MappedIsWritten(ss: seq<Seg>, content: map<nat, Byte>, offset: nat, length: nat)
    requires ToMap(ss).Keys == content.Keys
    ensures Mapped(ss, offset, offset + length) <==> AllIn(content, offset, length)
  {
    if Mapped(ss, offset, offset + length) {
      forall o: nat | InSpan(o, offset, length) ensures o in content {
        assert o in ToMap(ss).Keys;
      }
    }
    if AllIn(content, offset, length) {
      forall o: nat | offset <= o < offset + length ensures o in ToMap(ss) {
        assert InSpan(o, offset, length) && o in content.Keys;
      }
    }
  }
}
