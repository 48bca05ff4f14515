/** The client's write metadata for one file on values: the local extents, the extents
    pending for the server, and the map the server has been told so far. */
module WriteSpec {
  import opened Extents

  const ULONG_MAX: nat := 0xFFFF_FFFF_FFFF_FFFF

  datatype File = File(
    local: bool,          // unifyfs_local_extents
    writeSync: bool,      // unifyfs_write_sync
    maxIndex: nat,        // unifyfs_max_index_entries
    laminated: bool,
    needsSync: bool,
    extents: seq<Seg>,    // meta->extents
    pending: seq<Seg>,    // meta->extents_sync
    server: map<nat, nat>)

  /** One entry of the index buffer handed to the server. */
  datatype Entry = Entry(filePos: nat, logPos: nat, length: nat)

  function EntryOf(x: Seg): Entry
    requires Proper(x)
  {
    Entry(x.start, x.ptr, x.end - x.start + 1)
  }

  /** The server overlays the index entries on its map, one after the other. */
  ghost function ApplyIndex(server: map<nat, nat>, index: seq<Entry>): map<nat, nat> {
    if index == [] then server
    else
      var e := index[|index| - 1];
      ApplyIndex(server, index[..|index| - 1])
      + (if e.length == 0 then map[] else SegMap(Seg(e.filePos, e.filePos + e.length - 1, e.logPos)))
  }

  /** `index` is sorted and free of overlaps. */
  ghost predicate SortedIndex(index: seq<Entry>) {
    && (forall i :: 0 <= i < |index| ==> index[i].length > 0)
    && (forall i, j :: 0 <= i < j < |index| ==> index[i].filePos + index[i].length <= index[j].filePos)
  }

  ghost predicate IndexOf(index: seq<Entry>, ss: seq<Seg>)
    requires Ordered(ss)
  {
    |index| == |ss| && forall i :: 0 <= i < |ss| ==> Proper(ss[i]) && index[i] == EntryOf(ss[i])
  }

  /** The rewritten index is sorted, non-overlapping, and loses nothing. */
  lemma {:induction false} IndexLossless(server: map<nat, nat>, index: seq<Entry>, ss: seq<Seg>)
    requires Ordered(ss) && IndexOf(index, ss)
    ensures SortedIndex(index)
    ensures ApplyIndex(server, index) == server + ToMap(ss)
  {
    IndexSorted(index, ss);
    if ss == [] {
      MapEmpty(server);
    } else {
      var n := |ss| - 1;
      IndexInit(index, ss, n);
      IndexLossless(server, index[..n], ss[..n]);
      LastEntry(server, index, ss[..n], ss[n]);
    }
  }

  lemma {:induction false} IndexInit(index: seq<Entry>, ss: seq<Seg>, n: nat)
    requires Ordered(ss) && IndexOf(index, ss) && |ss| == n + 1
    ensures Ordered(ss[..n]) && IndexOf(index[..n], ss[..n])
    ensures Proper(ss[n]) && index[n] == EntryOf(ss[n]) && ss == ss[..n] + [ss[n]]
  {
  }

  lemma {:induction false} LastEntry(server: map<nat, nat>, index: seq<Entry>, init: seq<Seg>, last: Seg)
    requires index != [] && Proper(last) && index[|index| - 1] == EntryOf(last)
    requires ApplyIndex(server, index[..|index| - 1]) == server + ToMap(init)
    ensures ApplyIndex(server, index) == server + ToMap(init + [last])
  {
    hide ToMap, SegMap;
    ToMapConcat(init, [last]);
    ToMapOne(last);
    MapAssoc(server, ToMap(init), SegMap(last));
  }

  lemma {:induction false} IndexSorted(index: seq<Entry>, ss: seq<Seg>)
    requires Ordered(ss) && IndexOf(index, ss)
    ensures SortedIndex(index)
  {
    forall i, j | 0 <= i < j < |index| ensures index[i].filePos + index[i].length <= index[j].filePos {
      assert ss[i].end < ss[j].start;
    }
  }

  // ---------- operations ----------

  /** unifyfs_sync_extents for one file, with a successful RPC. */
  ghost function Sync(f: File): File {
    if !f.needsSync then f else f.(needsSync := false, pending := [], server := f.server + ToMap(f.pending))
  }

  /** `unifyfs_max_index_entries - 2` in unsigned arithmetic. */
  function SyncThreshold(maxIndex: nat): int {
    if maxIndex >= 2 then maxIndex - 2 else maxIndex + ULONG_MAX + 1 - 2
  }

  /** add_write_meta_to_index. */
  ghost function AddWrite(f: File, g: Seg): File {
    var f1 := if f.local then f.(extents := AddNodes(f.extents, g)) else f;
    var f2 := if |f1.pending| >= SyncThreshold(f1.maxIndex) then Sync(f1) else f1;
    f2.(pending := AddNodes(f2.pending, g))
  }

  /** unifyfs_fid_write once the data is in the log at `g.ptr`; a laminated file is read-only. */
  ghost function Write(f: File, g: Seg): File {
    if f.laminated then f
    else
      var f1 := AddWrite(f, g).(needsSync := true);
      if f1.writeSync then Sync(f1) else f1
  }

  /** truncate_write_meta. */
  ghost function TruncateMeta(f: File, length: nat): File {
    var f1 := f.(pending := if length == 0 then [] else Cut(f.pending, length, ULONG_MAX));
    if f1.local then f1.(extents := if length == 0 then [] else Cut(f1.extents, length, ULONG_MAX)) else f1
  }

  ghost function Below(m: map<nat, nat>, length: nat): map<nat, nat> {
    map o | o in m && o < length :: m[o]
  }

  /** unifyfs_fid_truncate: cut the extents, sync what is left, cut the server's map. */
  ghost function Truncate(f: File, length: nat): File {
    if f.laminated then f
    else
      var f1 := Sync(TruncateMeta(f, length));
      f1.(server := Below(f1.server, length))
  }

  // ---------- runs ----------

  datatype Op = DoWrite(g: Seg) | DoSync | DoTruncate(length: nat) | DoLaminate

  datatype Trace = Start | Then(before: Trace, op: Op)

  /** File positions are off_t values, so they fit an unsigned long. */
  ghost predicate Legal(op: Op) {
    && (op.DoWrite? ==> Proper(op.g) && op.g.end <= ULONG_MAX)
    && (op.DoTruncate? ==> op.length <= ULONG_MAX)
  }

  ghost predicate LegalRun(run: Trace) {
    match run
    case Start => true
    case Then(before, op) => LegalRun(before) && Legal(op)
  }

  ghost function Step(f: File, op: Op): File {
    match op
    case DoWrite(g) => Write(f, g)
    case DoSync => Sync(f)
    case DoTruncate(length) => Truncate(f, length)
    case DoLaminate => f.(laminated := true)
  }

  function Fresh(local: bool, writeSync: bool, maxIndex: nat): File {
    File(local, writeSync, maxIndex, false, false, [], [], map[])
  }

  ghost function After(f: File, run: Trace): File {
    match run
    case Start => f
    case Then(before, op) => Step(After(f, before), op)
  }

  /** The file was laminated in the run. */
  ghost predicate Laminates(run: Trace) {
    match run
    case Start => false
    case Then(before, op) => Laminates(before) || op.DoLaminate?
  }

  /** What the writes and truncations of a run amount to, as one map from file offset to log
      position that knows nothing of trees, pending extents or servers. Those after a lamination do not count. */
  ghost function History(run: Trace): map<nat, nat> {
    match run
    case Start => map[]
    case Then(before, op) =>
      var h := History(before);
      if Laminates(before) then h
      else
        match op
        case DoWrite(g) => h + SegMap(g)
        case DoTruncate(length) => Below(h, length)
        case _ => h
  }

  /** What a segment tree keeps: ordered, maximally merged extents within the range of an unsigned long. */
  ghost predicate Tidy(ss: seq<Seg>) {
    Ordered(ss) && Canonical(ss) && EndsBelow(ss, ULONG_MAX + 1)
  }

  /** The invariant of every run. */
  ghost predicate Coherent(f: File, h: map<nat, nat>) {
    && Tidy(f.pending) && Tidy(f.extents)
    && (f.pending != [] ==> f.needsSync)
    && f.server + ToMap(f.pending) == h
    && (f.local ==> ToMap(f.extents) == h)
  }

  // ---------- what the server does not know yet ----------

  /** Only writes, and their number. */
  ghost predicate WritesOnly(run: Trace) {
    match run
    case Start => true
    case Then(before, op) => WritesOnly(before) && op.DoWrite?
  }

  ghost function Ops(run: Trace): nat {
    match run
    case Start => 0
    case Then(before, _) => Ops(before) + 1
  }

  /** Nothing was sent, and there are at most `n` pending extents. */
  ghost predicate Unsent(f: File, maxIndex: nat, n: nat) {
    f.server == map[] && |f.pending| <= n && f.maxIndex == maxIndex && !f.writeSync && !f.laminated
  }

  lemma {:induction false} UnsentStep(f: File, g: Seg, n: nat)
    requires Unsent(f, f.maxIndex, n) && n + 2 < f.maxIndex && Ordered(f.pending) && Proper(g)
    ensures Unsent(Write(f, g), f.maxIndex, n + 2)
  {
    AddNodesLaw(f.pending, g);
    hide AddNodes, ToMap, SegMap, Ordered;
  }

  /** Writes are kept back until the index buffer could run full: nothing has reached the server while twice
      their number is less than its entries. */
  lemma {:induction false} KeptBack(local: bool, maxIndex: nat, run: Trace)
    requires LegalRun(run) && WritesOnly(run) && 2 * Ops(run) < maxIndex
    ensures var f := After(Fresh(local, false, maxIndex), run);
            Unsent(f, maxIndex, 2 * Ops(run)) && ToMap(f.pending) == History(run)
  {
    var f0 := Fresh(local, false, maxIndex);
    RunCoherent(local, false, maxIndex, run);
    match run
    case Start =>
    case Then(before, op) =>
      KeptBack(local, maxIndex, before);
      RunCoherent(local, false, maxIndex, before);
      hide Write, ToMap, History;
      UnsentStep(After(f0, before), op.g, 2 * Ops(before));
      EmptyUnder(ToMap(After(f0, run).pending));
  }

  lemma {:induction false} EmptyUnder(m: map<nat, nat>)
    ensures map[] + m == m
  {
  }

  // ---------- the flush before a sync ----------

  /** The sync flushes the spill file: some file offset among the pending extents reaches the size
      of the shmem log. */
  ghost predicate Flushes(ss: seq<Seg>, memSize: nat) {
    ss != [] && (memSize == 0 || exists i :: 0 <= i < |ss| && ss[i].end >= memSize)
  }

  /** Some pending extent has data in the spill file, which begins at that log position. */
  ghost predicate InSpill(ss: seq<Seg>, memSize: nat) {
    exists i :: 0 <= i < |ss| && ss[i].start <= ss[i].end && ss[i].ptr + (ss[i].end - ss[i].start) >= memSize
  }

  lemma {:induction false} SyncCoherent(f: File, h: map<nat, nat>)
    requires Coherent(f, h)
    ensures Coherent(Sync(f), h) && Sync(f).pending == [] && !Sync(f).needsSync
  {
    if f.needsSync {
      assert f.server + ToMap(f.pending) + map[] == f.server + ToMap(f.pending);
    } else {
      assert f.pending == [];
    }
  }

  lemma {:induction false} PendingBounded(ss: seq<Seg>)
    requires EndsBelow(ss, ULONG_MAX + 1)
    ensures forall o :: o in ToMap(ss) ==> o <= ULONG_MAX
  {
    forall o | o in ToMap(ss) ensures o <= ULONG_MAX { ToMapDomain(ss, o); }
  }

  lemma {:induction false} AddWriteCoherent(f: File, g: Seg, h: map<nat, nat>)
    requires Coherent(f, h) && Proper(g) && g.end <= ULONG_MAX
    ensures Coherent(AddWrite(f, g).(needsSync := true), h + SegMap(g))
  {
    hide Tidy, AddNodes, ToMap, SegMap, SyncThreshold;
    var plain := if |f.pending| >= SyncThreshold(f.maxIndex) then Sync(f) else f;
    SyncCoherent(f, h);
    AddNodesKeep(f.extents, g);
    AddNodesKeep(plain.pending, g);
    MapAssoc(plain.server, ToMap(plain.pending), SegMap(g));
    var f' := AddWrite(f, g);
    assert f'.pending == AddNodes(plain.pending, g) && f'.server == plain.server;
  }

  lemma {:induction false} AddNodesKeep(ss: seq<Seg>, g: Seg)
    requires Tidy(ss) && Proper(g) && g.end <= ULONG_MAX
    ensures Tidy(AddNodes(ss, g))
    ensures ToMap(AddNodes(ss, g)) == ToMap(ss) + SegMap(g)
  {
    AddNodesLaw(ss, g);
    AddNodesCanonical(ss, g);
    AddNodesBelow(ss, g, ULONG_MAX + 1);
  }

  lemma {:induction false} WriteCoherent(f: File, g: Seg, h: map<nat, nat>)
    requires Coherent(f, h) && Proper(g) && g.end <= ULONG_MAX && !f.laminated
    ensures Coherent(Write(f, g), h + SegMap(g))
  {
    AddWriteCoherent(f, g, h);
    SyncCoherent(AddWrite(f, g).(needsSync := true), h + SegMap(g));
    hide Coherent, Sync;
  }

  /** Cutting at the truncation point keeps exactly the offsets below it. */
  lemma {:induction false} CutTruncates(ss: seq<Seg>, length: nat)
    requires Tidy(ss) && length <= ULONG_MAX
    ensures var c := if length == 0 then [] else Cut(ss, length, ULONG_MAX);
            Tidy(c) && ToMap(c) == Below(ToMap(ss), length)
  {
    if length > 0 {
      CutOrdered(ss, length, ULONG_MAX);
      CutCanonical(ss, length, ULONG_MAX);
      CutBelow(ss, length, ULONG_MAX, ULONG_MAX + 1);
      CutMap(ss, length, ULONG_MAX);
      PendingBounded(ss);
      MinusIsBelow(ToMap(ss), length);
    } else {
      assert Below(ToMap(ss), 0) == map[];
    }
  }

  lemma {:induction false} MinusIsBelow(m: map<nat, nat>, length: nat)
    requires forall o :: o in m ==> o <= ULONG_MAX
    ensures m - Range(length, ULONG_MAX) == Below(m, length)
  {
  }

  lemma {:induction false} BelowOverlay(a: map<nat, nat>, b: map<nat, nat>, length: nat)
    ensures Below(a + Below(b, length), length) == Below(a + b, length)
  {
  }

  lemma {:induction false} TruncateCoherent(f: File, length: nat, h: map<nat, nat>)
    requires Coherent(f, h) && length <= ULONG_MAX && !f.laminated
    ensures Coherent(Truncate(f, length), Below(h, length))
  {
    hide Tidy, Cut, Below, ToMap;
    CutTruncates(f.pending, length);
    CutTruncates(f.extents, length);
    BelowOverlay(f.server, ToMap(f.pending), length);
    TidyEmpty(length);
    var f1, f2 := TruncateMeta(f, length), Truncate(f, length);
    if !f.needsSync {
      MapEmpty(f.server);
      assert f1.pending == [];
      assert f2.server == Below(h, length);
    } else {
      assert f1.server + ToMap(f1.pending) == f.server + Below(ToMap(f.pending), length);
      assert f2.server == Below(h, length);
    }
    MapEmpty(f2.server);
  }

  lemma {:induction false} MapEmpty(m: map<nat, nat>)
    ensures m + map[] == m
  {
  }

  lemma {:induction false} TidyEmpty(length: nat)
    ensures Tidy([]) && ToMap([]) == map[] && Cut([], length, ULONG_MAX) == []
  {
  }

  /** In every run of writes, syncs and truncations the server's map overlaid with the pending
      extents is the history of the run, and so are the local extents. */
  lemma {:induction false} RunCoherent(local: bool, writeSync: bool, maxIndex: nat, run: Trace)
    requires LegalRun(run)
    ensures var f := Fresh(local, writeSync, maxIndex); Coherent(After(f, run), History(run))
  {
    var f := Fresh(local, writeSync, maxIndex);
    match run
    case Start => FreshCoherent(f);
    case Then(before, op) =>
      RunCoherent(local, writeSync, maxIndex, before);
      LaminatedIff(f, before);
      StepCoherent(After(f, before), op, History(before));
      hide Coherent, Step;
  }

  /** A file is laminated for good, and by nothing else. */
  lemma {:induction false} LaminatedIff(f: File, run: Trace)
    ensures After(f, run).laminated <==> f.laminated || Laminates(run)
  {
    match run
    case Start =>
    case Then(before, op) =>
      LaminatedIff(f, before);
      hide AddNodes, Cut, Below, ToMap, SyncThreshold;
  }

  /** `run` goes on from `base`. */
  ghost predicate Extends(run: Trace, base: Trace) {
    run == base || (run.Then? && Extends(run.before, base))
  }

  /** After a lamination nothing changes what the file contains: neither its history nor its extents. */
  lemma {:induction false} Frozen(f: File, run: Trace, base: Trace)
    requires Extends(run, base) && Laminates(base)
    ensures History(run) == History(base) && Laminates(run)
    ensures After(f, run).laminated && After(f, run).extents == After(f, base).extents
  {
    LaminatedIff(f, base);
    if run != base {
      Frozen(f, run.before, base);
      hide AddNodes, Cut, Below, ToMap, SegMap;
    }
  }

  lemma {:induction false} FreshCoherent(f: File)
    requires f.pending == [] && f.extents == [] && f.server == map[]
    ensures Coherent(f, map[])
  {
    assert ToMap([]) == map[];
    assert f.server + map[] == map[];
  }

  lemma {:induction false} StepCoherent(f: File, op: Op, h: map<nat, nat>)
    requires Coherent(f, h) && Legal(op)
    ensures Coherent(Step(f, op),
                     if f.laminated then h
                     else match op case DoWrite(g) => h + SegMap(g) case DoTruncate(n) => Below(h, n) case _ => h)
  {
    match op
    case DoWrite(g) => if !f.laminated { WriteCoherent(f, g, h); }
    case DoSync => SyncCoherent(f, h);
    case DoTruncate(length) => if !f.laminated { TruncateCoherent(f, length, h); }
    case DoLaminate =>
  }

  // ---------- the index buffer ----------

  /** The write would leave more pending extents than the index buffer has entries. */
  ghost predicate Overflows(f: File, g: Seg) {
    !f.laminated && |AddWrite(f, g).pending| > f.maxIndex
  }

  /** Between operations there is always room for one more write. */
  ghost predicate Room(f: File) {
    && (f.writeSync ==> f.pending == [])
    && (f.maxIndex >= 2 ==> |f.pending| <= f.maxIndex - 1)
  }

  lemma {:induction false} AddToEmpty(g: Seg)
    ensures AddNodes([], g) == [g]
  {
  }

  lemma {:induction false} AddWriteRoom(f: File, g: Seg, h: map<nat, nat>)
    requires Coherent(f, h) && Proper(g) && Room(f) && RoomyConfig(f.writeSync, f.maxIndex)
    ensures |AddWrite(f, g).pending| <= f.maxIndex
    ensures f.maxIndex >= 2 ==> |AddWrite(f, g).pending| <= f.maxIndex - 1
  {
    AddToEmpty(g);
    AddNodesLaw(f.pending, g);
    hide AddNodes, ToMap, Tidy;
  }

  lemma {:induction false} StepRoom(f: File, op: Op, h: map<nat, nat>)
    requires Coherent(f, h) && Legal(op) && Room(f) && RoomyConfig(f.writeSync, f.maxIndex)
    ensures Room(Step(f, op))
  {
    match op
    case DoWrite(g) => AddWriteRoom(f, g, h); hide AddWrite, Coherent;
    case DoSync =>
    case DoTruncate(length) => TidyEmpty(length);
    case DoLaminate =>
  }

  /** Configurations for which the code is safe. */
  ghost predicate RoomyConfig(writeSync: bool, maxIndex: nat) {
    maxIndex >= if writeSync then 1 else 2
  }

  lemma {:induction false} RunRoom(local: bool, writeSync: bool, maxIndex: nat, run: Trace)
    requires LegalRun(run) && RoomyConfig(writeSync, maxIndex)
    ensures var f := After(Fresh(local, writeSync, maxIndex), run);
            Room(f) && f.maxIndex == maxIndex && f.writeSync == writeSync
  {
    if run.Then? {
      var f := Fresh(local, writeSync, maxIndex);
      RunRoom(local, writeSync, maxIndex, run.before);
      RunCoherent(local, writeSync, maxIndex, run.before);
      StepRoom(After(f, run.before), run.op, History(run.before));
      ConfigKept(After(f, run.before), run.op);
      hide Room, Coherent, Step;
    }
  }

  lemma {:induction false} ConfigKept(f: File, op: Op)
    ensures Step(f, op).maxIndex == f.maxIndex && Step(f, op).writeSync == f.writeSync
  {
  }

  ghost predicate CanOverflow(local: bool, writeSync: bool, maxIndex: nat, run: Trace, g: Seg) {
    LegalRun(run) && Legal(DoWrite(g)) && Overflows(After(Fresh(local, writeSync, maxIndex), run), g)
  }

  lemma {:induction false} TwoSeparate(a: Seg, b: Seg)
    requires Proper(a) && Proper(b) && a.end + 1 < b.start
    ensures AddNodes([a], b) == [a, b]
  {
    assert Pieces(a, b.start, b.end) == [a];
    CutOne(a, b.start, b.end);
    assert [a][1..] == [];
    assert Rank([a], b.start) == 1;
    assert [a][..1] == [a] && [a][1..] == [];
  }

  lemma {:induction false} SmallOverflows(local: bool, writeSync: bool, maxIndex: nat) returns (run: Trace, g: Seg)
    requires !RoomyConfig(writeSync, maxIndex)
    ensures CanOverflow(local, writeSync, maxIndex, run, g)
  {
    var first, second := Seg(0, 0, 0), Seg(2, 2, 0);
    assert Legal(DoWrite(first)) && Legal(DoWrite(second)) && first.end + 1 < second.start;
    hide *;
    run, g := OverflowAfter(local, writeSync, maxIndex, first, second);
  }

  /** With no room for an entry the first write overflows; with room for one, a second write apart from it. */
  lemma {:induction false} OverflowAfter(local: bool, writeSync: bool, maxIndex: nat, first: Seg, second: Seg)
    returns (run: Trace, g: Seg)
    requires !RoomyConfig(writeSync, maxIndex) && Legal(DoWrite(first)) && Legal(DoWrite(second))
             && first.end + 1 < second.start
    ensures CanOverflow(local, writeSync, maxIndex, run, g)
  {
    AddToEmpty(first);
    TwoSeparate(first, second);
    hide AddNodes;
    assert LegalRun(Start);
    run, g := Start, first;
    if maxIndex > 0 {
      run, g := Then(Start, DoWrite(first)), second;
      OneEntry(local, writeSync, maxIndex, first);
      hide After;
    }
  }

  /** The first write of a client that can hold one entry is pending. */
  lemma {:induction false} OneEntry(local: bool, writeSync: bool, maxIndex: nat, g: Seg)
    requires !writeSync && maxIndex == 1 && Proper(g)
    ensures var f := After(Fresh(local, writeSync, maxIndex), Then(Start, DoWrite(g)));
            f.pending == [g] && f.maxIndex == maxIndex
  {
    AddToEmpty(g);
    hide AddNodes;
    var f := Fresh(local, writeSync, maxIndex);
    assert After(f, Start) == f;
    assert After(f, Then(Start, DoWrite(g))) == Write(f, g);
  }

  /** Some run overflows the index buffer exactly when the buffer holds fewer than two entries,
      or no entry at all if every write is followed by a sync. */
  lemma {:induction false} OverflowIff(local: bool, writeSync: bool, maxIndex: nat)
    ensures (exists run, g :: CanOverflow(local, writeSync, maxIndex, run, g)) <==> !RoomyConfig(writeSync, maxIndex)
  {
    if !RoomyConfig(writeSync, maxIndex) {
      var run, g := SmallOverflows(local, writeSync, maxIndex);
    } else {
      forall run, g ensures !CanOverflow(local, writeSync, maxIndex, run, g) {
        if LegalRun(run) && Legal(DoWrite(g)) {
          RunRoom(local, writeSync, maxIndex, run);
          RunCoherent(local, writeSync, maxIndex, run);
          AddWriteRoom(After(Fresh(local, writeSync, maxIndex), run), g,
                       History(run));
        }
      }
    }
  }
}
