/** unifyfs-fixed.c and the write, truncate and sync entry points of unifyfs.c, for one file:
    two segment trees, the index buffer shared with the server, and the needs_sync flag. */
module WriteIndex {
  import opened Wrappers
  import opened Extents
  import opened WriteSpec
  import SegTree

  /** One entry for each of the first extents, and the largest file offset among these. */
  ghost predicate Indexed(entries: seq<Entry>, ss: seq<Seg>, maxOffset: nat) {
    && |entries| <= |ss|
    && (forall i :: 0 <= i < |entries| ==> Proper(ss[i]) && entries[i] == EntryOf(ss[i]) && ss[i].end <= maxOffset)
    && (maxOffset == 0 || exists i :: 0 <= i < |entries| && ss[i].end == maxOffset)
  }

  lemma {:induction false} IndexedNext(entries: seq<Entry>, ss: seq<Seg>, maxOffset: nat)
    requires Ordered(ss) && Indexed(entries, ss, maxOffset) && |entries| < |ss|
    ensures var x := ss[|entries|];
            Proper(x) && Indexed(entries + [EntryOf(x)], ss, if x.end > maxOffset then x.end else maxOffset)
  {
    var n := |entries|;
    var x := ss[n];
    var entries' := entries + [EntryOf(x)];
    if x.end > maxOffset {
      assert n < |entries'| && ss[n].end == x.end;
    }
  }

  lemma {:induction false} IndexedAll(entries: seq<Entry>, ss: seq<Seg>, maxOffset: nat)
    requires Ordered(ss) && Indexed(entries, ss, maxOffset) && |entries| == |ss|
    ensures IndexOf(entries, ss) && EndsBelow(ss, maxOffset + 1)
    ensures maxOffset == 0 || exists i :: 0 <= i < |ss| && ss[i].end == maxOffset
  {
  }

  lemma {:induction false} WriteRefused(f: File, g: Seg)
    requires f.laminated
    ensures WriteSpec.Write(f, g) == f
  {
  }

  class FileMeta {
    const local: bool
    const writeSync: bool
    /** Where the spill file begins in the log: the data size of the shmem log, 0 without one. */
    const memSize: nat
    const extents: SegTree.SegTree
    const pending: SegTree.SegTree
    const index: array<Entry>
    var numEntries: nat
    var laminated: bool
    var needsSync: bool
    /** What the server knows, changed only by the sync and truncate calls to it. */
    ghost var server: map<nat, nat>
    /** What the writes and truncations so far amount to. */
    ghost var history: map<nat, nat>

    ghost function Repr(): set<object> {
      {this, extents, pending, index}
    }

    ghost function State(): File
      reads this, extents, pending
    {
      File(local, writeSync, index.Length, laminated, needsSync, extents.Nodes(), pending.Nodes(), server)
    }

    ghost predicate TreesValid()
      reads extents, pending
    {
      extents != pending && extents.Valid() && pending.Valid() && extents.max <= ULONG_MAX && pending.max <= ULONG_MAX
    }

    ghost predicate Valid()
      reads this, extents, pending
    {
      && TreesValid() && RoomyConfig(writeSync, index.Length)
      && Coherent(State(), history) && Room(State())
    }

    constructor (localExtents: bool, syncEveryWrite: bool, maxIndexEntries: nat, memSize: nat)
      requires RoomyConfig(syncEveryWrite, maxIndexEntries)
      ensures Valid() && State() == Fresh(localExtents, syncEveryWrite, maxIndexEntries) && history == map[]
      ensures this.memSize == memSize
      ensures fresh(extents) && fresh(pending) && fresh(index)
    {
      local, writeSync := localExtents, syncEveryWrite;
      this.memSize := memSize;
      extents := new SegTree.SegTree();
      pending := new SegTree.SegTree();
      index := new Entry[maxIndexEntries](_ => Entry(0, 0, 0));
      numEntries, laminated, needsSync := 0, false, false;
      server, history := map[], map[];
      new;
      FreshCoherent(State());
    }

    method PutEntry(idx: nat, e: Entry)
      requires idx < index.Length
      modifies index
      ensures index[..idx + 1] == old(index[..idx]) + [e]
    {
      index[idx] := e;
    }

    /** The loop over the pending extents: one entry each, in order. The maximum it keeps is of
        file offsets, although the source calls it a log offset. */
    method FillIndex() returns (idx: nat, maxOffset: nat)
      requires pending.Valid() && |pending.Nodes()| <= index.Length
      modifies index
      ensures idx == |pending.Nodes()| && IndexOf(index[..idx], pending.Nodes())
      ensures EndsBelow(pending.Nodes(), maxOffset + 1)
      ensures maxOffset == 0 || exists i :: 0 <= i < idx && pending.Nodes()[i].end == maxOffset
    {
      ghost var ss := pending.Nodes();
      assert Ordered(ss);
      idx, maxOffset := 0, 0;
      assert Indexed(index[..idx], ss, maxOffset);
      hide SegTree.SegTree.Valid, SegTree.SegTree.Nodes, Ordered, Indexed, IndexOf, EndsBelow;
      var node := pending.Iter(None, 0);
      while node.Some?
        invariant idx <= |ss| && node == if idx < |ss| then Some(ss[idx]) else None
        invariant Indexed(index[..idx], ss, maxOffset)
        decreases |ss| - idx
      {
        IndexedNext(index[..idx], ss, maxOffset);
        PutEntry(idx, Entry(node.value.start, node.value.ptr, node.value.end - node.value.start + 1));
        if node.value.end > maxOffset {
          maxOffset := node.value.end;
        }
        node := pending.Iter(node, idx);
        idx := idx + 1;
      }
      IndexedAll(index[..idx], ss, maxOffset);
    }

    /** unifyfs_rewrite_index_from_seg_tree: fill the index buffer, then clear the tree. */
    method RewriteIndex() returns (maxOffset: nat)
      requires TreesValid() && |pending.Nodes()| <= index.Length
      modifies this`numEntries, index, pending
      ensures TreesValid() && pending.Nodes() == []
      ensures numEntries <= index.Length && IndexOf(index[..numEntries], old(pending.Nodes()))
      ensures EndsBelow(old(pending.Nodes()), maxOffset + 1)
      ensures var ss := old(pending.Nodes());
              maxOffset == 0 || exists i :: 0 <= i < |ss| && ss[i].end == maxOffset
    {
      var idx;
      idx, maxOffset := FillIndex();
      pending.Clear();
      numEntries := idx;
    }

    /** unifyfs_sync_extents for this file; the flush and the call to the server succeed. Says
        whether the spill file was flushed. */
    method SyncExtents() returns (flushed: bool)
      requires TreesValid() && |pending.Nodes()| <= index.Length
      modifies this`numEntries, this`needsSync, this`server, index, pending
      ensures TreesValid() && State() == WriteSpec.Sync(old(State())) && history == old(history)
      ensures flushed <==> old(needsSync) && Flushes(old(pending.Nodes()), memSize)
    {
      flushed := false;
      if needsSync {
        ghost var ss := pending.Nodes();
        var maxOffset := RewriteIndex();
        IndexLossless(server, index[..numEntries], ss);
        if numEntries == 0 {
          needsSync := false;
          return;
        }
        flushed := maxOffset >= memSize;
        // the server grabs the index and overlays it on its map
        server := ApplyIndex(server, index[..numEntries]);
        needsSync := false;
        numEntries := 0;
      }
    }

    /** Add an extent to one of the trees. */
    method AddExtent(tree: SegTree.SegTree, g: Seg)
      requires TreesValid() && Proper(g) && g.end <= ULONG_MAX && (tree == extents || tree == pending)
      modifies tree
      ensures TreesValid() && tree.Nodes() == AddNodes(old(tree.Nodes()), g)
    {
      tree.Add(g.start, g.end, g.ptr);
    }

    /** add_write_meta_to_index. */
    method AddWriteMeta(filePos: nat, logPos: nat, length: nat)
      requires Valid() && length > 0 && filePos + length - 1 <= ULONG_MAX
      modifies this`numEntries, this`needsSync, this`server, index, pending, extents
      ensures TreesValid() && history == old(history)
      ensures State() == AddWrite(old(State()), Seg(filePos, filePos + length - 1, logPos))
    {
      var g := Seg(filePos, filePos + length - 1, logPos);
      assert |pending.Nodes()| <= index.Length;
      hide Valid, AddNodes, SyncThreshold, WriteSpec.Sync;
      AddLocal(g);
      AddPending(g);
    }

    /** The extents of this client, if it keeps them. */
    method AddLocal(g: Seg)
      requires TreesValid() && Proper(g) && g.end <= ULONG_MAX
      modifies extents
      ensures TreesValid() && pending.Nodes() == old(pending.Nodes())
      ensures State() == if local then old(State()).(extents := AddNodes(old(State()).extents, g)) else old(State())
    {
      hide AddNodes;
      if local {
        AddExtent(extents, g);
      }
    }

    /** The extents not synced yet, synced first if the index buffer would get too full. */
    method AddPending(g: Seg)
      requires TreesValid() && |pending.Nodes()| <= index.Length && Proper(g) && g.end <= ULONG_MAX
      modifies this`numEntries, this`needsSync, this`server, index, pending
      ensures TreesValid() && history == old(history)
      ensures var f := old(State());
              var f1 := if |f.pending| >= SyncThreshold(f.maxIndex) then WriteSpec.Sync(f) else f;
              State() == f1.(pending := AddNodes(f1.pending, g))
    {
      assert pending.count == |pending.Nodes()|;
      hide TreesValid, AddNodes, SyncThreshold, WriteSpec.Sync;
      if pending.count >= SyncThreshold(index.Length) {
        var _ := SyncExtents();
      }
      AddExtent(pending, g);
    }

    /** unifyfs_fid_write, after the data went to the log at `logPos`; false stands for EROFS. */
    method Write(filePos: nat, logPos: nat, length: nat) returns (ok: bool)
      requires Valid() && length > 0 && filePos + length - 1 <= ULONG_MAX
      modifies this, index, pending, extents
      ensures Valid() && ok == !old(laminated)
      ensures State() == WriteSpec.Write(old(State()), Seg(filePos, filePos + length - 1, logPos))
      ensures history == if ok then old(history) + SegMap(Seg(filePos, filePos + length - 1, logPos)) else old(history)
    {
      hide TreesValid, SegMap, Coherent, Room, RoomyConfig, WriteSpec.Write;
      ghost var f, g := State(), Seg(filePos, filePos + length - 1, logPos);
      if laminated {
        WriteRefused(f, g);
        return false;
      }
      WriteCoherent(f, g, history);
      StepRoom(f, DoWrite(g), history);
      WriteMeta(filePos, logPos, length);
      history := history + SegMap(g);
      return true;
    }

    method WriteMeta(filePos: nat, logPos: nat, length: nat)
      requires Valid() && length > 0 && filePos + length - 1 <= ULONG_MAX && !laminated
      modifies this`numEntries, this`needsSync, this`server, index, pending, extents
      ensures TreesValid() && history == old(history)
      ensures State() == WriteSpec.Write(old(State()), Seg(filePos, filePos + length - 1, logPos))
    {
      AddWriteRoom(State(), Seg(filePos, filePos + length - 1, logPos), history);
      hide Valid, TreesValid, AddWrite, WriteSpec.Sync;
      AddWriteMeta(filePos, logPos, length);
      needsSync := true;
      if writeSync {
        var _ := SyncExtents();
      }
    }

    /** truncate_write_meta. */
    method TruncateMeta(length: nat)
      requires Valid() && length <= ULONG_MAX
      modifies pending, extents
      ensures TreesValid() && State() == WriteSpec.TruncateMeta(old(State()), length)
      ensures |pending.Nodes()| <= old(|pending.Nodes()|)
    {
      if length == 0 {
        pending.Clear();
        if local {
          extents.Clear();
        }
      } else {
        pending.Remove(length, ULONG_MAX);
        if local {
          extents.Remove(length, ULONG_MAX);
        }
      }
    }

    method CutAndSync(length: nat)
      requires Valid() && length <= ULONG_MAX
      modifies this`numEntries, this`needsSync, this`server, index, pending, extents
      ensures TreesValid() && State() == WriteSpec.Sync(WriteSpec.TruncateMeta(old(State()), length))
              && history == old(history)
    {
      assert |pending.Nodes()| <= index.Length;
      hide Valid, TreesValid, WriteSpec.TruncateMeta;
      TruncateMeta(length);
      if needsSync {
        hide WriteSpec.Sync;
        var _ := SyncExtents();
      }
    }

    /** unifyfs_fid_truncate; false stands for EINVAL. The calls to the server succeed. */
    method Truncate(length: nat) returns (ok: bool)
      requires Valid() && length <= ULONG_MAX
      modifies this, index, pending, extents
      ensures Valid() && ok == !old(laminated)
      ensures State() == WriteSpec.Truncate(old(State()), length)
      ensures history == if ok then Below(old(history), length) else old(history)
    {
      ghost var f := State();
      hide TreesValid, Coherent, Room, RoomyConfig, Below, WriteSpec.TruncateMeta, WriteSpec.Sync;
      if laminated {
        return false;
      }
      TruncateCoherent(f, length, history);
      StepRoom(f, DoTruncate(length), history);
      CutAndSync(length);
      server := Below(server, length);
      history := Below(history, length);
      return true;
    }

    /** unifyfs_fid_sync. */
    method Sync() returns (flushed: bool)
      requires Valid()
      modifies this, index, pending
      ensures Valid() && State() == WriteSpec.Sync(old(State())) && history == old(history)
      ensures server == history && pending.Nodes() == []
      ensures flushed <==> old(needsSync) && Flushes(old(pending.Nodes()), memSize)
    {
      SyncCoherent(State(), history);
      StepRoom(State(), DoSync, history);
      assert |pending.Nodes()| <= index.Length;
      assert forall m: map<nat, nat> :: m + map[] == m;
      flushed := false;
      if needsSync {
        flushed := SyncExtents();
      }
    }
  }
}
