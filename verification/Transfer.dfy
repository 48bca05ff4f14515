/** client_transfer.c: a file copied by all ranks together, each taking its share of the chunks. */
module Transfer {
  import opened Arith
  import opened Bits
  import opened FlatFile

  /** UNIFYFS_TX_BUFSIZE. */
  const BUF: nat := 8388608

  // ---------- who copies what ----------

  datatype Range = Range(offset: nat, len: nat)

  predicate In(r: Range, i: nat) {
    r.offset <= i < r.offset + r.len
  }

  /** Number of chunks of a file, the last one possibly short. */
  function Total(size: nat): nat {
    size / BUF + if size % BUF != 0 then 1 else 0
  }

  /** The ranges one rank copies: a file of few chunks goes to rank 0 alone; otherwise each rank gets
      the same number of whole chunks, and the first ranks one of the remaining chunks each. */
  function Ranges(size: nat, ranks: nat, rank: nat): seq<Range>
    requires rank < ranks
  {
    var total := Total(size);
    var per, rem := total / ranks, total % ranks;
    if total <= ranks then (if rank == 0 then [Range(0, size)] else [])
    else
      [Range(per * rank * BUF, per * BUF)]
      + (if rank < rem
         then [Range((total - rem + rank) * BUF, if size % BUF != 0 && rank == rem - 1 then size % BUF else BUF)]
         else [])
  }

  /** Byte `i` is in range `k` of `rank`. */
  predicate Owns(size: nat, ranks: nat, rank: nat, k: nat, i: nat) {
    rank < ranks && k < |Ranges(size, ranks, rank)| && In(Ranges(size, ranks, rank)[k], i)
  }

  lemma {:induction false} Split(total: nat, ranks: nat, per: nat, rem: nat)
    requires ranks > 0 && per == total / ranks && rem == total % ranks
    ensures total - rem == per * ranks && (total > ranks ==> per >= 1)
  {
    assert total == ranks * per + rem;
  }

  /** The whole chunks of a rank. */
  lemma {:induction false} MainIff(per: nat, rank: nat, i: nat)
    ensures In(Range(per * rank * BUF, per * BUF), i) <==> per * rank <= i / BUF < per * rank + per
  {
    var a := per * rank;
    assert a * BUF + per * BUF == (a + per) * BUF;
  }

  /** A chunk belongs to the whole chunks of exactly one rank, if it is one of those handed out evenly. */
  lemma {:induction false} MainOwner(per: nat, ranks: nat, c: nat) returns (rank: nat)
    requires per > 0 && c < per * ranks
    ensures rank < ranks && per * rank <= c < per * rank + per
  {
    rank := c / per;
    DivBounds(c, per, rank);
    if ranks < rank {
      MulGap(ranks, rank, per);
    }
  }

  lemma {:induction false} MainUnique(per: nat, a: nat, b: nat, c: nat)
    requires per * a <= c < per * a + per && per * b <= c < per * b + per
    ensures a == b
  {
    if a < b { MulGap(a, b, per); }
    if b < a { MulGap(b, a, per); }
  }

  /** Every byte of the file is in some range. */
  lemma {:induction false} Covered(size: nat, ranks: nat, i: nat) returns (rank: nat, k: nat)
    requires ranks > 0 && i < size
    ensures Owns(size, ranks, rank, k, i)
  {
    var total := Total(size);
    var per, rem := total / ranks, total % ranks;
    rank, k := 0, 0;
    if total > ranks {
      Split(total, ranks, per, rem);
      var c := i / BUF;
      if c < per * ranks {
        rank := MainOwner(per, ranks, c);
        MainIff(per, rank, i);
      } else {
        rank, k := c - per * ranks, 1;
        assert rank < rem;
        assert total - rem + rank == c;
      }
    }
  }

  /** No byte of the file is in two. */
  lemma {:induction false} OwnedOnce(size: nat, ranks: nat, i: nat, rank: nat, k: nat, rank': nat, k': nat)
    requires i < size && Owns(size, ranks, rank, k, i) && Owns(size, ranks, rank', k', i)
    ensures rank == rank' && k == k'
  {
    var total := Total(size);
    var per, rem := total / ranks, total % ranks;
    if total > ranks {
      Split(total, ranks, per, rem);
      var c := i / BUF;
      ChunkOf(size, ranks, rank, k, i, total, per, rem);
      ChunkOf(size, ranks, rank', k', i, total, per, rem);
      if k == 0 && k' == 0 {
        MainUnique(per, rank, rank', c);
      }
    }
  }

  lemma {:induction false} ChunkOf(size: nat, ranks: nat, rank: nat, k: nat, i: nat, total: nat, per: nat, rem: nat)
    requires Owns(size, ranks, rank, k, i) && total == Total(size) > ranks
    requires per == total / ranks && rem == total % ranks && total - rem == per * ranks && per >= 1
    ensures k <= 1
    ensures k == 0 ==> per * rank <= i / BUF < per * rank + per && i / BUF < per * ranks
    ensures k == 1 ==> i / BUF == per * ranks + rank
  {
    if k == 0 {
      MainIff(per, rank, i);
      if rank + 1 < ranks { MulGap(rank + 1, ranks, per); }
      assert (rank + 1) * per == per * rank + per;
    }
  }

  // ---------- copying ----------

  /** One read from the source and the write of what was read at the same offset. */
  datatype Step = Step(pos: nat, n: nat)

  /** The reads do_transfer_data makes for `count` bytes from `offset` on, once `processed` bytes are
      done: whole buffers, or the whole count if that is less, until the file or the count ends. */
  function DataSteps(size: nat, offset: nat, count: nat, processed: nat): seq<Step>
    decreases count - processed
  {
    if count <= processed || size <= offset + processed then []
    else
      var len := if BUF > count then count else BUF;
      var n := if size - (offset + processed) < len then size - (offset + processed) else len;
      [Step(offset + processed, len)] + DataSteps(size, offset, count, processed + n)
  }

  function RangeSteps(size: nat, ranges: seq<Range>): seq<Step> {
    if ranges == [] then []
    else
      var n := |ranges| - 1;
      RangeSteps(size, ranges[..n]) + DataSteps(size, ranges[n].offset, ranges[n].len, 0)
  }

  /** All a rank does, in its order. */
  function RankSteps(size: nat, ranks: nat, rank: nat): seq<Step>
    requires rank < ranks
  {
    RangeSteps(size, Ranges(size, ranks, rank))
  }

  predicate Hits(st: Step, i: nat) {
    st.pos <= i < st.pos + st.n
  }

  function Copy(src: seq<Byte>, dst: seq<Byte>, st: Step): seq<Byte> {
    FileWrite(dst, st.pos, FileRead(src, st.pos, st.n))
  }

  function Run(src: seq<Byte>, dst: seq<Byte>, steps: seq<Step>): seq<Byte> {
    if steps == [] then dst else Copy(src, Run(src, dst, steps[..|steps| - 1]), steps[|steps| - 1])
  }

  /** Some step reaches byte `i`. */
  ghost predicate HitBy(steps: seq<Step>, i: nat) {
    exists st :: st in steps && Hits(st, i)
  }

  lemma {:induction false} CopyAt(src: seq<Byte>, dst: seq<Byte>, st: Step, i: nat)
    ensures |dst| <= |Copy(src, dst, st)| && (|Copy(src, dst, st)| <= |dst| || |Copy(src, dst, st)| <= |src|)
    ensures Hits(st, i) && i < |src| ==> i < |Copy(src, dst, st)| && Copy(src, dst, st)[i] == src[i]
    ensures !(Hits(st, i) && i < |src|) && i < |dst| ==> Copy(src, dst, st)[i] == dst[i]
  {
    var data := FileRead(src, st.pos, st.n);
    if data != [] {
      FileWriteAt(dst, st.pos, data, i);
    }
  }

  /** In whatever order the steps are taken, a byte that some step reaches is copied, and no other
      byte of the destination changes. */
  lemma {:induction false} RunAt(src: seq<Byte>, dst: seq<Byte>, steps: seq<Step>, i: nat)
    ensures |dst| <= |Run(src, dst, steps)| && (|Run(src, dst, steps)| <= |dst| || |Run(src, dst, steps)| <= |src|)
    ensures HitBy(steps, i) && i < |src| ==> i < |Run(src, dst, steps)| && Run(src, dst, steps)[i] == src[i]
    ensures !(HitBy(steps, i) && i < |src|) && i < |dst| ==> Run(src, dst, steps)[i] == dst[i]
  {
    if steps != [] {
      var n := |steps| - 1;
      var before, last := steps[..n], steps[n];
      RunAt(src, dst, before, i);
      CopyAt(src, Run(src, dst, before), last, i);
      HitSplit(steps, before, last, i);
      hide Copy, Hits;
    }
  }

  lemma {:induction false} HitSplit(steps: seq<Step>, before: seq<Step>, last: Step, i: nat)
    requires steps == before + [last]
    ensures HitBy(steps, i) <==> HitBy(before, i) || Hits(last, i)
  {
    if HitBy(before, i) {
      var st :| st in before && Hits(st, i);
      assert st in steps;
    }
    if Hits(last, i) {
      assert last in steps;
    }
  }

  lemma {:induction false} HitMore(steps: seq<Step>, mixed: seq<Step>, i: nat)
    requires HitBy(steps, i) && forall st :: st in steps ==> st in mixed
    ensures HitBy(mixed, i)
  {
  }

  // ---------- what the steps of a rank reach ----------

  lemma {:induction false} DataReach(size: nat, offset: nat, count: nat, processed: nat, i: nat)
    requires offset + processed <= i < offset + count && i < size
    ensures HitBy(DataSteps(size, offset, count, processed), i)
    decreases count - processed
  {
    var len := if BUF > count then count else BUF;
    var n := if size - (offset + processed) < len then size - (offset + processed) else len;
    var st, rest := Step(offset + processed, len), DataSteps(size, offset, count, processed + n);
    assert DataSteps(size, offset, count, processed) == [st] + rest;
    if i < offset + processed + n {
      assert st in [st] + rest && Hits(st, i);
    } else {
      DataReach(size, offset, count, processed + n, i);
      HitMore(rest, [st] + rest, i);
    }
  }

  lemma {:induction false} RangeReach(size: nat, ranges: seq<Range>, k: nat, i: nat)
    requires k < |ranges| && In(ranges[k], i) && i < size
    ensures HitBy(RangeSteps(size, ranges), i)
  {
    var n := |ranges| - 1;
    if k == n {
      DataReach(size, ranges[n].offset, ranges[n].len, 0, i);
      HitMore(DataSteps(size, ranges[n].offset, ranges[n].len, 0), RangeSteps(size, ranges), i);
    } else {
      RangeReach(size, ranges[..n], k, i);
      HitMore(RangeSteps(size, ranges[..n]), RangeSteps(size, ranges), i);
    }
  }

  // ---------- all ranks together ----------

  /** How often `rank` has had its turn. */
  function Turns(sched: seq<nat>, rank: nat): nat {
    if sched == [] then 0
    else Turns(sched[..|sched| - 1], rank) + if sched[|sched| - 1] == rank then 1 else 0
  }

  /** The steps of all ranks in the order in which they get their turns: each turn of a rank is the
      next step of that rank. */
  ghost function Mixed(size: nat, ranks: nat, sched: seq<nat>): seq<Step> {
    if sched == [] then []
    else
      var before, rank := sched[..|sched| - 1], sched[|sched| - 1];
      var k := Turns(before, rank);
      Mixed(size, ranks, before)
      + if rank < ranks && k < |RankSteps(size, ranks, rank)| then [RankSteps(size, ranks, rank)[k]] else []
  }

  /** Every rank has had enough turns to finish. */
  ghost predicate Complete(size: nat, ranks: nat, sched: seq<nat>) {
    forall rank: nat :: rank < ranks ==> |RankSteps(size, ranks, rank)| <= Turns(sched, rank)
  }

  lemma {:induction false} TurnTaken(size: nat, ranks: nat, sched: seq<nat>, rank: nat, k: nat)
    requires rank < ranks && k < |RankSteps(size, ranks, rank)| && k < Turns(sched, rank)
    ensures RankSteps(size, ranks, rank)[k] in Mixed(size, ranks, sched)
  {
    hide RankSteps;
    var before := sched[..|sched| - 1];
    if k < Turns(before, rank) {
      TurnTaken(size, ranks, before, rank, k);
    }
  }

  lemma {:induction false} ByteReached(size: nat, ranks: nat, sched: seq<nat>, i: nat)
    requires ranks > 0 && Complete(size, ranks, sched) && i < size
    ensures HitBy(Mixed(size, ranks, sched), i)
  {
    var rank, k := Covered(size, ranks, i);
    RangeReach(size, Ranges(size, ranks, rank), k, i);
    var mine := RankSteps(size, ranks, rank);
    assert HitBy(mine, i);
    hide Ranges, Mixed, Turns, HitBy;
    forall st | st in mine ensures st in Mixed(size, ranks, sched) {
      var j :| 0 <= j < |mine| && mine[j] == st;
      assert |mine| <= Turns(sched, rank);
      TurnTaken(size, ranks, sched, rank, j);
    }
    HitMore(mine, Mixed(size, ranks, sched), i);
  }

  /** All ranks together, their steps taken in any order that lets each rank finish: the destination
      starts with the whole source and is otherwise unchanged. */
  lemma {:induction false} AllRanksCopy(src: seq<Byte>, dst: seq<Byte>, ranks: nat, sched: seq<nat>)
    requires ranks > 0 && Complete(|src|, ranks, sched)
    ensures var dst' := Run(src, dst, Mixed(|src|, ranks, sched));
            && |dst'| == (if |dst| < |src| then |src| else |dst|)
            && dst'[..|src|] == src && (|src| <= |dst| ==> dst'[|src|..] == dst[|src|..])
  {
    hide *;
    var mixed := Mixed(|src|, ranks, sched);
    var dst' := Run(src, dst, mixed);
    RunAt(src, dst, mixed, |src|);
    forall i: nat | i < |src| ensures i < |dst'| && dst'[i] == src[i] {
      ByteReached(|src|, ranks, sched, i);
      RunAt(src, dst, mixed, i);
    }
    forall i: nat | |src| <= i < |dst| ensures dst'[i] == dst[i] {
      RunAt(src, dst, mixed, i);
    }
    if |src| > 0 {
      ByteReached(|src|, ranks, sched, |src| - 1);
      RunAt(src, dst, mixed, |src| - 1);
    }
  }

  /** Whole buffers are read, so a count above one buffer is rounded up. */
  function Rounded(count: nat): nat {
    if count <= BUF then count else Total(count) * BUF
  }

  /** Between two reads that were not cut short. */
  ghost predicate Whole(processed: nat, count: nat) {
    if count <= BUF then processed == 0 || processed == count else processed % BUF == 0
  }

  lemma {:induction false} WholeNext(processed: nat, count: nat, len: nat)
    requires Whole(processed, count) && processed < count && len == (if BUF > count then count else BUF)
    ensures Whole(processed + len, count) && processed + len <= Rounded(count)
    ensures processed + len >= count ==> processed + len == Rounded(count)
  {
  }

  /** do_transfer_data with full writes, and reads that are short only at the end of the file: the
      bytes from `offset` on, rounded up to whole buffers, are copied as far as the file goes. */
  method TransferData(src: seq<Byte>, dst0: seq<Byte>, offset: nat, count: nat)
    returns (dst: seq<Byte>, ghost steps: seq<Step>)
    ensures dst == FileWrite(dst0, offset, FileRead(src, offset, Rounded(count)))
    ensures steps == DataSteps(|src|, offset, count, 0) && dst == Run(src, dst0, steps)
  {
    hide *;
    dst, steps := dst0, [];
    var len, pos: nat, processed: nat := BUF, offset, 0;
    GoingStart(src, dst0, offset, processed, count, steps);
    while count > processed
      invariant pos == offset + processed && (len == BUF || len == count < BUF)
      invariant Going(src, dst0, dst, offset, processed, count, steps)
    {
      if len > count {
        len := count;
      }
      var data := FileRead(src, pos, len);
      if |data| == 0 {
        FileEnds(src, dst0, dst, offset, processed, count, steps, len);
        return;
      }
      GoingStep(src, dst0, dst, offset, processed, count, steps, len);
      dst := FileWrite(dst, pos, data);
      steps := steps + [Step(pos, len)];
      pos, processed := pos + |data|, processed + |data|;
    }
    GoingEnd(src, dst0, dst, offset, processed, count, steps);
  }

  /** What the loop has done so far, and what it will still do; reads are whole until the file ends. */
  ghost predicate Going(src: seq<Byte>, dst0: seq<Byte>, dst: seq<Byte>, offset: nat, processed: nat, count: nat,
                        steps: seq<Step>) {
    && dst == Run(src, dst0, steps) && Copied(src, dst0, dst, offset, processed)
    && steps + DataSteps(|src|, offset, count, processed) == DataSteps(|src|, offset, count, 0)
    && (|| (processed <= Rounded(count) && offset + processed >= |src|)
        || (Whole(processed, count) && (processed >= count ==> processed == Rounded(count))))
  }

  lemma {:induction false} GoingStart(src: seq<Byte>, dst0: seq<Byte>, offset: nat, processed: nat, count: nat,
                                      steps: seq<Step>)
    requires processed == 0 && steps == []
    ensures Going(src, dst0, dst0, offset, processed, count, steps)
  {
    CopyNone(src, dst0, offset, processed);
    RunNone(src, dst0, steps);
    hide Run, Copied, DataSteps;
  }

  lemma {:induction false} GoingStep(src: seq<Byte>, dst0: seq<Byte>, dst: seq<Byte>, offset: nat, processed: nat,
                                     count: nat, steps: seq<Step>, len: nat)
    requires Going(src, dst0, dst, offset, processed, count, steps) && processed < count
    requires len == (if BUF > count then count else BUF) && |FileRead(src, offset + processed, len)| > 0
    ensures var data := FileRead(src, offset + processed, len);
            Going(src, dst0, FileWrite(dst, offset + processed, data), offset, processed + |data|, count,
                  steps + [Step(offset + processed, len)])
  {
    hide FileRead, FileWrite, Run, Copied, Whole, Rounded, DataSteps;
    var pos := offset + processed;
    var data := FileRead(src, pos, len);
    EmptyAtEnd(src, pos, len);
    CopiedIs(src, dst0, dst, offset, processed);
    WholeNext(processed, count, len);
    RunLast(src, dst0, steps, Step(pos, len));
    NextStep(src, steps, offset, processed, count, len);
    NextCopied(src, dst0, offset, processed, len);
  }

  /** The step taken is the next of those foreseen. */
  lemma {:induction false} NextStep(src: seq<Byte>, steps: seq<Step>, offset: nat, processed: nat, count: nat, len: nat)
    requires processed < count && len == (if BUF > count then count else BUF)
             && |FileRead(src, offset + processed, len)| > 0
    ensures steps + [Step(offset + processed, len)]
            + DataSteps(|src|, offset, count, processed + |FileRead(src, offset + processed, len)|)
            == steps + DataSteps(|src|, offset, count, processed)
  {
    var st, rest := Step(offset + processed, len),
                    DataSteps(|src|, offset, count, processed + |FileRead(src, offset + processed, len)|);
    assert DataSteps(|src|, offset, count, processed) == [st] + rest;
    assert steps + [st] + rest == steps + ([st] + rest);
  }

  lemma {:induction false} NoMoreSteps(size: nat, steps: seq<Step>, offset: nat, processed: nat, count: nat)
    requires processed >= count || offset + processed >= size
    ensures steps + DataSteps(size, offset, count, processed) == steps
  {
    assert steps + [] == steps;
  }

  lemma {:induction false} FileEnds(src: seq<Byte>, dst0: seq<Byte>, dst: seq<Byte>, offset: nat, processed: nat,
                                    count: nat, steps: seq<Step>, len: nat)
    requires Going(src, dst0, dst, offset, processed, count, steps) && processed < count
    requires len == (if BUF > count then count else BUF) && |FileRead(src, offset + processed, len)| == 0
    ensures dst == FileWrite(dst0, offset, FileRead(src, offset, Rounded(count)))
    ensures steps == DataSteps(|src|, offset, count, 0) && dst == Run(src, dst0, steps)
  {
    EmptyAtEnd(src, offset + processed, len);
    assert count <= Rounded(count);
    hide FileRead, FileWrite, Run, Copied, Rounded, DataSteps;
    NoMoreSteps(|src|, steps, offset, processed, count);
    AtEnd(src, dst0, dst, offset, processed, count);
  }

  lemma {:induction false} GoingEnd(src: seq<Byte>, dst0: seq<Byte>, dst: seq<Byte>, offset: nat, processed: nat,
                                    count: nat, steps: seq<Step>)
    requires Going(src, dst0, dst, offset, processed, count, steps) && processed >= count
    ensures dst == FileWrite(dst0, offset, FileRead(src, offset, Rounded(count)))
    ensures steps == DataSteps(|src|, offset, count, 0) && dst == Run(src, dst0, steps)
  {
    hide FileRead, FileWrite, Run, Copied, Rounded, Whole, DataSteps;
    NoMoreSteps(|src|, steps, offset, processed, count);
    AtEnd(src, dst0, dst, offset, processed, count);
  }

  /** The first `processed` bytes from `offset` on exist and are copied. */
  ghost predicate Copied(src: seq<Byte>, dst0: seq<Byte>, dst: seq<Byte>, offset: nat, processed: nat) {
    |FileRead(src, offset, processed)| == processed && dst == FileWrite(dst0, offset, FileRead(src, offset, processed))
  }

  lemma {:induction false} CopiedIs(src: seq<Byte>, dst0: seq<Byte>, dst: seq<Byte>, offset: nat, processed: nat)
    requires Copied(src, dst0, dst, offset, processed)
    ensures |FileRead(src, offset, processed)| == processed
            && dst == FileWrite(dst0, offset, FileRead(src, offset, processed))
  {
  }

  lemma {:induction false} CopyNone(src: seq<Byte>, dst0: seq<Byte>, offset: nat, processed: nat)
    requires processed == 0
    ensures Copied(src, dst0, dst0, offset, processed)
  {
  }

  lemma {:induction false} EmptyAtEnd(src: seq<Byte>, pos: nat, len: nat)
    ensures |FileRead(src, pos, len)| <= len
    ensures |FileRead(src, pos, len)| < len ==> pos + |FileRead(src, pos, len)| >= |src|
    ensures pos >= |src| ==> |FileRead(src, pos, len)| == 0
  {
  }

  lemma {:induction false} NextCopied(src: seq<Byte>, dst0: seq<Byte>, offset: nat, processed: nat, len: nat)
    requires |FileRead(src, offset, processed)| == processed
    ensures var data := FileRead(src, offset + processed, len);
            Copied(src, dst0, FileWrite(FileWrite(dst0, offset, FileRead(src, offset, processed)), offset + processed,
                                        data),
                   offset, processed + |data|)
  {
    hide FileRead, FileWrite;
    var data := FileRead(src, offset + processed, len);
    ReadExact(src, offset + processed, len);
    FileWriteConcat(dst0, offset, FileRead(src, offset, processed), data);
    FileReadConcat(src, offset, processed, |data|);
  }

  lemma {:induction false} ReadExact(src: seq<Byte>, pos: nat, len: nat)
    ensures FileRead(src, pos, |FileRead(src, pos, len)|) == FileRead(src, pos, len)
  {
  }

  /** The loop ended because all is copied or because the file ended. */
  lemma {:induction false} AtEnd(src: seq<Byte>, dst0: seq<Byte>, dst: seq<Byte>, offset: nat, processed: nat,
                                 count: nat)
    requires Copied(src, dst0, dst, offset, processed)
    requires processed <= Rounded(count)
             && (offset + processed >= |src| || (processed >= count && processed == Rounded(count)))
    ensures dst == FileWrite(dst0, offset, FileRead(src, offset, Rounded(count)))
  {
    ReadEnds(src, offset, processed, Rounded(count));
    hide FileRead, FileWrite, Rounded;
  }

  /** For the ranges of a rank rounding up copies nothing beyond them. */
  lemma {:induction false} NoOverrun(src: seq<Byte>, ranks: nat, rank: nat, k: nat)
    requires rank < ranks && k < |Ranges(|src|, ranks, rank)|
    ensures var r := Ranges(|src|, ranks, rank)[k];
            FileRead(src, r.offset, Rounded(r.len)) == FileRead(src, r.offset, r.len)
  {
    var total := Total(|src|);
    var r := Ranges(|src|, ranks, rank)[k];
    if total > ranks {
      if k == 0 {
        WholeRounded(total / ranks);
      } else {
        assert r.len <= BUF;
      }
      assert Rounded(r.len) == r.len;
    }
  }

  lemma {:induction false} WholeRounded(n: nat)
    ensures Rounded(n * BUF) == n * BUF
  {
  }

  /** One rank's part of a parallel transfer: its ranges one after the other. */
  method TransferRank(src: seq<Byte>, dst0: seq<Byte>, ranks: nat, rank: nat)
    returns (dst: seq<Byte>, ghost steps: seq<Step>)
    requires rank < ranks
    ensures |dst0| <= |dst| && (|dst| <= |dst0| || |dst| <= |src|)
    ensures forall k: nat, i: nat :: Owns(|src|, ranks, rank, k, i) && i < |src| ==> i < |dst| && dst[i] == src[i]
    ensures forall i: nat :: i < |dst0| ==> dst[i] == dst0[i] || (i < |src| && dst[i] == src[i])
    ensures steps == RankSteps(|src|, ranks, rank) && dst == Run(src, dst0, steps)
  {
    hide DataSteps, Run, HitBy;
    var ranges := Ranges(|src|, ranks, rank);
    dst, steps := dst0, [];
    RunNone(src, dst0, steps);
    for k := 0 to |ranges|
      invariant dst == Run(src, dst0, steps) && steps == RangeSteps(|src|, ranges[..k])
    {
      ghost var more;
      dst, more := TransferData(src, dst, ranges[k].offset, ranges[k].len);
      RunOn(src, dst0, steps, more);
      assert ranges[..k + 1][..k] == ranges[..k];
      steps := steps + more;
    }
    assert ranges[..|ranges|] == ranges;
    RankWrites(src, dst0, ranks, rank);
  }

  /** What the steps of one rank do to the destination. */
  lemma {:induction false} RankWrites(src: seq<Byte>, dst0: seq<Byte>, ranks: nat, rank: nat)
    requires rank < ranks
    ensures var dst := Run(src, dst0, RankSteps(|src|, ranks, rank));
            && |dst0| <= |dst| && (|dst| <= |dst0| || |dst| <= |src|)
            && (forall k: nat, i: nat :: Owns(|src|, ranks, rank, k, i) && i < |src| ==> i < |dst| && dst[i] == src[i])
            && (forall i: nat :: i < |dst0| ==> dst[i] == dst0[i] || (i < |src| && dst[i] == src[i]))
  {
    hide Run, HitBy, RangeSteps, Ranges;
    var steps := RankSteps(|src|, ranks, rank);
    var dst := Run(src, dst0, steps);
    forall i: nat
      ensures |dst0| <= |dst| && (|dst| <= |dst0| || |dst| <= |src|)
      ensures HitBy(steps, i) && i < |src| ==> i < |dst| && dst[i] == src[i]
      ensures i < |dst0| ==> dst[i] == dst0[i] || (i < |src| && dst[i] == src[i])
    {
      RunAt(src, dst0, steps, i);
    }
    RunAt(src, dst0, steps, 0);
    forall k: nat, i: nat | Owns(|src|, ranks, rank, k, i) && i < |src| ensures i < |dst| && dst[i] == src[i] {
      RangeReach(|src|, Ranges(|src|, ranks, rank), k, i);
    }
  }

  lemma {:induction false} RunNone(src: seq<Byte>, dst: seq<Byte>, b: seq<Step>)
    requires |b| == 0
    ensures Run(src, dst, b) == dst
  {
  }

  lemma {:induction false} RunLast(src: seq<Byte>, dst: seq<Byte>, a: seq<Step>, st: Step)
    ensures Run(src, dst, a + [st]) == Copy(src, Run(src, dst, a), st)
  {
    assert (a + [st])[..|a|] == a;
  }

  lemma {:induction false} RunOn(src: seq<Byte>, dst: seq<Byte>, a: seq<Step>, b: seq<Step>)
    ensures Run(src, Run(src, dst, a), b) == Run(src, dst, a + b)
  {
    hide Run, Copy;
    if |b| == 0 {
      RunNone(src, Run(src, dst, a), b);
      assert a + b == a;
    } else {
      var b', st := b[..|b| - 1], b[|b| - 1];
      RunOn(src, dst, a, b');
      RunLast(src, Run(src, dst, a), b', st);
      RunLast(src, dst, a + b', st);
      assert b' + [st] == b;
      assert (a + b') + [st] == a + b;
    }
  }
}
