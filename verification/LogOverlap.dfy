/** The assumption that a spanning reservation ends at the last shmem chunk cannot be dropped: with
    two or more shmem chunks two allocations, and no frees, make live ranges overlap. */
module LogOverlap {
  import opened Wrappers
  import opened SlotSpec
  import opened LogSpec
  import opened LogHistory
  import LogSmall
  import SlotMap
  import SlotHistory

  /** A fresh map serves any request that fits from its first slot on. */
  lemma {:induction false} FreshReservation(st: Slots, n: nat)
    requires st == Init(st.total) && 0 < n <= st.total
    ensures ReserveSlot(st, n) == 0
  {
    var fits := FitMap(st.bytes, n);
    ZeroLongest(st.bytes[0]);
    assert MapBytes(n) <= MapBytes(st.total);
    assert FitsAt(st.bytes, 0, n);
    SlotMap.FirstIs(fits, 0, 0);
  }

  /** An allocation that shmem serves completely. */
  lemma {:induction false} MemStep(w: World, nbytes: nat, slot: nat, n: nat)
    requires ValidTiers(w.ts) && w.ts.shmem.Some? && n > 0 && nbytes == ChunkBytes(n, w.ts.shmem.value.chunkSz)
    requires ReserveSlot(w.ts.shmem.value.slots, n) == slot
    ensures PlanOf(w.ts, nbytes) == InMem(slot, n)
    ensures Step(w, DoAlloc(nbytes))
            == World(w.ts.(shmem := Some(Take(w.ts.shmem.value, n, ChunkBytes(n, w.ts.shmem.value.chunkSz)))),
                     w.live + [Live(ChunkBytes(slot, w.ts.shmem.value.chunkSz), nbytes, (slot, n), (0, 0))])
    ensures Good(w) && SafeTier(w.ts.shmem) ==> Good(Step(w, DoAlloc(nbytes)))
  {
    var m := w.ts.shmem.value;
    DivExact(n, m.chunkSz);
    ChunkBytesMono(1, n, m.chunkSz);
    assert nbytes > 0;
    hide Good, ReserveSlot, Reserve, Take, ChunkBytes, BytesToChunks;
    assert PlanOf(w.ts, nbytes) == InMem(slot, n);
    if Good(w) && SafeTier(w.ts.shmem) { StepGood(w, DoAlloc(nbytes)); }
  }

  /** Both tiers as they are created. */
  ghost predicate FreshTiers(ts: Tiers) {
    && ValidTiers(ts) && ts.shmem.Some? && ts.spill.Some?
    && FreshLog(ts.shmem.value) && FreshLog(ts.spill.value)
  }

  ghost predicate FreshLog(l: Log) {
    l.slots == Init(l.slots.total) && l.maxSlot == 0 && l.reservedSz == 0
  }

  /** The spill log can take one shmem chunk and a byte more. */
  ghost predicate SpillRoom(ts: Tiers)
    requires FreshTiers(ts)
  {
    BytesToChunks(ts.shmem.value.chunkSz + 1, ts.spill.value.chunkSz) <= ts.spill.value.slots.total
  }

  /** One byte more than shmem has chunks for: all but one chunk are taken, from the first one on. */
  lemma {:induction false} FirstPlan(m: Log, l: Log, nbytes: nat, k: nat, n: nat)
    requires ValidLog(m) && ValidLog(l) && FreshLog(m) && FreshLog(l) && m.slots.total == k + 1 && k >= 1
    requires nbytes == ChunkBytes(k + 1, m.chunkSz) + 1 && n == BytesToChunks(m.chunkSz + 1, l.chunkSz) <= l.slots.total
    ensures PlanOf(Tiers(Some(m), Some(l)), nbytes) == Span(0, k, n)
    ensures LogEndChunks(m) == k && ReserveSlot(m.slots, k) == 0 && ReserveSlot(l.slots, n) == 0
  {
    hide ReserveSlot, BytesToChunks, ChunkBytes, Init;
    MoreThanAll(nbytes, m.chunkSz, k);
    TooMany(m.slots, k + 2);
    FreshReservation(m.slots, k);
    ChunksCover(m.chunkSz + 1, l.chunkSz);
    FreshReservation(l.slots, n);
  }

  lemma {:induction false} MoreThanAll(nbytes: nat, c: nat, k: nat)
    requires c > 0 && nbytes == ChunkBytes(k + 1, c) + 1
    ensures BytesToChunks(nbytes, c) == k + 2 && nbytes == ChunkBytes(k, c) + c + 1 && ChunkBytes(0, c) == 0
  {
    ChunkBytesAdd(k, 1, c);
    DivChunks(nbytes, c, k + 1);
  }

  lemma {:induction false} TooMany(st: Slots, n: nat)
    requires |st.bytes| == MapBytes(st.total) && st.used <= st.total < st.used + n
    ensures ReserveSlot(st, n) == -1
  {
  }

  /** A fresh map with the first `n` slots taken at once. */
  lemma {:induction false} FreshTaken(st: Slots, n: nat)
    requires st == Init(st.total) && 0 < n <= st.total
    ensures ReserveSlot(st, n) == 0 && Reserve(st, n).used == n && SlotHistory.FilledTo(Reserve(st, n).bytes, n)
  {
    FreshReservation(st, n);
    ReserveSound(st, n);
    SlotHistory.FilledNone(st.total);
    hide ReserveSlot;
  }

  /** `l'` is the fresh log `l` with its first `n` chunks taken. */
  ghost predicate FirstTaken(l: Log, l': Log, n: nat) {
    && ValidLog(l') && l'.dataSz == l.dataSz && l'.chunkSz == l.chunkSz && l'.slots.total == l.slots.total
    && l'.slots.used == n && SlotHistory.FilledTo(l'.slots.bytes, n) && l'.maxSlot == n - 1
    && l'.reservedSz == ChunkBytes(n, l.chunkSz)
  }

  lemma {:induction false} TakenFirst(l: Log, n: nat)
    requires ValidLog(l) && FreshLog(l) && 0 < n <= l.slots.total
    ensures ReserveSlot(l.slots, n) == 0 && FirstTaken(l, Take(l, n, ChunkBytes(n, l.chunkSz)), n)
  {
    FreshTaken(l.slots, n);
    TakeValid(l, n, ChunkBytes(n, l.chunkSz));
    hide ReserveSlot, Init;
  }

  /** After that request the shmem range covers the one chunk that is still free. */
  lemma {:induction false} FirstStep(m: Log, l: Log, nbytes: nat, k: nat, n: nat) returns (m': Log, l': Log)
    requires ValidLog(m) && ValidLog(l) && FreshLog(m) && FreshLog(l) && m.slots.total == k + 1 && k >= 1
    requires nbytes == ChunkBytes(k + 1, m.chunkSz) + 1 && n == BytesToChunks(m.chunkSz + 1, l.chunkSz) <= l.slots.total
    ensures Step(World(Tiers(Some(m), Some(l)), []), DoAlloc(nbytes))
            == World(Tiers(Some(m'), Some(l')), [Live(0, nbytes, (0, k), (0, n))])
    ensures FirstTaken(m, m', k) && FirstTaken(l, l', n)
  {
    hide ReserveSlot, Reserve, ChunkBytes, BytesToChunks, Alloc, PlanOf, Take, FirstTaken, FreshLog;
    ChunksCover(m.chunkSz + 1, l.chunkSz);
    FirstPlan(m, l, nbytes, k, n);
    FirstAlloc(m, l, nbytes, k, n);
    TakenFirst(m, k);
    TakenFirst(l, n);
    m' := Take(m, k, ChunkBytes(k, m.chunkSz));
    l' := Take(l, n, ChunkBytes(n, l.chunkSz));
  }

  lemma {:induction false} FirstAlloc(m: Log, l: Log, nbytes: nat, k: nat, n: nat)
    requires ValidLog(m) && ValidLog(l) && FreshLog(m) && FreshLog(l) && m.slots.total == k + 1 && k >= 1
    requires nbytes == ChunkBytes(k + 1, m.chunkSz) + 1 && n == BytesToChunks(m.chunkSz + 1, l.chunkSz) <= l.slots.total
    requires PlanOf(Tiers(Some(m), Some(l)), nbytes) == Span(0, k, n)
    requires LogEndChunks(m) == k && ReserveSlot(m.slots, k) == 0 && ReserveSlot(l.slots, n) == 0
    ensures Alloc(Tiers(Some(m), Some(l)), nbytes)
            == (Allocated(0), Tiers(Some(Take(m, k, ChunkBytes(k, m.chunkSz))),
                                    Some(Take(l, n, ChunkBytes(n, l.chunkSz)))))
  {
    hide ReserveSlot, Reserve, ChunkBytes, BytesToChunks, AllocSpan, Take;
    MoreThanAll(nbytes, m.chunkSz, k);
    TooMany(m.slots, k + 2);
    assert Spanning(m, l, nbytes, m.chunkSz + 1, n);
    SpanBoth(m, l, nbytes, m.chunkSz + 1, n);
  }

  /** Two allocations: all chunks and a byte, then one byte. */
  ghost function OverlapTrace(ts: Tiers): Trace
    requires FreshTiers(ts)
  {
    Then(Then(Start, DoAlloc(ChunkBytes(ts.shmem.value.slots.total, ts.shmem.value.chunkSz) + 1)), DoAlloc(1))
  }

  lemma {:induction false} SecondStep(w: World, k: nat, one: nat)
    requires ValidTiers(w.ts) && w.ts.shmem.Some? && one == 1 && w.ts.shmem.value.slots.total == k + 1
    requires w.ts.shmem.value.slots.used == k && SlotHistory.FilledTo(w.ts.shmem.value.slots.bytes, k)
    ensures Step(w, DoAlloc(one)).live
            == w.live + [Live(ChunkBytes(k, w.ts.shmem.value.chunkSz), one, (k, one), (0, 0))]
  {
    hide ReserveSlot, Reserve, Take, ChunkBytes, BytesToChunks;
    var m := w.ts.shmem.value;
    SlotHistory.ReserveNext(m.slots, k, one);
    OneChunk(one, m.chunkSz);
    assert PlanOf(w.ts, one) == InMem(k, one);
  }

  lemma {:induction false} OneChunk(one: nat, c: nat)
    requires one == 1 && c > 0
    ensures BytesToChunks(one, c) == 1
  {
    DivChunks(one, c, 0);
  }

  /** Two allocations from fresh tiers make two live ranges overlap, whatever the sizes of tiers and
      chunks, as soon as shmem has two chunks. */
  lemma {:induction false} OverlapRun(ts: Tiers)
    requires FreshTiers(ts) && SpillRoom(ts) && ts.shmem.value.slots.total >= 2
    ensures var w := After(ts, OverlapTrace(ts)); |w.live| == 2 && !RangesApart(w.live[0], w.live[1])
  {
    var m, l := ts.shmem.value, ts.spill.value;
    var k, c, one := m.slots.total - 1, m.chunkSz, 1;
    var nbytes, n := ChunkBytes(k + 1, c) + one, BytesToChunks(c + 1, l.chunkSz);
    assert ts == Tiers(Some(m), Some(l)) && OverlapTrace(ts) == Then(Then(Start, DoAlloc(nbytes)), DoAlloc(one));
    assert ValidLog(m) && ValidLog(l) && FreshLog(m) && FreshLog(l) && c > 0;
    hide *;
    TwoLive(m, l, nbytes, k, n, one);
    TwoSteps(ts, nbytes, one);
    StillFree(nbytes, k, c, n, one);
  }

  lemma {:induction false} StillFree(nbytes: nat, k: nat, c: nat, n: nat, one: nat)
    requires c > 0 && one == 1 && nbytes == ChunkBytes(k + 1, c) + one
    ensures !RangesApart(Live(0, nbytes, (0, k), (0, n)), Live(ChunkBytes(k, c), one, (k, one), (0, 0)))
  {
    LastChunk(k, c);
    hide ChunkBytes;
  }

  lemma {:induction false} LastChunk(k: nat, c: nat)
    requires c > 0
    ensures ChunkBytes(k, c) < ChunkBytes(k + 1, c)
  {
    ChunkBytesAdd(k, 1, c);
  }

  lemma {:induction false} TwoLive(m: Log, l: Log, nbytes: nat, k: nat, n: nat, one: nat)
    requires ValidLog(m) && ValidLog(l) && FreshLog(m) && FreshLog(l) && m.slots.total == k + 1 && k >= 1 && one == 1
    requires nbytes == ChunkBytes(k + 1, m.chunkSz) + 1 && n == BytesToChunks(m.chunkSz + 1, l.chunkSz) <= l.slots.total
    ensures Step(Step(World(Tiers(Some(m), Some(l)), []), DoAlloc(nbytes)), DoAlloc(one)).live
            == [Live(0, nbytes, (0, k), (0, n)), Live(ChunkBytes(k, m.chunkSz), one, (k, one), (0, 0))]
  {
    hide Step, ChunkBytes, BytesToChunks, ValidLog, FreshLog, SlotHistory.FilledTo;
    var m', l' := FirstStep(m, l, nbytes, k, n);
    var w := World(Tiers(Some(m'), Some(l')), [Live(0, nbytes, (0, k), (0, n))]);
    SecondStep(w, k, one);
  }

  lemma {:induction false} TwoSteps(ts: Tiers, a: nat, b: nat)
    ensures After(ts, Then(Then(Start, DoAlloc(a)), DoAlloc(b))) == Step(Step(World(ts, []), DoAlloc(a)), DoAlloc(b))
  {
    hide Step;
    assert After(ts, Then(Start, DoAlloc(a))) == Step(After(ts, Start), DoAlloc(a));
  }

  // ---------- the retry is reached ----------

  /** All chunks and a byte, then a chunk and a byte. */
  ghost function RetryTrace(ts: Tiers): Trace
    requires FreshTiers(ts)
  {
    var m := ts.shmem.value;
    Then(Then(Start, DoAlloc(ChunkBytes(m.slots.total, m.chunkSz) + 1)), DoAlloc(m.chunkSz + 1))
  }

  /** In a map filled up to 2, two slots start at slot 2. */
  lemma {:induction false} PairNext(st: Slots, k: nat, n: nat)
    requires Valid(st) && SlotHistory.FilledTo(st.bytes, k) && st.used == k == n == 2 && st.total >= 4
    ensures ReserveSlot(st, n) == k && Reserve(st, n).used == 4
  {
    var fits := FitMap(st.bytes, n);
    SlotHistory.FilledByte(st.bytes, k, 0);
    assert FitsAt(st.bytes, 0, n);
    SlotMap.FirstIs(fits, 0, 0);
  }

  lemma {:induction false} RetryState(m: Log, l: Log, k: nat, c: nat, one: nat, two: nat)
    requires ValidLog(m) && ValidLog(l) && m.chunkSz == l.chunkSz == c && m.slots.total == k + 1 && k >= 1
             && l.slots.total >= 4
    requires m.slots.used == k && SlotHistory.FilledTo(m.slots.bytes, k) && m.maxSlot == k - 1
    requires l.slots.used == two && SlotHistory.FilledTo(l.slots.bytes, two) && one == 1 && two == 2
    ensures Spanning(m, l, c + one, one, one) && LogEndChunks(m) == one && BytesToChunks(c + one, c) == two
    ensures ReserveSlot(m.slots, two) == -1 && ReserveSlot(l.slots, one) == two
    ensures ReserveSlot(l.slots, two) == two && Reserve(l.slots, two).used == 4
  {
    assert Valid(m.slots) && Valid(l.slots);
    hide ReserveSlot, Reserve, BytesToChunks, ChunkBytes, SlotHistory.FilledTo, Valid;
    ChunkPair(c, one, two);
    OneChunk(one, c);
    SlotHistory.ReserveNext(m.slots, k, one);
    SlotHistory.ReserveNext(l.slots, two, one);
    PairNext(l.slots, two, two);
    TooMany(m.slots, two);
  }

  lemma {:induction false} SpanTried(m: Log, l: Log, nbytes: nat, rest: nat, n: nat)
    requires Spanning(m, l, nbytes, rest, n) && ReserveSlot(m.slots, BytesToChunks(nbytes, m.chunkSz)) < 0
    ensures Alloc(Tiers(Some(m), Some(l)), nbytes) == AllocSpan(Tiers(Some(m), Some(l)), nbytes)
  {
    hide ReserveSlot, BytesToChunks, ChunkBytes, Valid, AllocSpan;
  }

  /** The second allocation, which takes the retry. */
  lemma {:induction false} RetryStep(m: Log, l: Log, k: nat, c: nat, live: seq<Live>, one: nat, two: nat)
    requires ValidLog(m) && ValidLog(l) && m.chunkSz == l.chunkSz == c && m.slots.total == k + 1 && k >= 1
             && l.slots.total >= 4
    requires m.slots.used == k && SlotHistory.FilledTo(m.slots.bytes, k) && m.maxSlot == k - 1
    requires l.slots.used == two && SlotHistory.FilledTo(l.slots.bytes, two) && one == 1 && two == 2
    ensures var ts' := Step(World(Tiers(Some(m), Some(l)), live), DoAlloc(c + one)).ts;
            && ts'.spill.Some? && ts'.spill.value.slots.used == 4 && ts'.spill.value.reservedSz == l.reservedSz + c
  {
    hide ReserveSlot, Reserve, BytesToChunks, LogEndChunks, Valid, SlotHistory.FilledTo, AllocSpan, Alloc;
    RetryState(m, l, k, c, one, two);
    SpanTried(m, l, c + one, one, one);
    SpanRetry(m, l, c + one, one, one);
    RetryUndercounts(m, l, c + one, two, one);
  }

  /** Two allocations reach the retry: four spill chunks are then in use, but only three are accounted for. */
  lemma {:induction false} RetryReached(ts: Tiers)
    requires FreshTiers(ts) && ts.shmem.value.chunkSz == ts.spill.value.chunkSz
    requires ts.shmem.value.slots.total >= 2 && ts.spill.value.slots.total >= 4
    ensures var w, c := After(ts, RetryTrace(ts)), ts.shmem.value.chunkSz;
            w.ts.spill.Some? && w.ts.spill.value.slots.used == 4 && w.ts.spill.value.reservedSz == ChunkBytes(3, c)
  {
    hide Step, BytesToChunks, ValidLog, FreshLog, After, SlotHistory.FilledTo, ChunkBytes;
    var m, l := ts.shmem.value, ts.spill.value;
    var k, c := m.slots.total - 1, m.chunkSz;
    var nbytes := ChunkBytes(k + 1, c) + 1;
    ChunksSound(m, k);
    var one, two := 1, 2;
    ChunkPair(c, one, two);
    var m', l' := FirstStep(m, l, nbytes, k, two);
    RetryStep(m', l', k, c, [Live(0, nbytes, (0, k), (0, two))], one, two);
    TwoSteps(ts, nbytes, c + 1);
    assert ts == Tiers(Some(m), Some(l));
  }

  lemma {:induction false} ChunkPair(c: nat, one: nat, two: nat)
    requires c > 0 && one == 1 && two == 2
    ensures BytesToChunks(c + one, c) == two && ChunkBytes(one, c) == c && ChunkBytes(3, c) == ChunkBytes(two, c) + c
  {
    DivChunks(c + one, c, one);
  }

  // ---------- when the assumption is not needed ----------

  ghost predicate AllocOnly(run: Trace) {
    match run
    case Start => true
    case Then(before, op) => AllocOnly(before) && op.DoAlloc?
  }

  ghost predicate AllDisjoint(w: World) {
    forall i, j :: 0 <= i < j < |w.live| ==> RangesApart(w.live[i], w.live[j])
  }

  /** With at most one shmem chunk no request spans. */
  lemma {:induction false} AllSmall(ts: Tiers, run: Trace)
    requires ts.shmem.Some? && ts.shmem.value.slots.total <= 1
    ensures LogSmall.SmallRun(ts, run)
  {
    match run
    case Start =>
    case Then(before, op) => AllSmall(ts, before);
  }

  /** Allocations alone keep live ranges apart exactly if shmem has at most one chunk. */
  lemma {:induction false} AllocOnlyIff(ts: Tiers)
    requires FreshTiers(ts) && SpillRoom(ts)
    ensures (forall run :: AllocOnly(run) ==> AllDisjoint(After(ts, run))) <==> ts.shmem.value.slots.total <= 1
  {
    if ts.shmem.value.slots.total <= 1 {
      forall run | AllocOnly(run) ensures AllDisjoint(After(ts, run)) {
        AllSmall(ts, run);
        forall i, j | 0 <= i < j < |After(ts, run).live|
          ensures RangesApart(After(ts, run).live[i], After(ts, run).live[j])
        {
          LogSmall.SmallRunDisjoint(ts, run, i, j);
        }
      }
    } else {
      OverlapWitness(ts);
    }
  }

  lemma {:induction false} OverlapWitness(ts: Tiers)
    requires FreshTiers(ts) && SpillRoom(ts) && ts.shmem.value.slots.total >= 2
    ensures AllocOnly(OverlapTrace(ts)) && !AllDisjoint(After(ts, OverlapTrace(ts)))
  {
    hide After, RangesApart, FreshTiers, SpillRoom;
    OverlapRun(ts);
    var w := After(ts, OverlapTrace(ts));
    assert !RangesApart(w.live[0], w.live[1]);
    assert AllocOnly(OverlapTrace(ts).before.before) && AllocOnly(OverlapTrace(ts).before);
  }
}
