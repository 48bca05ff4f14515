/** What a slot map stands for and what reserving and releasing do to it, on values.
    The class in SlotMap.dfy is proved against these functions. */
module SlotSpec {
  import opened Bits
  import opened SlotRuns

  datatype Slots = Slots(total: nat, used: nat, bytes: seq<Byte>)

  /** slot_map_bytes. */
  function MapBytes(n: nat): (k: nat)
    ensures 8 * k - 8 < n <= 8 * k
  {
    n / 8 + (if n % 8 != 0 then 1 else 0)
  }

  predicate IsUsed(bytes: seq<Byte>, slot: nat)
    requires slot < 8 * |bytes|
  {
    Bit(bytes[slot / 8], slot % 8)
  }

  ghost function UsedSet(bytes: seq<Byte>): set<nat> {
    set s: nat | s < 8 * |bytes| && IsUsed(bytes, s)
  }

  ghost predicate InRun(s: nat, start: nat, n: nat) {
    start <= s < start + n
  }

  ghost function Run(start: nat, n: nat): set<nat> {
    set s: nat | start <= s < start + n && InRun(s, start, n)
  }

  /** The invariant of every slot map: the counter is the number of set bits and never exceeds the total. */
  ghost predicate Valid(st: Slots) {
    |st.bytes| == MapBytes(st.total) && st.used == |UsedSet(st.bytes)| && st.used <= st.total
  }

  function Init(total: nat): Slots {
    Slots(total, 0, seq(MapBytes(total), _ => 0))
  }

  // ---------- where a reservation fits ----------

  /** `k` whole free bytes from byte `b` on. */
  predicate ZeroRun(bytes: seq<Byte>, b: nat, k: nat) {
    b + k <= |bytes| && forall i :: b <= i < b + k ==> bytes[i] == 0
  }

  /** At most eight slots: inside byte `b`, or at its end and the beginning of the next byte.
      Only the first longest run of either byte is ever looked at. */
  predicate FitsBits(bytes: seq<Byte>, b: nat, n: nat)
    requires b < |bytes|
  {
    var (s, l) := Longest(bytes[b]);
    && bytes[b] != 0xFF
    && (|| l >= n
        || (&& b + 1 < |bytes|
            && s == 8 - l
            && Longest(bytes[b + 1]).0 == 0
            && Longest(bytes[b + 1]).1 >= n - l))
  }

  predicate FitsAt(bytes: seq<Byte>, b: nat, n: nat)
    requires b < |bytes|
  {
    if n <= 8 then FitsBits(bytes, b, n) else ZeroRun(bytes, b, MapBytes(n))
  }

  function StartAt(bytes: seq<Byte>, b: nat, n: nat): nat
    requires b < |bytes|
  {
    8 * b + (if n <= 8 then Longest(bytes[b]).0 else 0)
  }

  function FirstTrue(fits: seq<bool>, from: nat): (b: nat)
    requires from <= |fits|
    ensures from <= b <= |fits|
    ensures b < |fits| ==> fits[b]
    ensures forall i: nat :: from <= i < b ==> !fits[i]
    decreases |fits| - from
  {
    if from == |fits| || fits[from] then from else FirstTrue(fits, from + 1)
  }

  ghost function FitMap(bytes: seq<Byte>, n: nat): (r: seq<bool>)
    ensures |r| == |bytes| && forall b: nat :: b < |bytes| ==> r[b] == FitsAt(bytes, b, n)
  {
    seq(|bytes|, b requires 0 <= b < |bytes| => FitsAt(bytes, b, n))
  }

  /** First byte at or after `from` where `n` slots fit; `|bytes|` if there is none. */
  ghost function Search(bytes: seq<Byte>, from: nat, n: nat): (b: nat)
    requires from <= |bytes|
    ensures from <= b <= |bytes|
  {
    FirstTrue(FitMap(bytes, n), from)
  }

  function SearchFrom(st: Slots, n: nat): (from: nat)
    requires |st.bytes| == MapBytes(st.total) && st.used <= st.total
    ensures from <= |st.bytes|
  {
    if n > 8 then st.used / 8 else 0
  }

  /** The slot slotmap_reserve returns, or -1. */
  ghost function ReserveSlot(st: Slots, n: nat): int
    requires |st.bytes| == MapBytes(st.total) && st.used <= st.total
  {
    if n == 0 || st.total - st.used < n then -1
    else
      var b := Search(st.bytes, SearchFrom(st, n), n);
      if b == |st.bytes| then -1 else StartAt(st.bytes, b, n)
  }

  // ---------- marking and clearing ----------

  /** use_slot. */
  function UseSlot(bytes: seq<Byte>, at: nat): (r: seq<Byte>)
    requires at < 8 * |bytes|
    ensures |r| == |bytes|
    ensures forall s: nat :: s < 8 * |bytes| ==> (IsUsed(r, s) <==> s == at || IsUsed(bytes, s))
  {
    bytes[at / 8 := SetBit(bytes[at / 8], at % 8)]
  }

  /** release_slot. */
  function ReleaseSlot(bytes: seq<Byte>, at: nat): (r: seq<Byte>)
    requires at < 8 * |bytes|
    ensures |r| == |bytes|
    ensures forall s: nat :: s < 8 * |bytes| ==> (IsUsed(r, s) <==> s != at && IsUsed(bytes, s))
  {
    var r := bytes[at / 8 := ClearBit(bytes[at / 8], at % 8)];
    assert forall s: nat :: s < 8 * |bytes| && s / 8 == at / 8 ==>
             (IsUsed(r, s) <==> s % 8 != at % 8 && IsUsed(bytes, s));
    r
  }

  function MarkRange(bytes: seq<Byte>, start: nat, n: nat): (r: seq<Byte>)
    requires start + n <= 8 * |bytes|
    ensures |r| == |bytes|
    ensures forall s: nat :: s < 8 * |bytes| ==> (IsUsed(r, s) <==> IsUsed(bytes, s) || start <= s < start + n)
  {
    if n == 0 then bytes else UseSlot(MarkRange(bytes, start, n - 1), start + n - 1)
  }

  function ClearRange(bytes: seq<Byte>, start: nat, n: nat): (r: seq<Byte>)
    requires start + n <= 8 * |bytes|
    ensures |r| == |bytes|
    ensures forall s: nat :: s < 8 * |bytes| ==> (IsUsed(r, s) <==> IsUsed(bytes, s) && !(start <= s < start + n))
  {
    if n == 0 then bytes else ReleaseSlot(ClearRange(bytes, start, n - 1), start + n - 1)
  }

  /** Two maps with the same used slots are the same bytes. */
  lemma {:induction false} MapsEqual(a: seq<Byte>, b: seq<Byte>)
    requires |a| == |b|
    requires forall s: nat :: s < 8 * |a| ==> (IsUsed(a, s) <==> IsUsed(b, s))
    ensures a == b
  {
    forall i | 0 <= i < |a| ensures a[i] == b[i] {
      forall j: nat | j < 8 ensures Bit(a[i], j) <==> Bit(b[i], j) {
        var s := 8 * i + j;
        assert s / 8 == i && s % 8 == j;
        assert IsUsed(a, s) <==> IsUsed(b, s);
      }
      BytesEqual(a[i], b[i]);
    }
  }

  // ---------- soundness of the search ----------

  lemma {:induction false} FreeInRun(v: Byte, j: nat)
    requires Longest(v).0 <= j < Longest(v).0 + Longest(v).1
    ensures j < 8 && !Bit(v, j)
  {
    assert Free(v)[j];
  }

  /** Whatever branch the search took, the slots it returns are free and inside the map. */
  lemma {:induction false} FitsFree(bytes: seq<Byte>, b: nat, n: nat, s: nat)
    requires b < |bytes| && 0 < n && FitsAt(bytes, b, n)
    requires StartAt(bytes, b, n) <= s < StartAt(bytes, b, n) + n
    ensures s < 8 * |bytes| && !IsUsed(bytes, s)
  {
    if n > 8 {
      ZeroByte(bytes[s / 8]);
    } else {
      var (p, l) := Longest(bytes[b]);
      if s < 8 * b + p + l {
        assert s / 8 == b && s % 8 == s - 8 * b;
        FreeInRun(bytes[b], s % 8);
      } else {
        assert s / 8 == b + 1 && s % 8 == s - 8 * (b + 1);
        FreeInRun(bytes[b + 1], s % 8);
      }
    }
  }

  ghost predicate Shaped(st: Slots) {
    |st.bytes| == MapBytes(st.total) && st.used <= st.total
  }

  ghost predicate RunFree(bytes: seq<Byte>, start: nat, n: nat) {
    start + n <= 8 * |bytes| && forall s: nat :: start <= s < start + n ==> !IsUsed(bytes, s)
  }

  /** A successful search returns free slots inside the map, and inside the total when that is a multiple of 8. */
  lemma {:induction false} ReserveSound(st: Slots, n: nat)
    requires Shaped(st)
    ensures ReserveSlot(st, n) >= -1
    ensures ReserveSlot(st, n) >= 0 ==> 0 < n <= st.total - st.used && RunFree(st.bytes, ReserveSlot(st, n), n)
    ensures ReserveSlot(st, n) >= 0 && st.total % 8 == 0 ==> ReserveSlot(st, n) + n <= st.total
  {
    var slot := ReserveSlot(st, n);
    if slot >= 0 {
      var b := Search(st.bytes, SearchFrom(st, n), n);
      assert FitMap(st.bytes, n)[b];
      FitsFree(st.bytes, b, n, slot + n - 1);
      forall s: nat | slot <= s < slot + n ensures !IsUsed(st.bytes, s) {
        FitsFree(st.bytes, b, n, s);
      }
    }
  }

  /** slotmap_reserve on values. */
  ghost function Reserve(st: Slots, n: nat): Slots
    requires Shaped(st)
  {
    var slot := ReserveSlot(st, n);
    if slot < 0 then st
    else
      ReserveSound(st, n);
      st.(used := st.used + n, bytes := MarkRange(st.bytes, slot, n))
  }

  const SIZE_RANGE: nat := 0x1_0000_0000_0000_0000

  /** slotmap_release on values, once its check of the first bit has passed; the counter is a size_t. */
  function Release(st: Slots, start: nat, n: nat): Slots
    requires start + n <= 8 * |st.bytes|
  {
    st.(used := if n <= st.used then st.used - n else st.used + SIZE_RANGE - n % SIZE_RANGE,
        bytes := ClearRange(st.bytes, start, n))
  }

  lemma {:induction false} RunCard(start: nat, n: nat)
    ensures |Run(start, n)| == n
  {
    if n == 0 {
      assert Run(start, n) == {};
    } else {
      RunCard(start, n - 1);
      assert Run(start, n) == Run(start, n - 1) + {start + n - 1};
    }
  }

  /** Reserving adds exactly the returned run to the used slots and keeps the counter exact. */
  lemma {:induction false} ReserveKeeps(st: Slots, n: nat)
    requires Valid(st)
    ensures Valid(Reserve(st, n)) && Reserve(st, n).total == st.total
    ensures ReserveSlot(st, n) < 0 ==> Reserve(st, n) == st
    ensures ReserveSlot(st, n) >= 0 ==>
              && Run(ReserveSlot(st, n), n) !! UsedSet(st.bytes)
              && UsedSet(Reserve(st, n).bytes) == UsedSet(st.bytes) + Run(ReserveSlot(st, n), n)
  {
    var slot := ReserveSlot(st, n);
    ReserveSound(st, n);
    if slot >= 0 {
      var st' := Reserve(st, n);
      assert UsedSet(st'.bytes) == UsedSet(st.bytes) + Run(slot, n);
      RunCard(slot, n);
    }
  }

  /** Releasing a reserved run removes exactly it and keeps the counter exact. */
  lemma {:induction false} ReleaseKeeps(st: Slots, start: nat, n: nat)
    requires Valid(st) && start + n <= 8 * |st.bytes| && Run(start, n) <= UsedSet(st.bytes)
    ensures Valid(Release(st, start, n)) && Release(st, start, n).total == st.total
    ensures UsedSet(Release(st, start, n).bytes) == UsedSet(st.bytes) - Run(start, n)
  {
    RunCard(start, n);
    var rest := UsedSet(st.bytes) - Run(start, n);
    assert UsedSet(st.bytes) == rest + Run(start, n);
    assert UsedSet(Release(st, start, n).bytes) == rest;
  }

  /** Releasing what was just reserved restores the map byte for byte. */
  lemma {:induction false} ReserveRelease(st: Slots, n: nat)
    requires Valid(st) && ReserveSlot(st, n) >= 0
    ensures ReserveSlot(st, n) + n <= 8 * |Reserve(st, n).bytes|
    ensures IsUsed(Reserve(st, n).bytes, ReserveSlot(st, n))
    ensures Release(Reserve(st, n), ReserveSlot(st, n), n) == st
  {
    ReserveSound(st, n);
    MapsEqual(Release(Reserve(st, n), ReserveSlot(st, n), n).bytes, st.bytes);
  }

  // ---------- monotonicity ----------

  lemma {:induction false} AllFreeRun(z: seq<bool>, i: nat)
    requires i <= |z| && forall j :: i <= j < |z| ==> z[j]
    ensures RunLen(z, i) == |z| - i
    decreases |z| - i
  {
    if i < |z| {
      AllFreeRun(z, i + 1);
    }
  }

  lemma {:induction false} ZeroLongest(v: Byte)
    requires v == 0
    ensures Longest(v) == (0, 8)
  {
    ZeroByte(v);
    forall i: nat | i < 8 ensures RunLen(Free(v), i) == 8 - i { AllFreeRun(Free(v), i); }
    LongestUnique(v, 0, 8);
  }

  lemma {:induction false} FitsMonotone(bytes: seq<Byte>, b: nat, n: nat, m: nat)
    requires b < |bytes| && 0 < n <= m && FitsAt(bytes, b, m)
    ensures FitsAt(bytes, b, n)
  {
    if n <= 8 && 8 < m {
      assert bytes[b] == 0;
      ZeroLongest(bytes[b]);
    }
  }

  /** If reserving `n` slots fails, reserving more fails too. */
  lemma {:induction false} ReserveMonotone(st: Slots, n: nat, m: nat)
    requires Shaped(st) && 0 < n <= m && ReserveSlot(st, n) == -1
    ensures ReserveSlot(st, m) == -1
  {
    if st.total - st.used >= m {
      var b := Search(st.bytes, SearchFrom(st, m), m);
      if b < |st.bytes| {
        assert FitMap(st.bytes, m)[b];
        FitsMonotone(st.bytes, b, n, m);
        ReserveSound(st, n);
        assert false;
      }
    }
  }
}
