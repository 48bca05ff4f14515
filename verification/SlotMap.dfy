/** slotmap.c: a bitmap of used slots, reserved in consecutive runs. */
module SlotMap {
  import opened Bits
  import opened SlotRuns
  import opened SlotSpec

  /** The byte-run path: count zero bytes from `runStart` on until `k` are found or a used byte comes. */
  method ScanZeroBytes(usemap: array<Byte>, runStart: nat, k: nat) returns (found: bool, stop: nat)
    requires k > 1 && runStart + k <= usemap.Length
    ensures found <==> ZeroRun(usemap[..], runStart, k)
    ensures !found ==> runStart <= stop < runStart + k && usemap[stop] != 0
  {
    var byteNdx, runCount := runStart, 0;
    found := false;
    while !found && usemap[byteNdx] == 0
      invariant runStart <= byteNdx && runCount == byteNdx - runStart
      invariant if found then runCount == k else runCount < k
      invariant forall i :: runStart <= i < byteNdx ==> usemap[i] == 0
      decreases k - runCount
    {
      runCount := runCount + 1;
      byteNdx := byteNdx + 1;
      if runCount == k {
        found := true;
      }
    }
    stop := byteNdx;
    assert !found ==> usemap[..][byteNdx] != 0;
  }

  /** The bit path: a run inside one byte, or one that straddles two bytes. */
  method CheckBits(usemap: array<Byte>, byteNdx: nat, n: nat) returns (found: bool, startSlot: nat)
    requires 0 < n && byteNdx < usemap.Length && usemap[byteNdx] != 0xFF
    requires n > 8 ==> byteNdx + MapBytes(n) > usemap.Length
    ensures found <==> FitsAt(usemap[..], byteNdx, n)
    ensures found ==> startSlot == StartAt(usemap[..], byteNdx, n)
  {
    found, startSlot := false, 0;
    var freeBits, bitInByte := FindConsecutiveZeroBits(usemap[byteNdx], n);
    if freeBits >= n {
      startSlot := byteNdx * 8 + bitInByte;
      found := true;
    } else if byteNdx + 1 < usemap.Length {
      var _, tailBit := FindConsecutiveZeroBits(usemap[byteNdx], freeBits);
      if tailBit == 8 - freeBits {
        var needBits := n - freeBits;
        var freeBits2, bitInByte2 := FindConsecutiveZeroBits(usemap[byteNdx + 1], needBits);
        if freeBits2 >= needBits && bitInByte2 == 0 {
          startSlot := byteNdx * 8 + tailBit;
          found := true;
        }
      }
    }
  }

  lemma {:induction false} FullByte(bytes: seq<Byte>, b: nat, n: nat)
    requires b < |bytes| && bytes[b] == 0xFF && n > 0
    ensures !FitsAt(bytes, b, n)
  {
  }

  /** One turn of the search loop; `next` is where the loop goes on after a failure. */
  method CheckByte(usemap: array<Byte>, byteNdx: nat, n: nat) returns (found: bool, startSlot: nat, next: nat)
    requires 0 < n && byteNdx < usemap.Length
    ensures found <==> FitsAt(usemap[..], byteNdx, n)
    ensures found ==> startSlot == StartAt(usemap[..], byteNdx, n)
    ensures !found ==> byteNdx < next <= usemap.Length
    ensures !found ==> forall i: nat :: byteNdx <= i < next ==> !FitsAt(usemap[..], i, n)
  {
    hide FitsBits, Longest, ZeroRun;
    var slotBytes := MapBytes(n);
    next := byteNdx + 1;
    if usemap[byteNdx] == 0xFF {
      FullByte(usemap[..], byteNdx, n);
      found, startSlot := false, 0;
    } else if slotBytes > 1 && byteNdx + slotBytes <= usemap.Length {
      var stop;
      found, stop := ScanZeroBytes(usemap, byteNdx, slotBytes);
      startSlot := byteNdx * 8;
      if !found {
        SkippedRuns(usemap[..], byteNdx, stop, n);
        next := stop + 1;
      }
    } else {
      found, startSlot := CheckBits(usemap, byteNdx, n);
    }
  }

  /** The search loop: the first byte, in scan order, at which the request fits. */
  method SearchLoop(usemap: array<Byte>, from: nat, n: nat) returns (found: bool, startSlot: nat)
    requires 0 < n && from <= usemap.Length
    ensures found <==> Search(usemap[..], from, n) < usemap.Length
    ensures found ==> startSlot == StartAt(usemap[..], Search(usemap[..], from, n), n)
  {
    ghost var fits := FitMap(usemap[..], n);
    var byteNdx := from;
    while byteNdx < usemap.Length
      invariant from <= byteNdx <= usemap.Length
      invariant forall i: nat :: from <= i < byteNdx ==> !fits[i]
    {
      var next;
      found, startSlot, next := CheckByte(usemap, byteNdx, n);
      if found {
        FirstIs(fits, from, byteNdx);
        return;
      }
      byteNdx := next;
    }
    FirstIs(fits, from, |fits|);
    found, startSlot := false, 0;
  }

  class SlotMap {
    const total: nat
    var used: nat
    const usemap: array<Byte>

    ghost function State(): Slots
      reads this, usemap
    {
      Slots(total, used, usemap[..])
    }

    ghost predicate Valid()
      reads this, usemap
    {
      SlotSpec.Valid(State())
    }

    /** slotmap_init and slotmap_clear: every slot is free. */
    constructor (numSlots: nat)
      ensures Valid() && State() == Init(numSlots) && fresh(usemap)
    {
      total := numSlots;
      used := 0;
      usemap := new Byte[MapBytes(numSlots)](_ => 0);
      new;
      assert usemap[..] == Init(numSlots).bytes;
      InitValid(numSlots);
    }

    /** The checks and the search of slotmap_reserve. */
    method Find(n: nat) returns (slot: int)
      requires Valid()
      ensures slot == ReserveSlot(State(), n)
    {
      if n == 0 || total - used < n {
        return -1;
      }
      var from := if MapBytes(n) > 1 then used / 8 else 0;
      var found, startSlot := SearchLoop(usemap, from, n);
      assert from == SearchFrom(State(), n);
      slot := if found then startSlot else -1;
    }

    /** slotmap_reserve. */
    method Reserve(n: nat) returns (slot: int)
      requires Valid()
      modifies this, usemap
      ensures Valid()
      ensures slot == ReserveSlot(old(State()), n)
      ensures State() == SlotSpec.Reserve(old(State()), n)
    {
      ghost var st := State();
      ReserveKeeps(st, n);
      slot := Find(n);
      if slot >= 0 {
        ReserveSound(st, n);
        MarkSlots(slot, n);
        used := used + n;
        assert State() == SlotSpec.Reserve(st, n);
      }
    }

    method MarkSlots(start: nat, n: nat)
      requires start + n <= 8 * usemap.Length
      modifies usemap
      ensures usemap[..] == MarkRange(old(usemap[..]), start, n)
    {
      var i := 0;
      while i < n
        invariant 0 <= i <= n
        invariant usemap[..] == MarkRange(old(usemap[..]), start, i)
      {
        var byteNdx, bit := (start + i) / 8, (start + i) % 8;
        usemap[byteNdx] := SetBit(usemap[byteNdx], bit);
        i := i + 1;
      }
    }

    method ClearSlots(start: nat, n: nat)
      requires start + n <= 8 * usemap.Length
      modifies usemap
      ensures usemap[..] == ClearRange(old(usemap[..]), start, n)
    {
      var i := 0;
      while i < n
        invariant 0 <= i <= n
        invariant usemap[..] == ClearRange(old(usemap[..]), start, i)
      {
        var byteNdx, bit := (start + i) / 8, (start + i) % 8;
        usemap[byteNdx] := ClearBit(usemap[byteNdx], bit);
        i := i + 1;
      }
    }

    /** slotmap_release; false stands for EINVAL. */
    method Release(start: nat, n: nat) returns (ok: bool)
      requires Valid() && start < 8 * usemap.Length && start + n <= 8 * usemap.Length
      modifies this, usemap
      ensures ok == old(IsUsed(usemap[..], start))
      ensures State() == if ok then SlotSpec.Release(old(State()), start, n) else old(State())
      ensures old(Run(start, n) <= UsedSet(usemap[..])) ==> Valid()
    {
      ghost var st := State();
      if Run(start, n) <= UsedSet(st.bytes) {
        ReleaseKeeps(st, start, n);
      }
      if !Bit(usemap[start / 8], start % 8) {
        return false;
      }
      ClearSlots(start, n);
      used := if n <= used then used - n else used + SIZE_RANGE - n % SIZE_RANGE;
      assert State() == SlotSpec.Release(st, start, n);
      return true;
    }
  }

  lemma {:induction false} InitValid(total: nat)
    ensures SlotSpec.Valid(Init(total))
  {
    var bytes := Init(total).bytes;
    forall s: nat | s < 8 * |bytes| ensures !IsUsed(bytes, s) { ZeroByte(bytes[s / 8]); }
    assert UsedSet(bytes) == {};
  }

  /** A used byte at `stop` rules out every zero run that would cover it. */
  lemma {:induction false} SkippedRuns(bytes: seq<Byte>, runStart: nat, stop: nat, n: nat)
    requires n > 8 && runStart <= stop < |bytes| && stop < runStart + MapBytes(n) && bytes[stop] != 0
    ensures forall i: nat :: runStart <= i <= stop ==> !FitsAt(bytes, i, n)
  {
  }

  lemma {:induction false} FirstIs(fits: seq<bool>, from: nat, b: nat)
    requires from <= b <= |fits| && (b < |fits| ==> fits[b]) && forall i: nat :: from <= i < b ==> !fits[i]
    ensures FirstTrue(fits, from) == b
    decreases b - from
  {
    if from < b { FirstIs(fits, from + 1, b); }
  }

  /** sizeof(slot_map). */
  const STRUCT_BYTES: nat := 16

  /** The bytes left for the use map, in unsigned arithmetic. */
  function UseBytes(regionSz: nat): nat {
    if regionSz >= STRUCT_BYTES then regionSz - STRUCT_BYTES else regionSz + SIZE_RANGE - STRUCT_BYTES
  }

  /** slotmap_init in a region of the given size: null exactly if the use map does not fit. */
  method SlotmapInit(numSlots: nat, regionSz: nat) returns (smap: SlotMap?)
    requires numSlots + 8 < SIZE_RANGE
    ensures smap == null <==> MapBytes(numSlots) > UseBytes(regionSz)
    ensures smap != null ==>
              fresh(smap) && fresh(smap.usemap) && smap.Valid() && smap.State() == Init(numSlots)
  {
    if MapBytes(numSlots) > UseBytes(regionSz) {
      return null;
    }
    smap := new SlotMap(numSlots);
  }
}
