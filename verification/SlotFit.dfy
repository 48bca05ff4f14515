/** When slotmap_reserve has to succeed, and where: told by the bits of the map alone. */
module SlotFit {
  import opened Bits
  import opened SlotRuns
  import opened SlotSpec

  // ---------- the free slots of one byte ----------

  /** `n` free slots in byte `b`, from its bit `s` on. */
  ghost predicate FreeInByte(bytes: seq<Byte>, b: nat, s: nat, n: nat) {
    s + n <= 8 && RunFree(bytes, 8 * b + s, n)
  }

  /** The run of `l` slots at bit `s` is the first of the longest free ones of byte `b`. */
  ghost predicate FirstLongest(bytes: seq<Byte>, b: nat, s: nat, l: nat) {
    && l > 0 && FreeInByte(bytes, b, s, l)
    && forall i: nat, n: nat :: FreeInByte(bytes, b, i, n) ==> n < l || (n == l && s <= i)
  }

  lemma {:induction false} BitOfSlot(bytes: seq<Byte>, b: nat, j: nat)
    requires b < |bytes| && j < 8
    ensures IsUsed(bytes, 8 * b + j) <==> Bit(bytes[b], j)
  {
    assert (8 * b + j) / 8 == b && (8 * b + j) % 8 == j;
  }

  lemma {:induction false} RunInByte(bytes: seq<Byte>, b: nat, s: nat, n: nat)
    requires b < |bytes| && s < 8
    ensures FreeInByte(bytes, b, s, n) <==> n <= RunLen(Free(bytes[b]), s)
  {
    var z := Free(bytes[b]);
    forall j: nat | j < 8 ensures IsUsed(bytes, 8 * b + j) <==> !z[j] { BitOfSlot(bytes, b, j); }
    if n <= RunLen(z, s) {
      forall x: nat | 8 * b + s <= x < 8 * b + s + n ensures !IsUsed(bytes, x) {
        assert x == 8 * b + (x - 8 * b) && z[x - 8 * b];
      }
    }
    hide IsUsed, Free;
  }

  lemma {:induction false} LongestFree(bytes: seq<Byte>, b: nat)
    requires b < |bytes|
    ensures bytes[b] == 0xFF <==> Longest(bytes[b]).1 == 0
    ensures bytes[b] != 0xFF ==> FirstLongest(bytes, b, Longest(bytes[b]).0, Longest(bytes[b]).1)
  {
    FullByte(bytes[b]);
    var z := Free(bytes[b]);
    var (s, l) := Best(z, |z|);
    forall i: nat, n: nat | i < 8 ensures FreeInByte(bytes, b, i, n) <==> n <= RunLen(z, i) {
      RunInByte(bytes, b, i, n);
    }
    if j: nat :| j < 8 && !Bit(bytes[b], j) {
      assert z[j] && RunLen(z, j) <= l;
    }
    if l > 0 { assert z[s]; }
  }

  lemma {:induction false} LongestOne(bytes: seq<Byte>, b: nat, s: nat, l: nat)
    requires b < |bytes| && FirstLongest(bytes, b, s, l)
    ensures bytes[b] != 0xFF && Longest(bytes[b]) == (s, l)
  {
    var z := Free(bytes[b]);
    RunInByte(bytes, b, s, l);
    assert FreeInByte(bytes, b, s, RunLen(z, s)) by { RunInByte(bytes, b, s, RunLen(z, s)); }
    forall i: nat | i < 8 ensures FreeInByte(bytes, b, i, RunLen(z, i)) { RunInByte(bytes, b, i, RunLen(z, i)); }
    hide FreeInByte;
    LongestUnique(bytes[b], s, l);
    LongestFree(bytes, b);
  }

  // ---------- where a request has room ----------

  /** The longest free run of byte `b` is its head, with at least `n` slots. */
  ghost predicate Head(bytes: seq<Byte>, b: nat, n: int) {
    exists h: nat :: FirstLongest(bytes, b, 0, h) && h >= n
  }

  /** At most eight slots have room at byte `b`: its longest free run is long enough, or it is the tail
      of the byte and, with a head that is the longest free run of the next byte, long enough. */
  ghost predicate RoomInBits(bytes: seq<Byte>, b: nat, n: nat) {
    exists s: nat, l: nat :: FirstLongest(bytes, b, s, l) && Enough(bytes, b, s, l, n)
  }

  ghost predicate Enough(bytes: seq<Byte>, b: nat, s: nat, l: nat, n: nat) {
    l >= n || (s + l == 8 && Head(bytes, b + 1, n - l))
  }

  /** More than eight have room at byte `b`: whole free bytes. */
  ghost predicate RoomInBytes(bytes: seq<Byte>, b: nat, n: nat) {
    RunFree(bytes, 8 * b, 8 * MapBytes(n))
  }

  /** Such a request is looked for only behind as many bytes as the used slots would fill. */
  ghost predicate RoomAt(st: Slots, b: nat, n: nat) {
    b < |st.bytes| && if n <= 8 then RoomInBits(st.bytes, b, n) else st.used / 8 <= b && RoomInBytes(st.bytes, b, n)
  }

  lemma {:induction false} InMap(bytes: seq<Byte>, b: nat, s: nat, l: nat)
    requires FirstLongest(bytes, b, s, l)
    ensures b < |bytes|
  {
  }

  lemma {:induction false} HeadFits(bytes: seq<Byte>, b: nat, n: int)
    requires n > 0
    ensures Head(bytes, b, n) <==> b < |bytes| && Longest(bytes[b]).0 == 0 && Longest(bytes[b]).1 >= n
  {
    hide FirstLongest;
    if b < |bytes| { LongestFree(bytes, b); }
    if Head(bytes, b, n) {
      var h: nat :| FirstLongest(bytes, b, 0, h) && h >= n;
      InMap(bytes, b, 0, h);
      LongestOne(bytes, b, 0, h);
    }
  }

  lemma {:induction false} BitsFit(bytes: seq<Byte>, b: nat, n: nat)
    requires b < |bytes|
    ensures FitsBits(bytes, b, n) <==> RoomInBits(bytes, b, n)
  {
    hide FirstLongest, Head, Longest;
    LongestFree(bytes, b);
    var (s, l) := Longest(bytes[b]);
    if l < n { HeadFits(bytes, b + 1, n - l); }
    assert bytes[b] != 0xFF ==> (FitsBits(bytes, b, n) <==> Enough(bytes, b, s, l, n));
    hide FitsBits, Enough;
    if RoomInBits(bytes, b, n) {
      var s': nat, l': nat :| FirstLongest(bytes, b, s', l') && Enough(bytes, b, s', l', n);
      LongestOne(bytes, b, s', l');
    }
  }

  lemma {:induction false} BytesFit(bytes: seq<Byte>, b: nat, k: nat)
    ensures ZeroRun(bytes, b, k) <==> RunFree(bytes, 8 * b, 8 * k)
  {
    if ZeroRun(bytes, b, k) {
      forall x: nat | 8 * b <= x < 8 * b + 8 * k ensures !IsUsed(bytes, x) {
        ZeroByte(bytes[x / 8]);
      }
    }
    if RunFree(bytes, 8 * b, 8 * k) {
      forall i | b <= i < b + k ensures bytes[i] == 0 {
        forall j: nat | j < 8 ensures !Bit(bytes[i], j) { BitOfSlot(bytes, i, j); }
        ZeroByte(bytes[i]);
      }
    }
  }

  lemma {:induction false} RoomFits(st: Slots, b: nat, n: nat)
    requires b < |st.bytes|
    ensures RoomAt(st, b, n) <==> FitsAt(st.bytes, b, n) && (n > 8 ==> st.used / 8 <= b)
  {
    if n <= 8 { BitsFit(st.bytes, b, n); } else { BytesFit(st.bytes, b, MapBytes(n)); }
    hide FitsBits, RoomInBits, ZeroRun;
  }

  /** A reservation succeeds exactly if it asks for some of the slots not in use and some byte has room for
      it; and then at the first such byte, at the first of its longest free runs. */
  lemma {:induction false} ReserveIff(st: Slots, n: nat)
    requires Shaped(st)
    ensures ReserveSlot(st, n) >= 0 <==> 0 < n <= st.total - st.used && exists b: nat :: RoomAt(st, b, n)
    ensures ReserveSlot(st, n) >= 0 ==>
              && RoomAt(st, ReserveSlot(st, n) / 8, n)
              && (forall b: nat :: b < ReserveSlot(st, n) / 8 ==> !RoomAt(st, b, n))
              && (n > 8 ==> ReserveSlot(st, n) % 8 == 0)
              && (n <= 8 ==> exists l: nat :: FirstLongest(st.bytes, ReserveSlot(st, n) / 8, ReserveSlot(st, n) % 8, l))
  {
    var fits, from := FitMap(st.bytes, n), SearchFrom(st, n);
    var b0 := FirstTrue(fits, from);
    forall b: nat | b < |st.bytes| ensures RoomAt(st, b, n) <==> fits[b] && (n > 8 ==> st.used / 8 <= b) {
      RoomFits(st, b, n);
    }
    if ReserveSlot(st, n) >= 0 {
      var s := StartAt(st.bytes, b0, n);
      assert s / 8 == b0;
      if n <= 8 {
        LongestFree(st.bytes, b0);
        assert FirstLongest(st.bytes, s / 8, s % 8, Longest(st.bytes[b0]).1);
      }
    }
    hide FitsAt, RoomInBits, RoomInBytes, FirstLongest, FitMap;
  }

  /** Up to eight free slots in a row inside a byte are found there or further ahead. */
  lemma {:induction false} SmallServed(st: Slots, n: nat, b: nat, s: nat)
    requires Shaped(st) && 0 < n <= 8 && n <= st.total - st.used && FreeInByte(st.bytes, b, s, n)
    ensures 0 <= ReserveSlot(st, n) < 8 * b + 8
  {
    var bytes := st.bytes;
    RunInByte(bytes, b, s, n);
    LongestFree(bytes, b);
    var (p, l) := Best(Free(bytes[b]), 8);
    assert FirstLongest(bytes, b, p, l) && Enough(bytes, b, p, l, n);
    assert RoomAt(st, b, n);
    ReserveIff(st, n);
    hide FirstLongest, RoomInBits;
  }

  /** Up to eight free slots across two bytes are found if the first byte has no longer run than its tail, and
      none as long before it, and the second none longer than its head. */
  lemma {:induction false} StraddleServed(st: Slots, n: nat, b: nat, l: nat, h: nat)
    requires Shaped(st) && 0 < n <= 8 && n <= st.total - st.used && n <= l + h && l <= 8
    requires FirstLongest(st.bytes, b, 8 - l, l) && FirstLongest(st.bytes, b + 1, 0, h)
    ensures 0 <= ReserveSlot(st, n) < 8 * b + 8
  {
    assert Head(st.bytes, b + 1, n - l) && Enough(st.bytes, b, 8 - l, l, n);
    assert RoomAt(st, b, n);
    ReserveIff(st, n);
    hide FirstLongest, RoomInBits;
  }

  /** More than eight slots: whole free bytes are found if they begin behind as many bytes as the used slots
      would fill. */
  lemma {:induction false} BytesServed(st: Slots, n: nat, b: nat)
    requires Shaped(st) && n > 8 && n <= st.total - st.used && st.used / 8 <= b
    requires RunFree(st.bytes, 8 * b, 8 * MapBytes(n))
    ensures 0 <= ReserveSlot(st, n) <= 8 * b
  {
    assert RoomAt(st, b, n);
    ReserveIff(st, n);
    hide RoomAt;
  }

  /** So free slots in front of that are missed: with the first half of a map free and the other half in use, as
      after reserving both and releasing the first, the first half cannot be reserved again. */
  lemma {:induction false} FrontMissed(st: Slots, half: nat)
    requires half > 1 && st.total == 16 * half && st.used == 8 * half && |st.bytes| == 2 * half
    requires forall i :: 0 <= i < |st.bytes| ==> st.bytes[i] == if i < half then 0 else 0xFF
    ensures Valid(st) && RunFree(st.bytes, 0, 8 * half) && 8 * half <= st.total - st.used
    ensures ReserveSlot(st, 8 * half) == -1
  {
    forall x: nat | x < 8 * |st.bytes| ensures IsUsed(st.bytes, x) <==> x >= 8 * half {
      ZeroByte(st.bytes[x / 8]);
      FullByte(st.bytes[x / 8]);
    }
    hide IsUsed;
    assert UsedSet(st.bytes) == Run(8 * half, 8 * half);
    RunCard(8 * half, 8 * half);
    forall b: nat ensures !RoomAt(st, b, 8 * half) {
      if half <= b < |st.bytes| { assert IsUsed(st.bytes, 8 * b); }
    }
    ReserveIff(st, 8 * half);
    ReserveSound(st, 8 * half);
    hide ReserveSlot;
  }
}
