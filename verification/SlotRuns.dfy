/** find_consecutive_zero_bits: the first longest run of zero bits in a byte.
    A byte is looked at as the sequence of its eight "free" flags, lowest bit first. */
module SlotRuns {
  import opened Bits

  function Free(v: Byte): (z: seq<bool>)
    ensures |z| == 8 && forall j: nat :: j < 8 ==> z[j] == !Bit(v, j)
  {
    seq(8, j requires 0 <= j < 8 => !Bit(v, j))
  }

  /** Length of the run of free flags that starts at `i`. */
  function RunLen(z: seq<bool>, i: nat): (n: nat)
    requires i <= |z|
    ensures i + n <= |z|
    ensures forall j: nat :: i <= j < i + n ==> z[j]
    ensures i + n < |z| ==> !z[i + n]
    decreases |z| - i
  {
    if i == |z| || !z[i] then 0 else 1 + RunLen(z, i + 1)
  }

  /** The first longest run among those starting below `k`, as (start, length). */
  function Best(z: seq<bool>, k: nat): (r: (nat, nat))
    requires k <= |z|
    ensures if k > 0 then r.0 < k && r.1 == RunLen(z, r.0) else r == (0, 0)
    ensures forall i: nat :: i < k ==> RunLen(z, i) <= r.1
    ensures forall i: nat :: i < r.0 ==> RunLen(z, i) < r.1
  {
    if k == 0 then (0, 0)
    else
      var b := Best(z, k - 1);
      if RunLen(z, k - 1) > b.1 then (k - 1, RunLen(z, k - 1)) else b
  }

  function Longest(v: Byte): (r: (nat, nat))
    ensures r.0 < 8 && r.1 == RunLen(Free(v), r.0)
  {
    var z := Free(v);
    Best(z, |z|)
  }

  /** The first longest run is determined by its defining property. */
  lemma {:induction false} LongestUnique(v: Byte, s: nat, l: nat)
    requires s < 8 && l == RunLen(Free(v), s)
    requires forall i: nat :: i < 8 ==> RunLen(Free(v), i) <= l
    requires forall i: nat :: i < s ==> RunLen(Free(v), i) < l
    ensures Longest(v) == (s, l)
  {
    var b := Longest(v);
    assert RunLen(Free(v), s) <= b.1;
    assert RunLen(Free(v), b.0) <= l;
  }

  /** Starting later inside a run gives a shorter run. */
  lemma {:induction false} RunInside(z: seq<bool>, i: nat, j: nat)
    requires i <= j <= |z| && j <= i + RunLen(z, i)
    ensures RunLen(z, j) == i + RunLen(z, i) - j
    decreases j - i
  {
    if i < j {
      RunInside(z, i + 1, j);
    }
  }

  /** The inner loop jumps over a whole run; nothing inside it can beat its start. */
  lemma {:induction false} BestSkip(z: seq<bool>, i: nat, k: nat)
    requires i < k <= |z| && k <= i + RunLen(z, i) + 1
    ensures Best(z, k) == if RunLen(z, i) > Best(z, i).1 then (i, RunLen(z, i)) else Best(z, i)
    decreases k
  {
    if k > i + 1 {
      BestSkip(z, i, k - 1);
      RunInside(z, i, k - 1);
    }
  }

  /** The inner loop of find_consecutive_zero_bits: count the zero bits from `start` on. */
  method CountRun(z: seq<bool>, start: nat) returns (runMax: nat)
    requires start <= |z|
    ensures runMax == RunLen(z, start)
  {
    var bit := start;
    runMax := 0;
    while bit < |z| && z[bit]
      invariant start <= bit <= |z| && runMax == bit - start
      invariant RunLen(z, start) == runMax + RunLen(z, bit)
    {
      runMax := runMax + 1;
      bit := bit + 1;
    }
  }

  /** The outer loop, which goes on behind the bit that ended the run. */
  method ScanRuns(z: seq<bool>) returns (maxFree: nat, freeStart: nat)
    ensures (freeStart, maxFree) == Best(z, |z|)
  {
    maxFree, freeStart := 0, 0;
    var bit := 0;
    while bit < |z|
      invariant 0 <= bit <= |z| + 1
      invariant (freeStart, maxFree) == Best(z, if bit < |z| then bit else |z|)
    {
      var runStart := bit;
      var runMax := CountRun(z, bit);
      bit := bit + runMax + 1;
      BestSkip(z, runStart, if bit < |z| then bit else |z|);
      if runMax > maxFree {
        maxFree := runMax;
        freeStart := runStart;
      }
    }
  }

  method FindConsecutiveZeroBits(v: Byte, numBits: nat) returns (maxFree: nat, startBit: int)
    ensures maxFree == Longest(v).1
    ensures startBit == if maxFree >= numBits then Longest(v).0 else -1
  {
    var freeStart;
    maxFree, freeStart := ScanRuns(Free(v));
    startBit := if maxFree >= numBits then freeStart else -1;
  }
}
