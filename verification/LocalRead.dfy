/** client_read.c: serving a read request from the local extents and the local log. */
module LocalRead {
  import opened Wrappers
  import opened Bits
  import opened Extents
  import SegTree
  import LogStore

  /** (size_t)-1, the value of a coverage bound that is not set. */
  const UNSET: nat := 0xFFFF_FFFF_FFFF_FFFF

  const EINPROGRESS: int := 115

  predicate InSpan(o: nat, offset: nat, length: nat) {
    offset <= o < offset + length
  }

  /** get_extent_coverage: request byte offset, extent byte offset and length of the overlap. */
  function ExtentCoverage(reqOffset: nat, reqLength: nat, extOffset: nat, extLength: nat): (r: Option<(nat, nat, nat)>)
    requires reqOffset + reqLength > 0 && extLength > 0
    ensures r.None? <==> extOffset + extLength <= reqOffset || reqOffset + reqLength <= extOffset
    ensures r.Some? ==> forall o: nat ::
              InSpan(o, reqOffset, reqLength) && InSpan(o, extOffset, extLength)
              <==> InSpan(o, reqOffset + r.value.0, r.value.2)
    ensures r.Some? ==> reqOffset + r.value.0 == extOffset + r.value.1 && (reqLength > 0 ==> 0 < r.value.2)
                        && r.value.0 + r.value.2 <= reqLength && r.value.1 + r.value.2 <= extLength
  {
    var reqEnd, extEnd := reqOffset + reqLength - 1, extOffset + extLength - 1;
    if extEnd < reqOffset || extOffset > reqEnd then None
    else
      var start := if reqOffset > extOffset then reqOffset else extOffset;
      var end := if reqEnd < extEnd then reqEnd else extEnd;
      Some((start - reqOffset, start - extOffset, end - start + 1))
  }

  /** The bytes `data` at file offsets `at` and following. */
  ghost function Bytes(at: nat, data: seq<Byte>): map<nat, Byte> {
    map o: nat | at <= o < at + |data| && InSpan(o, at, |data|) :: data[o - at]
  }

  lemma {:induction false} BytesDomain(at: nat, data: seq<Byte>, o: nat)
    ensures o in Bytes(at, data) <==> InSpan(o, at, |data|)
    ensures InSpan(o, at, |data|) ==> Bytes(at, data)[o] == data[o - at]
  {
  }

  // ---------- the coverage window ----------

  ghost function Span(at: nat, n: nat): set<nat> {
    set o: nat | at <= o < at + n && InSpan(o, at, n)
  }

  /** `[lo, hi]` is the smallest window around the offsets `s`; unset if there are none. */
  ghost predicate Hull(lo: nat, hi: nat, s: set<nat>) {
    if s == {} then lo == hi == UNSET
    else lo in s && hi in s && forall o :: o in s ==> lo <= o <= hi < UNSET
  }

  function Lower(lo: nat, at: nat): nat {
    if lo == UNSET || at < lo then at else lo
  }

  function Upper(hi: nat, end: nat): nat {
    if hi == UNSET || end > hi then end else hi
  }

  lemma {:induction false} HullGrows(lo: nat, hi: nat, s: set<nat>, at: nat, n: nat)
    requires Hull(lo, hi, s) && n > 0 && at + n <= UNSET
    ensures Hull(Lower(lo, at), Upper(hi, at + n - 1), s + Span(at, n))
  {
    assert at in Span(at, n) && at + n - 1 in Span(at, n) by {
      assert InSpan(at, at, n) && InSpan(at + n - 1, at, n);
    }
  }

  // ---------- which offsets a run of extents covers ----------

  /** Every offset of `[from, to)` is mapped. */
  ghost predicate Mapped(ss: seq<Seg>, from: nat, to: nat) {
    forall o: nat :: from <= o < to ==> o in ToMap(ss)
  }

  /** An offset strictly between two neighbours is not mapped. */
  lemma {:induction false} GapUnmapped(ss: seq<Seg>, j: nat, o: nat)
    requires Ordered(ss) && j <= |ss|
    requires (j > 0 ==> ss[j - 1].end < o) && (j < |ss| ==> o < ss[j].start)
    ensures o !in ToMap(ss)
  {
    ToMapDomain(ss, o);
    forall i | 0 <= i < |ss| ensures !(ss[i].start <= o <= ss[i].end) {
      if i < j { assert i == j - 1 || ss[i].end < ss[j - 1].start; assert Proper(ss[j - 1]); }
      else { assert i == j || ss[j].end < ss[i].start; assert Proper(ss[j]); }
    }
  }

  lemma {:induction false} ExtendMapped(ss: seq<Seg>, from: nat, expected: nat, j: nat)
    requires Ordered(ss) && j < |ss| && Mapped(ss, from, expected) && ss[j].start <= expected
    ensures Mapped(ss, from, ss[j].end + 1)
  {
    forall o: nat | from <= o < ss[j].end + 1 ensures o in ToMap(ss) {
      if o >= expected { ToMapAt(ss, j, o); }
    }
  }

  /** Every offset up to `expected` is mapped, the last of them by extent `j - 1`; if none was found
      for the first byte there is nothing to walk. */
  ghost predicate Walked(ss: seq<Seg>, found: bool, k: nat, j: nat, offset: nat, expected: nat) {
    && offset <= expected && j <= |ss| && Mapped(ss, offset, expected)
    && if !found then j == |ss| && expected == offset && NoOverlap(ss, offset, offset)
       else
         && k <= j && k < |ss| && ss[k].start <= offset <= ss[k].end
         && (if j == k then expected == offset else ss[j - 1].end + 1 == expected)
  }

  lemma {:induction false} WalkOn(ss: seq<Seg>, found: bool, k: nat, j: nat, offset: nat, expected: nat)
    requires Ordered(ss) && Walked(ss, found, k, j, offset, expected) && j < |ss| && ss[j].start <= expected
    ensures Walked(ss, found, k, j + 1, offset, ss[j].end + 1)
  {
    assert Proper(ss[j]);
    if j > k {
      assert ss[j - 1].end < ss[j].start;
    }
    ExtendMapped(ss, offset, expected, j);
    hide Mapped, Ordered;
  }

  /** Where the walk stops short, the next byte is not mapped. */
  lemma {:induction false} WalkGap(ss: seq<Seg>, found: bool, k: nat, j: nat, offset: nat, expected: nat)
    requires Ordered(ss) && Walked(ss, found, k, j, offset, expected) && (j < |ss| ==> expected < ss[j].start)
    ensures offset <= expected && expected !in ToMap(ss)
  {
    if found {
      GapUnmapped(ss, j, expected);
    } else {
      ToMapDomain(ss, offset);
      forall i | 0 <= i < |ss| ensures !(ss[i].start <= offset <= ss[i].end) {
        assert !Overlaps(ss[i], offset, offset);
      }
    }
  }

  lemma {:induction false} WalkEnd(ss: seq<Seg>, found: bool, k: nat, j: nat, offset: nat, expected: nat)
    requires Walked(ss, found, k, j, offset, expected)
    ensures offset <= expected && Mapped(ss, offset, expected) && (!found ==> expected == offset)
  {
  }

  /** The first loop of service_local_reqs: walk the extents from the one that holds the first byte
      and look for a gap. */
  method CheckLocal(extents: SegTree.SegTree, offset: nat, length: nat)
    returns (haveLocal: bool, first: Option<Seg>, ghost k: nat)
    requires extents.Valid()
    ensures haveLocal <==> Mapped(extents.Nodes(), offset, offset + length)
    ensures first.Some? ==>
              && k < |extents.Nodes()| && extents.Nodes()[k] == first.value
              && first.value.start <= offset <= first.value.end
    ensures haveLocal && length > 0 ==> first.Some?
  {
    ghost var ss := extents.Nodes();
    var reqEnd := offset + length;
    first, k := extents.Find(offset, offset);
    var next := first;
    var expected: nat := offset;
    haveLocal := true;
    ghost var j := if first.Some? then k else |ss|;
    assert Ordered(ss) && Walked(ss, first.Some?, k, j, offset, expected);
    hide Ordered, Walked, ToMap, SegTree.SegTree.Valid, SegTree.SegTree.Nodes;
    while next.Some? && next.value.start < reqEnd && haveLocal
      invariant j <= |ss| && next == if j < |ss| then Some(ss[j]) else None
      invariant Walked(ss, first.Some?, k, j, offset, expected)
      invariant !haveLocal ==> offset <= expected < reqEnd && expected !in ToMap(ss)
      decreases |ss| - j, haveLocal
    {
      if expected >= next.value.start {
        WalkOn(ss, first.Some?, k, j, offset, expected);
        expected := next.value.end + 1;
        next := extents.Iter(next, j);
        j := j + 1;
      } else {
        WalkGap(ss, first.Some?, k, j, offset, expected);
        haveLocal := false;
      }
    }
    if haveLocal && expected < reqEnd {
      WalkGap(ss, first.Some?, k, j, offset, expected);
      haveLocal := false;
    }
    WalkEnd(ss, first.Some?, k, j, offset, expected);
  }

  /** One read request and the user buffer it fills. */
  class ReadReq {
    const offset: nat
    const length: nat
    const buf: array<Byte>
    var coverBegin: nat
    var coverEnd: nat
    var nread: nat
    var errcode: int

    constructor (off: nat, userBuf: array<Byte>)
      requires 0 < userBuf.Length < UNSET
      ensures offset == off && buf == userBuf && length == userBuf.Length && coverBegin == coverEnd == UNSET
      ensures nread == 0 && errcode == EINPROGRESS
    {
      offset, buf, length := off, userBuf, userBuf.Length;
      coverBegin, coverEnd, nread, errcode := UNSET, UNSET, 0, EINPROGRESS;
    }

    ghost predicate Valid()
    {
      0 < length < UNSET && buf.Length == length
    }

    /** update_read_req_coverage: the window becomes the hull of all it covered and the new bytes. */
    method UpdateCoverage(at: nat, n: nat)
      requires n > 0 && at + n <= UNSET
      modifies this`coverBegin, this`coverEnd
      ensures forall s :: Hull(old(coverBegin), old(coverEnd), s) ==> Hull(coverBegin, coverEnd, s + Span(at, n))
      ensures coverBegin == Lower(old(coverBegin), at) && coverEnd == Upper(old(coverEnd), at + n - 1)
    {
      var end := at + n - 1;
      if coverBegin == UNSET || at < coverBegin {
        coverBegin := at;
      }
      if coverEnd == UNSET || end > coverEnd {
        coverEnd := end;
      }
      forall s | Hull(old(coverBegin), old(coverEnd), s) ensures Hull(coverBegin, coverEnd, s + Span(at, n)) {
        HullGrows(old(coverBegin), old(coverEnd), s, at, n);
      }
    }
  }

  /** The log positions of all extents exist. */
  ghost predicate InLog(ss: seq<Seg>, size: nat) {
    forall i :: 0 <= i < |ss| ==> Proper(ss[i]) && ss[i].ptr + (ss[i].end - ss[i].start) < size
  }

  /** The log holds `b` for file offset `o`. */
  ghost predicate Logged(m: map<nat, nat>, o: nat, flat: seq<Byte>, b: Byte) {
    o in m && m[o] < |flat| && flat[m[o]] == b
  }

  /** The first `n` bytes of the buffer are what the log holds for offsets `offset` and following. */
  ghost predicate Filled(buf: seq<Byte>, n: nat, m: map<nat, nat>, offset: nat, flat: seq<Byte>) {
    n <= |buf| && forall i :: 0 <= i < n ==> Logged(m, offset + i, flat, buf[i])
  }

  /** Splicing logged bytes in behind the filled part extends it. */
  lemma {:induction false} FillMore(buf: seq<Byte>, n: nat, data: seq<Byte>, m: map<nat, nat>, offset: nat,
                                    flat: seq<Byte>)
    requires Filled(buf, n, m, offset, flat) && n + |data| <= |buf|
    requires forall i :: 0 <= i < |data| ==> Logged(m, offset + n + i, flat, data[i])
    ensures Filled(buf[..n] + data + buf[n + |data|..], n + |data|, m, offset, flat)
  {
    var buf' := buf[..n] + data + buf[n + |data|..];
    forall i | 0 <= i < n + |data| ensures Logged(m, offset + i, flat, buf'[i]) {
      if i >= n {
        assert Logged(m, offset + n + (i - n), flat, data[i - n]);
      } else {
        assert Logged(m, offset + i, flat, buf[i]);
      }
    }
  }

  /** Copying the overlap with the next extent extends the filled part of the buffer. */
  lemma {:induction false} FillStep(ss: seq<Seg>, j: nat, buf: seq<Byte>, n: nat, data: seq<Byte>,
                                    offset: nat, extOff: nat, flat: seq<Byte>)
    requires Ordered(ss) && j < |ss| && Filled(buf, n, ToMap(ss), offset, flat) && n + |data| <= |buf|
    requires ss[j].start + extOff == offset + n && ss[j].start + extOff + |data| <= ss[j].end + 1
    requires ss[j].ptr + extOff + |data| <= |flat| && data == flat[ss[j].ptr + extOff..ss[j].ptr + extOff + |data|]
    ensures Filled(buf[..n] + data + buf[n + |data|..], n + |data|, ToMap(ss), offset, flat)
  {
    hide Filled, ToMap, Ordered;
    forall i | 0 <= i < |data| ensures Logged(ToMap(ss), offset + n + i, flat, data[i]) {
      ToMapAt(ss, j, offset + n + i);
    }
    FillMore(buf, n, data, ToMap(ss), offset, flat);
  }

  /** One turn of the copy loop: the part of an extent that the request asks for. */
  method CopyExtent(ext: Seg, log: LogStore.LogStore, req: ReadReq) returns (at: nat, n: nat, ghost extOff: nat)
    requires req.Valid() && log.Valid() && req.buf != log.mem && req.buf != log.file
    requires Proper(ext) && ext.ptr + (ext.end - ext.start) < |log.Flat()|
    requires ext.start < req.offset + req.length && req.offset <= ext.end
    modifies req`coverBegin, req`coverEnd, req.buf
    ensures log.Flat() == old(log.Flat())
    ensures ExtentCoverage(req.offset, req.length, ext.start, ext.end + 1 - ext.start) == Some((at, extOff, n))
    ensures at + n <= req.length
    ensures req.buf[..]
            == old(req.buf[..at]) + log.Flat()[ext.ptr + extOff..ext.ptr + extOff + n] + old(req.buf[at + n..])
    ensures req.coverBegin == Lower(old(req.coverBegin), at) && req.coverEnd == Upper(old(req.coverEnd), at + n - 1)
  {
    var cover := ExtentCoverage(req.offset, req.length, ext.start, ext.end + 1 - ext.start);
    at, n := cover.value.0, cover.value.2;
    extOff := cover.value.1;
    var data := log.Read(ext.ptr + cover.value.1, n);
    forall i | 0 <= i < n { req.buf[at + i] := data[i]; }
    req.UpdateCoverage(at, n);
  }

  /** `n` bytes are filled once the extents from `k` up to (not including) `j` have been copied. */
  ghost predicate CopiedTo(ss: seq<Seg>, k: nat, j: nat, n: nat, offset: nat, length: nat)
    requires k <= j <= |ss|
  {
    if j == k then n == 0
    else 0 < n && n == (if ss[j - 1].end + 1 < offset + length then ss[j - 1].end + 1 - offset else length)
  }

  /** With every byte mapped, the next extent begins where the filled part ends. */
  lemma {:induction false} NextExtent(ss: seq<Seg>, k: nat, j: nat, n: nat, offset: nat, length: nat)
    requires Ordered(ss) && k <= j <= |ss| && k < |ss| && ss[k].start <= offset <= ss[k].end
    requires CopiedTo(ss, k, j, n, offset, length) && n < length && Mapped(ss, offset, offset + length)
    ensures j < |ss| && ss[j].start <= offset + n <= ss[j].end && (j > k ==> ss[j].start == offset + n)
  {
    if j > k {
      var o := offset + n;
      assert o in ToMap(ss);
      assert ss[j - 1].end < o;
      if j == |ss| || o < ss[j].start {
        GapUnmapped(ss, j, o);
        assert false;
      }
      assert ss[j - 1].end < ss[j].start && Proper(ss[j]);
    }
  }

  /** service_local_reqs for one non-empty request: served locally exactly when every byte asked for
      is in the local extents; then the buffer holds the logged bytes and the coverage window is the
      whole request. Otherwise nothing is touched. The error code stays in progress and the count of
      bytes read stays as it was either way. */
  method ServeLocal(extents: SegTree.SegTree, log: LogStore.LogStore, req: ReadReq) returns (haveLocal: bool)
    requires extents.Valid() && log.Valid() && req.Valid() && req.buf != log.mem && req.buf != log.file
    requires InLog(extents.Nodes(), |log.Flat()|) && req.coverBegin == UNSET && req.coverEnd == UNSET
    modifies req`coverBegin, req`coverEnd, req.buf
    ensures haveLocal <==> Mapped(extents.Nodes(), req.offset, req.offset + req.length)
    ensures haveLocal ==> Filled(req.buf[..], req.length, extents.Map(), req.offset, log.Flat())
    ensures haveLocal ==> req.coverBegin == 0 && req.coverEnd == req.length - 1
    ensures !haveLocal ==> req.buf[..] == old(req.buf[..]) && req.coverBegin == UNSET && req.coverEnd == UNSET
    ensures log.Flat() == old(log.Flat()) && extents.Nodes() == old(extents.Nodes())
  {
    var first: Option<Seg>;
    ghost var k: nat;
    haveLocal, first, k := CheckLocal(extents, req.offset, req.length);
    if haveLocal {
      CopyLocal(extents, log, req, first.value, k);
    }
  }

  /** While an extent of the request is left, so is a byte, and that extent holds it. */
  lemma {:induction false} NextReady(ss: seq<Seg>, k: nat, j: nat, n: nat, offset: nat, length: nat, size: nat)
    requires Ordered(ss) && k <= j < |ss| && ss[k].start <= offset <= ss[k].end && ss[j].start < offset + length
    requires length > 0 && InLog(ss, size) && CopiedTo(ss, k, j, n, offset, length)
             && Mapped(ss, offset, offset + length)
    ensures n < length && Proper(ss[j]) && ss[j].ptr + (ss[j].end - ss[j].start) < size
    ensures ss[j].start <= offset + n <= ss[j].end && (j > k ==> ss[j].start == offset + n)
  {
    if j > k {
      assert ss[j - 1].end < ss[j].start;
    }
    assert n < length;
    NextExtent(ss, k, j, n, offset, length);
  }

  lemma {:induction false} CopyStep(ss: seq<Seg>, k: nat, j: nat, n: nat, offset: nat, length: nat,
                                    at: nat, extOff: nat, m: nat, flat: seq<Byte>, buf: seq<Byte>, buf': seq<Byte>)
    requires Ordered(ss) && InLog(ss, |flat|) && Filled(buf, n, ToMap(ss), offset, flat) && n < length == |buf|
    requires k <= j < |ss| && ss[k].start <= offset && CopiedTo(ss, k, j, n, offset, length)
    requires ss[j].start <= offset + n <= ss[j].end && (j > k ==> ss[j].start == offset + n)
    requires Proper(ss[j])
    requires ExtentCoverage(offset, length, ss[j].start, ss[j].end + 1 - ss[j].start) == Some((at, extOff, m))
    requires at + m <= length && ss[j].ptr + extOff + m <= |flat|
    requires buf' == buf[..at] + flat[ss[j].ptr + extOff..ss[j].ptr + extOff + m] + buf[at + m..]
    ensures at == n && m > 0 && CopiedTo(ss, k, j + 1, n + m, offset, length)
    ensures Filled(buf', n + m, ToMap(ss), offset, flat)
  {
    hide InLog, Filled, ToMap, Ordered, Mapped;
    assert at == n && ss[j].start + extOff == offset + n;
    FillStep(ss, j, buf, n, flat[ss[j].ptr + extOff..ss[j].ptr + extOff + m], offset, extOff, flat);
  }

  /** The window covers exactly the first `n` bytes. */
  ghost predicate Covers(coverBegin: nat, coverEnd: nat, n: nat) {
    if n == 0 then coverBegin == UNSET && coverEnd == UNSET else coverBegin == 0 && coverEnd == n - 1
  }

  /** One turn, stated on the extents before and after `j`. */
  method CopyTurn(ghost ss: seq<Seg>, ghost k: nat, ghost j: nat, ghost n: nat, ext: Seg, log: LogStore.LogStore,
                  req: ReadReq)
    returns (ghost n': nat)
    requires req.Valid() && log.Valid() && req.buf != log.mem && req.buf != log.file
    requires Ordered(ss) && InLog(ss, |log.Flat()|) && Mapped(ss, req.offset, req.offset + req.length)
    requires k <= j < |ss| && ss[j] == ext && ss[k].start <= req.offset <= ss[k].end
             && ext.start < req.offset + req.length
    requires CopiedTo(ss, k, j, n, req.offset, req.length) && Filled(req.buf[..], n, ToMap(ss), req.offset, log.Flat())
    requires Covers(req.coverBegin, req.coverEnd, n)
    modifies req`coverBegin, req`coverEnd, req.buf
    ensures log.Flat() == old(log.Flat()) && CopiedTo(ss, k, j + 1, n', req.offset, req.length)
    ensures Filled(req.buf[..], n', ToMap(ss), req.offset, log.Flat()) && Covers(req.coverBegin, req.coverEnd, n')
  {
    hide CopiedTo, Filled, Mapped, ExtentCoverage, InLog, ToMap, Ordered;
    ghost var buf, flat := req.buf[..], log.Flat();
    NextReady(ss, k, j, n, req.offset, req.length, |flat|);
    var at, m, extOff := CopyExtent(ext, log, req);
    CopyStep(ss, k, j, n, req.offset, req.length, at, extOff, m, flat, buf, req.buf[..]);
    n' := n + m;
  }

  method CopyLocal(extents: SegTree.SegTree, log: LogStore.LogStore, req: ReadReq, first: Seg, ghost k: nat)
    requires extents.Valid() && log.Valid() && req.Valid() && req.buf != log.mem && req.buf != log.file
    requires InLog(extents.Nodes(), |log.Flat()|) && req.coverBegin == UNSET && req.coverEnd == UNSET
    requires Mapped(extents.Nodes(), req.offset, req.offset + req.length)
    requires k < |extents.Nodes()| && extents.Nodes()[k] == first && first.start <= req.offset <= first.end
    modifies req`coverBegin, req`coverEnd, req.buf
    ensures Filled(req.buf[..], req.length, extents.Map(), req.offset, log.Flat())
    ensures req.coverBegin == 0 && req.coverEnd == req.length - 1
    ensures log.Flat() == old(log.Flat()) && extents.Nodes() == old(extents.Nodes())
  {
    ghost var ss, flat := extents.Nodes(), log.Flat();
    var next := Some(first);
    ghost var j: nat, n: nat := k, 0;
    assert CopiedTo(ss, k, j, n, req.offset, req.length) && Filled(req.buf[..], n, ToMap(ss), req.offset, flat);
    hide CopiedTo, Filled, Mapped, ExtentCoverage, InLog, ToMap, Ordered;
    while next.Some? && next.value.start < req.offset + req.length
      invariant k <= j <= |ss| && extents.Valid() && extents.Nodes() == ss && log.Flat() == flat
      invariant next == if j < |ss| then Some(ss[j]) else None
      invariant CopiedTo(ss, k, j, n, req.offset, req.length)
      invariant Filled(req.buf[..], n, ToMap(ss), req.offset, flat)
      invariant Covers(req.coverBegin, req.coverEnd, n)
      decreases |ss| - j
    {
      n := CopyTurn(ss, k, j, n, next.value, log, req);
      next := extents.Iter(next, j);
      j := j + 1;
    }
    if n < req.length {
      NextExtent(ss, k, j, n, req.offset, req.length);
      assert false;
    }
  }

  /** Requests that share neither their records nor their buffers. */
  ghost predicate Separate(reqs: seq<ReadReq>) {
    && (forall i :: 0 <= i < |reqs| ==> reqs[i].Valid())
    && (forall i, j :: 0 <= i < j < |reqs| ==> reqs[i] != reqs[j] && reqs[i].buf != reqs[j].buf)
  }

  ghost function Buffers(reqs: seq<ReadReq>): set<object> {
    set r | r in reqs :: r.buf
  }

  /** The requests among the first `n` that are flagged as wanted, in order. */
  ghost function Picked(reqs: seq<ReadReq>, flags: seq<bool>, want: bool, n: nat): seq<ReadReq>
    requires n <= |flags| <= |reqs|
  {
    if n == 0 then []
    else Picked(reqs, flags, want, n - 1) + if flags[n - 1] == want then [reqs[n - 1]] else []
  }

  lemma {:induction false} PickedPrefix(reqs: seq<ReadReq>, flags: seq<bool>, b: bool, want: bool, n: nat)
    requires n <= |flags| < |reqs|
    ensures Picked(reqs, flags + [b], want, n) == Picked(reqs, flags, want, n)
  {
    if n > 0 {
      PickedPrefix(reqs, flags, b, want, n - 1);
    }
  }

  /** A request that has not been looked at. */
  ghost predicate Untouched(r: ReadReq, was: seq<Byte>)
    reads r, r.buf
  {
    r.coverBegin == UNSET && r.coverEnd == UNSET && r.buf[..] == was
  }

  /** A request answered from the local extents `ss` and the log. */
  ghost predicate Answered(r: ReadReq, ss: seq<Seg>, flat: seq<Byte>)
    reads r, r.buf
  {
    r.coverBegin == 0 && r.coverEnd == r.length - 1 && Filled(r.buf[..], r.length, ToMap(ss), r.offset, flat)
  }

  /** What request `i` must come to: the file is known here and holds every byte asked for, or not. */
  ghost predicate Settled(r: ReadReq, known: bool, ss: seq<Seg>, flat: seq<Byte>, was: seq<Byte>, flag: bool)
    reads r, r.buf
  {
    && (flag <==> known && Mapped(ss, r.offset, r.offset + r.length))
    && if flag then Answered(r, ss, flat) else Untouched(r, was)
  }

  /** One turn of the loop over the requests. */
  method ServeOne(r: ReadReq, file: SegTree.SegTree?, log: LogStore.LogStore, ghost ss: seq<Seg>, ghost was: seq<Byte>)
    returns (haveLocal: bool)
    requires r.Valid() && log.Valid() && r.buf != log.mem && r.buf != log.file && Untouched(r, was)
    requires file != null ==> file.Valid() && file.Nodes() == ss && InLog(ss, |log.Flat()|)
    modifies r`coverBegin, r`coverEnd, r.buf
    ensures Settled(r, file != null, ss, log.Flat(), was, haveLocal) && log.Flat() == old(log.Flat())
  {
    hide Mapped, Filled, InLog, ToMap;
    haveLocal := false;
    if file != null {
      haveLocal := ServeLocal(file, log, r);
    }
  }

  /** The first `|flags|` requests have been served, the others not yet. */
  ghost predicate Progress(reqs: seq<ReadReq>, files: seq<SegTree.SegTree?>, nodes: seq<seq<Seg>>, was: seq<seq<Byte>>,
                           flat: seq<Byte>, flags: seq<bool>)
    requires |flags| <= |reqs| == |files| == |nodes| == |was|
    reads reqs, Buffers(reqs)
  {
    && (forall k :: 0 <= k < |flags| ==> Settled(reqs[k], files[k] != null, nodes[k], flat, was[k], flags[k]))
    && (forall k :: |flags| <= k < |reqs| ==> Untouched(reqs[k], was[k]))
  }

  /** The extents known for each file, all of them in the log; no tree for a file not known here. */
  ghost predicate FilesReady(files: seq<SegTree.SegTree?>, nodes: seq<seq<Seg>>, size: nat)
    reads files
  {
    && |files| == |nodes|
    && forall i :: 0 <= i < |files| && files[i] != null ==>
         files[i].Valid() && files[i].Nodes() == nodes[i] && InLog(nodes[i], size)
  }

  /** No request reads into the log's own storage. */
  ghost predicate Outside(reqs: seq<ReadReq>, log: LogStore.LogStore) {
    forall i :: 0 <= i < |reqs| ==> reqs[i].buf != log.mem && reqs[i].buf != log.file
  }

  /** The counts of bytes read and the error codes. */
  ghost predicate Reported(reqs: seq<ReadReq>, counts: seq<nat>, errors: seq<int>)
    reads reqs
  {
    && |counts| == |errors| == |reqs|
    && forall i :: 0 <= i < |reqs| ==> reqs[i].nread == counts[i] && reqs[i].errcode == errors[i]
  }

  /** One turn, stated on all the requests. */
  method ServeNext(i: nat, reqs: seq<ReadReq>, files: seq<SegTree.SegTree?>, log: LogStore.LogStore,
                   ghost nodes: seq<seq<Seg>>,
                   ghost was: seq<seq<Byte>>, ghost counts: seq<nat>, ghost errors: seq<int>, ghost flags: seq<bool>)
    returns (haveLocal: bool)
    requires i == |flags| < |reqs| == |files| == |nodes| == |was| && Separate(reqs) && log.Valid() && Outside(reqs, log)
    requires FilesReady(files, nodes, |log.Flat()|) && Reported(reqs, counts, errors)
    requires Progress(reqs, files, nodes, was, log.Flat(), flags)
    modifies reqs, Buffers(reqs)
    ensures log.Flat() == old(log.Flat()) && FilesReady(files, nodes, |log.Flat()|) && Reported(reqs, counts, errors)
    ensures Progress(reqs, files, nodes, was, log.Flat(), flags + [haveLocal])
  {
    hide InLog, Settled, Untouched;
    assert reqs[i] in reqs;
    haveLocal := ServeOne(reqs[i], files[i], log, nodes[i], was[i]);
  }

  /** service_local_reqs: the requests answered locally and those left for the server, both in the
      order given. A request for a file this client does not know goes to the server. */
  method ServeLocalReqs(reqs: seq<ReadReq>, files: seq<SegTree.SegTree?>, log: LogStore.LogStore,
                        ghost nodes: seq<seq<Seg>>,
                        ghost was: seq<seq<Byte>>, ghost counts: seq<nat>, ghost errors: seq<int>)
    returns (local: seq<ReadReq>, server: seq<ReadReq>, ghost flags: seq<bool>)
    requires |reqs| == |files| == |nodes| == |was| && Separate(reqs) && log.Valid() && Outside(reqs, log)
    requires FilesReady(files, nodes, |log.Flat()|) && Reported(reqs, counts, errors)
    requires forall i :: 0 <= i < |reqs| ==> Untouched(reqs[i], was[i])
    modifies reqs, Buffers(reqs)
    ensures |flags| == |reqs| && local == Picked(reqs, flags, true, |reqs|)
            && server == Picked(reqs, flags, false, |reqs|)
    ensures forall i :: 0 <= i < |reqs| ==> Settled(reqs[i], files[i] != null, nodes[i], log.Flat(), was[i], flags[i])
    ensures log.Flat() == old(log.Flat()) && Reported(reqs, counts, errors)
  {
    local, server, flags := [], [], [];
    ghost var flat := log.Flat();
    assert Progress(reqs, files, nodes, was, flat, flags);
    hide InLog, Settled, Untouched, FilesReady, Outside, Reported;
    for i := 0 to |reqs|
      invariant |flags| == i && local == Picked(reqs, flags, true, i) && server == Picked(reqs, flags, false, i)
      invariant Progress(reqs, files, nodes, was, flat, flags) && log.Flat() == flat
      invariant FilesReady(files, nodes, |flat|) && Reported(reqs, counts, errors)
    {
      hide Progress, Separate;
      var haveLocal := ServeNext(i, reqs, files, log, nodes, was, counts, errors, flags);
      PickedPrefix(reqs, flags, haveLocal, true, i);
      PickedPrefix(reqs, flags, haveLocal, false, i);
      flags := flags + [haveLocal];
      if haveLocal {
        local := local + [reqs[i]];
      } else {
        server := server + [reqs[i]];
      }
    }
  }
}
