/** One multi-read request on values: data and completion messages arrive in any order, then the
    requests are patched up for holes and the end of the file. */
module MreadSpec {
  import opened Wrappers
  import opened Bits
  import opened LocalRead
  import LogStore

  const SUCCESS: int := 0
  const ENOENT: int := 2
  const EINVAL: int := 22
  const ENODATA: int := 61
  const ETIMEDOUT: int := 110

  datatype Req = Req(offset: nat, length: nat, buf: seq<Byte>, coverBegin: nat, coverEnd: nat, nread: nat, err: int)

  datatype Mread = Mread(reqs: seq<Req>, nComplete: nat, nError: nat)

  /** update_read_req_coverage. */
  function Cover(r: Req, at: nat, n: nat): Req
    requires n > 0
  {
    var end := at + n - 1;
    r.(coverBegin := Lower(r.coverBegin, at), coverEnd := Upper(r.coverEnd, end))
  }

  /** unifyfs_mread_req_data_rpc on one request: a message that does not fit is refused. */
  ghost function Data(r: Req, at: nat, data: seq<Byte>): Req
    requires at <= r.length == |r.buf|
  {
    if data == [] || |data| > r.length - at then r
    else Cover(r.(buf := LogStore.Splice(r.buf, at, data)), at, |data|)
  }

  /** cover_end_offset + 1 as a size_t. */
  function PastCover(coverEnd: nat): nat {
    if coverEnd == UNSET then 0 else coverEnd + 1
  }

  /** client_update_mread_request on one request that is now complete. */
  function Complete(r: Req, error: int): Req {
    if error != 0 then r.(nread := 0, err := error) else r.(nread := PastCover(r.coverEnd))
  }

  // ---------- message runs ----------

  datatype Op = DoData(i: nat, at: nat, data: seq<Byte>) | DoComplete(i: nat, error: int)

  datatype Trace = Start | Then(before: Trace, op: Op)

  ghost function Step(m: Mread, op: Op): Mread {
    if op.i >= |m.reqs| then m
    else
      var r := m.reqs[op.i];
      match op
      case DoData(i, at, data) =>
        if at <= r.length == |r.buf| then m.(reqs := m.reqs[i := Data(r, at, data)]) else m
      case DoComplete(i, error) =>
        Mread(m.reqs[i := Complete(r, error)], m.nComplete + 1, m.nError + if error != 0 then 1 else 0)
  }

  ghost function After(m: Mread, run: Trace): Mread {
    match run
    case Start => m
    case Then(before, op) => Step(After(m, before), op)
  }

  /** The requests completed in a run. */
  ghost function Done(run: Trace, n: nat): set<nat> {
    match run
    case Start => {}
    case Then(before, op) => if op.DoComplete? && op.i < n then Done(before, n) + {op.i} else Done(before, n)
  }

  ghost predicate AllDone(run: Trace, n: nat) {
    forall i: nat :: i < n ==> i in Done(run, n)
  }

  /** Those completed with an error. */
  ghost function Failed(run: Trace, n: nat): set<nat> {
    match run
    case Start => {}
    case Then(before, op) =>
      if op.DoComplete? && op.i < n && op.error != 0 then Failed(before, n) + {op.i} else Failed(before, n)
  }

  /** Each data message starts inside its request, and no request is completed twice. */
  ghost predicate Legal(m: Mread, run: Trace) {
    match run
    case Start => true
    case Then(before, op) =>
      && Legal(m, before)
      && (op.DoData? ==> op.i < |m.reqs| && op.at <= m.reqs[op.i].length)
      && (op.DoComplete? ==> op.i !in Done(before, |m.reqs|))
  }

  /** The bytes received for request `i`, by offset in the request. */
  ghost function Received(m: Mread, run: Trace, i: nat): map<nat, Byte>
    requires i < |m.reqs|
  {
    match run
    case Start => map[]
    case Then(before, op) =>
      var got := Received(m, before, i);
      if op.DoData? && op.i == i && op.at + |op.data| <= m.reqs[i].length then got + Bytes(op.at, op.data) else got
  }

  /** Data arrived for request `i` after its completion. */
  ghost predicate Late(m: Mread, run: Trace, i: nat)
    requires i < |m.reqs|
  {
    match run
    case Start => false
    case Then(before, op) =>
      || Late(m, before, i)
      || (op.DoData? && op.i == i && op.data != [] && op.at + |op.data| <= m.reqs[i].length
          && i in Done(before, |m.reqs|))
  }

  // ---------- one request ----------

  /** A request as it is sent to the server. */
  ghost predicate Fresh(r: Req) {
    0 < r.length < UNSET && |r.buf| == r.length && r.coverBegin == r.coverEnd == UNSET && r.nread == 0
      && r.err == EINPROGRESS
  }

  /** The buffer holds what was received and is otherwise as it was. */
  ghost predicate Holds(buf: seq<Byte>, init: seq<Byte>, got: map<nat, Byte>) {
    && |buf| == |init| && (forall o :: o in got ==> o < |buf|)
    && forall o: nat :: o < |buf| ==> buf[o] == if o in got then got[o] else init[o]
  }

  ghost predicate ReqOk(r: Req, r0: Req, got: map<nat, Byte>, done: bool, failed: bool, late: bool) {
    && r.offset == r0.offset && r.length == r0.length == |r.buf| < UNSET
    && Hull(r.coverBegin, r.coverEnd, got.Keys) && Holds(r.buf, r0.buf, got)
    && r.nread <= r.length && r.nread <= PastCover(r.coverEnd)
    && (failed ==> r.nread == 0 && r.err != 0)
    && (!failed ==> r.err == EINPROGRESS)
    && (!done ==> r.nread == 0 && !failed)
    && (done && !failed && !late ==> r.nread == PastCover(r.coverEnd))
  }

  lemma {:induction false} DataOk(r: Req, r0: Req, got: map<nat, Byte>, done: bool, failed: bool, late: bool, at: nat,
                                  data: seq<Byte>)
    requires ReqOk(r, r0, got, done, failed, late) && at + |data| <= r.length
    ensures ReqOk(Data(r, at, data), r0, got + Bytes(at, data), done, failed, late || (done && data != []))
  {
    var got' := got + Bytes(at, data);
    if data == [] {
      assert Bytes(at, data) == map[];
      assert got' == got;
    } else {
      DataHull(r.coverBegin, r.coverEnd, got, at, data);
      DataHolds(r.buf, r0.buf, got, at, data);
      assert r.coverEnd == UNSET || r.coverEnd in got;
      hide Hull, Holds, Bytes;
    }
  }

  lemma {:induction false} DataHull(lo: nat, hi: nat, got: map<nat, Byte>, at: nat, data: seq<Byte>)
    requires Hull(lo, hi, got.Keys) && data != [] && at + |data| <= UNSET
    ensures Hull(Lower(lo, at), Upper(hi, at + |data| - 1), (got + Bytes(at, data)).Keys)
  {
    HullGrows(lo, hi, got.Keys, at, |data|);
    forall o: nat ensures o in Bytes(at, data) <==> o in Span(at, |data|) {
      BytesDomain(at, data, o);
    }
    assert (got + Bytes(at, data)).Keys == got.Keys + Span(at, |data|);
  }

  lemma {:induction false} DataHolds(buf: seq<Byte>, init: seq<Byte>, got: map<nat, Byte>, at: nat, data: seq<Byte>)
    requires Holds(buf, init, got) && at + |data| <= |buf|
    ensures Holds(LogStore.Splice(buf, at, data), init, got + Bytes(at, data))
  {
    forall o: nat ensures o in Bytes(at, data) <==> InSpan(o, at, |data|)
                  ensures InSpan(o, at, |data|) ==> Bytes(at, data)[o] == data[o - at]
    {
      BytesDomain(at, data, o);
    }
    hide Bytes;
  }

  lemma {:induction false} CompleteOk(r: Req, r0: Req, got: map<nat, Byte>, error: int)
    requires ReqOk(r, r0, got, false, false, false)
    ensures ReqOk(Complete(r, error), r0, got, true, error != 0, false)
  {
    assert r.coverEnd == UNSET || r.coverEnd in got;
  }

  lemma {:induction false} FreshOk(r: Req)
    requires Fresh(r)
    ensures ReqOk(r, r, map[], false, false, false)
  {
  }

  // ---------- the invariant of every run ----------

  /** A run of messages for requests as they are sent. */
  ghost predicate FreshRun(m0: Mread, run: Trace) {
    m0.nComplete == m0.nError == 0 && (forall i :: 0 <= i < |m0.reqs| ==> Fresh(m0.reqs[i])) && Legal(m0, run)
  }

  ghost predicate Inv(m: Mread, m0: Mread, run: Trace) {
    && |m.reqs| == |m0.reqs| && Counted(m, run, |m0.reqs|)
    && forall i: nat :: i < |m0.reqs| ==> InvAt(m, m0, run, i)
  }

  /** The counters count the requests completed, and those completed with an error. */
  ghost predicate Counted(m: Mread, run: Trace, n: nat) {
    && m.nComplete == |Done(run, n)| && m.nError == |Failed(run, n)| && Failed(run, n) <= Done(run, n)
    && forall i :: i in Done(run, n) ==> i < n
  }

  ghost predicate InvAt(m: Mread, m0: Mread, run: Trace, i: nat)
    requires i < |m0.reqs| == |m.reqs|
  {
    ReqOk(m.reqs[i], m0.reqs[i], Received(m0, run, i), i in Done(run, |m0.reqs|), i in Failed(run, |m0.reqs|),
          Late(m0, run, i))
  }

  /** What a step means for one request. */
  lemma {:induction false} StepAt(m: Mread, m0: Mread, before: Trace, op: Op, i: nat)
    requires Inv(m, m0, before) && i < |m0.reqs| && Legal(m0, Then(before, op))
    ensures |Step(m, op).reqs| == |m0.reqs| && InvAt(Step(m, op), m0, Then(before, op), i)
  {
    assert InvAt(m, m0, before, i) && |m.reqs| == |m0.reqs|;
    hide Inv, ReqOk, Data, Complete, Bytes;
    assert m.reqs[i].length == m0.reqs[i].length == |m.reqs[i].buf| by { ReqSizes(m, m0, before, i); }
    if op.i == i {
      var r, r0, got := m.reqs[i], m0.reqs[i], Received(m0, before, i);
      match op
      case DoData(_, at, data) =>
        if at + |data| <= r0.length {
          DataOk(r, r0, got, i in Done(before, |m0.reqs|), i in Failed(before, |m0.reqs|), Late(m0, before, i), at,
                 data);
        }
      case DoComplete(_, error) =>
        NotLate(m0, before, i);
        CompleteOk(r, r0, got, error);
    }
  }

  lemma {:induction false} ReqSizes(m: Mread, m0: Mread, run: Trace, i: nat)
    requires i < |m0.reqs| == |m.reqs| && InvAt(m, m0, run, i)
    ensures m.reqs[i].length == m0.reqs[i].length == |m.reqs[i].buf|
  {
    hide Hull, Holds;
  }

  lemma {:induction false} NotLate(m: Mread, run: Trace, i: nat)
    requires i < |m.reqs| && i !in Done(run, |m.reqs|)
    ensures !Late(m, run, i)
  {
    match run
    case Start =>
    case Then(before, op) => NotLate(m, before, i);
  }

  lemma {:induction false} StepCounted(m: Mread, before: Trace, op: Op, n: nat)
    requires Counted(m, before, n) && |m.reqs| == n && (op.DoComplete? ==> op.i !in Done(before, n))
    ensures Counted(Step(m, op), Then(before, op), n) && |Step(m, op).reqs| == n
  {
    if op.DoComplete? {
      OneMore(Done(before, n), op.i);
      OneMore(Failed(before, n), op.i);
    }
    hide Data, Complete;
  }

  lemma {:induction false} OneMore(s: set<nat>, i: nat)
    ensures i !in s ==> |s + {i}| == |s| + 1
  {
  }

  lemma {:induction false} StepInv(m: Mread, m0: Mread, before: Trace, op: Op)
    requires Inv(m, m0, before) && Legal(m0, Then(before, op))
    ensures Inv(Step(m, op), m0, Then(before, op))
  {
    forall i: nat | i < |m0.reqs|
      ensures |Step(m, op).reqs| == |m0.reqs| && InvAt(Step(m, op), m0, Then(before, op), i)
    {
      StepAt(m, m0, before, op, i);
    }
    StepCounted(m, before, op, |m0.reqs|);
    hide InvAt, Step, Counted;
  }

  lemma {:induction false} RunInv(m0: Mread, run: Trace)
    requires FreshRun(m0, run)
    ensures Inv(After(m0, run), m0, run)
  {
    match run
    case Start =>
      forall i: nat | i < |m0.reqs| ensures InvAt(m0, m0, run, i) {
        FreshOk(m0.reqs[i]);
      }
    case Then(before, op) =>
      RunInv(m0, before);
      StepInv(After(m0, before), m0, before, op);
      hide Inv, Step;
  }

  ghost function Below(n: nat): set<nat> {
    set i: nat | i < n && InSpan(i, 0, n)
  }

  lemma {:induction false} BelowSize(n: nat)
    ensures |Below(n)| == n
  {
    if n > 0 {
      BelowSize(n - 1);
      assert Below(n) == Below(n - 1) + {n - 1};
    } else {
      assert Below(n) == {};
    }
  }

  lemma {:induction false} SubsetSize<T>(a: set<T>, b: set<T>)
    requires a <= b
    ensures |a| <= |b| && (|a| == |b| ==> a == b)
  {
    if a != {} {
      var x :| x in a;
      SubsetSize(a - {x}, b - {x});
      assert a == (a - {x}) + {x} && b == (b - {x}) + {x};
    }
  }

  /** After any interleaving the counters are ordered, and the waiting client's test `n_complete ==
      n_reads` holds exactly when every request has been completed. */
  lemma {:induction false} CountersOrdered(m0: Mread, run: Trace)
    requires FreshRun(m0, run)
    ensures var m := After(m0, run);
            && m.nError <= m.nComplete <= |m.reqs| == |m0.reqs|
            && (m.nComplete == |m.reqs| <==> AllDone(run, |m0.reqs|))
  {
    RunInv(m0, run);
    var n := |m0.reqs|;
    BelowSize(n);
    SubsetSize(Done(run, n), Below(n));
    SubsetSize(Failed(run, n), Done(run, n));
    forall i: nat ensures i in Below(n) <==> i < n {
      assert i < n ==> InSpan(i, 0, n);
    }
    if AllDone(run, n) {
      assert Done(run, n) == Below(n);
    }
    hide InvAt, Below;
  }

  // ---------- what a completion leaves ----------

  /** The offsets received for request `i` when its completion came, without an error. */
  ghost function OnTime(m: Mread, run: Trace, i: nat): set<nat>
    requires i < |m.reqs|
  {
    match run
    case Start => {}
    case Then(before, op) =>
      if op.DoComplete? && op.i == i then (if op.error == 0 then Received(m, before, i).Keys else {})
      else OnTime(m, before, i)
  }

  /** The error its completion came with. */
  ghost function ErrorOf(run: Trace, i: nat): int {
    match run
    case Start => SUCCESS
    case Then(before, op) => if op.DoComplete? && op.i == i then op.error else ErrorOf(before, i)
  }

  /** One past the highest of the offsets. */
  ghost predicate EndsAt(s: set<nat>, e: nat) {
    if e == 0 then s == {} else e - 1 in s && forall o :: o in s ==> o < e
  }

  ghost predicate Reported(r: Req, m0: Mread, run: Trace, i: nat)
    requires i < |m0.reqs|
  {
    r.err == (if ErrorOf(run, i) == 0 then EINPROGRESS else ErrorOf(run, i)) && EndsAt(OnTime(m0, run, i), r.nread)
  }

  lemma {:induction false} HullEnds(lo: nat, hi: nat, s: set<nat>)
    requires Hull(lo, hi, s)
    ensures EndsAt(s, PastCover(hi))
  {
  }

  /** After any interleaving a request has the error its completion came with, and counts as read the bytes up to
      the last one received by then. */
  lemma {:induction false} RunReported(m0: Mread, run: Trace, i: nat)
    requires FreshRun(m0, run) && i < |m0.reqs|
    ensures |After(m0, run).reqs| == |m0.reqs| && Reported(After(m0, run).reqs[i], m0, run, i)
    ensures ErrorOf(run, i) != 0 <==> i in Failed(run, |m0.reqs|)
  {
    match run
    case Start =>
    case Then(before, op) =>
      RunReported(m0, before, i);
      RunInv(m0, before);
      var m := After(m0, before);
      assert InvAt(m, m0, before, i);
      HullEnds(m.reqs[i].coverBegin, m.reqs[i].coverEnd, Received(m0, before, i).Keys);
      if op.DoComplete? && op.i == i { ErrorOnce(m0, before, i); }
      hide Hull, Holds, Inv, Received, EndsAt;
  }

  lemma {:induction false} ErrorOnce(m: Mread, run: Trace, i: nat)
    requires i < |m.reqs| && i !in Done(run, |m.reqs|)
    ensures i !in Failed(run, |m.reqs|) && ErrorOf(run, i) == 0
  {
    match run
    case Start =>
    case Then(before, op) => ErrorOnce(m, before, i);
  }

  // ---------- after the wait ----------

  /** The wait timed out: every request still marked in progress fails. A completed request
      without an error is still marked in progress. */
  function Expire(r: Req): Req {
    if r.err == EINPROGRESS then r.(err := ETIMEDOUT) else r
  }

  /** Number of requests among the first `n` still marked in progress. */
  ghost function InProgress(reqs: seq<Req>, n: nat): nat
    requires n <= |reqs|
  {
    if n == 0 then 0 else InProgress(reqs, n - 1) + if reqs[n - 1].err == EINPROGRESS then 1 else 0
  }

  ghost function Zeroed(buf: seq<Byte>, at: nat, n: nat): seq<Byte>
    requires at + n <= |buf|
  {
    LogStore.Splice(buf, at, seq(n, _ => 0))
  }

  /** No error was received: the request succeeded. */
  function Settle(r: Req): Req {
    if r.err == EINPROGRESS then r.(err := SUCCESS) else r
  }

  /** The request can be patched up. */
  ghost predicate Fillable(r: Req) {
    && |r.buf| == r.length && r.nread <= r.length
    && (r.nread == r.length > 0 ==> r.coverBegin < r.length)
    && r.length > 0
  }

  /** The pass over the requests that fills holes with zeros, for a file of the given size. */
  ghost function Fill(r0: Req, size: Option<nat>): Req
    requires Fillable(r0)
  {
    var r := Settle(r0);
    if r.err != SUCCESS && r.err != ENODATA then r
    else if r.nread == r.length then
      if r.coverBegin != 0 then r.(buf := Zeroed(r.buf, 0, r.coverBegin), err := SUCCESS) else r
    else if size.None? then r.(err := ENOENT)
    else if size.value <= r.offset then r.(nread := 0, err := SUCCESS)
    else
      var gapStart, reqEnd := r.offset + r.nread, r.offset + r.length;
      if size.value > gapStart then
        var gap := if reqEnd > size.value then size.value - gapStart else reqEnd - gapStart;
        r.(buf := Zeroed(r.buf, r.nread, gap), nread := r.nread + gap, err := SUCCESS)
      else r
  }

  /** A request that ends without an error has all its bytes or reaches the end of the file. */
  lemma {:induction false} FillReaches(r: Req, size: Option<nat>)
    requires Fillable(r)
    ensures var r' := Fill(r, size);
            && r'.nread <= r'.length == r.length && r'.offset == r.offset
            && (r'.err == SUCCESS || r'.err == ENODATA ==>
                  r'.nread == r'.length || (size.Some? && r'.offset + r'.nread >= size.value))
  {
    hide LogStore.Splice, Zeroed;
  }

  lemma {:induction false} ZeroedAt(buf: seq<Byte>, at: nat, n: nat, p: nat)
    requires at + n <= |buf| && p < |buf|
    ensures |Zeroed(buf, at, n)| == |buf| && Zeroed(buf, at, n)[p] == if at <= p < at + n then 0 else buf[p]
  {
  }

  /** What the pass does to each byte it reports as read: zeros in front of the data if the data
      reaches the end of the request, and behind the bytes the server accounted for. */
  lemma {:induction false} FillBytes(r: Req, size: Option<nat>, p: nat)
    requires Fillable(r) && p < Fill(r, size).nread
    ensures var r' := Fill(r, size);
            && p < |r'.buf| == |r.buf|
            && (r'.err == SUCCESS ==>
                  r'.buf[p] == if p >= r.nread || (r.nread == r.length && p < r.coverBegin) then 0 else r.buf[p])
  {
    if r.nread == r.length {
      ZeroedAt(r.buf, 0, r.coverBegin, p);
    } else if size.Some? && size.value > r.offset + r.nread {
      var reqEnd, gapStart := r.offset + r.length, r.offset + r.nread;
      ZeroedAt(r.buf, r.nread, if reqEnd > size.value then size.value - gapStart else reqEnd - gapStart, p);
    }
    hide LogStore.Splice, Zeroed;
  }

  /** Every request of a run can be patched up. */
  lemma {:induction false} OkFillable(r: Req, r0: Req, got: map<nat, Byte>, done: bool, failed: bool, late: bool)
    requires ReqOk(r, r0, got, done, failed, late) && r0.length > 0
    ensures Fillable(r)
  {
    assert got != map[] ==> r.coverBegin in got && r.coverEnd in got;
  }

  /** A byte the caller is told was read, but that nobody wrote: in a hole inside the data, or in
      front of it when the data does not reach the end of the request. */
  ghost predicate Stale(r: Req, got: map<nat, Byte>, p: nat) {
    p < r.nread && p !in got && !(r.nread == r.length && p < r.coverBegin)
  }

  /** An error of the server's is kept, unless it is "no data" or "in progress"; a request short of its length
      fails if its file is gone, and else ends well. */
  ghost function FinalCode(r: Req, size: Option<nat>): int {
    if r.err != SUCCESS && r.err != EINPROGRESS && r.err != ENODATA then r.err
    else if r.nread < r.length && size.None? then ENOENT
    else SUCCESS
  }

  /** The bytes reported if it ends well: all of them if they were all accounted for, none if the file ends in
      front of the request, and else up to the end of the file or of the data, whichever is behind. */
  ghost function FinalCount(r: Req, size: Option<nat>): nat {
    if r.nread == r.length || size.None? then r.nread
    else if size.value <= r.offset then 0
    else
      var there := if size.value - r.offset < r.length then size.value - r.offset else r.length;
      if there < r.nread then r.nread else there
  }

  /** How a request `r` ends, as `r'`: the error code and the count are exactly these; if well, it is complete or at
      the end of the file, each byte reported being the one received, or zero, or stale; and the bytes that are
      not reported are as they were. */
  ghost predicate OutcomeOk(r: Req, r': Req, got: map<nat, Byte>, init: seq<Byte>, size: Option<nat>) {
    && r'.offset == r.offset && r'.length == r.length && |r'.buf| == |r.buf|
    && r'.err == FinalCode(r, size) && r'.err != ENODATA && r'.err != EINPROGRESS
    && r'.nread == (if r'.err == SUCCESS then FinalCount(r, size) else r.nread)
    && (r'.err != SUCCESS ==> r'.buf == r.buf) && (forall p: nat :: r'.nread <= p < |r.buf| ==> r'.buf[p] == r.buf[p])
    && (r'.err == SUCCESS ==>
          && (r'.nread == r'.length || (size.Some? && r'.offset + r'.nread >= size.value))
          && forall p: nat :: p < r'.nread ==> ByteOk(r, r', got, init, p))
  }

  /** The pass does no more than that, to a request that the server failed only without data. */
  lemma {:induction false} FillExact(r: Req, size: Option<nat>)
    requires Fillable(r) && (r.err != EINPROGRESS ==> r.nread == 0) && r.err != SUCCESS
    ensures var r' := Fill(r, size);
            && r'.offset == r.offset && r'.length == r.length && |r'.buf| == |r.buf|
            && r'.err == FinalCode(r, size) && r'.nread == (if r'.err == SUCCESS then FinalCount(r, size) else r.nread)
            && (r'.err != SUCCESS ==> r'.buf == r.buf)
  {
  }

  lemma {:induction false} FillRest(r: Req, size: Option<nat>, p: nat)
    requires Fillable(r) && Fill(r, size).nread <= p < |r.buf|
    ensures |Fill(r, size).buf| == |r.buf| && Fill(r, size).buf[p] == r.buf[p]
  {
    if size.Some? && size.value > r.offset + r.nread && r.nread < r.length {
      var reqEnd, gapStart := r.offset + r.length, r.offset + r.nread;
      ZeroedAt(r.buf, r.nread, if reqEnd > size.value then size.value - gapStart else reqEnd - gapStart, p);
    }
    hide LogStore.Splice, Zeroed;
  }

  /** The whole way of a request: messages in any order, then the pass. It ends well unless the server
      reported an error other than "no data" or the file is gone, and then each byte reported
      is the one received, or zero, or stale. */
  lemma {:induction false} ReadOutcome(m0: Mread, run: Trace, i: nat, size: Option<nat>)
    requires FreshRun(m0, run) && i < |m0.reqs|
    ensures |After(m0, run).reqs| == |m0.reqs| && Fillable(After(m0, run).reqs[i])
    ensures var r := After(m0, run).reqs[i];
            OutcomeOk(r, Fill(r, size), Received(m0, run, i), m0.reqs[i].buf, size) && Reported(r, m0, run, i)
  {
    RunReported(m0, run, i);
    RunInv(m0, run);
    var m, r0 := After(m0, run), m0.reqs[i];
    var r, got := m.reqs[i], Received(m0, run, i);
    assert InvAt(m, m0, run, i);
    OkFillable(r, r0, got, i in Done(run, |m0.reqs|), i in Failed(run, |m0.reqs|), Late(m0, run, i));
    FillReaches(r, size);
    FillExact(r, size);
    forall p: nat | Fill(r, size).nread <= p < |r.buf| ensures Fill(r, size).buf[p] == r.buf[p] {
      FillRest(r, size, p);
    }
    NoDataFilled(r, r0, got, i in Done(run, |m0.reqs|), i in Failed(run, |m0.reqs|), Late(m0, run, i), size);
    var r' := Fill(r, size);
    if r'.err == SUCCESS {
      forall p: nat | p < r'.nread ensures ByteOk(r, r', got, r0.buf, p) {
        OutcomeByte(r, r0, got, i in Done(run, |m0.reqs|), i in Failed(run, |m0.reqs|), Late(m0, run, i), size, p);
      }
    }
    assert OutcomeOk(r, r', got, r0.buf, size);
    hide *;
  }

  ghost predicate ByteOk(r: Req, r': Req, got: map<nat, Byte>, init: seq<Byte>, p: nat) {
    && p < |r'.buf| && p < |init|
    && r'.buf[p] == if Stale(r, got, p) then init[p] else if p in got && p < r.nread then got[p] else 0
  }

  lemma {:induction false} OutcomeByte(r: Req, r0: Req, got: map<nat, Byte>, done: bool, failed: bool, late: bool,
                                       size: Option<nat>, p: nat)
    requires ReqOk(r, r0, got, done, failed, late) && Fillable(r) && Fill(r, size).err == SUCCESS
             && p < Fill(r, size).nread
    ensures ByteOk(r, Fill(r, size), got, r0.buf, p)
  {
    FillBytes(r, size, p);
    assert p in got ==> r.coverBegin <= p;
    hide Fill;
  }

  lemma {:induction false} NoDataFilled(r: Req, r0: Req, got: map<nat, Byte>, done: bool, failed: bool, late: bool,
                                        size: Option<nat>)
    requires ReqOk(r, r0, got, done, failed, late) && Fillable(r)
    ensures Fill(r, size).err != ENODATA && Fill(r, size).err != EINPROGRESS
  {
    hide Hull, Holds, Zeroed, LogStore.Splice;
  }

  // ---------- what the caller's buffer held before ----------

  ghost predicate FreshBuf(m0: Mread, i: nat, buf: seq<Byte>) {
    i < |m0.reqs| && |buf| == m0.reqs[i].length
  }

  /** The same multi-read, issued with other bytes in the buffer of request `i`. */
  ghost function WithBuf(m0: Mread, i: nat, buf: seq<Byte>): Mread
    requires i < |m0.reqs|
  {
    m0.(reqs := m0.reqs[i := m0.reqs[i].(buf := buf)])
  }

  /** What request `i` comes to. */
  ghost function Outcome(m0: Mread, run: Trace, i: nat, size: Option<nat>, buf: seq<Byte>): (r: Req)
    requires FreshRun(m0, run) && FreshBuf(m0, i, buf)
  {
    var m := After(WithBuf(m0, i, buf), run);
    BufRun(m0, run, i, buf);
    Fill(m.reqs[i], size)
  }

  /** Some byte that is reported as read successfully is whatever the buffer held before. */
  ghost predicate Leaks(m0: Mread, run: Trace, i: nat, size: Option<nat>)
    requires FreshRun(m0, run) && i < |m0.reqs|
  {
    exists b, c :: FreshBuf(m0, i, b) && FreshBuf(m0, i, c)
      && Differ(Outcome(m0, run, i, size, b), Outcome(m0, run, i, size, c))
  }

  ghost predicate Differ(r: Req, r': Req) {
    && r.err == r'.err == SUCCESS
    && exists p: nat :: p < r.nread && p < r'.nread && p < |r.buf| && p < |r'.buf| && r.buf[p] != r'.buf[p]
  }

  lemma {:induction false} BufLegal(m0: Mread, run: Trace, i: nat, buf: seq<Byte>)
    requires i < |m0.reqs|
    ensures Legal(WithBuf(m0, i, buf), run) == Legal(m0, run)
    ensures Received(WithBuf(m0, i, buf), run, i) == Received(m0, run, i)
    ensures Late(WithBuf(m0, i, buf), run, i) == Late(m0, run, i)
  {
    match run
    case Start =>
    case Then(before, op) => BufLegal(m0, before, i, buf);
  }

  /** The invariant of a run, for a request issued with another buffer. */
  lemma {:induction false} BufRun(m0: Mread, run: Trace, i: nat, buf: seq<Byte>)
    requires FreshRun(m0, run) && FreshBuf(m0, i, buf)
    ensures var m := After(WithBuf(m0, i, buf), run);
            && |m.reqs| == |m0.reqs| && Fillable(m.reqs[i])
            && ReqOk(m.reqs[i], m0.reqs[i].(buf := buf), Received(m0, run, i),
                     i in Done(run, |m0.reqs|), i in Failed(run, |m0.reqs|), Late(m0, run, i))
  {
    var w := WithBuf(m0, i, buf);
    BufLegal(m0, run, i, buf);
    RunInv(w, run);
    assert InvAt(After(w, run), w, run, i);
    OkFillable(After(w, run).reqs[i], w.reqs[i], Received(m0, run, i), i in Done(run, |m0.reqs|),
               i in Failed(run, |m0.reqs|),
               Late(m0, run, i));
    hide *;
  }

  /** A byte reported, not received and not zeroed: it has data behind it, and data in front of it
      too if the data reaches the end of the request. */
  ghost predicate Exposed(got: set<nat>, length: nat, p: nat) {
    && p !in got && (exists b :: b in got && p < b)
    && (length - 1 in got ==> exists a :: a in got && a < p)
  }

  /** The offsets form one interval. */
  ghost predicate Solid(got: set<nat>) {
    forall a, b, p: nat :: a in got && b in got && a <= p <= b ==> p in got
  }

  lemma {:induction false} ExposedIff(got: set<nat>, length: nat)
    requires length > 0 && forall o :: o in got ==> o < length
    ensures (exists p :: Exposed(got, length, p)) <==> got != {} && !(Solid(got) && (0 in got || length - 1 in got))
  {
    if a, b, p: nat :| a in got && b in got && a <= p <= b && p !in got {
      assert p < b && a < p;
      assert Exposed(got, length, p);
    }
    if got != {} && 0 !in got && length - 1 !in got {
      var b :| b in got;
      assert 0 < b;
      assert Exposed(got, length, 0);
    }
    if p: nat :| Exposed(got, length, p) {
      var b :| b in got && p < b;
      if length - 1 in got {
        var a :| a in got && a < p;
      }
    }
  }

  lemma {:induction false} StaleExposed(r: Req, r0: Req, got: map<nat, Byte>, p: nat)
    requires ReqOk(r, r0, got, true, false, false)
    ensures Stale(r, got, p) <==> Exposed(got.Keys, r.length, p)
    ensures got != map[] ==> r.nread > 0 && (r.nread == r.length <==> r.length - 1 in got.Keys)
    ensures got == map[] ==> r.nread == 0
    ensures p in got ==> p < r.nread
  {
    if got != map[] {
      assert r.coverBegin in got.Keys && r.coverEnd in got.Keys;
      assert r.nread == r.coverEnd + 1;
    }
    hide Holds;
  }

  /** Which bytes the caller sees, when the completion came after the data and without an error. */
  lemma {:induction false} SuccessIff(r: Req, r0: Req, got: map<nat, Byte>, size: Option<nat>, p: nat)
    requires ReqOk(r, r0, got, true, false, false) && Fillable(r) && Exposed(got.Keys, r.length, p)
    ensures Fill(r, size).err == SUCCESS && p < Fill(r, size).nread
            <==> r.length - 1 in got.Keys || (size.Some? && size.value > r.offset)
  {
    StaleExposed(r, r0, got, p);
    hide Hull, Holds, Zeroed, LogStore.Splice, Exposed;
  }

  /** What the final pass leaves at one place of such a request. */
  ghost predicate SeenAt(q: Req, r0: Req, got: map<nat, Byte>, size: Option<nat>, p: nat) {
    && (q.err == SUCCESS && p < q.nread ==>
          p < |q.buf| && p < |r0.buf|
          && q.buf[p] == if Exposed(got.Keys, r0.length, p) then r0.buf[p] else if p in got then got[p] else 0)
    && (Exposed(got.Keys, r0.length, p) ==>
          (q.err == SUCCESS && p < q.nread <==>
           r0.length - 1 in got.Keys || (size.Some? && size.value > r0.offset)))
  }

  lemma {:induction false} FilledByte(r: Req, r0: Req, got: map<nat, Byte>, size: Option<nat>, p: nat)
    requires ReqOk(r, r0, got, true, false, false) && Fillable(r) && Fill(r, size).err == SUCCESS
             && p < Fill(r, size).nread
    ensures var q := Fill(r, size);
            && p < |q.buf| && p < |r0.buf|
            && q.buf[p] == if Exposed(got.Keys, r.length, p) then r0.buf[p] else if p in got then got[p] else 0
  {
    hide Fill, Exposed, Stale, ReqOk;
    StaleExposed(r, r0, got, p);
    OutcomeByte(r, r0, got, true, false, false, size, p);
  }

  lemma {:induction false} FilledAt(r: Req, r0: Req, got: map<nat, Byte>, size: Option<nat>, p: nat)
    requires ReqOk(r, r0, got, true, false, false) && Fillable(r)
    ensures SeenAt(Fill(r, size), r0, got, size, p)
  {
    assert r.length == r0.length && r.offset == r0.offset;
    hide Fill, Exposed, ReqOk;
    if Fill(r, size).err == SUCCESS && p < Fill(r, size).nread {
      FilledByte(r, r0, got, size, p);
    }
    if Exposed(got.Keys, r.length, p) {
      SuccessIff(r, r0, got, size, p);
    }
  }

  lemma {:induction false} OutcomeAt(m0: Mread, run: Trace, i: nat, size: Option<nat>, buf: seq<Byte>, p: nat)
    requires FreshRun(m0, run) && FreshBuf(m0, i, buf)
    requires i in Done(run, |m0.reqs|) && i !in Failed(run, |m0.reqs|) && !Late(m0, run, i)
    ensures SeenAt(Outcome(m0, run, i, size, buf), m0.reqs[i].(buf := buf), Received(m0, run, i), size, p)
  {
    BufRun(m0, run, i, buf);
    hide Fill, SeenAt, ReqOk, After, FreshRun, WithBuf, Received;
    FilledAt(After(WithBuf(m0, i, buf), run).reqs[i], m0.reqs[i].(buf := buf), Received(m0, run, i), size, p);
  }

  /** Of a request whose data came before its completion, and that completed without an error, some
      byte is reported as read although nobody wrote it exactly if the data received is neither one
      piece from the start of the request nor one piece up to its end, and it either reaches the
      end of the request or the file ends behind the request's start. */
  lemma {:induction false} StaleIff(m0: Mread, run: Trace, i: nat, size: Option<nat>)
    requires FreshRun(m0, run) && i < |m0.reqs|
    requires i in Done(run, |m0.reqs|) && i !in Failed(run, |m0.reqs|) && !Late(m0, run, i)
    ensures var got, r := Received(m0, run, i).Keys, m0.reqs[i];
            Leaks(m0, run, i, size) <==>
              && got != {} && !(Solid(got) && (0 in got || r.length - 1 in got))
              && (r.length - 1 in got || (size.Some? && size.value > r.offset))
  {
    var got, r := Received(m0, run, i).Keys, m0.reqs[i];
    BufRun(m0, run, i, r.buf);
    ReceivedInside(m0, run, i);
    ExposedIff(got, r.length);
    if Leaks(m0, run, i, size) {
      LeakExposed(m0, run, i, size);
    }
    if p :| Exposed(got, r.length, p) && (r.length - 1 in got || (size.Some? && size.value > r.offset)) {
      ExposedLeaks(m0, run, i, size, p);
    }
    hide Leaks, Exposed, Solid;
  }

  lemma {:induction false} ReceivedInside(m0: Mread, run: Trace, i: nat)
    requires i < |m0.reqs|
    ensures forall o :: o in Received(m0, run, i).Keys ==> o < m0.reqs[i].length
  {
    match run
    case Start =>
    case Then(before, op) =>
      ReceivedInside(m0, before, i);
      if op.DoData? {
        forall o: nat ensures o in Bytes(op.at, op.data) <==> InSpan(o, op.at, |op.data|) {
          BytesDomain(op.at, op.data, o);
        }
      }
      hide Bytes;
  }

  lemma {:induction false} LeakExposed(m0: Mread, run: Trace, i: nat, size: Option<nat>)
    requires FreshRun(m0, run) && i < |m0.reqs| && Leaks(m0, run, i, size)
    requires i in Done(run, |m0.reqs|) && i !in Failed(run, |m0.reqs|) && !Late(m0, run, i)
    ensures var got, r := Received(m0, run, i).Keys, m0.reqs[i];
            (exists p :: Exposed(got, r.length, p)) && (r.length - 1 in got || (size.Some? && size.value > r.offset))
  {
    hide Outcome, Exposed, FreshRun;
    var b, c :| FreshBuf(m0, i, b) && FreshBuf(m0, i, c)
                && Differ(Outcome(m0, run, i, size, b), Outcome(m0, run, i, size, c));
    var x, y := Outcome(m0, run, i, size, b), Outcome(m0, run, i, size, c);
    var p: nat :| p < x.nread && p < y.nread && p < |x.buf| && p < |y.buf| && x.buf[p] != y.buf[p];
    OutcomeAt(m0, run, i, size, b, p);
    OutcomeAt(m0, run, i, size, c, p);
    assert Exposed(Received(m0, run, i).Keys, m0.reqs[i].length, p);
  }

  lemma {:induction false} ExposedLeaks(m0: Mread, run: Trace, i: nat, size: Option<nat>, p: nat)
    requires FreshRun(m0, run) && i < |m0.reqs|
    requires i in Done(run, |m0.reqs|) && i !in Failed(run, |m0.reqs|) && !Late(m0, run, i)
    requires Exposed(Received(m0, run, i).Keys, m0.reqs[i].length, p)
    requires m0.reqs[i].length - 1 in Received(m0, run, i).Keys || (size.Some? && size.value > m0.reqs[i].offset)
    ensures Leaks(m0, run, i, size)
  {
    var n := m0.reqs[i].length;
    var b: seq<Byte>, c: seq<Byte> := seq(n, _ => 0), seq(n, _ => 1);
    OutcomeAt(m0, run, i, size, b, p);
    OutcomeAt(m0, run, i, size, c, p);
    hide Outcome, Exposed, FreshRun;
    var x, y := Outcome(m0, run, i, size, b), Outcome(m0, run, i, size, c);
    assert x.buf[p] == 0 && y.buf[p] == 1;
    assert Differ(x, y);
  }

  /** The first and the last byte of a three-byte request arrive, then its completion. */
  ghost function HoleTrace(x: Byte, y: Byte): Trace {
    Then(Then(Then(Start, DoData(0, 0, [x])), DoData(0, 2, [y])), DoComplete(0, SUCCESS))
  }

  /** The middle byte is reported as read, whatever it was. */
  lemma {:induction false} HoleLeaks(r: Req, x: Byte, y: Byte, size: Option<nat>)
    requires Fresh(r) && r.length == 3
    ensures FreshRun(Mread([r], 0, 0), HoleTrace(x, y)) && Leaks(Mread([r], 0, 0), HoleTrace(x, y), 0, size)
  {
    var m0, run := Mread([r], 0, 0), HoleTrace(x, y);
    var first := Then(Start, DoData(0, 0, [x]));
    var second := Then(first, DoData(0, 2, [y]));
    var n := |m0.reqs|;
    assert n == 1 && m0.reqs[0] == r;
    assert Done(Start, n) == {} && !Late(m0, Start, 0) && Legal(m0, Start);
    assert Done(first, n) == {} && Failed(first, n) == {};
    assert Legal(m0, first) && !Late(m0, first, 0);
    assert Done(second, n) == {} && Failed(second, n) == {};
    assert Legal(m0, second) && !Late(m0, second, 0);
    assert run == Then(second, DoComplete(0, SUCCESS));
    assert Received(m0, first, 0) == map[] + Bytes(0, [x]);
    assert Received(m0, run, 0) == Received(m0, second, 0) == Received(m0, first, 0) + Bytes(2, [y]);
    var got := Received(m0, run, 0).Keys;
    BytesDomain(0, [x], 0);
    BytesDomain(2, [y], 2);
    BytesDomain(0, [x], 1);
    BytesDomain(2, [y], 1);
    assert 1 !in Bytes(0, [x]) && 1 !in Bytes(2, [y]) && 0 in Bytes(0, [x]) && 2 in Bytes(2, [y]);
    assert got == Bytes(0, [x]).Keys + Bytes(2, [y]).Keys;
    assert 0 in got && 2 in got && 1 !in got;
    assert !Solid(got);
    StaleIff(m0, run, 0, size);
    hide Leaks, Solid;
  }

  lemma {:induction false} TimedOut(r: Req, r0: Req, got: map<nat, Byte>, done: bool, failed: bool, late: bool,
                                    size: Option<nat>)
    requires ReqOk(r, r0, got, done, failed, late) && Fillable(r)
    ensures Fillable(Expire(r)) && (Fill(Expire(r), size).err == SUCCESS <==> r.err == ENODATA && size.Some?)
    ensures r.err == ENODATA ==> failed
    ensures r.err == EINPROGRESS ==> Fill(Expire(r), size) == r.(err := ETIMEDOUT)
    ensures r.err != EINPROGRESS ==> Fill(Expire(r), size) == Fill(r, size)
  {
    hide Zeroed, Hull, Holds;
  }

  /** After a wait that timed out a request succeeds exactly if the server had reported "no data" for
      it and its file is still there; one that had been completed without an error fails too. */
  lemma {:induction false} TimeoutIff(m0: Mread, run: Trace, i: nat, size: Option<nat>)
    requires FreshRun(m0, run) && i < |m0.reqs|
    ensures |After(m0, run).reqs| == |m0.reqs| && Fillable(Expire(After(m0, run).reqs[i]))
    ensures var r := After(m0, run).reqs[i];
            && (Fill(Expire(r), size).err == SUCCESS <==> r.err == ENODATA && size.Some?)
            && (r.err == ENODATA ==> i in Failed(run, |m0.reqs|))
            && (r.err == EINPROGRESS ==> Fill(Expire(r), size) == r.(err := ETIMEDOUT))
            && (r.err != EINPROGRESS ==> Fillable(r) && Fill(Expire(r), size) == Fill(r, size))
  {
    RunInv(m0, run);
    assert InvAt(After(m0, run), m0, run, i);
    hide Fill, Expire, Fillable, ReqOk, Inv, After, Received, FreshRun;
    OkFillable(After(m0, run).reqs[i], m0.reqs[i], Received(m0, run, i), i in Done(run, |m0.reqs|),
               i in Failed(run, |m0.reqs|), Late(m0, run, i));
    TimedOut(After(m0, run).reqs[i], m0.reqs[i], Received(m0, run, i), i in Done(run, |m0.reqs|),
             i in Failed(run, |m0.reqs|), Late(m0, run, i), size);
  }
}
