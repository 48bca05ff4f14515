/** The message handlers and the final pass of a multi-read on the shared request objects, against
    the specification on values. Each handler is one critical section of the request's mutex; the
    bulk transfer between two of them only touches the buffer. */
module Mread {
  import opened Wrappers
  import opened Bits
  import opened LocalRead
  import LogStore
  import M = MreadSpec

  const MAX_BULK_TX_SIZE: nat := 8388608

  ghost function ReqOf(r: ReadReq): M.Req
    reads r, r.buf
  {
    M.Req(r.offset, r.length, r.buf[..], r.coverBegin, r.coverEnd, r.nread, r.errcode)
  }

  /** The first `done` bytes of the data are in the buffer. */
  ghost predicate Copied(now: seq<Byte>, was: seq<Byte>, at: nat, data: seq<Byte>, done: nat) {
    done <= |data| && at + |data| <= |was| && now == LogStore.Splice(was, at, data[..done])
  }

  lemma {:induction false} CopiedNone(was: seq<Byte>, at: nat, data: seq<Byte>)
    requires at + |data| <= |was|
    ensures Copied(was, was, at, data, 0)
  {
  }

  lemma {:induction false} CopiedAll(now: seq<Byte>, was: seq<Byte>, at: nat, data: seq<Byte>)
    requires Copied(now, was, at, data, |data|)
    ensures at + |data| <= |was| && now == LogStore.Splice(was, at, data)
  {
    assert data[..|data|] == data;
  }

  lemma {:induction false} CopiedMore(now: seq<Byte>, was: seq<Byte>, at: nat, data: seq<Byte>, lo: nat, hi: nat)
    requires Copied(now, was, at, data, lo) && lo <= hi <= |data|
    ensures at + hi <= |now| && Copied(LogStore.Splice(now, at + lo, data[lo..hi]), was, at, data, hi)
  {
  }

  /** One transfer, from the remote offset `lo` up to `hi`. */
  method CopyPiece(buf: array<Byte>, at: nat, data: seq<Byte>, lo: nat, hi: nat)
    requires lo <= hi <= |data| && at + |data| <= buf.Length
    modifies buf
    ensures buf[..] == LogStore.Splice(old(buf[..]), at + lo, data[lo..hi])
  {
    forall k | lo <= k < hi { buf[at + k] := data[k]; }
  }

  method PullPiece(buf: array<Byte>, at: nat, data: seq<Byte>, lo: nat, hi: nat, ghost was: seq<Byte>)
    requires Copied(buf[..], was, at, data, lo) && lo <= hi <= |data| && at + |data| <= buf.Length
    modifies buf
    ensures Copied(buf[..], was, at, data, hi)
  {
    CopiedMore(buf[..], was, at, data, lo, hi);
    hide Copied, LogStore.Splice;
    CopyPiece(buf, at, data, lo, hi);
  }

  /** `done` bytes are over, in `i` transfers that all had the full size unless nothing remains. */
  ghost predicate Progress(i: nat, done: nat, remain: nat, total: nat) {
    done + remain == total && (remain > 0 ==> i * MAX_BULK_TX_SIZE == done)
  }

  method NextPiece(i: nat, remain: nat, ghost done: nat, ghost total: nat) returns (offset: nat, len: nat)
    requires remain > 0 && Progress(i, done, remain, total)
    ensures offset == done && 0 < len <= remain && Progress(i + 1, done + len, remain - len, total)
  {
    offset := i * MAX_BULK_TX_SIZE;
    len := if remain < MAX_BULK_TX_SIZE then remain else MAX_BULK_TX_SIZE;
  }

  /** Pull the remote data over in pieces of at most MAX_BULK_TX_SIZE bytes. */
  method BulkTransfer(buf: array<Byte>, at: nat, data: seq<Byte>)
    requires data != [] && at + |data| <= buf.Length
    modifies buf
    ensures buf[..] == LogStore.Splice(old(buf[..]), at, data)
  {
    ghost var was, done: nat := buf[..], 0;
    var i: nat, remain: nat := 0, |data|;
    assert Progress(i, done, remain, |data|);
    hide LogStore.Splice, Progress, Copied;
    CopiedNone(was, at, data);
    while remain > 0
      invariant Progress(i, done, remain, |data|) && done + remain == |data|
      invariant Copied(buf[..], was, at, data, done)
    {
      var offset, len := NextPiece(i, remain, done, |data|);
      PullPiece(buf, at, data, offset, offset + len, was);
      remain, i, done := remain - len, i + 1, done + len;
    }
    CopiedAll(buf[..], was, at, data);
  }

  /** unifyfs_mread_req_data_rpc on the request it is for. */
  method ReceiveData(r: ReadReq, at: nat, data: seq<Byte>) returns (ret: int)
    requires r.Valid() && at <= r.length
    modifies r`coverBegin, r`coverEnd, r.buf
    ensures ReqOf(r) == M.Data(old(ReqOf(r)), at, data)
    ensures ret == if |data| > r.length - at then M.EINVAL else M.SUCCESS
  {
    ret := M.SUCCESS;
    if |data| != 0 {
      var space := r.length - at;
      if |data| > space {
        ret := M.EINVAL;
      } else {
        BulkTransfer(r.buf, at, data);
        r.UpdateCoverage(at, |data|);
      }
    }
  }

  /** The request patched up in place. */
  method FillReq(r: ReadReq, size: Option<nat>)
    requires r.Valid() && M.Fillable(ReqOf(r))
    modifies r`nread, r`errcode, r.buf
    ensures ReqOf(r) == M.Fill(old(ReqOf(r)), size)
  {
    ghost var was := r.buf[..];
    if r.errcode == EINPROGRESS {
      r.errcode := M.SUCCESS;
    }
    if r.errcode != M.SUCCESS && r.errcode != M.ENODATA {
      return;
    }
    if r.nread == r.length {
      if r.coverBegin != 0 {
        SetZero(r.buf, 0, r.coverBegin);
        r.errcode := M.SUCCESS;
      }
      return;
    }
    if size.None? {
      r.errcode := M.ENOENT;
      return;
    }
    if size.value <= r.offset {
      r.nread := 0;
      r.errcode := M.SUCCESS;
    } else {
      var gapStart, reqEnd := r.offset + r.nread, r.offset + r.length;
      if size.value > gapStart {
        var gap := reqEnd - gapStart;
        if reqEnd > size.value {
          gap := size.value - gapStart;
        }
        SetZero(r.buf, r.nread, gap);
        r.nread := r.nread + gap;
        r.errcode := M.SUCCESS;
      }
    }
  }

  method ExpireReq(r: ReadReq) returns (hit: bool)
    modifies r`errcode
    ensures ReqOf(r) == M.Expire(old(ReqOf(r))) && (hit <==> old(ReqOf(r)).err == EINPROGRESS)
  {
    hit := r.errcode == EINPROGRESS;
    if hit {
      r.errcode := M.ETIMEDOUT;
    }
  }

  method SetZero(buf: array<Byte>, at: nat, n: nat)
    requires at + n <= buf.Length
    modifies buf
    ensures buf[..] == M.Zeroed(old(buf[..]), at, n)
  {
    ghost var was := buf[..];
    forall i | 0 <= i < n { buf[at + i] := 0; }
    assert buf[..] == M.Zeroed(was, at, n);
  }

  ghost function Records(reqs: seq<ReadReq>): set<object> {
    set r: ReadReq | r in reqs
  }

  ghost predicate Same(reqs: seq<ReadReq>, value: seq<M.Req>)
    reads Records(reqs), Buffers(reqs)
  {
    |value| == |reqs| && forall i :: 0 <= i < |reqs| ==> ReqOf(reqs[i]) == value[i]
  }

  /** The first `i` values are `done`, the others still `todo`. */
  ghost function Partly<T>(done: seq<T>, todo: seq<T>, i: nat): seq<T>
    requires i <= |done| == |todo|
  {
    done[..i] + todo[i..]
  }

  lemma {:induction false} PartlyNext<T>(done: seq<T>, todo: seq<T>, i: nat)
    requires i < |done| == |todo|
    ensures |Partly(done, todo, i)| == |todo| && Partly(done, todo, i)[i] == todo[i]
    ensures Partly(done, todo, i)[i := done[i]] == Partly(done, todo, i + 1)
  {
  }

  lemma {:induction false} PartlyEnds<T>(done: seq<T>, todo: seq<T>)
    requires |done| == |todo|
    ensures Partly(done, todo, 0) == todo && Partly(done, todo, |done|) == done
  {
  }

  /** One multi-read: its requests and how many of them are complete. */
  class MreadStatus {
    const reqs: seq<ReadReq>
    var nComplete: nat
    var nError: nat

    /** The value of this multi-read is `m`. */
    ghost predicate Is(m: M.Mread)
      reads this, Records(reqs), Buffers(reqs)
    {
      Separate(reqs) && Same(reqs, m.reqs) && nComplete == m.nComplete && nError == m.nError
    }

    constructor (requests: seq<ReadReq>)
      ensures reqs == requests && nComplete == 0 && nError == 0
    {
      reqs := requests;
      nComplete, nError := 0, 0;
    }

    /** A data message for request `i`; the handler asserts that the index is one of the requests. */
    method DataRpc(i: nat, at: nat, data: seq<Byte>, ghost m: M.Mread) returns (ret: int)
      requires Is(m) && i < |reqs| && at <= reqs[i].length
      modifies Records(reqs), Buffers(reqs)
      ensures Is(M.Step(m, M.DoData(i, at, data)))
      ensures ret == if |data| > reqs[i].length - at then M.EINVAL else M.SUCCESS
    {
      var r := reqs[i];
      assert r in reqs && ReqOf(r) == m.reqs[i];
      ret := ReceiveData(r, at, data);
    }

    /** A completion message; an index that is none of the requests is refused. */
    method CompleteRpc(i: nat, error: int, ghost m: M.Mread) returns (ret: int)
      requires Is(m)
      modifies this, Records(reqs)
      ensures Is(M.Step(m, M.DoComplete(i, error)))
      ensures ret == if i < |reqs| then M.SUCCESS else M.EINVAL
    {
      ret := M.SUCCESS;
      if i < |reqs| {
        var r := reqs[i];
        assert r in reqs && ReqOf(r) == m.reqs[i];
        nComplete := nComplete + 1;
        if error != 0 {
          nError := nError + 1;
          r.nread := 0;
          r.errcode := error;
        } else {
          r.nread := if r.coverEnd == UNSET then 0 else r.coverEnd + 1;
        }
      } else {
        ret := M.EINVAL;
      }
    }

    /** Request `i` is the one changed, to the value `r`. */
    ghost predicate Replaced(value: seq<M.Req>, i: nat, r: M.Req)
      reads Records(reqs), Buffers(reqs)
    {
      Separate(reqs) && i < |value| && Same(reqs, value[i := r])
    }

    method ExpireAt(i: nat, ghost value: seq<M.Req>)
      requires Separate(reqs) && Same(reqs, value) && i < |reqs|
      modifies this`nError, Records(reqs)
      ensures Replaced(value, i, M.Expire(value[i]))
      ensures nError == old(nError) + if value[i].err == EINPROGRESS then 1 else 0
    {
      hide M.Expire;
      assert reqs[i] in reqs && ReqOf(reqs[i]) == value[i];
      var hit := ExpireReq(reqs[i]);
      if hit {
        nError := nError + 1;
      }
    }

    method FillAt(i: nat, size: Option<nat>, ghost value: seq<M.Req>)
      requires Separate(reqs) && Same(reqs, value) && i < |reqs| && M.Fillable(value[i])
      modifies Records(reqs), Buffers(reqs)
      ensures Replaced(value, i, M.Fill(value[i], size))
    {
      hide M.Fill, M.Fillable;
      assert reqs[i] in reqs && ReqOf(reqs[i]) == value[i];
      FillReq(reqs[i], size);
    }

    method ExpireAll(ghost value: seq<M.Req>, ghost expired: seq<M.Req>)
      requires Separate(reqs) && Same(reqs, value) && |expired| == |value| == |reqs|
      requires forall i :: 0 <= i < |value| ==> expired[i] == M.Expire(value[i])
      modifies this`nError, Records(reqs)
      ensures Separate(reqs) && Same(reqs, expired) && nError == old(nError) + M.InProgress(value, |value|)
    {
      PartlyEnds(expired, value);
      hide M.Expire, Separate, Same, Partly;
      for i := 0 to |reqs|
        invariant Separate(reqs) && Same(reqs, Partly(expired, value, i))
        invariant nError == old(nError) + M.InProgress(value, i)
      {
        PartlyNext(expired, value, i);
        ExpireAt(i, Partly(expired, value, i));
      }
    }

    /** The wait ended without all requests complete. */
    method TimeOut(ghost m: M.Mread) returns (ghost expired: seq<M.Req>)
      requires Is(m)
      modifies this`nError, Records(reqs)
      ensures Separate(reqs) && Same(reqs, expired) && |expired| == |m.reqs|
      ensures forall i :: 0 <= i < |m.reqs| ==> expired[i] == M.Expire(m.reqs[i])
      ensures nError == m.nError + M.InProgress(m.reqs, |m.reqs|)
    {
      expired := seq(|m.reqs|, i requires 0 <= i < |m.reqs| => M.Expire(m.reqs[i]));
      assert Separate(reqs) && Same(reqs, m.reqs) && nError == m.nError && |m.reqs| == |reqs|;
      hide *;
      ExpireAll(m.reqs, expired);
    }

    /** The pass over all requests once no more data is expected; `sizes` are the sizes the server
        reports for the files of the requests. */
    method FillPass(sizes: seq<Option<nat>>, ghost value: seq<M.Req>) returns (ghost filled: seq<M.Req>)
      requires Separate(reqs) && Same(reqs, value) && |sizes| == |reqs|
      requires forall i :: 0 <= i < |value| ==> M.Fillable(value[i])
      modifies Records(reqs), Buffers(reqs)
      ensures Separate(reqs) && Same(reqs, filled) && |filled| == |value|
      ensures forall i :: 0 <= i < |value| ==> filled[i] == M.Fill(value[i], sizes[i])
    {
      filled := seq(|value|, i requires 0 <= i < |value| => M.Fill(value[i], sizes[i]));
      PartlyEnds(filled, value);
      assert |value| == |reqs|;
      hide M.Fill, M.Fillable, Separate, Same, Partly;
      for i := 0 to |reqs|
        invariant Separate(reqs) && Same(reqs, Partly(filled, value, i))
      {
        PartlyNext(filled, value, i);
        FillAt(i, sizes[i], Partly(filled, value, i));
      }
    }
  }
}
