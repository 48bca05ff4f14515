/** unifyfs-stdio.c: a fully buffered stream, proved to act like the flat one. */
module Stream {
  import opened Arith
  import opened Bits
  import opened FlatFile
  import opened Wrappers
  import opened S = StreamSpec
  import opened StreamShift
  import Laws = StreamLaws

  /** The bytes of `[at, at + n)` inside a cached part of the file. */
  lemma {:induction false} CachedSlice(file: seq<Byte>, bufpos: nat, cached: seq<Byte>, at: nat, n: nat)
    requires FileRead(file, bufpos, |cached|) == cached && bufpos <= at && at + n <= bufpos + |cached|
    ensures FileRead(file, at, n) == cached[at - bufpos..at - bufpos + n]
  {
    if n > 0 {
      SubSlice(file, bufpos, |cached|, at - bufpos, n);
    }
  }

  lemma {:induction false} SubSlice(s: seq<Byte>, i: nat, len: nat, a: nat, n: nat)
    requires i + len <= |s| && a + n <= len
    ensures s[i..i + len][a..a + n] == s[i + a..i + a + n]
  {
    var u, v := s[i..i + len][a..a + n], s[i + a..i + a + n];
    forall k | 0 <= k < n ensures u[k] == v[k] {
      assert s[i..i + len][a + k] == s[i + a + k];
    }
  }

  /** What was pushed back, then what follows in the file. */
  lemma {:induction false} AheadSplit(f: Flat, count: nat, back: seq<Byte>, data: seq<Byte>)
    requires count <= |f.pushback| ==> back == f.pushback[..count] && data == []
    requires count > |f.pushback| ==>
               back == f.pushback && data == FileRead(f.contents, f.pos + |f.pushback|, count - |f.pushback|)
    ensures Ahead(f, count) == back + data
  {
  }

  /** The part read so far and the part that follows it. */
  method ReadMore(ghost file: seq<Byte>, ghost pos: nat, ghost n: nat, data: seq<Byte>, more: seq<Byte>)
    returns (r: seq<Byte>)
    requires data == FileRead(file, pos, n) && |data| == n && more == FileRead(file, pos + n, |more|)
    ensures r == data + more && |r| == n + |more| && r == FileRead(file, pos, n + |more|)
  {
    FileReadConcat(file, pos, n, |more|);
    r := data + more;
  }

  lemma {:induction false} ReadNone(file: seq<Byte>, pos: nat, n: nat)
    requires n == 0
    ensures FileRead(file, pos, n) == []
  {
  }

  /** How full a buffer of the given size is once `total` bytes went through it. */
  function Level(total: nat, size: nat): nat {
    if size == 0 then 0 else total % size
  }

  lemma {:induction false} LevelNext(total: nat, more: nat, size: nat)
    requires size > 0 && Level(total, size) + more <= size
    ensures Level(total + more, size) == if Level(total, size) + more == size then 0 else Level(total, size) + more
  {
    ModAdd(total, more, size);
  }

  lemma {:induction false} LevelStart(total: nat, size: nat)
    requires total < size
    ensures Level(total, size) == total
  {
  }

  /** The sizes the push-back buffer goes through. */
  ghost predicate PushbackSize(n: nat) {
    n in {0, 1, 2, 4, 8, 16, 32, 64, 128, 256, 512, 1024}
  }

  class Stream {
    const canRead: bool
    const canWrite: bool
    const buf: array<Byte>
    var bufpos: nat
    var buflen: nat
    var bufdirty: bool
    var ubuf: array<Byte>
    var ubuflen: nat
    var eof: bool
    var err: bool
    var pos: nat          // position of the file descriptor
    var file: seq<Byte>   // the file as other readers see it

    /** A clean buffer is a copy of part of the file, a dirty one is neither empty nor full. */
    ghost predicate BufferOk()
      reads this`file, this`bufpos, this`buflen, this`bufdirty, buf
    {
      && 0 < buf.Length && buflen <= buf.Length
      && if bufdirty then 0 < buflen < buf.Length else FileRead(file, bufpos, buflen) == buf[..buflen]
    }

    ghost predicate PushbackOk()
      reads this`ubuf, this`ubuflen
    {
      ubuflen <= ubuf.Length && PushbackSize(ubuf.Length)
    }

    /** Sizes and separation of the two buffers. */
    ghost predicate Shape()
      reads this`buflen, this`ubuf, this`ubuflen
    {
      buflen <= buf.Length && ubuflen <= ubuf.Length && ubuf != buf
    }

    ghost predicate Settled()
      reads this, buf
    {
      Shape() && BufferOk() && PushbackOk() && (eof ==> ubuflen == 0)
    }

    /** Behind the bytes pushed back, the stream is not inside output still in the buffer. */
    ghost predicate Valid()
      reads this, buf
    {
      Settled() && (bufdirty ==> bufpos + buflen <= pos + ubuflen)
    }

    /** The bytes of output still in the buffer. */
    ghost function Fill(): nat
      reads this`buflen, this`bufdirty
    {
      if bufdirty then buflen else 0
    }

    /** Where the next output goes. */
    ghost function At(): nat
      reads this`buflen, this`bufdirty, this`bufpos, this`pos
    {
      if bufdirty then bufpos + buflen else pos
    }

    /** The file overlaid with output not yet flushed. */
    ghost function Contents(): seq<Byte>
      reads this`file, this`bufpos, this`buflen, this`bufdirty, buf
    {
      if bufdirty then Overlay() else file
    }

    /** The file with the buffer written at its place. */
    ghost function Overlay(): seq<Byte>
      reads this`file, this`bufpos, this`buflen, buf
    {
      if buflen <= buf.Length then FileWrite(file, bufpos, buf[..buflen]) else file
    }

    ghost function Pushback(): seq<Byte>
      reads this`ubuf, this`ubuflen, ubuf
    {
      if ubuflen <= ubuf.Length then ubuf[ubuf.Length - ubuflen..] else []
    }

    ghost function View(): Flat
      reads this, buf, ubuf
    {
      Flat(canRead, canWrite, Contents(), pos, Pushback(), eof, err)
    }

    constructor (contents: seq<Byte>, read: bool, write: bool, bufsize: nat)
      requires bufsize > 0
      ensures Valid() && View() == Flat(read, write, contents, 0, [], false, false)
      ensures fresh(buf) && fresh(ubuf)
    {
      canRead, canWrite, file := read, write, contents;
      buf, ubuf := new Byte[bufsize](_ => 0), new Byte[0];
      bufpos, buflen, bufdirty, ubuflen, eof, err, pos := 0, 0, false, 0, false, false, 0;
    }

    /** unifyfs_stream_flush. */
    method Flush()
      requires BufferOk()
      modifies this`file, this`bufdirty
      ensures BufferOk() && buflen <= buf.Length && !bufdirty && file == Contents() == old(Contents())
    {
      if bufdirty {
        FileReadBack(file, bufpos, buf[..buflen]);
        file := FileWrite(file, bufpos, buf[..buflen]);
        bufdirty := false;
      }
    }

    // ---------- reading ----------

    /** Make the buffer hold the byte at `current`, unless the file ends there. */
    method Refill(current: nat) returns (atEnd: bool)
      requires BufferOk() && (bufdirty ==> current >= bufpos + buflen)
      modifies this`file, this`bufdirty, this`bufpos, this`buflen, buf
      ensures BufferOk() && !bufdirty && file == old(Contents())
      ensures bufpos <= current <= bufpos + buflen
      ensures current == bufpos + buflen ==> atEnd
      ensures atEnd ==> bufpos + buflen >= |file|
    {
      atEnd := false;
      if current < bufpos || current >= bufpos + buflen {
        Flush();
        var data := FileRead(file, current, buf.Length);
        forall i | 0 <= i < |data| { buf[i] := data[i]; }
        bufpos, buflen := current, |data|;
        assert buf[..buflen] == data;
        if buflen < buf.Length {
          atEnd := true;
        }
      }
    }

    /** unifyfs_stream_read. */
    method Read(count: nat) returns (r: Result)
      requires Valid()
      modifies this, buf
      ensures Valid() && ubuf == old(ubuf) && (View(), r) == ReadFlat(old(View()), count)
      ensures bufdirty ==> old(bufdirty) && At() == old(At()) && (r.Bytes? ==> count <= |old(Pushback())|)
    {
      hide FileRead, FileWrite, BufferOk, PushbackOk, Contents, Pushback, Ahead;
      if !canRead {
        Fail();
        return Failed;
      }
      if eof {
        return AtEof;
      }
      if pos + count > OFF_MAX {
        Fail();
        return Failed;
      }
      var data := ReadAhead(count);
      pos := pos + |data|;
      if |data| < count {
        eof := true;
      }
      r := Bytes(data);
    }

    /** The bytes pushed back, then those of the file. */
    method ReadAhead(count: nat) returns (data: seq<Byte>)
      requires Shape() && BufferOk() && PushbackOk() && (bufdirty ==> bufpos + buflen <= pos + ubuflen)
      modifies this`file, this`bufdirty, this`bufpos, this`buflen, this`ubuflen, buf
      ensures Shape() && BufferOk() && PushbackOk() && Contents() == old(Contents())
      ensures data == Ahead(old(View()), count) && |data| <= count
      ensures if count <= |old(Pushback())| then |data| == count && ubuflen == old(ubuflen) - count else ubuflen == 0
      ensures Pushback() == if count <= |old(Pushback())| then old(Pushback())[count..] else []
      ensures bufdirty ==> old(bufdirty) && count <= |old(Pushback())| && bufpos == old(bufpos) && buflen == old(buflen)
    {
      hide FileRead, FileWrite, BufferOk, PushbackOk, Contents, Pushback, Ahead;
      ghost var f := View();
      var back := TakePushback(count);
      data := [];
      if |back| < count {
        data := ReadBuffered(pos + |back|, count - |back|);
      }
      AheadSplit(f, count, back, data);
      data := back + data;
    }

    /** Take up to `count` bytes that were pushed back. */
    method TakePushback(count: nat) returns (back: seq<Byte>)
      requires PushbackOk()
      modifies this`ubuflen
      ensures PushbackOk() && ubuflen <= old(ubuflen) <= ubuf.Length && |Pushback()| == ubuflen
              && |old(Pushback())| == old(ubuflen)
      ensures count <= |old(Pushback())| ==> back == old(Pushback())[..count] && Pushback() == old(Pushback())[count..]
      ensures count > |old(Pushback())| ==> back == old(Pushback()) && Pushback() == []
    {
      hide PushbackSize;
      var start := ubuf.Length - ubuflen;
      var n := if count < ubuflen then count else ubuflen;
      back := ubuf[start..start + n];
      ubuflen := ubuflen - n;
    }

    /** The loop of unifyfs_stream_read. */
    method ReadBuffered(start: nat, count: nat) returns (data: seq<Byte>)
      requires BufferOk() && buflen <= buf.Length && (bufdirty ==> start >= bufpos + buflen) && count > 0
      modifies this`file, this`bufdirty, this`bufpos, this`buflen, buf
      ensures BufferOk() && buflen <= buf.Length && !bufdirty && Contents() == old(Contents())
      ensures data == FileRead(old(Contents()), start, count) && |data| <= count
    {
      hide *;
      ghost var c := Contents();
      data := [];
      var n: nat, atEnd := 0, false;
      ReadNone(c, start, n);
      while n < count && !atEnd
        invariant BufferOk() && buflen <= buf.Length && Contents() == c
        invariant bufdirty ==> n == 0 && !atEnd && start >= bufpos + buflen
        invariant n == |data| <= count && data == FileRead(c, start, n)
        invariant n < count && atEnd ==> start + n >= |c|
        decreases count - n, !atEnd
      {
        var more;
        more, atEnd := ReadTurn(start + n, count - n);
        data := ReadMore(c, start, n, data, more);
        n := n + |more|;
      }
      ReadEnds(c, start, n, count);
    }

    /** One turn of that loop. */
    method ReadTurn(current: nat, remaining: nat) returns (more: seq<Byte>, atEnd: bool)
      requires BufferOk() && (bufdirty ==> current >= bufpos + buflen) && remaining > 0
      modifies this`file, this`bufdirty, this`bufpos, this`buflen, buf
      ensures BufferOk() && buflen <= buf.Length && !bufdirty && file == Contents() == old(Contents())
      ensures more == FileRead(file, current, |more|) && |more| <= remaining && (more == [] ==> atEnd)
      ensures |more| < remaining && atEnd ==> current + |more| >= |file|
    {
      hide FileRead, FileWrite;
      atEnd := Refill(current);
      more := CopyOut(current, remaining);
    }

    method CopyOut(current: nat, remaining: nat) returns (more: seq<Byte>)
      requires BufferOk() && !bufdirty && bufpos <= current <= bufpos + buflen
      ensures more == FileRead(file, current, |more|)
      ensures |more| == if bufpos + buflen - current > remaining then remaining else bufpos + buflen - current
    {
      var offset := current - bufpos;
      var bytes := buflen - offset;
      if bytes > remaining {
        bytes := remaining;
      }
      more := buf[offset..offset + bytes];
      CachedSlice(file, bufpos, buf[..buflen], current, bytes);
    }

    // ---------- writing ----------

    /** unifyfs_stream_write on a fully buffered stream that is not in append mode: what fits into a
        buffer with output in it goes behind that output, wherever the stream stands. */
    method Write(data: seq<Byte>) returns (r: Result)
      requires Valid()
      modifies this, buf
      ensures Settled() && ubuf == old(ubuf)
      ensures (View(), r) == WriteAt(old(View()), data, old(At()), buf.Length - old(Fill()))
      ensures old(At()) == old(pos) || data == [] ==> Valid() && (View(), r) == WriteFlat(old(View()), data)
      ensures old(At()) == old(pos) && bufdirty && r == Ok ==> At() == pos
      ensures r != Ok || data == [] ==> bufdirty == old(bufdirty) && (bufdirty ==> At() == old(At()))
      ensures r == Ok ==> Fill() == Level(old(Fill()) + |data|, buf.Length)
    {
      hide FileRead, FileWrite, PushbackOk, BufferOk, Contents, Pushback, DropPushback, PutSome;
      if !canWrite {
        Fail();
        return Failed;
      }
      DropFront(|data|);
      if pos + |data| > OFF_MAX {
        Fail();
        return Failed;
      }
      PutAll(data);
      r := Ok;
    }

    method Fail()
      requires Settled()
      modifies this`err
      ensures Settled() && View() == old(View()).(err := true)
    {
      hide FileRead, FileWrite, BufferOk, PushbackOk, Contents, Pushback;
      err := true;
    }

    /** Bytes pushed back are dropped as far as a write of `count` bytes reaches. */
    method DropFront(count: nat)
      requires Settled()
      modifies this`ubuflen
      ensures Settled() && View() == DropPushback(old(View()), count) && (count == 0 ==> ubuflen == old(ubuflen))
    {
      hide FileRead, FileWrite, PushbackSize, BufferOk, Contents;
      ghost var back := Pushback();
      if ubuflen > 0 {
        if count >= ubuflen {
          ubuflen := 0;
        } else {
          ubuflen := ubuflen - count;
          assert Pushback() == back[count..];
        }
      }
    }

    method PutAll(data: seq<Byte>)
      requires Settled()
      modifies this`file, this`bufdirty, this`bufpos, this`buflen, this`pos, buf
      ensures Settled() && Fill() == Level(old(Fill()) + |data|, buf.Length)
      ensures View() == old(View()).(contents := Put(old(Contents()), old(At()), buf.Length - old(Fill()), old(pos),
                                                     data),
                                     pos := old(pos) + |data|)
      ensures bufdirty && old(At()) == old(pos) ==> At() == pos
      ensures data == [] ==> bufdirty == old(bufdirty) && (bufdirty ==> At() == old(At()))
      ensures old(At()) == old(pos) || data == [] ==> Contents() == FileWrite(old(Contents()), old(pos), data)
    {
      hide FileRead, FileWrite, BufferOk, PushbackOk, Contents, Pushback, Put, Level;
      ghost var c, at, room := Contents(), At(), buf.Length - Fill();
      WriteBuffered(pos, data);
      if at == pos {
        PutAligned(c, at, room, data);
      }
      if data == [] {
        PutNothing(c, at, room, pos, data);
      }
      pos := pos + |data|;
    }

    /** The loop of unifyfs_stream_write. */
    method WriteBuffered(start: nat, data: seq<Byte>)
      requires BufferOk() && buflen <= buf.Length && start == pos
      modifies this`file, this`bufdirty, this`bufpos, this`buflen, buf
      ensures BufferOk() && buflen <= buf.Length && Fill() == Level(old(Fill()) + |data|, buf.Length)
      ensures Contents() == Put(old(Contents()), old(At()), buf.Length - old(Fill()), start, data)
      ensures bufdirty && old(At()) == start ==> At() == start + |data|
      ensures data == [] ==> bufdirty == old(bufdirty) && At() == old(At())
    {
      hide *;
      ghost var c, at, fill, dirty := Contents(), At(), Fill(), bufdirty;
      var n: nat := 0;
      WritingStart(start, data, n);
      ghost var k := Least(|data|, buf.Length - fill);
      while n < |data|
        invariant n <= |data| && Writing(c, at, fill, dirty, k, start, data, n)
      {
        var bytes := WriteTurn(c, at, fill, dirty, k, start, data, n);
        n := n + bytes;
      }
      WritingEnd(c, at, fill, dirty, k, start, data, n);
    }

    lemma {:induction false} WritingStart(start: nat, data: seq<Byte>, n: nat)
      requires n == 0 && start == pos && BufferOk()
      ensures buflen <= buf.Length && Fill() < buf.Length
      ensures Writing(Contents(), At(), Fill(), bufdirty, Least(|data|, buf.Length - Fill()), start, data, n)
    {
      hide FileRead, FileWrite, PutSome, Contents, Level;
      PutNone(Contents(), At(), Least(|data|, buf.Length - Fill()), start, data, n);
      LevelStart(Fill(), buf.Length);
    }

    lemma {:induction false} WritingEnd(c: seq<Byte>, at: nat, fill: nat, dirty: bool, k: nat, start: nat,
                                        data: seq<Byte>, n: nat)
      requires n == |data| && start == pos && Writing(c, at, fill, dirty, k, start, data, n)
      ensures BufferOk() && buflen <= buf.Length && fill < buf.Length && Fill() == Level(fill + |data|, buf.Length)
      ensures Contents() == Put(c, at, buf.Length - fill, start, data)
      ensures bufdirty && at == start ==> At() == start + |data|
      ensures data == [] ==> bufdirty == dirty && At() == at
    {
      hide FileRead, FileWrite, PutSome, BufferOk, Contents, Level;
    }

    /** The first `n` bytes of the data are written; `fill` bytes of output were in the buffer before. */
    ghost predicate Writing(c: seq<Byte>, at: nat, fill: nat, dirty: bool, k: nat, start: nat, data: seq<Byte>, n: nat)
      requires n <= |data|
      reads this`file, this`bufpos, this`buflen, this`bufdirty, buf
    {
      && BufferOk() && buflen <= buf.Length && fill < buf.Length && k == Least(|data|, buf.Length - fill)
      && Contents() == PutSome(c, at, k, start, data, n) && Fill() == Level(fill + n, buf.Length)
      && if n == 0 then bufdirty == dirty && at == (if bufdirty then bufpos + buflen else start) && Fill() == fill
         else k <= n && (n < |data| ==> !bufdirty) && (bufdirty && at == start ==> bufpos + buflen == start + n)
    }

    /** One turn of that loop. */
    method WriteTurn(ghost c: seq<Byte>, ghost at: nat, ghost fill: nat, ghost dirty: bool, ghost k: nat,
                     start: nat, data: seq<Byte>, n: nat) returns (bytes: nat)
      requires n < |data| && Writing(c, at, fill, dirty, k, start, data, n)
      modifies this`file, this`bufdirty, this`bufpos, this`buflen, buf
      ensures 0 < bytes <= |data| - n && Writing(c, at, fill, dirty, k, start, data, n + bytes)
    {
      hide FileRead, FileWrite, PutSome, BufferOk, Contents, Level;
      bytes := PutTurn(start + n, data, n);
      LevelNext(fill + n, bytes, buf.Length);
      if n == 0 {
        assert bytes == k && data[n..n + bytes] == data[..k];
        PutNone(c, at, k, start, data, n);
        PutFirst(c, at, k, start, data);
      } else {
        PutNext(c, at, k, start, data, n, bytes);
      }
    }

    /** Append what fits to the buffer and flush it once it is full. A dirty buffer takes the
        data at its own end, whatever the position is. */
    method PutTurn(current: nat, data: seq<Byte>, n: nat) returns (bytes: nat)
      requires BufferOk() && n < |data|
      modifies this`file, this`bufdirty, this`bufpos, this`buflen, buf
      ensures BufferOk() && buflen <= buf.Length && 0 < bytes <= |data| - n
      ensures bytes == Least(|data| - n, buf.Length - old(Fill()))
      ensures Fill() == if old(Fill()) + bytes == buf.Length then 0 else old(Fill()) + bytes
      ensures bufdirty ==> bytes == |data| - n
      ensures var at := if old(bufdirty) then old(bufpos + buflen) else current;
              && Contents() == FileWrite(old(Contents()), at, data[n..n + bytes])
              && (bufdirty ==> at + bytes == bufpos + buflen)
    {
      hide FileRead, FileWrite, Overlay;
      StartAt(current);
      bytes := |data| - n;
      var needFlush := false;
      if bytes >= buf.Length - buflen {
        bytes := buf.Length - buflen;
        needFlush := true;
      }
      Append(data[n..n + bytes]);
      if needFlush {
        FlushFull();
      }
    }

    /** A clean buffer is emptied and starts at the position. */
    method StartAt(current: nat)
      requires BufferOk()
      modifies this`bufpos, this`buflen
      ensures buflen < buf.Length && buflen == old(Fill())
      ensures bufpos + buflen == (if bufdirty then old(bufpos + buflen) else current) && Overlay() == old(Contents())
    {
      if !bufdirty {
        bufpos, buflen := current, 0;
      }
    }

    /** Copy user data behind what is in the buffer. */
    method Append(data: seq<Byte>)
      requires data != [] && buflen + |data| <= buf.Length
      modifies this`bufdirty, this`buflen, buf
      ensures bufdirty && buflen == old(buflen) + |data|
      ensures Overlay() == FileWrite(old(Overlay()), bufpos + old(buflen), data)
    {
      var offset := buflen;
      ghost var had := buf[..buflen];
      forall i | offset <= i < offset + |data| { buf[i] := data[i - offset]; }
      bufdirty := true;
      buflen := buflen + |data|;
      hide FileWrite;
      assert buf[..buflen] == had + data;
      FileWriteConcat(file, bufpos, had, data);
    }

    /** Flush a buffer that was just filled. */
    method FlushFull()
      requires bufdirty && 0 < buflen == buf.Length
      modifies this`file, this`bufdirty
      ensures BufferOk() && !bufdirty && file == old(Overlay())
    {
      FileReadBack(file, bufpos, buf[..buflen]);
      file := FileWrite(file, bufpos, buf[..buflen]);
      bufdirty := false;
    }

    // ---------- moving ----------

    /** unifyfs_fseek. */
    method Seek(offset: int, whence: Whence) returns (r: Result)
      requires Valid()
      modifies this
      ensures Valid() && ubuf == old(ubuf) && (View(), r) == SeekFlat(old(View()), offset, whence) && !bufdirty
    {
      hide FileRead, FileWrite, PushbackOk, BufferOk, Contents, Pushback;
      var _ := FlushStream();
      var target := pos;
      match whence {
      case Set =>
        if offset < 0 { return Failed; }
        target := offset;
      case Cur =>
        if pos + offset > OFF_MAX { Fail(); return Failed; }
        if pos + offset < 0 { return Failed; }
        target := pos + offset;
      case End =>
        if |file| + offset > OFF_MAX { Fail(); return Failed; }
        if |file| + offset < 0 { return Failed; }
        target := |file| + offset;
      }
      Land(target);
      r := Ok;
    }

    method Land(target: nat)
      requires Settled() && !bufdirty
      modifies this`ubuflen, this`pos, this`eof
      ensures Valid() && View() == old(View()).(pos := target, pushback := [], eof := false)
    {
      hide FileRead, FileWrite, PushbackSize, BufferOk, Contents;
      ubuflen, pos, eof := 0, target, false;
    }

    /** fflush. */
    method FlushStream() returns (r: Result)
      requires Valid()
      modifies this`file, this`bufdirty
      ensures Valid() && ubuf == old(ubuf) && (View(), r) == (old(View()), Ok) && !bufdirty && file == View().contents
    {
      hide FileRead, FileWrite, BufferOk, PushbackOk, Contents, Pushback;
      Flush();
      r := Ok;
    }

    /** ungetc. */
    method Ungetc(c: int) returns (r: Result)
      requires Valid()
      modifies this, ubuf
      ensures Valid() && (ubuf == old(ubuf) || fresh(ubuf)) && (View(), r) == UngetcFlat(old(View()), c)
      ensures bufdirty == old(bufdirty) && Fill() == old(Fill()) && (bufdirty ==> At() == old(At()))
    {
      hide FileRead, FileWrite, BufferOk, PushbackOk, Contents, Pushback, LowByte;
      if c == EOF || pos == 0 {
        return Pushed(EOF);
      }
      var ok := MakeRoom();
      if !ok {
        return Pushed(EOF);
      }
      PushByte(LowByte(c));
      pos := pos - 1;
      eof := false;
      r := Pushed(c % 256);
    }

    /** Room for one more byte, unless the limit is reached. */
    method MakeRoom() returns (ok: bool)
      requires PushbackOk() && ubuf != buf
      modifies this`ubuf
      ensures PushbackOk() && ubuf != buf && (ubuf == old(ubuf) || fresh(ubuf)) && Pushback() == old(Pushback())
      ensures ok <==> |old(Pushback())| < MAX_PUSHBACK
      ensures ubuflen <= ubuf.Length && (ok ==> ubuflen < ubuf.Length)
    {
      ok := true;
      if ubuflen == ubuf.Length {
        var newsize := if ubuf.Length > 0 then 2 * ubuf.Length else 1;
        if newsize > MAX_PUSHBACK {
          return false;
        }
        Grow(newsize);
      }
    }

    method PushByte(b: Byte)
      requires PushbackOk() && ubuflen < ubuf.Length
      modifies this`ubuflen, ubuf
      ensures PushbackOk() && ubuflen == old(ubuflen) + 1 <= ubuf.Length && Pushback() == [b] + old(Pushback())
    {
      hide PushbackSize;
      ubuflen := ubuflen + 1;
      ubuf[ubuf.Length - ubuflen] := b;
    }

    /** Move the bytes pushed back to the end of a bigger buffer. */
    method Grow(newsize: nat)
      requires PushbackOk() && ubuflen < newsize && PushbackSize(newsize)
      modifies this`ubuf
      ensures PushbackOk() && fresh(ubuf) && ubuf.Length == newsize && Pushback() == old(Pushback())
    {
      hide PushbackSize;
      var back, start := ubuf[ubuf.Length - ubuflen..], newsize - ubuflen;
      var bigger := new Byte[newsize];
      forall i | start <= i < newsize { bigger[i] := back[i - start]; }
      assert bigger[start..] == back;
      ubuf := bigger;
    }

    // ---------- whole runs ----------

    /** One operation. */
    method Do(op: Op, ghost pending: Option<nat>) returns (r: Result)
      requires Valid() && (bufdirty ==> pending == Some(At()))
      requires op.Write? && op.data != [] && pending.Some? ==> pending.value == pos
      modifies this, buf, ubuf
      ensures Valid() && (ubuf == old(ubuf) || fresh(ubuf)) && (View(), r) == Step(old(View()), op)
      ensures bufdirty ==> NextPending(old(View()), op, pending) == Some(At())
    {
      hide FileRead, FileWrite, BufferOk, PushbackOk, Contents, Ahead, WriteAt, DropPushback;
      match op
      case Read(count) => r := Read(count);
      case Write(data) => r := Write(data);
      case Seek(offset, whence) => r := Seek(offset, whence);
      case Flush => r := FlushStream();
      case Ungetc(c) => r := Ungetc(c);
    }

    /** For every sequence of operations in which output is continued only where it ended, the
        buffered stream returns what the flat stream returns and ends where it ends. */
    method Perform(ops: seq<Op>) returns (results: seq<Result>)
      requires Valid() && !bufdirty && Conforms(View(), ops)
      modifies this, buf, ubuf
      ensures Valid() && (View(), results) == Run(old(View()), ops)
    {
      hide View, Valid, Step, Run, Conforms, Pending, NextPending;
      ghost var f := View();
      results := [];
      RunStart(f, ops);
      for i := 0 to |ops|
        invariant Valid() && (ubuf == old(ubuf) || fresh(ubuf))
        invariant (View(), results) == Run(f, ops[..i])
        invariant bufdirty ==> Pending(f, ops[..i]) == Some(At())
      {
        RunNext(f, ops, i);
        PosIs();
        var r := Do(ops[i], Pending(f, ops[..i]));
        results := results + [r];
      }
      RunEnd(f, ops, |ops|);
    }

    lemma {:induction false} PosIs()
      ensures View().pos == pos
    {
    }

    /** Through buffer and flushes, what is written is what a seek back and a read return. */
    method WriteAndReadBack(data: seq<Byte>) returns (results: seq<Result>)
      requires Valid() && !bufdirty && canRead && canWrite && pos + |data| <= OFF_MAX
      modifies this, buf, ubuf
      ensures Valid() && results == [Ok, Ok, Bytes(data)]
    {
      hide Valid, Run, Conforms;
      ghost var f := View();
      var ops := [Op.Write(data), Op.Seek(0 - |data|, Cur), Op.Read(|data|)];
      Laws.IsoThree(f, ops[0], ops[1], ops[2]);
      Laws.WriteReadBack(f, data);
      results := Perform(ops);
    }

    /** The last `k` bytes of the contents, of which some may be in the buffer before. */
    method ReadTail(k: nat) returns (r: Result)
      requires Valid() && canRead && k <= |View().contents| <= OFF_MAX
      modifies this, buf, ubuf
      ensures Valid() && r == Bytes(old(View().contents)[|old(View().contents)| - k..])
    {
      hide Valid, Contents, Pushback, Run, ReadFlat, SeekFlat;
      ghost var f := View();
      Laws.RunTwo(f, Op.Seek(0 - k, End), Op.Read(k));
      Laws.SeekEndRead(f, k);
      var _ := Seek(0 - k, End);
      r := Read(k);
    }

    /** Output, ungetc and more output: the buffered stream ends like the flat one exactly if the first
        output filled the buffer to the end, or what still fits behind it only repeats its last byte, and
        the file has that byte there already if it all fits. */
    method WriteUngetcWrite(out: seq<Byte>, c: int, data: seq<Byte>)
      requires Valid() && !bufdirty && canWrite && out != [] && c != EOF
      requires pos + |out| <= OFF_MAX && pos + |out| - 1 + |data| <= OFF_MAX
      modifies this, buf, ubuf
      ensures var f := old(View());
              View() == Run(f, [Op.Write(out), Op.Ungetc(c), Op.Write(data)]).0
              <==> |out| % buf.Length == 0 || OnlyRepeats(f.contents, f.pos, out, data, buf.Length - |out| % buf.Length)
    {
      hide FileRead, FileWrite, BufferOk, PushbackOk, Contents, Pushback, Run, WriteAt, WriteFlat, UngetcFlat;
      ghost var f := View();
      Bounds();
      Laws.RunThree(f, Op.Write(out), Op.Ungetc(c), Op.Write(data));
      BackPos(f, out, c);
      var _ := Write(out);
      Bounds();
      assert Fill() == |out| % buf.Length;
      var _ := Ungetc(c);
      ghost var fill, at := Fill(), At();
      BackAndWrite(f, out, c, data, fill, at, buf.Length - fill);
      var _ := Write(data);
    }

    lemma {:induction false} Bounds()
      requires Settled()
      ensures |Pushback()| <= MAX_PUSHBACK && buf.Length > 0 && (bufdirty ==> buflen > 0)
    {
    }
  }
}
