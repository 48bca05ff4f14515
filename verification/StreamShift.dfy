/** A write to a stream whose unflushed output does not end where the stream stands: which bytes make it
    come out like a write at the position all the same. */
module StreamShift {
  import opened Bits
  import opened FlatFile
  import opened StreamSpec

  /** The byte at an offset; zero behind the end, as a gap reads. */
  function ByteAt(file: seq<Byte>, i: nat): Byte {
    if i < |file| then file[i] else 0
  }

  function Longest(a: nat, b: nat): nat {
    if a < b then b else a
  }

  lemma {:induction false} WrittenByte(file: seq<Byte>, pos: nat, data: seq<Byte>, i: nat)
    ensures |FileWrite(file, pos, data)| == if data == [] then |file| else Longest(|file|, pos + |data|)
    ensures ByteAt(FileWrite(file, pos, data), i) == if pos <= i < pos + |data| then data[i - pos] else ByteAt(file, i)
  {
    if data != [] {
      FileWriteAt(file, pos, data, i);
    }
  }

  lemma {:induction false} PutByte(file: seq<Byte>, at: nat, k: nat, pos: nat, data: seq<Byte>, i: nat)
    requires 0 < k <= |data|
    ensures var got := PutSome(file, at, k, pos, data, |data|);
            && |got| == Longest(Longest(|file|, at + k), if k < |data| then pos + |data| else 0)
            && ByteAt(got, i) == if pos + k <= i < pos + |data| then data[i - pos]
                                 else if at <= i < at + k then data[i - at] else ByteAt(file, i)
  {
    hide FileWrite;
    WrittenByte(file, at, data[..k], i);
    WrittenByte(FileWrite(file, at, data[..k]), pos + k, data[k..], i);
    assert data[..|data|] == data;
  }

  lemma {:induction false} SameFile(a: seq<Byte>, b: seq<Byte>)
    requires |a| == |b| && forall i: nat :: ByteAt(a, i) == ByteAt(b, i)
    ensures a == b
  {
    forall i: nat | i < |a| ensures a[i] == b[i] {
      assert ByteAt(a, i) == ByteAt(b, i);
    }
  }

  /** The stream stands `at - pos` bytes before the end of its output: the bytes that go there repeat at
      that distance, and the file holds the first of them already where the stream stands and the last of
      them already behind the output. */
  ghost predicate RepeatsBack(file: seq<Byte>, at: nat, k: nat, pos: nat, data: seq<Byte>)
    requires pos < at && k <= |data|
  {
    var d := at - pos;
    && (at + k <= |file| || at + k <= pos + |data|)
    && (forall j: nat :: j + d < k ==> data[j] == data[j + d])
    && (forall j: nat :: j < k && j < d ==> ByteAt(file, pos + j) == data[j])
    && (forall j: nat :: j < k && |data| <= j + d ==> ByteAt(file, at + j) == data[j])
  }

  /** The stream stands `pos - at` bytes behind the end of its output. */
  ghost predicate RepeatsAhead(file: seq<Byte>, at: nat, k: nat, pos: nat, data: seq<Byte>)
    requires at < pos && k <= |data|
  {
    var d := pos - at;
    && (k < |data| || pos + |data| <= |file|)
    && (forall j: nat :: d <= j < k ==> data[j] == data[j - d])
    && (forall j: nat :: j < k && j < d ==> ByteAt(file, at + j) == data[j])
    && (forall j: nat :: j < k && k <= j + d ==> ByteAt(file, pos + j) == data[j])
  }

  lemma {:induction false} BackByte(file: seq<Byte>, at: nat, k: nat, pos: nat, data: seq<Byte>, i: nat)
    requires pos < at && 0 < k <= |data| && RepeatsBack(file, at, k, pos, data)
    ensures ByteAt(PutSome(file, at, k, pos, data, |data|), i) == ByteAt(FileWrite(file, pos, data), i)
  {
    hide PutSome, FileWrite;
    PutByte(file, at, k, pos, data, i);
    WrittenByte(file, pos, data, i);
    var d := at - pos;
    if at <= i < at + k && i < pos + k {
      assert (i - at) + d < k && data[i - at] == data[i - at + d];
    } else if at <= i < at + k && pos + |data| <= i {
      assert ByteAt(file, at + (i - at)) == data[i - at];
    } else if pos <= i < at && i < pos + k {
      assert ByteAt(file, pos + (i - pos)) == data[i - pos];
    }
  }

  lemma {:induction false} BackNeeded(file: seq<Byte>, at: nat, k: nat, pos: nat, data: seq<Byte>)
    requires pos < at && 0 < k <= |data| && PutSome(file, at, k, pos, data, |data|) == FileWrite(file, pos, data)
    ensures RepeatsBack(file, at, k, pos, data)
  {
    hide PutSome, FileWrite;
    var d := at - pos;
    PutByte(file, at, k, pos, data, 0);
    WrittenByte(file, pos, data, 0);
    forall j: nat | j < k
      ensures j + d < k ==> data[j] == data[j + d]
      ensures j < d ==> ByteAt(file, pos + j) == data[j]
      ensures |data| <= j + d ==> ByteAt(file, at + j) == data[j]
    {
      PutByte(file, at, k, pos, data, at + j);
      WrittenByte(file, pos, data, at + j);
      PutByte(file, at, k, pos, data, pos + j);
      WrittenByte(file, pos, data, pos + j);
    }
  }

  lemma {:induction false} AheadByte(file: seq<Byte>, at: nat, k: nat, pos: nat, data: seq<Byte>, i: nat)
    requires at < pos && 0 < k <= |data| && RepeatsAhead(file, at, k, pos, data)
    ensures ByteAt(PutSome(file, at, k, pos, data, |data|), i) == ByteAt(FileWrite(file, pos, data), i)
  {
    hide PutSome, FileWrite;
    PutByte(file, at, k, pos, data, i);
    WrittenByte(file, pos, data, i);
    var d := pos - at;
    if at <= i < at + k && i < pos {
      assert ByteAt(file, at + (i - at)) == data[i - at];
    } else if pos <= i < at + k {
      assert data[i - at] == data[i - at - d];
    } else if pos <= i < pos + k {
      assert ByteAt(file, pos + (i - pos)) == data[i - pos];
    }
  }

  lemma {:induction false} AheadNeeded(file: seq<Byte>, at: nat, k: nat, pos: nat, data: seq<Byte>)
    requires at < pos && 0 < k <= |data| && PutSome(file, at, k, pos, data, |data|) == FileWrite(file, pos, data)
    ensures RepeatsAhead(file, at, k, pos, data)
  {
    hide PutSome, FileWrite;
    var d := pos - at;
    PutByte(file, at, k, pos, data, 0);
    WrittenByte(file, pos, data, 0);
    forall j: nat | j < k
      ensures d <= j ==> data[j] == data[j - d]
      ensures j < d ==> ByteAt(file, at + j) == data[j]
      ensures k <= j + d ==> ByteAt(file, pos + j) == data[j]
    {
      PutByte(file, at, k, pos, data, at + j);
      WrittenByte(file, pos, data, at + j);
      PutByte(file, at, k, pos, data, pos + j);
      WrittenByte(file, pos, data, pos + j);
    }
  }

  /** Where the first `room` bytes of the data make no difference. */
  ghost predicate Repeats(file: seq<Byte>, at: nat, room: nat, pos: nat, data: seq<Byte>) {
    var k := Least(|data|, room);
    || k == 0 || at == pos
    || (pos < at && RepeatsBack(file, at, k, pos, data))
    || (at < pos && RepeatsAhead(file, at, k, pos, data))
  }

  /** For any data, position, end of output and room: the write comes out like one at the position exactly
      if the data repeats itself and the file at the distance between the two places. */
  lemma {:induction false} PutIff(file: seq<Byte>, at: nat, room: nat, pos: nat, data: seq<Byte>)
    ensures Put(file, at, room, pos, data) == FileWrite(file, pos, data) <==> Repeats(file, at, room, pos, data)
  {
    var k := Least(|data|, room);
    if k == 0 {
      NoRoom(file, at, pos, data);
    } else if at == pos {
      PutAligned(file, at, room, data);
    } else if Repeats(file, at, room, pos, data) {
      RepeatsPut(file, at, k, pos, data);
    } else if Put(file, at, room, pos, data) == FileWrite(file, pos, data) {
      if pos < at { BackNeeded(file, at, k, pos, data); } else { AheadNeeded(file, at, k, pos, data); }
    }
    hide PutSome, FileWrite, RepeatsBack, RepeatsAhead;
  }

  lemma {:induction false} NoRoom(file: seq<Byte>, at: nat, pos: nat, data: seq<Byte>)
    ensures PutSome(file, at, 0, pos, data, |data|) == FileWrite(file, pos, data)
  {
    assert data[..0] == [] && data[0..|data|] == data && data[..|data|] == data;
    WriteNone(file, at);
    WriteNone(file, pos);
    hide FileWrite;
  }

  lemma {:induction false} RepeatsPut(file: seq<Byte>, at: nat, k: nat, pos: nat, data: seq<Byte>)
    requires 0 < k <= |data| && at != pos
    requires if pos < at then RepeatsBack(file, at, k, pos, data) else RepeatsAhead(file, at, k, pos, data)
    ensures PutSome(file, at, k, pos, data, |data|) == FileWrite(file, pos, data)
  {
    hide PutSome, FileWrite, ByteAt;
    var got, want := PutSome(file, at, k, pos, data, |data|), FileWrite(file, pos, data);
    PutByte(file, at, k, pos, data, 0);
    WrittenByte(file, pos, data, 0);
    RepeatsLength(file, at, k, pos, data);
    forall i: nat ensures ByteAt(got, i) == ByteAt(want, i) {
      if pos < at { BackByte(file, at, k, pos, data, i); } else { AheadByte(file, at, k, pos, data, i); }
    }
    SameFile(got, want);
  }

  lemma {:induction false} RepeatsLength(file: seq<Byte>, at: nat, k: nat, pos: nat, data: seq<Byte>)
    requires 0 < k <= |data| && at != pos
    requires if pos < at then RepeatsBack(file, at, k, pos, data) else RepeatsAhead(file, at, k, pos, data)
    ensures Longest(Longest(|file|, at + k), if k < |data| then pos + |data| else 0) == Longest(|file|, pos + |data|)
  {
  }

  /** What a write does, against the flat stream, from every state and for every data. */
  lemma {:induction false} WriteAtIff(f: Flat, data: seq<Byte>, at: nat, room: nat)
    ensures WriteAt(f, data, at, room) == WriteFlat(f, data)
            <==> !f.canWrite || f.pos + |data| > OFF_MAX || Repeats(f.contents, at, room, f.pos, data)
  {
    PutIff(f.contents, at, room, f.pos, data);
    hide Put, FileWrite, Repeats;
  }

  // ---------- moved back by one byte ----------

  /** Of the data, the first `room` bytes all equal the last byte of the output before, and if that is all
      of the data the file has this byte already where it ends. */
  ghost predicate OnlyRepeats(file: seq<Byte>, pos: nat, out: seq<Byte>, data: seq<Byte>, room: nat)
    requires out != []
  {
    var k, last, end := Least(|data|, room), out[|out| - 1], pos + |out|;
    || data == []
    || (&& (forall j: nat :: j < k ==> data[j] == last)
        && (k == |data| ==> end + k - 1 < |file| && file[end + k - 1] == last))
  }

  lemma {:induction false} AllSame(data: seq<Byte>, k: nat, j: nat)
    requires j < k <= |data| && forall i: nat :: i + 1 < k ==> data[i] == data[i + 1]
    ensures data[j] == data[0]
  {
    if j > 0 {
      AllSame(data, k, j - 1);
      assert data[j - 1] == data[j - 1 + 1];
    }
  }

  lemma {:induction false} BackOne(file: seq<Byte>, pos: nat, out: seq<Byte>, data: seq<Byte>, k: nat)
    requires out != [] && 0 < k <= |data|
    ensures var file', end := FileWrite(file, pos, out), pos + |out|;
            RepeatsBack(file', end, k, end - 1, data)
            <==> (&& (forall j: nat :: j < k ==> data[j] == out[|out| - 1])
                  && (k == |data| ==> end + k - 1 < |file| && file[end + k - 1] == out[|out| - 1]))
  {
    hide FileWrite;
    var file', end, last := FileWrite(file, pos, out), pos + |out|, out[|out| - 1];
    WrittenByte(file, pos, out, end - 1);
    WrittenByte(file, pos, out, end + k - 1);
    assert ByteAt(file', end - 1 + 0) == last;
    if RepeatsBack(file', end, k, end - 1, data) {
      assert ByteAt(file', end - 1 + 0) == data[0];
      forall j: nat | j < k ensures data[j] == last {
        AllSame(data, k, j);
      }
      assert k == |data| ==> ByteAt(file', end + (k - 1)) == data[k - 1];
    }
  }

  lemma {:induction false} RepeatsOne(file: seq<Byte>, pos: nat, out: seq<Byte>, data: seq<Byte>, room: nat)
    requires out != [] && room > 0
    ensures var end := pos + |out|;
            Repeats(FileWrite(file, pos, out), end, room, end - 1, data) <==> OnlyRepeats(file, pos, out, data, room)
  {
    if data != [] {
      BackOne(file, pos, out, data, Least(|data|, room));
    }
    hide RepeatsBack, RepeatsAhead, FileWrite;
  }

  lemma {:induction false} BackPos(f: Flat, out: seq<Byte>, c: int)
    requires f.canWrite && out != [] && f.pos + |out| <= OFF_MAX && c != EOF && |f.pushback| <= MAX_PUSHBACK
    ensures var f1 := WriteFlat(f, out).0;
            var f2 := UngetcFlat(f1, c).0;
            && WriteFlat(f, out).1 == Ok && f1.pos == f.pos + |out| && f2.pos + 1 == f.pos + |out|
            && f2.contents == f1.contents == FileWrite(f.contents, f.pos, out) && f2.canWrite
  {
    hide FileWrite;
  }

  /** The third operation, for a write that goes behind the output or to its place. */
  lemma {:induction false} BackAndWrite(f: Flat, out: seq<Byte>, c: int, data: seq<Byte>, fill: nat, at: nat, room: nat)
    requires f.canWrite && out != [] && f.pos + |out| <= OFF_MAX && c != EOF && |f.pushback| <= MAX_PUSHBACK && room > 0
    requires at == f.pos + |out| - (if fill > 0 then 0 else 1) && f.pos + |out| - 1 + |data| <= OFF_MAX
    ensures var f2 := UngetcFlat(WriteFlat(f, out).0, c).0;
            WriteAt(f2, data, at, room).0 == WriteFlat(f2, data).0
            <==> fill == 0 || OnlyRepeats(f.contents, f.pos, out, data, room)
  {
    var f2 := UngetcFlat(WriteFlat(f, out).0, c).0;
    BackPos(f, out, c);
    hide UngetcFlat, Put, FileWrite, OnlyRepeats;
    PutIff(f2.contents, at, room, f2.pos, data);
    RepeatsOne(f.contents, f.pos, out, data, room);
    hide Repeats;
    assert fill == 0 ==> at == f2.pos;
    AlignedRepeats(f2.contents, at, room, data);
  }

  lemma {:induction false} AlignedRepeats(file: seq<Byte>, at: nat, room: nat, data: seq<Byte>)
    ensures Repeats(file, at, room, at, data)
  {
  }
}
