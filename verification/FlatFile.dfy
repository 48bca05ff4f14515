/** A file as a byte sequence, written and read at given offsets with full reads and writes. */
module FlatFile {
  import opened Bits

  function Zeros(n: nat): seq<Byte> {
    seq(n, _ => 0)
  }

  /** unifyfs_fd_write: overwrite and extend; a gap reads as zeros. Writing nothing does nothing. */
  function FileWrite(file: seq<Byte>, pos: nat, data: seq<Byte>): seq<Byte> {
    if data == [] then file
    else
      (if pos <= |file| then file[..pos] else file + Zeros(pos - |file|))
      + data
      + (if pos + |data| <= |file| then file[pos + |data|..] else [])
  }

  /** unifyfs_fd_read: up to `n` bytes from `pos` on, fewer only at the end of the file. */
  function FileRead(file: seq<Byte>, pos: nat, n: nat): seq<Byte> {
    if pos >= |file| then [] else if pos + n <= |file| then file[pos..pos + n] else file[pos..]
  }

  lemma {:induction false} FileWriteAt(file: seq<Byte>, pos: nat, data: seq<Byte>, i: nat)
    requires data != []
    ensures |FileWrite(file, pos, data)| == if pos + |data| > |file| then pos + |data| else |file|
    ensures i < |FileWrite(file, pos, data)| ==>
              FileWrite(file, pos, data)[i] ==
                if pos <= i < pos + |data| then data[i - pos] else if i < |file| then file[i] else 0
  {
  }

  /** Two adjacent writes are one write. */
  lemma {:induction false} FileWriteConcat(file: seq<Byte>, pos: nat, a: seq<Byte>, b: seq<Byte>)
    ensures FileWrite(FileWrite(file, pos, a), pos + |a|, b) == FileWrite(file, pos, a + b)
  {
    if a == [] {
      assert a + b == b;
    } else if b == [] {
      assert a + b == a;
    } else {
      WriteTwice(file, pos, a, b);
    }
  }

  lemma {:induction false} WriteTwice(file: seq<Byte>, pos: nat, a: seq<Byte>, b: seq<Byte>)
    requires a != [] && b != []
    ensures FileWrite(FileWrite(file, pos, a), pos + |a|, b) == FileWrite(file, pos, a + b)
  {
    hide FileWrite;
    var once, twice := FileWrite(file, pos, a), FileWrite(FileWrite(file, pos, a), pos + |a|, b);
    var whole := FileWrite(file, pos, a + b);
    FileWriteAt(file, pos, a, pos);
    FileWriteAt(once, pos + |a|, b, pos);
    FileWriteAt(file, pos, a + b, pos);
    assert |whole| == |twice|;
    forall i: nat | i < |whole| ensures twice[i] == whole[i] {
      FileWriteAt(file, pos, a, i);
      FileWriteAt(once, pos + |a|, b, i);
      FileWriteAt(file, pos, a + b, i);
    }
  }

  /** What was written reads back. */
  lemma {:induction false} FileReadBack(file: seq<Byte>, pos: nat, data: seq<Byte>)
    requires data != []
    ensures FileRead(FileWrite(file, pos, data), pos, |data|) == data
  {
    var w := FileWrite(file, pos, data);
    FileWriteAt(file, pos, data, 0);
    forall i: nat | i < |data| ensures w[pos + i] == data[i] {
      FileWriteAt(file, pos, data, pos + i);
    }
    hide FileWrite;
    assert pos + |data| <= |w|;
  }

  /** Reading on from where a read ended is reading more. */
  lemma {:induction false} FileReadConcat(file: seq<Byte>, pos: nat, m: nat, n: nat)
    requires |FileRead(file, pos, m)| == m
    ensures FileRead(file, pos, m) + FileRead(file, pos + m, n) == FileRead(file, pos, m + n)
  {
  }

  /** A read that reached the end of the file gets no more. */
  lemma {:induction false} ReadEnds(file: seq<Byte>, pos: nat, n: nat, more: nat)
    requires |FileRead(file, pos, n)| == n && n <= more && (n < more ==> pos + n >= |file|)
    ensures FileRead(file, pos, n) == FileRead(file, pos, more)
  {
  }
}
