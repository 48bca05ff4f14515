/** What a stdio stream is without its buffers: a file, a position and the bytes pushed back. */
module StreamSpec {
  import opened Bits
  import opened FlatFile
  import opened Wrappers

  /** Largest off_t. */
  const OFF_MAX: nat := 0x7FFF_FFFF_FFFF_FFFF

  /** ungetc refuses to grow its buffer beyond this. */
  const MAX_PUSHBACK: nat := 1024

  const EOF: int := -1

  // ---------- the flat stream ----------

  datatype Flat = Flat(canRead: bool, canWrite: bool, contents: seq<Byte>, pos: nat, pushback: seq<Byte>, eof: bool,
                       err: bool)

  datatype Whence = Set | Cur | End

  datatype Op = Read(count: nat) | Write(data: seq<Byte>) | Seek(offset: int, whence: Whence) | Flush | Ungetc(c: int)

  datatype Result = Bytes(data: seq<Byte>) | Ok | Failed | AtEof | Pushed(c: int)

  /** The bytes pushed back, then the file behind them. */
  function Ahead(f: Flat, count: nat): seq<Byte> {
    if count <= |f.pushback| then f.pushback[..count]
    else f.pushback + FileRead(f.contents, f.pos + |f.pushback|, count - |f.pushback|)
  }

  function ReadFlat(f: Flat, count: nat): (Flat, Result) {
    if !f.canRead then (f.(err := true), Failed)
    else if f.eof then (f, AtEof)
    else if f.pos + count > OFF_MAX then (f.(err := true), Failed)
    else
      var data := Ahead(f, count);
      (f.(pos := f.pos + |data|,
          pushback := if count <= |f.pushback| then f.pushback[count..] else [],
          eof := |data| < count),
       Bytes(data))
  }

  /** Bytes pushed back that a write covers are gone, even if the write then fails. */
  function DropPushback(f: Flat, count: nat): Flat {
    f.(pushback := if count >= |f.pushback| then [] else f.pushback[count..])
  }

  function WriteFlat(f: Flat, data: seq<Byte>): (Flat, Result) {
    if !f.canWrite then (f.(err := true), Failed)
    else
      var f1 := DropPushback(f, |data|);
      if f.pos + |data| > OFF_MAX then (f1.(err := true), Failed)
      else (f1.(contents := FileWrite(f.contents, f.pos, data), pos := f.pos + |data|), Ok)
  }

  /** The file once the first `n` bytes of the data are written: the first `k` of them go to `at`, the
      others to their places behind `pos`. */
  ghost function PutSome(file: seq<Byte>, at: nat, k: nat, pos: nat, data: seq<Byte>, n: nat): seq<Byte>
    requires n <= |data|
  {
    if n <= k then FileWrite(file, at, data[..n]) else FileWrite(FileWrite(file, at, data[..k]), pos + k, data[k..n])
  }

  function Least(a: nat, b: nat): nat {
    if a < b then a else b
  }

  /** A write whose first `room` bytes go to `at`, wherever the stream stands. */
  ghost function Put(file: seq<Byte>, at: nat, room: nat, pos: nat, data: seq<Byte>): seq<Byte> {
    PutSome(file, at, Least(|data|, room), pos, data, |data|)
  }

  ghost function WriteAt(f: Flat, data: seq<Byte>, at: nat, room: nat): (Flat, Result) {
    if !f.canWrite then (f.(err := true), Failed)
    else
      var f1 := DropPushback(f, |data|);
      if f.pos + |data| > OFF_MAX then (f1.(err := true), Failed)
      else (f1.(contents := Put(f.contents, at, room, f.pos, data), pos := f.pos + |data|), Ok)
  }

  lemma {:induction false} PutNone(file: seq<Byte>, at: nat, k: nat, pos: nat, data: seq<Byte>, n: nat)
    requires n == 0
    ensures PutSome(file, at, k, pos, data, n) == file
  {
  }

  lemma {:induction false} PutFirst(file: seq<Byte>, at: nat, k: nat, pos: nat, data: seq<Byte>)
    requires k <= |data|
    ensures FileWrite(file, at, data[..k]) == PutSome(file, at, k, pos, data, k)
  {
  }

  lemma {:induction false} PutNext(file: seq<Byte>, at: nat, k: nat, pos: nat, data: seq<Byte>, n: nat, more: nat)
    requires k <= n && n + more <= |data|
    ensures FileWrite(PutSome(file, at, k, pos, data, n), pos + n, data[n..n + more])
            == PutSome(file, at, k, pos, data, n + more)
  {
    hide FileWrite;
    var first := FileWrite(file, at, data[..k]);
    WriteNone(first, pos + k);
    FileWriteConcat(first, pos + k, data[k..n], data[n..n + more]);
    assert data[k..n] + data[n..n + more] == data[k..n + more];
    assert data[k..k] == [];
  }

  lemma {:induction false} WriteNone(file: seq<Byte>, pos: nat)
    ensures FileWrite(file, pos, []) == file
  {
  }

  /** Where the stream stands at the end of the output, this is an ordinary write. */
  lemma {:induction false} PutAligned(file: seq<Byte>, at: nat, room: nat, data: seq<Byte>)
    ensures Put(file, at, room, at, data) == FileWrite(file, at, data)
  {
    hide FileWrite;
    var k := Least(|data|, room);
    FileWriteConcat(file, at, data[..k], data[k..]);
    assert data[..k] + data[k..] == data && data[..|data|] == data;
  }

  lemma {:induction false} PutNothing(file: seq<Byte>, at: nat, room: nat, pos: nat, data: seq<Byte>)
    requires data == []
    ensures Put(file, at, room, pos, data) == FileWrite(file, pos, data)
  {
  }

  function Base(f: Flat, whence: Whence): nat {
    match whence case Set => 0 case Cur => f.pos case End => |f.contents|
  }

  function SeekFlat(f: Flat, offset: int, whence: Whence): (Flat, Result) {
    var target := Base(f, whence) + offset;
    if whence != Set && target > OFF_MAX then (f.(err := true), Failed)
    else if target < 0 then (f, Failed)
    else (f.(pos := target, pushback := [], eof := false), Ok)
  }

  /** Conversion to an unsigned char. */
  function LowByte(c: int): Byte {
    (c % 256) as Byte
  }

  function UngetcFlat(f: Flat, c: int): (Flat, Result) {
    if c == EOF || f.pos == 0 || |f.pushback| >= MAX_PUSHBACK then (f, Pushed(EOF))
    else (f.(pushback := [LowByte(c)] + f.pushback, pos := f.pos - 1, eof := false), Pushed(c % 256))
  }

  function Step(f: Flat, op: Op): (Flat, Result) {
    match op
    case Read(count) => ReadFlat(f, count)
    case Write(data) => WriteFlat(f, data)
    case Seek(offset, whence) => SeekFlat(f, offset, whence)
    case Flush => (f, Ok)
    case Ungetc(c) => UngetcFlat(f, c)
  }

  function Run(f: Flat, ops: seq<Op>): (Flat, seq<Result>) {
    if ops == [] then (f, [])
    else
      var (f1, rs) := Run(f, ops[..|ops| - 1]);
      var (f2, r) := Step(f1, ops[|ops| - 1]);
      (f2, rs + [r])
  }

  // ---------- sequences for which the buffer does not show ----------

  /** Where output ends that may still be in the buffer, after one more operation. */
  function NextPending(f: Flat, op: Op, pending: Option<nat>): Option<nat> {
    match op
    case Read(count) => if ReadFlat(f, count).1.Bytes? && count > |f.pushback| then None else pending
    case Write(data) => if data != [] && WriteFlat(f, data).1 == Ok then Some(f.pos + |data|) else pending
    case Seek(_, _) => None
    case Flush => None
    case Ungetc(_) => pending
  }

  function Pending(f: Flat, ops: seq<Op>): Option<nat> {
    if ops == [] then None
    else
      var before := ops[..|ops| - 1];
      NextPending(Run(f, before).0, ops[|ops| - 1], Pending(f, before))
  }

  /** Output is only ever continued where it ended: the stream has not been moved back over it, by
      ungetc or by reading bytes pushed back, since it was last flushed. */
  predicate Conforms(f: Flat, ops: seq<Op>) {
    ops == [] ||
    var before, op := ops[..|ops| - 1], ops[|ops| - 1];
    && Conforms(f, before)
    && (op.Write? && op.data != [] && Pending(f, before).Some? ==> Pending(f, before).value == Run(f, before).0.pos)
  }

  /** The latest write has been followed by neither a flush nor a seek. */
  predicate Outputting(ops: seq<Op>) {
    if ops == [] then false
    else match ops[|ops| - 1]
      case Write(_) => true
      case Seek(_, _) => false
      case Flush => false
      case _ => Outputting(ops[..|ops| - 1])
  }

  /** Section 7.19.5.3 of ISO C99: output is not directly followed by input. */
  predicate IsoOrder(ops: seq<Op>) {
    ops == [] ||
    (IsoOrder(ops[..|ops| - 1]) && (ops[|ops| - 1].Read? || ops[|ops| - 1].Ungetc? ==> !Outputting(ops[..|ops| - 1])))
  }

  /** What the C standard asks of a program is enough. */
  lemma {:induction false} IsoConforms(f: Flat, ops: seq<Op>)
    requires IsoOrder(ops)
    ensures Conforms(f, ops)
    ensures Pending(f, ops).Some? ==> Outputting(ops) && Pending(f, ops).value == Run(f, ops).0.pos
  {
    if ops != [] {
      IsoConforms(f, ops[..|ops| - 1]);
      hide FileWrite, FileRead, Ahead;
    }
  }

  lemma {:induction false} ConformsPrefix(f: Flat, ops: seq<Op>, n: nat)
    requires Conforms(f, ops) && n <= |ops|
    ensures Conforms(f, ops[..n])
  {
    if n == |ops| {
      assert ops[..n] == ops;
    } else {
      ConformsPrefix(f, ops[..|ops| - 1], n);
      assert ops[..|ops| - 1][..n] == ops[..n];
    }
  }

  lemma {:induction false} RunStart(f: Flat, ops: seq<Op>)
    ensures Run(f, ops[..0]) == (f, [])
  {
  }

  lemma {:induction false} RunEnd(f: Flat, ops: seq<Op>, n: nat)
    requires n == |ops|
    ensures Run(f, ops[..n]) == Run(f, ops)
  {
    assert ops[..n] == ops;
  }

  /** One more operation of a conforming sequence. */
  lemma {:induction false} RunNext(f: Flat, ops: seq<Op>, i: nat)
    requires Conforms(f, ops) && i < |ops|
    ensures var (now, rs) := Run(f, ops[..i]);
            && Run(f, ops[..i + 1]) == (Step(now, ops[i]).0, rs + [Step(now, ops[i]).1])
            && Pending(f, ops[..i + 1]) == NextPending(now, ops[i], Pending(f, ops[..i]))
            && (ops[i].Write? && ops[i].data != [] && Pending(f, ops[..i]).Some? ==>
                  Pending(f, ops[..i]).value == now.pos)
  {
    hide Step, NextPending;
    ConformsPrefix(f, ops, i + 1);
    assert ops[..i + 1][..i] == ops[..i];
  }
}
