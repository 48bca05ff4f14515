/** What the flat stream means: the bytes that come back after seeking, writing and pushing back. */
module StreamLaws {
  import opened Bits
  import opened FlatFile
  import opened StreamSpec

  lemma {:induction false} RunLast(f: Flat, ops: seq<Op>, op: Op)
    ensures var (now, rs) := Run(f, ops);
            Run(f, ops + [op]) == (Step(now, op).0, rs + [Step(now, op).1])
  {
    assert (ops + [op])[..|ops|] == ops;
    hide Step;
  }

  lemma {:induction false} RunOne(f: Flat, a: Op)
    ensures Run(f, [a]) == (Step(f, a).0, [Step(f, a).1])
  {
    var none: seq<Op> := [];
    var results: seq<Result> := [];
    assert [a][..0] == none && Run(f, none) == (f, results);
    assert results + [Step(f, a).1] == [Step(f, a).1];
    hide Step;
  }

  lemma {:induction false} RunTwo(f: Flat, a: Op, b: Op)
    ensures var (f1, r1) := Step(f, a);
            var (f2, r2) := Step(f1, b);
            Run(f, [a, b]) == (f2, [r1, r2])
  {
    hide Step, Run;
    RunOne(f, a);
    RunLast(f, [a], b);
    Pair(a, b);
    Pair(Step(f, a).1, Step(Step(f, a).0, b).1);
  }

  lemma {:induction false} Pair<T>(a: T, b: T)
    ensures [a] + [b] == [a, b]
  {
  }

  lemma {:induction false} Triple<T>(a: T, b: T, c: T)
    ensures [a, b] + [c] == [a, b, c]
  {
  }

  lemma {:induction false} RunThree(f: Flat, a: Op, b: Op, c: Op)
    ensures var (f1, r1) := Step(f, a);
            var (f2, r2) := Step(f1, b);
            var (f3, r3) := Step(f2, c);
            Run(f, [a, b, c]) == (f3, [r1, r2, r3])
  {
    hide Step, Run;
    RunTwo(f, a, b);
    RunLast(f, [a, b], c);
    Triple(a, b, c);
    var (f1, r1) := Step(f, a);
    var (f2, r2) := Step(f1, b);
    Triple(r1, r2, Step(f2, c).1);
  }

  // ---------- seeking ----------

  /** The bytes from `p` up to `p + n`, or up to the end. */
  ghost function Slice(s: seq<Byte>, p: nat, n: nat): seq<Byte> {
    if p >= |s| then [] else if p + n >= |s| then s[p..] else s[p..p + n]
  }

  /** With nothing pushed back a read returns the bytes at the position. */
  lemma {:induction false} AheadNone(f: Flat, n: nat)
    requires f.pushback == []
    ensures Ahead(f, n) == FileRead(f.contents, f.pos, n) == Slice(f.contents, f.pos, n)
  {
    var data := FileRead(f.contents, f.pos, n);
    assert f.pushback + data == data;
  }

  /** Read from a place the stream was moved to. */
  lemma {:induction false} LandRead(f: Flat, p: nat, n: nat)
    requires f.canRead && f.pos == p && f.pushback == [] && !f.eof && p + n <= OFF_MAX
    ensures var data := Slice(f.contents, p, n);
            Step(f, Read(n)) == (f.(pos := p + |data|, eof := |data| < n), Bytes(data))
  {
    AheadNone(f, n);
    hide Ahead;
  }

  /** Set: reading starts at the offset itself. */
  lemma {:induction false} SeekSetRead(f: Flat, p: nat, n: nat)
    requires f.canRead && p + n <= OFF_MAX
    ensures Run(f, [Seek(p, Set), Read(n)]).1 == [Ok, Bytes(Slice(f.contents, p, n))]
  {
    RunTwo(f, Seek(p, Set), Read(n));
    LandRead(Step(f, Seek(p, Set)).0, p, n);
    hide ReadFlat, Run, Slice;
  }

  lemma {:induction false} SliceIs(s: seq<Byte>, p: nat, n: nat)
    requires p + n <= |s|
    ensures Slice(s, p, n) == s[p..p + n] && |Slice(s, p, n)| == n && (p + n == |s| ==> s[p..p + n] == s[p..])
  {
  }

  /** End: the last `k` bytes. */
  lemma {:induction false} SeekEndRead(f: Flat, k: nat)
    requires f.canRead && k <= |f.contents| <= OFF_MAX
    ensures Run(f, [Seek(0 - k, End), Read(k)]).1 == [Ok, Bytes(f.contents[|f.contents| - k..])]
  {
    hide ReadFlat, Run, Slice;
    RunTwo(f, Seek(0 - k, End), Read(k));
    LandRead(Step(f, Seek(0 - k, End)).0, |f.contents| - k, k);
    SliceIs(f.contents, |f.contents| - k, k);
  }

  /** Cur: what was just read is read again. */
  lemma {:induction false} ReadAgain(f: Flat, n: nat)
    requires f.canRead && !f.eof && f.pushback == [] && f.pos + n <= |f.contents| <= OFF_MAX
    ensures var data := f.contents[f.pos..f.pos + n];
            Run(f, [Read(n), Seek(0 - n, Cur), Read(n)]) == (f.(pos := f.pos + n), [Bytes(data), Ok, Bytes(data)])
  {
    hide ReadFlat, Run, Slice;
    RunThree(f, Read(n), Seek(0 - n, Cur), Read(n));
    LandRead(f, f.pos, n);
    SliceIs(f.contents, f.pos, n);
  }

  /** What was just written is read back. */
  lemma {:induction false} WriteReadBack(f: Flat, data: seq<Byte>)
    requires f.canRead && f.canWrite && f.pos + |data| <= OFF_MAX
    ensures Run(f, [Write(data), Seek(0 - |data|, Cur), Read(|data|)]).1 == [Ok, Ok, Bytes(data)]
  {
    RunThree(f, Write(data), Seek(0 - |data|, Cur), Read(|data|));
    var g := Step(Step(f, Write(data)).0, Seek(0 - |data|, Cur)).0;
    LandRead(g, f.pos, |data|);
    if data != [] {
      FileReadBack(f.contents, f.pos, data);
    }
    AheadNone(g, |data|);
    hide ReadFlat, Run, Slice, FileWrite, FileRead, Ahead;
  }

  /** A seek fails exactly if it would leave the range of an off_t, which Set does not check above; then the
      stream stands where it stood. */
  lemma {:induction false} SeekFails(f: Flat, offset: int, whence: Whence)
    ensures var start := match whence case Set => 0 case Cur => f.pos case End => |f.contents|;
            var (g, r) := Step(f, Seek(offset, whence));
            && (r == Failed <==> start + offset < 0 || (whence != Set && start + offset > OFF_MAX))
            && (r == Failed ==> g == f.(err := f.err || start + offset > OFF_MAX))
            && (r != Failed ==> r == Ok && g == f.(pos := start + offset, pushback := [], eof := false))
  {
  }

  // ---------- the end of the file ----------

  lemma {:induction false} AfterShort(f: Flat, n: nat, m: nat)
    requires f.canRead && !f.eof && f.pushback == [] && f.pos + n + m <= OFF_MAX && |Slice(f.contents, f.pos, n)| < n
    ensures var data := Slice(f.contents, f.pos, n);
            var g := f.(pos := f.pos + |data|, eof := true);
            && Step(f, Read(n)) == (g, Bytes(data)) && Step(g, Read(m)) == (g, AtEof)
            && Step(g, Seek(0, Cur)) == (g.(eof := false), Ok) && Slice(f.contents, g.pos, m) == []
  {
    LandRead(f, f.pos, n);
  }

  /** A read that comes short sets the end-of-file flag: the next one gets nothing, until the stream is moved. */
  lemma {:induction false} EofSticks(f: Flat, n: nat, m: nat)
    requires f.canRead && !f.eof && f.pushback == [] && f.pos + n + m <= OFF_MAX && |Slice(f.contents, f.pos, n)| < n
    ensures var data := Slice(f.contents, f.pos, n);
            && Run(f, [Read(n), Read(m)]).1 == [Bytes(data), AtEof]
            && Run(f, [Read(n), Seek(0, Cur), Read(m)]).1 == [Bytes(data), Ok, Bytes([])]
  {
    hide Run, Slice, Step;
    AfterShort(f, n, m);
    RunTwo(f, Read(n), Read(m));
    RunThree(f, Read(n), Seek(0, Cur), Read(m));
    LandRead(f.(pos := f.pos + |Slice(f.contents, f.pos, n)|), f.pos + |Slice(f.contents, f.pos, n)|, m);
  }

  // ---------- pushing back ----------

  /** Push the characters back, the last one first. */
  ghost function Unread(cs: seq<int>): seq<Op> {
    if cs == [] then [] else Unread(cs[1..]) + [Ungetc(cs[0])]
  }

  /** The bytes they stand for. */
  ghost function LowBytes(cs: seq<int>): (r: seq<Byte>)
    ensures |r| == |cs|
  {
    if cs == [] then [] else [LowByte(cs[0])] + LowBytes(cs[1..])
  }

  /** They can all be pushed back: there is room, and the stream is far enough from the start of the file. */
  ghost predicate CanUnread(f: Flat, cs: seq<int>) {
    |cs| <= f.pos && |cs| + |f.pushback| <= MAX_PUSHBACK && EOF !in cs
  }

  /** `g` is `f` moved back by as many bytes, with them in front of what was pushed back before. */
  ghost predicate Moved(f: Flat, g: Flat, cs: seq<int>) {
    |cs| <= f.pos && g == f.(pos := f.pos - |cs|, pushback := LowBytes(cs) + f.pushback, eof := f.eof && cs == [])
  }

  lemma {:induction false} MovedNone(f: Flat)
    ensures Moved(f, f, [])
  {
    assert LowBytes([]) + f.pushback == f.pushback;
  }

  lemma {:induction false} MovedMore(f: Flat, g: Flat, cs: seq<int>)
    requires CanUnread(f, cs) && cs != [] && Moved(f, g, cs[1..])
    ensures Moved(f, Step(g, Ungetc(cs[0])).0, cs)
  {
    var b, rest := LowByte(cs[0]), LowBytes(cs[1..]);
    assert LowBytes(cs) == [b] + rest && cs[0] in cs;
    assert [b] + (rest + f.pushback) == [b] + rest + f.pushback;
    hide LowByte, LowBytes;
  }

  lemma {:induction false} UnreadRun(f: Flat, cs: seq<int>)
    requires CanUnread(f, cs)
    ensures Moved(f, Run(f, Unread(cs)).0, cs) && |Run(f, Unread(cs)).1| == |cs|
  {
    if cs == [] {
      MovedNone(f);
    } else {
      assert Unread(cs) == Unread(cs[1..]) + [Ungetc(cs[0])] && CanUnread(f, cs[1..]);
      hide *;
      UnreadRun(f, cs[1..]);
      RunLast(f, Unread(cs[1..]), Ungetc(cs[0]));
      MovedMore(f, Run(f, Unread(cs[1..])).0, cs);
    }
  }

  /** What was pushed back is what is read next, and then the stream is where it was. */
  lemma {:induction false} UnreadRead(f: Flat, cs: seq<int>)
    requires CanUnread(f, cs) && f.canRead && !f.eof && f.pos <= OFF_MAX
    ensures var (g, rs) := Run(f, Unread(cs) + [Read(|cs|)]);
            g == f && |rs| == |cs| + 1 && rs[|cs|] == Bytes(LowBytes(cs))
  {
    var data := LowBytes(cs);
    UnreadRun(f, cs);
    RunLast(f, Unread(cs), Read(|cs|));
    assert (data + f.pushback)[..|data|] == data && (data + f.pushback)[|data|..] == f.pushback;
    hide Run, Unread, LowBytes;
  }

  /** A seek forgets what was pushed back: the file's own bytes are read from the place moved back to. */
  lemma {:induction false} SeekForgets(f: Flat, cs: seq<int>, n: nat)
    requires CanUnread(f, cs) && f.canRead && f.pos <= OFF_MAX && f.pos - |cs| + n <= OFF_MAX
    ensures var (g, rs) := Run(f, Unread(cs) + [Seek(0, Cur)] + [Read(n)]);
            |rs| == |cs| + 2 && rs[|cs| + 1] == Bytes(Slice(f.contents, f.pos - |cs|, n))
  {
    UnreadRun(f, cs);
    RunLast(f, Unread(cs), Seek(0, Cur));
    RunLast(f, Unread(cs) + [Seek(0, Cur)], Read(n));
    var g := Run(f, Unread(cs)).0;
    LandRead(Step(g, Seek(0, Cur)).0, f.pos - |cs|, n);
    hide Run, Unread, Slice, ReadFlat, LowBytes;
  }

  /** One character: it is reported as an unsigned char, and it is the next byte. */
  lemma {:induction false} UngetcRead(f: Flat, c: int)
    requires CanUnread(f, [c]) && f.canRead && f.pos <= OFF_MAX
    ensures Run(f, [Ungetc(c), Read(1)]) == (f.(eof := false), [Pushed(c % 256), Bytes([LowByte(c)])])
  {
    assert c in [c];
    RunTwo(f, Ungetc(c), Read(1));
    assert ([LowByte(c)] + f.pushback)[..1] == [LowByte(c)] && ([LowByte(c)] + f.pushback)[1..] == f.pushback;
    hide Run, LowByte;
  }

  lemma {:induction false} PushedLeft(bytes: seq<Byte>, more: seq<Byte>, m: nat, n: nat)
    requires m + n <= |bytes|
    ensures (if m >= |bytes + more| then [] else (bytes + more)[m..])[..n] == bytes[m..m + n]
  {
  }

  lemma {:induction false} LeftRead(f: Flat, bytes: seq<Byte>, more: seq<Byte>, data: seq<Byte>, n: nat)
    requires f.pushback == bytes + more && f.canRead && f.canWrite && !f.eof && |data| + n <= |bytes|
    requires f.pos + |bytes| <= OFF_MAX
    ensures var g := Step(f, Write(data)).0;
            && g.contents == FileWrite(f.contents, f.pos, data)
            && Step(g, Read(n)).1 == Bytes(bytes[|data|..|data| + n]) && Step(g, Read(n)).0.contents == g.contents
  {
    PushedLeft(bytes, more, |data|, n);
    hide FileWrite, FileRead;
  }

  /** A write that covers only some of the bytes pushed back leaves the others to be read. */
  lemma {:induction false} WriteLeaves(f: Flat, cs: seq<int>, data: seq<Byte>, n: nat)
    requires CanUnread(f, cs) && f.canRead && f.canWrite && !f.eof && f.pos <= OFF_MAX && |data| + n <= |cs|
    ensures var (g, rs) := Run(f, Unread(cs) + [Write(data)] + [Read(n)]);
            && g.contents == FileWrite(f.contents, f.pos - |cs|, data)
            && |rs| == |cs| + 2 && rs[|cs| + 1] == Bytes(LowBytes(cs)[|data|..|data| + n])
  {
    hide Run, Unread, LowBytes, FileWrite, Step;
    UnreadRun(f, cs);
    RunLast(f, Unread(cs), Write(data));
    RunLast(f, Unread(cs) + [Write(data)], Read(n));
    LeftRead(Run(f, Unread(cs)).0, LowBytes(cs), f.pushback, data, n);
  }

  /** One that covers them all leaves none: what follows it in the file is read. */
  lemma {:induction false} WriteCovers(f: Flat, cs: seq<int>, data: seq<Byte>, n: nat)
    requires CanUnread(f, cs) && f.canRead && f.canWrite && !f.eof && f.pushback == [] && |cs| <= |data|
    requires f.pos - |cs| + |data| + n <= OFF_MAX
    ensures var (g, rs) := Run(f, Unread(cs) + [Write(data)] + [Read(n)]);
            && g.contents == FileWrite(f.contents, f.pos - |cs|, data)
            && |rs| == |cs| + 2 && rs[|cs| + 1] == Bytes(Slice(g.contents, f.pos - |cs| + |data|, n))
  {
    UnreadRun(f, cs);
    RunLast(f, Unread(cs), Write(data));
    RunLast(f, Unread(cs) + [Write(data)], Read(n));
    var g := Step(Run(f, Unread(cs)).0, Write(data)).0;
    LandRead(g, f.pos - |cs| + |data|, n);
    hide Run, Unread, LowBytes, FileWrite, Slice, ReadFlat;
  }

  // ---------- refusals ----------

  /** What is refused, exactly, and that it leaves contents and position alone: reading and writing without the
      right to or beyond the range of an off_t, reading at the end of the file, pushing back at the start of the file
      or with the push-back full. */
  lemma {:induction false} Refusals(f: Flat, n: nat, data: seq<Byte>, c: int)
    ensures var (g, r) := Step(f, Read(n));
            && (r.Bytes? <==> f.canRead && !f.eof && f.pos + n <= OFF_MAX)
            && (!r.Bytes? ==> r == if f.canRead && f.eof then AtEof else Failed)
            && (!r.Bytes? ==> g == f.(err := f.err || r == Failed))
    ensures var (g, r) := Step(f, Write(data));
            && r == (if f.canWrite && f.pos + |data| <= OFF_MAX then Ok else Failed)
            && (r == Failed ==> g.err && g.contents == f.contents && g.pos == f.pos && g.eof == f.eof)
    ensures var (g, r) := Step(f, Ungetc(c));
            && (r == Pushed(EOF) <==> c == EOF || f.pos == 0 || |f.pushback| >= MAX_PUSHBACK)
            && (r == Pushed(EOF) ==> g == f)
  {
    hide FileWrite, Ahead;
  }

  // ---------- in the order the C standard asks for ----------

  lemma {:induction false} IsoThree(f: Flat, a: Op, b: Op, c: Op)
    requires (a.Write? || a.Seek? || a.Flush?) && (b.Seek? || b.Flush?)
    ensures Conforms(f, [a, b, c])
  {
    assert [a, b, c][..2] == [a, b] && [a, b][..1] == [a] && [a][..0] == [];
    assert IsoOrder([a]) && IsoOrder([a, b]) && !Outputting([a, b]);
    IsoConforms(f, [a, b, c]);
    hide Conforms;
  }
}
