/** The bytes of the write log: shared memory followed by the spill file. Reading and writing a log
    range splits it between the tiers; seen from outside the log is one array. */
module LogStore {
  import opened Bits
  import opened LogSpec

  ghost function Splice(s: seq<Byte>, offset: nat, data: seq<Byte>): seq<Byte>
    requires offset + |data| <= |s|
  {
    s[..offset] + data + s[offset + |data|..]
  }

  class LogStore {
    const mem: array<Byte>
    const file: array<Byte>

    ghost predicate Valid() {
      mem != file
    }

    ghost function Flat(): seq<Byte>
      reads mem, file
    {
      mem[..] + file[..]
    }

    constructor (memBytes: nat, fileBytes: nat)
      ensures Valid() && fresh(mem) && fresh(file) && mem.Length == memBytes && file.Length == fileBytes
    {
      mem := new Byte[memBytes](_ => 0);
      file := new Byte[fileBytes](_ => 0);
    }

    /** unifyfs_logio_write with full writes: replaces exactly the given range of the log. */
    method Write(offset: nat, data: seq<Byte>)
      requires Valid() && offset + |data| <= mem.Length + file.Length
      modifies mem, file
      ensures Flat() == Splice(old(Flat()), offset, data)
    {
      var (inMem, inSpill, spillOff) := LogSizes(offset, |data|, mem.Length);
      if inMem > 0 {
        forall i | 0 <= i < inMem { mem[offset + i] := data[i]; }
      }
      if inSpill > 0 {
        forall i | 0 <= i < inSpill { file[spillOff + i] := data[inMem + i]; }
      }
      forall p | 0 <= p < mem.Length + file.Length ensures Flat()[p] == Splice(old(Flat()), offset, data)[p] {
        if p < mem.Length {
          assert Flat()[p] == mem[p] && old(Flat())[p] == old(mem[p]);
        } else {
          assert Flat()[p] == file[p - mem.Length] && old(Flat())[p] == old(file[p - mem.Length]);
        }
      }
    }

    /** unifyfs_logio_read with full reads. */
    method Read(offset: nat, nbytes: nat) returns (data: seq<Byte>)
      requires offset + nbytes <= mem.Length + file.Length
      ensures data == Flat()[offset..offset + nbytes]
    {
      var (inMem, inSpill, spillOff) := LogSizes(offset, nbytes, mem.Length);
      data := [];
      if inMem > 0 {
        data := mem[offset..offset + inMem];
      }
      if inSpill > 0 {
        data := data + file[spillOff..spillOff + inSpill];
      }
      assert forall i :: 0 <= i < nbytes ==> data[i] == Flat()[offset + i];
    }
  }
}
