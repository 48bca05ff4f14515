/** arraylist.c: a growable array of pointers whose size is the highest occupied index plus one. */
module ArrayList {
  import opened Wrappers

  const ARRAYLIST_CAPACITY: nat := 1024

  /** `n` is the highest occupied index of `s` plus one, or 0 if `s` is empty. */
  ghost predicate IsSize<T>(s: seq<Option<T>>, n: nat) {
    n <= |s| && (n > 0 ==> s[n - 1].Some?) && forall i :: n <= i < |s| ==> s[i].None?
  }

  class ArrayList<T> {
    var elems: array<Option<T>>
    var size: nat

    ghost predicate Valid()
      reads this, elems
    {
      elems.Length > 0 && IsSize(elems[..], size)
    }

    constructor (capacity: nat)
      ensures Valid() && fresh(elems) && elems.Length == if capacity == 0 then ARRAYLIST_CAPACITY else capacity
      ensures forall i :: 0 <= i < elems.Length ==> elems[i] == None
    {
      elems := new Option<T>[if capacity == 0 then ARRAYLIST_CAPACITY else capacity](_ => None);
      size := 0;
    }

    /** Any position may be asked for; nothing is stored at or above the size. */
    method Get(pos: nat) returns (r: Option<T>)
      requires Valid()
      ensures r == if pos < elems.Length then elems[pos] else None
    {
      if pos >= size {
        if pos < elems.Length { assert elems[..][pos].None?; }
        return None;
      }
      return elems[pos];
    }

    /** Clears one entry; the size shrinks past all empty entries before it. */
    method Remove(pos: nat) returns (r: Option<T>)
      requires Valid()
      modifies this`size, elems
      ensures Valid()
      ensures r == if pos < elems.Length then old(elems[pos]) else None
      ensures elems[..] == if pos < elems.Length then old(elems[..])[pos := None] else old(elems[..])
    {
      r := Get(pos);
      if r.Some? {
        elems[pos] := None;
        if pos + 1 == size {
          size := size - 1;
          var i := pos;
          while i > 0
            invariant i == size <= pos
            invariant forall k :: i <= k < elems.Length ==> elems[k].None?
            invariant elems[..] == old(elems[..])[pos := None]
          {
            i := i - 1;
            if elems[i].None? {
              size := size - 1;
            } else {
              break;
            }
          }
        }
      }
    }

    /** Stores an entry, growing the array to twice the position if needed. */
    method Insert(pos: nat, elem: T)
      requires Valid()
      modifies this, elems
      ensures Valid() && if pos < old(elems.Length) then elems == old(elems) else fresh(elems)
      ensures elems.Length == if pos < old(elems.Length) then old(elems.Length) else 2 * pos
      ensures elems[..] == (old(elems[..]) + seq(elems.Length - old(elems.Length), _ => None))[pos := Some(elem)]
    {
      if pos >= elems.Length {
        var bigger := new Option<T>[2 * pos](_ => None);
        forall i | 0 <= i < elems.Length { bigger[i] := elems[i]; }
        assert bigger[..] == elems[..] + seq(bigger.Length - elems.Length, _ => None);
        elems := bigger;
      }
      ghost var before := elems[..];
      elems[pos] := Some(elem);
      assert elems[..] == before[pos := Some(elem)];
      if pos + 1 > size {
        size := pos + 1;
      }
    }
  }
}
