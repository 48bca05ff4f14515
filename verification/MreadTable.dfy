/** client_read.c: the table of active multi-read requests. Ids come from a 32-bit counter and
    an id is kept at its value modulo the capacity of the table. */
module MreadTable {
  import opened Arith
  import opened Wrappers
  import opened ArrayList

  /** Number of values of an unsigned int. */
  const IDS: nat := 0x1_0000_0000

  /** The table on values: the id at each index, and the id generator. */
  datatype Table = Table(slots: seq<Option<nat>>, gen: nat)

  ghost predicate Shaped(t: Table) {
    0 < |t.slots| < IDS && t.gen < IDS
  }

  /** Every active id sits at its value modulo the capacity. */
  ghost predicate Placed(t: Table)
    requires Shaped(t)
  {
    forall i :: 0 <= i < |t.slots| && t.slots[i].Some? ==> t.slots[i].value < IDS && t.slots[i].value % |t.slots| == i
  }

  ghost predicate Active(t: Table, id: nat) {
    exists i :: 0 <= i < |t.slots| && t.slots[i] == Some(id)
  }

  /** The last entry is in use, so that the size of the array list is its capacity. */
  ghost predicate Full(t: Table)
    requires Shaped(t)
  {
    t.slots[|t.slots| - 1].Some?
  }

  function Next(gen: nat): nat {
    (gen + 1) % IDS
  }

  // ---------- how long the search for an id takes ----------

  /** Ids from `gen` on until one falls on the last index. */
  function ToLast(gen: nat, cap: nat): nat
    requires cap > 0 && gen < IDS
  {
    if gen + (cap - 1 - gen % cap) < IDS then cap - 1 - gen % cap else IDS - gen + cap - 1
  }

  lemma {:induction false} ToLastDrops(gen: nat, cap: nat)
    requires 0 < cap < IDS && gen < IDS && gen % cap != cap - 1
    ensures ToLast(Next(gen), cap) < ToLast(gen, cap)
  {
    ModAdd(gen, 1, cap);
    if gen + 1 == IDS {
      DivUnique(0, cap, 0, 0);
    }
  }

  /** The id the search arrives at, and the number of ids tried. */
  ghost function Probe(slots: seq<Option<nat>>, gen: nat): (r: (nat, nat))
    requires Shaped(Table(slots, gen)) && slots[|slots| - 1].None?
    ensures r.0 < IDS && slots[r.0 % |slots|].None? && 0 < r.1 <= ToLast(gen, |slots|) + 1
    decreases ToLast(gen, |slots|)
  {
    if slots[gen % |slots|].None? then (gen, 1)
    else
      ToLastDrops(gen, |slots|);
      var (id, n) := Probe(slots, Next(gen));
      (id, n + 1)
  }

  // ---------- operations ----------

  /** client_create_mread_request; a refused creation changes nothing. */
  ghost function Created(t: Table): (Option<nat>, Table)
    requires Shaped(t)
  {
    if Full(t) then (None, t)
    else
      var id := Probe(t.slots, t.gen).0;
      (Some(id), Table(t.slots[id % |t.slots| := Some(id)], Next(id)))
  }

  /** client_remove_mread_request: clears the entry at the id's index whatever it holds. */
  ghost function Removed(t: Table, id: nat): Table
    requires Shaped(t)
  {
    t.(slots := t.slots[id % |t.slots| := None])
  }

  /** client_get_mread_status. */
  ghost function Found(t: Table, id: nat): Option<nat>
    requires Shaped(t)
  {
    var i := id % |t.slots|;
    if t.slots[i].Some? && t.slots[i].value == id then Some(id) else None
  }

  /** Ids in a table are distinct. */
  lemma {:induction false} DistinctIds(t: Table, i: nat, j: nat)
    requires Shaped(t) && Placed(t) && i < j < |t.slots| && t.slots[i].Some? && t.slots[j].Some?
    ensures t.slots[i] != t.slots[j]
  {
    assert t.slots[i].value % |t.slots| == i && t.slots[j].value % |t.slots| == j;
  }

  /** A lookup finds exactly the active ids. */
  lemma {:induction false} LookupIff(t: Table, id: nat)
    requires Shaped(t) && Placed(t)
    ensures Found(t, id) == if Active(t, id) then Some(id) else None
  {
    if Active(t, id) {
      var i :| 0 <= i < |t.slots| && t.slots[i] == Some(id);
      assert id % |t.slots| == i;
    }
  }

  /** Creation hands out an id that was not active and displaces no active one. */
  lemma {:induction false} CreateKeeps(t: Table)
    requires Shaped(t) && Placed(t)
    ensures var (r, t') := Created(t);
            && Shaped(t') && Placed(t') && |t'.slots| == |t.slots|
            && (r.None? <==> Full(t)) && (r.None? ==> t' == t)
            && (r.Some? ==> !Active(t, r.value) && forall id :: Active(t', id) <==> Active(t, id) || id == r.value)
  {
    if !Full(t) {
      var (r, t') := Created(t);
      var id, k := r.value, r.value % |t.slots|;
      assert t.slots[k].None? && t'.slots[k] == Some(id);
      if Active(t, id) { LookupIff(t, id); assert false; }
      forall x ensures Active(t', x) <==> Active(t, x) || x == id {
        if Active(t, x) {
          var i :| 0 <= i < |t.slots| && t.slots[i] == Some(x);
          assert t'.slots[i] == Some(x);
        }
        if Active(t', x) && x != id {
          var i :| 0 <= i < |t'.slots| && t'.slots[i] == Some(x);
          assert t.slots[i] == Some(x);
        }
      }
    }
  }

  /** Removing an active id removes that one and no other. */
  lemma {:induction false} RemoveKeeps(t: Table, id: nat)
    requires Shaped(t) && Placed(t)
    ensures Shaped(Removed(t, id)) && Placed(Removed(t, id)) && !Active(Removed(t, id), id)
    ensures Active(t, id) ==> forall x :: Active(Removed(t, id), x) <==> Active(t, x) && x != id
  {
    var t', k := Removed(t, id), id % |t.slots|;
    LookupIff(t', id);
    if Active(t, id) {
      LookupIff(t, id);
      forall x ensures Active(t', x) <==> Active(t, x) && x != id {
        if Active(t, x) && x != id {
          var i :| 0 <= i < |t.slots| && t.slots[i] == Some(x);
          assert t'.slots[i] == Some(x);
        }
        if Active(t', x) {
          var i :| 0 <= i < |t'.slots| && t'.slots[i] == Some(x);
          assert t.slots[i] == Some(x);
        }
      }
    }
  }

  // ---------- runs ----------

  datatype Op = DoCreate | DoRemove(id: nat)

  datatype Trace = Start | Then(before: Trace, op: Op)

  ghost function Step(t: Table, op: Op): Table
    requires Shaped(t)
  {
    match op
    case DoCreate => Created(t).1
    case DoRemove(id) => Removed(t, id)
  }

  lemma {:induction false} StepPlaced(t: Table, op: Op)
    requires Shaped(t) && Placed(t)
    ensures Shaped(Step(t, op)) && Placed(Step(t, op)) && |Step(t, op).slots| == |t.slots|
  {
    match op
    case DoCreate => CreateKeeps(t);
    case DoRemove(id) => RemoveKeeps(t, id);
  }

  function Empty(cap: nat): Table {
    Table(seq(cap, _ => None), 0)
  }

  /** Every reachable table is well placed; so ids are distinct and lookups exact in all of them. */
  ghost function After(cap: nat, run: Trace): (t: Table)
    requires 0 < cap < IDS
    ensures Shaped(t) && Placed(t) && |t.slots| == cap
  {
    match run
    case Start => Empty(cap)
    case Then(before, op) =>
      var t := After(cap, before);
      StepPlaced(t, op);
      Step(t, op)
  }

  // ---------- the longest search ----------

  lemma {:induction false} ToLastBound(gen: nat, cap: nat)
    requires 0 < cap < IDS && gen < IDS
    ensures ToLast(gen, cap) < cap + IDS % cap
  {
    var q := gen / cap;
    assert gen == q * cap + gen % cap;
    if gen + (cap - 1 - gen % cap) >= IDS {
      assert (q + 1) * cap == q * cap + cap;
      DivUnique(IDS, cap, q, IDS - q * cap);
    }
  }

  /** Only the last index is free. */
  ghost predicate OnlyLastFree(slots: seq<Option<nat>>) {
    slots != [] && slots[|slots| - 1].None? && forall i :: 0 <= i < |slots| - 1 ==> slots[i].Some?
  }

  lemma {:induction false} ProbeToLast(slots: seq<Option<nat>>, gen: nat)
    requires Shaped(Table(slots, gen)) && OnlyLastFree(slots)
    ensures Probe(slots, gen).1 == ToLast(gen, |slots|) + 1
    decreases ToLast(gen, |slots|)
  {
    var cap := |slots|;
    if gen % cap != cap - 1 {
      ToLastDrops(gen, cap);
      ToLastByOne(gen, cap);
      ProbeToLast(slots, Next(gen));
    }
  }

  lemma {:induction false} ToLastByOne(gen: nat, cap: nat)
    requires 0 < cap < IDS && gen < IDS && gen % cap != cap - 1
    ensures ToLast(gen, cap) == ToLast(Next(gen), cap) + 1
  {
    ModAdd(gen, 1, cap);
    if gen + 1 == IDS {
      DivUnique(0, cap, 0, 0);
    }
  }

  lemma {:induction false} CreateFree(t: Table)
    requires Shaped(t) && !Full(t) && t.slots[t.gen % |t.slots|].None?
    ensures Created(t) == (Some(t.gen), Table(t.slots[t.gen % |t.slots| := Some(t.gen)], Next(t.gen)))
  {
  }

  /** `n` requests one after the other. */
  lemma {:induction false} Churn(cap: nat, n: nat) returns (run: Trace)
    requires 0 < cap < IDS && n < IDS
    ensures After(cap, run) == Table(Empty(cap).slots, n)
  {
    if n == 0 {
      run := Start;
    } else {
      var before := Churn(cap, n - 1);
      var t := After(cap, before);
      CreateFree(t);
      run := Then(Then(before, DoCreate), DoRemove(n - 1));
      assert After(cap, Then(before, DoCreate)) == Created(t).1;
      assert t.slots[(n - 1) % cap := Some(n - 1)][(n - 1) % cap := None] == t.slots;
    }
  }

  /** The first `k` entries hold the ids from `n` on. */
  function Row(cap: nat, n: nat, k: nat): seq<Option<nat>> {
    seq(cap, i requires 0 <= i < cap => if i < k then Some(n + i) else None)
  }

  lemma {:induction false} RowStep(cap: nat, n: nat, k: nat)
    requires 0 < cap < IDS && n % cap == 0 && k + 1 < cap && n + k + 1 < IDS
    ensures Created(Table(Row(cap, n, k), n + k)).1 == Table(Row(cap, n, k + 1), n + k + 1)
  {
    InRow(cap, n, k);
    CreateFree(Table(Row(cap, n, k), n + k));
    assert Row(cap, n, k)[k := Some(n + k)] == Row(cap, n, k + 1);
  }

  lemma {:induction false} InRow(cap: nat, n: nat, k: nat)
    requires 0 < cap && n % cap == 0 && k < cap
    ensures (n + k) % cap == k
  {
    var q := n / cap;
    assert n == q * cap;
    DivUnique(n + k, cap, q, k);
  }

  /** Taking the last entry and giving it back only moves the generator. */
  lemma {:induction false} RowTurn(cap: nat, n: nat, k: nat)
    requires 0 < cap < IDS && n % cap == 0 && k + 1 == cap && n + k < IDS
    ensures Removed(Created(Table(Row(cap, n, k), n + k)).1, n + k) == Table(Row(cap, n, k), Next(n + k))
  {
    InRow(cap, n, k);
    CreateFree(Table(Row(cap, n, k), n + k));
    assert Row(cap, n, k)[k := Some(n + k)][k := None] == Row(cap, n, k);
  }

  lemma {:induction false} RowEmpty(cap: nat, n: nat, k: nat)
    requires k == 0
    ensures Row(cap, n, k) == Empty(cap).slots
  {
  }

  lemma {:induction false} Fill(cap: nat, n: nat, k: nat) returns (run: Trace)
    requires 0 < cap < IDS && n % cap == 0 && k < cap && n + k < IDS
    ensures After(cap, run) == Table(Row(cap, n, k), n + k)
  {
    hide Created, Row, Placed, Probe;
    if k == 0 {
      run := Churn(cap, n);
      RowEmpty(cap, n, k);
    } else {
      var before := Fill(cap, n, k - 1);
      RowStep(cap, n, k - 1);
      run := Then(before, DoCreate);
    }
  }

  lemma {:induction false} LongRun(cap: nat) returns (run: Trace)
    requires 0 < cap < IDS
    ensures var t := After(cap, run); !Full(t) && Probe(t.slots, t.gen).1 == cap + IDS % cap
  {
    hide Created, Probe, ToLast, Placed;
    var rho, q := IDS % cap, IDS / cap;
    var n := LastWhole(cap, rho, q);
    var before := Fill(cap, n, cap - 1);
    RowTurn(cap, n, cap - 1);
    var mid := Then(before, DoCreate);
    run := Then(mid, DoRemove(n + cap - 1));
    var t := After(cap, run);
    assert t == Table(Row(cap, n, cap - 1), Next(n + cap - 1)) by {
      hide Row;
      assert After(cap, mid) == Created(After(cap, before)).1;
    }
    assert OnlyLastFree(t.slots);
    ProbeToLast(t.slots, t.gen);
    LongestStart(cap, rho, q, t.gen);
  }

  lemma {:induction false} LastWhole(cap: nat, rho: nat, q: nat) returns (n: nat)
    requires 0 < cap < IDS && rho == IDS % cap && q == IDS / cap
    ensures n % cap == 0 && n + cap == IDS - rho && IDS == q * cap + rho
  {
    assert IDS == q * cap + rho;
    assert q >= 1;
    n := (q - 1) * cap;
    assert n + cap == q * cap;
    DivUnique(n, cap, q - 1, 0);
  }

  lemma {:induction false} LongestStart(cap: nat, rho: nat, q: nat, gen: nat)
    requires 0 < cap < IDS && IDS == q * cap + rho && rho < cap && gen == (IDS - rho) % IDS
    ensures ToLast(gen, cap) + 1 == cap + rho
  {
    if rho == 0 {
      DivUnique(0, cap, 0, 0);
    } else {
      DivUnique(IDS - rho, cap, q, 0);
    }
  }

  /** In reachable tables a creation tries at most `cap + 2^32 % cap` ids, and some table needs that many. */
  lemma {:induction false} SearchBound(cap: nat)
    requires 0 < cap < IDS
    ensures forall run :: !Full(After(cap, run)) ==>
              Probe(After(cap, run).slots, After(cap, run).gen).1 <= cap + IDS % cap
    ensures exists run ::
              && !Full(After(cap, run))
              && Probe(After(cap, run).slots, After(cap, run).gen).1 == cap + IDS % cap
  {
    forall run | !Full(After(cap, run))
      ensures Probe(After(cap, run).slots, After(cap, run).gen).1 <= cap + IDS % cap
    {
      ToLastBound(After(cap, run).gen, cap);
    }
    var run := LongRun(cap);
  }

  /** One try per index is always enough exactly if the capacity divides the range of ids. */
  lemma {:induction false} CapacityTriesIff(cap: nat)
    requires 0 < cap < IDS
    ensures (forall run :: !Full(After(cap, run)) ==> Probe(After(cap, run).slots, After(cap, run).gen).1 <= cap)
            <==> IDS % cap == 0
  {
    SearchBound(cap);
  }

  // ---------- the table as an object ----------

  class ActiveMreads {
    const list: ArrayList<nat>
    var gen: nat

    ghost function Value(): Table
      reads this, list, list.elems
    {
      Table(list.elems[..], gen)
    }

    ghost predicate Valid()
      reads this, list, list.elems
    {
      list.Valid() && Shaped(Value()) && Placed(Value())
    }

    constructor (capacity: nat)
      requires 0 < capacity < IDS
      ensures Valid() && fresh(list) && fresh(list.elems) && Value() == Empty(capacity)
    {
      list := new ArrayList<nat>(capacity);
      gen := 0;
      new;
      assert list.elems[..] == Empty(capacity).slots;
    }

    /** The table is refused by its size, which is the highest occupied index plus one. */
    method Create() returns (r: Option<nat>)
      requires Valid()
      modifies this, list, list.elems
      ensures Valid() && list.elems == old(list.elems)
      ensures (r, Value()) == Created(old(Value()))
    {
      ghost var t := Value();
      CreateKeeps(t);
      assert Full(t) <==> list.size == list.elems.Length;
      hide Placed, Probe, ToLast, IsSize, Active;
      if list.size == list.elems.Length {
        return None;
      }
      var id := FreeId();
      Place(id % list.elems.Length, id);
      r := Some(id);
    }

    method Place(index: nat, id: nat)
      requires list.Valid() && index < list.elems.Length
      modifies list, list.elems
      ensures list.Valid() && list.elems == old(list.elems) && list.elems[..] == old(list.elems[..])[index := Some(id)]
    {
      ghost var was := list.elems[..];
      list.Insert(index, id);
      assert was + seq(0, _ => None) == was;
    }

    /** Take ids from the generator until one falls on a free index. */
    method FreeId() returns (id: nat)
      requires Valid() && !Full(Value())
      modifies this`gen
      ensures id == Probe(list.elems[..], old(gen)).0 && gen == Next(id)
    {
      var cap := list.elems.Length;
      id := gen;
      gen := Next(gen);
      var existing := list.Get(id % cap);
      while existing.Some?
        invariant list.Valid() && Shaped(Value()) && !Full(Value()) && cap == list.elems.Length
        invariant id < IDS && gen == Next(id) && existing == list.elems[id % cap]
        invariant Probe(list.elems[..], old(gen)).0 == Probe(list.elems[..], id).0
        decreases ToLast(id, cap)
      {
        assert list.elems[..][id % cap].Some?;
        ToLastDrops(id, cap);
        id := gen;
        gen := Next(gen);
        existing := list.Get(id % cap);
      }
    }

    method Lookup(id: nat) returns (r: Option<nat>)
      requires Valid()
      ensures r == if Active(Value(), id) then Some(id) else None
    {
      LookupIff(Value(), id);
      r := list.Get(id % list.elems.Length);
      if r.Some? && r.value != id {
        r := None;
      }
    }

    /** Reports success exactly for an active id. */
    method Remove(id: nat) returns (ok: bool)
      requires Valid()
      modifies list, list.elems
      ensures Valid() && list.elems == old(list.elems) && gen == old(gen)
      ensures ok <==> Active(old(Value()), id)
      ensures Value() == Removed(old(Value()), id)
    {
      ghost var t := Value();
      LookupIff(t, id);
      RemoveKeeps(t, id);
      var item := list.Remove(id % list.elems.Length);
      ok := item == Some(id);
    }
  }
}
