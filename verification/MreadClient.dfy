/** The message handlers behind the table of active multi-reads: messages for any number of multi-reads, in
    any order, reach each multi-read as if it were alone; then its requests are patched up. */
module MreadClient {
  import opened Wrappers
  import opened LocalRead
  import opened Mread
  import M = MreadSpec
  import T = MreadTable

  /** A message from the server: the multi-read it is for, and what it says. */
  datatype Msg = Msg(id: nat, op: M.Op)

  // ---------- messages on values ----------

  /** The messages for one multi-read, in order. */
  ghost function TraceFor(msgs: seq<Msg>, id: nat): M.Trace {
    if msgs == [] then M.Start
    else
      var last := msgs[|msgs| - 1];
      var before := TraceFor(msgs[..|msgs| - 1], id);
      if last.id == id then M.Then(before, last.op) else before
  }

  /** Each multi-read after its own messages. */
  ghost function ValuesAfter(values: map<nat, M.Mread>, msgs: seq<Msg>): map<nat, M.Mread> {
    map id | id in values :: M.After(values[id], TraceFor(msgs, id))
  }

  lemma {:induction false} AfterNone(values: map<nat, M.Mread>, msgs: seq<Msg>)
    requires msgs == []
    ensures ValuesAfter(values, msgs) == values
  {
  }

  lemma {:induction false} AfterNext(values: map<nat, M.Mread>, msgs: seq<Msg>, n: nat)
    requires n < |msgs|
    ensures var now, msg := ValuesAfter(values, msgs[..n]), msgs[n];
            ValuesAfter(values, msgs[..n + 1])
            == if msg.id in values then now[msg.id := M.Step(now[msg.id], msg.op)] else now
  {
    hide M.Step;
    assert msgs[..n + 1][..n] == msgs[..n];
  }

  /** Each data message starts inside the request it is for. */
  ghost predicate InRange(values: map<nat, M.Mread>, msg: Msg) {
    msg.op.DoData? && msg.id in values ==>
      msg.op.i < |values[msg.id].reqs| && msg.op.at <= values[msg.id].reqs[msg.op.i].length
  }

  lemma {:induction false} RangeOf(values: map<nat, M.Mread>, msg: Msg)
    requires InRange(values, msg) && msg.id in values
    ensures msg.op.DoData? ==> msg.op.i < |values[msg.id].reqs| && msg.op.at <= values[msg.id].reqs[msg.op.i].length
  {
  }

  lemma {:induction false} StepLengths(m: M.Mread, op: M.Op)
    ensures |M.Step(m, op).reqs| == |m.reqs|
    ensures forall i :: 0 <= i < |m.reqs| ==> M.Step(m, op).reqs[i].length == m.reqs[i].length
  {
  }

  lemma {:induction false} AfterLengths(m: M.Mread, run: M.Trace)
    ensures |M.After(m, run).reqs| == |m.reqs|
    ensures forall i :: 0 <= i < |m.reqs| ==> M.After(m, run).reqs[i].length == m.reqs[i].length
  {
    match run
    case Start =>
    case Then(before, op) =>
      AfterLengths(m, before);
      StepLengths(M.After(m, before), op);
  }

  lemma {:induction false} StillInRange(values: map<nat, M.Mread>, msgs: seq<Msg>, msg: Msg)
    requires InRange(values, msg)
    ensures InRange(ValuesAfter(values, msgs), msg)
  {
    if msg.id in values {
      AfterLengths(values[msg.id], TraceFor(msgs, msg.id));
    }
  }

  // ---------- the objects ----------

  /** The objects of one multi-read. */
  ghost function Repr(st: MreadStatus): set<object> {
    {st} + Records(st.reqs) + Buffers(st.reqs)
  }

  /** The objects of each multi-read. */
  ghost function Reprs(sts: map<nat, MreadStatus>): map<nat, set<object>> {
    map id | id in sts :: Repr(sts[id])
  }

  ghost function AllOf(reprs: map<nat, set<object>>): set<object> {
    set id, o | id in reprs && o in reprs[id] :: o
  }

  /** No two multi-reads share a record or a buffer. */
  ghost predicate Apart(reprs: map<nat, set<object>>) {
    forall a, b :: a in reprs && b in reprs && a != b ==> reprs[a] !! reprs[b]
  }

  ghost predicate StatusIs(st: MreadStatus, m: M.Mread)
    reads Repr(st)
  {
    st.Is(m)
  }

  /** A multi-read all of whose objects are among those given. */
  ghost predicate Within(repr: set<object>, st: MreadStatus, m: M.Mread)
    reads repr
  {
    Repr(st) <= repr && StatusIs(st, m)
  }

  ghost predicate Are(sts: map<nat, MreadStatus>, reprs: map<nat, set<object>>, values: map<nat, M.Mread>)
    reads AllOf(reprs)
  {
    && sts.Keys == reprs.Keys == values.Keys
    && forall id :: id in sts ==> reprs[id] <= AllOf(reprs) && Within(reprs[id], sts[id], values[id])
  }

  /** A message for a multi-read that is known. */
  method DeliverTo(st: MreadStatus, op: M.Op, ghost m: M.Mread) returns (ret: int)
    requires StatusIs(st, m) && (op.DoData? ==> op.i < |m.reqs| && op.at <= m.reqs[op.i].length)
    modifies Repr(st)
    ensures StatusIs(st, M.Step(m, op))
    ensures ret == match op
                   case DoData(i, at, data) => if |data| > m.reqs[i].length - at then M.EINVAL else M.SUCCESS
                   case DoComplete(i, _) => if i < |m.reqs| then M.SUCCESS else M.EINVAL
  {
    hide M.Step;
    match op
    case DoData(i, at, data) =>
      assert ReqOf(st.reqs[i]) == m.reqs[i];
      ret := st.DataRpc(i, at, data, m);
    case DoComplete(i, error) => ret := st.CompleteRpc(i, error, m);
  }

  /** What happens to one multi-read leaves the others alone. */
  method DeliverIn(sts: map<nat, MreadStatus>, ghost reprs: map<nat, set<object>>, msg: Msg,
                   ghost values: map<nat, M.Mread>)
    returns (ret: int)
    requires Apart(reprs) && Are(sts, reprs, values) && InRange(values, msg)
    requires msg.id in sts && msg.id in reprs && reprs[msg.id] == Repr(sts[msg.id])
    modifies AllOf(reprs)
    ensures Are(sts, reprs, values[msg.id := M.Step(values[msg.id], msg.op)])
  {
    hide M.Step, InRange, AllOf, Repr, StatusIs;
    RangeOf(values, msg);
    ret := DeliverWithin(reprs[msg.id], sts[msg.id], msg.op, values[msg.id]);
  }

  method DeliverWithin(ghost repr: set<object>, st: MreadStatus, op: M.Op, ghost m: M.Mread) returns (ret: int)
    requires repr == Repr(st) && Within(repr, st, m)
    requires op.DoData? ==> op.i < |m.reqs| && op.at <= m.reqs[op.i].length
    modifies repr
    ensures Within(repr, st, M.Step(m, op))
  {
    hide M.Step, StatusIs;
    ret := DeliverTo(st, op, m);
  }

  /** The wait is over, and the requests of one multi-read are patched up for the given file sizes. */
  method Settle(st: MreadStatus, sizes: seq<Option<nat>>, ghost m: M.Mread) returns (ghost filled: seq<M.Req>)
    requires StatusIs(st, m) && |sizes| == |m.reqs| && forall i :: 0 <= i < |m.reqs| ==> M.Fillable(m.reqs[i])
    modifies Repr(st)
    ensures Separate(st.reqs) && Same(st.reqs, filled) && |filled| == |m.reqs|
    ensures forall i :: 0 <= i < |m.reqs| ==>
              && M.Fillable(Waited(m, i))
              && filled[i] == M.Fill(Waited(m, i), sizes[i])
  {
    ghost var value := m.reqs;
    if st.nComplete != |st.reqs| {
      value := st.TimeOut(m);
    }
    forall i | 0 <= i < |m.reqs| ensures value[i] == Waited(m, i) && M.Fillable(value[i]) {
    }
    hide M.Fillable, M.Fill, M.Expire, Waited;
    filled := st.FillPass(sizes, value);
  }

  /** A request once the wait for its multi-read is over. */
  ghost function Waited(m: M.Mread, i: nat): M.Req
    requires i < |m.reqs|
  {
    if m.nComplete == |m.reqs| then m.reqs[i] else M.Expire(m.reqs[i])
  }

  // ---------- by id ----------

  /** The ids in the table are those of the multi-reads, and share no object with them. */
  ghost predicate Listed(table: T.ActiveMreads, all: set<object>, reprs: map<nat, set<object>>)
    reads table, table.list, table.list.elems
  {
    && table.Valid() && {table, table.list, table.list.elems} !! all
    && forall id :: id in reprs <==> T.Active(table.Value(), id)
  }

  /** The active multi-reads have the given values, and `all` are their objects. */
  ghost predicate InStep(all: set<object>, sts: map<nat, MreadStatus>, reprs: map<nat, set<object>>,
                         values: map<nat, M.Mread>)
    reads all
  {
    all == AllOf(reprs) && reprs == Reprs(sts) && Apart(reprs) && Are(sts, reprs, values)
  }

  lemma {:induction false} ReprOf(sts: map<nat, MreadStatus>, reprs: map<nat, set<object>>, id: nat)
    requires reprs == Reprs(sts) && id in sts
    ensures id in reprs && reprs[id] == Repr(sts[id])
  {
  }

  method DeliverKnown(sts: map<nat, MreadStatus>, ghost all: set<object>, ghost reprs: map<nat, set<object>>, msg: Msg,
                      ghost values: map<nat, M.Mread>)
    returns (ret: int)
    requires InStep(all, sts, reprs, values) && InRange(values, msg) && msg.id in sts && msg.id in values
    modifies all
    ensures InStep(all, sts, reprs, values[msg.id := M.Step(values[msg.id], msg.op)])
  {
    ReprOf(sts, reprs, msg.id);
    hide Apart, Are, M.Step, InRange, AllOf, Reprs, Repr;
    ret := DeliverIn(sts, reprs, msg, values);
  }

  /** client_get_mread_status. */
  method IsKnown(table: T.ActiveMreads, ghost all: set<object>, ghost reprs: map<nat, set<object>>, id: nat)
    returns (known: bool)
    requires Listed(table, all, reprs)
    ensures known <==> id in reprs
  {
    hide AllOf, T.Active;
    var found := table.Lookup(id);
    known := found.Some?;
  }

  /** A message; one for an id that is not active is refused and changes nothing. */
  method Deliver(table: T.ActiveMreads, sts: map<nat, MreadStatus>, ghost all: set<object>,
                 ghost reprs: map<nat, set<object>>, msg: Msg, ghost values: map<nat, M.Mread>)
    returns (ret: int)
    requires Listed(table, all, reprs) && InStep(all, sts, reprs, values) && InRange(values, msg)
    modifies all
    ensures Listed(table, all, reprs)
    ensures InStep(all, sts, reprs, if msg.id in values then values[msg.id := M.Step(values[msg.id], msg.op)]
                   else values)
    ensures msg.id !in values ==> ret == M.EINVAL
  {
    hide *;
    KeysAre(all, sts, reprs, values);
    Elsewhere(table, all, reprs);
    var known := IsKnown(table, all, reprs, msg.id);
    if !known {
      return M.EINVAL;
    }
    ret := DeliverKnown(sts, all, reprs, msg, values);
  }

  lemma {:induction false} Elsewhere(table: T.ActiveMreads, all: set<object>, reprs: map<nat, set<object>>)
    requires Listed(table, all, reprs)
    ensures {table, table.list, table.list.elems} !! all
  {
  }

  /** Messages for any multi-reads in any order: each multi-read ends as after its own messages alone. */
  method Perform(table: T.ActiveMreads, sts: map<nat, MreadStatus>, ghost all: set<object>,
                 ghost reprs: map<nat, set<object>>, msgs: seq<Msg>, ghost values: map<nat, M.Mread>)
    requires Listed(table, all, reprs) && InStep(all, sts, reprs, values)
    requires forall k :: 0 <= k < |msgs| ==> InRange(values, msgs[k])
    modifies all
    ensures Listed(table, all, reprs) && InStep(all, sts, reprs, ValuesAfter(values, msgs))
  {
    hide Listed, InStep, ValuesAfter, InRange, M.Step, AllOf;
    AfterNone(values, msgs[..0]);
    for k := 0 to |msgs|
      invariant Listed(table, all, reprs) && InStep(all, sts, reprs, ValuesAfter(values, msgs[..k]))
    {
      AfterNext(values, msgs, k);
      SameKeys(values, msgs[..k]);
      StillInRange(values, msgs[..k], msgs[k]);
      var _ := Deliver(table, sts, all, reprs, msgs[k], ValuesAfter(values, msgs[..k]));
    }
    assert msgs[..|msgs|] == msgs;
  }

  // ---------- the start of a multi-read ----------

  /** The requests have the given values, and none of them shares a record or a buffer with another. */
  ghost predicate ReqsAre(mine: set<object>, reqs: seq<ReadReq>, value: seq<M.Req>)
    reads mine
  {
    mine == Records(reqs) + Buffers(reqs) && Separate(reqs) && Same(reqs, value)
  }

  method NewStatus(ghost mine: set<object>, reqs: seq<ReadReq>, ghost value: seq<M.Req>) returns (st: MreadStatus)
    requires ReqsAre(mine, reqs, value)
    ensures fresh(st) && st.reqs == reqs && Repr(st) == {st} + mine && StatusIs(st, M.Mread(value, 0, 0))
  {
    st := new MreadStatus(reqs);
  }

  /** One more multi-read that shares nothing with the others. */
  lemma {:induction false} OneMore(all: set<object>, sts: map<nat, MreadStatus>, reprs: map<nat, set<object>>,
                                   values: map<nat, M.Mread>, id: nat, st: MreadStatus, m: M.Mread)
    requires InStep(all, sts, reprs, values) && id !in sts && StatusIs(st, m) && Repr(st) !! all
    ensures InStep(all + Repr(st), sts[id := st], reprs[id := Repr(st)], values[id := m])
  {
    ReprsMore(sts, id, st);
    AllMore(reprs, id, Repr(st));
    InAll(all, sts, reprs, values);
    ApartMore(all, reprs, id, Repr(st));
    AreMore(all, sts, reprs, values, id, st, Repr(st), m);
    hide AllOf, Reprs, Repr, StatusIs, Apart, Are;
  }

  lemma {:induction false} InAll(all: set<object>, sts: map<nat, MreadStatus>, reprs: map<nat, set<object>>,
                                 values: map<nat, M.Mread>)
    requires InStep(all, sts, reprs, values)
    ensures forall a :: a in reprs ==> reprs[a] <= all
  {
    hide AllOf, Reprs, Repr, Within, Apart;
  }

  lemma {:induction false} ReprsMore(sts: map<nat, MreadStatus>, id: nat, st: MreadStatus)
    ensures Reprs(sts[id := st]) == Reprs(sts)[id := Repr(st)]
  {
    hide Repr;
  }

  lemma {:induction false} ApartMore(all: set<object>, reprs: map<nat, set<object>>, id: nat, repr: set<object>)
    requires Apart(reprs) && id !in reprs && repr !! all && forall a :: a in reprs ==> reprs[a] <= all
    ensures Apart(reprs[id := repr])
  {
  }

  lemma {:induction false} AreMore(all: set<object>, sts: map<nat, MreadStatus>, reprs: map<nat, set<object>>,
                                   values: map<nat, M.Mread>, id: nat, st: MreadStatus, repr: set<object>, m: M.Mread)
    requires Are(sts, reprs, values) && all == AllOf(reprs) && id !in sts && repr == Repr(st) && StatusIs(st, m)
    requires AllOf(reprs[id := repr]) == all + repr
    ensures Are(sts[id := st], reprs[id := repr], values[id := m])
  {
    hide AllOf, Repr, StatusIs, Within;
    WithinOwn(st, m);
    var sts', reprs', values' := sts[id := st], reprs[id := repr], values[id := m];
    assert sts'.Keys == sts.Keys + {id} == reprs'.Keys == values'.Keys;
    forall a | a in sts' ensures reprs'[a] <= all + repr && Within(reprs'[a], sts'[a], values'[a]) {
      assert a != id ==> reprs[a] <= all && Within(reprs[a], sts[a], values[a]);
    }
  }

  lemma {:induction false} WithinOwn(st: MreadStatus, m: M.Mread)
    requires StatusIs(st, m)
    ensures Within(Repr(st), st, m)
  {
  }

  lemma {:induction false} AllMore(reprs: map<nat, set<object>>, id: nat, repr: set<object>)
    requires id !in reprs
    ensures AllOf(reprs[id := repr]) == AllOf(reprs) + repr
  {
    var reprs' := reprs[id := repr];
    forall o: object ensures o in AllOf(reprs') <==> o in AllOf(reprs) || o in repr {
      if o in AllOf(reprs) {
        var a :| a in reprs && o in reprs[a];
        assert a in reprs' && reprs'[a] == reprs[a];
      }
      if o in repr {
        assert id in reprs' && reprs'[id] == repr;
      }
    }
  }

  /** client_create_mread_request: refused when the table is full, and otherwise under an id no other has. */
  method Register(table: T.ActiveMreads, sts: map<nat, MreadStatus>, ghost all: set<object>,
                  ghost reprs: map<nat, set<object>>, ghost mine: set<object>, reqs: seq<ReadReq>,
                  ghost values: map<nat, M.Mread>, ghost value: seq<M.Req>)
    returns (r: Option<nat>, sts': map<nat, MreadStatus>, ghost all': set<object>, ghost reprs': map<nat, set<object>>)
    requires Listed(table, all, reprs) && InStep(all, sts, reprs, values) && ReqsAre(mine, reqs, value)
    requires mine !! all + {table, table.list, table.list.elems}
    modifies table, table.list, table.list.elems
    ensures r.None? <==> old(T.Full(table.Value()))
    ensures r.None? ==> sts' == sts && all' == all && reprs' == reprs && InStep(all', sts', reprs', values)
    ensures r.Some? ==> r.value !in sts && InStep(all', sts', reprs', values[r.value := M.Mread(value, 0, 0)])
    ensures r.Some? ==> r.value in sts' && sts'[r.value].reqs == reqs && sts' == sts[r.value := sts'[r.value]]
    ensures Listed(table, all', reprs')
  {
    hide *;
    KeysAre(all, sts, reprs, values);
    Elsewhere(table, all, reprs);
    sts', all', reprs' := sts, all, reprs;
    r := NewId(table, all, reprs);
    if r.Some? {
      var st := NewStatus(mine, reqs, value);
      OneMore(all, sts, reprs, values, r.value, st, M.Mread(value, 0, 0));
      sts', all', reprs' := sts[r.value := st], all + Repr(st), reprs[r.value := Repr(st)];
    }
    NowListed(table, all', reprs');
  }

  lemma {:induction false} NowListed(table: T.ActiveMreads, all: set<object>, reprs: map<nat, set<object>>)
    requires table.Valid() && {table, table.list, table.list.elems} !! all
    requires forall id :: id in reprs <==> T.Active(table.Value(), id)
    ensures Listed(table, all, reprs)
  {
  }

  method NewId(table: T.ActiveMreads, ghost all: set<object>, ghost reprs: map<nat, set<object>>)
    returns (r: Option<nat>)
    requires Listed(table, all, reprs)
    modifies table, table.list, table.list.elems
    ensures r.None? <==> old(T.Full(table.Value()))
    ensures table.Valid() && table.list.elems == old(table.list.elems)
    ensures r.Some? ==> r.value !in reprs
    ensures forall id :: T.Active(table.Value(), id) <==> id in reprs || r == Some(id)
  {
    T.CreateKeeps(table.Value());
    hide T.Active, T.Created, T.Full;
    r := table.Create();
  }

  // ---------- the end of a multi-read ----------

  /** Patch up the requests of one multi-read, which leaves the others alone. */
  method SettleIn(sts: map<nat, MreadStatus>, ghost reprs: map<nat, set<object>>, id: nat, sizes: seq<Option<nat>>,
                  ghost values: map<nat, M.Mread>)
    returns (ghost filled: seq<M.Req>)
    requires Apart(reprs) && Are(sts, reprs, values) && id in sts && id in reprs && reprs[id] == Repr(sts[id])
    requires id in values && |sizes| == |values[id].reqs| && AllReady(values[id])
    modifies AllOf(reprs)
    ensures Settled(reprs[id], sts[id], values[id], sizes, filled) && reprs[id] <= AllOf(reprs)
    ensures Others(AllOf(reprs), sts, reprs, values, id)
  {
    hide AllOf, Repr, StatusIs, Settled, AllReady;
    filled := SettleWithin(reprs[id], sts[id], sizes, values[id]);
  }

  ghost predicate AllReady(m: M.Mread) {
    forall i :: 0 <= i < |m.reqs| ==> M.Fillable(m.reqs[i])
  }

  method SettleKnown(sts: map<nat, MreadStatus>, ghost all: set<object>, ghost reprs: map<nat, set<object>>, id: nat,
                     sizes: seq<Option<nat>>, ghost values: map<nat, M.Mread>)
    returns (ghost filled: seq<M.Req>)
    requires InStep(all, sts, reprs, values) && id in sts && id in values
    requires |sizes| == |values[id].reqs| && AllReady(values[id])
    modifies all
    ensures Settled(all, sts[id], values[id], sizes, filled) && Others(all, sts, reprs, values, id)
  {
    ReprOf(sts, reprs, id);
    hide Apart, Are, AllOf, Reprs, Repr, Settled, Others, AllReady;
    filled := SettleIn(sts, reprs, id, sizes, values);
    SettledWider(reprs[id], all, sts[id], values[id], sizes, filled);
  }

  lemma {:induction false} SettledWider(repr: set<object>, all: set<object>, st: MreadStatus, m: M.Mread,
                                        sizes: seq<Option<nat>>, filled: seq<M.Req>)
    requires repr <= all && Settled(repr, st, m, sizes, filled)
    ensures Settled(all, st, m, sizes, filled)
  {
    hide Repr, Same, M.Fill, Waited;
  }

  /** All multi-reads but one have the given values. */
  ghost predicate Others(all: set<object>, sts: map<nat, MreadStatus>, reprs: map<nat, set<object>>,
                         values: map<nat, M.Mread>, id: nat)
    reads all
  {
    && sts.Keys == reprs.Keys == values.Keys
    && forall a :: a in sts && a != id ==> reprs[a] <= all && Within(reprs[a], sts[a], values[a])
  }

  /** The requests of a multi-read are patched up for the given file sizes. */
  ghost predicate Settled(repr: set<object>, st: MreadStatus, m: M.Mread, sizes: seq<Option<nat>>, filled: seq<M.Req>)
    reads repr
  {
    && Repr(st) <= repr && Same(st.reqs, filled) && |filled| == |m.reqs| == |sizes|
    && forall i :: 0 <= i < |m.reqs| ==> M.Fillable(Waited(m, i)) && filled[i] == M.Fill(Waited(m, i), sizes[i])
  }

  method SettleWithin(ghost repr: set<object>, st: MreadStatus, sizes: seq<Option<nat>>, ghost m: M.Mread)
    returns (ghost filled: seq<M.Req>)
    requires repr == Repr(st) && Within(repr, st, m)
    requires |sizes| == |m.reqs| && AllReady(m)
    modifies repr
    ensures Settled(repr, st, m, sizes, filled)
  {
    filled := Settle(st, sizes, m);
  }

  lemma {:induction false} AllFillable(m0: M.Mread, run: M.Trace)
    requires M.FreshRun(m0, run)
    ensures |M.After(m0, run).reqs| == |m0.reqs| && AllReady(M.After(m0, run))
  {
    AfterLengths(m0, run);
    forall i | 0 <= i < |m0.reqs| ensures M.Fillable(M.After(m0, run).reqs[i]) {
      M.ReadOutcome(m0, run, i, None);
    }
    hide M.After, M.Fillable, M.FreshRun;
  }

  /** Once all requests are complete, each ends as the protocol allows. */
  ghost predicate Outcomes(m0: M.Mread, run: M.Trace, sizes: seq<Option<nat>>, filled: seq<M.Req>) {
    |M.After(m0, run).reqs| == |m0.reqs| == |sizes| == |filled| &&
    forall i: nat :: i < |m0.reqs| ==>
      && M.OutcomeOk(M.After(m0, run).reqs[i], filled[i], M.Received(m0, run, i), m0.reqs[i].buf, sizes[i])
      && M.Reported(M.After(m0, run).reqs[i], m0, run, i)
  }

  lemma {:induction false} AllOutcomes(m0: M.Mread, run: M.Trace, all: set<object>, st: MreadStatus,
                                       sizes: seq<Option<nat>>,
                                       filled: seq<M.Req>)
    requires M.FreshRun(m0, run) && M.AllDone(run, |m0.reqs|) && Settled(all, st, M.After(m0, run), sizes, filled)
    ensures Outcomes(m0, run, sizes, filled)
  {
    M.CountersOrdered(m0, run);
    forall i: nat | i < |m0.reqs|
      ensures M.OutcomeOk(M.After(m0, run).reqs[i], filled[i], M.Received(m0, run, i), m0.reqs[i].buf, sizes[i])
      ensures M.Reported(M.After(m0, run).reqs[i], m0, run, i)
    {
      M.ReadOutcome(m0, run, i, sizes[i]);
      assert Waited(M.After(m0, run), i) == M.After(m0, run).reqs[i];
      hide M.OutcomeOk, M.Reported, M.Fill, M.After, M.Received, M.FreshRun;
    }
  }

  /** The messages, and then the pass over the requests of one of the multi-reads. */
  method PerformAndSettle(table: T.ActiveMreads, sts: map<nat, MreadStatus>, ghost all: set<object>,
                          ghost reprs: map<nat, set<object>>, msgs: seq<Msg>, id: nat, sizes: seq<Option<nat>>,
                          ghost values: map<nat, M.Mread>, ghost m: M.Mread)
    returns (ghost filled: seq<M.Req>)
    requires Listed(table, all, reprs) && InStep(all, sts, reprs, values) && id in sts && id in values
    requires forall k :: 0 <= k < |msgs| ==> InRange(values, msgs[k])
    requires m == M.After(values[id], TraceFor(msgs, id)) && |sizes| == |m.reqs| && AllReady(m)
    modifies all
    ensures Listed(table, all, reprs) && Settled(all, sts[id], m, sizes, filled)
    ensures Others(all, sts, reprs, ValuesAfter(values, msgs), id)
  {
    hide *;
    Elsewhere(table, all, reprs);
    AfterAt(values, msgs, id);
    Perform(table, sts, all, reprs, msgs, values);
    filled := SettleKnown(sts, all, reprs, id, sizes, ValuesAfter(values, msgs));
  }

  /** A multi-read from its messages, among those for any other multi-reads, to its result: it ends as after its
      own messages, its requests are patched up, and its id is free again; the other multi-reads have seen
      their messages and nothing else. */
  method Exchange(table: T.ActiveMreads, sts: map<nat, MreadStatus>, ghost all: set<object>,
                  ghost reprs: map<nat, set<object>>, msgs: seq<Msg>, id: nat, sizes: seq<Option<nat>>,
                  ghost values: map<nat, M.Mread>, ghost m0: M.Mread, ghost run: M.Trace)
    returns (ghost filled: seq<M.Req>)
    requires Listed(table, all, reprs) && InStep(all, sts, reprs, values) && id in sts && id in values
    requires forall k :: 0 <= k < |msgs| ==> InRange(values, msgs[k])
    requires m0 == values[id] && run == TraceFor(msgs, id) && M.FreshRun(m0, run) && |sizes| == |m0.reqs|
    modifies all, table.list, table.list.elems
    ensures Settled(all, sts[id], M.After(m0, run), sizes, filled)
    ensures M.AllDone(run, |m0.reqs|) ==> Outcomes(m0, run, sizes, filled)
    ensures table.Valid() && forall x :: T.Active(table.Value(), x) <==> x in reprs && x != id
    ensures Others(all, sts, reprs, ValuesAfter(values, msgs), id)
  {
    hide *;
    KeysAre(all, sts, reprs, values);
    AllFillable(m0, run);
    filled := PerformAndSettle(table, sts, all, reprs, msgs, id, sizes, values, M.After(m0, run));
    if M.AllDone(run, |m0.reqs|) {
      AllOutcomes(m0, run, all, sts[id], sizes, filled);
    }
    Elsewhere(table, all, reprs);
    Forget(table, all, reprs, id);
  }

  lemma {:induction false} AfterAt(values: map<nat, M.Mread>, msgs: seq<Msg>, id: nat)
    requires id in values
    ensures id in ValuesAfter(values, msgs) && ValuesAfter(values, msgs)[id] == M.After(values[id], TraceFor(msgs, id))
  {
  }

  /** client_remove_mread_request. */
  method Forget(table: T.ActiveMreads, ghost all: set<object>, ghost reprs: map<nat, set<object>>, id: nat)
    requires Listed(table, all, reprs) && id in reprs
    modifies table.list, table.list.elems
    ensures table.Valid() && forall x :: T.Active(table.Value(), x) <==> x in reprs && x != id
  {
    T.RemoveKeeps(table.Value(), id);
    hide T.Active, T.Removed;
    var _ := table.Remove(id);
  }

  lemma {:induction false} KeysAre(all: set<object>, sts: map<nat, MreadStatus>, reprs: map<nat, set<object>>,
                                   values: map<nat, M.Mread>)
    requires InStep(all, sts, reprs, values)
    ensures sts.Keys == values.Keys == reprs.Keys
  {
  }

  lemma {:induction false} SameKeys(values: map<nat, M.Mread>, msgs: seq<Msg>)
    ensures ValuesAfter(values, msgs).Keys == values.Keys
  {
  }
}
