/**
  The multiplexed streams of the RPC dispatcher (cli/src/rpc.rs, `Streams` and
  `write_loop`).

  Every locked region, every `write_all` and every `shutdown` is one atomic step, taken
  by a caller of `insert`, `write` or `remove` or by a spawned task; a run is any
  interleaving of steps.  `Rec.born` and `halves` are histories that the program does
  not read.
*/
module RpcStreams {
  import opened Basics

  type StreamId = nat
  type Half = nat
  type TaskId = nat

  /** A `StreamRec`: the write half is absent while a write loop holds it.  `born` is the
      half the record was inserted with. */
  datatype Rec = Rec(write: Option<Half>, q: seq<Bytes>, ended: bool, born: Half)

  /** A spawned task: a write loop with the items it has taken from the queue
      (at its lock again when it has none), or a pending `shutdown`. */
  datatype Task =
    | Loop(id: StreamId, w: Half, items: seq<Bytes>)
    | Closing(w: Half)

  /** What became of one item handed to `write_all`. */
  datatype Delivery =
    | Wrote(item: Bytes)
    | Broken(item: Bytes, sent: nat)
    | Dropped(item: Bytes)

  /** The history of a write half: the writes accepted for its record, what was done
      with them, and how often the half was shut down. */
  datatype Trace = Trace(accepted: seq<Bytes>, log: seq<Delivery>, shut: nat)

  datatype State = State(
    recs: map<StreamId, Rec>,
    tasks: map<TaskId, Task>,
    halves: map<Half, Trace>)

  const Init := State(map[], map[], map[])

  datatype Step =
    | Insert(id: StreamId, w: Half)
    | Write(id: StreamId, buf: Bytes, t: TaskId)
    | Remove(id: StreamId, t: TaskId)
    | LoopLocked(t: TaskId)
    | LoopWrites(t: TaskId)
    | LoopFails(t: TaskId, sent: nat)
    | ShutsDown(t: TaskId)

  /** An inserted half is new and its id has no record; spawned tasks are new. */
  predicate Enabled(s: State, e: Step) {
    match e
    case Insert(id, w) => id !in s.recs && w !in s.halves
    case Write(_, _, t) => t !in s.tasks
    case Remove(_, t) => t !in s.tasks
    case LoopLocked(t) => t in s.tasks && s.tasks[t].Loop? && s.tasks[t].items == []
    case LoopWrites(t) => t in s.tasks && s.tasks[t].Loop? && s.tasks[t].items != []
    case LoopFails(t, n) =>
      t in s.tasks && s.tasks[t].Loop? && s.tasks[t].items != [] && n <= |s.tasks[t].items[0]|
    case ShutsDown(t) => t in s.tasks && s.tasks[t].Closing?
  }

  function AfterInsert(s: State, id: StreamId, w: Half): State {
    s.(recs := s.recs[id := Rec(Some(w), [], false, w)], halves := s.halves[w := Trace([], [], 0)])
  }

  function AfterWrite(s: State, id: StreamId, buf: Bytes, t: TaskId): State {
    if id !in s.recs then s else
      var r := s.recs[id];
      var s' := s.(recs := s.recs[id := r.(write := None, q := r.q + [buf])],
                   halves := Accept(s.halves, r.born, buf));
      if r.write.Some? then s'.(tasks := s.tasks[t := Loop(id, r.write.value, [])]) else s'
  }

  function AfterRemove(s: State, id: StreamId, t: TaskId): State {
    if id !in s.recs then s
    else if s.recs[id].write.Some? then
      s.(recs := s.recs - {id}, tasks := s.tasks[t := Closing(s.recs[id].write.value)])
    else
      s.(recs := s.recs[id := s.recs[id].(ended := true)])
  }

  /** The locked region of `write_loop`. */
  function AfterLoopLocked(s: State, t: TaskId): State
    requires Enabled(s, LoopLocked(t))
  {
    var Loop(id, w, _) := s.tasks[t];
    if id !in s.recs then s.(tasks := s.tasks[t := Closing(w)])
    else if s.recs[id].q != [] then
      s.(recs := s.recs[id := s.recs[id].(q := [])], tasks := s.tasks[t := Loop(id, w, s.recs[id].q)])
    else if s.recs[id].ended then
      s.(recs := s.recs - {id}, tasks := s.tasks[t := Closing(w)])
    else
      s.(recs := s.recs[id := s.recs[id].(write := Some(w))], tasks := s.tasks - {t})
  }

  function AfterLoopWrites(s: State, t: TaskId): State
    requires Enabled(s, LoopWrites(t))
  {
    var Loop(id, w, items) := s.tasks[t];
    s.(tasks := s.tasks[t := Loop(id, w, items[1..])], halves := Deliver(s.halves, w, [Wrote(items[0])]))
  }

  /** A failing `write_all` gets part of its item out; the drained rest is dropped. */
  function AfterLoopFails(s: State, t: TaskId, n: nat): State
    requires Enabled(s, LoopFails(t, n))
  {
    var Loop(id, w, items) := s.tasks[t];
    s.(tasks := s.tasks[t := Loop(id, w, [])],
       halves := Deliver(s.halves, w, [Broken(items[0], n)] + AllDropped(items[1..])))
  }

  function AfterShutsDown(s: State, t: TaskId): State
    requires Enabled(s, ShutsDown(t))
  {
    s.(tasks := s.tasks - {t}, halves := Shut(s.halves, s.tasks[t].w))
  }

  function Apply(s: State, e: Step): State
    requires Enabled(s, e)
  {
    match e
    case Insert(id, w) => AfterInsert(s, id, w)
    case Write(id, buf, t) => AfterWrite(s, id, buf, t)
    case Remove(id, t) => AfterRemove(s, id, t)
    case LoopLocked(t) => AfterLoopLocked(s, t)
    case LoopWrites(t) => AfterLoopWrites(s, t)
    case LoopFails(t, n) => AfterLoopFails(s, t, n)
    case ShutsDown(t) => AfterShutsDown(s, t)
  }

  // ----- history updates -----

  function Accept(halves: map<Half, Trace>, w: Half, buf: Bytes): map<Half, Trace> {
    if w in halves then halves[w := halves[w].(accepted := halves[w].accepted + [buf])] else halves
  }

  function Deliver(halves: map<Half, Trace>, w: Half, ds: seq<Delivery>): map<Half, Trace> {
    if w in halves then halves[w := halves[w].(log := halves[w].log + ds)] else halves
  }

  function Shut(halves: map<Half, Trace>, w: Half): map<Half, Trace> {
    if w in halves then halves[w := halves[w].(shut := halves[w].shut + 1)] else halves
  }

  function AllDropped(items: seq<Bytes>): seq<Delivery> {
    seq(|items|, i requires 0 <= i < |items| => Dropped(items[i]))
  }

  function Items(log: seq<Delivery>): (r: seq<Bytes>) {
    seq(|log|, i requires 0 <= i < |log| => log[i].item)
  }

  // ----- runs -----

  ghost predicate ValidRun(s: State, run: seq<Step>)
    decreases |run|
  {
    run == [] || (Enabled(s, run[0]) && ValidRun(Apply(s, run[0]), run[1..]))
  }

  ghost function Run(s: State, run: seq<Step>): State
    requires ValidRun(s, run)
    decreases |run|
  {
    if run == [] then s else Run(Apply(s, run[0]), run[1..])
  }

  // ----- the invariant -----

  /** A record that holds a half holds the one it was born with, has nothing queued and
      is not ended. */
  ghost predicate RecOk(s: State, r: Rec) {
    && r.born in s.halves && s.halves[r.born].shut == 0
    && (r.write.Some? ==> r.write.value == r.born && r.q == [] && !r.ended)
  }

  /** A running loop has its record, without the half. */
  ghost predicate TaskOk(s: State, k: Task) {
    && k.w in s.halves && s.halves[k.w].shut == 0
    && (k.Loop? ==> k.id in s.recs && s.recs[k.id].born == k.w && s.recs[k.id].write.None?)
  }

  /** Neither two records nor two tasks are about the same half, and a half about to be
      shut down has no record. */
  ghost predicate Distinct(recs: map<StreamId, Rec>, tasks: map<TaskId, Task>) {
    && (forall i, j :: i in recs && j in recs && recs[i].born == recs[j].born ==> i == j)
    && (forall t, u :: t in tasks && u in tasks && tasks[t].w == tasks[u].w ==> t == u)
    && (forall i, t :: i in recs && t in tasks && recs[i].born == tasks[t].w ==> tasks[t].Loop?)
  }

  ghost predicate Owned(s: State) {
    && (forall id :: id in s.recs ==> RecOk(s, s.recs[id]))
    && (forall t :: t in s.tasks ==> TaskOk(s, s.tasks[t]))
    && (forall w :: w in s.halves ==> s.halves[w].shut <= 1)
    && Distinct(s.recs, s.tasks)
  }

  /** No half is forgotten: each is in its record, in a task's hands, or shut down. */
  ghost predicate Held(s: State) {
    forall w :: w in s.halves ==> HeldBySome(s, w)
  }

  ghost predicate HeldBySome(s: State, w: Half)
    requires w in s.halves
  {
    (exists id :: InRecord(s, id, w)) || (exists t :: HasHalf(s, t, w)) || s.halves[w].shut == 1
  }

  ghost predicate InRecord(s: State, id: StreamId, w: Half) {
    id in s.recs && s.recs[id].write == Some(w)
  }

  ghost predicate HasHalf(s: State, t: TaskId, w: Half) {
    t in s.tasks && s.tasks[t].w == w
  }

  /** Items handled, then items in the loop's hand, then the queue, are the accepted writes. */
  ghost predicate LoopKept(s: State, k: Task) {
    k.Loop? && k.id in s.recs && k.w in s.halves ==>
      Items(s.halves[k.w].log) + k.items + s.recs[k.id].q == s.halves[k.w].accepted
  }

  /** Every accepted write was handled. */
  ghost predicate AllHandled(s: State, w: Half) {
    w in s.halves ==> Items(s.halves[w].log) == s.halves[w].accepted
  }

  ghost predicate Conserved(s: State) {
    && (forall t :: t in s.tasks && s.tasks[t].Loop? ==> LoopKept(s, s.tasks[t]))
    && (forall t :: t in s.tasks && s.tasks[t].Closing? ==> AllHandled(s, s.tasks[t].w))
    && (forall id :: id in s.recs && s.recs[id].write.Some? ==> AllHandled(s, s.recs[id].born))
    && (forall w :: w in s.halves && s.halves[w].shut == 1 ==> AllHandled(s, w))
  }

  ghost predicate Inv(s: State) { Owned(s) && Held(s) && Conserved(s) }

  lemma HandledOneMore(log: seq<Delivery>, ds: seq<Delivery>, items: seq<Bytes>, left: seq<Bytes>, q: seq<Bytes>)
    requires Items(ds) + left == items
    ensures Items(log + ds) + left + q == Items(log) + items + q
  {
    assert Items(log + ds) == Items(log) + Items(ds);
  }

  lemma OwnedInsert(s: State, id: StreamId, w: Half)
    requires Owned(s) && Enabled(s, Insert(id, w))
    ensures Owned(AfterInsert(s, id, w))
  {
  }

  lemma ConservedInsert(s: State, id: StreamId, w: Half)
    requires Owned(s) && Conserved(s) && Enabled(s, Insert(id, w))
    ensures Conserved(AfterInsert(s, id, w))
  {
  }

  lemma OwnedWrite(s: State, id: StreamId, buf: Bytes, t: TaskId)
    requires Owned(s) && Enabled(s, Write(id, buf, t))
    ensures Owned(AfterWrite(s, id, buf, t))
  {
    if id in s.recs {
      assert RecOk(s, s.recs[id]);
    }
  }

  lemma ConservedSpawn(s: State, id: StreamId, buf: Bytes, t: TaskId)
    requires Owned(s) && Conserved(s) && Enabled(s, Write(id, buf, t)) && id in s.recs && s.recs[id].write.Some?
    ensures Conserved(AfterWrite(s, id, buf, t))
  {
    assert RecOk(s, s.recs[id]) && AllHandled(s, s.recs[id].born);
  }

  lemma ConservedQueue(s: State, id: StreamId, buf: Bytes, t: TaskId)
    requires Owned(s) && Conserved(s) && Enabled(s, Write(id, buf, t)) && id in s.recs && s.recs[id].write.None?
    ensures Conserved(AfterWrite(s, id, buf, t))
  {
    assert RecOk(s, s.recs[id]);
  }

  lemma ConservedWrite(s: State, id: StreamId, buf: Bytes, t: TaskId)
    requires Owned(s) && Conserved(s) && Enabled(s, Write(id, buf, t))
    ensures Conserved(AfterWrite(s, id, buf, t))
  {
    if id in s.recs {
      if s.recs[id].write.Some? {
        ConservedSpawn(s, id, buf, t);
      } else {
        ConservedQueue(s, id, buf, t);
      }
    }
  }

  lemma OwnedRemove(s: State, id: StreamId, t: TaskId)
    requires Owned(s) && Enabled(s, Remove(id, t))
    ensures Owned(AfterRemove(s, id, t))
  {
  }

  lemma ConservedRemove(s: State, id: StreamId, t: TaskId)
    requires Owned(s) && Conserved(s) && Enabled(s, Remove(id, t))
    ensures Conserved(AfterRemove(s, id, t))
  {
  }

  lemma OwnedLoopLocked(s: State, t: TaskId)
    requires Owned(s) && Enabled(s, LoopLocked(t))
    ensures Owned(AfterLoopLocked(s, t))
  {
    assert TaskOk(s, s.tasks[t]) && RecOk(s, s.recs[s.tasks[t].id]);
  }

  lemma ConservedLoopLocked(s: State, t: TaskId)
    requires Owned(s) && Conserved(s) && Enabled(s, LoopLocked(t))
    ensures Conserved(AfterLoopLocked(s, t))
  {
    var Loop(id, w, _) := s.tasks[t];
    assert TaskOk(s, s.tasks[t]);
    if s.recs[id].q != [] {
      ConservedTakes(s, t);
    } else {
      ConservedStops(s, t);
    }
  }

  lemma ConservedTakes(s: State, t: TaskId)
    requires Owned(s) && Conserved(s) && Enabled(s, LoopLocked(t))
    requires s.tasks[t].id in s.recs && s.recs[s.tasks[t].id].q != []
    ensures Conserved(AfterLoopLocked(s, t))
  {
    var Loop(id, w, _) := s.tasks[t];
    var q := s.recs[id].q;
    assert TaskOk(s, s.tasks[t]) && LoopKept(s, s.tasks[t]);
    assert Items(s.halves[w].log) + [] + q == Items(s.halves[w].log) + q + [];
  }

  lemma ConservedStops(s: State, t: TaskId)
    requires Owned(s) && Conserved(s) && Enabled(s, LoopLocked(t))
    requires s.tasks[t].id in s.recs && s.recs[s.tasks[t].id].q == []
    ensures Conserved(AfterLoopLocked(s, t))
  {
    assert TaskOk(s, s.tasks[t]) && LoopKept(s, s.tasks[t]);
  }

  lemma OwnedLoopWrites(s: State, t: TaskId)
    requires Owned(s) && Enabled(s, LoopWrites(t))
    ensures Owned(AfterLoopWrites(s, t))
  {
  }

  lemma ConservedLoopWrites(s: State, t: TaskId)
    requires Owned(s) && Conserved(s) && Enabled(s, LoopWrites(t))
    ensures Conserved(AfterLoopWrites(s, t))
  {
    var Loop(id, w, items) := s.tasks[t];
    assert TaskOk(s, s.tasks[t]) && LoopKept(s, s.tasks[t]);
    HandledOneMore(s.halves[w].log, [Wrote(items[0])], items, items[1..], s.recs[id].q);
  }

  lemma OwnedLoopFails(s: State, t: TaskId, n: nat)
    requires Owned(s) && Enabled(s, LoopFails(t, n))
    ensures Owned(AfterLoopFails(s, t, n))
  {
  }

  lemma ConservedLoopFails(s: State, t: TaskId, n: nat)
    requires Owned(s) && Conserved(s) && Enabled(s, LoopFails(t, n))
    ensures Conserved(AfterLoopFails(s, t, n))
  {
    var Loop(id, w, items) := s.tasks[t];
    assert TaskOk(s, s.tasks[t]) && LoopKept(s, s.tasks[t]);
    HandledOneMore(s.halves[w].log, [Broken(items[0], n)] + AllDropped(items[1..]), items, [], s.recs[id].q);
  }

  lemma OwnedShutsDown(s: State, t: TaskId)
    requires Owned(s) && Enabled(s, ShutsDown(t))
    ensures Owned(AfterShutsDown(s, t))
  {
  }

  lemma ConservedShutsDown(s: State, t: TaskId)
    requires Owned(s) && Conserved(s) && Enabled(s, ShutsDown(t))
    ensures Conserved(AfterShutsDown(s, t))
  {
  }

  /** A half in a record stays there or goes to a newly spawned task. */
  lemma RecordHandsOver(s: State, e: Step, id: StreamId, w: Half)
    requires Owned(s) && Enabled(s, e) && InRecord(s, id, w)
    ensures w in Apply(s, e).halves && HeldBySome(Apply(s, e), w)
  {
    var s' := Apply(s, e);
    assert RecOk(s, s.recs[id]);
    if (e.Write? || e.Remove?) && e.id == id {
      assert HasHalf(s', e.t, w);
    } else {
      assert InRecord(s', id, w);
    }
  }

  /** A half in a task's hands stays there, goes back to its record, or is shut down. */
  lemma TaskHandsOver(s: State, e: Step, t: TaskId, w: Half)
    requires Owned(s) && Enabled(s, e) && HasHalf(s, t, w)
    ensures w in Apply(s, e).halves && HeldBySome(Apply(s, e), w)
  {
    var s' := Apply(s, e);
    assert TaskOk(s, s.tasks[t]);
    if e == LoopLocked(t) && t !in s'.tasks {
      assert InRecord(s', s.tasks[t].id, w);
    } else if e != ShutsDown(t) {
      assert HasHalf(s', t, w);
    }
  }

  lemma HalfStaysHeld(s: State, e: Step, w: Half)
    requires Owned(s) && Enabled(s, e) && w in Apply(s, e).halves && (w in s.halves ==> HeldBySome(s, w))
    ensures HeldBySome(Apply(s, e), w)
  {
    if w !in s.halves {
      assert InRecord(Apply(s, e), e.id, w);
    } else if id :| InRecord(s, id, w) {
      RecordHandsOver(s, e, id, w);
    } else if t :| HasHalf(s, t, w) {
      TaskHandsOver(s, e, t, w);
    }
  }

  lemma HeldStep(s: State, e: Step)
    requires Owned(s) && Held(s) && Enabled(s, e)
    ensures Held(Apply(s, e))
  {
    forall w | w in Apply(s, e).halves
      ensures HeldBySome(Apply(s, e), w)
    {
      HalfStaysHeld(s, e, w);
    }
  }

  lemma ConservedStep(s: State, e: Step)
    requires Owned(s) && Conserved(s) && Enabled(s, e)
    ensures Owned(Apply(s, e)) && Conserved(Apply(s, e))
  {
    match e
    case Insert(id, w) => OwnedInsert(s, id, w); ConservedInsert(s, id, w);
    case Write(id, buf, t) => OwnedWrite(s, id, buf, t); ConservedWrite(s, id, buf, t);
    case Remove(id, t) => OwnedRemove(s, id, t); ConservedRemove(s, id, t);
    case LoopLocked(t) => OwnedLoopLocked(s, t); ConservedLoopLocked(s, t);
    case LoopWrites(t) => OwnedLoopWrites(s, t); ConservedLoopWrites(s, t);
    case LoopFails(t, n) => OwnedLoopFails(s, t, n); ConservedLoopFails(s, t, n);
    case ShutsDown(t) => OwnedShutsDown(s, t); ConservedShutsDown(s, t);
  }

  lemma InvStep(s: State, e: Step)
    requires Inv(s) && Enabled(s, e)
    ensures Inv(Apply(s, e))
  {
    HeldStep(s, e);
    ConservedStep(s, e);
  }

  lemma {:induction false} InvRun(s: State, run: seq<Step>)
    requires Inv(s) && ValidRun(s, run)
    ensures Inv(Run(s, run))
    decreases |run|
  {
    if run != [] {
      InvStep(s, run[0]);
      InvRun(Apply(s, run[0]), run[1..]);
    }
  }

  // ----- what every run guarantees -----

  ghost function RecordsOf(s: State, w: Half): set<StreamId> { set id | id in s.recs && s.recs[id].write == Some(w) }

  ghost function TasksOf(s: State, w: Half): set<TaskId> { set t | t in s.tasks && s.tasks[t].w == w }

  /** How many places hold the half: records, tasks, and shutdowns already made. */
  ghost function Owners(s: State, w: Half): nat
    requires w in s.halves
  {
    |RecordsOf(s, w)| + |TasksOf(s, w)| + s.halves[w].shut
  }

  /** The one set that contains exactly `x` has one element. */
  lemma Single<T>(xs: set<T>, x: T)
    requires x in xs && forall y :: y in xs ==> y == x
    ensures |xs| == 1
  {
    assert xs == {x};
  }

  lemma OneOwner(s: State, w: Half)
    requires Inv(s) && w in s.halves
    ensures Owners(s, w) == 1
  {
    var records, holders := RecordsOf(s, w), TasksOf(s, w);
    forall id | id in records
      ensures holders == {} && s.halves[w].shut == 0 && |records| == 1
    {
      assert RecOk(s, s.recs[id]);
      forall j | j in records ensures j == id { assert RecOk(s, s.recs[j]); }
      Single(records, id);
    }
    forall t | t in holders
      ensures s.halves[w].shut == 0 && |holders| == 1
    {
      assert TaskOk(s, s.tasks[t]);
      Single(holders, t);
    }
    assert HeldBySome(s, w);
    if id :| InRecord(s, id, w) {
      assert id in records;
    } else if t :| HasHalf(s, t, w) {
      assert t in holders && records == {};
    } else {
      assert records == {} && holders == {};
    }
  }

  /** In every reachable state each write half has exactly one owner. */
  lemma EveryHalfHasOneOwner(run: seq<Step>, w: Half)
    requires ValidRun(Init, run) && w in Run(Init, run).halves
    ensures Owners(Run(Init, run), w) == 1
  {
    InvRun(Init, run);
    OneOwner(Run(Init, run), w);
  }

  /** The items a write loop has taken from the queue and not yet handled. */
  ghost function InHand(s: State, w: Half): seq<Bytes> {
    if exists t :: HasHalf(s, t, w) && s.tasks[t].Loop? then
      var t :| HasHalf(s, t, w) && s.tasks[t].Loop?; s.tasks[t].items
    else []
  }

  ghost predicate BornWith(s: State, id: StreamId, w: Half) { id in s.recs && s.recs[id].born == w }

  /** The items queued in the record of the half. */
  ghost function Queued(s: State, w: Half): seq<Bytes> {
    if exists id :: BornWith(s, id, w) then
      var id :| BornWith(s, id, w); s.recs[id].q
    else []
  }

  lemma LoopHasRecord(s: State, t: TaskId)
    requires Owned(s) && t in s.tasks
    ensures s.tasks[t].Loop? ==> BornWith(s, s.tasks[t].id, s.tasks[t].w)
  {
    assert TaskOk(s, s.tasks[t]);
  }

  lemma InOrder(s: State, w: Half)
    requires Owned(s) && Conserved(s) && w in s.halves && HeldBySome(s, w)
    ensures Items(s.halves[w].log) + InHand(s, w) + Queued(s, w) == s.halves[w].accepted
  {
    if id :| BornWith(s, id, w) {
      assert RecOk(s, s.recs[id]);
      if s.recs[id].write.Some? {
        assert InRecord(s, id, w);
        assert InHand(s, w) == [];
      } else {
        var t :| HasHalf(s, t, w);
        assert TaskOk(s, s.tasks[t]) && s.tasks[t].id == id;
      }
    } else if t :| HasHalf(s, t, w) {
      LoopHasRecord(s, t);
    }
  }

  // ----- the writes of a run -----

  /** The buffers written to the stream of half `w`: those of the writes that found its record. */
  ghost function WritesFor(s: State, run: seq<Step>, w: Half): seq<Bytes>
    requires ValidRun(s, run)
    decreases |run|
  {
    if run == [] then []
    else
      (if run[0].Write? && BornWith(s, run[0].id, w) then [run[0].buf] else []) + WritesFor(Apply(s, run[0]), run[1..], w)
  }

  lemma {:induction false} AcceptedRun(s: State, run: seq<Step>, w: Half)
    requires ValidRun(s, run) && w in s.halves
    ensures w in Run(s, run).halves
    ensures Run(s, run).halves[w].accepted == s.halves[w].accepted + WritesFor(s, run, w)
    decreases |run|
  {
    if run != [] {
      var s' := Apply(s, run[0]);
      AcceptedStep(s, run[0], w);
      AcceptedRun(s', run[1..], w);
      Regroup(s.halves[w].accepted, if run[0].Write? && BornWith(s, run[0].id, w) then [run[0].buf] else [],
              WritesFor(s', run[1..], w));
    }
  }

  lemma AcceptedStep(s: State, e: Step, w: Half)
    requires Enabled(s, e) && w in s.halves
    ensures w in Apply(s, e).halves
    ensures Apply(s, e).halves[w].accepted ==
            s.halves[w].accepted + (if e.Write? && BornWith(s, e.id, w) then [e.buf] else [])
  {
  }

  /** Records are about halves that were inserted. */
  ghost predicate KnownHalves(s: State) { forall id :: id in s.recs ==> s.recs[id].born in s.halves }

  lemma KnownStep(s: State, e: Step)
    requires KnownHalves(s) && Enabled(s, e)
    ensures KnownHalves(Apply(s, e))
  {
  }

  /** In every run, the writes accepted for a half are the buffers written to its stream. */
  lemma {:induction false} AcceptedAreWritten(s: State, run: seq<Step>, w: Half)
    requires KnownHalves(s) && ValidRun(s, run) && w !in s.halves && w in Run(s, run).halves
    ensures Run(s, run).halves[w].accepted == WritesFor(s, run, w)
    decreases |run|
  {
    var s' := Apply(s, run[0]);
    KnownStep(s, run[0]);
    if w in s'.halves {
      NewTrace(s, run[0], w);
      AcceptedRun(s', run[1..], w);
      assert [] + WritesFor(s', run[1..], w) == WritesFor(s', run[1..], w);
    } else {
      AcceptedAreWritten(s', run[1..], w);
    }
  }

  lemma NewTrace(s: State, e: Step, w: Half)
    requires Enabled(s, e) && w !in s.halves && w in Apply(s, e).halves
    ensures e.Insert? && Apply(s, e).halves[w] == Trace([], [], 0)
  {
  }

  /** The buffers of the writes to an id, from the steps alone. */
  function Bufs(run: seq<Step>, id: StreamId): seq<Bytes> {
    if run == [] then [] else (if run[0].Write? && run[0].id == id then [run[0].buf] else []) + Bufs(run[1..], id)
  }

  ghost predicate NoRemoval(run: seq<Step>, id: StreamId) {
    forall k :: 0 <= k < |run| ==> !(run[k].Remove? && run[k].id == id)
  }

  /** A stream that nobody removes keeps its record. */
  ghost predicate Lives(s: State, id: StreamId, w: Half) { BornWith(s, id, w) && !s.recs[id].ended }

  lemma LivesStep(s: State, e: Step, id: StreamId, w: Half)
    requires Lives(s, id, w) && Enabled(s, e) && !(e.Remove? && e.id == id)
    ensures Lives(Apply(s, e), id, w)
  {
  }

  lemma {:induction false} LivesRun(s: State, run: seq<Step>, id: StreamId, w: Half)
    requires Inv(s) && Lives(s, id, w) && ValidRun(s, run) && NoRemoval(run, id)
    ensures Lives(Run(s, run), id, w) && WritesFor(s, run, w) == Bufs(run, id)
    decreases |run|
  {
    if run != [] {
      LivesStep(s, run[0], id, w);
      InvStep(s, run[0]);
      LivesRun(Apply(s, run[0]), run[1..], id, w);
      assert run[0].Write? ==> (BornWith(s, run[0].id, w) <==> run[0].id == id);
    }
  }

  lemma {:induction false} RunSplits(s: State, a: seq<Step>, b: seq<Step>)
    requires ValidRun(s, a + b)
    ensures ValidRun(s, a) && ValidRun(Run(s, a), b) && Run(s, a + b) == Run(Run(s, a), b)
    decreases |a|
  {
    if a == [] {
      assert a + b == b;
    } else {
      assert (a + b)[1..] == a[1..] + b;
      RunSplits(Apply(s, a[0]), a[1..], b);
    }
  }

  lemma {:induction false} NewHalfSplits(s: State, a: seq<Step>, b: seq<Step>, w: Half)
    requires KnownHalves(s) && ValidRun(s, a + b) && ValidRun(s, a) && ValidRun(Run(s, a), b) && w !in Run(s, a).halves
    ensures WritesFor(s, a + b, w) == WritesFor(Run(s, a), b, w)
    decreases |a|
  {
    if a == [] {
      assert a + b == b;
    } else {
      assert (a + b)[1..] == a[1..] + b;
      KnownStep(s, a[0]);
      HalvesStay(s, a, w);
      NewHalfSplits(Apply(s, a[0]), a[1..], b, w);
    }
  }

  lemma {:induction false} HalvesStay(s: State, run: seq<Step>, w: Half)
    requires ValidRun(s, run)
    ensures w in s.halves ==> w in Run(s, run).halves
    decreases |run|
  {
    if run != [] {
      HalvesStay(Apply(s, run[0]), run[1..], w);
    }
  }

  /** What a run does with a stream after it was inserted. */
  lemma AfterInsertion(run: seq<Step>, i: nat, id: StreamId, w: Half)
    requires ValidRun(Init, run) && i < |run| && run[i] == Insert(id, w)
    ensures ValidRun(Init, run[..i + 1])
    ensures var s := Run(Init, run[..i + 1]);
            && Lives(s, id, w) && ValidRun(s, run[i + 1..]) && Run(Init, run) == Run(s, run[i + 1..])
            && w in s.halves && s.halves[w] == Trace([], [], 0)
            && WritesFor(Init, run, w) == WritesFor(s, run[i + 1..], w)
  {
    var a, b := run[..i], run[i..];
    assert run == a + b && b[1..] == run[i + 1..];
    RunSplits(Init, a, b);
    NewHalfSplits(Init, a, b, w);
    var step := [run[i]];
    assert step[1..] == [] && run[..i + 1] == a + step;
    RunAppend(Init, a, step);
  }

  /** In every run, a stream that is inserted and not removed accepts every write to its id, in
      order. */
  lemma EveryWriteIsAccepted(run: seq<Step>, i: nat, id: StreamId, w: Half)
    requires ValidRun(Init, run) && i < |run| && run[i] == Insert(id, w) && NoRemoval(run[i + 1..], id)
    ensures WritesFor(Init, run, w) == Bufs(run[i + 1..], id)
    ensures Lives(Run(Init, run), id, w)
  {
    AfterInsertion(run, i, id, w);
    InvRun(Init, run[..i + 1]);
    LivesRun(Run(Init, run[..i + 1]), run[i + 1..], id, w);
  }

  /** In every run, a half is shut down only after its stream was removed. */
  lemma ShutNeedsRemoval(run: seq<Step>, i: nat, id: StreamId, w: Half)
    requires ValidRun(Init, run) && i < |run| && run[i] == Insert(id, w)
    requires w in Run(Init, run).halves && Run(Init, run).halves[w].shut > 0
    ensures !NoRemoval(run[i + 1..], id)
  {
    if NoRemoval(run[i + 1..], id) {
      EveryWriteIsAccepted(run, i, id, w);
      InvRun(Init, run);
      LivingIsOpen(Run(Init, run), id, w);
    }
  }

  lemma LivingIsOpen(s: State, id: StreamId, w: Half)
    requires Owned(s) && Lives(s, id, w)
    ensures w in s.halves && s.halves[w].shut == 0
  {
    assert RecOk(s, s.recs[id]);
  }

  /** In every reachable state, for every half, the items handled so far, then those in the
      write loop's hand, then those queued, are exactly the buffers written to its stream, in
      order.  Once the half is shut down, all of them were handled. */
  lemma WritesStayInOrder(run: seq<Step>, w: Half)
    requires ValidRun(Init, run) && w in Run(Init, run).halves
    ensures var s := Run(Init, run);
            && Items(s.halves[w].log) + InHand(s, w) + Queued(s, w) == s.halves[w].accepted == WritesFor(Init, run, w)
            && (s.halves[w].shut > 0 ==> Items(s.halves[w].log) == WritesFor(Init, run, w))
  {
    InvRun(Init, run);
    InOrder(Run(Init, run), w);
    AcceptedAreWritten(Init, run, w);
  }

  /** The bytes that reached the write half. */
  function OnWire(log: seq<Delivery>): Bytes {
    if log == [] then [] else
      (match log[0]
       case Wrote(item) => item
       case Broken(item, n) => item[..if n <= |item| then n else |item|]
       case Dropped(_) => []) + OnWire(log[1..])
  }

  ghost predicate NoWriteError(log: seq<Delivery>) { forall i :: 0 <= i < |log| ==> log[i].Wrote? }

  lemma {:induction false} WireIsFlat(log: seq<Delivery>)
    requires NoWriteError(log)
    ensures OnWire(log) == Flatten(Items(log))
  {
    if log != [] {
      WireIsFlat(log[1..]);
      assert Items(log)[1..] == Items(log[1..]);
    }
  }

  /** Without write errors, the bytes on the wire, then those in the loop's hand and in the
      queue, are the bytes written to the stream; after the shutdown they are all on the wire. */
  lemma BytesStayInOrder(run: seq<Step>, w: Half)
    requires ValidRun(Init, run) && w in Run(Init, run).halves
    requires NoWriteError(Run(Init, run).halves[w].log)
    ensures var s := Run(Init, run);
            && OnWire(s.halves[w].log) + Flatten(InHand(s, w)) + Flatten(Queued(s, w)) == Flatten(WritesFor(Init, run, w))
            && (s.halves[w].shut > 0 ==> OnWire(s.halves[w].log) == Flatten(WritesFor(Init, run, w)))
  {
    var s := Run(Init, run);
    WritesStayInOrder(run, w);
    WireIsFlat(s.halves[w].log);
    FlattenAppend(Items(s.halves[w].log), InHand(s, w));
    FlattenAppend(Items(s.halves[w].log) + InHand(s, w), Queued(s, w));
  }

  /** In every reachable state: removing a stream whose record holds the half discards no
      queued or unhandled write, a write loop at its lock finds its record, and no task
      writes to or shuts down a half that was shut down. */
  lemma NothingIsDiscarded(run: seq<Step>, e: Step)
    requires ValidRun(Init, run) && Enabled(Run(Init, run), e)
    ensures var s := Run(Init, run);
            match e
            case Remove(id, _) =>
              id in s.recs && s.recs[id].write.Some? ==>
                s.recs[id].q == [] && AllHandled(s, s.recs[id].write.value)
            case LoopLocked(t) => s.tasks[t].id in s.recs
            case LoopWrites(t) => s.tasks[t].w in s.halves && s.halves[s.tasks[t].w].shut == 0
            case LoopFails(t, _) => s.tasks[t].w in s.halves && s.halves[s.tasks[t].w].shut == 0
            case ShutsDown(t) => AllHandled(s, s.tasks[t].w) && s.tasks[t].w in s.halves && s.halves[s.tasks[t].w].shut == 0
            case _ => true
  {
    InvRun(Init, run);
    var s := Run(Init, run);
    if e.Remove? && e.id in s.recs {
      assert RecOk(s, s.recs[e.id]);
    } else if !e.Insert? && !e.Write? && !e.Remove? {
      assert TaskOk(s, s.tasks[e.t]);
    }
  }

  lemma ShutHalfUntouched(s: State, e: Step, w: Half)
    requires Owned(s) && Enabled(s, e) && w in s.halves && s.halves[w].shut > 0
    ensures w in Apply(s, e).halves && Apply(s, e).halves[w] == s.halves[w]
  {
    if e.Write? && e.id in s.recs {
      assert RecOk(s, s.recs[e.id]);
    } else if e.LoopWrites? || e.LoopFails? || e.ShutsDown? {
      assert TaskOk(s, s.tasks[e.t]);
    }
  }

  /** Once a half is shut down, nothing that happens later changes its history: no byte
      is written to it, no write is accepted for it, and it is not shut down again. */
  lemma {:induction false} ShutdownIsFinal(s: State, run: seq<Step>, w: Half)
    requires Inv(s) && ValidRun(s, run)
    requires w in s.halves && s.halves[w].shut > 0
    ensures w in Run(s, run).halves && Run(s, run).halves[w] == s.halves[w]
    decreases |run|
  {
    if run != [] {
      InvStep(s, run[0]);
      ShutHalfUntouched(s, run[0], w);
      ShutdownIsFinal(Apply(s, run[0]), run[1..], w);
    }
  }

  // ----- what a write loop does when left alone -----

  /** The steps a loop takes to hand `n` items to its half. */
  function Writes(t: TaskId, n: nat): seq<Step> { seq(n, i => LoopWrites(t)) }

  function WroteAll(items: seq<Bytes>): seq<Delivery> {
    seq(|items|, i requires 0 <= i < |items| => Wrote(items[i]))
  }

  /** Writing out the items in hand changes nothing but the loop's hand and its log. */
  lemma {:induction false} DrainsHand(s: State, t: TaskId)
    requires t in s.tasks && s.tasks[t].Loop? && s.tasks[t].w in s.halves
    ensures var Loop(id, w, items) := s.tasks[t];
            && ValidRun(s, Writes(t, |items|))
            && Run(s, Writes(t, |items|)) ==
               s.(tasks := s.tasks[t := Loop(id, w, [])], halves := Deliver(s.halves, w, WroteAll(items)))
    decreases |s.tasks[t].items|
  {
    var Loop(id, w, items) := s.tasks[t];
    if items == [] {
      assert Writes(t, 0) == [] && WroteAll(items) == [];
      assert s.tasks == s.tasks[t := Loop(id, w, [])];
      assert s.halves[w].log + [] == s.halves[w].log;
      assert s.halves == Deliver(s.halves, w, []);
    } else {
      var s1 := AfterLoopWrites(s, t);
      DrainsHand(s1, t);
      assert Writes(t, |items|)[1..] == Writes(t, |items| - 1);
      assert s1.tasks[t := Loop(id, w, [])] == s.tasks[t := Loop(id, w, [])];
      assert [Wrote(items[0])] + WroteAll(items[1..]) == WroteAll(items);
      assert s.halves[w].log + [Wrote(items[0])] + WroteAll(items[1..]) == s.halves[w].log + WroteAll(items);
      assert Deliver(s1.halves, w, WroteAll(items[1..])) == Deliver(s.halves, w, WroteAll(items));
    }
  }

  lemma {:induction false} RunAppend(s: State, a: seq<Step>, b: seq<Step>)
    requires ValidRun(s, a) && ValidRun(Run(s, a), b)
    ensures ValidRun(s, a + b) && Run(s, a + b) == Run(Run(s, a), b)
    decreases |a|
  {
    if a == [] {
      assert a + b == b;
    } else {
      assert (a + b)[1..] == a[1..] + b;
      RunAppend(Apply(s, a[0]), a[1..], b);
    }
  }

  /** A write loop in a state where its record and its half are in place. */
  ghost predicate Running(s: State, t: TaskId) {
    && t in s.tasks && s.tasks[t].Loop? && s.tasks[t].id in s.recs
    && s.tasks[t].w in s.halves && s.halves[s.tasks[t].w].shut == 0
  }

  /** The last lock of a loop that has nothing left, with the shutdown if the stream ended. */
  lemma LastLock(s: State, t: TaskId) returns (run: seq<Step>)
    requires Running(s, t) && s.tasks[t].items == [] && s.recs[s.tasks[t].id].q == []
    ensures OwnSteps(run, t) && ValidRun(s, run)
    ensures Finished(s, Run(s, run), t, [])
  {
    var Loop(id, w, _) := s.tasks[t];
    assert s.halves[w].log + WroteAll([]) == s.halves[w].log;
    var s1 := AfterLoopLocked(s, t);
    run := [LoopLocked(t)];
    assert run[1..] == [];
    if s.recs[id].ended {
      var last := [ShutsDown(t)];
      assert last[1..] == [];
      RunAppend(s, run, last);
      run := run + last;
    }
  }

  /** Only steps of the loop's own task, and none that fails. */
  ghost predicate OwnSteps(run: seq<Step>, t: TaskId) {
    forall i :: 0 <= i < |run| ==> run[i] in {LoopLocked(t), LoopWrites(t), ShutsDown(t)}
  }

  /** From `s` to `s'` the loop of task `t` wrote `items`, and then shut its half down if
      the stream was ended, or put it back into the record if not. */
  ghost predicate Finished(s: State, s': State, t: TaskId, items: seq<Bytes>)
    requires Running(s, t)
  {
    var Loop(id, w, _) := s.tasks[t];
    && t !in s'.tasks && w in s'.halves
    && s'.halves[w].accepted == s.halves[w].accepted
    && s'.halves[w].log == s.halves[w].log + WroteAll(items)
    && (if s.recs[id].ended then id !in s'.recs && s'.halves[w].shut == 1 else InRecord(s', id, w))
  }

  lemma {:induction false} RunningLoopFinishes(s: State, t: TaskId) returns (run: seq<Step>)
    requires Running(s, t)
    ensures OwnSteps(run, t) && ValidRun(s, run)
    ensures Finished(s, Run(s, run), t, s.tasks[t].items + s.recs[s.tasks[t].id].q)
    decreases |s.recs[s.tasks[t].id].q|, |s.tasks[t].items|
  {
    var Loop(id, w, items) := s.tasks[t];
    var q := s.recs[id].q;
    if items != [] {
      DrainsHand(s, t);
      var rest := RunningLoopFinishes(Run(s, Writes(t, |items|)), t);
      RunAppend(s, Writes(t, |items|), rest);
      run := Writes(t, |items|) + rest;
      assert WroteAll(items) + WroteAll([] + q) == WroteAll(items + q);
    } else if q != [] {
      var rest := RunningLoopFinishes(AfterLoopLocked(s, t), t);
      run := [LoopLocked(t)] + rest;
      assert run[1..] == rest;
      assert q + [] == items + q;
    } else {
      run := LastLock(s, t);
      assert items + q == [];
    }
  }

  lemma LoopsAreRunning(run: seq<Step>, t: TaskId)
    requires ValidRun(Init, run) && t in Run(Init, run).tasks && Run(Init, run).tasks[t].Loop?
    ensures Running(Run(Init, run), t) && LoopKept(Run(Init, run), Run(Init, run).tasks[t])
  {
    InvRun(Init, run);
    assert TaskOk(Run(Init, run), Run(Init, run).tasks[t]);
  }

  lemma FinishedHandledAll(s: State, s': State, t: TaskId)
    requires Running(s, t) && LoopKept(s, s.tasks[t])
    requires Finished(s, s', t, s.tasks[t].items + s.recs[s.tasks[t].id].q)
    ensures AllHandled(s', s.tasks[t].w)
  {
    var Loop(id, w, items) := s.tasks[t];
    var rest := items + s.recs[id].q;
    assert Items(s.halves[w].log + WroteAll(rest)) == Items(s.halves[w].log) + rest;
    assert Items(s.halves[w].log) + rest == Items(s.halves[w].log) + items + s.recs[id].q;
  }

  /** In every reachable state, a write loop left alone writes every item in its hand and
      in the queue, in order, and then stops, so that every accepted write was handled;
      its half is then shut down exactly when the stream was ended. */
  lemma LoopFinishes(before: seq<Step>, t: TaskId) returns (run: seq<Step>)
    requires ValidRun(Init, before) && t in Run(Init, before).tasks && Run(Init, before).tasks[t].Loop?
    ensures var s := Run(Init, before);
            && Running(s, t) && OwnSteps(run, t) && ValidRun(s, run)
            && Finished(s, Run(s, run), t, s.tasks[t].items + s.recs[s.tasks[t].id].q)
            && AllHandled(Run(s, run), s.tasks[t].w)
  {
    LoopsAreRunning(before, t);
    var s := Run(Init, before);
    run := RunningLoopFinishes(s, t);
    FinishedHandledAll(s, Run(s, run), t);
  }

  /** In every reachable state, removing a stream leads to its shutdown with everything written
      to it handled: by the removal itself, or by its write loop going on. */
  lemma RemovalLeadsToShutdown(before: seq<Step>, id: StreamId, u: TaskId) returns (run: seq<Step>)
    requires ValidRun(Init, before) && id in Run(Init, before).recs && u !in Run(Init, before).tasks
    ensures var s := Run(Init, before);
            var w := s.recs[id].born;
            && ValidRun(s, [Remove(id, u)] + run) && NoRemoval(run, id)
            && Ended(s, Run(s, [Remove(id, u)] + run), id, w)
  {
    var s := Run(Init, before);
    if s.recs[id].write.Some? {
      run := [ShutsDown(u)];
      assert RecOk(s, s.recs[id]) && AllHandled(s, s.recs[id].born) by {
        InvRun(Init, before);
      }
      IdleRemoval(s, id, u);
    } else {
      run := BusyReachable(before, id, u);
    }
    assert ([Remove(id, u)] + run)[1..] == run;
  }

  lemma BusyReachable(before: seq<Step>, id: StreamId, u: TaskId) returns (run: seq<Step>)
    requires ValidRun(Init, before) && id in Run(Init, before).recs && u !in Run(Init, before).tasks
    requires Run(Init, before).recs[id].write.None?
    ensures var s := Run(Init, before);
            var s1 := Apply(s, Remove(id, u));
            && ValidRun(s1, run) && NoRemoval(run, id) && Ended(s, Run(s1, run), id, s.recs[id].born)
  {
    InvRun(Init, before);
    run := BusyRemoval(Run(Init, before), id, u);
  }

  /** From `s` to `s'` the stream of half `w` came to its end. */
  ghost predicate Ended(s: State, s': State, id: StreamId, w: Half) {
    && w in s'.halves && s'.halves[w].shut == 1 && id !in s'.recs
    && w in s.halves && s'.halves[w].accepted == s.halves[w].accepted && AllHandled(s', w)
  }

  lemma IdleRemoval(s: State, id: StreamId, u: TaskId)
    requires id in s.recs && s.recs[id].write.Some? && u !in s.tasks
    requires RecOk(s, s.recs[id]) && AllHandled(s, s.recs[id].born)
    ensures var s1 := Apply(s, Remove(id, u));
            && ValidRun(s1, [ShutsDown(u)]) && Ended(s, Run(s1, [ShutsDown(u)]), id, s.recs[id].born)
  {
    assert [ShutsDown(u)][1..] == [];
  }

  lemma BusyRemoval(s: State, id: StreamId, u: TaskId) returns (run: seq<Step>)
    requires Inv(s) && id in s.recs && s.recs[id].write.None? && u !in s.tasks
    ensures var s1 := Apply(s, Remove(id, u));
            && ValidRun(s1, run) && NoRemoval(run, id) && Ended(s, Run(s1, run), id, s.recs[id].born)
  {
    var s1 := Apply(s, Remove(id, u));
    var t := LoopOf(s, id);
    assert Running(s1, t) && LoopKept(s1, s1.tasks[t]) by {
      LoopRuns(s, t);
    }
    run := RunningLoopFinishes(s1, t);
    FinishedHandledAll(s1, Run(s1, run), t);
  }

  /** A record without its half has a loop running for it. */
  lemma LoopOf(s: State, id: StreamId) returns (t: TaskId)
    requires Inv(s) && id in s.recs && s.recs[id].write.None?
    ensures t in s.tasks && s.tasks[t].Loop? && s.tasks[t].id == id && s.tasks[t].w == s.recs[id].born
  {
    var b := s.recs[id].born;
    assert RecOk(s, s.recs[id]) && HeldBySome(s, b);
    forall i ensures !InRecord(s, i, b) { assert i in s.recs ==> RecOk(s, s.recs[i]); }
    t :| HasHalf(s, t, b);
    assert TaskOk(s, s.tasks[t]);
  }

  lemma LoopRuns(s: State, t: TaskId)
    requires Inv(s) && t in s.tasks && s.tasks[t].Loop?
    ensures Running(s, t) && LoopKept(s, s.tasks[t])
  {
    assert TaskOk(s, s.tasks[t]);
  }

  /** A loop whose write failed does not write again before it has taken its lock: the failed
      item got out up to the error, and the rest of what it had taken is dropped. */
  lemma FailureEndsBatch(s: State, t: TaskId, n: nat, run: seq<Step>)
    requires Enabled(s, LoopFails(t, n)) && ValidRun(Apply(s, LoopFails(t, n)), run)
    requires s.tasks[t].w in s.halves && forall k :: 0 <= k < |run| ==> run[k] != LoopLocked(t)
    ensures forall k :: 0 <= k < |run| ==> run[k] != LoopWrites(t)
    ensures var w, s' := s.tasks[t].w, Apply(s, LoopFails(t, n));
            w in s'.halves && OnWire(s'.halves[w].log) == OnWire(s.halves[w].log) + s.tasks[t].items[0][..n]
  {
    var s' := Apply(s, LoopFails(t, n));
    var Loop(_, w, items) := s.tasks[t];
    EmptyHandStays(s', run, t);
    WireAppend(s.halves[w].log, [Broken(items[0], n)] + AllDropped(items[1..]));
    NothingFromDropped(items[1..]);
    assert ([Broken(items[0], n)] + AllDropped(items[1..]))[1..] == AllDropped(items[1..]);
  }

  lemma {:induction false} EmptyHandStays(s: State, run: seq<Step>, t: TaskId)
    requires ValidRun(s, run) && t in s.tasks && s.tasks[t].Loop? && s.tasks[t].items == []
    requires forall k :: 0 <= k < |run| ==> run[k] != LoopLocked(t)
    ensures forall k :: 0 <= k < |run| ==> run[k] != LoopWrites(t)
    decreases |run|
  {
    if run != [] {
      EmptyHandStays(Apply(s, run[0]), run[1..], t);
      assert forall k :: 0 < k < |run| ==> run[k] == run[1..][k - 1];
    }
  }

  lemma {:induction false} WireAppend(a: seq<Delivery>, b: seq<Delivery>)
    ensures OnWire(a + b) == OnWire(a) + OnWire(b)
  {
    if a == [] {
      assert a + b == b;
    } else {
      assert (a + b)[1..] == a[1..] + b;
      WireAppend(a[1..], b);
      Regroup(OnWire([a[0]]), OnWire(a[1..]), OnWire(b));
      assert [a[0]][1..] == [];
    }
  }

  lemma {:induction false} NothingFromDropped(items: seq<Bytes>)
    ensures OnWire(AllDropped(items)) == []
  {
    if items != [] {
      NothingFromDropped(items[1..]);
      assert AllDropped(items)[1..] == AllDropped(items[1..]);
    }
  }

  // ----- the program -----

  /** The stream table, its locked regions, and the steps of the tasks it spawns. */
  class Streams {
    var recs: map<StreamId, Rec>
    var tasks: map<TaskId, Task>
    ghost var halves: map<Half, Trace>

    ghost function View(): State
      reads this
    {
      State(recs, tasks, halves)
    }

    constructor ()
      ensures View() == Init
    {
      recs, tasks, halves := map[], map[], map[];
    }

    /** A record that has the id already is replaced. */
    method Insert(id: StreamId, w: Half)
      requires w !in halves
      modifies this
      ensures View() == AfterInsert(old(View()), id, w)
      ensures id !in old(recs) ==> View() == Apply(old(View()), Step.Insert(id, w))
    {
      recs := recs[id := Rec(Some(w), [], false, w)];
      halves := halves[w := Trace([], [], 0)];
    }

    /** Queues `buf`; starts a write loop if the record has the half. */
    method Write(id: StreamId, buf: Bytes, t: TaskId)
      requires Enabled(View(), Step.Write(id, buf, t))
      modifies this
      ensures View() == Apply(old(View()), Step.Write(id, buf, t))
    {
      if id in recs {
        var r := recs[id];
        recs := recs[id := r.(q := r.q + [buf])];
        halves := Accept(halves, r.born, buf);
        if r.write.Some? {
          recs := recs[id := recs[id].(write := None)];
          tasks := tasks[t := Loop(id, r.write.value, [])];
        }
        assert recs == old(recs)[id := r.(write := None, q := r.q + [buf])];
      }
    }

    /** Takes the half out of the record and shuts it down, or leaves that to the loop. */
    method Remove(id: StreamId, t: TaskId)
      requires Enabled(View(), Step.Remove(id, t))
      modifies this
      ensures View() == Apply(old(View()), Step.Remove(id, t))
    {
      if id in recs {
        var w := recs[id].write;
        if w.Some? {
          recs := recs - {id};
          tasks := tasks[t := Closing(w.value)];
        } else {
          recs := recs[id := recs[id].(ended := true)];
        }
      }
    }

    /** One pass of a write loop through its locked region. */
    method LoopLock(t: TaskId)
      requires Enabled(View(), LoopLocked(t))
      modifies this
      ensures View() == Apply(old(View()), LoopLocked(t))
    {
      var Loop(id, w, items) := tasks[t];
      if id !in recs {
        tasks := tasks[t := Closing(w)];
        return;
      }
      var r := recs[id];
      if r.q == [] {
        if r.ended {
          recs := recs - {id};
          tasks := tasks[t := Closing(w)];
        } else {
          recs := recs[id := r.(write := Some(w))];
          tasks := tasks - {t};
        }
        return;
      }
      recs := recs[id := r.(q := items)];
      tasks := tasks[t := Loop(id, w, r.q)];
    }

    /** `write_all` of the next item in hand: whole, or `sent` bytes and an error. */
    method LoopWriteAll(t: TaskId, sent: Option<nat>)
      requires Enabled(View(), if sent.Some? then LoopFails(t, sent.value) else LoopWrites(t))
      modifies this
      ensures View() == Apply(old(View()), if sent.Some? then LoopFails(t, sent.value) else LoopWrites(t))
    {
      var Loop(id, w, items) := tasks[t];
      if sent.Some? {
        halves := Deliver(halves, w, [Broken(items[0], sent.value)] + AllDropped(items[1..]));
        tasks := tasks[t := Loop(id, w, [])];
      } else {
        halves := Deliver(halves, w, [Wrote(items[0])]);
        tasks := tasks[t := Loop(id, w, items[1..])];
      }
    }

    method Shutdown(t: TaskId)
      requires Enabled(View(), ShutsDown(t))
      modifies this
      ensures View() == Apply(old(View()), ShutsDown(t))
    {
      halves := Shut(halves, tasks[t].w);
      tasks := tasks - {t};
    }
  }
}
