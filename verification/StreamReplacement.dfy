/**
  Inserting a stream under an id that is in use (cli/src/rpc.rs, `Streams::insert`).  The new
  record replaces the old one, and the write loop of the old one, if it runs, goes on.
*/
module StreamReplacement {
  import opened Basics
  import opened RpcStreams

  /** The record under `id` holds its half. */
  ghost predicate Idle(s: State, id: StreamId) { id in s.recs && s.recs[id].write.Some? }

  /** What the invariant says about a half that is not in use yet. */
  ghost predicate Unused(s: State, w: Half) {
    && w !in s.halves
    && (forall i :: i in s.recs ==> s.recs[i].write != Some(w) && s.recs[i].born != w)
    && (forall t :: t in s.tasks ==> s.tasks[t].w != w)
  }

  lemma NewIsUnused(s: State, w: Half)
    requires Owned(s) && w !in s.halves
    ensures Unused(s, w)
  {
    forall i | i in s.recs ensures s.recs[i].write != Some(w) && s.recs[i].born != w { assert RecOk(s, s.recs[i]); }
    forall t | t in s.tasks ensures s.tasks[t].w != w { assert TaskOk(s, s.tasks[t]); }
  }

  lemma RecordHasHalf(s: State, id: StreamId)
    requires Owned(s) && id in s.recs
    ensures s.recs[id].born in s.halves && (Idle(s, id) ==> s.recs[id].write == Some(s.recs[id].born))
  {
    assert RecOk(s, s.recs[id]);
  }

  // ----- owners -----

  lemma NewHalfHasOwner(s: State, id: StreamId, w: Half)
    requires Unused(s, w)
    ensures Owners(AfterInsert(s, id, w), w) == 1
  {
    var s' := AfterInsert(s, id, w);
    assert RecordsOf(s', w) == {id};
    assert TasksOf(s', w) == {};
  }

  lemma HoldersAfterInsert(s: State, id: StreamId, w: Half, h: Half)
    requires h != w
    ensures var s' := AfterInsert(s, id, w);
            RecordsOf(s', h) == RecordsOf(s, h) - {id} && TasksOf(s', h) == TasksOf(s, h)
  {
  }

  lemma WithoutOne<T>(xs: set<T>, x: T)
    ensures |xs - {x}| == |xs| - (if x in xs then 1 else 0)
  {
    if x !in xs {
      assert xs - {x} == xs;
    }
  }

  lemma OldHalfOwners(s: State, id: StreamId, w: Half, h: Half)
    requires h in s.halves && h != w && Owners(s, h) == 1
    ensures Owners(AfterInsert(s, id, w), h) == if id in s.recs && s.recs[id].write == Some(h) then 0 else 1
  {
    HoldersAfterInsert(s, id, w, h);
    WithoutOne(RecordsOf(s, h), id);
    assert id in RecordsOf(s, h) <==> id in s.recs && s.recs[id].write == Some(h);
  }

  lemma OwnersAfterInsert(run: seq<Step>, id: StreamId, w: Half, h: Half)
    requires ValidRun(Init, run) && w !in Run(Init, run).halves && h in AfterInsert(Run(Init, run), id, w).halves
    ensures var s := Run(Init, run);
            Owners(AfterInsert(s, id, w), h) == if id in s.recs && s.recs[id].write == Some(h) then 0 else 1
  {
    var s := Run(Init, run);
    assert Unused(s, w) by {
      InvRun(Init, run);
      NewIsUnused(s, w);
    }
    if h == w {
      NewHalfHasOwner(s, id, w);
    } else {
      EveryHalfHasOneOwner(run, h);
      OldHalfOwners(s, id, w, h);
    }
  }

  ghost predicate EveryHalfOwned(s: State) { forall h :: h in s.halves ==> Owners(s, h) == 1 }

  /** In every reachable state, inserting a new half leaves every half with one owner exactly
      when no record of that id holds its half; otherwise that half is left without one. */
  lemma InsertKeepsOwnersExactly(run: seq<Step>, id: StreamId, w: Half)
    requires ValidRun(Init, run) && w !in Run(Init, run).halves
    ensures var s, s' := Run(Init, run), AfterInsert(Run(Init, run), id, w);
            && (EveryHalfOwned(s') <==> !Idle(s, id))
            && (Idle(s, id) ==> s.recs[id].write.value in s'.halves && Owners(s', s.recs[id].write.value) == 0)
  {
    var s := Run(Init, run);
    var s' := AfterInsert(s, id, w);
    forall h | h in s'.halves
      ensures Owners(s', h) == if id in s.recs && s.recs[id].write == Some(h) then 0 else 1
    {
      OwnersAfterInsert(run, id, w, h);
    }
    assert Idle(s, id) ==> s.recs[id].write.value in s.halves by {
      InvRun(Init, run);
      if Idle(s, id) {
        RecordHasHalf(s, id);
      }
    }
  }

  // ----- accepted writes -----

  /** The writes accepted for a half were handled, are in a loop's hand, or are queued. */
  ghost predicate Accounted(s: State, w: Half)
    requires w in s.halves
  {
    Items(s.halves[w].log) + InHand(s, w) + Queued(s, w) == s.halves[w].accepted
  }

  ghost predicate EveryWriteAccounted(s: State) { forall h :: h in s.halves ==> Accounted(s, h) }

  lemma SameHand(s: State, id: StreamId, w: Half, h: Half)
    requires Distinct(s.recs, s.tasks)
    ensures InHand(AfterInsert(s, id, w), h) == InHand(s, h)
  {
    var s' := AfterInsert(s, id, w);
    forall t ensures HasHalf(s', t, h) <==> HasHalf(s, t, h) {}
    if t :| HasHalf(s, t, h) && s.tasks[t].Loop? {
      assert HasHalf(s', t, h);
    }
  }

  lemma QueueAfterInsert(s: State, id: StreamId, w: Half, h: Half)
    requires Distinct(s.recs, s.tasks) && Unused(s, w)
    ensures Queued(AfterInsert(s, id, w), h) ==
            if h == w || (id in s.recs && s.recs[id].born == h) then [] else Queued(s, h)
  {
    var s' := AfterInsert(s, id, w);
    if h == w {
      assert BornWith(s', id, w);
    } else {
      forall i ensures BornWith(s', i, h) <==> i != id && BornWith(s, i, h) {}
      if i :| BornWith(s, i, h) && i != id {
        assert BornWith(s', i, h);
      }
    }
  }

  lemma ShorterBy<T>(a: seq<T>, b: seq<T>)
    ensures a + [] == a + b <==> b == []
  {
    assert |a + b| == |a| + |b|;
  }

  lemma AccountedAfterInsert(s: State, id: StreamId, w: Half, h: Half)
    requires Distinct(s.recs, s.tasks) && Unused(s, w) && (h == w || (h in s.halves && Accounted(s, h)))
    ensures Accounted(AfterInsert(s, id, w), h) <==> id in s.recs && s.recs[id].born == h ==> s.recs[id].q == []
  {
    SameHand(s, id, w, h);
    QueueAfterInsert(s, id, w, h);
    if h == w {
      assert InHand(s, w) == [];
    } else if id in s.recs && s.recs[id].born == h {
      assert BornWith(s, id, h) && Queued(s, h) == s.recs[id].q;
      ShorterBy(Items(s.halves[h].log) + InHand(s, h), s.recs[id].q);
    }
  }

  /** In every reachable state, inserting a new half leaves every accepted write accounted for
      exactly when the record it replaces, if any, has nothing queued. */
  lemma InsertKeepsWritesExactly(run: seq<Step>, id: StreamId, w: Half)
    requires ValidRun(Init, run) && w !in Run(Init, run).halves
    ensures var s := Run(Init, run);
            EveryWriteAccounted(AfterInsert(s, id, w)) <==> id in s.recs ==> s.recs[id].q == []
  {
    var s := Run(Init, run);
    var s' := AfterInsert(s, id, w);
    assert Distinct(s.recs, s.tasks) && Unused(s, w) && (id in s.recs ==> s.recs[id].born in s.halves) by {
      InvRun(Init, run);
      NewIsUnused(s, w);
      if id in s.recs {
        RecordHasHalf(s, id);
      }
    }
    forall h | h in s'.halves
      ensures Accounted(s', h) <==> id in s.recs && s.recs[id].born == h ==> s.recs[id].q == []
    {
      if h != w {
        WritesStayInOrder(run, h);
      }
      AccountedAfterInsert(s, id, w, h);
    }
    if id in s.recs {
      assert s.recs[id].born in s'.halves;
    }
  }

  // ----- a loop that goes on -----

  /** A loop that finds a new record under its id with nothing queued gives its half back to
      it, over the half that the record was inserted with. */
  lemma GiveBackDrops(s: State, t: TaskId, w: Half)
    requires Unused(s, w) && t in s.tasks && s.tasks[t].Loop? && s.tasks[t].items == []
    ensures var s' := AfterInsert(s, s.tasks[t].id, w);
            Enabled(s', LoopLocked(t)) && w in AfterLoopLocked(s', t).halves && Owners(AfterLoopLocked(s', t), w) == 0
  {
    var end := AfterLoopLocked(AfterInsert(s, s.tasks[t].id, w), t);
    assert RecordsOf(end, w) == {};
    assert TasksOf(end, w) == {};
  }

  /** Draining its hand, a loop does not notice the insertion. */
  lemma DrainsAfterInsert(s: State, t: TaskId, w: Half)
    requires Unused(s, w) && t in s.tasks && s.tasks[t].Loop? && s.tasks[t].w in s.halves
    ensures var Loop(id, b, items) := s.tasks[t];
            var s1 := s.(tasks := s.tasks[t := Loop(id, b, [])], halves := Deliver(s.halves, b, WroteAll(items)));
            && ValidRun(AfterInsert(s, id, w), Writes(t, |items|)) && Unused(s1, w)
            && Run(AfterInsert(s, id, w), Writes(t, |items|)) == AfterInsert(s1, id, w)
  {
    var Loop(id, b, items) := s.tasks[t];
    DrainsHand(AfterInsert(s, id, w), t);
    assert Deliver(s.halves[w := Trace([], [], 0)], b, WroteAll(items))
        == Deliver(s.halves, b, WroteAll(items))[w := Trace([], [], 0)];
  }

  lemma ReachableLoop(before: seq<Step>, t: TaskId, w: Half)
    requires ValidRun(Init, before) && w !in Run(Init, before).halves
    requires t in Run(Init, before).tasks && Run(Init, before).tasks[t].Loop?
    ensures var s := Run(Init, before); Unused(s, w) && s.tasks[t].w in s.halves && s.halves[s.tasks[t].w].shut == 0
  {
    InvRun(Init, before);
    NewIsUnused(Run(Init, before), w);
    LoopsAreRunning(before, t);
  }

  /** In every reachable state where a write loop runs under the id, inserting a new half can
      lose it: if the loop just goes on, it gives its own half back over the new one. */
  lemma GiveBackDropsNewHalf(before: seq<Step>, t: TaskId, w: Half) returns (run: seq<Step>)
    requires ValidRun(Init, before) && w !in Run(Init, before).halves
    requires t in Run(Init, before).tasks && Run(Init, before).tasks[t].Loop?
    ensures var s := AfterInsert(Run(Init, before), Run(Init, before).tasks[t].id, w);
            && OwnSteps(run, t) && ValidRun(s, run) && w in Run(s, run).halves && Owners(Run(s, run), w) == 0
  {
    var s := Run(Init, before);
    ReachableLoop(before, t, w);
    DrainsAfterInsert(s, t, w);
    var Loop(id, b, items) := s.tasks[t];
    var s1 := s.(tasks := s.tasks[t := Loop(id, b, [])], halves := Deliver(s.halves, b, WroteAll(items)));
    GiveBackDrops(s1, t, w);
    var last := [LoopLocked(t)];
    assert last[1..] == [];
    RunAppend(AfterInsert(s, id, w), Writes(t, |items|), last);
    run := Writes(t, |items|) + last;
  }

  /** Every half has one owner after the run. */
  ghost predicate OwnedAfter(s: State, run: seq<Step>) { ValidRun(s, run) ==> EveryHalfOwned(Run(s, run)) }

  lemma FreshIdIsSafe(before: seq<Step>, id: StreamId, w: Half, run: seq<Step>)
    requires ValidRun(Init, before) && Enabled(Run(Init, before), Insert(id, w))
    ensures OwnedAfter(AfterInsert(Run(Init, before), id, w), run)
  {
    var s' := AfterInsert(Run(Init, before), id, w);
    if ValidRun(s', run) {
      forall h | h in Run(s', run).halves ensures Owners(Run(s', run), h) == 1 {
        InvRun(Init, before);
        InvStep(Run(Init, before), Insert(id, w));
        InvRun(s', run);
        OneOwner(Run(s', run), h);
      }
    }
  }

  lemma UsedIdIsUnsafe(before: seq<Step>, id: StreamId, w: Half) returns (run: seq<Step>)
    requires ValidRun(Init, before) && w !in Run(Init, before).halves && id in Run(Init, before).recs
    ensures !OwnedAfter(AfterInsert(Run(Init, before), id, w), run)
  {
    var s := Run(Init, before);
    if Idle(s, id) {
      InsertKeepsOwnersExactly(before, id, w);
      run := [];
    } else {
      InvRun(Init, before);
      var t := LoopOf(s, id);
      run := GiveBackDropsNewHalf(before, t, w);
    }
  }

  /** In every reachable state, inserting a new half leaves every half with one owner, whatever
      happens later, exactly when the id has no record. */
  lemma InsertNeedsFreshId(before: seq<Step>, id: StreamId, w: Half)
    requires ValidRun(Init, before) && w !in Run(Init, before).halves
    ensures var s := Run(Init, before);
            (forall run :: OwnedAfter(AfterInsert(s, id, w), run)) <==> id !in s.recs
  {
    if id in Run(Init, before).recs {
      var run := UsedIdIsUnsafe(before, id, w);
    } else {
      forall run ensures OwnedAfter(AfterInsert(Run(Init, before), id, w), run) {
        FreshIdIsSafe(before, id, w, run);
      }
    }
  }

  // ----- accepted writes, whatever happens later -----

  /** No record and no task is about the half. */
  ghost predicate Orphan(s: State, b: Half) {
    && b in s.halves
    && (forall i :: i in s.recs ==> s.recs[i].born != b && s.recs[i].write != Some(b))
    && (forall t :: t in s.tasks ==> s.tasks[t].w != b)
  }

  /** Every half but `b` is held, and the writes of `b` were all handled. */
  ghost predicate OnlyOrphan(s: State, b: Half) {
    && Owned(s) && Conserved(s) && Orphan(s, b) && AllHandled(s, b)
    && (forall h :: h in s.halves && h != b ==> HeldBySome(s, h))
  }

  /** Nothing touches an orphan. */
  lemma OrphanUntouched(s: State, e: Step, b: Half)
    requires Orphan(s, b) && Enabled(s, e)
    ensures Orphan(Apply(s, e), b) && Apply(s, e).halves[b] == s.halves[b]
  {
  }

  lemma OrphanStep(s: State, e: Step, b: Half)
    requires OnlyOrphan(s, b) && Enabled(s, e)
    ensures OnlyOrphan(Apply(s, e), b)
  {
    OrphanUntouched(s, e, b);
    ConservedStep(s, e);
    forall h | h in Apply(s, e).halves && h != b
      ensures HeldBySome(Apply(s, e), h)
    {
      HalfStaysHeld(s, e, h);
    }
  }

  lemma {:induction false} OrphanRun(s: State, run: seq<Step>, b: Half)
    requires OnlyOrphan(s, b) && ValidRun(s, run)
    ensures OnlyOrphan(Run(s, run), b)
    decreases |run|
  {
    if run != [] {
      OrphanStep(s, run[0], b);
      OrphanRun(Apply(s, run[0]), run[1..], b);
    }
  }

  lemma OrphanIsAccounted(s: State, b: Half)
    requires OnlyOrphan(s, b)
    ensures EveryWriteAccounted(s)
  {
    forall h | h in s.halves ensures Accounted(s, h) {
      if h == b {
        assert InHand(s, b) == [] && Queued(s, b) == [];
      } else {
        InOrder(s, h);
      }
    }
  }

  /** Replacing a record that holds its half orphans that half and keeps everything else. */
  lemma ReplacedIsOnlyOrphan(s: State, id: StreamId, w: Half)
    requires Inv(s) && w !in s.halves && Idle(s, id)
    ensures OnlyOrphan(AfterInsert(s, id, w), s.recs[id].born)
  {
    var b := s.recs[id].born;
    assert RecOk(s, s.recs[id]) && AllHandled(s, b);
    OrphanConserves(s, id, w);
    forall i | i in s.recs && i != id ensures s.recs[i].born != b && s.recs[i].write != Some(b) {
      assert RecOk(s, s.recs[i]);
    }
    forall h | h in AfterInsert(s, id, w).halves && h != b
      ensures HeldBySome(AfterInsert(s, id, w), h)
    {
      StillHeld(s, id, w, h);
    }
  }

  lemma OrphanConserves(s: State, id: StreamId, w: Half)
    requires Owned(s) && Conserved(s) && w !in s.halves && Idle(s, id)
    ensures Owned(AfterInsert(s, id, w)) && Conserved(AfterInsert(s, id, w))
    ensures forall t :: t in s.tasks ==> s.tasks[t].w != s.recs[id].born
  {
    var r := s.recs[id];
    assert RecOk(s, r);
    var rest := s.(recs := s.recs - {id});
    forall t | t in s.tasks ensures s.tasks[t].w != r.born && (s.tasks[t].Loop? ==> s.tasks[t].id != id) {
      assert TaskOk(s, s.tasks[t]);
    }
    assert Owned(rest) && Conserved(rest) by {
      WithoutIdle(s, id);
    }
    assert AfterInsert(rest, id, w) == AfterInsert(s, id, w) by {
      assert rest.recs[id := Rec(Some(w), [], false, w)] == s.recs[id := Rec(Some(w), [], false, w)];
    }
    OwnedInsert(rest, id, w);
    ConservedInsert(rest, id, w);
  }

  lemma WithoutIdle(s: State, id: StreamId)
    requires Owned(s) && Conserved(s) && id in s.recs
    requires forall t :: t in s.tasks && s.tasks[t].Loop? ==> s.tasks[t].id != id
    ensures Owned(s.(recs := s.recs - {id})) && Conserved(s.(recs := s.recs - {id}))
  {
    var rest := s.(recs := s.recs - {id});
    forall i | i in rest.recs ensures RecOk(rest, rest.recs[i]) { assert RecOk(s, s.recs[i]); }
    forall t | t in rest.tasks ensures TaskOk(rest, rest.tasks[t]) { assert TaskOk(s, s.tasks[t]); }
    forall t | t in rest.tasks && rest.tasks[t].Loop? ensures LoopKept(rest, rest.tasks[t]) {
      assert LoopKept(s, s.tasks[t]);
    }
  }

  lemma StillHeld(s: State, id: StreamId, w: Half, h: Half)
    requires Inv(s) && h in AfterInsert(s, id, w).halves && (id in s.recs ==> h != s.recs[id].born)
    ensures HeldBySome(AfterInsert(s, id, w), h)
  {
    var s' := AfterInsert(s, id, w);
    if h == w {
      assert InRecord(s', id, w);
    } else {
      assert HeldBySome(s, h);
      if i :| InRecord(s, i, h) {
        assert RecOk(s, s.recs[i]);
        assert InRecord(s', i, h);
      } else if t :| HasHalf(s, t, h) {
        assert HasHalf(s', t, h);
      }
    }
  }

  /** Every accepted write is accounted for after the run. */
  ghost predicate AccountedAfter(s: State, run: seq<Step>) { ValidRun(s, run) ==> EveryWriteAccounted(Run(s, run)) }

  lemma UnlessLoopRuns(before: seq<Step>, id: StreamId, w: Half, run: seq<Step>)
    requires ValidRun(Init, before) && w !in Run(Init, before).halves
    requires id in Run(Init, before).recs ==> Idle(Run(Init, before), id)
    ensures AccountedAfter(AfterInsert(Run(Init, before), id, w), run)
  {
    var s := Run(Init, before);
    var s' := AfterInsert(s, id, w);
    if ValidRun(s', run) {
      InvRun(Init, before);
      if id in s.recs {
        ReplacedIsOnlyOrphan(s, id, w);
        OrphanRun(s', run, s.recs[id].born);
        OrphanIsAccounted(Run(s', run), s.recs[id].born);
      } else {
        InvStep(s, Insert(id, w));
        InvRun(s', run);
        InvAccounts(Run(s', run));
      }
    }
  }

  lemma InvAccounts(s: State)
    requires Inv(s)
    ensures EveryWriteAccounted(s)
  {
    forall h | h in s.halves ensures Accounted(s, h) { InOrder(s, h); }
  }

  /** The loop's next steps when a write comes in for the new stream: it is keyed by the id, so
      it takes the write and puts it on its own half. */
  lemma TakesNewWrite(s: State, t: TaskId, w: Half, buf: Bytes, u: TaskId) returns (run: seq<Step>)
    requires Unused(s, w) && t in s.tasks && u !in s.tasks
    requires s.tasks[t].Loop? && s.tasks[t].items == [] && s.tasks[t].w in s.halves
    ensures var Loop(id, b, _) := s.tasks[t];
            var s' := AfterInsert(s, id, w);
            && ValidRun(s', run)
            && Run(s', run) == State(s.recs[id := Rec(None, [], false, w)], s.tasks[u := Loop(id, w, [])],
                                     Deliver(s.halves, b, [Wrote(buf)])[w := Trace([buf], [], 0)])
  {
    var Loop(id, b, _) := s.tasks[t];
    var s' := AfterInsert(s, id, w);
    var tasks := s.tasks[u := Loop(id, w, [])];
    var halves := s.halves[w := Trace([buf], [], 0)];
    var s1 := State(s.recs[id := Rec(None, [buf], false, w)], tasks, halves);
    var s2 := State(s.recs[id := Rec(None, [], false, w)], tasks[t := Loop(id, b, [buf])], halves);
    var s3 := State(s2.recs, tasks, Deliver(halves, b, [Wrote(buf)]));
    assert Apply(s', Write(id, buf, u)) == s1 by {
      assert [] + [buf] == [buf];
      assert s'.recs[id := Rec(None, [buf], false, w)] == s1.recs;
    }
    assert Apply(s1, LoopLocked(t)) == s2;
    assert Apply(s2, LoopWrites(t)) == s3 by {
      assert [buf][1..] == [];
      assert s2.tasks[t := Loop(id, b, [])] == tasks;
    }
    RunCons(s2, LoopWrites(t), []);
    run := [LoopWrites(t)] + [];
    RunCons(s1, LoopLocked(t), run);
    run := [LoopLocked(t)] + run;
    RunCons(s', Write(id, buf, u), run);
    run := [Write(id, buf, u)] + run;
  }

  /** In every reachable state where a write loop runs under the id, a write accepted for the
      new stream can be delivered to the old half instead: the new half then has a write
      accepted that was not handled, is in no hand and is not queued. */
  lemma OldHalfGetsNewWrite(before: seq<Step>, t: TaskId, w: Half, buf: Bytes, u: TaskId) returns (run: seq<Step>)
    requires ValidRun(Init, before) && w !in Run(Init, before).halves && u !in Run(Init, before).tasks
    requires t in Run(Init, before).tasks && Run(Init, before).tasks[t].Loop?
    ensures var s := Run(Init, before);
            var Loop(id, b, items) := s.tasks[t];
            var s' := AfterInsert(s, id, w);
            && ValidRun(s', run) && b in s.halves && b in Run(s', run).halves && w in Run(s', run).halves
            && Run(s', run).halves[w] == Trace([buf], [], 0)
            && Run(s', run).halves[b].log == s.halves[b].log + WroteAll(items) + [Wrote(buf)]
            && Run(s', run).halves[b].accepted == s.halves[b].accepted
            && !Accounted(Run(s', run), w)
  {
    var s := Run(Init, before);
    ReachableLoop(before, t, w);
    var Loop(id, b, items) := s.tasks[t];
    var s' := AfterInsert(s, id, w);
    var s1 := s.(tasks := s.tasks[t := Loop(id, b, [])], halves := Deliver(s.halves, b, WroteAll(items)));
    DrainsAfterInsert(s, t, w);
    var rest := TakesNewWrite(s1, t, w, buf, u);
    RunAppend(s', Writes(t, |items|), rest);
    run := Writes(t, |items|) + rest;
    UnaccountedWrite(Run(s', run), id, w, buf, u);
  }

  lemma UnaccountedWrite(s: State, id: StreamId, w: Half, buf: Bytes, u: TaskId)
    requires w in s.halves && s.halves[w] == Trace([buf], [], 0)
    requires id in s.recs && s.recs[id] == Rec(None, [], false, w) && u in s.tasks && s.tasks[u] == Loop(id, w, [])
    requires forall i :: i in s.recs && s.recs[i].born == w ==> i == id
    requires forall t :: t in s.tasks && s.tasks[t].w == w ==> t == u
    ensures !Accounted(s, w)
  {
    assert BornWith(s, id, w) && Queued(s, w) == [];
    assert HasHalf(s, u, w) && InHand(s, w) == [];
  }

  /** In every reachable state, inserting a new half leaves every accepted write accounted for,
      whatever happens later, exactly when no write loop runs for the id. */
  lemma WritesNeedNoRunningLoop(before: seq<Step>, id: StreamId, w: Half)
    requires ValidRun(Init, before) && w !in Run(Init, before).halves
    ensures var s := Run(Init, before);
            (forall run :: AccountedAfter(AfterInsert(s, id, w), run)) <==> id !in s.recs || s.recs[id].write.Some?
  {
    var s := Run(Init, before);
    if id in s.recs && s.recs[id].write.None? {
      var run := RunningLoopMisdelivers(before, id, w);
    } else {
      forall run ensures AccountedAfter(AfterInsert(s, id, w), run) {
        UnlessLoopRuns(before, id, w, run);
      }
    }
  }

  lemma RunningLoopMisdelivers(before: seq<Step>, id: StreamId, w: Half) returns (run: seq<Step>)
    requires ValidRun(Init, before) && w !in Run(Init, before).halves
    requires id in Run(Init, before).recs && Run(Init, before).recs[id].write.None?
    ensures !AccountedAfter(AfterInsert(Run(Init, before), id, w), run)
  {
    var t := LoopIn(before, id);
    var u := NewTask(Run(Init, before).tasks.Keys);
    run := OldHalfGetsNewWrite(before, t, w, [], u);
  }

  lemma LoopIn(before: seq<Step>, id: StreamId) returns (t: TaskId)
    requires ValidRun(Init, before) && id in Run(Init, before).recs && Run(Init, before).recs[id].write.None?
    ensures t in Run(Init, before).tasks && Run(Init, before).tasks[t].Loop? && Run(Init, before).tasks[t].id == id
  {
    InvRun(Init, before);
    t := LoopOf(Run(Init, before), id);
  }

  /** There is always another task id. */
  lemma {:induction false} NewTask(used: set<TaskId>) returns (u: TaskId)
    ensures u !in used
    ensures forall t :: t in used ==> t < u
    decreases |used|
  {
    u := 0;
    if used != {} {
      var t :| t in used;
      var v := NewTask(used - {t});
      u := if t < v then v else t + 1;
      forall x | x in used ensures x < u {
        assert x == t || x in used - {t};
      }
    }
  }

  // ----- a loop that comes too late -----

  lemma ClosesBoth(s: State, t: TaskId, u: TaskId) returns (run: seq<Step>)
    requires t in s.tasks && s.tasks[t].Loop? && s.tasks[t].items == [] && s.tasks[t].id !in s.recs
    requires u in s.tasks && s.tasks[u].Closing?
    ensures ValidRun(s, run)
    ensures Run(s, run) == s.(tasks := s.tasks - {t} - {u}, halves := Shut(Shut(s.halves, s.tasks[t].w), s.tasks[u].w))
  {
    var b := s.tasks[t].w;
    var s1 := s.(tasks := s.tasks[t := Closing(b)]);
    var s2 := s.(tasks := s.tasks - {t}, halves := Shut(s.halves, b));
    assert Apply(s, LoopLocked(t)) == s1;
    assert s1.tasks - {t} == s.tasks - {t};
    assert Apply(s1, ShutsDown(t)) == s2;
    run := [ShutsDown(u)];
    assert run[1..] == [];
    RunCons(s2, ShutsDown(u), []);
    RunCons(s1, ShutsDown(t), run);
    run := [ShutsDown(t)] + run;
    RunCons(s, LoopLocked(t), run);
    run := [LoopLocked(t)] + run;
  }

  lemma RunCons(s: State, e: Step, rest: seq<Step>)
    requires Enabled(s, e) && ValidRun(Apply(s, e), rest)
    ensures ValidRun(s, [e] + rest) && Run(s, [e] + rest) == Run(Apply(s, e), rest)
  {
    assert ([e] + rest)[1..] == rest;
  }

  /** It need not come to a loss: if the stream is removed before the loop takes its lock again,
      both halves end up shut down, once each, with every write in the loop's hand written. */
  lemma RemovalSavesNewHalf(before: seq<Step>, t: TaskId, w: Half, u: TaskId) returns (run: seq<Step>)
    requires ValidRun(Init, before) && w !in Run(Init, before).halves && u !in Run(Init, before).tasks
    requires t in Run(Init, before).tasks && Run(Init, before).tasks[t].Loop?
    ensures var s := Run(Init, before);
            var Loop(id, b, items) := s.tasks[t];
            var s' := AfterInsert(s, id, w);
            && ValidRun(s', run) && b in s.halves && b != w
            && Run(s', run) == State(s.recs - {id}, s.tasks - {t},
                                     s.halves[b := Trace(s.halves[b].accepted, s.halves[b].log + WroteAll(items), 1)]
                                             [w := Trace([], [], 1)])
  {
    var s := Run(Init, before);
    ReachableLoop(before, t, w);
    var Loop(id, b, items) := s.tasks[t];
    var s' := AfterInsert(s, id, w);
    var s1 := State(s.recs - {id}, s.tasks[u := Closing(w)], s.halves[w := Trace([], [], 0)]);
    assert s'.recs - {id} == s.recs - {id};
    assert Apply(s', Remove(id, u)) == s1;
    var rest := DrainsAndCloses(s1, t, u);
    run := [Remove(id, u)] + rest;
    RunCons(s', Remove(id, u), rest);
    assert s.tasks[u := Closing(w)] - {t} - {u} == s.tasks - {t};
  }

  /** A loop whose record is gone writes out its hand; then it and the other task close. */
  lemma DrainsAndCloses(s: State, t: TaskId, u: TaskId) returns (run: seq<Step>)
    requires t in s.tasks && s.tasks[t].Loop? && s.tasks[t].id !in s.recs && s.tasks[t].w in s.halves
    requires u in s.tasks && s.tasks[u].Closing?
    ensures ValidRun(s, run)
    ensures var Loop(id, b, items) := s.tasks[t];
            Run(s, run) == s.(tasks := s.tasks - {t} - {u},
                              halves := Shut(Shut(Deliver(s.halves, b, WroteAll(items)), b), s.tasks[u].w))
  {
    var Loop(id, b, items) := s.tasks[t];
    DrainsHand(s, t);
    var drain := Writes(t, |items|);
    var tail := ClosesBoth(Run(s, drain), t, u);
    RunAppend(s, drain, tail);
    run := drain + tail;
    assert s.tasks[t := Loop(id, b, [])] - {t} - {u} == s.tasks - {t} - {u};
  }
}
