/**
  Outbound calls and their responses (cli/src/rpc.rs, `RpcCaller::call`,
  `next_message_id` and the response branches of `dispatch_with_partial`).

  A call takes an id, sends its request, and only then registers its callback; another
  thread may dispatch responses between any two of these steps.
*/
module RpcCalls {
  import opened Basics

  type Id = nat
  type CallNo = nat

  /** The message id counter is an unsigned 32-bit atomic. */
  const ID_SPACE: nat := 0x1_0000_0000

  datatype Outcome = Failed(code: int, message: string) | Succeeded(body: Bytes)

  datatype Phase = Allocated | Sent | Refused | Registered | Panicked

  datatype Firing = Firing(id: Id, outcome: Outcome)

  /** One invocation of `call`, with the history of its callback's invocations.  `no` counts
      the ids issued before its own. */
  datatype Call = Call(no: nat, id: Id, phase: Phase, fired: seq<Firing>)

  /** `issued` counts the ids ever taken; `poisoned` is set when a dispatch panics while
      it holds the lock of the pending table. */
  datatype State = State(issued: nat, pending: map<Id, CallNo>, calls: map<CallNo, Call>, poisoned: bool)

  const Init := State(0, map[], map[], false)

  datatype Step =
    | Alloc(c: CallNo)
    | AllocStreams(n: nat)
    | Send(c: CallNo, open: bool)
    | Register(c: CallNo)
    | Respond(id: Option<Id>, outcome: Outcome)

  predicate Enabled(s: State, e: Step) {
    match e
    case Alloc(c) => c !in s.calls
    case AllocStreams(_) => true
    case Send(c, _) => c in s.calls && s.calls[c].phase == Allocated
    case Register(c) => c in s.calls && s.calls[c].phase == Sent
    case Respond(_, _) => true
  }

  function IdAt(issued: nat): Id { issued % ID_SPACE }

  function AfterRegister(s: State, c: CallNo): State
    requires c in s.calls
  {
    if s.poisoned then s.(calls := s.calls[c := s.calls[c].(phase := Panicked)])
    else s.(pending := s.pending[s.calls[c].id := c], calls := s.calls[c := s.calls[c].(phase := Registered)])
  }

  function Fire(calls: map<CallNo, Call>, c: CallNo, f: Firing): map<CallNo, Call> {
    if c in calls then calls[c := calls[c].(fired := calls[c].fired + [f])] else calls
  }

  /** A response without an id panics on its missing id with the lock held. */
  function AfterRespond(s: State, id: Option<Id>, outcome: Outcome): State {
    if s.poisoned then s
    else if id.None? then s.(poisoned := true)
    else if id.value in s.pending then
      s.(pending := s.pending - {id.value}, calls := Fire(s.calls, s.pending[id.value], Firing(id.value, outcome)))
    else s
  }

  function Apply(s: State, e: Step): State
    requires Enabled(s, e)
  {
    match e
    case Alloc(c) => s.(issued := s.issued + 1, calls := s.calls[c := Call(s.issued, IdAt(s.issued), Allocated, [])])
    case AllocStreams(n) => s.(issued := s.issued + n)
    case Send(c, open) => s.(calls := s.calls[c := s.calls[c].(phase := if open then Sent else Refused)])
    case Register(c) => AfterRegister(s, c)
    case Respond(id, outcome) => AfterRespond(s, id, outcome)
  }

  ghost predicate ValidRun(s: State, run: seq<Step>)
    decreases |run|
  {
    run == [] || (Enabled(s, run[0]) && ValidRun(Apply(s, run[0]), run[1..]))
  }

  ghost function Run(s: State, run: seq<Step>): State
    requires ValidRun(s, run)
    decreases |run|
  {
    if run == [] then s else Run(Apply(s, run[0]), run[1..])
  }

  // ----- invariants -----

  ghost predicate CallOk(s: State, c: CallNo)
    requires c in s.calls
  {
    var k := s.calls[c];
    && |k.fired| <= 1
    && (k.fired != [] ==> k.phase == Registered && k.fired[0].id == k.id)
  }

  ghost predicate PendingOk(s: State, id: Id)
    requires id in s.pending
  {
    var c := s.pending[id];
    c in s.calls && s.calls[c].id == id && s.calls[c].phase == Registered && s.calls[c].fired == []
  }

  /** Holds however many ids were issued. */
  ghost predicate Inv(s: State) {
    && (forall c :: c in s.calls ==> CallOk(s, c))
    && (forall id :: id in s.pending ==> PendingOk(s, id))
  }

  /** Calls are numbered apart, and have the id of their number. */
  ghost predicate Numbered(s: State) {
    && (forall c :: c in s.calls ==> s.calls[c].no < s.issued && s.calls[c].id == IdAt(s.calls[c].no))
    && (forall c, d :: c in s.calls && d in s.calls && s.calls[c].no == s.calls[d].no ==> c == d)
  }

  /** A registered callback is in the table until it fires. */
  ghost predicate Kept(s: State) {
    forall c :: c in s.calls && s.calls[c].phase == Registered && s.calls[c].fired == [] ==> Waiting(s, c)
  }

  ghost predicate Waiting(s: State, c: CallNo) {
    c in s.calls && s.calls[c].id in s.pending && s.pending[s.calls[c].id] == c
  }

  lemma InvStep(s: State, e: Step)
    requires Inv(s) && Enabled(s, e)
    ensures Inv(Apply(s, e))
  {
    if e.Respond? && e.id.Some? && e.id.value in s.pending {
      assert PendingOk(s, e.id.value);
    }
  }

  lemma {:induction false} InvRun(s: State, run: seq<Step>)
    requires Inv(s) && ValidRun(s, run)
    ensures Inv(Run(s, run)) && s.issued <= Run(s, run).issued
    decreases |run|
  {
    if run != [] {
      InvStep(s, run[0]);
      InvRun(Apply(s, run[0]), run[1..]);
    }
  }

  // ----- what every run guarantees -----

  /** However many ids were issued, a callback fires at most once, and only with a response
      that carries the id of its call. */
  lemma FiresAtMostOnceWithOwnId(run: seq<Step>, c: CallNo)
    requires ValidRun(Init, run) && c in Run(Init, run).calls
    ensures var k := Run(Init, run).calls[c];
            |k.fired| <= 1 && (k.fired != [] ==> k.fired[0].id == k.id)
  {
    InvRun(Init, run);
    assert CallOk(Run(Init, run), c);
  }

  /** Two numbers give the same message id exactly when they differ by a multiple of 2^32. */
  lemma IdsRepeatExactly(i: nat, j: nat)
    requires i <= j
    ensures IdAt(i) == IdAt(j) <==> (j - i) % ID_SPACE == 0
  {
    var d := j - i;
    assert j == i + d;
    assert i == ID_SPACE * (i / ID_SPACE) + i % ID_SPACE;
    assert d == ID_SPACE * (d / ID_SPACE) + d % ID_SPACE;
    assert j == ID_SPACE * (j / ID_SPACE) + j % ID_SPACE;
  }

  lemma {:induction false} NumberedRun(s: State, run: seq<Step>)
    requires Numbered(s) && ValidRun(s, run)
    ensures Numbered(Run(s, run))
    decreases |run|
  {
    if run != [] {
      NumberedRun(Apply(s, run[0]), run[1..]);
    }
  }

  /** In every run, two calls share an id exactly when the numbers of their ids are a multiple
      of 2^32 apart; so they never do before that many ids were issued. */
  lemma SharedIdExactly(run: seq<Step>, c: CallNo, d: CallNo)
    requires ValidRun(Init, run) && c in Run(Init, run).calls && d in Run(Init, run).calls && c != d
    ensures var s := Run(Init, run);
            var apart := if s.calls[c].no <= s.calls[d].no then s.calls[d].no - s.calls[c].no
                         else s.calls[c].no - s.calls[d].no;
            && apart > 0
            && (s.calls[c].id == s.calls[d].id <==> apart % ID_SPACE == 0)
            && (s.issued <= ID_SPACE ==> s.calls[c].id != s.calls[d].id)
  {
    NumberedRun(Init, run);
    var s := Run(Init, run);
    if s.calls[c].no <= s.calls[d].no {
      IdsRepeatExactly(s.calls[c].no, s.calls[d].no);
    } else {
      IdsRepeatExactly(s.calls[d].no, s.calls[c].no);
    }
  }

  /** How many ids the steps of a run take from the counter. */
  function IdsTaken(run: seq<Step>): nat {
    if run == [] then 0
    else (match run[0] case Alloc(_) => 1 case AllocStreams(n) => n case _ => 0) + IdsTaken(run[1..])
  }

  lemma {:induction false} IssuedRun(s: State, run: seq<Step>)
    requires ValidRun(s, run)
    ensures Run(s, run).issued == s.issued + IdsTaken(run)
    decreases |run|
  {
    if run != [] {
      IssuedRun(Apply(s, run[0]), run[1..]);
    }
  }

  /** In every run, a call has the id that the counter has after all ids taken before. */
  lemma CallHasNextId(before: seq<Step>, c: CallNo, after: seq<Step>)
    requires ValidRun(Init, before + ([Alloc(c)] + after))
    ensures var calls := Run(Init, before + ([Alloc(c)] + after)).calls;
            c in calls && calls[c].id == IdsTaken(before) % 0x1_0000_0000
  {
    RunAppend(Init, before, [Alloc(c)] + after);
    IssuedRun(Init, before);
    var s := Run(Init, before);
    assert ([Alloc(c)] + after)[1..] == after;
    IdIsStable(Apply(s, Alloc(c)), after);
  }

  /** In every run, a call whose request could not be sent never registers and never completes. */
  lemma RefusedCallEnds(before: seq<Step>, c: CallNo, after: seq<Step>)
    requires ValidRun(Init, before + ([Send(c, false)] + after))
    ensures forall k :: 0 <= k < |after| ==> after[k] != Register(c)
    ensures OutcomeOf(Run(Init, before + ([Send(c, false)] + after)), c) == None
  {
    RunAppend(Init, before, [Send(c, false)] + after);
    var s := Run(Init, before);
    InvRun(Init, before);
    assert ([Send(c, false)] + after)[1..] == after;
    assert CallOk(s, c);
    InvStep(s, Send(c, false));
    RefusedStays(Apply(s, Send(c, false)), after, c);
  }

  lemma {:induction false} RefusedStays(s: State, run: seq<Step>, c: CallNo)
    requires Inv(s) && ValidRun(s, run) && c in s.calls && s.calls[c].phase == Refused && s.calls[c].fired == []
    ensures forall k :: 0 <= k < |run| ==> run[k] != Register(c)
    ensures c in Run(s, run).calls && Run(s, run).calls[c] == s.calls[c]
    decreases |run|
  {
    if run != [] {
      InvStep(s, run[0]);
      if run[0].Respond? && run[0].id.Some? && run[0].id.value in s.pending {
        assert PendingOk(s, run[0].id.value);
      }
      RefusedStays(Apply(s, run[0]), run[1..], c);
      assert forall k :: 0 < k < |run| ==> run[k] == run[1..][k - 1];
    }
  }

  // ----- which responses matter -----

  /** Some call with the id registered after the last response to it. */
  ghost predicate Unanswered(run: seq<Step>, id: Id, calls: map<CallNo, Call>) {
    exists i :: 0 <= i < |run| && RegistersId(run[i], id, calls) && NoAnswer(run, i + 1, id)
  }

  ghost predicate RegistersId(e: Step, id: Id, calls: map<CallNo, Call>) {
    e.Register? && e.c in calls && calls[e.c].id == id
  }

  ghost predicate NoAnswer(run: seq<Step>, from: nat, id: Id) {
    forall k :: from <= k < |run| ==> !(run[k].Respond? && run[k].id == Some(id))
  }

  /** The ids of the calls are those of a later state. */
  ghost predicate SameIds(s: State, calls: map<CallNo, Call>) {
    forall d :: d in s.calls ==> d in calls && calls[d].id == s.calls[d].id
  }

  lemma {:induction false} IdIsStable(s: State, run: seq<Step>)
    requires ValidRun(s, run)
    ensures SameIds(s, Run(s, run).calls)
    decreases |run|
  {
    if run != [] {
      IdIsStable(Apply(s, run[0]), run[1..]);
    }
  }

  lemma {:induction false} PoisonedForGood(s: State, run: seq<Step>)
    requires ValidRun(s, run) && s.poisoned
    ensures Run(s, run).poisoned
    decreases |run|
  {
    if run != [] {
      PoisonedForGood(Apply(s, run[0]), run[1..]);
    }
  }

  lemma UnansweredCons(run: seq<Step>, id: Id, calls: map<CallNo, Call>)
    requires run != []
    ensures NoAnswer(run, 0, id) <==> !(run[0].Respond? && run[0].id == Some(id)) && NoAnswer(run[1..], 0, id)
    ensures Unanswered(run, id, calls) <==>
            (RegistersId(run[0], id, calls) && NoAnswer(run[1..], 0, id)) || Unanswered(run[1..], id, calls)
  {
    assert forall i: nat :: NoAnswer(run, i + 1, id) <==> NoAnswer(run[1..], i, id) by {
      forall i: nat ensures NoAnswer(run, i + 1, id) <==> NoAnswer(run[1..], i, id) {
        assert forall k :: i + 1 <= k < |run| ==> run[k] == run[1..][k - 1];
        assert forall k :: i <= k < |run| - 1 ==> run[1..][k] == run[k + 1];
      }
    }
    if i :| 0 <= i < |run| && RegistersId(run[i], id, calls) && NoAnswer(run, i + 1, id) {
      if i > 0 {
        assert RegistersId(run[1..][i - 1], id, calls) && NoAnswer(run[1..], i - 1 + 1, id);
      }
    }
    if i :| 0 <= i < |run| - 1 && RegistersId(run[1..][i], id, calls) && NoAnswer(run[1..], i + 1, id) {
      assert RegistersId(run[i + 1], id, calls) && NoAnswer(run, i + 1 + 1, id);
    }
  }

  lemma {:induction false} PendingRun(s: State, run: seq<Step>, id: Id, calls: map<CallNo, Call>)
    requires ValidRun(s, run) && !Run(s, run).poisoned && SameIds(Run(s, run), calls)
    ensures id in Run(s, run).pending <==>
            Unanswered(run, id, calls) || (id in s.pending && NoAnswer(run, 0, id))
    decreases |run|
  {
    if run != [] {
      var s' := Apply(s, run[0]);
      if s'.poisoned {
        PoisonedForGood(s', run[1..]);
      }
      IdIsStable(s, run);
      PendingRun(s', run[1..], id, calls);
      UnansweredCons(run, id, calls);
    }
  }

  lemma {:induction false} RunAppend(s: State, a: seq<Step>, b: seq<Step>)
    ensures ValidRun(s, a + b) <==> ValidRun(s, a) && ValidRun(Run(s, a), b)
    ensures ValidRun(s, a + b) ==> Run(s, a + b) == Run(Run(s, a), b)
    decreases |a|
  {
    if a == [] {
      assert a + b == b;
    } else {
      assert (a + b)[1..] == a[1..] + b;
      if Enabled(s, a[0]) {
        RunAppend(Apply(s, a[0]), a[1..], b);
      }
    }
  }

  /** After a dispatch panicked, no call registers or completes any more. */
  lemma {:induction false} PoisonedTableIsFrozen(s: State, run: seq<Step>, c: CallNo)
    requires ValidRun(s, run) && s.poisoned
    ensures Run(s, run).pending == s.pending && OutcomeOf(Run(s, run), c) == OutcomeOf(s, c)
    ensures c in Run(s, run).calls && Run(s, run).calls[c].phase == Registered ==>
              c in s.calls && s.calls[c].phase == Registered
    decreases |run|
  {
    if run != [] {
      PoisonedTableIsFrozen(Apply(s, run[0]), run[1..], c);
    }
  }

  /** A response with an id changes the state exactly when the table is not poisoned and a
      call with that id registered after the last response to it. */
  lemma ResponseMattersExactly(run: seq<Step>, id: Id, outcome: Outcome)
    requires ValidRun(Init, run)
    ensures var s := Run(Init, run);
            Apply(s, Respond(Some(id), outcome)) != s <==> !s.poisoned && Unanswered(run, id, s.calls)
  {
    var s := Run(Init, run);
    if !s.poisoned {
      PendingRun(Init, run, id, s.calls);
      if id in s.pending {
        assert id !in AfterRespond(s, Some(id), outcome).pending;
      }
    }
  }

  /** So a response that is unknown, or repeats one, can be left out of a run anywhere. */
  lemma StrayResponseCanBeLeftOut(a: seq<Step>, id: Id, outcome: Outcome, b: seq<Step>)
    requires ValidRun(Init, a + ([Respond(Some(id), outcome)] + b)) && ValidRun(Init, a)
    requires !Unanswered(a, id, Run(Init, a).calls)
    ensures ValidRun(Init, a + b) && Run(Init, a + b) == Run(Init, a + ([Respond(Some(id), outcome)] + b))
  {
    var e := Respond(Some(id), outcome);
    ResponseMattersExactly(a, id, outcome);
    RunAppend(Init, a, [e] + b);
    RunAppend(Init, a, b);
    assert ([e] + b)[1..] == b;
  }

  // ----- which calls complete -----

  /** Another call registers under the id of call `c`, and so replaces its callback. */
  ghost predicate Replaces(e: Step, c: CallNo, id: Id, calls: map<CallNo, Call>) {
    RegistersId(e, id, calls) && e.c != c
  }

  /** The response that reaches a registered callback: the first with its id, unless the
      table is poisoned or the callback is replaced before. */
  ghost function FirstResponse(run: seq<Step>, c: CallNo, id: Id, calls: map<CallNo, Call>): Option<Outcome> {
    if run == [] then None
    else if run[0].Respond? && run[0].id.None? then None
    else if run[0].Respond? && run[0].id.value == id then Some(run[0].outcome)
    else if Replaces(run[0], c, id, calls) then None
    else FirstResponse(run[1..], c, id, calls)
  }

  /** The response that completes call `c`: responses before its registration are ignored. */
  ghost function Completion(run: seq<Step>, c: CallNo, id: Id, calls: map<CallNo, Call>): Option<Outcome> {
    if run == [] then None
    else if run[0].Respond? && run[0].id.None? then None
    else if run[0] == Register(c) then FirstResponse(run[1..], c, id, calls)
    else Completion(run[1..], c, id, calls)
  }

  ghost function OutcomeOf(s: State, c: CallNo): Option<Outcome> {
    if c in s.calls && s.calls[c].fired != [] then Some(s.calls[c].fired[0].outcome) else None
  }

  /** A callback that was registered, has not fired, and is not in the table. */
  ghost predicate Lost(s: State, c: CallNo) {
    c in s.calls && s.calls[c].phase == Registered && s.calls[c].fired == [] && !Waiting(s, c)
  }

  /** The outcome call `c` will have after `run`, from its situation in `s`. */
  ghost function Expected(s: State, run: seq<Step>, c: CallNo, id: Id, calls: map<CallNo, Call>): Option<Outcome> {
    if c in s.calls && s.calls[c].fired != [] then OutcomeOf(s, c)
    else if s.poisoned || Lost(s, c) then None
    else if Waiting(s, c) then FirstResponse(run, c, id, calls)
    else Completion(run, c, id, calls)
  }

  lemma ExpectedStep(s: State, run: seq<Step>, c: CallNo, id: Id, calls: map<CallNo, Call>)
    requires Inv(s) && run != [] && Enabled(s, run[0])
    requires SameIds(s, calls) && (c in s.calls ==> s.calls[c].id == id)
    ensures Expected(s, run, c, id, calls) == Expected(Apply(s, run[0]), run[1..], c, id, calls)
  {
    var e := run[0];
    if e.Respond? && e.id.Some? && e.id.value in s.pending {
      assert PendingOk(s, e.id.value);
    }
    if Waiting(s, c) {
      assert PendingOk(s, s.calls[c].id);
    }
  }

  /** The outcome of a call after any run is the one computed from the steps of the run. */
  lemma {:induction false} ExpectedRun(s: State, run: seq<Step>, c: CallNo)
    requires Inv(s) && ValidRun(s, run) && c in Run(s, run).calls
    ensures var calls := Run(s, run).calls;
            OutcomeOf(Run(s, run), c) == Expected(s, run, c, calls[c].id, calls)
    decreases |run|
  {
    if run != [] {
      var s' := Apply(s, run[0]);
      var calls := Run(s, run).calls;
      InvStep(s, run[0]);
      IdIsStable(s, run);
      ExpectedStep(s, run, c, calls[c].id, calls);
      ExpectedRun(s', run[1..], c);
    }
  }

  /** A callback that is lost never fires, whatever happens later. */
  lemma {:induction false} LostForGood(s: State, run: seq<Step>, c: CallNo)
    requires Inv(s) && Lost(s, c) && ValidRun(s, run)
    ensures Lost(Run(s, run), c) && Run(s, run).calls[c] == s.calls[c]
    decreases |run|
  {
    if run != [] {
      InvStep(s, run[0]);
      LostStep(s, run[0], c);
      LostForGood(Apply(s, run[0]), run[1..], c);
    }
  }

  lemma LostStep(s: State, e: Step, c: CallNo)
    requires Inv(s) && Lost(s, c) && Enabled(s, e)
    ensures Lost(Apply(s, e), c) && Apply(s, e).calls[c] == s.calls[c]
  {
    if e.Respond? && e.id.Some? && e.id.value in s.pending {
      assert PendingOk(s, e.id.value);
    }
  }

  /** Registering a call loses no callback exactly when no call waits under its id. */
  lemma RegisterKeepsExactly(s: State, d: CallNo)
    requires Inv(s) && Kept(s) && Enabled(s, Register(d)) && !s.poisoned
    ensures Kept(Apply(s, Register(d))) <==> s.calls[d].id !in s.pending
  {
    var s' := Apply(s, Register(d));
    var id := s.calls[d].id;
    if id in s.pending {
      var c := s.pending[id];
      assert PendingOk(s, id) && c != d;
      assert s'.calls[c].phase == Registered && s'.calls[c].fired == [] && !Waiting(s', c);
    } else {
      forall c | c in s'.calls && s'.calls[c].phase == Registered && s'.calls[c].fired == []
        ensures Waiting(s', c)
      {
        assert c != d ==> Waiting(s, c);
      }
    }
  }

  /** A response for `id` that is dispatched at `j`, before any dispatch panicked. */
  ghost predicate RespondsAt(run: seq<Step>, j: nat, id: Id) {
    && j < |run| && run[j].Respond? && run[j].id == Some(id)
    && (forall k :: 0 <= k < j ==> !(run[k].Respond? && run[k].id.None?))
  }

  /** A response at `j` that still finds the callback that call `c` registered at step `i`, or
      before the run if `i` is -1. */
  ghost predicate Reaches(run: seq<Step>, i: int, j: nat, c: CallNo, id: Id, calls: map<CallNo, Call>) {
    && i < j && (i >= 0 ==> i < |run| && run[i] == Register(c))
    && RespondsAt(run, j, id) && forall k :: 0 <= k && i < k < j ==> !Replaces(run[k], c, id, calls)
  }

  lemma ReachesCons(run: seq<Step>, i: int, j: nat, c: CallNo, id: Id, calls: map<CallNo, Call>)
    requires run != [] && !(run[0].Respond? && run[0].id.None?) && (i >= 0 || (i == -1 && run[0] == Register(c)))
    ensures RespondsAt(run, j + 1, id) <==> RespondsAt(run[1..], j, id)
    ensures Reaches(run, i + 1, j + 1, c, id, calls) <==> Reaches(run[1..], i, j, c, id, calls)
  {
    assert forall k: nat :: 0 < k < |run| ==> run[k] == run[1..][k - 1];
    if RespondsAt(run, j + 1, id) {
      assert forall k :: 0 <= k < j ==> run[1..][k] == run[k + 1];
    }
    if Reaches(run, i + 1, j + 1, c, id, calls) {
      assert forall k :: 0 <= k < j ==> run[1..][k] == run[k + 1];
    }
  }

  lemma {:induction false} FirstResponseIsFirst(run: seq<Step>, c: CallNo, id: Id, calls: map<CallNo, Call>)
    returns (j: nat)
    ensures var r := FirstResponse(run, c, id, calls);
            && (r.Some? ==> Reaches(run, -1, j, c, id, calls) && r.value == run[j].outcome)
            && (r.Some? ==> forall k: nat :: k < j ==> !RespondsAt(run, k, id))
            && (r.None? ==> forall k: nat :: !Reaches(run, -1, k, c, id, calls))
    decreases |run|
  {
    j := 0;
    if run == [] || (run[0].Respond? && (run[0].id.None? || run[0].id.value == id)) {
    } else {
      var rest := run[1..];
      var i := FirstResponseIsFirst(rest, c, id, calls);
      j := i + 1;
      assert forall k :: 0 <= k < |rest| ==> rest[k] == run[k + 1];
      forall k: nat | RespondsAt(run, k, id)
        ensures k > 0 && RespondsAt(rest, k - 1, id)
        ensures Reaches(run, -1, k, c, id, calls) ==> Reaches(rest, -1, k - 1, c, id, calls)
      {
      }
    }
  }

  lemma {:induction false} CompletionIsFirstAfter(run: seq<Step>, c: CallNo, id: Id, calls: map<CallNo, Call>)
    returns (i: nat, j: nat)
    requires forall p, q :: 0 <= p < q < |run| && run[p] == Register(c) ==> run[q] != Register(c)
    ensures var r := Completion(run, c, id, calls);
            && (r.Some? ==> Reaches(run, i, j, c, id, calls) && r.value == run[j].outcome)
            && (r.Some? ==> forall k: nat :: i < k < j ==> !RespondsAt(run, k, id))
            && (r.None? ==> forall p: nat, q: nat :: !Reaches(run, p, q, c, id, calls))
    decreases |run|
  {
    i, j := 0, 0;
    if run == [] || (run[0].Respond? && run[0].id.None?) {
    } else {
      var rest := run[1..];
      assert forall k :: 0 <= k < |rest| ==> rest[k] == run[k + 1];
      forall k: nat | k > 0 && RespondsAt(run, k, id)
        ensures RespondsAt(rest, k - 1, id)
      {
      }
      if run[0] == Register(c) {
        var n := FirstResponseIsFirst(rest, c, id, calls);
        j := n + 1;
        ReachesCons(run, -1, n, c, id, calls);
        forall q: nat | Reaches(run, 0, q, c, id, calls)
          ensures Reaches(rest, -1, q - 1, c, id, calls)
        {
          ReachesCons(run, -1, q - 1, c, id, calls);
        }
      } else {
        var p, q := CompletionIsFirstAfter(rest, c, id, calls);
        i, j := p + 1, q + 1;
        ReachesCons(run, p, q, c, id, calls);
        forall p: nat, q: nat | Reaches(run, p, q, c, id, calls)
          ensures p > 0 && Reaches(rest, p - 1, q - 1, c, id, calls)
        {
          ReachesCons(run, p - 1, q - 1, c, id, calls);
        }
      }
    }
  }

  /** A call that is past its registration never registers again. */
  lemma {:induction false} NoRegisterFrom(s: State, run: seq<Step>, c: CallNo, q: nat)
    requires ValidRun(s, run) && q < |run|
    requires c in s.calls && s.calls[c].phase in {Registered, Panicked}
    ensures run[q] != Register(c)
    decreases |run|
  {
    if q > 0 {
      NoRegisterFrom(Apply(s, run[0]), run[1..], c, q - 1);
    }
  }

  lemma {:induction false} RegistersOnce(s: State, run: seq<Step>, c: CallNo, p: nat, q: nat)
    requires ValidRun(s, run) && p < q < |run| && run[p] == Register(c)
    ensures run[q] != Register(c)
    decreases |run|
  {
    if p == 0 {
      NoRegisterFrom(Apply(s, run[0]), run[1..], c, q - 1);
    } else {
      RegistersOnce(Apply(s, run[0]), run[1..], c, p - 1, q - 1);
    }
  }

  /** However many ids were issued, a call completes exactly when a response with its id is
      dispatched after its callback was registered, before any dispatch panicked, and before
      another call with the same id registered; it completes with the first such response.
      A response in the window between sending and registering is discarded. */
  lemma CompletesExactly(run: seq<Step>, c: CallNo)
    requires ValidRun(Init, run) && c in Run(Init, run).calls
    ensures var calls := Run(Init, run).calls;
            calls[c].fired != [] <==>
            exists i: nat, j: nat :: Reaches(run, i, j, c, calls[c].id, calls)
    ensures var calls := Run(Init, run).calls;
            calls[c].fired != [] ==>
              exists i: nat, j: nat :: Reaches(run, i, j, c, calls[c].id, calls)
                && calls[c].fired == [Firing(calls[c].id, run[j].outcome)]
                && forall k: nat :: i < k < j ==> !RespondsAt(run, k, calls[c].id)
  {
    var calls := Run(Init, run).calls;
    var id := calls[c].id;
    ExpectedRun(Init, run, c);
    FiresAtMostOnceWithOwnId(run, c);
    forall p, q | 0 <= p < q < |run| && run[p] == Register(c)
      ensures run[q] != Register(c)
    {
      RegistersOnce(Init, run, c, p, q);
    }
    var i, j := CompletionIsFirstAfter(run, c, id, calls);
  }

  /** Until 2^32 ids were issued no callback is replaced: a call completes exactly when a
      response with its id is dispatched after its callback was registered and before any
      dispatch panicked. */
  lemma CompletesBeforeWrapAround(run: seq<Step>, c: CallNo)
    requires ValidRun(Init, run) && Run(Init, run).issued <= ID_SPACE && c in Run(Init, run).calls
    ensures var calls := Run(Init, run).calls;
            calls[c].fired != [] <==>
            exists i: nat, j: nat :: i < j < |run| && run[i] == Register(c) && RespondsAt(run, j, calls[c].id)
  {
    var calls := Run(Init, run).calls;
    CompletesExactly(run, c);
    forall k | 0 <= k < |run|
      ensures !Replaces(run[k], c, calls[c].id, calls)
    {
      if Replaces(run[k], c, calls[c].id, calls) {
        SharedIdExactly(run, c, run[k].c);
      }
    }
    forall i: nat, j: nat | i < j < |run| && run[i] == Register(c) && RespondsAt(run, j, calls[c].id)
      ensures Reaches(run, i, j, c, calls[c].id, calls)
    {
    }
  }

  /** The next time the counter comes to an id, after `n` others. */
  lemma ComesAround(issued: nat, id: Id) returns (n: nat)
    requires id < ID_SPACE
    ensures n < ID_SPACE && IdAt(issued + n) == id
  {
    var r := issued % ID_SPACE;
    assert issued == ID_SPACE * (issued / ID_SPACE) + r;
    n := if r <= id then id - r else id + ID_SPACE - r;
  }

  lemma RunCons(s: State, e: Step, rest: seq<Step>)
    requires Enabled(s, e) && ValidRun(Apply(s, e), rest)
    ensures ValidRun(s, [e] + rest) && Run(s, [e] + rest) == Run(Apply(s, e), rest)
  {
    assert ([e] + rest)[1..] == rest;
  }

  /** After `n` other ids, call `d` takes an id, sends and registers. */
  lemma RegistersNext(s: State, n: nat, d: CallNo) returns (run: seq<Step>)
    requires d !in s.calls && !s.poisoned
    ensures ValidRun(s, run) && forall k :: 0 <= k < |run| ==> !run[k].Respond?
    ensures var id := IdAt(s.issued + n);
            Run(s, run) == State(s.issued + n + 1, s.pending[id := d],
                                 s.calls[d := Call(s.issued + n, id, Registered, [])], false)
  {
    var id := IdAt(s.issued + n);
    var s1 := Apply(s, AllocStreams(n));
    var s2 := s1.(issued := s.issued + n + 1, calls := s.calls[d := Call(s.issued + n, id, Allocated, [])]);
    var s3 := s2.(calls := s.calls[d := Call(s.issued + n, id, Sent, [])]);
    assert Apply(s1, Alloc(d)) == s2;
    assert Apply(s2, Send(d, true)) == s3;
    assert Apply(s3, Register(d)).calls == s.calls[d := Call(s.issued + n, id, Registered, [])];
    RunCons(s3, Register(d), []);
    run := [Register(d)] + [];
    RunCons(s2, Send(d, true), run);
    run := [Send(d, true)] + run;
    RunCons(s1, Alloc(d), run);
    run := [Alloc(d)] + run;
    RunCons(s, AllocStreams(n), run);
    run := [AllocStreams(n)] + run;
  }

  /** The guarantee of `CompletesBeforeWrapAround` needs its bound: whenever a callback waits,
      at most 2^32 more ids can lead, without any response, to a state where it is replaced
      and never fires, whatever happens later. */
  lemma WrapAroundLosesCallback(before: seq<Step>, c: CallNo, d: CallNo) returns (run: seq<Step>)
    requires ValidRun(Init, before) && Waiting(Run(Init, before), c) && !Run(Init, before).poisoned
    requires d !in Run(Init, before).calls
    ensures var s := Run(Init, before);
            && ValidRun(s, run) && NoAnswer(run, 0, s.calls[c].id)
            && Run(s, run).issued <= s.issued + ID_SPACE && Lost(Run(s, run), c)
            && forall more :: ValidRun(Run(s, run), more) ==> OutcomeOf(Run(Run(s, run), more), c) == None
  {
    var s := Run(Init, before);
    InvRun(Init, before);
    NumberedRun(Init, before);
    assert PendingOk(s, s.calls[c].id);
    var n := ComesAround(s.issued, s.calls[c].id);
    run := RegistersNext(s, n, d);
    var s' := Run(s, run);
    InvRun(s, run);
    forall more | ValidRun(s', more)
      ensures OutcomeOf(Run(s', more), c) == None
    {
      LostForGood(s', more, c);
    }
  }

  // ----- the program -----

  /** The id counter and the table of pending calls, shared by callers and dispatchers. */
  class CallTable {
    var counter: nat
    var pending: map<Id, CallNo>
    var poisoned: bool
    ghost var issued: nat
    ghost var calls: map<CallNo, Call>

    ghost function View(): State
      reads this
    {
      State(issued, pending, calls, poisoned)
    }

    ghost predicate Valid()
      reads this
    {
      counter == issued % ID_SPACE
    }

    constructor ()
      ensures Valid() && View() == Init
    {
      counter, pending, poisoned, issued, calls := 0, map[], false, 0, map[];
    }

    /** Takes the next id and advances the counter, which wraps around at 2^32. */
    method NextMessageId(ghost c: CallNo) returns (id: Id)
      requires Valid() && Enabled(View(), Alloc(c))
      modifies this
      ensures Valid() && View() == Apply(old(View()), Alloc(c)) && id == calls[c].id
    {
      id := counter;
      counter := if counter + 1 == ID_SPACE then 0 else counter + 1;
      calls := calls[c := Call(issued, IdAt(issued), Allocated, [])];
      issued := issued + 1;
    }

    /** Registers the callback of a call whose request was sent. */
    method RegisterCallback(id: Id, c: CallNo)
      requires Valid() && Enabled(View(), Register(c)) && calls[c].id == id
      modifies this
      ensures Valid() && View() == Apply(old(View()), Register(c))
    {
      if poisoned {
        calls := calls[c := calls[c].(phase := Panicked)];
      } else {
        pending := pending[id := c];
        calls := calls[c := calls[c].(phase := Registered)];
      }
    }

    /** Dispatches a response: takes the callback out of the table and runs it. */
    method DispatchResponse(id: Option<Id>, outcome: Outcome) returns (callback: Option<CallNo>)
      requires Valid()
      modifies this
      ensures Valid() && View() == Apply(old(View()), Respond(id, outcome))
      ensures callback == (if !old(poisoned) && id.Some? && id.value in old(pending)
                           then Some(old(pending)[id.value]) else None)
    {
      callback := None;
      if !poisoned {
        if id.None? {
          poisoned := true;
        } else if id.value in pending {
          callback := Some(pending[id.value]);
          pending := pending - {id.value};
          calls := Fire(calls, callback.value, Firing(id.value, outcome));
        }
      }
    }
  }
}
