/**
  The worker pool of the end-to-end test runner (scripts/test-agent-host-e2e.ts, `main`
  and the job count of `parseArguments`).

  Every worker takes the next suite from a shared counter, awaits its run, and stores the
  result; runs finish in any order.  `R` is the type of results.
*/
module WorkerPool {
  import opened Basics

  /** A worker about to check the counter, awaiting a suite, or done. */
  datatype Worker = Checking | Running(suite: nat) | Finished

  /** `started` and `produced` are histories: the suites in the order they were started,
      and the results in the order they came in, each with the suite that produced it. */
  datatype State<R> = State(
    next: nat,
    workers: seq<Worker>,
    results: map<nat, R>,
    started: seq<nat>,
    produced: seq<(nat, R)>)

  datatype Step<R> =
    | Takes(w: nat)
    | Completes(w: nat, result: R)

  function Start<R>(jobs: nat): State<R> {
    State(0, seq(jobs, i => Checking), map[], [], [])
  }

  predicate Enabled<R>(s: State<R>, e: Step<R>) {
    e.w < |s.workers| &&
    match e
    case Takes(w) => s.workers[w].Checking?
    case Completes(w, _) => s.workers[w].Running?
  }

  function Apply<R>(suites: nat, s: State<R>, e: Step<R>): State<R>
    requires Enabled(s, e)
  {
    match e
    case Takes(w) =>
      if s.next < suites then
        s.(next := s.next + 1, workers := s.workers[w := Running(s.next)], started := s.started + [s.next])
      else s.(workers := s.workers[w := Finished])
    case Completes(w, result) =>
      var i := s.workers[w].suite;
      s.(workers := s.workers[w := Checking], results := s.results[i := result], produced := s.produced + [(i, result)])
  }

  ghost predicate ValidRun<R>(suites: nat, s: State<R>, run: seq<Step<R>>)
    decreases |run|
  {
    run == [] || (Enabled(s, run[0]) && ValidRun(suites, Apply(suites, s, run[0]), run[1..]))
  }

  ghost function Run<R>(suites: nat, s: State<R>, run: seq<Step<R>>): State<R>
    requires ValidRun(suites, s, run)
    decreases |run|
  {
    if run == [] then s else Run(suites, Apply(suites, s, run[0]), run[1..])
  }

  // ----- the invariant -----

  ghost predicate Awaited<R>(s: State<R>, i: nat) {
    exists w :: 0 <= w < |s.workers| && s.workers[w] == Running(i)
  }

  ghost predicate Inv<R>(suites: nat, s: State<R>) {
    && s.next <= suites && s.started == seq(s.next, i => i)
    && (forall w :: 0 <= w < |s.workers| && s.workers[w].Running? ==>
          s.workers[w].suite < s.next && s.workers[w].suite !in s.results)
    && (forall v, w :: 0 <= v < w < |s.workers| && s.workers[v].Running? ==> s.workers[v] != s.workers[w])
    && (forall w :: 0 <= w < |s.workers| && s.workers[w].Finished? ==> s.next == suites)
    && (forall i :: i in s.results ==> i < s.next)
    && (forall i :: 0 <= i < s.next ==> i in s.results || Awaited(s, i))
    && (forall k :: 0 <= k < |s.produced| ==>
          s.produced[k].0 in s.results && s.results[s.produced[k].0] == s.produced[k].1)
    && (forall i :: i in s.results ==> (i, s.results[i]) in s.produced)
    && (forall j, k :: 0 <= j < k < |s.produced| ==> s.produced[j].0 != s.produced[k].0)
  }

  lemma AwaitedStep<R>(suites: nat, s: State<R>, e: Step<R>, i: nat)
    requires Inv(suites, s) && Enabled(s, e) && i < Apply(suites, s, e).next
    ensures i in Apply(suites, s, e).results || Awaited(Apply(suites, s, e), i)
  {
    var s' := Apply(suites, s, e);
    if i == s.next {
      assert s'.workers[e.w] == Running(i);
    } else if i !in s'.results {
      var w :| 0 <= w < |s.workers| && s.workers[w] == Running(i);
      assert s'.workers[w] == Running(i);
    }
  }

  lemma InvStep<R>(suites: nat, s: State<R>, e: Step<R>)
    requires Inv(suites, s) && Enabled(s, e)
    ensures Inv(suites, Apply(suites, s, e))
  {
    var s' := Apply(suites, s, e);
    forall i | 0 <= i < s'.next
      ensures i in s'.results || Awaited(s', i)
    {
      AwaitedStep(suites, s, e, i);
    }
  }

  lemma {:induction false} InvRun<R>(suites: nat, s: State<R>, run: seq<Step<R>>)
    requires Inv(suites, s) && ValidRun(suites, s, run)
    ensures Inv(suites, Run(suites, s, run)) && |Run(suites, s, run).workers| == |s.workers|
    decreases |run|
  {
    if run != [] {
      InvStep(suites, s, run[0]);
      InvRun(suites, Apply(suites, s, run[0]), run[1..]);
    }
  }

  // ----- what every run guarantees -----

  function Busy(workers: seq<Worker>): (r: nat)
    ensures r <= |workers|
  {
    if workers == [] then 0 else (if workers[0].Running? then 1 else 0) + Busy(workers[1..])
  }

  /** In every run, suites are started one by one in order, each exactly once; at most
      `jobs` run at the same time, and no suite by two workers; and every result is stored
      once, under the suite that produced it. */
  lemma EverySuiteOnce<R>(suites: nat, jobs: nat, run: seq<Step<R>>)
    requires ValidRun(suites, Start<R>(jobs), run)
    ensures var s := Run(suites, Start<R>(jobs), run);
            && s.started == seq(s.next, i => i) && s.next <= suites
            && |s.workers| == jobs && Busy(s.workers) <= jobs
            && (forall v, w :: 0 <= v < w < jobs && s.workers[v].Running? ==> s.workers[v] != s.workers[w])
            && (forall i :: i in s.results <==> exists k :: 0 <= k < |s.produced| && s.produced[k].0 == i)
            && (forall k :: 0 <= k < |s.produced| ==> s.results[s.produced[k].0] == s.produced[k].1)
            && (forall j, k :: 0 <= j < k < |s.produced| ==> s.produced[j].0 != s.produced[k].0)
  {
    InvRun(suites, Start<R>(jobs), run);
    var s := Run(suites, Start<R>(jobs), run);
    forall i | i in s.results
      ensures exists k :: 0 <= k < |s.produced| && s.produced[k].0 == i
    {
      var k :| 0 <= k < |s.produced| && s.produced[k] == (i, s.results[i]);
    }
  }

  /** When all workers are done, and there is at least one, every suite was started and has
      its result. */
  lemma NoResultMissing<R>(suites: nat, jobs: nat, run: seq<Step<R>>)
    requires jobs > 0 && ValidRun(suites, Start<R>(jobs), run)
    requires forall w :: 0 <= w < jobs ==> w < |Run(suites, Start<R>(jobs), run).workers|
                                           && Run(suites, Start<R>(jobs), run).workers[w].Finished?
    ensures var s := Run(suites, Start<R>(jobs), run);
            s.next == suites && forall i :: i in s.results <==> 0 <= i < suites
  {
    InvRun(suites, Start<R>(jobs), run);
    var s := Run(suites, Start<R>(jobs), run);
    assert s.workers[0].Finished?;
    forall i | 0 <= i < suites
      ensures i in s.results
    {
      assert i in s.results || Awaited(s, i);
    }
  }

  // ----- which result goes where -----

  /** How many steps of a run try to take a suite. */
  function TakesIn<R>(run: seq<Step<R>>): nat {
    if run == [] then 0 else (if run[0].Takes? then 1 else 0) + TakesIn(run[1..])
  }

  lemma {:induction false} NextIs<R>(suites: nat, s: State<R>, run: seq<Step<R>>)
    requires s.next <= suites && ValidRun(suites, s, run)
    ensures Run(suites, s, run).next == if s.next + TakesIn(run) <= suites then s.next + TakesIn(run) else suites
    decreases |run|
  {
    if run != [] {
      NextIs(suites, Apply(suites, s, run[0]), run[1..]);
    }
  }

  lemma {:induction false} RunSplits<R>(suites: nat, s: State<R>, a: seq<Step<R>>, b: seq<Step<R>>)
    requires ValidRun(suites, s, a + b)
    ensures ValidRun(suites, s, a) && ValidRun(suites, Run(suites, s, a), b)
    ensures Run(suites, s, a + b) == Run(suites, Run(suites, s, a), b)
    decreases |a|
  {
    if a == [] {
      assert a + b == b;
    } else {
      assert (a + b)[1..] == a[1..] + b;
      RunSplits(suites, Apply(suites, s, a[0]), a[1..], b);
    }
  }

  /** A result that is stored stays. */
  lemma {:induction false} ResultStays<R>(suites: nat, s: State<R>, run: seq<Step<R>>, i: nat)
    requires Inv(suites, s) && ValidRun(suites, s, run) && i in s.results
    ensures i in Run(suites, s, run).results && Run(suites, s, run).results[i] == s.results[i]
    decreases |run|
  {
    if run != [] {
      InvStep(suites, s, run[0]);
      ResultStays(suites, Apply(suites, s, run[0]), run[1..], i);
    }
  }

  /** What a worker is at does not change by the steps of others. */
  lemma {:induction false} OthersLeaveWorker<R>(suites: nat, s: State<R>, run: seq<Step<R>>, w: nat)
    requires ValidRun(suites, s, run) && w < |s.workers| && forall k :: 0 <= k < |run| ==> run[k].w != w
    ensures w < |Run(suites, s, run).workers| && Run(suites, s, run).workers[w] == s.workers[w]
    decreases |run|
  {
    if run != [] {
      OthersLeaveWorker(suites, Apply(suites, s, run[0]), run[1..], w);
    }
  }

  /** In every run, the result with which a worker comes back is that of the suite it took: if
      it tries to take one after the steps `before` and then comes back, its result ends up at
      the index that is the number of tries before. */
  lemma ResultLandsAtOwnIndex<R>(suites: nat, jobs: nat, before: seq<Step<R>>, run: seq<Step<R>>, j: nat)
    requires ValidRun(suites, Start<R>(jobs), before + run)
    requires 0 < j < |run| && run[0].Takes? && run[j].Completes? && run[0].w == run[j].w
    requires forall k :: 0 < k < j ==> run[k].w != run[0].w
    ensures var i, results := TakesIn(before), Run(suites, Start<R>(jobs), before + run).results;
            i < suites && i in results && results[i] == run[j].result
  {
    RunSplits(suites, Start<R>(jobs), before, run);
    NextIs(suites, Start<R>(jobs), before);
    TakenAfter(suites, jobs, before, run, j);
  }

  lemma TakenAfter<R>(suites: nat, jobs: nat, before: seq<Step<R>>, run: seq<Step<R>>, j: nat)
    requires ValidRun(suites, Start<R>(jobs), before) && ValidRun(suites, Run(suites, Start<R>(jobs), before), run)
    requires 0 < j < |run| && run[0].Takes? && run[j].Completes? && run[0].w == run[j].w
    requires forall k :: 0 < k < j ==> run[k].w != run[0].w
    ensures var s := Run(suites, Start<R>(jobs), before);
            var results := Run(suites, s, run).results;
            s.next < suites && s.next in results && results[s.next] == run[j].result
  {
    InvRun(suites, Start<R>(jobs), before);
    TakenLands(suites, Run(suites, Start<R>(jobs), before), run, j);
  }

  lemma TakenLands<R>(suites: nat, s: State<R>, run: seq<Step<R>>, j: nat)
    requires Inv(suites, s) && ValidRun(suites, s, run) && 0 < j < |run|
    requires run[0].Takes? && run[j].Completes? && run[0].w == run[j].w
    requires forall k :: 0 < k < j ==> run[k].w != run[0].w
    ensures var results := Run(suites, s, run).results;
            s.next < suites && s.next in results && results[s.next] == run[j].result
  {
    var s1, rest := Apply(suites, s, run[0]), run[1..];
    InvStep(suites, s, run[0]);
    assert rest[j - 1] == run[j] && forall k :: 0 <= k < j - 1 ==> rest[k] == run[k + 1];
    AwaitedLands(suites, s1, rest, j - 1);
  }

  /** A worker comes back only from a suite that it runs, and its result is stored for good. */
  lemma AwaitedLands<R>(suites: nat, s: State<R>, run: seq<Step<R>>, j: nat)
    requires Inv(suites, s) && ValidRun(suites, s, run) && j < |run| && run[j].Completes? && run[j].w < |s.workers|
    requires forall k :: 0 <= k < j ==> run[k].w != run[j].w
    ensures s.workers[run[j].w].Running?
    ensures var i, results := s.workers[run[j].w].suite, Run(suites, s, run).results;
            i in results && results[i] == run[j].result
  {
    var mid, rest := run[..j], run[j..];
    assert run == mid + rest && rest[0] == run[j];
    RunSplits(suites, s, mid, rest);
    OthersLeaveWorker(suites, s, mid, run[j].w);
    InvRun(suites, s, mid);
    var s2 := Run(suites, s, mid);
    InvStep(suites, s2, run[j]);
    ResultStays(suites, Apply(suites, s2, run[j]), rest[1..], s.workers[run[j].w].suite);
  }

  /** The steps a worker still has to take, apart from suites not yet started. */
  function Steps(workers: seq<Worker>): nat {
    if workers == [] then 0 else
      (match workers[0] case Checking => 1 case Running(_) => 2 case Finished => 0) + Steps(workers[1..])
  }

  lemma {:induction false} StepsUpdate(workers: seq<Worker>, w: nat, k: Worker)
    requires w < |workers|
    ensures Steps(workers[w := k]) == Steps(workers) - Steps([workers[w]]) + Steps([k])
  {
    assert [k][1..] == [] && [workers[w]][1..] == [];
    if w > 0 {
      StepsUpdate(workers[1..], w - 1, k);
      assert workers[w := k][1..] == workers[1..][w - 1 := k];
    } else {
      assert workers[w := k][1..] == workers[1..];
    }
  }

  ghost function Remaining<R>(suites: nat, s: State<R>): int { 2 * (suites - s.next) + Steps(s.workers) }

  lemma {:induction false} EveryStepCounts<R>(suites: nat, s: State<R>, run: seq<Step<R>>)
    requires ValidRun(suites, s, run)
    ensures |run| == Remaining(suites, s) - Remaining(suites, Run(suites, s, run))
    decreases |run|
  {
    if run != [] {
      var e, s' := run[0], Apply(suites, s, run[0]);
      StepsUpdate(s.workers, e.w, s'.workers[e.w]);
      assert [s.workers[e.w]][1..] == [] && [s'.workers[e.w]][1..] == [];
      EveryStepCounts(suites, s', run[1..]);
    }
  }

  lemma {:induction false} StartSteps(workers: seq<Worker>)
    requires forall w :: 0 <= w < |workers| ==> workers[w].Checking?
    ensures Steps(workers) == |workers|
  {
    if workers != [] {
      StartSteps(workers[1..]);
    }
  }

  lemma {:induction false} NoStepsLeft(workers: seq<Worker>)
    ensures Steps(workers) == 0 <==> forall w :: 0 <= w < |workers| ==> workers[w].Finished?
  {
    if workers != [] {
      NoStepsLeft(workers[1..]);
      assert forall w :: 0 < w < |workers| ==> workers[w] == workers[1..][w - 1];
    }
  }

  /** Whatever the completion order, a run takes at most `2 * suites + jobs` steps, and it
      has taken exactly that many when all workers are done. */
  lemma RunsAreBounded<R>(suites: nat, jobs: nat, run: seq<Step<R>>)
    requires jobs > 0 && ValidRun(suites, Start<R>(jobs), run)
    ensures |run| <= 2 * suites + jobs
    ensures |run| == 2 * suites + jobs <==>
              (forall w :: 0 <= w < jobs ==> w < |Run(suites, Start<R>(jobs), run).workers|
                                             && Run(suites, Start<R>(jobs), run).workers[w].Finished?)
  {
    var start := Start<R>(jobs);
    var s := Run(suites, start, run);
    InvRun(suites, start, run);
    EveryStepCounts(suites, start, run);
    StartSteps(start.workers);
    NoStepsLeft(s.workers);
    if Steps(s.workers) == 0 {
      assert s.workers[0].Finished?;
    }
  }

  // ----- the job count -----

  /** A worker count given by the user: a number that is an integer, or anything else. */
  datatype Requested = Whole(n: int) | NotWhole

  function Min(a: int, b: int): int { if a < b then a else b }

  /** The number of workers: what was asked for, or one per core, but never more than there
      are suites; counts that are not positive integers are refused. */
  function JobCount(requested: Option<Requested>, suites: nat, cores: nat): (r: Result<nat, string>)
    ensures r.Ok? ==> r.value <= suites && (0 < r.value || suites == 0)
    ensures requested.Some? ==> (r.Ok? <==> requested.value.Whole? && requested.value.n >= 1)
    ensures requested.Some? && r.Ok? ==> r.value == if requested.value.n <= suites then requested.value.n else suites
    ensures requested.None? ==> (r.Ok? <==> suites > 0 && cores > 0)
    ensures requested.None? && r.Ok? ==> r.value == if suites <= cores then suites else cores
  {
    var jobs := if requested.None? then Whole(Min(suites, cores)) else requested.value;
    if jobs.NotWhole? || jobs.n < 1 then Err("Invalid Agent Host E2E worker count") else Ok(Min(jobs.n, suites))
  }

  // ----- the program -----

  /** The counter and the results that the workers share. */
  class Pool<R> {
    const suites: nat
    var nextSuite: nat
    var results: map<nat, R>
    var workers: seq<Worker>
    ghost var started: seq<nat>
    ghost var produced: seq<(nat, R)>

    ghost function View(): State<R>
      reads this
    {
      State(nextSuite, workers, results, started, produced)
    }

    constructor (suites: nat, jobs: nat)
      ensures View() == Start(jobs) && this.suites == suites
    {
      this.suites, nextSuite, results := suites, 0, map[];
      workers, started, produced := seq(jobs, i => Checking), [], [];
    }

    /** The head of a worker's loop: takes the next suite, if there is one. */
    method TakeNext(w: nat) returns (suite: Option<nat>)
      requires Enabled(View(), Takes(w))
      modifies this
      ensures View() == Apply(suites, old(View()), Takes(w))
      ensures suite == if old(nextSuite) < suites then Some(old(nextSuite)) else None
    {
      if nextSuite < suites {
        var suiteIndex := nextSuite;
        nextSuite := nextSuite + 1;
        workers := workers[w := Running(suiteIndex)];
        started := started + [suiteIndex];
        suite := Some(suiteIndex);
      } else {
        workers := workers[w := Finished];
        suite := None;
      }
    }

    /** The rest of the loop body: stores the result of the awaited suite. */
    method Store(w: nat, result: R)
      requires Enabled(View(), Completes(w, result))
      modifies this
      ensures View() == Apply(suites, old(View()), Completes(w, result))
    {
      var suiteIndex := workers[w].suite;
      results := results[suiteIndex := result];
      produced := produced + [(suiteIndex, result)];
      workers := workers[w := Checking];
    }
  }
}
