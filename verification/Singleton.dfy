/**
  Election of a singleton process over a lock file (cli/src/singleton.rs).

  A process that gets the exclusive file lock writes its socket name and process id into
  the file, listens on the socket, and keeps both until it drops them: the listener first,
  the lock second.  Other processes read the file, whose contents may be stale or half
  written, and connect.  A crash releases the lock and the listener together; socket names
  are never reused.
*/
module Singleton {
  import opened Basics

  type Pid = nat
  type Socket = nat

  /** The last attempt of a client is number 10. */
  const MAX_CLIENT_ATTEMPTS: nat := 10
  /** The last connect of a round is number 5. */
  const MAX_TRIES: nat := 5

  datatype Contents = Unreadable | Matter(socket: Socket, pid: Pid)

  datatype Proc =
    | Idle
    | Holding(socket: Socket)
    | Writing(socket: Socket)
    | Published(socket: Socket)
    | Serving(socket: Socket)
    | Dropping(socket: Socket)
    | Reading(attempt: nat, connects: nat)
    | Trying(attempt: nat, i: nat, connects: nat, socket: Socket, pid: Pid)
    | Connected(server: Pid, connects: nat)
    | Dead
  {
    predicate HasLock() { Holding? || Writing? || Published? || Serving? || Dropping? }
  }

  /** `author` records which process chose each socket name. */
  datatype State = State(
    lock: Option<Pid>,
    file: Contents,
    listeners: map<Socket, Pid>,
    procs: map<Pid, Proc>,
    author: map<Socket, Pid>)

  datatype Step =
    | Acquires(p: Pid, name: Socket)
    | BecomesClient(p: Pid)
    | WriteStarts(p: Pid)
    | WriteEnds(p: Pid)
    | Listens(p: Pid)
    | StartFails(p: Pid)
    | DropsListener(p: Pid)
    | ReleasesLock(p: Pid)
    | Crashes(p: Pid)
    | ReadsMatter(p: Pid)
    | ReadFails(p: Pid)
    | Connects(p: Pid)
    | ConnectFails(p: Pid)
    | SeesExit(p: Pid)

  /** Nobody has started; the file may hold what an earlier process left. */
  ghost predicate Init(s: State) {
    && s.lock == None && s.listeners == map[]
    && (forall p :: p in s.procs ==> s.procs[p] == Idle)
    && (s.file.Matter? ==> Wrote(s, s.file.socket, s.file.pid))
  }

  predicate Enabled(s: State, e: Step) {
    e.p in s.procs &&
    var k := s.procs[e.p];
    match e
    case Acquires(_, name) => k.Idle? && s.lock == None && name !in s.author
    case BecomesClient(_) => k.Idle?
    case WriteStarts(_) => k.Holding?
    case WriteEnds(_) => k.Writing?
    case Listens(_) => k.Published?
    case StartFails(_) => k.Holding? || k.Writing? || k.Published?
    case DropsListener(_) => k.Serving?
    case ReleasesLock(_) => k.Dropping?
    case Crashes(_) => !k.Dead?
    case ReadsMatter(_) => k.Reading? && s.file.Matter?
    case ReadFails(_) => k.Reading?
    case Connects(_) => k.Trying? && k.socket in s.listeners
    case ConnectFails(_) => k.Trying?
    case SeesExit(_) => k.Trying? && (k.pid !in s.procs || s.procs[k.pid].Dead?)
  }

  /** After a failed round the client tries again, or gives up after its last attempt. */
  function NextRound(attempt: nat, connects: nat): Proc {
    if attempt >= MAX_CLIENT_ATTEMPTS then Idle else Reading(attempt + 1, connects)
  }

  /** After a failed connect the client tries the same socket again, or ends the round. */
  function NextTry(k: Proc): Proc
    requires k.Trying?
  {
    if k.i >= MAX_TRIES then NextRound(k.attempt, k.connects + 1) else k.(i := k.i + 1, connects := k.connects + 1)
  }

  function Move(s: State, p: Pid, k: Proc): State { s.(procs := s.procs[p := k]) }

  function Apply(s: State, e: Step): State
    requires Enabled(s, e)
  {
    var k := s.procs[e.p];
    match e
    case Acquires(p, name) => Move(s, p, Holding(name)).(lock := Some(p), author := s.author[name := p])
    case BecomesClient(p) => Move(s, p, Reading(0, 0))
    case WriteStarts(p) => Move(s, p, Writing(k.socket)).(file := Unreadable)
    case WriteEnds(p) => Move(s, p, Published(k.socket)).(file := Matter(k.socket, p))
    case Listens(p) => Move(s, p, Serving(k.socket)).(listeners := s.listeners[k.socket := p])
    case StartFails(p) => Move(s, p, Dropping(k.socket))
    case DropsListener(p) => Move(s, p, Dropping(k.socket)).(listeners := s.listeners - {k.socket})
    case ReleasesLock(p) => Move(s, p, Idle).(lock := None)
    case Crashes(p) =>
      Move(s, p, Dead).(lock := if s.lock == Some(p) then None else s.lock,
                        listeners := map c | c in s.listeners && s.listeners[c] != p :: s.listeners[c])
    case ReadsMatter(p) => Move(s, p, Trying(k.attempt, 0, k.connects, s.file.socket, s.file.pid))
    case ReadFails(p) => Move(s, p, NextRound(k.attempt, k.connects))
    case Connects(p) => Move(s, p, Connected(s.listeners[k.socket], k.connects + 1))
    case ConnectFails(p) => Move(s, p, NextTry(k))
    case SeesExit(p) => Move(s, p, Idle)
  }

  ghost predicate ValidRun(s: State, run: seq<Step>)
    decreases |run|
  {
    run == [] || (Enabled(s, run[0]) && ValidRun(Apply(s, run[0]), run[1..]))
  }

  ghost function Run(s: State, run: seq<Step>): State
    requires ValidRun(s, run)
    decreases |run|
  {
    if run == [] then s else Run(Apply(s, run[0]), run[1..])
  }

  // ----- the invariant -----

  ghost predicate Wrote(s: State, c: Socket, p: Pid) { c in s.author && s.author[c] == p }

  ghost predicate ProcOk(s: State, p: Pid, k: Proc) {
    && (k.HasLock() ==> s.lock == Some(p) && Wrote(s, k.socket, p))
    && (k.Published? || k.Serving? ==> s.file == Matter(k.socket, p))
    && (k.Serving? ==> k.socket in s.listeners && s.listeners[k.socket] == p)
    && (k.Trying? ==> Wrote(s, k.socket, k.pid))
    && (k.Reading? ==> k.attempt <= MAX_CLIENT_ATTEMPTS && k.connects <= 6 * k.attempt)
    && (k.Trying? ==> k.attempt <= MAX_CLIENT_ATTEMPTS && k.i <= MAX_TRIES && k.connects <= 6 * k.attempt + k.i)
    && (k.Connected? ==> k.connects <= 66)
  }

  ghost predicate Inv(s: State) {
    && (forall p :: p in s.procs ==> ProcOk(s, p, s.procs[p]))
    && (s.lock.Some? ==> s.lock.value in s.procs && s.procs[s.lock.value].HasLock())
    && (forall c :: c in s.listeners ==> s.listeners[c] in s.procs && s.procs[s.listeners[c]] == Serving(c))
    && (s.file.Matter? ==> Wrote(s, s.file.socket, s.file.pid))
  }

  lemma OwnStep(s: State, e: Step)
    requires Inv(s) && Enabled(s, e)
    ensures e.p in Apply(s, e).procs && ProcOk(Apply(s, e), e.p, Apply(s, e).procs[e.p])
  {
    assert ProcOk(s, e.p, s.procs[e.p]);
  }

  lemma OthersStep(s: State, e: Step, q: Pid)
    requires Inv(s) && Enabled(s, e) && q in s.procs && q != e.p
    ensures q in Apply(s, e).procs && ProcOk(Apply(s, e), q, Apply(s, e).procs[q])
  {
    var k := s.procs[q];
    assert ProcOk(s, q, k) && ProcOk(s, e.p, s.procs[e.p]);
    assert Apply(s, e).procs[q] == k;
  }

  lemma LockStep(s: State, e: Step)
    requires Inv(s) && Enabled(s, e)
    ensures var s' := Apply(s, e); s'.lock.Some? ==> s'.lock.value in s'.procs && s'.procs[s'.lock.value].HasLock()
    ensures var s' := Apply(s, e); s'.file.Matter? ==> Wrote(s', s'.file.socket, s'.file.pid)
  {
    assert ProcOk(s, e.p, s.procs[e.p]);
  }

  lemma ListenerStep(s: State, e: Step, c: Socket)
    requires Inv(s) && Enabled(s, e) && c in Apply(s, e).listeners
    ensures var s' := Apply(s, e); s'.listeners[c] in s'.procs && s'.procs[s'.listeners[c]] == Serving(c)
  {
    assert ProcOk(s, e.p, s.procs[e.p]);
    if c in s.listeners {
      assert ProcOk(s, s.listeners[c], Serving(c));
    }
  }

  lemma InvStep(s: State, e: Step)
    requires Inv(s) && Enabled(s, e)
    ensures Inv(Apply(s, e))
  {
    var s' := Apply(s, e);
    LockStep(s, e);
    forall q | q in s'.procs ensures ProcOk(s', q, s'.procs[q]) {
      if q == e.p {
        OwnStep(s, e);
      } else {
        OthersStep(s, e, q);
      }
    }
    forall c | c in s'.listeners ensures s'.listeners[c] in s'.procs && s'.procs[s'.listeners[c]] == Serving(c) {
      ListenerStep(s, e, c);
    }
  }

  lemma {:induction false} InvRun(s: State, run: seq<Step>)
    requires Inv(s) && ValidRun(s, run)
    ensures Inv(Run(s, run))
    decreases |run|
  {
    if run != [] {
      InvStep(s, run[0]);
      InvRun(Apply(s, run[0]), run[1..]);
    }
  }

  // ----- what every run guarantees -----

  /** In every run at most one process ever holds the server, and it holds the lock and is
      the one published in the file. */
  lemma AtMostOneServer(start: State, run: seq<Step>, p: Pid, q: Pid)
    requires Init(start) && ValidRun(start, run)
    requires var s := Run(start, run); p in s.procs && q in s.procs && s.procs[p].Serving? && s.procs[q].Serving?
    ensures var s := Run(start, run); p == q && s.lock == Some(p) && s.file == Matter(s.procs[p].socket, p)
  {
    InvRun(start, run);
    var s := Run(start, run);
    assert ProcOk(s, p, s.procs[p]) && ProcOk(s, q, s.procs[q]);
  }

  /** A connection that succeeds, even on stale contents, reaches the process that wrote the
      contents the client read, and that process serves and holds the lock at that moment. */
  lemma ConnectionReachesHolder(start: State, run: seq<Step>, p: Pid)
    requires Init(start) && ValidRun(start, run) && Enabled(Run(start, run), Connects(p))
    ensures var s := Run(start, run);
            var server := Apply(s, Connects(p)).procs[p].server;
            && s.lock == Some(server) && server == s.procs[p].pid
            && server in s.procs && s.procs[server] == Serving(s.procs[p].socket)
  {
    InvRun(start, run);
    var s := Run(start, run);
    var k := s.procs[p];
    assert ProcOk(s, p, k);
    assert ProcOk(s, s.listeners[k.socket], Serving(k.socket));
  }

  /** While a process serves, a client that reads the file reads its socket and can connect. */
  lemma FreshReadCanConnect(start: State, run: seq<Step>, p: Pid, server: Pid)
    requires Init(start) && ValidRun(start, run)
    requires var s := Run(start, run);
             p in s.procs && s.procs[p].Reading? && server in s.procs && s.procs[server].Serving?
    ensures var s := Run(start, run);
            && Enabled(s, ReadsMatter(p))
            && var s' := Apply(s, ReadsMatter(p));
            && Enabled(s', Connects(p)) && s'.listeners[s'.procs[p].socket] == server
  {
    InvRun(start, run);
    var s := Run(start, run);
    assert ProcOk(s, server, s.procs[server]);
  }

  /** A client makes at most 11 rounds, at most 6 connects in each, and 66 in all. */
  lemma ClientsGiveUp(start: State, run: seq<Step>, p: Pid)
    requires Init(start) && ValidRun(start, run) && p in Run(start, run).procs
    ensures var k := Run(start, run).procs[p];
            && (k.Reading? || k.Trying? ==> k.attempt + 1 <= 11)
            && (k.Trying? ==> k.i + 1 <= 6)
            && (k.Reading? || k.Trying? || k.Connected? ==> k.connects <= 66)
  {
    InvRun(start, run);
    assert ProcOk(Run(start, run), p, Run(start, run).procs[p]);
  }

  // ----- what processes can do -----

  lemma RunCons(s: State, e: Step, rest: seq<Step>)
    requires Enabled(s, e) && ValidRun(Apply(s, e), rest)
    ensures ValidRun(s, [e] + rest) && Run(s, [e] + rest) == Run(Apply(s, e), rest)
  {
    assert ([e] + rest)[1..] == rest;
  }

  ghost predicate OwnSteps(run: seq<Step>, p: Pid) { forall i :: 0 <= i < |run| ==> run[i].p == p }

  /** The process serves: it holds the lock, the file names it, and its socket listens for it. */
  ghost predicate Serves(s: State, p: Pid, name: Socket) {
    && p in s.procs && s.procs[p] == Serving(name) && s.lock == Some(p) && s.file == Matter(name, p)
    && name in s.listeners && s.listeners[name] == p
  }

  /** Whenever the lock is free, an idle process with a new socket name can come to serve by its
      own steps, whatever is in the file; nothing else changes. */
  lemma CanServe(s: State, p: Pid, name: Socket) returns (run: seq<Step>)
    requires p in s.procs && s.procs[p] == Idle && s.lock == None && name !in s.author
    ensures OwnSteps(run, p) && ValidRun(s, run)
    ensures Serves(Run(s, run), p, name)
    ensures Run(s, run) == State(Some(p), Matter(name, p), s.listeners[name := p], s.procs[p := Serving(name)],
                                 s.author[name := p])
  {
    var author := s.author[name := p];
    var s1 := State(Some(p), s.file, s.listeners, s.procs[p := Holding(name)], author);
    var s2 := State(Some(p), Unreadable, s.listeners, s.procs[p := Writing(name)], author);
    var s3 := State(Some(p), Matter(name, p), s.listeners, s.procs[p := Published(name)], author);
    assert Apply(s, Acquires(p, name)) == s1;
    assert Apply(s1, WriteStarts(p)) == s2;
    assert Apply(s2, WriteEnds(p)) == s3;
    run := [Listens(p)];
    assert run[1..] == [];
    RunCons(s2, WriteEnds(p), run);
    run := [WriteEnds(p)] + run;
    RunCons(s1, WriteStarts(p), run);
    run := [WriteStarts(p)] + run;
    RunCons(s, Acquires(p, name), run);
    run := [Acquires(p, name)] + run;
  }

  /** While a process serves, a reading client can connect to it with its next connect, and an
      idle process can become a client and do so, each by its own steps. */
  lemma CanConnect(s: State, p: Pid, server: Pid, name: Socket) returns (run: seq<Step>)
    requires Serves(s, server, name) && p in s.procs && (s.procs[p] == Idle || s.procs[p].Reading?)
    ensures OwnSteps(run, p) && ValidRun(s, run)
    ensures var connects := if s.procs[p].Reading? then s.procs[p].connects else 0;
            Run(s, run) == s.(procs := s.procs[p := Connected(server, connects + 1)])
    decreases s.procs[p].Idle?
  {
    if s.procs[p].Reading? {
      var k := s.procs[p];
      var s1 := s.(procs := s.procs[p := Trying(k.attempt, 0, k.connects, name, server)]);
      assert Apply(s, ReadsMatter(p)) == s1;
      run := [Connects(p)];
      assert run[1..] == [];
      RunCons(s, ReadsMatter(p), run);
      run := [ReadsMatter(p)] + run;
    } else {
      var s1 := s.(procs := s.procs[p := Reading(0, 0)]);
      assert Apply(s, BecomesClient(p)) == s1;
      run := CanConnect(s1, p, server, name);
      RunCons(s, BecomesClient(p), run);
      run := [BecomesClient(p)] + run;
    }
  }

  /** In every reachable state with a free lock, one idle process can come to serve, and then
      another can connect to it, with nobody else doing anything. */
  lemma ElectionWorks(start: State, before: seq<Step>, p: Pid, name: Socket, q: Pid) returns (run: seq<Step>)
    requires Init(start) && ValidRun(start, before)
    requires var s := Run(start, before);
             && p in s.procs && s.procs[p] == Idle && q in s.procs && s.procs[q] == Idle && p != q
             && s.lock == None && name !in s.author
    ensures var s := Run(start, before);
            && ValidRun(s, run) && (forall i :: 0 <= i < |run| ==> run[i].p in {p, q})
            && Serves(Run(s, run), p, name) && q in Run(s, run).procs && Run(s, run).procs[q] == Connected(p, 1)
  {
    var s := Run(start, before);
    var a := CanServe(s, p, name);
    var b := CanConnect(Run(s, a), q, p, name);
    RunAppend(s, a, b);
    run := a + b;
  }

  lemma {:induction false} RunAppend(s: State, a: seq<Step>, b: seq<Step>)
    requires ValidRun(s, a) && ValidRun(Run(s, a), b)
    ensures ValidRun(s, a + b) && Run(s, a + b) == Run(Run(s, a), b)
    decreases |a|
  {
    if a == [] {
      assert a + b == b;
    } else {
      assert (a + b)[1..] == a[1..] + b;
      RunAppend(Apply(s, a[0]), a[1..], b);
    }
  }

  /** In every reachable state, a process that holds the lock frees it by crashing, and a server
      also by being dropped; then its socket no longer listens, and another idle process can
      come to serve. */
  lemma LockIsHandedOn(start: State, before: seq<Step>, p: Pid, q: Pid, name: Socket, crash: bool)
    returns (run: seq<Step>)
    requires Init(start) && ValidRun(start, before)
    requires var s := Run(start, before);
             && p in s.procs && (if crash then s.procs[p].HasLock() else s.procs[p].Serving?)
             && q in s.procs && s.procs[q] == Idle && name !in s.author
    ensures var s := Run(start, before);
            && ValidRun(s, run) && Serves(Run(s, run), q, name)
            && (crash ==> |run| > 0 && run[0] == Crashes(p)) && (!crash ==> |run| > 0 && run[0] == DropsListener(p))
            && forall c :: c in Run(s, run).listeners ==> c == name
  {
    var s := Run(start, before);
    assert s.lock == Some(p) && (forall c :: c in s.listeners ==> s.listeners[c] == p && s.procs[p] == Serving(c)) by {
      InvRun(start, before);
      OnlyHolderListens(s, p);
    }
    var first := LockIsFreed(s, p, crash);
    var rest := CanServe(Run(s, first), q, name);
    RunAppend(s, first, rest);
    run := first + rest;
  }

  lemma LockIsFreed(s: State, p: Pid, crash: bool) returns (run: seq<Step>)
    requires p in s.procs && (if crash then s.procs[p].HasLock() else s.procs[p].Serving?) && s.lock == Some(p)
    requires forall c :: c in s.listeners ==> s.listeners[c] == p && s.procs[p] == Serving(c)
    ensures ValidRun(s, run) && |run| > 0 && run[0] == if crash then Crashes(p) else DropsListener(p)
    ensures Run(s, run) == State(None, s.file, map[], s.procs[p := if crash then Dead else Idle], s.author)
  {
    if crash {
      run := [Crashes(p)];
      assert run[1..] == [];
    } else {
      var name := s.procs[p].socket;
      var s1 := State(Some(p), s.file, map[], s.procs[p := Dropping(name)], s.author);
      assert s.listeners - {name} == map[];
      assert Apply(s, DropsListener(p)) == s1;
      run := [ReleasesLock(p)];
      assert run[1..] == [];
      RunCons(s, DropsListener(p), run);
      run := [DropsListener(p)] + run;
    }
  }

  lemma OnlyHolderListens(s: State, p: Pid)
    requires Inv(s) && p in s.procs && s.procs[p].HasLock()
    ensures s.lock == Some(p) && forall c :: c in s.listeners ==> s.listeners[c] == p && s.procs[p] == Serving(c)
  {
    assert ProcOk(s, p, s.procs[p]);
    forall c | c in s.listeners ensures s.listeners[c] == p {
      assert ProcOk(s, s.listeners[c], Serving(c));
    }
  }

  // ----- a client that never gets through -----

  function Failures(p: Pid, n: nat): seq<Step> { seq(n, i => ConnectFails(p)) }

  /** The rest of a round whose connects all fail. */
  lemma {:induction false} RoundFails(s: State, p: Pid) returns (run: seq<Step>)
    requires p in s.procs && s.procs[p].Trying? && s.procs[p].i <= 5
    ensures var k := s.procs[p];
            && run == Failures(p, 6 - k.i) && ValidRun(s, run)
            && Run(s, run) == Move(s, p, if k.attempt >= 10 then Idle else Reading(k.attempt + 1, k.connects + 6 - k.i))
    decreases 6 - s.procs[p].i
  {
    var k := s.procs[p];
    var s1 := Apply(s, ConnectFails(p));
    if k.i == 5 {
      run := [ConnectFails(p)];
      assert run == Failures(p, 1) && run[1..] == [];
    } else {
      var rest := RoundFails(s1, p);
      RunCons(s, ConnectFails(p), rest);
      run := [ConnectFails(p)] + rest;
      assert run == Failures(p, 6 - k.i);
      var last := if k.attempt >= 10 then Idle else Reading(k.attempt + 1, k.connects + 6 - k.i);
      assert s1.procs[p := last] == s.procs[p := last];
    }
  }

  /** How many connects a run makes. */
  function ConnectsIn(run: seq<Step>): nat {
    if run == [] then 0 else (if run[0].Connects? || run[0].ConnectFails? then 1 else 0) + ConnectsIn(run[1..])
  }

  lemma {:induction false} ConnectsAppend(a: seq<Step>, b: seq<Step>)
    ensures ConnectsIn(a + b) == ConnectsIn(a) + ConnectsIn(b)
  {
    if a == [] {
      assert a + b == b;
    } else {
      assert (a + b)[1..] == a[1..] + b;
      ConnectsAppend(a[1..], b);
    }
  }

  lemma {:induction false} AllFail(p: Pid, n: nat)
    ensures ConnectsIn(Failures(p, n)) == n
  {
    if n > 0 {
      assert Failures(p, n)[1..] == Failures(p, n - 1);
      AllFail(p, n - 1);
    }
  }

  /** The bounds are reached: a client that can read the file and whose connects all fail makes
      six in each of the rounds it has left, and gives up after the eleventh. */
  lemma {:induction false} ClientUsesAllRounds(s: State, p: Pid) returns (run: seq<Step>)
    requires p in s.procs && s.procs[p].Reading? && s.procs[p].attempt <= 10 && s.file.Matter?
    ensures OwnSteps(run, p) && ValidRun(s, run)
    ensures Run(s, run) == Move(s, p, Idle) && ConnectsIn(run) == 6 * (11 - s.procs[p].attempt)
    decreases 11 - s.procs[p].attempt
  {
    var k := s.procs[p];
    var s1 := Apply(s, ReadsMatter(p));
    var round := RoundFails(s1, p);
    AllFail(p, 6);
    RunCons(s, ReadsMatter(p), round);
    run := [ReadsMatter(p)] + round;
    assert run[1..] == round;
    var s2 := Run(s1, round);
    assert s1.procs[p := Idle] == s.procs[p := Idle];
    if k.attempt < 10 {
      var rest := ClientUsesAllRounds(s2, p);
      RunAppend(s, run, rest);
      ConnectsAppend(run, rest);
      run := run + rest;
      assert s2.procs[p := Idle] == s.procs[p := Idle];
    }
  }

  // ----- the client's loops -----

  /** How a round of a client goes: the file is not readable, or a connect succeeds, or the
      published process exits, after some number of failed connects. */
  datatype Round = NotReadable | Accepted(after: nat) | Exited(after: nat)

  datatype Outcome = Success | ProcessExited | GaveUp

  /** What a round with at most 6 connects comes to; none if the client goes on. */
  function RoundOutcome(r: Round): Option<Outcome> {
    match r
    case NotReadable => None
    case Accepted(n) => if n <= MAX_TRIES then Some(Success) else None
    case Exited(n) => if n <= MAX_TRIES then Some(ProcessExited) else None
  }

  /** Repeats a connect until it succeeds, the process exits, or 6 connects failed. */
  method RetryConnect(r: Round) returns (outcome: Option<Outcome>, connects: nat)
    requires !r.NotReadable?
    ensures outcome == RoundOutcome(r)
    ensures connects == if outcome.None? then 6 else if outcome.value == Success then r.after + 1 else r.after
  {
    connects := 0;
    var i := 0;
    while true
      invariant i <= MAX_TRIES && connects == i && i <= r.after
      decreases MAX_TRIES - i
    {
      if r.Exited? && r.after == i {
        return Some(ProcessExited), connects;
      }
      connects := connects + 1;
      if r.Accepted? && r.after == i {
        return Some(Success), connects;
      }
      if i == MAX_TRIES {
        return None, connects;
      }
      i := i + 1;
    }
  }

  /** The client: the outcome is that of the first round that has one within 11 rounds. */
  method ConnectAsClient(rounds: nat -> Round) returns (outcome: Outcome, used: nat, connects: nat)
    ensures 1 <= used <= MAX_CLIENT_ATTEMPTS + 1 && connects <= 6 * used
    ensures forall j: nat :: j < used - 1 ==> RoundOutcome(rounds(j)).None?
    ensures if outcome == GaveUp then used == MAX_CLIENT_ATTEMPTS + 1 && RoundOutcome(rounds(used - 1)).None?
            else RoundOutcome(rounds(used - 1)) == Some(outcome)
  {
    var attempt := 0;
    connects := 0;
    while true
      invariant attempt <= MAX_CLIENT_ATTEMPTS && connects <= 6 * attempt
      invariant forall j: nat :: j < attempt ==> RoundOutcome(rounds(j)).None?
      decreases MAX_CLIENT_ATTEMPTS - attempt
    {
      var r: Option<Outcome> := None;
      var round := rounds(attempt);
      if !round.NotReadable? {
        var n;
        r, n := RetryConnect(round);
        connects := connects + n;
      }
      if r.Some? {
        return r.value, attempt + 1, connects;
      }
      if attempt == MAX_CLIENT_ATTEMPTS {
        return GaveUp, attempt + 1, connects;
      }
      attempt := attempt + 1;
    }
  }
}
