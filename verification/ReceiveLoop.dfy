/**
  The receive loop of a connection and its bounded outbound channel
  (cli/src/msgpack_rpc.rs, `start_msgpack_rpc`).

  While the loop drains the frames of one read it sends replies and stream announcements
  into the channel itself, and it is also the only receiver of that channel.  Spawned
  tasks send into the channel at any time.
*/
module ReceiveLoop {
  import opened Basics

  /** The capacity of the outbound channel. */
  const CAPACITY: nat := 8

  /** What dispatching one frame makes the loop itself send: a reply of a synchronous
      method or the announcement of streams, or nothing. */
  datatype Reply = Silent | Sends(message: Bytes)

  datatype Place = AtSelect | Draining(todo: seq<Reply>) | Stopped

  datatype State = State(chan: seq<Bytes>, loop: Place)

  datatype Step =
    | ReadArrives(replies: seq<Reply>)
    | Dispatch
    | ReturnToSelect
    | TaskSends(message: Bytes)
    | Receive
    | Shutdown

  /** A send waits for a free slot, and fails at once when the loop has stopped and dropped its
      receiver; the select is not polled while a read is drained. */
  predicate Enabled(s: State, e: Step) {
    match e
    case ReadArrives(_) => s.loop.AtSelect?
    case Dispatch => s.loop.Draining? && s.loop.todo != [] && (s.loop.todo[0].Sends? ==> |s.chan| < CAPACITY)
    case ReturnToSelect => s.loop == Draining([])
    case TaskSends(_) => s.loop.Stopped? || |s.chan| < CAPACITY
    case Receive => s.loop.AtSelect? && s.chan != []
    case Shutdown => s.loop.AtSelect?
  }

  function Apply(s: State, e: Step): State
    requires Enabled(s, e)
  {
    match e
    case ReadArrives(replies) => s.(loop := Draining(replies))
    case Dispatch => State(s.chan + Messages(s.loop.todo[..1]), Draining(s.loop.todo[1..]))
    case ReturnToSelect => s.(loop := AtSelect)
    case TaskSends(m) => if s.loop.Stopped? then s else s.(chan := s.chan + [m])
    case Receive => s.(chan := s.chan[1..])
    case Shutdown => State([], Stopped)
  }

  ghost predicate ValidRun(s: State, run: seq<Step>)
    decreases |run|
  {
    run == [] || (Enabled(s, run[0]) && ValidRun(Apply(s, run[0]), run[1..]))
  }

  ghost function Run(s: State, run: seq<Step>): State
    requires ValidRun(s, run)
    decreases |run|
  {
    if run == [] then s else Run(Apply(s, run[0]), run[1..])
  }

  /** The messages that dispatching the frames sends, in order. */
  function Messages(todo: seq<Reply>): (r: seq<Bytes>)
    ensures |r| <= |todo|
  {
    if todo == [] then []
    else (if todo[0].Sends? then [todo[0].message] else []) + Messages(todo[1..])
  }

  lemma {:induction false} MessagesAppend(a: seq<Reply>, b: seq<Reply>)
    ensures Messages(a + b) == Messages(a) + Messages(b)
  {
    if a == [] {
      assert a + b == b;
    } else {
      assert (a + b)[1..] == a[1..] + b;
      MessagesAppend(a[1..], b);
      var first := if a[0].Sends? then [a[0].message] else [];
      Regroup(first, Messages(a[1..]), Messages(b));
    }
  }

  /** What the frames send, one by one: a frame that sends adds its message in its place, any
      other adds nothing. */
  lemma MessagesAre(a: seq<Reply>, r: Reply, b: seq<Reply>)
    ensures Messages([]) == []
    ensures Messages(a + ([r] + b)) == Messages(a) + ((if r.Sends? then [r.message] else []) + Messages(b))
  {
    MessagesAppend(a, [r] + b);
    assert ([r] + b)[1..] == b;
  }

  // ----- messages come out in the order they were put in -----

  /** The messages that the steps of a run put into the channel. */
  ghost function PutIn(s: State, run: seq<Step>): seq<Bytes>
    requires ValidRun(s, run)
    decreases |run|
  {
    if run == [] then []
    else Put(s, run[0]) + PutIn(Apply(s, run[0]), run[1..])
  }

  /** The messages that its receives hand out. */
  ghost function TakenOut(s: State, run: seq<Step>): seq<Bytes>
    requires ValidRun(s, run)
    decreases |run|
  {
    if run == [] then []
    else (if run[0].Receive? then [s.chan[0]] else []) + TakenOut(Apply(s, run[0]), run[1..])
  }

  /** Until the loop shuts down, the messages handed out and then those in the channel are those
      that were in the channel and then those put in. */
  lemma {:induction false} FirstInFirstOut(s: State, run: seq<Step>)
    requires ValidRun(s, run) && forall k :: 0 <= k < |run| ==> !run[k].Shutdown?
    ensures TakenOut(s, run) + Run(s, run).chan == s.chan + PutIn(s, run)
    decreases |run|
  {
    if run != [] {
      var s', e := Apply(s, run[0]), run[0];
      FirstInFirstOut(s', run[1..]);
      ChannelStep(s, e);
      FifoStep(if e.Receive? then [s.chan[0]] else [], TakenOut(s', run[1..]), Run(s, run).chan, s.chan, s'.chan,
               Put(s, e), PutIn(s', run[1..]));
    }
  }

  ghost function Put(s: State, e: Step): seq<Bytes>
    requires Enabled(s, e)
  {
    match e
    case TaskSends(m) => if s.loop.Stopped? then [] else [m]
    case Dispatch => if s.loop.todo[0].Sends? then [s.loop.todo[0].message] else []
    case _ => []
  }

  lemma ChannelStep(s: State, e: Step)
    requires Enabled(s, e) && !e.Shutdown?
    ensures (if e.Receive? then [s.chan[0]] else []) + Apply(s, e).chan == s.chan + Put(s, e)
  {
    if e.Dispatch? {
      assert s.loop.todo[..1][1..] == [];
    }
  }

  lemma FifoStep<T>(out: seq<T>, outs: seq<T>, end: seq<T>, before: seq<T>, after: seq<T>, put: seq<T>, puts: seq<T>)
    requires out + after == before + put && outs + end == after + puts
    ensures out + outs + end == before + (put + puts)
  {
    Regroup(out, outs, end);
    Regroup(out, after, puts);
    Regroup(before, put, puts);
  }

  /** The loop wants to send and the channel is full. */
  ghost predicate Blocked(s: State) {
    s.loop.Draining? && s.loop.todo != [] && s.loop.todo[0].Sends? && |s.chan| >= CAPACITY
  }

  /** Nothing at all can happen on the connection exactly when the channel is full and the
      loop wants to send. */
  lemma DeadExactly(s: State)
    ensures (forall e :: !Enabled(s, e)) <==> Blocked(s)
  {
    if |s.chan| < CAPACITY || s.loop.Stopped? {
      assert Enabled(s, TaskSends([]));
    } else if s.loop.AtSelect? {
      assert Enabled(s, Shutdown);
    } else if s.loop.Draining? && s.loop.todo == [] {
      assert Enabled(s, ReturnToSelect);
    } else if s.loop.Draining? && !Blocked(s) {
      assert Enabled(s, Dispatch);
    }
  }

  /** A send of the loop that meets a full channel never completes: a run that comes to it
      ends there, without even a shutdown. */
  lemma {:induction false} BlockedForever(s: State, before: seq<Step>, after: seq<Step>)
    requires ValidRun(s, before + after) && ValidRun(s, before) && Blocked(Run(s, before))
    ensures after == []
    decreases |before|
  {
    if before == [] {
      assert before + after == after;
      DeadExactly(s);
    } else {
      assert (before + after)[1..] == before[1..] + after;
      BlockedForever(Apply(s, before[0]), before[1..], after);
    }
  }

  // ----- when the loop can return -----

  ghost predicate Fits(s: State)
    requires s.loop.Draining?
  {
    Messages(s.loop.todo) == [] || |s.chan| + |Messages(s.loop.todo)| <= 8
  }

  lemma {:induction false} ReturningNeedsRoom(s: State, run: seq<Step>)
    requires ValidRun(s, run) && s.loop.Draining? && !Run(s, run).loop.Draining?
    ensures Fits(s)
    decreases |run|
  {
    var s' := Apply(s, run[0]);
    if s'.loop.Draining? {
      ReturningNeedsRoom(s', run[1..]);
      if run[0].Dispatch? {
        assert [s.loop.todo[0]] == s.loop.todo[..1];
        assert s.loop.todo[..1][1..] == [];
      }
    }
  }

  function Dispatches(n: nat): seq<Step> { seq(n, i => Dispatch) }

  lemma {:induction false} DispatchOne(s: State)
    requires s.loop.Draining? && s.loop.todo != []
    requires s.loop.todo[0].Sends? ==> |s.chan| < CAPACITY
    ensures Enabled(s, Dispatch)
    ensures var s', todo := Apply(s, Dispatch), s.loop.todo;
            && s'.loop == Draining(todo[1..])
            && s'.chan + Messages(todo[1..]) == s.chan + Messages(todo)
            && |s'.chan| == |s.chan| + (if todo[0].Sends? then 1 else 0)
            && |Messages(todo[1..])| == |Messages(todo)| - (if todo[0].Sends? then 1 else 0)
  {
    assert s.loop.todo[..1][1..] == [];
  }

  lemma {:induction false} RoomIsEnough(s: State)
    requires s.loop.Draining? && Fits(s)
    ensures ValidRun(s, Dispatches(|s.loop.todo|) + [ReturnToSelect])
    ensures Run(s, Dispatches(|s.loop.todo|) + [ReturnToSelect]) == State(s.chan + Messages(s.loop.todo), AtSelect)
    decreases |s.loop.todo|
  {
    var todo := s.loop.todo;
    var run := Dispatches(|todo|) + [ReturnToSelect];
    if todo == [] {
      assert run == [ReturnToSelect] && run[1..] == [];
    } else {
      DispatchOne(s);
      RoomIsEnough(Apply(s, Dispatch));
      assert run[1..] == Dispatches(|todo| - 1) + [ReturnToSelect];
    }
  }

  /** Draining a read can end exactly when its own messages fit into the free slots. */
  lemma CanReturnExactly(s: State)
    requires s.loop.Draining?
    ensures Fits(s) <==> exists run :: ValidRun(s, run) && !Run(s, run).loop.Draining?
  {
    if Fits(s) {
      RoomIsEnough(s);
    }
    forall run | ValidRun(s, run) && !Run(s, run).loop.Draining?
      ensures Fits(s)
    {
      ReturningNeedsRoom(s, run);
    }
  }

  /** Nine replies in one read block the loop for good, even on an idle connection. */
  lemma NineRepliesNeverReturn(replies: seq<Reply>, run: seq<Step>)
    requires |Messages(replies)| > 8 && ValidRun(State([], AtSelect), [ReadArrives(replies)] + run)
    ensures Run(State([], AtSelect), [ReadArrives(replies)] + run).loop.Draining?
  {
    var s := State([], Draining(replies));
    assert ([ReadArrives(replies)] + run)[1..] == run;
    if !Run(s, run).loop.Draining? {
      ReturningNeedsRoom(s, run);
    }
  }

  // ----- counting the slots that spawned tasks fill -----

  /** A run that stays within the draining of one read. */
  ghost predicate WithinDrain(run: seq<Step>) {
    forall i :: 0 <= i < |run| ==> run[i].Dispatch? || run[i].TaskSends?
  }

  ghost function TaskSendsIn(run: seq<Step>): nat {
    if run == [] then 0 else (if run[0].TaskSends? then 1 else 0) + TaskSendsIn(run[1..])
  }

  lemma {:induction false} BlockingNeedsTraffic(s: State, run: seq<Step>)
    requires ValidRun(s, run) && WithinDrain(run) && s.loop.Draining? && |s.chan| <= CAPACITY && Blocked(Run(s, run))
    ensures Messages(s.loop.todo) != [] && |s.chan| + TaskSendsIn(run) + |Messages(s.loop.todo)| > CAPACITY
    decreases |run|
  {
    if run != [] {
      if run[0].Dispatch? {
        DispatchOne(s);
      }
      assert WithinDrain(run[1..]);
      BlockingNeedsTraffic(Apply(s, run[0]), run[1..]);
    }
  }

  lemma {:induction false} TrafficBlocks(s: State, tasks: nat) returns (run: seq<Step>)
    requires s.loop.Draining? && |s.chan| <= CAPACITY && Messages(s.loop.todo) != []
    requires |s.chan| + tasks + |Messages(s.loop.todo)| > CAPACITY
    ensures ValidRun(s, run) && WithinDrain(run) && TaskSendsIn(run) <= tasks && Blocked(Run(s, run))
    decreases |s.loop.todo|, tasks
  {
    run := [];
    if tasks > 0 && |s.chan| < CAPACITY {
      var rest := TrafficBlocks(Apply(s, TaskSends([])), tasks - 1);
      run := [TaskSends([])] + rest;
      assert run[1..] == rest;
    } else if !Blocked(s) {
      DispatchOne(s);
      var rest := TrafficBlocks(Apply(s, Dispatch), 0);
      run := [Dispatch] + rest;
      assert run[1..] == rest;
    }
  }

  /** While a read is drained, `tasks` sends of spawned tasks can block the loop exactly when
      the loop has something to send and all messages together exceed the capacity. */
  lemma CanBlockExactly(s: State, tasks: nat)
    requires s.loop.Draining? && |s.chan| <= CAPACITY
    ensures (Messages(s.loop.todo) != [] && |s.chan| + tasks + |Messages(s.loop.todo)| > CAPACITY) <==>
            exists run :: ValidRun(s, run) && WithinDrain(run) && TaskSendsIn(run) <= tasks && Blocked(Run(s, run))
  {
    if Messages(s.loop.todo) != [] && |s.chan| + tasks + |Messages(s.loop.todo)| > CAPACITY {
      var run := TrafficBlocks(s, tasks);
    }
    forall run | ValidRun(s, run) && WithinDrain(run) && TaskSendsIn(run) <= tasks && Blocked(Run(s, run))
      ensures Messages(s.loop.todo) != [] && |s.chan| + tasks + |Messages(s.loop.todo)| > CAPACITY
    {
      BlockingNeedsTraffic(s, run);
    }
  }

  // ----- the program -----

  /** The outbound channel as the receive loop uses it. */
  class Outbound {
    var chan: seq<Bytes>

    constructor ()
      ensures chan == []
    {
      chan := [];
    }

    /** Drains the frames of one read with no other traffic; tells whether it got through,
        or else after how many frames it was left waiting for a slot that never comes. */
    method DrainRead(replies: seq<Reply>) returns (returned: bool, done: nat)
      requires |chan| <= CAPACITY
      modifies this
      ensures returned <==> Messages(replies) == [] || |old(chan)| + |Messages(replies)| <= CAPACITY
      ensures done <= |replies| && chan == old(chan) + Messages(replies[..done])
      ensures if returned then done == |replies| else Blocked(State(chan, Draining(replies[done..])))
    {
      done := 0;
      assert old(chan) + Messages(replies[..0]) == old(chan);
      while done < |replies|
        invariant done <= |replies| && |chan| <= CAPACITY
        invariant chan == old(chan) + Messages(replies[..done])
      {
        MessagesAppend(replies[..done], replies[done..]);
        assert replies == replies[..done] + replies[done..];
        assert replies[..done + 1] == replies[..done] + [replies[done]];
        MessagesAppend(replies[..done], [replies[done]]);
        assert [replies[done]][1..] == [];
        if replies[done].Sends? {
          if |chan| == CAPACITY {
            return false, done;
          }
          chan := chan + [replies[done].message];
        }
        done := done + 1;
      }
      assert replies[..done] == replies;
      returned := true;
    }
  }
}
