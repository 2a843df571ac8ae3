/**
  The outbound side of streams (cli/src/rpc.rs, `register_stream`): the announcement of
  the streams of a call, and one reader task per stream that forwards what it reads.

  Ids are taken from a counter and so are new; any other traffic may be interleaved, and
  the channel may close at any time.
*/
module StreamReaders {
  import opened Basics

  type Id = nat

  /** The size of a reader's buffer. */
  const SEGMENT_LIMIT: nat := 4096

  datatype Message =
    | StreamsStarted(ids: seq<Id>, forRequest: nat)
    | StreamData(stream: Id, segment: Bytes)
    | StreamEnded(stream: Id)
    | OtherMessage(body: Bytes)

  datatype Phase = Announced | Reading | Carrying(segment: Bytes) | AtEnd | Finished

  /** A stream and its reader; `got`, `sent` and `ended` are histories. */
  datatype Stream = Stream(phase: Phase, got: Bytes, sent: seq<Bytes>, ended: bool)

  datatype State = State(out: seq<Message>, open: bool, streams: map<Id, Stream>)

  const Init := State([], true, map[])

  datatype Step =
    | Register(ids: seq<Id>, request: nat)
    | Spawn(id: Id)
    | Reads(id: Id, segment: Bytes)
    | ReadEnds(id: Id)
    | SendsData(id: Id)
    | SendsEnd(id: Id)
    | OtherSends(body: Bytes)
    | Closes

  predicate InPhase(s: State, id: Id, p: Phase) { id in s.streams && s.streams[id].phase == p }

  predicate Enabled(s: State, e: Step) {
    match e
    case Register(ids, _) => forall id :: id in ids ==> id !in s.streams
    case Spawn(id) => InPhase(s, id, Announced)
    case Reads(id, segment) => InPhase(s, id, Reading) && 0 < |segment| <= SEGMENT_LIMIT
    case ReadEnds(id) => InPhase(s, id, Reading)
    case SendsData(id) => id in s.streams && s.streams[id].phase.Carrying?
    case SendsEnd(id) => InPhase(s, id, AtEnd)
    case OtherSends(_) => true
    case Closes => true
  }

  function Send(s: State, m: Message): State {
    if s.open then s.(out := s.out + [m]) else s
  }

  function Announce(streams: map<Id, Stream>, ids: seq<Id>): map<Id, Stream> {
    streams + map id | id in ids :: Stream(Announced, [], [], false)
  }

  function Apply(s: State, e: Step): State
    requires Enabled(s, e)
  {
    match e
    case Register(ids, request) =>
      if s.open then Send(s, StreamsStarted(ids, request)).(streams := Announce(s.streams, ids)) else s
    case Spawn(id) => Update(s, id, s.streams[id].(phase := Reading))
    case Reads(id, segment) =>
      Update(s, id, s.streams[id].(phase := Carrying(segment), got := s.streams[id].got + segment))
    case ReadEnds(id) => Update(s, id, s.streams[id].(phase := AtEnd))
    case SendsData(id) =>
      var k := s.streams[id];
      if s.open then
        Update(Send(s, StreamData(id, k.phase.segment)), id, k.(phase := Reading, sent := k.sent + [k.phase.segment]))
      else
        Update(s, id, k.(phase := Finished))
    case SendsEnd(id) =>
      Update(Send(s, StreamEnded(id)), id, s.streams[id].(phase := Finished, ended := s.open))
    case OtherSends(body) => Send(s, OtherMessage(body))
    case Closes => s.(open := false)
  }

  function Update(s: State, id: Id, k: Stream): State { s.(streams := s.streams[id := k]) }

  ghost predicate ValidRun(s: State, run: seq<Step>)
    decreases |run|
  {
    run == [] || (Enabled(s, run[0]) && ValidRun(Apply(s, run[0]), run[1..]))
  }

  ghost function Run(s: State, run: seq<Step>): State
    requires ValidRun(s, run)
    decreases |run|
  {
    if run == [] then s else Run(Apply(s, run[0]), run[1..])
  }

  // ----- the messages about one stream -----

  predicate About(m: Message, id: Id) {
    match m
    case StreamsStarted(ids, _) => id in ids
    case StreamData(stream, _) => stream == id
    case StreamEnded(stream) => stream == id
    case OtherMessage(_) => false
  }

  function Project(out: seq<Message>, id: Id): seq<Message> {
    if out == [] then []
    else Project(out[..|out| - 1], id) + (if About(out[|out| - 1], id) then [out[|out| - 1]] else [])
  }

  lemma ProjectSend(out: seq<Message>, m: Message, id: Id)
    ensures Project(out + [m], id) == Project(out, id) + (if About(m, id) then [m] else [])
  {
    assert (out + [m])[..|out|] == out;
  }

  /** One announcement, then the segments in order, then the end if there was one. */
  ghost predicate Shape(p: seq<Message>, id: Id, sent: seq<Bytes>, ended: bool) {
    && |p| == 1 + |sent| + (if ended then 1 else 0)
    && p[0].StreamsStarted? && id in p[0].ids
    && (forall i :: 0 <= i < |sent| ==> p[1 + i] == StreamData(id, sent[i]))
    && (ended ==> p[1 + |sent|] == StreamEnded(id))
  }

  lemma ShapeData(p: seq<Message>, id: Id, sent: seq<Bytes>, segment: Bytes)
    requires Shape(p, id, sent, false)
    ensures Shape(p + [StreamData(id, segment)], id, sent + [segment], false)
    ensures Shape(p + [StreamEnded(id)], id, sent, true)
  {
  }

  /** The segments sent are what was read, up to the segment in hand; only a closed channel
      makes a reader stop without its end message. */
  ghost predicate StreamOk(k: Stream, open: bool) {
    && (forall i :: 0 <= i < |k.sent| ==> 0 < |k.sent[i]| <= SEGMENT_LIMIT)
    && (k.ended ==> k.phase == Finished)
    && match k.phase
       case Announced => k.got == [] && k.sent == []
       case Carrying(segment) => Flatten(k.sent) + segment == k.got && 0 < |segment| <= SEGMENT_LIMIT
       case Finished => if k.ended then Flatten(k.sent) == k.got else !open && Flatten(k.sent) <= k.got
       case _ => Flatten(k.sent) == k.got
  }

  /** The messages about a stream agree with its history. */
  ghost predicate Told(s: State, id: Id) {
    if id in s.streams then Shape(Project(s.out, id), id, s.streams[id].sent, s.streams[id].ended)
    else Project(s.out, id) == []
  }

  ghost predicate StreamInv(s: State, id: Id) {
    Told(s, id) && (id in s.streams ==> StreamOk(s.streams[id], s.open))
  }

  lemma StreamStep(s: State, e: Step, id: Id)
    requires StreamInv(s, id) && Enabled(s, e) && id in Apply(s, e).streams
    ensures StreamOk(Apply(s, e).streams[id], Apply(s, e).open)
  {
    if e == SendsData(id) {
      var k := s.streams[id];
      FlattenAppend(k.sent, [k.phase.segment]);
      FlattenOne(k.phase.segment);
    }
  }

  /** A step that sends nothing about a stream leaves what was told of it. */
  lemma UntoldStep(s: State, e: Step, id: Id)
    requires Told(s, id) && Enabled(s, e)
    requires e != SendsData(id) && e != SendsEnd(id) && !(e.Register? && id in e.ids)
    ensures Told(Apply(s, e), id)
  {
    var s' := Apply(s, e);
    assert id in s'.streams <==> id in s.streams;
    assert id in s.streams ==> s'.streams[id].sent == s.streams[id].sent && s'.streams[id].ended == s.streams[id].ended;
    if s'.out != s.out {
      var m := s'.out[|s.out|];
      assert s'.out == s.out + [m] && !About(m, id);
      ProjectSend(s.out, m, id);
    }
  }

  lemma ToldStep(s: State, e: Step, id: Id)
    requires StreamInv(s, id) && Enabled(s, e)
    ensures Told(Apply(s, e), id)
  {
    if e == SendsData(id) {
      var segment := s.streams[id].phase.segment;
      ProjectSend(s.out, StreamData(id, segment), id);
      ShapeData(Project(s.out, id), id, s.streams[id].sent, segment);
    } else if e == SendsEnd(id) {
      ProjectSend(s.out, StreamEnded(id), id);
      ShapeData(Project(s.out, id), id, s.streams[id].sent, []);
    } else if e.Register? && id in e.ids {
      ProjectSend(s.out, StreamsStarted(e.ids, e.request), id);
    } else {
      UntoldStep(s, e, id);
    }
  }

  lemma {:induction false} StreamRun(s: State, run: seq<Step>, id: Id)
    requires StreamInv(s, id) && ValidRun(s, run)
    ensures StreamInv(Run(s, run), id)
    decreases |run|
  {
    if run != [] {
      ToldStep(s, run[0], id);
      if id in Apply(s, run[0]).streams {
        StreamStep(s, run[0], id);
      }
      StreamRun(Apply(s, run[0]), run[1..], id);
    }
  }

  // ----- what the steps of a run say -----

  /** The segments read from a stream, in order. */
  function Segments(run: seq<Step>, id: Id): seq<Bytes> {
    if run == [] then []
    else (if run[0].Reads? && run[0].id == id then [run[0].segment] else []) + Segments(run[1..], id)
  }

  /** The segments a reader has taken on: those sent, and the one in hand. */
  ghost function Taken(k: Stream): seq<Bytes> { k.sent + (if k.phase.Carrying? then [k.phase.segment] else []) }

  lemma {:induction false} FinishedReadsNothing(s: State, run: seq<Step>, id: Id)
    requires ValidRun(s, run) && id in s.streams && s.streams[id].phase.Finished?
    ensures Segments(run, id) == [] && id in Run(s, run).streams && Run(s, run).streams[id] == s.streams[id]
    decreases |run|
  {
    if run != [] {
      FinishedReadsNothing(Apply(s, run[0]), run[1..], id);
    }
  }

  lemma TakenStep(s: State, e: Step, id: Id)
    requires Enabled(s, e) && id in s.streams
    ensures id in Apply(s, e).streams
    ensures var k, k' := s.streams[id], Apply(s, e).streams[id];
            var read := if e.Reads? && e.id == id then [e.segment] else [];
            && k'.got == k.got + Flatten(read)
            && (Taken(k') == Taken(k) + read || (k'.phase.Finished? && !s.open && Taken(k') <= Taken(k)))
  {
    if e.Reads? && e.id == id {
      FlattenOne(e.segment);
    }
  }

  lemma {:induction false} TakenRun(s: State, run: seq<Step>, id: Id)
    requires ValidRun(s, run) && id in s.streams
    ensures id in Run(s, run).streams
    ensures var k, k' := s.streams[id], Run(s, run).streams[id];
            && k'.got == k.got + Flatten(Segments(run, id))
            && Taken(k') <= Taken(k) + Segments(run, id)
            && (Run(s, run).open ==> Taken(k') == Taken(k) + Segments(run, id))
    decreases |run|
  {
    if run != [] {
      var s', e := Apply(s, run[0]), run[0];
      var read := if e.Reads? && e.id == id then [e.segment] else [];
      TakenStep(s, e, id);
      if Taken(s'.streams[id]) == Taken(s.streams[id]) + read {
        TakenRun(s', run[1..], id);
        Regroup(Taken(s.streams[id]), read, Segments(run[1..], id));
      } else {
        FinishedReadsNothing(s', run[1..], id);
        ClosedForGood(s', run[1..]);
      }
      FlattenAppend(read, Segments(run[1..], id));
      Regroup(s.streams[id].got, Flatten(read), Flatten(Segments(run[1..], id)));
    }
  }

  lemma {:induction false} ClosedForGood(s: State, run: seq<Step>)
    requires ValidRun(s, run) && !s.open
    ensures !Run(s, run).open
    decreases |run|
  {
    if run != [] {
      ClosedForGood(Apply(s, run[0]), run[1..]);
    }
  }

  /** A step announces the stream. */
  predicate Announces(e: Step, id: Id) { e.Register? && id in e.ids }

  /** From a state where a stream is unknown: its segments are those read, and its first message
      is the announcement that a step of the run asked for, for the request given there. */
  lemma {:induction false} HistoryRun(s: State, run: seq<Step>, id: Id)
    requires ValidRun(s, run) && id !in s.streams && Project(s.out, id) == [] && id in Run(s, run).streams
    ensures var k := Run(s, run).streams[id];
            && k.got == Flatten(Segments(run, id)) && Taken(k) <= Segments(run, id)
            && (Run(s, run).open ==> Taken(k) == Segments(run, id))
    ensures exists i :: 0 <= i < |run| && Announces(run[i], id) &&
                        FirstIs(Run(s, run).out, id, StreamsStarted(run[i].ids, run[i].request))
    decreases |run|
  {
    var s', e := Apply(s, run[0]), run[0];
    UnknownStep(s, e, id);
    if id in s'.streams {
      TakenRun(s', run[1..], id);
      FirstStays(s', run[1..], id, StreamsStarted(e.ids, e.request));
    } else {
      HistoryRun(s', run[1..], id);
      var i :| 0 <= i < |run| - 1 && Announces(run[1..][i], id) &&
               FirstIs(Run(s, run).out, id, StreamsStarted(run[1..][i].ids, run[1..][i].request));
      assert Announces(run[i + 1], id);
    }
    assert [] + Segments(run[1..], id) == Segments(run[1..], id);
  }

  lemma UnknownStep(s: State, e: Step, id: Id)
    requires Enabled(s, e) && id !in s.streams && Project(s.out, id) == []
    ensures !(e.Reads? && e.id == id)
    ensures var s' := Apply(s, e);
            if id in s'.streams then
              && Announces(e, id) && s'.streams[id] == Stream(Announced, [], [], false)
              && FirstIs(s'.out, id, StreamsStarted(e.ids, e.request))
            else Project(s'.out, id) == []
  {
    var s' := Apply(s, e);
    if id in s'.streams {
      ProjectSend(s.out, StreamsStarted(e.ids, e.request), id);
    } else if !Announces(e, id) {
      UntoldStep(s, e, id);
    }
  }

  /** The first message about the stream. */
  ghost predicate FirstIs(out: seq<Message>, id: Id, m: Message) { Project(out, id) != [] && Project(out, id)[0] == m }

  lemma FirstStep(s: State, e: Step, id: Id, m: Message)
    requires Enabled(s, e) && FirstIs(s.out, id, m)
    ensures FirstIs(Apply(s, e).out, id, m)
  {
    var s' := Apply(s, e);
    if s'.out != s.out {
      var last := s'.out[|s.out|];
      assert s'.out == s.out + [last];
      ProjectSend(s.out, last, id);
    }
  }

  lemma {:induction false} FirstStays(s: State, run: seq<Step>, id: Id, m: Message)
    requires ValidRun(s, run) && FirstIs(s.out, id, m)
    ensures FirstIs(Run(s, run).out, id, m)
    decreases |run|
  {
    if run != [] {
      FirstStep(s, run[0], id, m);
      FirstStays(Apply(s, run[0]), run[1..], id, m);
    }
  }

  /** In every run, the messages about an announced stream are: first the announcement that a
      registration of the run asked for, with its ids and its request; then one message for
      each segment that was read, in order, each non-empty and within the limit; then at most
      one end, sent when everything read was sent.  While the channel is open at most the
      segment in hand is missing, and a reader is finished exactly when its end was sent. */
  lemma MessagesOfAStream(run: seq<Step>, id: Id)
    requires ValidRun(Init, run) && id in Run(Init, run).streams
    ensures var s := Run(Init, run);
            var k := s.streams[id];
            && Shape(Project(s.out, id), id, k.sent, k.ended)
            && k.sent <= Segments(run, id) && (forall i :: 0 <= i < |k.sent| ==> 0 < |k.sent[i]| <= 4096)
            && (k.ended ==> Flatten(k.sent) == Flatten(Segments(run, id)))
            && (s.open ==> k.sent + (if k.phase.Carrying? then [k.phase.segment] else []) == Segments(run, id))
            && (s.open ==> (k.phase == Finished <==> k.ended))
    ensures exists i :: 0 <= i < |run| && Announces(run[i], id) &&
                        Project(Run(Init, run).out, id)[0] == StreamsStarted(run[i].ids, run[i].request)
  {
    StreamRun(Init, run, id);
    HistoryRun(Init, run, id);
  }

  /** Nothing is sent about a stream that was not announced. */
  lemma NothingBeforeAnnouncement(run: seq<Step>, id: Id)
    requires ValidRun(Init, run) && id !in Run(Init, run).streams
    ensures Project(Run(Init, run).out, id) == []
  {
    StreamRun(Init, run, id);
  }

  // ----- what a reader can do -----

  lemma RunCons(s: State, e: Step, rest: seq<Step>)
    requires Enabled(s, e) && ValidRun(Apply(s, e), rest)
    ensures ValidRun(s, [e] + rest) && Run(s, [e] + rest) == Run(Apply(s, e), rest)
  {
    assert ([e] + rest)[1..] == rest;
  }

  function DataMessages(id: Id, segments: seq<Bytes>): seq<Message> {
    seq(|segments|, i requires 0 <= i < |segments| => StreamData(id, segments[i]))
  }

  /** From `s` the steps forward the segments and then the end. */
  ghost predicate Forwards(s: State, run: seq<Step>, id: Id, segments: seq<Bytes>) {
    && ValidRun(s, run) && Segments(run, id) == segments && InPhase(Run(s, run), id, Finished)
    && Run(s, run).out == s.out + (DataMessages(id, segments) + [StreamEnded(id)])
  }

  lemma ForwardsEnd(s: State, id: Id)
    requires s.open && InPhase(s, id, Reading)
    ensures Forwards(s, [ReadEnds(id)] + [SendsEnd(id)], id, [])
  {
    var last := [SendsEnd(id)];
    assert last[1..] == [];
    RunCons(s, ReadEnds(id), last);
    assert ([ReadEnds(id)] + last)[1..] == last && Segments(last, id) == [];
    assert Run(Apply(s, ReadEnds(id)), last).out == s.out + [StreamEnded(id)];
    assert DataMessages(id, []) + [StreamEnded(id)] == [StreamEnded(id)];
  }

  lemma ForwardsOne(s: State, id: Id, first: Bytes, run: seq<Step>, rest: seq<Bytes>)
    requires s.open && InPhase(s, id, Reading) && Enabled(s, Reads(id, first))
    requires Forwards(Apply(Apply(s, Reads(id, first)), SendsData(id)), run, id, rest)
    ensures Forwards(s, [Reads(id, first)] + ([SendsData(id)] + run), id, [first] + rest)
  {
    var s1 := Apply(s, Reads(id, first));
    RunCons(s1, SendsData(id), run);
    RunCons(s, Reads(id, first), [SendsData(id)] + run);
    assert ([Reads(id, first)] + ([SendsData(id)] + run))[1..] == [SendsData(id)] + run;
    assert ([SendsData(id)] + run)[1..] == run;
    assert DataMessages(id, [first] + rest) == [StreamData(id, first)] + DataMessages(id, rest);
    var more := DataMessages(id, rest) + [StreamEnded(id)];
    assert s.out + [StreamData(id, first)] + more == s.out + ([StreamData(id, first)] + more);
    Regroup([StreamData(id, first)], DataMessages(id, rest), [StreamEnded(id)]);
  }

  lemma {:induction false} ReadingForwards(s: State, id: Id, segments: seq<Bytes>) returns (run: seq<Step>)
    requires s.open && InPhase(s, id, Reading)
    requires forall i :: 0 <= i < |segments| ==> 0 < |segments[i]| <= 4096
    ensures Forwards(s, run, id, segments)
    decreases |segments|
  {
    if segments == [] {
      ForwardsEnd(s, id);
      run := [ReadEnds(id)] + [SendsEnd(id)];
    } else {
      var s1 := Apply(s, Reads(id, segments[0]));
      run := ReadingForwards(Apply(s1, SendsData(id)), id, segments[1..]);
      ForwardsOne(s, id, segments[0], run, segments[1..]);
      run := [Reads(id, segments[0])] + ([SendsData(id)] + run);
      assert [segments[0]] + segments[1..] == segments;
    }
  }

  /** Left alone on an open channel, the reader of an announced stream can forward anything it
      gets and then its end. */
  lemma ReaderForwards(s: State, id: Id, segments: seq<Bytes>) returns (run: seq<Step>)
    requires s.open && InPhase(s, id, Announced)
    requires forall i :: 0 <= i < |segments| ==> 0 < |segments[i]| <= 4096
    ensures Forwards(s, run, id, segments)
  {
    var rest := ReadingForwards(Apply(s, Spawn(id)), id, segments);
    RunCons(s, Spawn(id), rest);
    run := [Spawn(id)] + rest;
    assert run[1..] == rest;
  }

  lemma AnnounceNext(streams: map<Id, Stream>, ids: seq<Id>, i: nat)
    requires i < |ids|
    ensures Announce(streams, ids[..i + 1]) == Announce(streams, ids[..i])[ids[i] := Stream(Announced, [], [], false)]
  {
    assert ids[..i + 1] == ids[..i] + [ids[i]];
  }

  // ----- the program -----

  /** The channel and the tasks that `register_stream` spawns. */
  class Registrar {
    var out: seq<Message>
    var open: bool
    var streams: map<Id, Stream>

    ghost function View(): State
      reads this
    {
      State(out, open, streams)
    }

    constructor ()
      ensures View() == Init
    {
      out, open, streams := [], true, map[];
    }

    method SendMessage(m: Message) returns (ok: bool)
      modifies this`out
      ensures ok == open && View() == Send(old(View()), m)
    {
      ok := open;
      if ok {
        out := out + [m];
      }
    }

    /** Announces the streams, and gives up if the channel is closed. */
    method RegisterStream(ids: seq<Id>, request: nat)
      requires Enabled(View(), Register(ids, request))
      modifies this
      ensures View() == Apply(old(View()), Register(ids, request))
    {
      var ok := SendMessage(StreamsStarted(ids, request));
      if !ok {
        return;
      }
      var i := 0;
      assert Announce(old(streams), ids[..0]) == old(streams);
      while i < |ids|
        invariant i <= |ids| && open == old(open) && out == old(out) + [StreamsStarted(ids, request)]
        invariant streams == Announce(old(streams), ids[..i])
      {
        streams := streams[ids[i] := Stream(Announced, [], [], false)];
        AnnounceNext(old(streams), ids, i);
        i := i + 1;
      }
      assert ids[..i] == ids;
    }

    /** A reader hands on the segment it has read; it stops if the channel is closed. */
    method ForwardSegment(id: Id)
      requires Enabled(View(), SendsData(id))
      modifies this
      ensures View() == Apply(old(View()), SendsData(id))
    {
      var k := streams[id];
      var ok := SendMessage(StreamData(id, k.phase.segment));
      if ok {
        streams := streams[id := k.(phase := Reading, sent := k.sent + [k.phase.segment])];
      } else {
        streams := streams[id := k.(phase := Finished)];
      }
    }

    /** A reader whose stream has ended says so. */
    method ForwardEnd(id: Id)
      requires Enabled(View(), SendsEnd(id))
      modifies this
      ensures View() == Apply(old(View()), SendsEnd(id))
    {
      var ok := SendMessage(StreamEnded(id));
      streams := streams[id := streams[id].(phase := Finished, ended := ok)];
    }
  }
}
