/**
  The line buffer that forwards a child process's output (src/bootstrap-fork.ts, the
  closure of `wrapStream`).

  Every write appends to a buffer.  If the buffer has grown past the limit all of it is
  passed on; otherwise everything before the last newline is, and the newline is dropped.
*/
module LineBuffer {
  import opened Basics

  const MAX_STREAM_BUFFER_LENGTH: nat := 1024 * 1024

  /** A text passed on: cut at a newline that is dropped, or because of an overflow. */
  datatype Cut = Cut(text: string, newline: bool)

  /** The index of the last newline, or -1. */
  function LastNewline(s: string): (r: int)
    ensures -1 <= r < |s|
    ensures r >= 0 ==> s[r] == '\n'
    ensures forall i :: r < i < |s| ==> s[i] != '\n'
  {
    if s == [] then -1
    else if s[|s| - 1] == '\n' then |s| - 1
    else LastNewline(s[..|s| - 1])
  }

  datatype State = State(buf: string, cuts: seq<Cut>)

  function AfterWrite(s: State, chunk: string): State {
    var buf := s.buf + chunk;
    var eol := LastNewline(buf);
    if |buf| > MAX_STREAM_BUFFER_LENGTH then State("", s.cuts + [Cut(buf, false)])
    else if eol == -1 then State(buf, s.cuts)
    else State(buf[eol + 1..], s.cuts + [Cut(buf[..eol], true)])
  }

  function AfterAll(chunks: seq<string>): State {
    if chunks == [] then State("", []) else AfterWrite(AfterAll(chunks[..|chunks| - 1]), chunks[|chunks| - 1])
  }

  /** The input that the texts passed on stand for. */
  function Covered(cuts: seq<Cut>): string {
    if cuts == [] then ""
    else Covered(cuts[..|cuts| - 1]) + cuts[|cuts| - 1].text + (if cuts[|cuts| - 1].newline then "\n" else "")
  }

  lemma CoveredNext(cuts: seq<Cut>, c: Cut)
    ensures Covered(cuts + [c]) == Covered(cuts) + c.text + (if c.newline then "\n" else "")
  {
    assert (cuts + [c])[..|cuts|] == cuts;
  }

  /** Cutting at the last newline, and putting the newline back. */
  lemma CutAndJoin(before: string, buf: string, eol: nat)
    requires eol < |buf| && buf[eol] == '\n'
    ensures before + buf[..eol] + "\n" + buf[eol + 1..] == before + buf
  {
    assert buf == buf[..eol] + "\n" + buf[eol + 1..];
  }

  lemma WriteKeepsInput(s: State, chunk: string)
    ensures var s' := AfterWrite(s, chunk); Covered(s'.cuts) + s'.buf == Covered(s.cuts) + (s.buf + chunk)
  {
    var buf := s.buf + chunk;
    var eol := LastNewline(buf);
    if |buf| > MAX_STREAM_BUFFER_LENGTH {
      CoveredNext(s.cuts, Cut(buf, false));
    } else if eol != -1 {
      CoveredNext(s.cuts, Cut(buf[..eol], true));
      CutAndJoin(Covered(s.cuts), buf, eol);
    }
  }

  lemma BufferStaysClean(s: State, chunk: string)
    ensures '\n' !in AfterWrite(s, chunk).buf && |AfterWrite(s, chunk).buf| <= MAX_STREAM_BUFFER_LENGTH
  {
    var buf := s.buf + chunk;
    assert '\n' !in buf[LastNewline(buf) + 1..];
  }

  lemma FlattenLast(chunks: seq<string>)
    requires chunks != []
    ensures Flatten(chunks) == Flatten(chunks[..|chunks| - 1]) + chunks[|chunks| - 1]
  {
    var n := |chunks| - 1;
    FlattenAppend(chunks[..n], [chunks[n]]);
    FlattenOne(chunks[n]);
    assert chunks == chunks[..n] + [chunks[n]];
  }

  /** However the input is cut into writes, the texts passed on, each followed by the newline
      it was cut at, and then the buffer, are the whole input; the buffer never holds a
      newline and never exceeds the limit. */
  lemma {:induction false} NothingIsLost(chunks: seq<string>)
    ensures var s := AfterAll(chunks);
            Covered(s.cuts) + s.buf == Flatten(chunks) && '\n' !in s.buf && |s.buf| <= MAX_STREAM_BUFFER_LENGTH
    decreases |chunks|
  {
    if chunks != [] {
      var n := |chunks| - 1;
      var t := AfterAll(chunks[..n]);
      NothingIsLost(chunks[..n]);
      WriteKeepsInput(t, chunks[n]);
      BufferStaysClean(t, chunks[n]);
      FlattenLast(chunks);
      Regroup(Covered(t.cuts), t.buf, chunks[n]);
    }
  }

  // ----- lines -----

  datatype Line = Line(text: string)

  /** A text as its complete lines, without their newlines, and the unfinished line after. */
  datatype Parts = Parts(lines: seq<Line>, tail: string)

  function Next(p: Parts, c: char): Parts {
    if c == '\n' then Parts(p.lines + [Line(p.tail)], "") else Parts(p.lines, p.tail + [c])
  }

  function Split(s: string): Parts {
    if s == "" then Parts([], "") else Next(Split(s[..|s| - 1]), s[|s| - 1])
  }

  /** One text after another: the first line of the second completes the tail of the first. */
  function Join(p: Parts, q: Parts): Parts {
    if q.lines == [] then Parts(p.lines, p.tail + q.tail)
    else Parts(p.lines + ([Line(p.tail + q.lines[0].text)] + q.lines[1..]), q.tail)
  }

  lemma JoinNext(p: Parts, q: Parts, c: char)
    ensures Next(Join(p, q), c) == Join(p, Next(q, c))
  {
    if c != '\n' {
      assert p.tail + q.tail + [c] == p.tail + (q.tail + [c]);
    } else if q.lines != [] {
      assert (q.lines + [Line(q.tail)])[1..] == q.lines[1..] + [Line(q.tail)];
      var first := [Line(p.tail + q.lines[0].text)];
      assert p.lines + (first + q.lines[1..]) + [Line(q.tail)] == p.lines + (first + (q.lines[1..] + [Line(q.tail)]));
    }
  }

  lemma {:induction false} SplitAppend(a: string, b: string)
    ensures Split(a + b) == Join(Split(a), Split(b))
    decreases |b|
  {
    if b == "" {
      assert a + b == a && Split(a).tail + "" == Split(a).tail;
    } else {
      var n := |b| - 1;
      assert (a + b)[..|a + b| - 1] == a + b[..n] && (a + b)[|a + b| - 1] == b[n];
      SplitAppend(a, b[..n]);
      JoinNext(Split(a), Split(b[..n]), b[n]);
    }
  }

  function Lines(s: string): seq<Line> { Split(s).lines }

  function Tail(s: string): string { Split(s).tail }

  lemma {:induction false} NoNewline(s: string)
    ensures '\n' !in s <==> Lines(s) == []
    ensures '\n' !in s ==> Tail(s) == s
    ensures '\n' !in Tail(s)
  {
    if s != "" {
      NoNewline(s[..|s| - 1]);
      assert s == s[..|s| - 1] + [s[|s| - 1]];
    }
  }

  /** Only the tail of a text matters to the tail of a longer one. */
  lemma TailAppend(a: string, b: string)
    ensures Tail(a + b) == Tail(Tail(a) + b)
  {
    NoNewline(a);
    NoNewline(Tail(a));
    SplitAppend(a, b);
    SplitAppend(Tail(a), b);
  }

  lemma EndsLine(s: string)
    ensures Tail(s + "\n") == "" && Lines(s + "\n") == Lines(s) + [Line(Tail(s))]
  {
    assert (s + "\n")[..|s|] == s;
  }

  /** Lines of a text made of whole lines, followed by another text. */
  lemma LinesAppend(a: string, b: string)
    ensures |Lines(a + b)| == |Lines(a)| + |Lines(b)|
    ensures Tail(a) == "" ==> Lines(a + b) == Lines(a) + Lines(b)
  {
    SplitAppend(a, b);
    var ls := Lines(b);
    if ls == [] {
      assert Lines(a) + ls == Lines(a);
    } else if Tail(a) == "" {
      assert "" + ls[0].text == ls[0].text && [Line(ls[0].text)] + ls[1..] == ls;
    }
  }

  /** The tail is what follows the last newline. */
  lemma {:induction false} TailIs(s: string)
    ensures Tail(s) == s[LastNewline(s) + 1..]
  {
    if s != "" && s[|s| - 1] != '\n' {
      var n := |s| - 1;
      TailIs(s[..n]);
      LastOf(s, LastNewline(s) + 1);
    }
  }

  lemma LastOf(s: string, i: nat)
    requires i < |s|
    ensures s[i..] == s[..|s| - 1][i..] + [s[|s| - 1]]
  {
  }

  // ----- runs without overflow -----

  /** The lines a console shows for the texts passed on. */
  function Shown(cuts: seq<Cut>): seq<Line> {
    if cuts == [] then [] else Shown(cuts[..|cuts| - 1]) + Lines(cuts[|cuts| - 1].text + "\n")
  }

  ghost predicate NoOverflow(cuts: seq<Cut>) { forall i :: 0 <= i < |cuts| ==> cuts[i].newline }

  lemma {:induction false} ShownAreLines(cuts: seq<Cut>)
    requires NoOverflow(cuts)
    ensures Shown(cuts) == Lines(Covered(cuts)) && Tail(Covered(cuts)) == ""
    decreases |cuts|
  {
    if cuts != [] {
      var n := |cuts| - 1;
      var before, text := Covered(cuts[..n]), cuts[n].text;
      ShownAreLines(cuts[..n]);
      LinesAppend(before, text + "\n");
      Regroup(before, text, "\n");
      EndsLine(before + text);
    }
  }

  /** In a run without overflow, the lines of the texts passed on are exactly the complete
      lines of the input, however the input was cut into writes. */
  lemma CompleteLinesAreShown(chunks: seq<string>)
    requires NoOverflow(AfterAll(chunks).cuts)
    ensures Shown(AfterAll(chunks).cuts) == Lines(Flatten(chunks))
  {
    var s := AfterAll(chunks);
    NothingIsLost(chunks);
    ShownAreLines(s.cuts);
    LinesAppend(Covered(s.cuts), s.buf);
    NoNewline(s.buf);
    assert Lines(Covered(s.cuts)) + [] == Lines(Covered(s.cuts));
  }

  // ----- when the lines are right -----

  /** A chunk fits into the buffer after the unfinished line of the text before it. */
  ghost predicate FitsAfter(before: string, chunk: string) { |Tail(before)| + |chunk| <= 0x10_0000 }

  /** Every chunk fits after the chunks before it. */
  ghost predicate Fits(chunks: seq<string>) {
    forall i :: 0 <= i < |chunks| ==> FitsAfter(Flatten(chunks[..i]), chunks[i])
  }

  lemma FitsNext(chunks: seq<string>)
    requires chunks != []
    ensures var n := |chunks| - 1; Fits(chunks) <==> Fits(chunks[..n]) && FitsAfter(Flatten(chunks[..n]), chunks[n])
  {
    var n := |chunks| - 1;
    forall i | 0 <= i < n ensures chunks[..n][..i] == chunks[..i] && chunks[..n][i] == chunks[i] {}
  }

  /** A write that overflows nothing leaves the tail in the buffer; a run has no overflow
      exactly if every chunk fits. */
  lemma {:induction false} NoOverflowExactly(chunks: seq<string>)
    ensures NoOverflow(AfterAll(chunks).cuts) <==> Fits(chunks)
    ensures Fits(chunks) ==> AfterAll(chunks).buf == Tail(Flatten(chunks))
    decreases |chunks|
  {
    if chunks != [] {
      var n := |chunks| - 1;
      NoOverflowExactly(chunks[..n]);
      FitsNext(chunks);
      FlattenLast(chunks);
      TailAppend(Flatten(chunks[..n]), chunks[n]);
      OverflowStep(AfterAll(chunks[..n]), chunks[n]);
      TailIs(AfterAll(chunks[..n]).buf + chunks[n]);
    }
  }

  lemma OverflowStep(s: State, chunk: string)
    ensures NoOverflow(AfterWrite(s, chunk).cuts) <==> NoOverflow(s.cuts) && |s.buf| + |chunk| <= MAX_STREAM_BUFFER_LENGTH
  {
    var buf := s.buf + chunk;
    if |buf| > MAX_STREAM_BUFFER_LENGTH {
      NoOverflowNext(s.cuts, Cut(buf, false));
    } else if LastNewline(buf) != -1 {
      NoOverflowNext(s.cuts, Cut(buf[..LastNewline(buf)], true));
    }
  }

  lemma NoOverflowNext(cuts: seq<Cut>, c: Cut)
    ensures NoOverflow(cuts + [c]) <==> NoOverflow(cuts) && c.newline
  {
    assert (cuts + [c])[|cuts|] == c;
    assert forall i :: 0 <= i < |cuts| ==> (cuts + [c])[i] == cuts[i];
  }

  /** How many texts were passed on because of an overflow. */
  function Overflows(cuts: seq<Cut>): nat {
    if cuts == [] then 0
    else Overflows(cuts[..|cuts| - 1]) + (if cuts[|cuts| - 1].newline then 0 else 1)
  }

  lemma {:induction false} OverflowsExactly(cuts: seq<Cut>)
    ensures Overflows(cuts) == 0 <==> NoOverflow(cuts)
  {
    if cuts != [] {
      var n := |cuts| - 1;
      OverflowsExactly(cuts[..n]);
      assert NoOverflow(cuts) <==> NoOverflow(cuts[..n]) && cuts[n].newline;
    }
  }

  /** Every overflow shows one line too many. */
  lemma {:induction false} OverflowsShowMore(cuts: seq<Cut>)
    ensures |Shown(cuts)| == |Lines(Covered(cuts))| + Overflows(cuts)
  {
    if cuts != [] {
      var n := |cuts| - 1;
      var text, before := cuts[n].text, Covered(cuts[..n]);
      OverflowsShowMore(cuts[..n]);
      EndsLine(text);
      LinesAppend(before, text);
      EndsLine(before + text);
      assert before + text + "" == before + text;
    }
  }

  /** The lines of the texts passed on are exactly the complete lines of the input if and only
      if every chunk fits into the buffer after the line begun before it. */
  lemma LinesAreShownExactly(chunks: seq<string>)
    ensures Shown(AfterAll(chunks).cuts) == Lines(Flatten(chunks)) <==> Fits(chunks)
  {
    var s := AfterAll(chunks);
    NoOverflowExactly(chunks);
    if Fits(chunks) {
      CompleteLinesAreShown(chunks);
    } else {
      NothingIsLost(chunks);
      OverflowsShowMore(s.cuts);
      OverflowsExactly(s.cuts);
      LinesAppend(Covered(s.cuts), s.buf);
      NoNewline(s.buf);
    }
  }

  // ----- the program -----

  class Stream {
    var buf: string
    ghost var cuts: seq<Cut>

    ghost function View(): State
      reads this
    {
      State(buf, cuts)
    }

    constructor ()
      ensures View() == AfterAll([])
    {
      buf, cuts := "", [];
    }

    /** One write; returns the text passed on to the console, if any. */
    method Write(chunk: string) returns (logged: Option<string>)
      modifies this
      ensures View() == AfterWrite(old(View()), chunk)
      ensures logged.Some? <==> |cuts| == |old(cuts)| + 1
      ensures logged.Some? ==> logged.value == cuts[|cuts| - 1].text
    {
      buf := buf + chunk;
      var overflow := |buf| > MAX_STREAM_BUFFER_LENGTH;
      var eol := if overflow then |buf| else LastNewline(buf);
      logged := None;
      if eol != -1 {
        logged := Some(buf[..eol]);
        cuts := cuts + [Cut(buf[..eol], !overflow)];
        assert buf[..|buf|] == buf;
        buf := if eol + 1 > |buf| then "" else buf[eol + 1..];
      }
    }
  }
}
