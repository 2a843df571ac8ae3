/**
  Applying formatter edits to a text (scripts/sync-agent-host-protocol.ts, the edit loop of
  `formatTypeScript`).  The formatter gives them sorted, disjoint and within the text; they
  are applied from the last to the first.
*/
module TextEdits {

  datatype Edit = Edit(start: nat, length: nat, newText: string) {
    function End(): nat { start + length }
  }

  /** The edits are in order, do not overlap, and lie between `from` and `size`. */
  ghost predicate Sorted(edits: seq<Edit>, from: nat, size: nat) {
    if edits == [] then from <= size
    else from <= edits[0].start && Sorted(edits[1..], edits[0].End(), size)
  }

  /** The text from offset `from` on, with all edits made at once against the original
      offsets. */
  function Splice(content: string, edits: seq<Edit>, from: nat): string
    requires Sorted(edits, from, |content|)
  {
    if edits == [] then content[from..]
    else
      SortedFits(edits, from, |content|);
      content[from..edits[0].start] + edits[0].newText + Splice(content, edits[1..], edits[0].End())
  }

  lemma {:induction false} SortedFits(edits: seq<Edit>, from: nat, size: nat)
    requires Sorted(edits, from, size)
    ensures from <= size && (edits != [] ==> edits[0].End() <= size)
  {
    if edits != [] {
      SortedFits(edits[1..], edits[0].End(), size);
    }
  }

  /** Edits before offset `n` do not matter to a splice that starts there. */
  lemma {:induction false} SortedTail(edits: seq<Edit>, from: nat, size: nat, i: nat)
    requires Sorted(edits, from, size) && i <= |edits|
    ensures Sorted(edits[i..], if i == 0 then from else edits[i - 1].End(), size)
    ensures i < |edits| ==> (if i == 0 then from else edits[i - 1].End()) <= edits[i].start && edits[i].End() <= size
    decreases i
  {
    if i == 0 {
      assert edits[0..] == edits;
      SortedFits(edits, from, size);
    } else {
      SortedTail(edits[1..], edits[0].End(), size, i - 1);
      assert edits[1..][i - 1..] == edits[i..];
    }
  }

  /** One edit on a text whose later edits are made already. */
  lemma EditStep(content: string, edits: seq<Edit>, i: nat, before: nat)
    requires i < |edits| && Sorted(edits[i + 1..], edits[i].End(), |content|)
    requires before <= edits[i].start && edits[i].End() <= |content|
    ensures Sorted(edits[i..], before, |content|)
    ensures var e := edits[i];
            var current := content[..e.End()] + Splice(content, edits[i + 1..], e.End());
            current[..e.start] + e.newText + current[e.End()..] == content[..before] + Splice(content, edits[i..], before)
  {
    var e := edits[i];
    assert edits[i..][1..] == edits[i + 1..];
    var tail := Splice(content, edits[i + 1..], e.End());
    var current := content[..e.End()] + tail;
    assert current[..e.start] == content[..before] + content[before..e.start];
    assert current[e.End()..] == tail;
  }

  /** An offset as `substring` takes it: one past the end means the end. */
  function Clamp(offset: nat, content: string): nat { if offset < |content| then offset else |content| }

  function Replace(content: string, e: Edit): string {
    content[..Clamp(e.start, content)] + e.newText + content[Clamp(e.End(), content)..]
  }

  /** The text after all edits, one after the other, from the last to the first. */
  function LastToFirst(content: string, edits: seq<Edit>): string
    decreases |edits|
  {
    if edits == [] then content
    else LastToFirst(Replace(content, edits[|edits| - 1]), edits[..|edits| - 1])
  }

  lemma {:induction false} RestToFirst(content: string, edits: seq<Edit>, i: nat, before: nat)
    requires Sorted(edits, 0, |content|) && i <= |edits| && before == if i == 0 then 0 else edits[i - 1].End()
    requires before <= |content| && Sorted(edits[i..], before, |content|)
    ensures LastToFirst(content[..before] + Splice(content, edits[i..], before), edits[..i]) == Splice(content, edits, 0)
    decreases i
  {
    if i == 0 {
      assert edits[0..] == edits && content[..0] + Splice(content, edits, 0) == Splice(content, edits, 0);
    } else {
      var e, earlier := edits[i - 1], if i == 1 then 0 else edits[i - 2].End();
      SortedTail(edits, 0, |content|, i - 1);
      EditStep(content, edits, i - 1, earlier);
      assert edits[..i][..i - 1] == edits[..i - 1];
      RestToFirst(content, edits, i - 1, earlier);
    }
  }

  /** Making sorted, disjoint edits within the text from last to first makes them all at
      once, against the original offsets. */
  lemma LastToFirstIsSplice(content: string, edits: seq<Edit>)
    requires Sorted(edits, 0, |content|)
    ensures LastToFirst(content, edits) == Splice(content, edits, 0)
  {
    var n := |edits|;
    var before := if n == 0 then 0 else edits[n - 1].End();
    SortedTail(edits, 0, |content|, n);
    SortedFits(edits[n..], before, |content|);
    assert content == content[..before] + content[before..] && edits[..n] == edits;
    RestToFirst(content, edits, n, before);
  }

  method ApplyEdits(content: string, edits: seq<Edit>) returns (result: string)
    ensures result == LastToFirst(content, edits)
    ensures Sorted(edits, 0, |content|) ==> result == Splice(content, edits, 0)
  {
    result := content;
    var i := |edits| - 1;
    assert edits[..i + 1] == edits;
    while i >= 0
      invariant -1 <= i < |edits|
      invariant LastToFirst(result, edits[..i + 1]) == LastToFirst(content, edits)
    {
      var edit := edits[i];
      assert edits[..i + 1][..i] == edits[..i];
      result := result[..Clamp(edit.start, result)] + edit.newText + result[Clamp(edit.start + edit.length, result)..];
      i := i - 1;
    }
    if Sorted(edits, 0, |content|) {
      LastToFirstIsSplice(content, edits);
    }
  }

  // ----- where everything ends up -----

  /** How many characters the edits add. */
  function Growth(edits: seq<Edit>): int {
    if edits == [] then 0 else |edits[0].newText| - edits[0].length + Growth(edits[1..])
  }

  /** How far the edits before offset `p` move the text at `p`. */
  function Shift(edits: seq<Edit>, p: nat): int {
    if edits == [] || p < edits[0].End() then 0
    else |edits[0].newText| - edits[0].length + Shift(edits[1..], p)
  }

  lemma {:induction false} SpliceLength(content: string, edits: seq<Edit>, from: nat)
    requires Sorted(edits, from, |content|)
    ensures |Splice(content, edits, from)| == |content| - from + Growth(edits)
  {
    SortedFits(edits, from, |content|);
    if edits != [] {
      SpliceLength(content, edits[1..], edits[0].End());
    }
  }

  /** A character that no edit covers is in the result, moved by the edits before it. */
  lemma {:induction false} UncoveredStays(content: string, edits: seq<Edit>, from: nat, p: nat)
    requires Sorted(edits, from, |content|) && from <= p < |content|
    requires forall e :: e in edits ==> p < e.start || e.End() <= p
    ensures var q := p - from + Shift(edits, p);
            0 <= q < |Splice(content, edits, from)| && Splice(content, edits, from)[q] == content[p]
  {
    SortedFits(edits, from, |content|);
    if edits != [] && edits[0].End() <= p {
      UncoveredStays(content, edits[1..], edits[0].End(), p);
    }
  }

  /** The new text of every edit is in the result, at its offset moved by the edits before. */
  lemma {:induction false} NewTextIsPlaced(content: string, edits: seq<Edit>, from: nat, i: nat)
    requires Sorted(edits, from, |content|) && i < |edits|
    ensures var q := edits[i].start - from + Growth(edits[..i]);
            var r := Splice(content, edits, from);
            0 <= q && q + |edits[i].newText| <= |r| && r[q..q + |edits[i].newText|] == edits[i].newText
    decreases i
  {
    SortedFits(edits, from, |content|);
    var head := content[from..edits[0].start] + edits[0].newText;
    var rest := Splice(content, edits[1..], edits[0].End());
    if i > 0 {
      NewTextIsPlaced(content, edits[1..], edits[0].End(), i - 1);
      assert edits[..i][1..] == edits[1..][..i - 1];
      var q := edits[i].start - edits[0].End() + Growth(edits[1..][..i - 1]);
      var n := |edits[i].newText|;
      assert (head + rest)[|head| + q..|head| + q + n] == rest[q..q + n];
    } else {
      assert edits[..0] == [];
    }
  }
}
