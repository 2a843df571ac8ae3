/**
  Credentials in the system keyring (cli/src/auth.rs, `KeyringStorage`).

  A keyring entry has a limited size, so a sealed credential is cut into chunks, one entry
  each; a chunk that is followed by another ends in a marker.  Older entries are not
  removed when a shorter credential is stored.  The sealed text is a sequence of
  single-byte characters, and the keyring is a map from entry number to text.
*/
module Keyring {
  import opened Basics

  const CONTINUE_MARKER: string := "<MORE>"

  type Ring = map<nat, string>

  predicate EndsInMarker(s: string) {
    |s| >= |CONTINUE_MARKER| && s[|s| - |CONTINUE_MARKER|..] == CONTINUE_MARKER
  }

  function Strip(s: string): string
    requires EndsInMarker(s)
  {
    s[..|s| - |CONTINUE_MARKER|]
  }

  // ----- reading -----

  function Above(ring: Ring, i: nat): set<nat> { set k | k in ring && k >= i }

  lemma AboveShrinks(ring: Ring, i: nat)
    requires i in ring
    ensures Above(ring, i + 1) < Above(ring, i)
  {
    assert i in Above(ring, i) && i !in Above(ring, i + 1);
  }

  /** The text that reading from entry `i` on reassembles, or none if an entry is missing. */
  function ReadFrom(ring: Ring, i: nat): Option<string>
    decreases Above(ring, i)
  {
    if i !in ring then None
    else if !EndsInMarker(ring[i]) then Some(ring[i])
    else
      AboveShrinks(ring, i);
      match ReadFrom(ring, i + 1)
      case None => None
      case Some(rest) => Some(Strip(ring[i]) + rest)
  }

  ghost predicate SameAbove(a: Ring, b: Ring, i: nat) {
    forall k :: k >= i ==> (k in a <==> k in b) && (k in a ==> a[k] == b[k])
  }

  lemma {:induction false} ReadDependsOnTail(a: Ring, b: Ring, i: nat)
    requires SameAbove(a, b, i)
    ensures ReadFrom(a, i) == ReadFrom(b, i)
    decreases Above(a, i)
  {
    if i in a && EndsInMarker(a[i]) {
      AboveShrinks(a, i);
      ReadDependsOnTail(a, b, i + 1);
    }
  }

  // ----- storing -----

  /** The number of characters of the sealed text in one entry. */
  function StepSize(limit: nat): nat
    requires limit > |CONTINUE_MARKER|
  {
    limit - |CONTINUE_MARKER|
  }

  /** The entries that storing writes, from entry `i` on: a chunk of full size ends in the
      marker, even if it is the last one. */
  function StoreFrom(ring: Ring, sealed: string, step: nat, i: nat): Ring
    requires step > 0
    decreases |sealed|
  {
    if sealed == "" then ring
    else if step <= |sealed| then StoreFrom(ring[i := sealed[..step] + CONTINUE_MARKER], sealed[step..], step, i + 1)
    else ring[i := sealed]
  }

  function Store(ring: Ring, sealed: string, limit: nat): Ring
    requires limit > |CONTINUE_MARKER|
  {
    StoreFrom(ring, sealed, StepSize(limit), 0)
  }

  /** The number of entries written. */
  function Entries(n: nat, step: nat): nat
    requires step > 0
    decreases n
  {
    if n == 0 then 0 else if step <= n then 1 + Entries(n - step, step) else 1
  }

  /** Storing writes a block of entries and leaves all others as they were. */
  lemma {:induction false} StoreFrame(ring: Ring, sealed: string, step: nat, i: nat, k: nat)
    requires step > 0
    ensures var r := StoreFrom(ring, sealed, step, i);
            if i <= k < i + Entries(|sealed|, step) then k in r && 0 < |r[k]| <= step + |CONTINUE_MARKER|
            else (k in r <==> k in ring) && (k in ring ==> r[k] == ring[k])
    decreases |sealed|
  {
    if sealed != "" && step <= |sealed| {
      StoreFrame(ring[i := sealed[..step] + CONTINUE_MARKER], sealed[step..], step, i + 1, k);
    }
  }

  // ----- storing and then reading -----

  /** The part of the sealed text in its last chunk; empty if all chunks have full size. */
  function LastChunk(sealed: string, step: nat): string
    requires step > 0
    decreases |sealed|
  {
    if |sealed| < step then sealed else LastChunk(sealed[step..], step)
  }

  /** The last entry written looks as if another one followed. */
  predicate OpenEnded(sealed: string, step: nat)
    requires step > 0
  {
    LastChunk(sealed, step) == "" || EndsInMarker(LastChunk(sealed, step))
  }

  /** The characters that reading takes from the entries written. */
  function Body(sealed: string, step: nat): string
    requires step > 0
    decreases |sealed|
  {
    if |sealed| >= step then sealed[..step] + Body(sealed[step..], step)
    else if EndsInMarker(sealed) then Strip(sealed) else sealed
  }

  lemma MarkerStrips(s: string)
    ensures EndsInMarker(s + CONTINUE_MARKER) && Strip(s + CONTINUE_MARKER) == s
  {
  }

  /** What a read that comes to the end of the entries written gives. */
  ghost function Joined(sealed: string, step: nat, tail: Option<string>): Option<string>
    requires step > 0
  {
    if !OpenEnded(sealed, step) then Some(sealed)
    else if tail.None? then None
    else Some(Body(sealed, step) + tail.value)
  }

  lemma JoinedCons(sealed: string, step: nat, tail: Option<string>)
    requires 0 < step <= |sealed|
    ensures var rest := Joined(sealed[step..], step, tail);
            Joined(sealed, step, tail) == if rest.None? then None else Some(sealed[..step] + rest.value)
  {
    assert sealed[..step] + sealed[step..] == sealed;
    if tail.Some? {
      Regroup(sealed[..step], Body(sealed[step..], step), tail.value);
    }
  }

  lemma ReadCons(ring: Ring, i: nat, chunk: string)
    requires i in ring && ring[i] == chunk + CONTINUE_MARKER
    ensures var rest := ReadFrom(ring, i + 1);
            ReadFrom(ring, i) == if rest.None? then None else Some(chunk + rest.value)
  {
    MarkerStrips(chunk);
  }

  lemma ReadLast(ring: Ring, sealed: string, step: nat, i: nat)
    requires |sealed| < step
    ensures ReadFrom(StoreFrom(ring, sealed, step, i), i) ==
            Joined(sealed, step, ReadFrom(ring, i + Entries(|sealed|, step)))
  {
    if sealed == "" {
      var tail := ReadFrom(ring, i);
      assert tail.Some? ==> "" + tail.value == tail.value;
    } else if EndsInMarker(sealed) {
      ReadDependsOnTail(ring[i := sealed], ring, i + 1);
    }
  }

  /** Storing a full chunk first. */
  lemma StoreCons(ring: Ring, sealed: string, step: nat, i: nat)
    requires 0 < step <= |sealed|
    ensures var r, ring1 := StoreFrom(ring, sealed, step, i), ring[i := sealed[..step] + CONTINUE_MARKER];
            && r == StoreFrom(ring1, sealed[step..], step, i + 1)
            && i in r && r[i] == sealed[..step] + CONTINUE_MARKER
            && Entries(|sealed|, step) == 1 + Entries(|sealed[step..]|, step)
  {
    StoreFrame(ring[i := sealed[..step] + CONTINUE_MARKER], sealed[step..], step, i + 1, i);
  }

  /** Reading a full chunk first. */
  lemma ReadOn(ring: Ring, sealed: string, step: nat, i: nat, tail: Option<string>)
    requires 0 < step <= |sealed| && i in ring && ring[i] == sealed[..step] + CONTINUE_MARKER
    requires ReadFrom(ring, i + 1) == Joined(sealed[step..], step, tail)
    ensures ReadFrom(ring, i) == Joined(sealed, step, tail)
  {
    ReadCons(ring, i, sealed[..step]);
    JoinedCons(sealed, step, tail);
  }

  /** What reading gives after storing, over any entries that were there before: the text
      itself, unless its last chunk is open-ended; then the read runs on into the entry
      after those written. */
  lemma {:induction false} ReadAfterStore(ring: Ring, sealed: string, step: nat, i: nat)
    requires step > 0
    ensures ReadFrom(StoreFrom(ring, sealed, step, i), i) ==
            Joined(sealed, step, ReadFrom(ring, i + Entries(|sealed|, step)))
    decreases |sealed|
  {
    if |sealed| >= step {
      var rest, ring1 := sealed[step..], ring[i := sealed[..step] + CONTINUE_MARKER];
      ReadAfterStore(ring1, rest, step, i + 1);
      StoreCons(ring, sealed, step, i);
      ReadDependsOnTail(ring1, ring, i + 1 + Entries(|rest|, step));
      ReadOn(StoreFrom(ring, sealed, step, i), sealed, step, i, ReadFrom(ring, i + Entries(|sealed|, step)));
    } else {
      ReadLast(ring, sealed, step, i);
    }
  }

  lemma MulAtLeast(a: nat, k: nat)
    requires k > 0
    ensures a * k >= a
  {
    assert a * k == a + a * (k - 1);
  }

  lemma ModUnique(a: nat, q: nat, r: nat, step: nat)
    requires r < step && a == step * q + r
    ensures a % step == r
  {
    var p, m := a / step, a % step;
    assert a == step * p + m;
    if q > p {
      assert step * q - step * p == step * (q - p);
      MulAtLeast(step, q - p);
    } else if p > q {
      assert step * p - step * q == step * (p - q);
      MulAtLeast(step, p - q);
    }
  }

  lemma ModStep(a: nat, step: nat)
    requires 0 < step <= a
    ensures (a - step) % step == a % step
  {
    var q, r := a / step, a % step;
    assert a == step * q + r;
    assert q > 0;
    assert step * (q - 1) == step * q - step;
    ModUnique(a - step, q - 1, r, step);
  }

  /** The last chunk is empty exactly when the length is a multiple of the step size. */
  lemma {:induction false} LastChunkLength(sealed: string, step: nat)
    requires step > 0
    ensures |LastChunk(sealed, step)| == |sealed| % step
    decreases |sealed|
  {
    if |sealed| >= step {
      ModStep(|sealed|, step);
      LastChunkLength(sealed[step..], step);
    } else {
      SmallMod(|sealed|, step);
    }
  }

  lemma SmallMod(a: nat, step: nat)
    requires a < step
    ensures a % step == a
  {
  }

  lemma {:induction false} BodyIsPrefix(sealed: string, step: nat)
    requires step > 0
    ensures var missing := if EndsInMarker(LastChunk(sealed, step)) then CONTINUE_MARKER else "";
            Body(sealed, step) + missing == sealed
    decreases |sealed|
  {
    if |sealed| >= step {
      BodyIsPrefix(sealed[step..], step);
      var missing := if EndsInMarker(LastChunk(sealed, step)) then CONTINUE_MARKER else "";
      Regroup(sealed[..step], Body(sealed[step..], step), missing);
      assert sealed == sealed[..step] + sealed[step..];
    }
  }

  /** What an open end is taken to stand for: nothing after a full chunk, or the marker that
      the last chunk happens to end in. */
  function Missing(sealed: string, step: nat): string
    requires step > 0
  {
    if LastChunk(sealed, step) == "" then "" else CONTINUE_MARKER
  }

  lemma JoinedExactly(sealed: string, step: nat, tail: Option<string>)
    requires step > 0 && OpenEnded(sealed, step)
    ensures Joined(sealed, step, tail) == Some(sealed) <==> tail == Some(Missing(sealed, step))
  {
    BodyIsPrefix(sealed, step);
    var body, missing := Body(sealed, step), Missing(sealed, step);
    assert body + missing == sealed;
    if tail.Some? && body + tail.value == sealed {
      assert (body + tail.value)[|body|..] == tail.value && (body + missing)[|body|..] == missing;
    }
  }

  /** A non-empty text is read back exactly when its length is not a multiple of the step
      size and its last chunk does not end in the marker, or else when the older entries
      after it happen to supply just what the open end is taken to stand for. */
  lemma StoreThenReadExactly(ring: Ring, sealed: string, limit: nat)
    requires limit > |CONTINUE_MARKER| && sealed != ""
    ensures var step := StepSize(limit);
            ReadFrom(Store(ring, sealed, limit), 0) == Some(sealed) <==>
              || (|sealed| % step != 0 && !EndsInMarker(LastChunk(sealed, step)))
              || ReadFrom(ring, Entries(|sealed|, step)) == Some(Missing(sealed, step))
    ensures |sealed| % StepSize(limit) == 0 <==> LastChunk(sealed, StepSize(limit)) == ""
  {
    var step := StepSize(limit);
    LastChunkLength(sealed, step);
    ReadAfterStore(ring, sealed, step, 0);
    if OpenEnded(sealed, step) {
      JoinedExactly(sealed, step, ReadFrom(ring, Entries(|sealed|, step)));
    }
  }

  /** With no entry after those written, a text whose length is a multiple of the step size
      is lost. */
  lemma FullLastChunkIsLost(ring: Ring, sealed: string, limit: nat)
    requires limit > |CONTINUE_MARKER| && sealed != "" && |sealed| % StepSize(limit) == 0
    requires Entries(|sealed|, StepSize(limit)) !in ring
    ensures ReadFrom(Store(ring, sealed, limit), 0) == None
  {
    MultipleIsOpenEnded(sealed, StepSize(limit));
    OpenEndNeedsMore(ring, sealed, StepSize(limit));
  }

  lemma MultipleIsOpenEnded(sealed: string, step: nat)
    requires step > 0 && |sealed| % step == 0
    ensures OpenEnded(sealed, step)
  {
    LastChunkLength(sealed, step);
  }

  lemma OpenEndNeedsMore(ring: Ring, sealed: string, step: nat)
    requires step > 0 && OpenEnded(sealed, step) && Entries(|sealed|, step) !in ring
    ensures ReadFrom(StoreFrom(ring, sealed, step, 0), 0) == None
  {
    ReadAfterStore(ring, sealed, step, 0);
    assert ReadFrom(ring, Entries(|sealed|, step)) == None;
  }

  /** What storing puts into each entry: `k` full chunks come first. */
  lemma {:induction false} StoredAt(ring: Ring, sealed: string, step: nat, i: nat, k: nat)
    requires step > 0 && k * step <= |sealed|
    ensures var r := StoreFrom(ring, sealed, step, i);
            && ((k + 1) * step <= |sealed| ==>
                  && i + k in r && r[i + k] == sealed[k * step..(k + 1) * step] + CONTINUE_MARKER
                  && |r[i + k]| == step + 6)
            && (k * step < |sealed| < (k + 1) * step ==> i + k in r && r[i + k] == sealed[k * step..])
    decreases k
  {
    if k == 0 {
      if step <= |sealed| {
        StoreCons(ring, sealed, step, i);
      }
    } else {
      assert k * step == (k - 1) * step + step && (k + 1) * step == k * step + step;
      MulAtLeast(step, k);
      var rest := sealed[step..];
      StoredAt(ring[i := sealed[..step] + CONTINUE_MARKER], rest, step, i + 1, k - 1);
      StoreCons(ring, sealed, step, i);
      if (k + 1) * step <= |sealed| {
        assert rest[(k - 1) * step..k * step] == sealed[k * step..(k + 1) * step];
      }
      assert rest[(k - 1) * step..] == sealed[k * step..];
    }
  }

  /** Every entry of a stored text but the last holds `limit - 6` of its characters and the
      marker, so it has exactly the size of the limit; the rest is in the last entry as it is. */
  lemma EntriesAreFull(ring: Ring, sealed: string, limit: nat, step: nat, k: nat)
    requires limit == step + 6 && step > 0 && k * step <= |sealed|
    ensures var r := Store(ring, sealed, limit);
            && ((k + 1) * step <= |sealed| ==>
                  k in r && r[k] == sealed[k * step..(k + 1) * step] + "<MORE>" && |r[k]| == limit)
            && (k * step < |sealed| < (k + 1) * step ==> k in r && r[k] == sealed[k * step..])
  {
    StoredAt(ring, sealed, step, 0, k);
  }

  /** Every entry written is within the limit, and no other entry changes. */
  lemma EntriesWithinLimit(ring: Ring, sealed: string, limit: nat, k: nat)
    requires limit > |CONTINUE_MARKER|
    ensures var r := Store(ring, sealed, limit);
            if k < Entries(|sealed|, StepSize(limit)) then k in r && 0 < |r[k]| <= limit
            else (k in r <==> k in ring) && (k in ring ==> r[k] == ring[k])
  {
    StoreFrame(ring, sealed, StepSize(limit), 0, k);
  }

  // ----- the program -----

  lemma DivExact(step: nat, k: nat)
    requires step > 0
    ensures (step * k) / step == k
  {
    ModUnique(step * k, k, 0, step);
    var p := (step * k) / step;
    assert step * p == step * k;
  }

  lemma StoreNext(ring: Ring, sealed: string, step: nat, i: nat, k: nat)
    requires step > 0 && i < |sealed|
    ensures var all := StoreFrom(ring, sealed[i..], step, k);
            if i + step <= |sealed| then
              && all == StoreFrom(ring[k := sealed[i..i + step] + CONTINUE_MARKER], sealed[i + step..], step, k + 1)
              && Entries(|sealed| - i, step) == 1 + Entries(|sealed| - (i + step), step)
            else all == ring[k := sealed[i..]] && Entries(|sealed| - i, step) == 1
    ensures step * (k + 1) == step * k + step
  {
    if i + step <= |sealed| {
      assert sealed[i..][..step] == sealed[i..i + step] && sealed[i..][step..] == sealed[i + step..];
    }
  }

  ghost predicate SameBelow(a: Ring, b: Ring, i: nat) {
    forall k :: 0 <= k < i ==> (k in a <==> k in b) && (k in a ==> a[k] == b[k])
  }

  lemma EarlierEntries(ring: Ring, sealed: string, step: nat, i: nat)
    requires step > 0
    ensures SameBelow(StoreFrom(ring, sealed, step, i), ring, i)
  {
    forall k | 0 <= k < i
      ensures var r := StoreFrom(ring, sealed, step, i); (k in r <==> k in ring) && (k in r ==> r[k] == ring[k])
    {
      StoreFrame(ring, sealed, step, i, k);
    }
  }

  /** The numbers below `n`. */
  function Below(n: nat): (r: set<nat>)
    ensures forall k :: k in r <==> 0 <= k < n
  {
    if n == 0 then {} else Below(n - 1) + {n - 1}
  }

  /** The number of entries a read from entry `i` on looks at. */
  function Looked(ring: Ring, i: nat): nat
    decreases Above(ring, i)
  {
    if i in ring && EndsInMarker(ring[i]) then AboveShrinks(ring, i); 1 + Looked(ring, i + 1) else 1
  }

  function Max(a: nat, b: nat): nat { if a < b then b else a }

  /** The first of the entries before `n` that does not exist, or `n`. */
  function FirstMissing(ring: Ring, n: nat): (r: nat)
    ensures r <= n && (forall k :: 0 <= k < r ==> k in ring) && (r < n ==> r !in ring)
  {
    if n == 0 then 0
    else if FirstMissing(ring, n - 1) < n - 1 then FirstMissing(ring, n - 1)
    else if n - 1 in ring then n else n - 1
  }

  /** The number of entries open when clearing deletes them: those open already, and those a
      read looks at. */
  function Opened(ring: Ring, open: nat): nat { Max(open, Looked(ring, 0)) }

  /** The keyring after clearing: entries are deleted up to the first that does not exist. */
  function Cleared(ring: Ring, open: nat): Ring { ring - Below(FirstMissing(ring, Opened(ring, open))) }

  predicate Clears(ring: Ring, open: nat) { FirstMissing(ring, Opened(ring, open)) == Opened(ring, open) }

  /** The storage: the keyring it writes to, and the entries it has opened so far. */
  class KeyringStorage {
    const limit: nat
    var ring: Ring
    var entries: seq<nat>

    ghost predicate Valid()
      reads this
    {
      limit > |CONTINUE_MARKER| && forall k :: 0 <= k < |entries| ==> entries[k] == k
    }

    constructor (limit: nat, ring: Ring)
      requires limit > |CONTINUE_MARKER|
      ensures Valid() && this.limit == limit && this.ring == ring && entries == []
    {
      this.limit, this.ring, entries := limit, ring, [];
    }

    /** The entry of a chunk, opened if it was not yet. */
    method GetNextEntry(i: nat) returns (entry: nat)
      requires Valid() && i <= |entries|
      modifies this`entries
      ensures Valid() && entry == i
      ensures entries == if i < |old(entries)| then old(entries) else old(entries) + [i]
    {
      if i >= |entries| {
        entries := entries + [i];
      }
      entry := entries[i];
    }

    /** Reassembles the stored text. */
    method Read() returns (text: Option<string>)
      requires Valid()
      modifies this`entries
      ensures Valid() && text == ReadFrom(ring, 0)
      ensures |entries| == Opened(ring, |old(entries)|)
    {
      var str := "";
      var i := 0;
      ghost var all := ReadFrom(ring, 0);
      if all.Some? {
        assert "" + all.value == all.value;
      }
      while true
        invariant Valid() && i <= |entries|
        invariant |entries| == if |old(entries)| > i then |old(entries)| else i
        invariant Looked(ring, 0) == i + Looked(ring, i)
        invariant ReadFrom(ring, 0) ==
                  match ReadFrom(ring, i) { case None => None case Some(rest) => Some(str + rest) }
        decreases Above(ring, i)
      {
        var entry := GetNextEntry(i);
        if entry !in ring {
          return None;
        }
        var chunk := ring[entry];
        if !EndsInMarker(chunk) {
          return Some(str + chunk);
        }
        AboveShrinks(ring, i);
        ghost var before := str;
        str := str + chunk[..|chunk| - |CONTINUE_MARKER|];
        i := i + 1;
        ghost var rest := ReadFrom(ring, i);
        if rest.Some? {
          Regroup(before, Strip(chunk), rest.value);
        }
      }
    }

    /** Cuts the sealed text into entries.  `broken` are the entries the keyring refuses to
        update: storing stops at the first of them. */
    method StoreSealed(sealed: string, broken: set<nat>) returns (ok: bool)
      requires Valid()
      modifies this
      ensures Valid()
      ensures ok <==> forall k :: 0 <= k < Entries(|sealed|, StepSize(limit)) ==> k !in broken
      ensures ok ==> ring == Store(old(ring), sealed, limit)
      ensures ok ==> |entries| == Max(|old(entries)|, Entries(|sealed|, StepSize(limit)))
      ensures !ok ==> exists b :: b in broken && SameAbove(ring, old(ring), b) && EarlierStored(b, old(ring), sealed)
                                  && |entries| == Max(|old(entries)|, b + 1)
                                  && forall j :: 0 <= j < b ==> j !in broken
    {
      var step := limit - |CONTINUE_MARKER|;
      var i := 0;
      ghost var k := 0;
      assert sealed[0..] == sealed;
      while i < |sealed|
        invariant Valid() && i == step * k && |entries| == Max(|old(entries)|, k)
        invariant i <= |sealed| ==> StoreFrom(ring, sealed[i..], step, k) == Store(old(ring), sealed, limit)
        invariant i <= |sealed| ==> Entries(|sealed|, step) == k + Entries(|sealed| - i, step)
        invariant i > |sealed| ==> ring == Store(old(ring), sealed, limit) && Entries(|sealed|, step) == k
        invariant SameAbove(ring, old(ring), k)
        invariant forall j :: 0 <= j < k ==> j !in broken
        decreases |sealed| - i
      {
        DivExact(step, k);
        StoreNext(ring, sealed, step, i, k);
        var entry := GetNextEntry(i / step);
        var cutoff := i + step;
        if entry in broken {
          EarlierEntries(ring, sealed[i..], step, k);
          return false;
        }
        if cutoff <= |sealed| {
          ring := ring[entry := sealed[i..cutoff] + CONTINUE_MARKER];
        } else {
          ring := ring[entry := sealed[i..]];
        }
        i := i + step;
        k := k + 1;
      }
      ok := true;
    }

    /** The entries before `b` hold what storing all of `sealed` would put there. */
    ghost predicate EarlierStored(b: nat, before: Ring, sealed: string)
      reads this
      requires limit > |CONTINUE_MARKER|
    {
      SameBelow(Store(before, sealed, limit), ring, b)
    }

    /** Deletes all entries known after a read; fails at the first that does not exist, with
        those before it deleted. */
    method Clear() returns (ok: bool)
      requires Valid()
      modifies this
      ensures Valid()
      ensures ok == Clears(old(ring), |old(entries)|) && ring == Cleared(old(ring), |old(entries)|)
      ensures |entries| == if ok then 0 else Opened(old(ring), |old(entries)|)
    {
      var _ := Read();
      var n := |entries|;
      var j := 0;
      while j < n
        invariant j <= n == |entries| && Valid()
        invariant ring == old(ring) - Below(j)
        invariant forall k :: 0 <= k < j ==> k in old(ring)
      {
        if entries[j] !in ring {
          return false;
        }
        ring := ring - {entries[j]};
        j := j + 1;
      }
      entries := [];
      ok := true;
    }
  }

  /** The entries that a read looks at after a store: those written, and if the last one is
      open-ended those that a read from the next one on looks at. */
  function LookedAfterStore(ring: Ring, sealed: string, step: nat): nat
    requires step > 0
  {
    var n := Entries(|sealed|, step);
    if OpenEnded(sealed, step) then n + Looked(ring, n) else n
  }

  /** Clearing what was stored, on a storage that had `open` entries open before.  It comes to
      the entries it had open and to those a read looks at.  It succeeds exactly when those
      beyond the written ones exist; it deletes all entries written, and of the others those
      with no missing one before them; nothing is left to read. */
  lemma StoredIsCleared(ring: Ring, sealed: string, limit: nat, open: nat)
    requires limit > |CONTINUE_MARKER|
    ensures var r, n := Store(ring, sealed, limit), Entries(|sealed|, StepSize(limit));
            var all := Max(open, LookedAfterStore(ring, sealed, StepSize(limit)));
            var left := Cleared(r, Max(open, n));
            && (Clears(r, Max(open, n)) <==> forall k :: n <= k < all ==> k in ring)
            && (forall k :: 0 <= k < n ==> k in r && k !in left)
            && (forall k :: n <= k ==>
                  (k in left <==> k in ring && (k >= all || exists j :: n <= j < k && j !in ring)))
            && ReadFrom(left, 0) == None
  {
    var step := StepSize(limit);
    var r, n := Store(ring, sealed, limit), Entries(|sealed|, step);
    var all := Max(open, LookedAfterStore(ring, sealed, step));
    OpenedAfterStore(ring, sealed, step, open);
    forall k: nat ensures (k < n ==> k in r) && (k >= n ==> (k in r <==> k in ring)) {
      StoreFrame(ring, sealed, step, 0, k);
    }
    ClearedExactly(r, ring, n, all);
  }

  lemma OpenedAfterStore(ring: Ring, sealed: string, step: nat, open: nat)
    requires step > 0
    ensures var all := Max(open, LookedAfterStore(ring, sealed, step));
            && Entries(|sealed|, step) <= all && all > 0
            && Opened(StoreFrom(ring, sealed, step, 0), Max(open, Entries(|sealed|, step))) == all
  {
    LooksAtWritten(ring, sealed, step, 0);
  }

  lemma ClearedExactly(r: Ring, ring: Ring, n: nat, all: nat)
    requires n <= all && forall k: nat :: (k < n ==> k in r) && (k >= n ==> (k in r <==> k in ring))
    ensures var j, left := FirstMissing(r, all), r - Below(FirstMissing(r, all));
            && n <= j && (j == all <==> forall k :: n <= k < all ==> k in ring)
            && (forall k :: 0 <= k < n ==> k !in left)
            && (forall k :: n <= k ==>
                  (k in left <==> k in ring && (k >= all || exists j :: n <= j < k && j !in ring)))
  {
    var j, left := FirstMissing(r, all), r - Below(FirstMissing(r, all));
    assert j < n ==> j in r;
    forall k | n <= k
      ensures k in left <==> k in ring && (k >= all || exists i :: n <= i < k && i !in ring)
    {
      if k in left && k < all {
        assert n <= j < k && j !in ring;
      }
    }
  }

  lemma {:induction false} LooksAtWritten(ring: Ring, sealed: string, step: nat, i: nat)
    requires step > 0
    ensures var n := Entries(|sealed|, step);
            Looked(StoreFrom(ring, sealed, step, i), i) ==
            if OpenEnded(sealed, step) then n + Looked(ring, i + n) else n
    decreases |sealed|
  {
    if |sealed| >= step {
      var rest, ring1 := sealed[step..], ring[i := sealed[..step] + CONTINUE_MARKER];
      LooksAtWritten(ring1, rest, step, i + 1);
      StoreCons(ring, sealed, step, i);
      MarkerStrips(sealed[..step]);
      LookedDependsOnTail(ring1, ring, i + 1 + Entries(|rest|, step));
    } else if sealed != "" {
      LookedDependsOnTail(ring[i := sealed], ring, i + 1);
    }
  }

  lemma {:induction false} LookedDependsOnTail(a: Ring, b: Ring, i: nat)
    requires SameAbove(a, b, i)
    ensures Looked(a, i) == Looked(b, i)
    decreases Above(a, i)
  {
    if i in a && EndsInMarker(a[i]) {
      AboveShrinks(a, i);
      LookedDependsOnTail(a, b, i + 1);
    }
  }
}
