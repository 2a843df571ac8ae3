/**
  State persisted to a file (cli/src/state.rs, `PersistedState`): a value cached in memory
  after the first load, and written through on every save.
*/
module PersistedState {
  import opened Basics

  /** The state file: absent, holding a value, or not readable as one. */
  datatype File<T> = NoFile | Holds(value: T) | Garbled

  /** How a write of the file goes: the file is truncated when it is opened. */
  datatype WriteResult = Written | NotOpened | Torn

  /** What a new container loads from the file. */
  function Stored<T>(file: File<T>, default: T): T {
    if file.Holds? then file.value else default
  }

  function AfterSave<T>(file: File<T>, value: T, io: WriteResult): File<T> {
    match io
    case Written => Holds(value)
    case NotOpened => file
    case Torn => Garbled
  }

  class Container<T> {
    const default: T
    var state: Option<T>
    var file: File<T>

    ghost function Value(): T
      reads this
    {
      if state.Some? then state.value else Stored(file, default)
    }

    constructor (file: File<T>, default: T)
      ensures Value() == Stored(file, default) && this.file == file
    {
      this.file, this.default, state := file, default, None;
    }

    method LoadOrGet() returns (value: T)
      modifies this`state
      ensures value == old(Value()) && Value() == value
    {
      if state.Some? {
        return state.value;
      }
      value := if file.Holds? then file.value else default;
      state := Some(value);
    }

    /** The new value counts from now on, even if it could not be written. */
    method Save(value: T, io: WriteResult) returns (ok: bool)
      modifies this
      ensures Value() == value && file == AfterSave(old(file), value, io) && ok == io.Written?
    {
      state := Some(value);
      match io {
        case Written => file := Holds(value);
        case NotOpened =>
        case Torn => file := Garbled;
      }
      ok := io.Written?;
    }
  }
}

/**
  The download cache (cli/src/download_cache.rs): finished directories and a persisted list
  of their names, most recently used first.  Operations run one after the other; each gets
  as parameters how its calls into the file system go.
*/
module DownloadCache {
  import opened Basics
  import opened PersistedState

  /** The name of a cache entry. */
  datatype Name = Name(text: string)

  const KEEP_LRU: nat := 5
  const RENAME_ATTEMPTS: nat := 20

  // ----- lists of names -----

  ghost predicate NoDup(l: seq<Name>) { forall i, j :: 0 <= i < j < |l| ==> l[i] != l[j] }

  /** The position of the first occurrence, or -1. */
  function Position(l: seq<Name>, name: Name): (r: int)
    ensures -1 <= r < |l|
    ensures r >= 0 ==> l[r] == name
    ensures forall i :: 0 <= i < |l| && (r < 0 || i < r) ==> l[i] != name
  {
    if l == [] then -1
    else if l[0] == name then 0
    else
      var r := Position(l[1..], name);
      if r < 0 then -1 else r + 1
  }

  /** The list without the first occurrence of a name. */
  function RemoveFirst(l: seq<Name>, name: Name): seq<Name> {
    var i := Position(l, name);
    if i < 0 then l else l[..i] + l[i + 1..]
  }

  /** The list without any occurrence of a name. */
  function Without(l: seq<Name>, name: Name): (r: seq<Name>)
    ensures forall n :: n in r <==> n in l && n != name
    ensures |r| <= |l|
  {
    if l == [] then []
    else
      assert l == [l[0]] + l[1..];
      (if l[0] == name then [] else [l[0]]) + Without(l[1..], name)
  }

  lemma {:induction false} WithoutNoDup(l: seq<Name>, name: Name)
    requires NoDup(l)
    ensures NoDup(Without(l, name))
  {
    if l != [] {
      assert forall i, j :: 0 <= i < j < |l[1..]| ==> l[1..][i] != l[1..][j];
      WithoutNoDup(l[1..], name);
      assert l[0] !in l[1..];
    }
  }

  lemma RemoveFirstProps(l: seq<Name>, name: Name)
    requires NoDup(l)
    ensures var r := RemoveFirst(l, name);
            && NoDup(r) && name !in r && (forall n :: n in r <==> n in l && n != name)
            && |r| == |l| - (if name in l then 1 else 0)
  {
    var i := Position(l, name);
    if i >= 0 {
      var r := RemoveFirst(l, name);
      assert forall k :: 0 <= k < |r| ==> r[k] == if k < i then l[k] else l[k + 1];
      forall n | n in l && n != name ensures n in r {
        var k :| 0 <= k < |l| && l[k] == n;
        assert n == r[if k < i then k else k - 1];
      }
    }
  }

  // ----- the operations -----

  /** `failures` counts evictions that failed; `touched` lists the names touched, latest
      first; `deleted` tells whether any name was deleted. */
  datatype State = State(
    list: seq<Name>,
    dirs: set<Name>,
    file: File<seq<Name>>,
    failures: nat,
    touched: seq<Name>,
    deleted: bool)

  const Empty := State([], {}, NoFile, 0, [], false)

  datatype Op =
    | Exists(name: Name, evicts: bool, io: WriteResult)
    | Create(name: Name, creates: bool, evicts: bool, io: WriteResult, renameFailures: nat)
    | Delete(name: Name, removes: bool, io: WriteResult)

  /** Replaces the list by `l`; evicts the last name if there are too many and its directory
      is gone or can be removed. */
  function AfterEviction(s: State, l: seq<Name>, evicts: bool, io: WriteResult): State {
    if |l| <= KEEP_LRU then s.(list := l, file := AfterSave(s.file, l, io))
    else
      var last, kept := l[|l| - 1], l[..|l| - 1];
      if last !in s.dirs || evicts then
        s.(list := kept, dirs := s.dirs - {last}, file := AfterSave(s.file, kept, io))
      else s.(list := l, file := AfterSave(s.file, l, io), failures := s.failures + 1)
  }

  /** Puts the name first in the list, and makes room. */
  function AfterTouch(s: State, name: Name, evicts: bool, io: WriteResult): State {
    AfterEviction(s.(touched := [name] + s.touched), Front(s.list, name), evicts, io)
  }

  function AfterExists(s: State, name: Name, evicts: bool, io: WriteResult): State {
    if name !in s.dirs then s else AfterTouch(s, name, evicts, io)
  }

  /** The staging directory is filled, the name is touched, and only then is the staging
      directory renamed; the rename is tried 21 times. */
  function AfterCreate(s: State, name: Name, creates: bool, evicts: bool, io: WriteResult, renameFailures: nat): State {
    if name in s.dirs || !creates then s
    else
      var s' := AfterTouch(s, name, evicts, io);
      if renameFailures <= RENAME_ATTEMPTS then s'.(dirs := s'.dirs + {name}) else s'
  }

  function AfterDelete(s: State, name: Name, removes: bool, io: WriteResult): State {
    if name in s.dirs && !removes then s
    else
      var l := Without(s.list, name);
      s.(list := l, dirs := s.dirs - {name}, file := AfterSave(s.file, l, io), deleted := true)
  }

  function Apply(s: State, op: Op): State {
    match op
    case Exists(name, evicts, io) => AfterExists(s, name, evicts, io)
    case Create(name, creates, evicts, io, n) => AfterCreate(s, name, creates, evicts, io, n)
    case Delete(name, removes, io) => AfterDelete(s, name, removes, io)
  }

  function Run(s: State, ops: seq<Op>): State
    decreases |ops|
  {
    if ops == [] then s else Run(Apply(s, ops[0]), ops[1..])
  }

  // ----- the invariant -----

  ghost predicate Inv(s: State) {
    && NoDup(s.list)
    && (forall n :: n in s.dirs ==> n in s.list)
    && |s.list| <= KEEP_LRU + s.failures
  }

  function Front(list: seq<Name>, name: Name): seq<Name> { [name] + RemoveFirst(list, name) }

  lemma FrontProps(list: seq<Name>, name: Name)
    requires NoDup(list)
    ensures var l := Front(list, name);
            && NoDup(l) && (forall n :: n in l <==> n == name || n in list)
            && |l| == |list| + (if name in list then 0 else 1)
  {
    RemoveFirstProps(list, name);
  }

  lemma PopProps(l: seq<Name>)
    requires NoDup(l) && |l| > 1
    ensures var kept, last := l[..|l| - 1], l[|l| - 1];
            NoDup(kept) && last != l[0] && kept[0] == l[0] && forall n :: n in kept <==> n in l && n != last
  {
    assert l == l[..|l| - 1] + [l[|l| - 1]];
  }

  lemma EvictionKeepsInv(s: State, l: seq<Name>, evicts: bool, io: WriteResult)
    requires NoDup(l) && l != [] && |l| <= KEEP_LRU + s.failures + 1
    requires forall n :: n in s.dirs ==> n in l
    ensures var s' := AfterEviction(s, l, evicts, io);
            Inv(s') && s'.list != [] && s'.list[0] == l[0] && (l[0] in s'.dirs <==> l[0] in s.dirs)
  {
    if |l| > KEEP_LRU {
      PopProps(l);
    }
  }

  lemma TouchKeepsInv(s: State, name: Name, evicts: bool, io: WriteResult)
    requires Inv(s)
    ensures var s' := AfterTouch(s, name, evicts, io);
            Inv(s') && s'.list != [] && s'.list[0] == name && (name in s'.dirs <==> name in s.dirs)
  {
    FrontProps(s.list, name);
    EvictionKeepsInv(s.(touched := [name] + s.touched), Front(s.list, name), evicts, io);
  }

  lemma {:induction false} InvRun(s: State, ops: seq<Op>)
    requires Inv(s)
    ensures Inv(Run(s, ops))
    decreases |ops|
  {
    if ops != [] {
      var op := ops[0];
      if op.Delete? {
        WithoutNoDup(s.list, op.name);
      } else {
        TouchKeepsInv(s, op.name, op.evicts, op.io);
      }
      InvRun(Apply(s, op), ops[1..]);
    }
  }

  /** How many operations cannot remove the directory they would evict. */
  function Refusals(ops: seq<Op>): nat {
    if ops == [] then 0 else (if !ops[0].Delete? && !ops[0].evicts then 1 else 0) + Refusals(ops[1..])
  }

  lemma {:induction false} FailuresRun(s: State, ops: seq<Op>)
    ensures s.failures <= Run(s, ops).failures <= s.failures + Refusals(ops)
    decreases |ops|
  {
    if ops != [] {
      HistoryStep(s, ops[0]);
      FailuresRun(Apply(s, ops[0]), ops[1..]);
    }
  }

  lemma HistoryStep(s: State, op: Op)
    ensures s.failures <= Apply(s, op).failures <= s.failures + (if !op.Delete? && !op.evicts then 1 else 0)
    ensures !op.Delete? ==> Apply(s, op).deleted == s.deleted
    ensures Apply(s, op).touched == (if Touches(s, op) then [op.name] else []) + s.touched
  {
    if !op.Delete? {
      EvictionHistory(s.(touched := [op.name] + s.touched), Front(s.list, op.name), op.evicts, op.io);
    }
  }

  lemma EvictionHistory(s: State, l: seq<Name>, evicts: bool, io: WriteResult)
    ensures s.failures <= AfterEviction(s, l, evicts, io).failures <= s.failures + (if evicts then 0 else 1)
    ensures AfterEviction(s, l, evicts, io).deleted == s.deleted && AfterEviction(s, l, evicts, io).touched == s.touched
  {
  }

  /** In every run from an empty cache the list has no duplicates, every finished directory
      is listed, and the list is longer than 5 only by failed evictions. */
  lemma ListAndDirectoriesAgree(ops: seq<Op>)
    ensures var s := Run(Empty, ops);
            && NoDup(s.list) && (forall n :: n in s.dirs ==> n in s.list)
            && |s.list| <= 5 + s.failures <= 5 + Refusals(ops)
  {
    InvRun(Empty, ops);
    FailuresRun(Empty, ops);
  }

  // ----- which directories there are -----

  /** The operation gets as far as to touch its name. */
  predicate Touches(s: State, op: Op) {
    match op
    case Exists(name, _, _) => name in s.dirs
    case Create(name, creates, _, _, _) => name !in s.dirs && creates
    case Delete(_, _, _) => false
  }

  /** The directory that touching a name evicts: the last of more than five. */
  ghost predicate Evicts(s: State, op: Op, n: Name) {
    && Touches(s, op) && op.evicts && Others(s.list, op.name) >= 5 && n != op.name
    && n == if s.list[|s.list| - 1] == op.name then s.list[|s.list| - 2] else s.list[|s.list| - 1]
  }

  /** How many other names are in a list without duplicates. */
  function Others(l: seq<Name>, name: Name): int { if name in l then |l| - 1 else |l| }

  /** In every reachable state, a directory appears exactly when a creation of it succeeds, and
      disappears exactly when it is deleted or evicted. */
  lemma DirectoriesChangeExactly(ops: seq<Op>, op: Op, n: Name)
    ensures var s, s' := Run(Empty, ops), Apply(Run(Empty, ops), op);
            n in s'.dirs <==>
              if n in s.dirs then !(op.Delete? && op.name == n && op.removes) && !Evicts(s, op, n)
              else op.Create? && op.name == n && op.creates && op.renameFailures <= 20
  {
    var s := Run(Empty, ops);
    if Touches(s, op) {
      assert NoDup(s.list) by {
        InvRun(Empty, ops);
      }
      TouchedDirs(s, op, n);
    }
  }

  lemma EvictedDirs(s: State, l: seq<Name>, evicts: bool, io: WriteResult, n: Name)
    ensures n in AfterEviction(s, l, evicts, io).dirs <==> n in s.dirs && !(|l| > 5 && evicts && l[|l| - 1] == n)
  {
  }

  lemma TouchedDirs(s: State, op: Op, n: Name)
    requires NoDup(s.list) && Touches(s, op)
    ensures n in AfterTouch(s, op.name, op.evicts, op.io).dirs <==> n in s.dirs && !Evicts(s, op, n)
  {
    LastOfFront(s.list, op.name);
    EvictedDirs(s.(touched := [op.name] + s.touched), Front(s.list, op.name), op.evicts, op.io, n);
  }

  lemma LastOfFront(l: seq<Name>, name: Name)
    requires NoDup(l)
    ensures |Front(l, name)| == 1 + Others(l, name)
    ensures Others(l, name) > 0 ==>
              && |l| > 0 && (l[|l| - 1] == name ==> |l| > 1)
              && var last := Front(l, name)[|Front(l, name)| - 1];
                 last != name && last == if l[|l| - 1] == name then l[|l| - 2] else l[|l| - 1]
  {
    var r := RemoveFirst(l, name);
    RemoveFirstProps(l, name);
    if r != [] {
      LastOther(l, name);
      ConsAt(name, r, |r|);
      assert r[|r| - 1] in r;
    }
  }

  lemma LastOther(l: seq<Name>, name: Name)
    requires NoDup(l) && RemoveFirst(l, name) != []
    ensures var r := RemoveFirst(l, name);
            && |r| == Others(l, name) && |l| > 0 && (l[|l| - 1] == name ==> |l| > 1)
            && r[|r| - 1] == if l[|l| - 1] == name then l[|l| - 2] else l[|l| - 1]
  {
    RemoveFirstProps(l, name);
    RemovedAt(l, name, |RemoveFirst(l, name)| - 1);
  }

  lemma {:induction false} WithoutNothing(l: seq<Name>, name: Name)
    requires name !in l
    ensures Without(l, name) == l
  {
    if l != [] {
      WithoutNothing(l[1..], name);
    }
  }

  /** Deleting a name takes it, and nothing else, out of the list, unless its directory cannot
      be removed. */
  lemma DeletedIsGone(s: State, before: seq<Name>, after: seq<Name>, name: Name, removes: bool, io: WriteResult)
    requires s.list == before + after && name !in before && (after == [] || (after[0] == name && name !in after[1..]))
    ensures var s' := Apply(s, Delete(name, removes, io));
            if name in s.dirs && !removes then s' == s
            else s'.list == before + (if after == [] then [] else after[1..]) && s'.dirs == s.dirs - {name}
  {
    WithoutHere(before, after, name);
  }

  lemma WithoutHere(before: seq<Name>, after: seq<Name>, name: Name)
    requires name !in before && (after == [] || (after[0] == name && name !in after[1..]))
    ensures Without(before + after, name) == before + (if after == [] then [] else after[1..])
  {
    WithoutAppend(before, after, name);
    WithoutNothing(before, name);
    if after != [] {
      WithoutNothing(after[1..], name);
      assert Without(after, name) == after[1..];
    }
  }

  lemma {:induction false} WithoutAppend(a: seq<Name>, b: seq<Name>, name: Name)
    ensures Without(a + b, name) == Without(a, name) + Without(b, name)
  {
    if a == [] {
      assert a + b == b;
    } else {
      assert (a + b)[1..] == a[1..] + b;
      WithoutAppend(a[1..], b, name);
    }
  }

  /** In every run, a directory that `exists` reports, or that `create` finishes, is there
      afterwards and first in the list: it is never the one evicted. */
  lemma ReportedIsKept(ops: seq<Op>, op: Op)
    requires !op.Delete?
    ensures var s, s' := Run(Empty, ops), Apply(Run(Empty, ops), op);
            && (op.Exists? && op.name in s.dirs ==> op.name in s'.dirs && s'.list != [] && s'.list[0] == op.name)
            && (op.Create? && op.creates && op.renameFailures <= 20 && op.name !in s.dirs ==>
                  op.name in s'.dirs && s'.list != [] && s'.list[0] == op.name)
  {
    InvRun(Empty, ops);
    TouchKeepsInv(Run(Empty, ops), op.name, op.evicts, op.io);
  }

  // ----- least recently used -----

  function Take5(l: seq<Name>): seq<Name> { if |l| <= KEEP_LRU then l else l[..KEEP_LRU] }

  /** The distinct names of a history that is given latest first, by their latest use. */
  function Recent(history: seq<Name>): seq<Name> {
    if history == [] then [] else Front(Recent(history[1..]), history[0])
  }

  lemma FrontAt(l: seq<Name>, name: Name, k: nat)
    requires k < |Front(l, name)|
    ensures Front(l, name)[k] ==
            if k == 0 then name else if Position(l, name) < 0 || k - 1 < Position(l, name) then l[k - 1] else l[k]
  {
    ConsAt(name, RemoveFirst(l, name), k);
    if k > 0 {
      RemovedAt(l, name, k - 1);
    }
  }

  lemma ConsAt(name: Name, l: seq<Name>, k: nat)
    requires k <= |l|
    ensures ([name] + l)[k] == if k == 0 then name else l[k - 1]
  {
  }

  lemma RemovedAt(l: seq<Name>, name: Name, k: nat)
    requires k < |RemoveFirst(l, name)|
    ensures RemoveFirst(l, name)[k] == if Position(l, name) < 0 || k < Position(l, name) then l[k] else l[k + 1]
  {
    if Position(l, name) >= 0 {
      CutAt(l, Position(l, name), k);
    }
  }

  lemma CutAt(l: seq<Name>, i: nat, k: nat)
    requires i < |l| && k < |l| - 1
    ensures (l[..i] + l[i + 1..])[k] == if k < i then l[k] else l[k + 1]
  {
  }

  lemma PositionNext(l: seq<Name>, name: Name)
    requires l != [] && name in l
    ensures Position(l, name) == if name == l[0] then 0 else 1 + Position(l[1..], name)
    ensures Position(l, name) >= 0
    ensures name != l[0] ==> Position(l[1..], name) >= 0
  {
    assert l == [l[0]] + l[1..];
  }

  lemma {:induction false} RecentNoDup(history: seq<Name>)
    ensures NoDup(Recent(history)) && forall n :: n in Recent(history) <==> n in history
    decreases |history|
  {
    if history != [] {
      RecentNoDup(history[1..]);
      FrontProps(Recent(history[1..]), history[0]);
      assert history == [history[0]] + history[1..];
    }
  }

  lemma RecentDistinct(history: seq<Name>, i: nat, j: nat)
    requires i < j < |Recent(history)|
    ensures Recent(history)[i] != Recent(history)[j]
    ensures forall k :: 0 <= k < |Recent(history)| ==> Recent(history)[k] in history
  {
    RecentNoDup(history);
  }

  /** Where the name that is at `i` after a touch was before it. */
  function Shifted(p: int, i: nat): nat
    requires i > 0
  {
    if p < 0 || i - 1 < p then i - 1 else i
  }

  lemma RecentShifted(history: seq<Name>, i: nat)
    requires history != [] && 0 < i < |Recent(history)|
    ensures var r := Recent(history[1..]);
            var k := Shifted(Position(r, history[0]), i);
            k < |r| && r[k] == Recent(history)[i]
    ensures Recent(history)[i] != history[0]
    ensures Position(history, Recent(history)[i]) == 1 + Position(history[1..], Recent(history)[i])
  {
    FrontShifted(Recent(history[1..]), history[0], i);
    RecentDistinct(history, 0, i);
    PositionNext(history, Recent(history)[i]);
  }

  lemma FrontShifted(r: seq<Name>, name: Name, i: nat)
    requires 0 < i < |Front(r, name)|
    ensures var k := Shifted(Position(r, name), i); k < |r| && r[k] == Front(r, name)[i]
  {
    FrontAt(r, name, i);
  }

  /** A name listed before another was used more recently. */
  lemma {:induction false} RecentOrder(history: seq<Name>, i: nat, j: nat)
    requires i < j < |Recent(history)|
    ensures Position(history, Recent(history)[i]) < Position(history, Recent(history)[j])
    decreases |history|
  {
    RecentShifted(history, j);
    if i == 0 {
      RecentDistinct(history, 0, j);
      PositionNext(history, Recent(history)[j]);
    } else {
      RecentShifted(history, i);
      var p := Position(Recent(history[1..]), history[0]);
      RecentOrder(history[1..], Shifted(p, i), Shifted(p, j));
    }
  }

  /** The names in `Recent` are those of the history, each once, in the order of their first
      position in the history. */
  lemma RecentMeaning(history: seq<Name>)
    ensures var r := Recent(history);
            && NoDup(r) && (forall n :: n in r <==> n in history)
            && forall i, j :: 0 <= i < j < |r| ==> Position(history, r[i]) < Position(history, r[j])
  {
    RecentNoDup(history);
    forall i, j | 0 <= i < j < |Recent(history)|
      ensures Position(history, Recent(history)[i]) < Position(history, Recent(history)[j])
    {
      RecentOrder(history, i, j);
    }
  }

  lemma PositionInTake(l: seq<Name>, name: Name)
    ensures name in Take5(l) ==> Position(Take5(l), name) == Position(l, name)
    ensures name in Take5(l) <==> 0 <= Position(l, name) < KEEP_LRU
  {
    var t := Take5(l);
    assert forall k :: 0 <= k < |t| ==> t[k] == l[k];
  }

  /** Touching the first five names gives the first five of touching all names. */
  lemma FrontOfTake(l: seq<Name>, name: Name)
    requires NoDup(l)
    ensures Take5(Front(Take5(l), name)) == Take5(Front(l, name))
  {
    var a, b := Front(Take5(l), name), Front(l, name);
    FrontOfTakeLength(l, name);
    forall k | 0 <= k < |Take5(a)|
      ensures a[k] == b[k]
    {
      FrontOfTakeAt(l, name, k);
    }
  }

  lemma FrontOfTakeLength(l: seq<Name>, name: Name)
    requires NoDup(l)
    ensures |Take5(Front(Take5(l), name))| == |Take5(Front(l, name))|
  {
    FrontProps(l, name);
    FrontProps(Take5(l), name);
    PositionInTake(l, name);
  }

  lemma FrontOfTakeAt(l: seq<Name>, name: Name, k: nat)
    requires k < KEEP_LRU && k < |Front(Take5(l), name)| && k < |Front(l, name)|
    ensures Front(Take5(l), name)[k] == Front(l, name)[k]
  {
    PositionInTake(l, name);
    FrontAt(Take5(l), name, k);
    FrontAt(l, name, k);
  }

  ghost predicate IsLru(s: State) {
    s.failures == 0 && !s.deleted ==> s.list == Take5(Recent(s.touched))
  }

  lemma TouchKeepsLru(s: State, name: Name, evicts: bool, io: WriteResult)
    requires IsLru(s)
    ensures IsLru(AfterTouch(s, name, evicts, io))
  {
    var s' := AfterTouch(s, name, evicts, io);
    if s'.failures == 0 && !s'.deleted {
      RecentNoDup(s.touched);
      FrontOfTake(Recent(s.touched), name);
      FrontProps(Take5(Recent(s.touched)), name);
      assert s'.list == Take5(Front(s.list, name));
      assert s'.touched[1..] == s.touched;
    }
  }

  lemma {:induction false} LruRun(s: State, ops: seq<Op>)
    requires IsLru(s)
    ensures IsLru(Run(s, ops))
    decreases |ops|
  {
    if ops != [] {
      if !ops[0].Delete? {
        TouchKeepsLru(s, ops[0].name, ops[0].evicts, ops[0].io);
      }
      LruRun(Apply(s, ops[0]), ops[1..]);
    }
  }

  /** The names that the operations of a run touch, latest first. */
  function TouchedIn(s: State, ops: seq<Op>): seq<Name>
    decreases |ops|
  {
    if ops == [] then []
    else TouchedIn(Apply(s, ops[0]), ops[1..]) + (if Touches(s, ops[0]) then [ops[0].name] else [])
  }

  lemma {:induction false} TouchedRun(s: State, ops: seq<Op>)
    ensures Run(s, ops).touched == TouchedIn(s, ops) + s.touched
    decreases |ops|
  {
    if ops != [] {
      var now := if Touches(s, ops[0]) then [ops[0].name] else [];
      HistoryStep(s, ops[0]);
      TouchedRun(Apply(s, ops[0]), ops[1..]);
      Regroup(TouchedIn(Apply(s, ops[0]), ops[1..]), now, s.touched);
    }
  }

  lemma {:induction false} NothingDeleted(s: State, ops: seq<Op>)
    requires forall i :: 0 <= i < |ops| ==> !ops[i].Delete?
    ensures Run(s, ops).deleted == s.deleted
    decreases |ops|
  {
    if ops != [] {
      HistoryStep(s, ops[0]);
      NothingDeleted(Apply(s, ops[0]), ops[1..]);
    }
  }

  lemma {:induction false} NoRefusals(ops: seq<Op>)
    requires forall i :: 0 <= i < |ops| ==> !ops[i].Delete? && ops[i].evicts
    ensures Refusals(ops) == 0
  {
    if ops != [] {
      NoRefusals(ops[1..]);
    }
  }

  /** In every run from an empty cache in which evictions succeed and nothing is deleted, the
      list is the five most recently touched distinct names. */
  lemma ListIsFiveMostRecent(ops: seq<Op>)
    requires forall i :: 0 <= i < |ops| ==> !ops[i].Delete? && ops[i].evicts
    ensures var recent := Recent(TouchedIn(Empty, ops));
            Run(Empty, ops).list == if |recent| <= 5 then recent else recent[..5]
  {
    LruRun(Empty, ops);
    TouchedRun(Empty, ops);
    FailuresRun(Empty, ops);
    NoRefusals(ops);
    NothingDeleted(Empty, ops);
    assert TouchedIn(Empty, ops) + [] == TouchedIn(Empty, ops);
  }

  lemma SavedList(s: State, op: Op)
    requires Stored(s.file, []) == s.list && op.io == Written
    ensures Stored(Apply(s, op).file, []) == Apply(s, op).list
  {
    if !op.Delete? {
      EvictionIsSaved(s.(touched := [op.name] + s.touched), Front(s.list, op.name), op.evicts);
    }
  }

  lemma EvictionIsSaved(s: State, l: seq<Name>, evicts: bool)
    ensures AfterEviction(s, l, evicts, Written).file == Holds(AfterEviction(s, l, evicts, Written).list)
  {
  }

  /** While every save is written, a cache opened anew finds the same list. */
  lemma {:induction false} ReopenedFindsList(s: State, ops: seq<Op>)
    requires Stored(s.file, []) == s.list
    requires forall i :: 0 <= i < |ops| ==> ops[i].io == Written
    ensures Stored(Run(s, ops).file, []) == Run(s, ops).list
    decreases |ops|
  {
    if ops != [] {
      SavedList(s, ops[0]);
      ReopenedFindsList(Apply(s, ops[0]), ops[1..]);
    }
  }

  // ----- the program -----

  /** Removes the first occurrence of the name, if any, and inserts it at the front. */
  method MoveToFront(list: seq<Name>, name: Name) returns (l: seq<Name>)
    ensures l == Front(list, name)
  {
    l := list;
    var index := 0;
    while index < |l| && l[index] != name
      invariant index <= |l|
      invariant forall i :: 0 <= i < index ==> l[i] != name
    {
      index := index + 1;
    }
    if index < |l| {
      l := l[..index] + l[index + 1..];
    }
    l := [name] + l;
  }

  class Cache {
    const store: Container<seq<Name>>
    var dirs: set<Name>
    ghost var failures: nat
    ghost var touched: seq<Name>
    ghost var deleted: bool

    ghost function View(): State
      reads this, store
    {
      State(store.Value(), dirs, store.file, failures, touched, deleted)
    }

    constructor ()
      ensures View() == Empty && fresh(store)
    {
      store := new Container(NoFile, []);
      dirs, failures, touched, deleted := {}, 0, [], false;
    }

    method Touch(name: Name, evicts: bool, io: WriteResult) returns (ok: bool)
      modifies this, store
      ensures View() == AfterTouch(old(View()), name, evicts, io)
    {
      var l := store.LoadOrGet();
      l := MoveToFront(l, name);
      touched := [name] + touched;
      ok := MakeRoom(l, evicts, io);
    }

    /** Saves the list, without its last name if that is one too many and can be removed. */
    method MakeRoom(list: seq<Name>, evicts: bool, io: WriteResult) returns (ok: bool)
      modifies this, store
      ensures View() == AfterEviction(old(View()), list, evicts, io)
    {
      var l := list;
      if |l| > KEEP_LRU {
        var f := l[|l| - 1];
        if f !in dirs || evicts {
          dirs := dirs - {f};
          l := l[..|l| - 1];
        } else {
          failures := failures + 1;
        }
      }
      ok := store.Save(l, io);
    }

    method Exists(name: Name, evicts: bool, io: WriteResult) returns (found: bool)
      modifies this, store
      ensures View() == AfterExists(old(View()), name, evicts, io)
      ensures found <==> name in old(dirs)
    {
      found := name in dirs;
      if found {
        var _ := Touch(name, evicts, io);
      }
    }

    method Delete(name: Name, removes: bool, io: WriteResult) returns (ok: bool)
      modifies this, store
      ensures View() == AfterDelete(old(View()), name, removes, io)
      ensures ok <==> (name in old(dirs) ==> removes) && io == Written
    {
      if name in dirs {
        if !removes {
          return false;
        }
      }
      dirs := dirs - {name};
      deleted := true;
      var l := store.LoadOrGet();
      ok := store.Save(Without(l, name), io);
    }

    /** Fills a staging directory and renames it, unless the entry is there already. */
    method Create(name: Name, creates: bool, evicts: bool, io: WriteResult, renameFailures: nat) returns (ok: bool)
      modifies this, store
      ensures View() == AfterCreate(old(View()), name, creates, evicts, io, renameFailures)
      ensures ok <==> name in dirs
    {
      if name in dirs {
        return true;
      }
      if !creates {
        return false;
      }
      ghost var before := View();
      var _ := Touch(name, evicts, io);
      TouchedIsNew(before, name, evicts, io);
      var attempt := 0;
      while attempt <= RENAME_ATTEMPTS
        invariant attempt <= RENAME_ATTEMPTS + 1 && attempt <= renameFailures
        invariant View() == AfterTouch(before, name, evicts, io)
        decreases RENAME_ATTEMPTS + 1 - attempt
      {
        if attempt == renameFailures {
          dirs := dirs + {name};
          return true;
        }
        attempt := attempt + 1;
      }
      ok := false;
    }
  }

  lemma TouchedIsNew(s: State, name: Name, evicts: bool, io: WriteResult)
    requires name !in s.dirs
    ensures name !in AfterTouch(s, name, evicts, io).dirs
  {
  }
}
