/**
  Pointing the product configuration at the mock server and back
  (scripts/mock-policy-server/server.ts, `wireOverrides`, `unwireOverrides` and `isWired`).

  A JSON value inside the files is represented by its serialized text, which is what the
  program compares.  The overrides file may hold anything; its agent may be missing, null,
  a number or boolean, or an object.
*/
module Overrides {
  import opened Basics

  datatype Key = Key(name: string)
  datatype Val = Val(json: string)

  type Fields = map<Key, Val>

  datatype Agent = JsonNull | Scalar(truthy: bool) | Object(fields: Fields)

  /** A parsed overrides file: the agent, and the other top-level keys. */
  datatype Doc = Doc(agent: Option<Agent>, rest: Fields)

  datatype Parsed = Malformed | NullDoc | Parsed(doc: Doc)

  /** The contents of a file: text of any origin, or a document this program wrote. */
  datatype Content = Foreign(text: string, parsed: Parsed) | Written(doc: Doc)

  /** The overrides file and its backup. */
  datatype Files = Files(overrides: Option<Content>, backup: Option<Content>)

  /** The endpoints with their keys and local URLs, and the agent of the product itself. */
  datatype Setup = Setup(endpoints: seq<(Key, Val)>, base: Fields) {
    function Urls(): Fields { UrlsOf(endpoints) }
  }

  function UrlsOf(endpoints: seq<(Key, Val)>): Fields {
    if endpoints == [] then map[]
    else UrlsOf(endpoints[..|endpoints| - 1])[endpoints[|endpoints| - 1].0 := endpoints[|endpoints| - 1].1]
  }

  /** Reading and parsing a file; a missing file fails like malformed text. */
  function Read(file: Option<Content>): Parsed {
    match file
    case None => Malformed
    case Some(Foreign(_, parsed)) => parsed
    case Some(Written(doc)) => Parsed(doc)
  }

  /** The fields that spreading an agent gives. */
  function Spread(a: Agent): Fields { if a.Object? then a.fields else map[] }

  predicate Truthy(a: Option<Agent>) { a.Some? && (a.value.Object? || (a.value.Scalar? && a.value.truthy)) }

  // ----- wiring -----

  /** The document to start from; text that does not parse counts as an empty object. */
  function StartDoc(p: Parsed): Doc
    requires !p.NullDoc?
  {
    if p.Malformed? then Doc(None, map[]) else p.doc
  }

  function Existing(d: Doc, base: Fields): Fields {
    if d.agent.None? || d.agent.value.JsonNull? then base else Spread(d.agent.value)
  }

  function WiredDoc(x: Setup, d: Doc): Doc {
    Doc(Some(Object(x.base + Existing(d, x.base) + x.Urls())), d.rest)
  }

  /** Backs the file up if there is one, then rewrites it; a file that holds null makes the
      program throw after the backup. */
  function Wire(x: Setup, f: Files): Files {
    var backup := if f.overrides.Some? then f.overrides else f.backup;
    var p := Read(f.overrides);
    if p.NullDoc? then f.(backup := backup)
    else Files(Some(Written(WiredDoc(x, StartDoc(p)))), backup)
  }

  function WireTimes(x: Setup, f: Files, n: nat): Files {
    if n == 0 then f else Wire(x, WireTimes(x, f, n - 1))
  }

  /** Every endpoint of the overrides points at this server. */
  predicate IsWired(x: Setup, f: Files) {
    var p := Read(f.overrides);
    && p.Parsed? && Truthy(p.doc.agent)
    && forall k :: k in x.Urls() ==> k in Spread(p.doc.agent.value) && Spread(p.doc.agent.value)[k] == x.Urls()[k]
  }

  // ----- unwiring -----

  /** The agent with every endpoint key as the product has it. */
  function ResetKeys(agent: Fields, base: Fields, endpoints: seq<(Key, Val)>): Fields {
    if endpoints == [] then agent
    else
      var a, k := ResetKeys(agent, base, endpoints[..|endpoints| - 1]), endpoints[|endpoints| - 1].0;
      if k in base then a[k := base[k]] else a - {k}
  }

  function UnwiredDoc(x: Setup, d: Doc): Doc
    requires d.agent.Some?
  {
    var agent := ResetKeys(Spread(d.agent.value), x.base, x.endpoints);
    d.(agent := if agent == x.base then None else Some(Object(agent)))
  }

  /** Restores the backup if there is one; otherwise resets the endpoint keys, drops the agent
      if it is the product's, and removes the file if nothing is left in it. */
  function Unwire(x: Setup, f: Files): Files {
    if f.backup.Some? then Files(f.backup, None)
    else
      var p := Read(f.overrides);
      if !p.Parsed? || !Truthy(p.doc.agent) then f
      else
        var d := UnwiredDoc(x, p.doc);
        f.(overrides := if d.agent.None? && d.rest == map[] then None else Some(Written(d)))
  }

  // ----- resetting keys -----

  lemma {:induction false} UrlKeys(endpoints: seq<(Key, Val)>)
    ensures forall k :: k in UrlsOf(endpoints) <==> exists i :: 0 <= i < |endpoints| && endpoints[i].0 == k
  {
    if endpoints != [] {
      UrlKeys(endpoints[..|endpoints| - 1]);
    }
  }

  ghost predicate IsEndpoint(x: Setup, k: Key) { exists i :: 0 <= i < |x.endpoints| && x.endpoints[i].0 == k }

  /** The URL of a key is that of the last endpoint with it. */
  ghost predicate IsUrl(endpoints: seq<(Key, Val)>, k: Key, v: Val) {
    exists i :: 0 <= i < |endpoints| && endpoints[i] == (k, v) && LastWith(endpoints, i)
  }

  ghost predicate LastWith(endpoints: seq<(Key, Val)>, i: nat)
    requires i < |endpoints|
  {
    forall j :: i < j < |endpoints| ==> endpoints[j].0 != endpoints[i].0
  }

  lemma {:induction false} UrlValues(endpoints: seq<(Key, Val)>, k: Key)
    requires k in UrlsOf(endpoints)
    ensures IsUrl(endpoints, k, UrlsOf(endpoints)[k])
    ensures forall v :: IsUrl(endpoints, k, v) ==> v == UrlsOf(endpoints)[k]
  {
    var n := |endpoints| - 1;
    if endpoints[n].0 == k {
      assert LastWith(endpoints, n);
    } else {
      var before := endpoints[..n];
      UrlValues(before, k);
      var i :| 0 <= i < n && before[i] == (k, UrlsOf(before)[k]) && LastWith(before, i);
      assert endpoints[i] == (k, UrlsOf(endpoints)[k]) && LastWith(endpoints, i);
      forall v | IsUrl(endpoints, k, v) ensures v == UrlsOf(endpoints)[k] {
        var j :| 0 <= j <= n && endpoints[j] == (k, v) && LastWith(endpoints, j);
        assert before[j] == (k, v) && LastWith(before, j);
      }
    }
  }

  // ----- what files say -----

  /** The document in a file, if it holds one. */
  function DocIn(file: Option<Content>): Option<Doc> {
    match file
    case Some(Foreign(_, Parsed(d))) => Some(d)
    case Some(Written(d)) => Some(d)
    case _ => None
  }

  predicate HoldsNull(file: Option<Content>) { file.Some? && file.value.Foreign? && file.value.parsed.NullDoc? }

  function At(fields: Fields, k: Key): Option<Val> { if k in fields then Some(fields[k]) else None }

  /** What the file's own agent says about a field. */
  function Own(file: Option<Content>, k: Key): Option<Val> {
    match DocIn(file)
    case Some(Doc(Some(Object(fields)), _)) => At(fields, k)
    case _ => None
  }

  /** What the file's own agent says about a field, or else the product. */
  function OwnOrBase(x: Setup, file: Option<Content>, k: Key): Option<Val> {
    if Own(file, k).Some? then Own(file, k) else At(x.base, k)
  }

  /** The other top-level keys of the file. */
  function Rest(file: Option<Content>): Fields { if DocIn(file).Some? then DocIn(file).value.rest else map[] }

  /** What the product uses: an agent in the overrides replaces its own as a whole. */
  function Used(x: Setup, file: Option<Content>, k: Key): Option<Val> {
    if DocIn(file).Some? && DocIn(file).value.agent.Some? then Own(file, k) else At(x.base, k)
  }

  /** Wiring backs the file up if there is one, and leaves it alone if it holds null.  Otherwise
      every endpoint key gets the server's URL, every other field is what the file said about
      it, or else the product, and other top-level keys are kept. */
  lemma WiredAt(x: Setup, f: Files, k: Key)
    ensures var w := Wire(x, f);
            && w.backup == (if f.overrides.Some? then f.overrides else f.backup)
            && (HoldsNull(f.overrides) ==> w.overrides == f.overrides)
            && (!HoldsNull(f.overrides) ==>
                  && DocIn(w.overrides).Some? && DocIn(w.overrides).value.agent.Some?
                  && Rest(w.overrides) == Rest(f.overrides)
                  && (forall v :: IsUrl(x.endpoints, k, v) ==> Own(w.overrides, k) == Some(v))
                  && (!IsEndpoint(x, k) ==> Own(w.overrides, k) == OwnOrBase(x, f.overrides, k)))
  {
    UrlKeys(x.endpoints);
    if k in x.Urls() {
      UrlValues(x.endpoints, k);
    }
    forall v | IsUrl(x.endpoints, k, v) ensures k in x.Urls() {
      var i :| 0 <= i < |x.endpoints| && x.endpoints[i] == (k, v);
    }
  }

  /** The agent of the file is one that unwiring changes: an object, or a true or non-zero value. */
  predicate HasAgent(file: Option<Content>) {
    match DocIn(file)
    case Some(Doc(Some(Object(_)), _)) => true
    case Some(Doc(Some(Scalar(truthy)), _)) => truthy
    case _ => false
  }

  /** Unwiring without a backup: a file without such an agent stays as it is.  Otherwise every
      endpoint key gets the product's value or is dropped, every other field stays as the file
      has it, and other top-level keys are kept. */
  lemma UnwiredAt(x: Setup, f: Files, k: Key)
    requires f.backup.None?
    ensures var u := Unwire(x, f);
            && (!HasAgent(f.overrides) ==> u == f)
            && (HasAgent(f.overrides) ==>
                  && u.backup == None && Rest(u.overrides) == Rest(f.overrides)
                  && Used(x, u.overrides, k) == if IsEndpoint(x, k) then At(x.base, k) else Own(f.overrides, k))
  {
    if HasAgent(f.overrides) {
      var agent := Spread(DocIn(f.overrides).value.agent.value);
      UrlKeys(x.endpoints);
      ResetAt(agent, x.base, x.endpoints, k);
    }
  }

  /** Every endpoint of the overrides points at the server. */
  lemma IsWiredExactly(x: Setup, f: Files)
    requires x.endpoints != []
    ensures IsWired(x, f) <==> forall k, v :: IsUrl(x.endpoints, k, v) ==> Own(f.overrides, k) == Some(v)
  {
    UrlKeys(x.endpoints);
    var last := x.endpoints[|x.endpoints| - 1];
    assert LastWith(x.endpoints, |x.endpoints| - 1) && IsUrl(x.endpoints, last.0, last.1);
    forall k | k in x.Urls() ensures IsUrl(x.endpoints, k, x.Urls()[k]) {
      UrlValues(x.endpoints, k);
    }
    forall k, v | IsUrl(x.endpoints, k, v) ensures k in x.Urls() && v == x.Urls()[k] {
      var i :| 0 <= i < |x.endpoints| && x.endpoints[i] == (k, v);
      UrlValues(x.endpoints, k);
    }
  }

  /** Two agents agree on a key: both have it with the same value, or neither has it. */
  ghost predicate Same(a: Fields, b: Fields, k: Key) { (k in a <==> k in b) && (k in a ==> a[k] == b[k]) }

  /** Endpoint keys become the product's, all others stay. */
  lemma {:induction false} ResetAt(agent: Fields, base: Fields, endpoints: seq<(Key, Val)>, k: Key)
    ensures Same(ResetKeys(agent, base, endpoints), if k in UrlsOf(endpoints) then base else agent, k)
  {
    if endpoints != [] {
      ResetAt(agent, base, endpoints[..|endpoints| - 1], k);
    }
  }

  lemma SameEverywhere(a: Fields, b: Fields)
    requires forall k :: Same(a, b, k)
    ensures a == b
  {
    forall k ensures k in a.Keys <==> k in b.Keys {
      assert Same(a, b, k);
    }
    assert a.Keys == b.Keys;
    forall k | k in a ensures a[k] == b[k] {
      assert Same(a, b, k);
    }
  }

  // ----- wiring and unwiring -----

  lemma UnwiresOwnFile(x: Setup)
    ensures Unwire(x, Files(Some(Written(WiredDoc(x, Doc(None, map[])))), None)) == Files(None, None)
  {
    var agent := x.base + x.base + x.Urls();
    var reset := ResetKeys(agent, x.base, x.endpoints);
    forall k ensures Same(reset, x.base, k) {
      ResetAt(agent, x.base, x.endpoints, k);
    }
    SameEverywhere(reset, x.base);
  }

  /** Wiring and then unwiring restores the overrides file exactly, whatever it held, unless
      the file was missing while a backup was left over. */
  lemma WireThenUnwireExactly(x: Setup, f: Files)
    ensures Unwire(x, Wire(x, f)).overrides == f.overrides <==> f.overrides.Some? || f.backup.None?
    ensures Unwire(x, Wire(x, f)).backup == None
  {
    if f.overrides.None? && f.backup.None? {
      UnwiresOwnFile(x);
    }
  }

  // ----- wiring more than once -----

  /** Wiring a wired document changes nothing. */
  lemma WiredTwice(x: Setup, d: Doc)
    ensures WiredDoc(x, WiredDoc(x, d)) == WiredDoc(x, d)
  {
    var a := x.base + Existing(d, x.base) + x.Urls();
    assert x.base + a + x.Urls() == a;
  }

  /** The file is wired, and each wire after the first only overwrites the backup with it. */
  lemma {:induction false} WireTimesIs(x: Setup, f: Files, n: nat)
    requires n > 0 && !HoldsNull(f.overrides)
    ensures var w := Wire(x, f);
            WireTimes(x, f, n) == Files(w.overrides, if n == 1 then w.backup else w.overrides)
    ensures IsWired(x, WireTimes(x, f, n))
  {
    if n == 1 {
      assert WireTimes(x, f, 0) == f;
    } else {
      WireTimesIs(x, f, n - 1);
      WiredTwice(x, StartDoc(Read(f.overrides)));
    }
  }

  /** Wiring a file and unwiring it without the backup: every endpoint key is back to the
      product's value, every other field is what the file said about it or else the product,
      and other top-level keys are kept. */
  lemma UnwiresWired(x: Setup, f: Files, k: Key)
    requires !HoldsNull(f.overrides)
    ensures var u := Unwire(x, Files(Wire(x, f).overrides, None));
            && u.backup == None && Rest(u.overrides) == Rest(f.overrides)
            && Used(x, u.overrides, k) == if IsEndpoint(x, k) then At(x.base, k) else OwnOrBase(x, f.overrides, k)
  {
    WiredAt(x, f, k);
    UnwiredAt(x, Files(Wire(x, f).overrides, None), k);
  }

  /** Unwiring without a backup removes a file exactly if it holds no other top-level key and
      its agent says what the product says, endpoints aside. */
  lemma RemovedExactly(x: Setup, f: Files)
    requires f.backup.None? && HasAgent(f.overrides)
    ensures Unwire(x, f).overrides.None? <==>
            Rest(f.overrides) == map[] && forall k :: !IsEndpoint(x, k) ==> Own(f.overrides, k) == At(x.base, k)
  {
    UrlKeys(x.endpoints);
    var agent := Spread(DocIn(f.overrides).value.agent.value);
    var reset := ResetKeys(agent, x.base, x.endpoints);
    forall k ensures Same(reset, x.base, k) <==> IsEndpoint(x, k) || Own(f.overrides, k) == At(x.base, k) {
      ResetAt(agent, x.base, x.endpoints, k);
    }
    if forall k :: !IsEndpoint(x, k) ==> Own(f.overrides, k) == At(x.base, k) {
      forall k ensures Same(reset, x.base, k) {
        assert IsEndpoint(x, k) || Own(f.overrides, k) == At(x.base, k);
      }
      SameEverywhere(reset, x.base);
    }
  }

  /** Unwiring without a backup is idempotent. */
  lemma UnwireSettles(x: Setup, f: Files)
    requires f.backup.None?
    ensures Unwire(x, Unwire(x, f)) == Unwire(x, f)
  {
    var p := Read(f.overrides);
    if p.Parsed? && Truthy(p.doc.agent) {
      var reset := ResetKeys(Spread(p.doc.agent.value), x.base, x.endpoints);
      var again := ResetKeys(reset, x.base, x.endpoints);
      forall k ensures Same(again, reset, k) {
        ResetAt(Spread(p.doc.agent.value), x.base, x.endpoints, k);
        ResetAt(reset, x.base, x.endpoints, k);
      }
      SameEverywhere(again, reset);
    }
  }

  /** After two or more wires one unwire leaves every endpoint pointing at the server.  The
      second resets them all, keeps what else the file said, and further ones do nothing. */
  lemma SecondUnwireResets(x: Setup, f: Files, n: nat, k: Key)
    requires n >= 2 && !HoldsNull(f.overrides)
    ensures var once := Unwire(x, WireTimes(x, f, n));
            var twice := Unwire(x, once);
            && IsWired(x, once) && once == Files(Wire(x, f).overrides, None)
            && twice.backup == None && Unwire(x, twice) == twice
            && Rest(twice.overrides) == Rest(f.overrides)
            && Used(x, twice.overrides, k) == if IsEndpoint(x, k) then At(x.base, k) else OwnOrBase(x, f.overrides, k)
  {
    WireTimesIs(x, f, n);
    UnwiresWired(x, f, k);
    UnwireSettles(x, Unwire(x, WireTimes(x, f, n)));
  }

  // ----- the program -----

  /** The two files, which the program rewrites in place. */
  class OverrideFiles {
    const setup: Setup
    var overrides: Option<Content>
    var backup: Option<Content>

    ghost function View(): Files reads this { Files(overrides, backup) }

    constructor (setup: Setup, files: Files)
      ensures this.setup == setup && View() == files
    {
      this.setup := setup;
      overrides, backup := files.overrides, files.backup;
    }

    /** The URLs this server provides; later endpoints win a shared key. */
    method OverrideUrls() returns (urls: Fields)
      ensures urls == setup.Urls()
      ensures forall k :: k in urls <==> exists i :: 0 <= i < |setup.endpoints| && setup.endpoints[i].0 == k
    {
      urls := map[];
      var i := 0;
      while i < |setup.endpoints|
        invariant 0 <= i <= |setup.endpoints|
        invariant urls == UrlsOf(setup.endpoints[..i])
      {
        assert setup.endpoints[..i + 1][..i] == setup.endpoints[..i];
        urls := urls[setup.endpoints[i].0 := setup.endpoints[i].1];
        i := i + 1;
      }
      assert setup.endpoints[..i] == setup.endpoints;
      UrlKeys(setup.endpoints);
    }

    /** `threw`: the file held null, whose agent cannot be read. */
    method WireOverrides() returns (threw: bool)
      modifies this
      ensures View() == Wire(setup, old(View()))
      ensures threw == Read(old(overrides)).NullDoc?
      ensures !threw ==> IsWired(setup, View())
    {
      ghost var before := View();
      if overrides.Some? {
        backup := overrides;
      }
      var doc := Doc(None, map[]);
      match Read(overrides) {
        case Malformed =>
        case NullDoc => return true;
        case Parsed(d) => doc := d;
      }
      var existing := Existing(doc, setup.base);
      var urls := OverrideUrls();
      doc := doc.(agent := Some(Object(setup.base + existing + urls)));
      overrides := Some(Written(doc));
      assert WireTimes(setup, before, 0) == before;
      WireTimesIs(setup, before, 1);
      return false;
    }

    /** `threw`: there is no backup and the file holds null, whose agent cannot be read. */
    method UnwireOverrides() returns (threw: bool)
      modifies this
      ensures View() == Unwire(setup, old(View()))
      ensures threw <==> old(backup).None? && Read(old(overrides)).NullDoc?
    {
      if backup.Some? {
        overrides, backup := backup, None;
        return false;
      }
      var p := Read(overrides);
      if !p.Parsed? || !Truthy(p.doc.agent) {
        return p.NullDoc?;
      }
      var agent := Spread(p.doc.agent.value);
      var i := 0;
      while i < |setup.endpoints|
        invariant 0 <= i <= |setup.endpoints|
        invariant agent == ResetKeys(Spread(p.doc.agent.value), setup.base, setup.endpoints[..i])
      {
        assert setup.endpoints[..i + 1][..i] == setup.endpoints[..i];
        var key := setup.endpoints[i].0;
        agent := if key in setup.base then agent[key := setup.base[key]] else agent - {key};
        i := i + 1;
      }
      assert setup.endpoints[..i] == setup.endpoints;
      var doc := p.doc.(agent := if agent == setup.base then None else Some(Object(agent)));
      overrides := if doc.agent.None? && doc.rest == map[] then None else Some(Written(doc));
      return false;
    }
  }
}
