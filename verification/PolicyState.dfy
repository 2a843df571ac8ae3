/**
  The endpoint state of the mock policy server (scripts/mock-policy-server/server.ts,
  `applyEndpointUpdates` and `resetEndpointState`).

  A batch of updates is validated completely before any of it takes effect.
*/
module PolicyState {
  import opened Basics

  datatype Json =
    | JNull
    | JBool(flag: bool)
    | JNum(num: real)
    | JStr(str: string)
    | JArr(items: seq<Json>)
    | JObj(fields: map<string, Json>)

  datatype Preset = Preset(id: string, status: Option<int>, body: Json)

  datatype EndpointDef = EndpointDef(id: string, presets: seq<Preset>, mockedByDefault: bool)

  datatype Endpoint = Endpoint(status: int, body: Json, active: bool)

  type State = map<string, Endpoint>

  /** A validated update; absent fields leave the endpoint as it is. */
  datatype Update = Update(
    endpoint: string,
    preset: Option<Preset>,
    status: Option<int>,
    body: Option<Json>,
    active: Option<bool>)

  datatype Error =
    | NotAnObject
    | UnknownField
    | EndpointNotAString
    | RepeatedEndpoint
    | UnknownEndpoint
    | NothingToUpdate
    | BadPreset
    | BadStatus
    | BadActive
    | BadBatch

  predicate InRange(status: int) { 200 <= status <= 599 }

  // ----- definitions -----

  function Ids(defs: seq<EndpointDef>): set<string> {
    if defs == [] then {} else Ids(defs[..|defs| - 1]) + {defs[|defs| - 1].id}
  }

  /** The first definition with an id. */
  function FindDef(defs: seq<EndpointDef>, id: string): (r: Option<EndpointDef>)
    ensures r.Some? ==> r.value in defs && r.value.id == id
  {
    if defs == [] then None else if defs[0].id == id then Some(defs[0]) else FindDef(defs[1..], id)
  }

  lemma {:induction false} FindsDefined(defs: seq<EndpointDef>, id: string)
    ensures FindDef(defs, id).Some? <==> id in Ids(defs)
    decreases |defs|
  {
    if defs != [] {
      FindsDefined(defs[1..], id);
      IdsCons(defs);
    }
  }

  lemma {:induction false} IdsCons(defs: seq<EndpointDef>)
    requires defs != []
    ensures Ids(defs) == {defs[0].id} + Ids(defs[1..])
    decreases |defs|
  {
    if |defs| > 1 {
      IdsCons(defs[..|defs| - 1]);
      assert defs[..|defs| - 1][1..] == defs[1..][..|defs| - 2];
    } else {
      assert defs[1..] == [] && defs[..0] == [];
    }
  }

  function FindPreset(presets: seq<Preset>, id: string): (r: Option<Preset>)
    ensures r.Some? ==> r.value in presets && r.value.id == id
  {
    if presets == [] then None else if presets[0].id == id then Some(presets[0]) else FindPreset(presets[1..], id)
  }

  /** Every preset answers with a status in range; a preset without one answers with 200. */
  ghost predicate PresetsInRange(defs: seq<EndpointDef>) {
    forall d, p :: d in defs && p in d.presets && p.status.Some? ==> InRange(p.status.value)
  }

  // ----- validating one update -----

  const FIELDS: set<string> := {"endpoint", "preset", "status", "body", "active"}

  function PresetField(def: EndpointDef, f: map<string, Json>): Result<Option<Preset>, Error> {
    if "preset" !in f then Ok(None)
    else if !f["preset"].JStr? then Err(BadPreset)
    else
      var p := FindPreset(def.presets, f["preset"].str);
      if p.None? then Err(BadPreset) else Ok(p)
  }

  function StatusField(f: map<string, Json>): (r: Result<Option<int>, Error>)
    ensures r.Ok? && r.value.Some? ==> InRange(r.value.value)
  {
    if "status" !in f then Ok(None)
    else if !f["status"].JNum? then Err(BadStatus)
    else
      var n := f["status"].num;
      if n != n.Floor as real || n < 200.0 || n > 599.0 then Err(BadStatus) else Ok(Some(n.Floor))
  }

  function ActiveField(f: map<string, Json>): Result<Option<bool>, Error> {
    if "active" !in f then Ok(None)
    else if !f["active"].JBool? then Err(BadActive)
    else Ok(Some(f["active"].flag))
  }

  /** Checks one raw update, given the endpoints named by the updates before it. */
  function Check(defs: seq<EndpointDef>, raw: Json, seen: set<string>): Result<Update, Error> {
    if !raw.JObj? then Err(NotAnObject)
    else if !(raw.fields.Keys <= FIELDS) then Err(UnknownField)
    else if "endpoint" !in raw.fields || !raw.fields["endpoint"].JStr? then Err(EndpointNotAString)
    else
      var id := raw.fields["endpoint"].str;
      if id in seen then Err(RepeatedEndpoint)
      else if FindDef(defs, id).None? then Err(UnknownEndpoint)
      else Details(FindDef(defs, id).value, raw.fields, id)
  }

  function Details(def: EndpointDef, f: map<string, Json>, id: string): Result<Update, Error> {
    if f.Keys * {"preset", "status", "body", "active"} == {} then Err(NothingToUpdate)
    else
      var preset := PresetField(def, f);
      if preset.Err? then Err(preset.error) else
      var status := StatusField(f);
      if status.Err? then Err(status.error) else
      var active := ActiveField(f);
      if active.Err? then Err(active.error) else
      Ok(Update(id, preset.value, status.value, if "body" in f then Some(f["body"]) else None, active.value))
  }

  /** The check of one update by itself. */
  function Alone(defs: seq<EndpointDef>, raw: Json): Result<Update, Error> { Check(defs, raw, {}) }

  lemma CheckAmongOthers(defs: seq<EndpointDef>, raw: Json, seen: set<string>)
    ensures Check(defs, raw, seen).Ok? <==> Alone(defs, raw).Ok? && Alone(defs, raw).value.endpoint !in seen
    ensures Check(defs, raw, seen).Ok? ==> Check(defs, raw, seen) == Alone(defs, raw)
  {
  }

  lemma CheckedFits(defs: seq<EndpointDef>, raw: Json, seen: set<string>)
    requires Check(defs, raw, seen).Ok?
    ensures Check(defs, raw, seen).value.endpoint in Ids(defs)
    ensures PresetsInRange(defs) ==> StatusesFit(Check(defs, raw, seen).value)
  {
    FindsDefined(defs, raw.fields["endpoint"].str);
  }

  ghost predicate StatusesFit(u: Update) {
    && (u.status.Some? ==> InRange(u.status.value))
    && (u.preset.Some? && u.preset.value.status.Some? ==> InRange(u.preset.value.status.value))
  }

  // ----- validating a batch -----

  function Named(us: seq<Update>): set<string> {
    if us == [] then {} else Named(us[..|us| - 1]) + {us[|us| - 1].endpoint}
  }

  lemma {:induction false} NamedMeaning(us: seq<Update>)
    ensures forall id :: id in Named(us) <==> exists i :: 0 <= i < |us| && us[i].endpoint == id
  {
    if us != [] {
      NamedMeaning(us[..|us| - 1]);
    }
  }

  /** Checks the updates in order and stops at the first error. */
  function Validate(defs: seq<EndpointDef>, raws: seq<Json>): Result<seq<Update>, Error> {
    if raws == [] then Ok([])
    else
      var before := Validate(defs, raws[..|raws| - 1]);
      if before.Err? then before
      else
        var last := Check(defs, raws[|raws| - 1], Named(before.value));
        if last.Err? then Err(last.error) else Ok(before.value + [last.value])
  }

  /** The checks of the updates of a batch, each by itself. */
  function Alones(defs: seq<EndpointDef>, raws: seq<Json>): (r: seq<Result<Update, Error>>)
    ensures |r| == |raws|
  {
    seq(|raws|, i requires 0 <= i < |raws| => Alone(defs, raws[i]))
  }

  /** The updates, if all checks succeeded and no endpoint is named twice. */
  ghost function Join(checks: seq<Result<Update, Error>>): Option<seq<Update>> {
    if checks == [] then Some([])
    else
      var before, last := Join(checks[..|checks| - 1]), checks[|checks| - 1];
      if before.None? || last.Err? || last.value.endpoint in Named(before.value) then None
      else Some(before.value + [last.value])
  }

  lemma {:induction false} ValidateJoins(defs: seq<EndpointDef>, raws: seq<Json>)
    ensures Join(Alones(defs, raws)) ==
            if Validate(defs, raws).Ok? then Some(Validate(defs, raws).value) else None
  {
    if raws != [] {
      var n := |raws| - 1;
      ValidateJoins(defs, raws[..n]);
      assert Alones(defs, raws)[..n] == Alones(defs, raws[..n]);
      var before := Validate(defs, raws[..n]);
      if before.Ok? {
        CheckAmongOthers(defs, raws[n], Named(before.value));
      }
    }
  }

  ghost predicate AllValid(checks: seq<Result<Update, Error>>) {
    forall i :: 0 <= i < |checks| ==> checks[i].Ok?
  }

  ghost predicate Distinct(checks: seq<Result<Update, Error>>)
    requires AllValid(checks)
  {
    forall i, j :: 0 <= i < j < |checks| ==> checks[i].value.endpoint != checks[j].value.endpoint
  }

  lemma {:induction false} JoinsExactly(checks: seq<Result<Update, Error>>)
    ensures Join(checks).Some? <==> AllValid(checks) && Distinct(checks)
    ensures Join(checks).Some? ==>
              && |Join(checks).value| == |checks|
              && forall i :: 0 <= i < |checks| ==> checks[i] == Ok(Join(checks).value[i])
  {
    if checks != [] {
      var n := |checks| - 1;
      JoinsExactly(checks[..n]);
      DistinctNext(checks);
      var before := Join(checks[..n]);
      if before.Some? {
        NamedMeaning(before.value);
        assert forall i :: 0 <= i < n ==> checks[i] == checks[..n][i];
      }
    }
  }

  ghost predicate NewEndpoint(checks: seq<Result<Update, Error>>)
    requires checks != [] && AllValid(checks)
  {
    var n := |checks| - 1;
    forall i :: 0 <= i < n ==> checks[i].value.endpoint != checks[n].value.endpoint
  }

  lemma DistinctNext(checks: seq<Result<Update, Error>>)
    requires checks != []
    ensures var n := |checks| - 1;
            && (AllValid(checks) <==> AllValid(checks[..n]) && checks[n].Ok?)
            && (AllValid(checks) ==> (Distinct(checks) <==> Distinct(checks[..n]) && NewEndpoint(checks)))
  {
    var n := |checks| - 1;
    assert forall i :: 0 <= i < n ==> checks[..n][i] == checks[i];
  }

  /** A batch is accepted exactly when each update is valid by itself and no two name the
      same endpoint; the validated updates are then those of the single checks. */
  lemma AcceptedExactly(defs: seq<EndpointDef>, raws: seq<Json>)
    ensures var checks := Alones(defs, raws);
            && (Validate(defs, raws).Ok? <==> AllValid(checks) && Distinct(checks))
            && (Validate(defs, raws).Ok? ==>
                  && |Validate(defs, raws).value| == |raws|
                  && forall i :: 0 <= i < |raws| ==> checks[i] == Ok(Validate(defs, raws).value[i]))
  {
    ValidateJoins(defs, raws);
    JoinsExactly(Alones(defs, raws));
  }

  // ----- taking effect -----

  /** The endpoint after an update: the preset first, then the single fields. */
  function Updated(e: Endpoint, u: Update): Endpoint {
    var e1 := if u.preset.None? then e else
                Endpoint(if u.preset.value.status.Some? then u.preset.value.status.value else 200, u.preset.value.body, true);
    Endpoint(if u.status.Some? then u.status.value else e1.status,
             if u.body.Some? then u.body.value else e1.body,
             if u.active.Some? then u.active.value else e1.active)
  }

  function Commit(s: State, us: seq<Update>): State {
    if us == [] then s
    else
      var s', u := Commit(s, us[..|us| - 1]), us[|us| - 1];
      if u.endpoint in s' then s'[u.endpoint := Updated(s'[u.endpoint], u)] else s'
  }

  /** The update of a batch for an endpoint, if there is one. */
  ghost predicate IsFor(us: seq<Update>, i: nat, id: string) { i < |us| && us[i].endpoint == id }

  ghost predicate DistinctUpdates(us: seq<Update>) {
    forall i, j :: 0 <= i < j < |us| ==> us[i].endpoint != us[j].endpoint
  }

  /** Committing changes each named endpoint by its one update and no other endpoint. */
  lemma {:induction false} CommitAt(s: State, us: seq<Update>, id: string)
    requires DistinctUpdates(us) && id in s
    ensures Commit(s, us).Keys == s.Keys
    ensures forall i: nat :: IsFor(us, i, id) ==> Commit(s, us)[id] == Updated(s[id], us[i])
    ensures (forall i: nat :: !IsFor(us, i, id)) ==> Commit(s, us)[id] == s[id]
    decreases |us|
  {
    if us != [] {
      var n := |us| - 1;
      CommitAt(s, us[..n], id);
      forall i: nat | i < n
        ensures IsFor(us, i, id) <==> IsFor(us[..n], i, id)
      {
        assert us[i] == us[..n][i];
      }
      if us[n].endpoint == id {
        assert IsFor(us, n, id);
        forall i: nat | i < n
          ensures !IsFor(us, i, id)
        {
        }
      } else {
        assert !IsFor(us, n, id);
      }
    }
  }

  lemma {:induction false} CommitKeys(s: State, us: seq<Update>)
    ensures Commit(s, us).Keys == s.Keys
  {
    if us != [] {
      CommitKeys(s, us[..|us| - 1]);
    }
  }

  // ----- a request -----

  /** The raw updates of a request body: one update, or the array under `endpoints`. */
  function RawUpdates(payload: Json): Result<seq<Json>, Error> {
    if !payload.JObj? then Err(NotAnObject)
    else if "endpoints" !in payload.fields then Ok([payload])
    else if payload.fields.Keys != {"endpoints"} then Err(UnknownField)
    else if !payload.fields["endpoints"].JArr? || payload.fields["endpoints"].items == [] then Err(BadBatch)
    else Ok(payload.fields["endpoints"].items)
  }

  function Validated(defs: seq<EndpointDef>, payload: Json): Result<seq<Update>, Error> {
    var raws := RawUpdates(payload);
    if raws.Err? then Err(raws.error) else Validate(defs, raws.value)
  }

  function AfterRequest(defs: seq<EndpointDef>, s: State, payload: Json): State {
    var us := Validated(defs, payload);
    if us.Err? then s else Commit(s, us.value)
  }

  /** The state at startup and after a reset. */
  function InitialEndpoint(def: EndpointDef): Endpoint {
    if def.presets == [] then Endpoint(200, JObj(map[]), def.mockedByDefault)
    else
      var p := def.presets[0];
      Endpoint(if p.status.Some? then p.status.value else 200, p.body, def.mockedByDefault)
  }

  function Initial(defs: seq<EndpointDef>): State {
    if defs == [] then map[] else Initial(defs[..|defs| - 1])[defs[|defs| - 1].id := InitialEndpoint(defs[|defs| - 1])]
  }

  datatype Op = Request(payload: Json) | Reset

  function Apply(defs: seq<EndpointDef>, s: State, op: Op): State {
    match op
    case Request(payload) => AfterRequest(defs, s, payload)
    case Reset => Initial(defs)
  }

  function Run(defs: seq<EndpointDef>, s: State, ops: seq<Op>): State
    decreases |ops|
  {
    if ops == [] then s else Run(defs, Apply(defs, s, ops[0]), ops[1..])
  }

  // ----- a batch is atomic -----

  /** A rejected batch changes nothing.  An accepted batch changes every named endpoint by
      its update, and nothing else. */
  lemma BatchIsAtomic(defs: seq<EndpointDef>, s: State, payload: Json, id: string)
    requires id in s
    ensures var us, s' := Validated(defs, payload), AfterRequest(defs, s, payload);
            && s'.Keys == s.Keys
            && (us.Err? ==> s' == s)
            && (us.Ok? ==>
                  && (forall i: nat :: IsFor(us.value, i, id) ==> s'[id] == Updated(s[id], us.value[i]))
                  && ((forall i: nat :: !IsFor(us.value, i, id)) ==> s'[id] == s[id]))
  {
    var raws := RawUpdates(payload);
    if raws.Ok? && Validate(defs, raws.value).Ok? {
      AcceptedExactly(defs, raws.value);
      CommitAt(s, Validate(defs, raws.value).value, id);
    }
  }

  // ----- the order of a batch does not matter -----

  lemma {:induction false} CountOne<T>(s: seq<T>, i: nat)
    requires i < |s|
    ensures multiset(s)[s[i]] >= 1
    ensures forall j :: 0 <= j < |s| && j != i && s[j] == s[i] ==> multiset(s)[s[i]] >= 2
  {
    assert s == s[..i] + [s[i]] + s[i + 1..];
    assert multiset(s) == multiset(s[..i]) + multiset{s[i]} + multiset(s[i + 1..]);
    forall j | 0 <= j < |s| && j != i && s[j] == s[i]
      ensures multiset(s)[s[i]] >= 2
    {
      if j < i {
        assert s[..i][j] == s[i] && s[i] in multiset(s[..i]);
      } else {
        assert s[i + 1..][j - i - 1] == s[i] && s[i] in multiset(s[i + 1..]);
      }
    }
  }

  lemma {:induction false} TwoPlaces<T>(s: seq<T>, x: T) returns (i: nat, j: nat)
    requires multiset(s)[x] >= 2
    ensures i < j < |s| && s[i] == x && s[j] == x
    decreases |s|
  {
    var n := |s| - 1;
    assert s == s[..n] + [s[n]];
    if s[n] == x {
      assert x in multiset(s[..n]);
      i :| 0 <= i < n && s[..n][i] == x;
      j := n;
    } else {
      i, j := TwoPlaces(s[..n], x);
    }
  }

  lemma SameCheck(defs: seq<EndpointDef>, a: seq<Json>, p: nat, q: nat)
    requires p < |a| && q < |a| && a[p] == a[q]
    ensures Alones(defs, a)[p] == Alones(defs, a)[q]
  {
  }

  lemma OtherPlace(defs: seq<EndpointDef>, a: seq<Json>, x: Json, y: Json)
    requires AllValid(Alones(defs, a)) && Distinct(Alones(defs, a))
    requires x in a && y in a && x != y
    ensures Alone(defs, x).Ok? && Alone(defs, y).Ok? && Alone(defs, x).value.endpoint != Alone(defs, y).value.endpoint
  {
    var p :| 0 <= p < |a| && a[p] == x;
    var q :| 0 <= q < |a| && a[q] == y;
    assert Alones(defs, a)[p] == Alone(defs, x) && Alones(defs, a)[q] == Alone(defs, y);
  }

  /** A reordered batch passes the same checks. */
  lemma ReorderedIsAccepted(defs: seq<EndpointDef>, a: seq<Json>, b: seq<Json>)
    requires multiset(a) == multiset(b) && AllValid(Alones(defs, a)) && Distinct(Alones(defs, a))
    ensures AllValid(Alones(defs, b)) && Distinct(Alones(defs, b))
  {
    var checks := Alones(defs, b);
    forall i | 0 <= i < |b|
      ensures b[i] in a && checks[i].Ok?
    {
      assert b[i] in multiset(b);
      var p :| 0 <= p < |a| && a[p] == b[i];
      assert Alones(defs, a)[p] == checks[i];
    }
    forall i, j | 0 <= i < j < |b|
      ensures checks[i].value.endpoint != checks[j].value.endpoint
    {
      if b[i] == b[j] {
        CountOne(b, i);
        var p, q := TwoPlaces(a, b[i]);
        SameCheck(defs, a, p, q);
      } else {
        OtherPlace(defs, a, b[i], b[j]);
      }
    }
  }

  /** The update for an endpoint in one order of a batch is that in the other. */
  lemma SameUpdate(defs: seq<EndpointDef>, a: seq<Json>, b: seq<Json>, i: nat, id: string) returns (j: nat)
    requires multiset(a) == multiset(b) && Validate(defs, a).Ok? && Validate(defs, b).Ok?
    requires IsFor(Validate(defs, a).value, i, id)
    ensures IsFor(Validate(defs, b).value, j, id) && Validate(defs, b).value[j] == Validate(defs, a).value[i]
  {
    AcceptedExactly(defs, a);
    AcceptedExactly(defs, b);
    assert a[i] in multiset(a);
    j :| 0 <= j < |b| && b[j] == a[i];
    assert Alones(defs, a)[i] == Alones(defs, b)[j];
  }

  lemma SameCommit(defs: seq<EndpointDef>, s: State, a: seq<Json>, b: seq<Json>, id: string)
    requires multiset(a) == multiset(b) && Validate(defs, a).Ok? && Validate(defs, b).Ok? && id in s
    ensures Commit(s, Validate(defs, a).value).Keys == s.Keys && Commit(s, Validate(defs, b).value).Keys == s.Keys
    ensures Commit(s, Validate(defs, a).value)[id] == Commit(s, Validate(defs, b).value)[id]
  {
    AcceptedExactly(defs, a);
    AcceptedExactly(defs, b);
    var us, vs := Validate(defs, a).value, Validate(defs, b).value;
    CommitAt(s, us, id);
    CommitAt(s, vs, id);
    if i: nat :| IsFor(us, i, id) {
      var j := SameUpdate(defs, a, b, i, id);
    } else if j: nat :| IsFor(vs, j, id) {
      var i := SameUpdate(defs, b, a, j, id);
    }
  }

  /** Every order of a batch is accepted or rejected alike, with the same resulting state. */
  lemma OrderDoesNotMatter(defs: seq<EndpointDef>, s: State, a: seq<Json>, b: seq<Json>)
    requires multiset(a) == multiset(b)
    ensures Validate(defs, a).Ok? <==> Validate(defs, b).Ok?
    ensures Validate(defs, a).Ok? ==> Commit(s, Validate(defs, a).value) == Commit(s, Validate(defs, b).value)
  {
    AcceptedExactly(defs, a);
    AcceptedExactly(defs, b);
    if Validate(defs, a).Ok? {
      ReorderedIsAccepted(defs, a, b);
      var x, y := Commit(s, Validate(defs, a).value), Commit(s, Validate(defs, b).value);
      CommitKeys(s, Validate(defs, a).value);
      CommitKeys(s, Validate(defs, b).value);
      forall id | id in s
        ensures x[id] == y[id]
      {
        SameCommit(defs, s, a, b, id);
      }
    } else if Validate(defs, b).Ok? {
      ReorderedIsAccepted(defs, b, a);
    }
  }

  // ----- over all runs -----

  ghost predicate StateOk(defs: seq<EndpointDef>, s: State) {
    s.Keys == Ids(defs) && forall id :: id in s ==> InRange(s[id].status)
  }

  lemma {:induction false} InitialOk(defs: seq<EndpointDef>)
    requires PresetsInRange(defs)
    ensures StateOk(defs, Initial(defs))
  {
    if defs != [] {
      var n := |defs| - 1;
      assert forall d :: d in defs[..n] ==> d in defs;
      InitialOk(defs[..n]);
      assert defs[n] in defs;
      assert defs[n].presets != [] ==> defs[n].presets[0] in defs[n].presets;
    }
  }

  lemma {:induction false} CommitInRange(s: State, us: seq<Update>)
    requires forall id :: id in s ==> InRange(s[id].status)
    requires forall i :: 0 <= i < |us| ==> StatusesFit(us[i])
    ensures forall id :: id in Commit(s, us) ==> InRange(Commit(s, us)[id].status)
  {
    if us != [] {
      CommitInRange(s, us[..|us| - 1]);
      assert StatusesFit(us[|us| - 1]);
    }
  }

  lemma RequestOk(defs: seq<EndpointDef>, s: State, payload: Json)
    requires PresetsInRange(defs) && StateOk(defs, s)
    ensures StateOk(defs, AfterRequest(defs, s, payload))
  {
    var raws := RawUpdates(payload);
    if raws.Ok? && Validate(defs, raws.value).Ok? {
      var us := Validate(defs, raws.value).value;
      AcceptedExactly(defs, raws.value);
      forall i | 0 <= i < |us|
        ensures StatusesFit(us[i])
      {
        assert Alones(defs, raws.value)[i] == Ok(us[i]);
        CheckedFits(defs, raws.value[i], {});
      }
      CommitKeys(s, us);
      CommitInRange(s, us);
    }
  }

  lemma {:induction false} RunOk(defs: seq<EndpointDef>, s: State, ops: seq<Op>)
    requires PresetsInRange(defs) && StateOk(defs, s)
    ensures StateOk(defs, Run(defs, s, ops))
    decreases |ops|
  {
    if ops != [] {
      if ops[0].Request? {
        RequestOk(defs, s, ops[0].payload);
      } else {
        InitialOk(defs);
      }
      RunOk(defs, Apply(defs, s, ops[0]), ops[1..]);
    }
  }

  /** In every run of requests and resets from startup, the server keeps exactly the defined
      endpoints, each with a status from 200 to 599. */
  lemma StatusesStayInRange(defs: seq<EndpointDef>, ops: seq<Op>)
    requires PresetsInRange(defs)
    ensures StateOk(defs, Run(defs, Initial(defs), ops))
  {
    InitialOk(defs);
    RunOk(defs, Initial(defs), ops);
  }

  // ----- the program -----

  class Server {
    const defs: seq<EndpointDef>
    var state: State

    constructor (defs: seq<EndpointDef>)
      ensures this.defs == defs && state == Initial(defs)
    {
      this.defs := defs;
      state := map[];
      new;
      ResetEndpointState();
    }

    method ResetEndpointState()
      modifies this
      ensures state == Initial(defs)
    {
      state := map[];
      for i := 0 to |defs|
        invariant state == Initial(defs[..i])
      {
        assert defs[..i + 1][..i] == defs[..i];
        state := state[defs[i].id := InitialEndpoint(defs[i])];
      }
      assert defs[..|defs|] == defs;
    }

    method ApplyEndpointUpdates(payload: Json) returns (r: Result<(), Error>)
      modifies this
      ensures state == AfterRequest(defs, old(state), payload)
      ensures r == if Validated(defs, payload).Ok? then Ok(()) else Err(Validated(defs, payload).error)
    {
      var rawUpdates := RawUpdates(payload);
      if rawUpdates.Err? {
        return Err(rawUpdates.error);
      }
      var updates := ValidateAll(defs, rawUpdates.value);
      if updates.Err? {
        return Err(updates.error);
      }
      var nextState := CommitAll(state, updates.value);
      state := nextState;
      r := Ok(());
    }
  }

  /** The validation loop, with the set of endpoints already named. */
  method ValidateAll(defs: seq<EndpointDef>, raws: seq<Json>) returns (r: Result<seq<Update>, Error>)
    ensures r == Validate(defs, raws)
  {
    var updates: seq<Update> := [];
    var seen: set<string> := {};
    for i := 0 to |raws|
      invariant Validate(defs, raws[..i]) == Ok(updates) && seen == Named(updates)
    {
      assert raws[..i + 1][..i] == raws[..i];
      var checked := Check(defs, raws[i], seen);
      if checked.Err? {
        FailsEarly(defs, raws, i + 1);
        return Err(checked.error);
      }
      NamedNext(updates, checked.value);
      updates := updates + [checked.value];
      seen := seen + {checked.value.endpoint};
    }
    assert raws[..|raws|] == raws;
    r := Ok(updates);
  }

  lemma NamedNext(us: seq<Update>, u: Update)
    ensures Named(us + [u]) == Named(us) + {u.endpoint}
  {
    assert (us + [u])[..|us|] == us;
  }

  lemma {:induction false} FailsEarly(defs: seq<EndpointDef>, raws: seq<Json>, i: nat)
    requires i <= |raws| && Validate(defs, raws[..i]).Err?
    ensures Validate(defs, raws) == Validate(defs, raws[..i])
    decreases |raws|
  {
    if i == |raws| {
      assert raws[..i] == raws;
    } else {
      var n := |raws| - 1;
      assert raws[..n][..i] == raws[..i];
      FailsEarly(defs, raws[..n], i);
    }
  }

  method CommitAll(s: State, us: seq<Update>) returns (next: State)
    ensures next == Commit(s, us)
  {
    next := s;
    for i := 0 to |us|
      invariant next == Commit(s, us[..i])
    {
      assert us[..i + 1][..i] == us[..i];
      var u := us[i];
      if u.endpoint in next {
        next := next[u.endpoint := Updated(next[u.endpoint], u)];
      }
    }
    assert us[..|us|] == us;
  }
}
