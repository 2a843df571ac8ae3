/**
  What a request to the mock policy server asks for and does, in terms of the JSON of its body
  (scripts/mock-policy-server/server.ts, `applyEndpointUpdates`).
*/
module PolicyEffects {
  import opened Basics
  import opened PolicyState

  // ----- what a request body says -----

  /** The definition that counts for an id is the first with it. */
  ghost predicate FirstDef(defs: seq<EndpointDef>, id: string, d: nat) {
    d < |defs| && defs[d].id == id && forall j :: 0 <= j < d ==> defs[j].id != id
  }

  /** The preset that counts for a name is the first with it. */
  ghost predicate FirstPreset(presets: seq<Preset>, name: string, p: nat) {
    p < |presets| && presets[p].id == name && forall j :: 0 <= j < p ==> presets[j].id != name
  }

  predicate Names(raw: Json, id: string) { raw.JObj? && "endpoint" in raw.fields && raw.fields["endpoint"] == JStr(id) }

  predicate IsStatus(v: Json) { v.JNum? && v.num == v.num.Floor as real && 200.0 <= v.num <= 599.0 }

  /** One update is well-formed: it names a defined endpoint, has no unknown field and at least
      one to set, and the fields have values of their types. */
  ghost predicate ValidUpdate(defs: seq<EndpointDef>, raw: Json) {
    && raw.JObj?
    && (forall k :: k in raw.fields ==> k in {"endpoint", "preset", "status", "body", "active"})
    && ("preset" in raw.fields || "status" in raw.fields || "body" in raw.fields || "active" in raw.fields)
    && ("status" in raw.fields ==> IsStatus(raw.fields["status"]))
    && ("active" in raw.fields ==> raw.fields["active"].JBool?)
    && (exists id :: Names(raw, id) && exists d: nat :: FirstDef(defs, id, d) && PresetKnown(defs[d], raw))
  }

  ghost predicate PresetKnown(def: EndpointDef, raw: Json)
    requires raw.JObj?
  {
    "preset" in raw.fields ==>
      raw.fields["preset"].JStr? && exists p: nat :: FirstPreset(def.presets, raw.fields["preset"].str, p)
  }

  /** The updates of a request: its body, or the elements of the array under `endpoints`. */
  predicate InBatch(payload: Json, raw: Json) {
    && payload.JObj?
    && if "endpoints" in payload.fields
       then payload.fields["endpoints"].JArr? && raw in payload.fields["endpoints"].items
       else raw == payload
  }

  ghost predicate DistinctNames(raws: seq<Json>) {
    forall i, j, id :: 0 <= i < j < |raws| && Names(raws[i], id) ==> !Names(raws[j], id)
  }

  ghost predicate ValidRequest(defs: seq<EndpointDef>, payload: Json) {
    && payload.JObj?
    && (forall raw :: InBatch(payload, raw) ==> ValidUpdate(defs, raw))
    && ("endpoints" in payload.fields ==>
          && (forall k :: k in payload.fields ==> k == "endpoints")
          && payload.fields["endpoints"].JArr? && payload.fields["endpoints"].items != []
          && DistinctNames(payload.fields["endpoints"].items))
  }

  // ----- finding definitions and presets -----

  lemma {:induction false} FindsFirstDef(defs: seq<EndpointDef>, id: string)
    ensures FindDef(defs, id).None? <==> forall j :: 0 <= j < |defs| ==> defs[j].id != id
    ensures FindDef(defs, id).Some? ==> exists d: nat :: FirstDef(defs, id, d) && FindDef(defs, id).value == defs[d]
  {
    if defs != [] {
      FindsFirstDef(defs[1..], id);
      if defs[0].id == id {
        assert FirstDef(defs, id, 0);
      } else if FindDef(defs, id).Some? {
        var d: nat :| FirstDef(defs[1..], id, d) && FindDef(defs[1..], id).value == defs[1..][d];
        assert FirstDef(defs, id, d + 1) by {
          assert forall j :: 0 < j < |defs| ==> defs[j] == defs[1..][j - 1];
        }
      } else {
        assert forall j :: 0 < j < |defs| ==> defs[j] == defs[1..][j - 1];
      }
    }
  }

  lemma {:induction false} FindsFirstPreset(presets: seq<Preset>, name: string)
    ensures FindPreset(presets, name).None? <==> forall j :: 0 <= j < |presets| ==> presets[j].id != name
    ensures FindPreset(presets, name).Some? ==>
              exists p: nat :: FirstPreset(presets, name, p) && FindPreset(presets, name).value == presets[p]
  {
    if presets != [] {
      FindsFirstPreset(presets[1..], name);
      if presets[0].id == name {
        assert FirstPreset(presets, name, 0);
      } else if FindPreset(presets, name).Some? {
        var p: nat :| FirstPreset(presets[1..], name, p) && FindPreset(presets[1..], name).value == presets[1..][p];
        assert FirstPreset(presets, name, p + 1) by {
          assert forall j :: 0 < j < |presets| ==> presets[j] == presets[1..][j - 1];
        }
      } else {
        assert forall j :: 0 < j < |presets| ==> presets[j] == presets[1..][j - 1];
      }
    }
  }

  lemma OneFirst(defs: seq<EndpointDef>, id: string, c: nat, d: nat)
    requires FirstDef(defs, id, c) && FirstDef(defs, id, d)
    ensures c == d
  {
  }

  // ----- one update -----

  lemma PresetExactly(def: EndpointDef, raw: Json)
    requires raw.JObj?
    ensures PresetField(def, raw.fields).Ok? <==> PresetKnown(def, raw)
  {
    if "preset" in raw.fields && raw.fields["preset"].JStr? {
      FindsFirstPreset(def.presets, raw.fields["preset"].str);
    }
  }

  lemma DetailsExactly(def: EndpointDef, raw: Json, id: string)
    requires raw.JObj?
    ensures Details(def, raw.fields, id).Ok? <==>
            && ("preset" in raw.fields || "status" in raw.fields || "body" in raw.fields || "active" in raw.fields)
            && ("status" in raw.fields ==> IsStatus(raw.fields["status"]))
            && ("active" in raw.fields ==> raw.fields["active"].JBool?)
            && PresetKnown(def, raw)
  {
    var some := raw.fields.Keys * {"preset", "status", "body", "active"};
    if "preset" in raw.fields { assert "preset" in some; }
    if "status" in raw.fields { assert "status" in some; }
    if "body" in raw.fields { assert "body" in some; }
    if "active" in raw.fields { assert "active" in some; }
    PresetExactly(def, raw);
  }

  /** The check of one update by itself accepts exactly the well-formed ones. */
  lemma AloneExactly(defs: seq<EndpointDef>, raw: Json)
    ensures Alone(defs, raw).Ok? <==> ValidUpdate(defs, raw)
    ensures Alone(defs, raw).Ok? ==> Names(raw, Alone(defs, raw).value.endpoint)
  {
    if raw.JObj? && "endpoint" in raw.fields && raw.fields["endpoint"].JStr? {
      var id := raw.fields["endpoint"].str;
      assert Names(raw, id);
      FindsFirstDef(defs, id);
      if FindDef(defs, id).Some? {
        var d: nat :| FirstDef(defs, id, d) && FindDef(defs, id).value == defs[d];
        DetailsExactly(defs[d], raw, id);
        forall c: nat | FirstDef(defs, id, c) ensures c == d { OneFirst(defs, id, c, d); }
      }
      FieldsExactly(raw);
    }
  }

  lemma FieldsExactly(raw: Json)
    requires raw.JObj?
    ensures raw.fields.Keys <= FIELDS <==>
            forall k :: k in raw.fields ==> k in {"endpoint", "preset", "status", "body", "active"}
  {
  }

  // ----- a request -----

  lemma BatchIs(payload: Json, raw: Json)
    requires RawUpdates(payload).Ok?
    ensures InBatch(payload, raw) <==> raw in RawUpdates(payload).value
  {
  }

  lemma RawUpdatesExactly(payload: Json)
    ensures RawUpdates(payload).Ok? <==>
            && payload.JObj?
            && ("endpoints" in payload.fields ==>
                  && (forall k :: k in payload.fields ==> k == "endpoints")
                  && payload.fields["endpoints"].JArr? && payload.fields["endpoints"].items != [])
    ensures RawUpdates(payload).Ok? ==>
              RawUpdates(payload).value ==
              if "endpoints" in payload.fields then payload.fields["endpoints"].items else [payload]
  {
    if payload.JObj? && "endpoints" in payload.fields {
      assert payload.fields.Keys == {"endpoints"} <==> forall k :: k in payload.fields ==> k == "endpoints";
    }
  }

  lemma DistinctExactly(defs: seq<EndpointDef>, raws: seq<Json>)
    requires AllValid(Alones(defs, raws))
    ensures Distinct(Alones(defs, raws)) <==> DistinctNames(raws)
  {
    forall i | 0 <= i < |raws| ensures Names(raws[i], Alones(defs, raws)[i].value.endpoint) {
      AloneExactly(defs, raws[i]);
    }
  }

  lemma ValidExactly(defs: seq<EndpointDef>, raws: seq<Json>)
    ensures AllValid(Alones(defs, raws)) <==> forall raw :: raw in raws ==> ValidUpdate(defs, raw)
  {
    forall i | 0 <= i < |raws| ensures Alones(defs, raws)[i].Ok? <==> ValidUpdate(defs, raws[i]) {
      AloneExactly(defs, raws[i]);
    }
  }

  /** A request is accepted exactly when it is an object that is a well-formed update, or holds
      nothing but a non-empty array of them under `endpoints`, no two for the same endpoint. */
  lemma RequestAcceptedExactly(defs: seq<EndpointDef>, payload: Json)
    ensures Validated(defs, payload).Ok? <==> ValidRequest(defs, payload)
  {
    RawUpdatesExactly(payload);
    if RawUpdates(payload).Ok? {
      var raws := RawUpdates(payload).value;
      AcceptedExactly(defs, raws);
      ValidExactly(defs, raws);
      if AllValid(Alones(defs, raws)) {
        DistinctExactly(defs, raws);
      }
      forall raw ensures InBatch(payload, raw) <==> raw in raws { BatchIs(payload, raw); }
    }
  }

  /** The preset that an update of an endpoint names. */
  ghost predicate IsPreset(defs: seq<EndpointDef>, id: string, raw: Json, preset: Preset) {
    && raw.JObj? && "preset" in raw.fields && raw.fields["preset"].JStr?
    && exists d: nat, p: nat ::
         FirstDef(defs, id, d) && FirstPreset(defs[d].presets, raw.fields["preset"].str, p) && preset == defs[d].presets[p]
  }

  /** An endpoint after an update, given the preset that the update names, if it names one: what
      the update sets itself comes first, then what the preset sets, and the rest stays. */
  ghost predicate Effect(raw: Json, preset: Option<Preset>, before: Endpoint, after: Endpoint)
    requires raw.JObj?
  {
    && (if "status" in raw.fields then raw.fields["status"] == JNum(after.status as real)
        else if preset.Some? then after.status == (if preset.value.status.Some? then preset.value.status.value else 200)
        else after.status == before.status)
    && after.body == (if "body" in raw.fields then raw.fields["body"]
                      else if preset.Some? then preset.value.body else before.body)
    && (if "active" in raw.fields then raw.fields["active"] == JBool(after.active)
        else if preset.Some? then after.active else after.active == before.active)
  }

  lemma UpdateTakesEffect(defs: seq<EndpointDef>, raw: Json, before: Endpoint)
    requires Alone(defs, raw).Ok?
    ensures raw.JObj?
    ensures var u := Alone(defs, raw).value;
            && Effect(raw, u.preset, before, Updated(before, u))
            && (u.preset.Some? <==> "preset" in raw.fields)
            && (u.preset.Some? ==> IsPreset(defs, u.endpoint, raw, u.preset.value))
  {
    var id := raw.fields["endpoint"].str;
    FindsFirstDef(defs, id);
    var d: nat :| FirstDef(defs, id, d) && FindDef(defs, id).value == defs[d];
    if "preset" in raw.fields {
      FindsFirstPreset(defs[d].presets, raw.fields["preset"].str);
    }
  }

  /** An accepted request has on every endpoint the effect of the update that names it, with the
      first preset of the given name, and none on the endpoints it does not name. */
  lemma RequestTakesEffect(defs: seq<EndpointDef>, s: State, payload: Json, id: string)
    requires Validated(defs, payload).Ok? && id in s
    ensures var s' := AfterRequest(defs, s, payload);
            && s'.Keys == s.Keys
            && (forall raw :: InBatch(payload, raw) && Names(raw, id) ==>
                  exists preset :: Effect(raw, preset, s[id], s'[id]) && PresetOf(defs, id, raw, preset))
            && ((forall raw :: InBatch(payload, raw) ==> !Names(raw, id)) ==> s'[id] == s[id])
  {
    BatchIsAtomic(defs, s, payload, id);
    var raws, us := RawUpdates(payload).value, Validated(defs, payload).value;
    AcceptedExactly(defs, raws);
    forall raw | InBatch(payload, raw) && Names(raw, id)
      ensures exists preset :: Effect(raw, preset, s[id], AfterRequest(defs, s, payload)[id]) && PresetOf(defs, id, raw, preset)
    {
      BatchIs(payload, raw);
      var i :| 0 <= i < |raws| && raws[i] == raw;
      var u := us[i];
      assert Alones(defs, raws)[i] == Alone(defs, raw) == Ok(u);
      AloneExactly(defs, raw);
      assert IsFor(us, i, id);
      UpdateTakesEffect(defs, raw, s[id]);
    }
    if forall raw :: InBatch(payload, raw) ==> !Names(raw, id) {
      forall i: nat ensures !IsFor(us, i, id) {
        if IsFor(us, i, id) {
          assert Alones(defs, raws)[i] == Ok(us[i]);
          AloneExactly(defs, raws[i]);
          BatchIs(payload, raws[i]);
        }
      }
    }
  }

  ghost predicate PresetOf(defs: seq<EndpointDef>, id: string, raw: Json, preset: Option<Preset>)
    requires raw.JObj?
  {
    (preset.Some? <==> "preset" in raw.fields) && (preset.Some? ==> IsPreset(defs, id, raw, preset.value))
  }

  /** A reset gives every endpoint the answer of its first preset, or status 200 and an empty
      object, and makes it active exactly if it is mocked by default. */
  lemma {:induction false} ResetGives(defs: seq<EndpointDef>, d: nat)
    requires d < |defs| && forall j :: d < j < |defs| ==> defs[j].id != defs[d].id
    ensures defs[d].id in Initial(defs)
    ensures var e, presets := Initial(defs)[defs[d].id], defs[d].presets;
            && e.status == (if presets != [] && presets[0].status.Some? then presets[0].status.value else 200)
            && e.body == (if presets != [] then presets[0].body else JObj(map[]))
            && e.active == defs[d].mockedByDefault
    decreases |defs|
  {
    var n := |defs| - 1;
    if d < n {
      assert defs[n].id != defs[d].id && defs[..n][d] == defs[d];
      ResetGives(defs[..n], d);
    }
  }
}
