/** A result must be a function of the raw bodies: no run-time field anywhere in it. */
module Purity {
  import opened Prelude
  import opened Text

  datatype Json = Object(fields: seq<Member>) | Array(items: seq<Json>) | Scalar(text: string)

  datatype Member = Member(key: string, value: Json)

  function ImpureKeys(): set<string> {
    {
      "run_started_utc", "run_finished_utc", "fetch_started_utc", "fetch_finished_utc", "first_stored_utc",
      "stored_utc", "endpoint", "endpoints_configured", "log_endpoints_configured", "endpoint_fingerprints",
      "cache_hits_this_run", "network_calls_this_run", "rpc_observations", "b0_bundle", "b1_bundle"
    }
  }

  function FieldPath(path: string, key: string): string {
    if path == "" then key else path + "." + key
  }

  function ItemPath(path: string, index: nat): string {
    path + "[" + Decimal(index) + "]"
  }

  /** The first run-time field met from left to right, outer before inner. */
  function Walk(value: Json, path: string): Option<string>
    decreases value
  {
    match value
    case Object(fields) => WalkFields(fields, path)
    case Array(items) => WalkItems(items, 0, path)
    case Scalar(_) => None
  }

  function WalkFields(fields: seq<Member>, path: string): Option<string>
    decreases fields
  {
    if fields == [] then None
    else
      var here := FieldPath(path, fields[0].key);
      if fields[0].key in ImpureKeys() then Some(here)
      else
        var found := Walk(fields[0].value, here);
        if found.Some? then found else WalkFields(fields[1..], path)
  }

  function WalkItems(items: seq<Json>, index: nat, path: string): Option<string>
    decreases items
  {
    if items == [] then None
    else
      var found := Walk(items[0], ItemPath(path, index));
      if found.Some? then found else WalkItems(items[1..], index + 1, path)
  }

  function ImpureResultField(value: Json): Option<string> {
    Walk(value, "")
  }

  datatype Step = Field(key: string) | Item(index: nat)

  /** The value a step leads to. */
  ghost predicate Leads(value: Json, step: Step, child: Json) {
    match step
    case Field(key) => value.Object? && Member(key, child) in value.fields
    case Item(index) => value.Array? && index < |value.items| && value.items[index] == child
  }

  function Show(path: string, step: Step): string {
    match step
    case Field(key) => FieldPath(path, key)
    case Item(index) => ItemPath(path, index)
  }

  /** Some steps from `value` arrive at a run-time field, `shown` being their path. */
  ghost predicate Reaches(value: Json, path: string, steps: seq<Step>, shown: string)
    decreases |steps|
  {
    && steps != []
    && exists child ::
      && Leads(value, steps[0], child)
      && if |steps| == 1 then steps[0].Field? && steps[0].key in ImpureKeys() && shown == Show(path, steps[0])
         else Reaches(child, Show(path, steps[0]), steps[1..], shown)
  }

  /** One step before the steps from the child. */
  lemma ReachStep(value: Json, path: string, step: Step, child: Json, rest: seq<Step>, shown: string)
    requires Leads(value, step, child)
    requires if rest == [] then step.Field? && step.key in ImpureKeys() && shown == Show(path, step)
             else Reaches(child, Show(path, step), rest, shown)
    ensures Reaches(value, path, [step] + rest, shown)
  {
    hide ImpureKeys, Decimal;
    var steps := [step] + rest;
    assert steps[0] == step && steps[1..] == rest && |steps| == 1 + |rest|;
    assert Leads(value, steps[0], child);
  }

  /** What is found is there. */
  lemma {:induction false} FoundReaches(value: Json, path: string) returns (steps: seq<Step>)
    requires Walk(value, path).Some?
    ensures Reaches(value, path, steps, Walk(value, path).value)
    decreases value
  {
    match value {
      case Object(fields) => steps := FoundInFields(value, 0, path);
      case Array(items) => steps := FoundInItems(value, 0, path);
    }
  }

  lemma {:induction false} FoundInFields(value: Json, k: nat, path: string) returns (steps: seq<Step>)
    requires value.Object? && k <= |value.fields| && WalkFields(value.fields[k..], path).Some?
    ensures Reaches(value, path, steps, WalkFields(value.fields[k..], path).value)
    decreases value, 0, |value.fields| - k
  {
    hide ImpureKeys, Decimal, Reaches;
    var Member(key, child) := value.fields[k];
    assert Leads(value, Field(key), child);
    assert value.fields[k..][1..] == value.fields[k + 1..];
    if key in ImpureKeys() {
      steps := [Field(key)] + [];
      ReachStep(value, path, Field(key), child, [], FieldPath(path, key));
    } else if Walk(child, FieldPath(path, key)).Some? {
      var rest := FoundReaches(child, FieldPath(path, key));
      steps := [Field(key)] + rest;
      ReachStep(value, path, Field(key), child, rest, Walk(child, FieldPath(path, key)).value);
    } else {
      steps := FoundInFields(value, k + 1, path);
    }
  }

  lemma {:induction false} FoundInItems(value: Json, k: nat, path: string) returns (steps: seq<Step>)
    requires value.Array? && k <= |value.items| && WalkItems(value.items[k..], k, path).Some?
    ensures Reaches(value, path, steps, WalkItems(value.items[k..], k, path).value)
    decreases value, 0, |value.items| - k
  {
    hide Decimal, Reaches;
    var child := value.items[k];
    assert Leads(value, Item(k), child);
    assert value.items[k..][1..] == value.items[k + 1..];
    if Walk(child, ItemPath(path, k)).Some? {
      var rest := FoundReaches(child, ItemPath(path, k));
      steps := [Item(k)] + rest;
      ReachStep(value, path, Item(k), child, rest, Walk(child, ItemPath(path, k)).value);
    } else {
      steps := FoundInItems(value, k + 1, path);
    }
  }

  /** What is there is found, or another one before it. */
  lemma {:induction false} ReachesFound(value: Json, path: string, steps: seq<Step>, shown: string)
    requires Reaches(value, path, steps, shown)
    ensures Walk(value, path).Some?
    decreases |steps|
  {
    hide Decimal, ImpureKeys;
    var child :| Leads(value, steps[0], child)
                 && if |steps| == 1 then
                      steps[0].Field? && steps[0].key in ImpureKeys() && shown == Show(path, steps[0])
                    else Reaches(child, Show(path, steps[0]), steps[1..], shown);
    if |steps| > 1 {
      ReachesFound(child, Show(path, steps[0]), steps[1..], shown);
    }
    match steps[0] {
      case Field(key) =>
        var k :| 0 <= k < |value.fields| && value.fields[k] == Member(key, child);
        FieldFound(value.fields, path, k);
      case Item(index) =>
        ItemFound(value.items, 0, path, index);
    }
  }

  lemma {:induction false} FieldFound(fields: seq<Member>, path: string, k: nat)
    requires k < |fields|
    requires fields[k].key in ImpureKeys() || Walk(fields[k].value, FieldPath(path, fields[k].key)).Some?
    ensures WalkFields(fields, path).Some?
  {
    hide ImpureKeys;
    if k > 0 {
      FieldFound(fields[1..], path, k - 1);
    }
  }

  lemma {:induction false} ItemFound(items: seq<Json>, index: nat, path: string, k: nat)
    requires k < |items| && Walk(items[k], ItemPath(path, index + k)).Some?
    ensures WalkItems(items, index, path).Some?
  {
    hide Decimal;
    if k > 0 {
      ItemFound(items[1..], index + 1, path, k - 1);
    }
  }

  /** Some run-time field is somewhere in the value. */
  ghost predicate Carries(value: Json) {
    exists steps, shown :: Reaches(value, "", steps, shown)
  }

  /** A result is refused exactly when a run-time field is somewhere in it, and the
      path given leads to one. */
  lemma PureIff(value: Json)
    ensures ImpureResultField(value).Some? <==> Carries(value)
    ensures ImpureResultField(value).Some? ==> exists steps :: Reaches(value, "", steps, ImpureResultField(value).value)
  {
    hide Reaches, Walk;
    if ImpureResultField(value).Some? {
      var steps := FoundReaches(value, "");
    }
    forall steps, shown | Reaches(value, "", steps, shown)
      ensures ImpureResultField(value).Some?
    {
      ReachesFound(value, "", steps, shown);
    }
  }

  /** The fifteen keys that a run and not its bodies determine. */
  lemma RunTimeKeys(key: string)
    ensures key in ImpureKeys()
        <==> || key == "run_started_utc" || key == "run_finished_utc" || key == "fetch_started_utc"
             || key == "fetch_finished_utc" || key == "first_stored_utc" || key == "stored_utc"
             || key == "endpoint" || key == "endpoints_configured" || key == "log_endpoints_configured"
             || key == "endpoint_fingerprints" || key == "cache_hits_this_run" || key == "network_calls_this_run"
             || key == "rpc_observations" || key == "b0_bundle" || key == "b1_bundle"
  {}

  /** Of the members of an object the first that has a run-time field is reported: its own
      key before what is in its value, behind a dot unless it is at the top. */
  lemma {:induction false} FirstMember(before: seq<Member>, m: Member, rest: seq<Member>, path: string)
    requires WalkFields(before, path) == None
    ensures var here := if path == "" then m.key else path + "." + m.key;
            && (m.key in ImpureKeys() ==> WalkFields(before + [m] + rest, path) == Some(here))
            && (m.key !in ImpureKeys() && Walk(m.value, here).Some?
                ==> WalkFields(before + [m] + rest, path) == Walk(m.value, here))
  {
    hide ImpureKeys;
    var all := before + [m] + rest;
    if before != [] {
      FirstMember(before[1..], m, rest, path);
      assert all[0] == before[0] && all[1..] == before[1..] + [m] + rest;
    } else {
      assert all[0] == m;
    }
  }

  /** Of the items of an array the first that has one, behind its index in brackets. */
  lemma {:induction false} FirstItem(before: seq<Json>, item: Json, rest: seq<Json>, index: nat, path: string)
    requires WalkItems(before, index, path) == None
    ensures var here := path + "[" + Decimal(index + |before|) + "]";
            Walk(item, here).Some? ==> WalkItems(before + [item] + rest, index, path) == Walk(item, here)
  {
    hide Walk, Decimal;
    var all := before + [item] + rest;
    if before != [] {
      FirstItem(before[1..], item, rest, index + 1, path);
      assert all[0] == before[0] && all[1..] == before[1..] + [item] + rest;
    } else {
      assert all[0] == item;
    }
  }
}
