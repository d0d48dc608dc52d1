/**
 * `get_last_updated_times`: every manifest gets a `LastUpdate` timestamp,
 * which is carried over from the previously published index when the
 * plugin's version has not changed, and is the current time otherwise.
 *
 * The previous index (the parsed `pluginmaster.json`, or the empty list when
 * the file is missing or does not parse) and the clock reading are
 * parameters.
 */
module Reconcile {
  import opened Outcomes
  import opened Json

  /** `str(int(time()))` for a clock reading of `now` whole seconds. */
  function NowStamp(now: nat): Value
  {
    Str(NatToString(now))
  }

  /** An entry of the previous index that is filed under the dictionary key `key`. */
  predicate Named(m: Manifest, key: Value)
  {
    "InternalName" in m && Hashable(m["InternalName"]) && HashKey(m["InternalName"]) == key
  }

  /** Every `InternalName` of the previous index can serve as a dictionary key. */
  predicate NamesHashable(previous: seq<Manifest>)
  {
    forall i | 0 <= i < |previous| :: "InternalName" in previous[i] ==> Hashable(previous[i]["InternalName"])
  }

  /**
   * `{m.get("InternalName"): m for m in previous if "InternalName" in m}`,
   * built one entry at a time so that a later entry replaces an earlier one
   * with the same name; the comprehension raises at the first name that is a
   * list or a dictionary.
   */
  function PrevMap(previous: seq<Manifest>): (r: Result<map<Value, Manifest>>)
    ensures r.Ok? <==> NamesHashable(previous)
    ensures r.Err? ==> exists i | 0 <= i < |previous| ::
      && "InternalName" in previous[i] && !Hashable(previous[i]["InternalName"])
      && r.error == Unhashable(previous[i]["InternalName"])
  {
    if previous == [] then Ok(map[])
    else
      var n := |previous| - 1;
      assert forall i | 0 <= i < n :: previous[..n][i] == previous[i];
      match PrevMap(previous[..n])
      case Err(e) => Err(e)
      case Ok(pm) =>
        var m := previous[n];
        if "InternalName" !in m then Ok(pm)
        else if !Hashable(m["InternalName"]) then Err(Unhashable(m["InternalName"]))
        else Ok(pm[HashKey(m["InternalName"]) := m])
  }

  /**
   * The position of the last entry of the previous index filed under `key`,
   * or None when there is none: the reference against which `PrevMap` is
   * checked.
   */
  function LastNamed(previous: seq<Manifest>, key: Value): (r: Option<nat>)
    ensures r.Some? ==> r.value < |previous| && Named(previous[r.value], key)
    ensures r.Some? ==> forall j | r.value < j < |previous| :: !Named(previous[j], key)
    ensures r.None? ==> forall j | 0 <= j < |previous| :: !Named(previous[j], key)
  {
    if previous == [] then None
    else
      var n := |previous| - 1;
      if Named(previous[n], key) then Some(n)
      else
        assert forall j | 0 <= j < n :: previous[..n][j] == previous[j];
        LastNamed(previous[..n], key)
  }

  /**
   * The dictionary holds a name exactly when some entry has it, and then
   * holds the last such entry.
   */
  lemma {:induction false} PrevMapFindsLast(previous: seq<Manifest>, key: Value)
    requires PrevMap(previous).Ok?
    ensures key in PrevMap(previous).value <==> LastNamed(previous, key).Some?
    ensures key in PrevMap(previous).value ==>
      PrevMap(previous).value[key] == previous[LastNamed(previous, key).value]
  {
    if previous != [] {
      var n := |previous| - 1;
      PrevMapFindsLast(previous[..n], key);
      if LastNamed(previous[..n], key).Some? {
        assert previous[..n][LastNamed(previous[..n], key).value] == previous[LastNamed(previous[..n], key).value];
      }
    }
  }

  /**
   * An entry of the dictionary is never empty, so the truth test `if prev`
   * passes whenever the lookup finds an entry.
   */
  lemma PrevMapEntriesNamed(previous: seq<Manifest>, key: Value)
    requires PrevMap(previous).Ok?
    requires key in PrevMap(previous).value
    ensures Named(PrevMap(previous).value[key], key)
    ensures PrevMap(previous).value[key] != map[]
  {
    PrevMapFindsLast(previous, key);
  }

  /** Once a prefix of the previous index raises, the whole comprehension raises the same. */
  lemma {:induction false} PrevMapErrorStays(previous: seq<Manifest>, i: nat)
    requires i <= |previous|
    requires PrevMap(previous[..i]).Err?
    ensures PrevMap(previous) == Err(PrevMap(previous[..i]).error)
    decreases |previous| - i
  {
    var e := PrevMap(previous[..i]).error;
    if i == |previous| {
      assert previous[..i] == previous;
    } else {
      var front := previous[..|previous| - 1];
      assert front[..i] == previous[..i];
      PrevMapErrorStays(front, i);
      assert PrevMap(front).Err?;
      PrevMapStep(previous);
    }
  }

  /**
   * The comprehension raises the TypeError of the first unhashable name:
   * the one at `i` when every name before it can be a dictionary key.
   */
  lemma PrevMapFirstError(previous: seq<Manifest>, i: nat)
    requires i < |previous|
    requires "InternalName" in previous[i] && !Hashable(previous[i]["InternalName"])
    requires NamesHashable(previous[..i])
    ensures PrevMap(previous) == Err(Unhashable(previous[i]["InternalName"]))
  {
    var upto := previous[..i + 1];
    assert upto[..i] == previous[..i];
    assert upto[i] == previous[i];
    assert PrevMap(upto) == Err(Unhashable(previous[i]["InternalName"]));
    PrevMapErrorStays(previous, i + 1);
  }

  lemma PrevMapStep(previous: seq<Manifest>)
    requires previous != [] && PrevMap(previous[..|previous| - 1]).Err?
    ensures PrevMap(previous) == PrevMap(previous[..|previous| - 1])
  {
  }

  /**
   * The body of the loop of `get_last_updated_times` for one manifest: the
   * current time is written first, then replaced with the previous
   * timestamp when the previous entry of that name has an equal version.
   */
  function Stamp(m: Manifest, prevMap: map<Value, Manifest>, now: nat): Result<Manifest>
  {
    var stamped := m["LastUpdate" := NowStamp(now)];
    var name := Get(stamped, "InternalName");
    if !Hashable(name) then Err(Unhashable(name))
    else
      var key := HashKey(name);
      if key in prevMap && prevMap[key] != map[]
         && PyEq(Get(prevMap[key], "AssemblyVersion"), Get(stamped, "AssemblyVersion"))
      then Ok(stamped["LastUpdate" := GetDefault(prevMap[key], "LastUpdate", NowStamp(now))])
      else Ok(stamped)
  }

  /** The body of the stamping loop of `get_last_updated_times` as a function of the manifest. */
  function StampStep(prevMap: map<Value, Manifest>, now: nat): Manifest -> Result<Manifest>
  {
    m => Stamp(m, prevMap, now)
  }

  /** `get_last_updated_times(manifests)` as a whole, on the previous index and the clock reading. */
  function ReconcileAll(manifests: seq<Manifest>, previous: seq<Manifest>, now: nat): Result<seq<Manifest>>
  {
    match PrevMap(previous)
    case Err(e) => Err(e)
    case Ok(prevMap) => MapUntilError(StampStep(prevMap, now), manifests)
  }

  /** Every manifest of a successful run is stamped against the dictionary of the previous index. */
  lemma ReconcileEach(manifests: seq<Manifest>, previous: seq<Manifest>, now: nat, k: nat)
    requires ReconcileAll(manifests, previous, now).Ok? && k < |manifests|
    ensures PrevMap(previous).Ok?
    ensures |ReconcileAll(manifests, previous, now).value| == |manifests|
    ensures Stamp(manifests[k], PrevMap(previous).value, now) == Ok(ReconcileAll(manifests, previous, now).value[k])
  {
    MapUntilErrorEach(StampStep(PrevMap(previous).value, now), manifests, k);
  }

  /**
   * The run raises exactly when a name of the previous index or a name of
   * the new manifests is a list or a dictionary; otherwise it keeps the
   * number of manifests.
   */
  lemma ReconcileAllErrors(manifests: seq<Manifest>, previous: seq<Manifest>, now: nat)
    ensures ReconcileAll(manifests, previous, now).Ok? <==>
      NamesHashable(previous) && forall k | 0 <= k < |manifests| :: Hashable(Get(manifests[k], "InternalName"))
    ensures ReconcileAll(manifests, previous, now).Ok? ==> |ReconcileAll(manifests, previous, now).value| == |manifests|
  {
    if PrevMap(previous).Ok? {
      var step := StampStep(PrevMap(previous).value, now);
      forall k | 0 <= k < |manifests|
        ensures step(manifests[k]).Ok? <==> Hashable(Get(manifests[k], "InternalName"))
      {
        assert Get(manifests[k]["LastUpdate" := NowStamp(now)], "InternalName") == Get(manifests[k], "InternalName");
      }
      if forall k | 0 <= k < |manifests| :: Hashable(Get(manifests[k], "InternalName")) {
        MapUntilErrorSucceeds(step, manifests);
      }
      if MapUntilError(step, manifests).Ok? {
        forall k | 0 <= k < |manifests|
          ensures Hashable(Get(manifests[k], "InternalName"))
        {
          MapUntilErrorEach(step, manifests, k);
        }
      }
    }
  }

  /** Stamping a manifest whose name has an entry in the dictionary. */
  lemma StampFound(m: Manifest, prevMap: map<Value, Manifest>, now: nat)
    requires Hashable(Get(m, "InternalName"))
    requires HashKey(Get(m, "InternalName")) in prevMap
    requires prevMap[HashKey(Get(m, "InternalName"))] != map[]
    ensures
      var prev := prevMap[HashKey(Get(m, "InternalName"))];
      Stamp(m, prevMap, now) == Ok(m["LastUpdate" :=
        if PyEq(Get(prev, "AssemblyVersion"), Get(m, "AssemblyVersion"))
        then GetDefault(prev, "LastUpdate", NowStamp(now))
        else NowStamp(now)])
  {
    var stamped := m["LastUpdate" := NowStamp(now)];
    assert Get(stamped, "InternalName") == Get(m, "InternalName");
    assert Get(stamped, "AssemblyVersion") == Get(m, "AssemblyVersion");
    assert stamped["LastUpdate" := GetDefault(prevMap[HashKey(Get(m, "InternalName"))], "LastUpdate", NowStamp(now))]
      == m["LastUpdate" := GetDefault(prevMap[HashKey(Get(m, "InternalName"))], "LastUpdate", NowStamp(now))];
  }

  /** Stamping a manifest whose name has no entry in the dictionary. */
  lemma StampNotFound(m: Manifest, prevMap: map<Value, Manifest>, now: nat)
    requires Hashable(Get(m, "InternalName"))
    requires HashKey(Get(m, "InternalName")) !in prevMap
    ensures Stamp(m, prevMap, now) == Ok(m["LastUpdate" := NowStamp(now)])
  {
    assert Get(m["LastUpdate" := NowStamp(now)], "InternalName") == Get(m, "InternalName");
  }

  /**
   * A manifest whose name the previous index holds: with `i` the last entry
   * of that name, the timestamp is that entry's `LastUpdate` (or the current
   * time when it has none) if the versions are equal, and the current time
   * if they differ; no other field changes.
   */
  lemma ReconcileFromPrevious(manifests: seq<Manifest>, previous: seq<Manifest>, now: nat, k: nat, i: nat)
    requires ReconcileAll(manifests, previous, now).Ok?
    requires k < |manifests| && i < |previous|
    requires Hashable(Get(manifests[k], "InternalName"))
    requires Named(previous[i], HashKey(Get(manifests[k], "InternalName")))
    requires forall j | i < j < |previous| :: !Named(previous[j], HashKey(Get(manifests[k], "InternalName")))
    ensures ReconcileAll(manifests, previous, now).value[k] == manifests[k]["LastUpdate" :=
      if PyEq(Get(previous[i], "AssemblyVersion"), Get(manifests[k], "AssemblyVersion"))
      then GetDefault(previous[i], "LastUpdate", NowStamp(now))
      else NowStamp(now)]
  {
    var key := HashKey(Get(manifests[k], "InternalName"));
    var prevMap := PrevMap(previous).value;
    ReconcileEach(manifests, previous, now, k);
    PrevMapFindsLast(previous, key);
    var last := LastNamed(previous, key);
    assert last == Some(i);
    StampFound(manifests[k], prevMap, now);
  }

  /**
   * A manifest whose version changed since the last previous entry of its
   * name gets a timestamp that denotes a later time than that entry's,
   * whenever the clock has moved on since.
   */
  lemma VersionChangeRefreshes(manifests: seq<Manifest>, previous: seq<Manifest>, now: nat,
                               k: nat, i: nat, stamp: nat)
    requires ReconcileAll(manifests, previous, now).Ok?
    requires k < |manifests| && i < |previous|
    requires Hashable(Get(manifests[k], "InternalName"))
    requires Named(previous[i], HashKey(Get(manifests[k], "InternalName")))
    requires forall j | i < j < |previous| :: !Named(previous[j], HashKey(Get(manifests[k], "InternalName")))
    requires !PyEq(Get(previous[i], "AssemblyVersion"), Get(manifests[k], "AssemblyVersion"))
    requires Get(previous[i], "LastUpdate") == NowStamp(stamp) && stamp < now
    ensures "LastUpdate" in ReconcileAll(manifests, previous, now).value[k]
    ensures
      var renewed := ReconcileAll(manifests, previous, now).value[k]["LastUpdate"];
      && renewed.Str? && renewed != previous[i]["LastUpdate"]
      && (forall c | 0 <= c < |renewed.s| :: '0' <= renewed.s[c] <= '9')
      && DecimalValue(renewed.s) > DecimalValue(previous[i]["LastUpdate"].s)
  {
    ReconcileFromPrevious(manifests, previous, now, k, i);
    NatToStringRoundTrip(now);
    NatToStringRoundTrip(stamp);
  }

  /** A manifest whose name the previous index does not hold is stamped with the current time. */
  lemma ReconcileWithoutPrevious(manifests: seq<Manifest>, previous: seq<Manifest>, now: nat, k: nat)
    requires ReconcileAll(manifests, previous, now).Ok?
    requires k < |manifests|
    requires Hashable(Get(manifests[k], "InternalName"))
    requires forall j | 0 <= j < |previous| :: !Named(previous[j], HashKey(Get(manifests[k], "InternalName")))
    ensures ReconcileAll(manifests, previous, now).value[k] == manifests[k]["LastUpdate" := NowStamp(now)]
  {
    var key := HashKey(Get(manifests[k], "InternalName"));
    ReconcileEach(manifests, previous, now, k);
    PrevMapFindsLast(previous, key);
    StampNotFound(manifests[k], PrevMap(previous).value, now);
  }

  /** Stamping writes `LastUpdate` and nothing else. */
  lemma StampShape(m: Manifest, prevMap: map<Value, Manifest>, now: nat)
    requires Stamp(m, prevMap, now).Ok?
    ensures "LastUpdate" in Stamp(m, prevMap, now).value
    ensures Stamp(m, prevMap, now).value == m["LastUpdate" := Stamp(m, prevMap, now).value["LastUpdate"]]
  {
  }

  /** Every manifest of a successful run is its input with a `LastUpdate` written. */
  lemma ReconcileShape(manifests: seq<Manifest>, previous: seq<Manifest>, now: nat, k: nat)
    requires ReconcileAll(manifests, previous, now).Ok? && k < |manifests|
    ensures |ReconcileAll(manifests, previous, now).value| == |manifests|
    ensures "LastUpdate" in ReconcileAll(manifests, previous, now).value[k]
    ensures ReconcileAll(manifests, previous, now).value[k] ==
      manifests[k]["LastUpdate" := ReconcileAll(manifests, previous, now).value[k]["LastUpdate"]]
  {
    ReconcileEach(manifests, previous, now, k);
    StampShape(manifests[k], PrevMap(previous).value, now);
  }

  /**
   * Every manifest has an `InternalName` that can be a dictionary key, and no
   * two are filed under one key. (An entry without a name never enters the
   * dictionary of the previous index, so a nameless manifest is stamped
   * with the current time on every run.)
   */
  predicate DistinctNames(manifests: seq<Manifest>)
  {
    && (forall k | 0 <= k < |manifests| :: "InternalName" in manifests[k] && Hashable(manifests[k]["InternalName"]))
    && forall k, l | 0 <= k < l < |manifests| ::
         HashKey(manifests[k]["InternalName"]) != HashKey(manifests[l]["InternalName"])
  }

  /**
   * Two manifests that share an `InternalName` but not a version share one
   * entry of the previous index: the last one published. Re-running on the
   * published pair keeps the timestamp of that one and gives the other the
   * current time, although its version did not change.
   */
  lemma SharedNameRestamped(name: string, earlier: string, later: string, stamp: nat, now: nat)
    requires earlier != later
    ensures
      var first := map["InternalName" := Str(name), "AssemblyVersion" := Str(earlier)];
      var second := map["InternalName" := Str(name), "AssemblyVersion" := Str(later)];
      var published := [first["LastUpdate" := NowStamp(stamp)], second["LastUpdate" := NowStamp(stamp)]];
      ReconcileAll([first, second], published, now) ==
        Ok([first["LastUpdate" := NowStamp(now)], second["LastUpdate" := NowStamp(stamp)]])
  {
    var first := map["InternalName" := Str(name), "AssemblyVersion" := Str(earlier)];
    var second := map["InternalName" := Str(name), "AssemblyVersion" := Str(later)];
    var published := [first["LastUpdate" := NowStamp(stamp)], second["LastUpdate" := NowStamp(stamp)]];
    var manifests := [first, second];
    ReconcileAllErrors(manifests, published, now);
    var out := ReconcileAll(manifests, published, now).value;
    PyEqStr(later, Str(earlier));
    ReconcileFromPrevious(manifests, published, now, 0, 1);
    ReconcileFromPrevious(manifests, published, now, 1, 1);
    assert out == [first["LastUpdate" := NowStamp(now)], second["LastUpdate" := NowStamp(stamp)]];
  }

  /**
   * Running again on the same manifests, with the published result (in any
   * order) as the previous index, keeps every timestamp, whatever the clock
   * says then: an unchanged plugin keeps its `LastUpdate` from run to run.
   */
  lemma RestampKeeps(manifests: seq<Manifest>, previous: seq<Manifest>, now: nat,
                     published: seq<Manifest>, later: nat)
    requires ReconcileAll(manifests, previous, now).Ok?
    requires DistinctNames(manifests)
    requires multiset(published) == multiset(ReconcileAll(manifests, previous, now).value)
    ensures ReconcileAll(manifests, published, later) == ReconcileAll(manifests, previous, now)
  {
    var out := ReconcileAll(manifests, previous, now).value;
    ReconcileKeepsNames(manifests, previous, now);
    SameMembers(published, out);
    PublishedNamesHashable(manifests, out, published);
    ReconcileAllErrors(manifests, published, later);
    var again := ReconcileAll(manifests, published, later).value;
    forall k | 0 <= k < |manifests|
      ensures again[k] == out[k]
    {
      RestampOne(manifests, out, published, later, k);
    }
    assert again == out;
  }

  lemma ReconcileKeepsNames(manifests: seq<Manifest>, previous: seq<Manifest>, now: nat)
    requires ReconcileAll(manifests, previous, now).Ok?
    ensures |ReconcileAll(manifests, previous, now).value| == |manifests|
    ensures forall k | 0 <= k < |manifests| ::
      var out := ReconcileAll(manifests, previous, now).value[k];
      && SameName(out, manifests[k])
      && "LastUpdate" in out && out == manifests[k]["LastUpdate" := out["LastUpdate"]]
  {
    forall k | 0 <= k < |manifests|
      ensures
        var out := ReconcileAll(manifests, previous, now).value[k];
        && SameName(out, manifests[k])
        && "LastUpdate" in out && out == manifests[k]["LastUpdate" := out["LastUpdate"]]
    {
      ReconcileShape(manifests, previous, now, k);
    }
  }

  /** Two lists that are permutations of each other have the same members. */
  lemma SameMembers(xs: seq<Manifest>, ys: seq<Manifest>)
    requires multiset(xs) == multiset(ys)
    ensures forall i | 0 <= i < |xs| :: xs[i] in ys
    ensures forall k | 0 <= k < |ys| :: ys[k] in xs
  {
    forall i | 0 <= i < |xs|
      ensures xs[i] in ys
    {
      assert xs[i] in multiset(xs);
    }
    forall k | 0 <= k < |ys|
      ensures ys[k] in xs
    {
      assert ys[k] in multiset(ys);
    }
  }

  /** Stamping keeps the name and the version. */
  predicate SameName(stamped: Manifest, m: Manifest)
  {
    Get(stamped, "InternalName") == Get(m, "InternalName")
    && Get(stamped, "AssemblyVersion") == Get(m, "AssemblyVersion")
    && ("InternalName" in stamped <==> "InternalName" in m)
  }

  lemma PublishedNamesHashable(manifests: seq<Manifest>, out: seq<Manifest>, published: seq<Manifest>)
    requires DistinctNames(manifests) && |out| == |manifests|
    requires forall k | 0 <= k < |manifests| :: SameName(out[k], manifests[k])
    requires forall i | 0 <= i < |published| :: published[i] in out
    ensures NamesHashable(published)
  {
    forall i | 0 <= i < |published| && "InternalName" in published[i]
      ensures Hashable(published[i]["InternalName"])
    {
      var k :| 0 <= k < |out| && published[i] == out[k];
      assert SameName(out[k], manifests[k]);
    }
  }

  /** The one step of `RestampKeeps` for the manifest at `k`. */
  lemma RestampOne(manifests: seq<Manifest>, out: seq<Manifest>, published: seq<Manifest>, later: nat, k: nat)
    requires DistinctNames(manifests) && |out| == |manifests| && k < |manifests|
    requires forall l | 0 <= l < |manifests| :: SameName(out[l], manifests[l])
    requires forall i | 0 <= i < |published| :: published[i] in out
    requires out[k] in published
    requires "LastUpdate" in out[k] && out[k] == manifests[k]["LastUpdate" := out[k]["LastUpdate"]]
    requires ReconcileAll(manifests, published, later).Ok?
    ensures |ReconcileAll(manifests, published, later).value| == |manifests|
    ensures ReconcileAll(manifests, published, later).value[k] == out[k]
  {
    ReconcileAllErrors(manifests, published, later);
    var key := HashKey(manifests[k]["InternalName"]);
    var i :| 0 <= i < |published| && published[i] == out[k];
    assert SameName(out[k], manifests[k]);
    assert Named(published[i], key);
    var last := LastNamed(published, key).value;
    var l :| 0 <= l < |out| && published[last] == out[l];
    assert l == k by {
      assert SameName(out[l], manifests[l]);
    }
    ReconcileFromPrevious(manifests, published, later, k, last);
  }

  /**
   * `get_last_updated_times(manifests)`: stamps the list in place, or stops
   * at the first exception (the run then ends, so the list is not described
   * after a failure).
   */
  method GetLastUpdatedTimes(manifests: array<Manifest>, previous: seq<Manifest>, now: nat) returns (outcome: Outcome)
    modifies manifests
    ensures outcome.Pass? <==> ReconcileAll(old(manifests[..]), previous, now).Ok?
    ensures outcome.Pass? ==> manifests[..] == ReconcileAll(old(manifests[..]), previous, now).value
    ensures outcome.Fail? ==> outcome.error == ReconcileAll(old(manifests[..]), previous, now).error
  {
    ghost var original := manifests[..];
    var prevMap: map<Value, Manifest> := map[];
    for i := 0 to |previous|
      invariant PrevMap(previous[..i]) == Ok(prevMap)
    {
      var m := previous[i];
      assert previous[..i + 1][..i] == previous[..i];
      if "InternalName" in m {
        var name := m["InternalName"];
        if !Hashable(name) {
          PrevMapErrorStays(previous, i + 1);
          return Fail(Unhashable(name));
        }
        prevMap := prevMap[HashKey(name) := m];
      }
    }
    assert previous[..|previous|] == previous;

    ghost var step := StampStep(prevMap, now);
    var i := 0;
    while i < manifests.Length
      invariant 0 <= i <= manifests.Length
      invariant MapUntilError(step, original[..i]) == Ok(manifests[..i])
      invariant forall k | i <= k < manifests.Length :: manifests[k] == original[k]
    {
      var stamped := StampManifest(manifests[i], prevMap, now);
      if stamped.Err? {
        MapUntilErrorStops(step, original, i);
        return Fail(stamped.error);
      }
      MapUntilErrorExtends(step, original, i);
      manifests[i] := stamped.value;
      i := i + 1;
      assert manifests[..i] == manifests[..i - 1] + [stamped.value];
    }
    assert original[..i] == original && manifests[..i] == manifests[..];
    return Pass;
  }

  /** One pass of the stamping loop of `get_last_updated_times`: the stamped manifest, or the exception raised. */
  method StampManifest(manifest: Manifest, prevMap: map<Value, Manifest>, now: nat) returns (r: Result<Manifest>)
    ensures r == Stamp(manifest, prevMap, now)
  {
    var nowStr := NatToString(now);
    var m := manifest["LastUpdate" := Str(nowStr)];
    var name := if "InternalName" in m then m["InternalName"] else Null;
    if !Hashable(name) {
      return Err(Unhashable(name));
    }
    var key := HashKey(name);
    if key in prevMap {
      var prev := prevMap[key];
      var version := if "AssemblyVersion" in m then m["AssemblyVersion"] else Null;
      if prev != map[] && PyEq(if "AssemblyVersion" in prev then prev["AssemblyVersion"] else Null, version) {
        m := m["LastUpdate" := if "LastUpdate" in prev then prev["LastUpdate"] else Str(nowStr)];
      }
    }
    return Ok(m);
  }
}
