/**
 * `main`: the collected manifests are trimmed, enriched, stamped and sorted
 * into the published index. Reading the plugin directory, reading the
 * previous index, the clock and writing the result are left to the caller:
 * the collected manifests, the previous index, the release lookup and the
 * clock reading are parameters, and the index is the result.
 */
module Pipeline {
  import opened Outcomes
  import opened Json
  import opened Text
  import opened Trimming
  import opened DownloadCount
  import opened Enrichment
  import opened Reconcile
  import opened Ordering

  /** Trimming then enrichment, the list that `get_last_updated_times` receives. */
  function Enriched(sources: seq<Manifest>, api: string -> Response): Result<seq<Manifest>>
  {
    EnrichAll(TrimAll(sources), api)
  }

  /** Everything `main` does before the sort, or the first exception. */
  function Stages(sources: seq<Manifest>, previous: seq<Manifest>, api: string -> Response, now: nat): Result<seq<Manifest>>
  {
    match Enriched(sources, api)
    case Err(e) => Err(e)
    case Ok(enriched) => ReconcileAll(enriched, previous, now)
  }

  /** `a` and `b` agree on `field`: both lack it, or both have it with one value. */
  predicate SameField(a: Manifest, b: Manifest, field: string)
  {
    (field in a <==> field in b) && (field in a ==> a[field] == b[field])
  }

  /** Trimming and enrichment leave the name and the version of every manifest as they were. */
  lemma EnrichedKeepsNames(sources: seq<Manifest>, api: string -> Response, k: nat)
    requires Enriched(sources, api).Ok? && k < |sources|
    ensures |Enriched(sources, api).value| == |sources|
    ensures SameField(Enriched(sources, api).value[k], sources[k], "InternalName")
    ensures SameField(Enriched(sources, api).value[k], sources[k], "AssemblyVersion")
  {
    MapUntilErrorEach(EnrichStep(api), TrimAll(sources), k);
    assert "InternalName" in TrimmedKeys;
    assert "AssemblyVersion" in TrimmedKeys;
    NotEnrichedByLength("InternalName");
    NotEnrichedByLength("AssemblyVersion");
    TrimEnrichKeeps(sources[k], api, "InternalName");
    TrimEnrichKeeps(sources[k], api, "AssemblyVersion");
  }

  /** A field of the allow-list that enrichment does not write passes through both untouched. */
  lemma TrimEnrichKeeps(m: Manifest, api: string -> Response, field: string)
    requires field in TrimmedKeys && field !in EnrichedKeys
    requires EnrichOne(TrimManifest(m), api).Ok?
    ensures SameField(EnrichOne(TrimManifest(m), api).value, m, field)
  {
    TrimManifestKeeps(m);
    EnrichOneKeeps(TrimManifest(m), api);
  }

  /** The stages leave the name and the version of every manifest as they were. */
  lemma StagesKeepSortFields(sources: seq<Manifest>, previous: seq<Manifest>, api: string -> Response, now: nat, k: nat)
    requires Stages(sources, previous, api, now).Ok? && k < |sources|
    ensures |Stages(sources, previous, api, now).value| == |sources|
    ensures SameField(Stages(sources, previous, api, now).value[k], sources[k], "InternalName")
    ensures SameField(Stages(sources, previous, api, now).value[k], sources[k], "AssemblyVersion")
  {
    EnrichedKeepsNames(sources, api, k);
    ReconcileShape(Enriched(sources, api).value, previous, now, k);
  }

  /**
   * What every published manifest looks like: the testing and update links
   * are the install link, both flags are false, the count and the timestamp
   * are there, and no field outside the allow-list and the computed fields
   * survives.
   */
  predicate Published(m: Manifest)
  {
    && Linked(m)
    && "LastUpdate" in m
    && forall f | f in m :: f in TrimmedKeys || f in EnrichedKeys || f == "LastUpdate"
  }

  /** The links, flags and count of a published manifest. */
  predicate Linked(m: Manifest)
  {
    && "DownloadLinkInstall" in m && m["DownloadLinkInstall"].Str?
    && "DownloadLinkTesting" in m && m["DownloadLinkTesting"] == m["DownloadLinkInstall"]
    && "DownloadLinkUpdate" in m && m["DownloadLinkUpdate"] == m["DownloadLinkInstall"]
    && "IsHide" in m && m["IsHide"] == Bool(false)
    && "IsTestingExclusive" in m && m["IsTestingExclusive"] == Bool(false)
    && "ApplicableVersion" in m
    && "DownloadCount" in m && m["DownloadCount"].Int?
  }

  /**
   * Trimming removes any testing or update link and any flag the author
   * wrote, so enrichment always sets the flags to false and both links to
   * the install link.
   */
  lemma TrimEnrichLinked(m: Manifest, api: string -> Response)
    requires EnrichOne(TrimManifest(m), api).Ok?
    ensures Linked(EnrichOne(TrimManifest(m), api).value)
  {
    TrimDropsComputedFields(m);
    EnrichOneLinks(TrimManifest(m), api);
    EnrichOneKeeps(TrimManifest(m), api);
  }

  /** Trimming then enrichment adds only computed fields to allow-listed ones. */
  lemma TrimEnrichFields(m: Manifest, api: string -> Response)
    requires EnrichOne(TrimManifest(m), api).Ok?
    ensures forall f | f in EnrichOne(TrimManifest(m), api).value :: f in TrimmedKeys || f in EnrichedKeys
  {
    TrimManifestKeeps(m);
    EnrichOneKeeps(TrimManifest(m), api);
  }

  /** The install link and `ApplicableVersion` after trimming and enrichment, in terms of the author's manifest. */
  lemma TrimEnrichInstall(m: Manifest, api: string -> Response)
    requires EnrichOne(TrimManifest(m), api).Ok?
    ensures "RepoUrl" in m && m["RepoUrl"].Str?
    ensures "AssemblyVersion" in m && Hashable(m["AssemblyVersion"])
    ensures
      var e := EnrichOne(TrimManifest(m), api).value;
      && e["DownloadLinkInstall"] == Str(RStrip(m["RepoUrl"].s, '/') + "/releases/download/v"
                                         + Display(m["AssemblyVersion"]).value + "/latest.zip")
      && e["ApplicableVersion"] == if "ApplicableVersion" in m then m["ApplicableVersion"] else Str("any")
  {
    TrimManifestKeeps(m);
    assert "RepoUrl" in TrimmedKeys;
    assert "AssemblyVersion" in TrimmedKeys;
    assert "ApplicableVersion" in TrimmedKeys;
    EnrichOneLinks(TrimManifest(m), api);
    EnrichOneKeeps(TrimManifest(m), api);
  }

  /** Writing `LastUpdate`, whose name has 10 characters, touches none of the linked fields. */
  lemma StampedPublished(e: Manifest, v: Value)
    requires Linked(e)
    requires forall f | f in e :: f in TrimmedKeys || f in EnrichedKeys
    ensures Published(e["LastUpdate" := v])
  {
    var keys := ["DownloadLinkInstall", "DownloadLinkTesting", "DownloadLinkUpdate", "IsHide",
                 "IsTestingExclusive", "ApplicableVersion", "DownloadCount"];
    assert forall i | 0 <= i < |keys| :: |keys[i]| != 10;
  }

  /**
   * Every manifest after the stages is `Published`; its install link is the
   * template filled with its stripped `RepoUrl` and its version, and its
   * `ApplicableVersion` is the author's or `"any"`.
   */
  lemma StagesPublished(sources: seq<Manifest>, previous: seq<Manifest>, api: string -> Response, now: nat, k: nat)
    requires Stages(sources, previous, api, now).Ok? && k < |sources|
    ensures |Stages(sources, previous, api, now).value| == |sources|
    ensures Published(Stages(sources, previous, api, now).value[k])
    ensures "RepoUrl" in sources[k] && sources[k]["RepoUrl"].Str?
    ensures "AssemblyVersion" in sources[k] && Hashable(sources[k]["AssemblyVersion"])
    ensures
      var out := Stages(sources, previous, api, now).value[k];
      && out["DownloadLinkInstall"] == Str(RStrip(sources[k]["RepoUrl"].s, '/') + "/releases/download/v"
                                           + Display(sources[k]["AssemblyVersion"]).value + "/latest.zip")
      && out["ApplicableVersion"] ==
           if "ApplicableVersion" in sources[k] then sources[k]["ApplicableVersion"] else Str("any")
  {
    var enriched := Enriched(sources, api).value;
    MapUntilErrorEach(EnrichStep(api), TrimAll(sources), k);
    TrimEnrichLinked(sources[k], api);
    TrimEnrichFields(sources[k], api);
    TrimEnrichInstall(sources[k], api);
    ReconcileShape(enriched, previous, now, k);
    var out := Stages(sources, previous, api, now).value[k];
    StampedPublished(enriched[k], out["LastUpdate"]);
  }

  /**
   * Publishing the result and running again on the same plugin manifests
   * gives the same list before the sort, hence (by `PublishedUnique`) the
   * same index: the run is idempotent when every plugin has its own name.
   */
  lemma StagesRerun(sources: seq<Manifest>, previous: seq<Manifest>, api: string -> Response, now: nat,
                    published: seq<Manifest>, later: nat)
    requires Stages(sources, previous, api, now).Ok?
    requires DistinctNames(sources)
    requires multiset(published) == multiset(Stages(sources, previous, api, now).value)
    ensures Stages(sources, published, api, later) == Stages(sources, previous, api, now)
  {
    var enriched := Enriched(sources, api).value;
    forall k | 0 <= k < |sources|
      ensures SameField(enriched[k], sources[k], "InternalName")
    {
      EnrichedKeepsNames(sources, api, k);
    }
    assert DistinctNames(enriched);
    RestampKeeps(enriched, previous, now, published, later);
  }

  /** Sorted and stable with respect to the same list: there is only one such order. */
  lemma PublishedUnique(stages: seq<Manifest>, r1: seq<Manifest>, r2: seq<Manifest>)
    requires Sorted(r1) && Stable(stages, r1)
    requires Sorted(r2) && Stable(stages, r2)
    ensures r1 == r2
  {
    SortedStableUnique(r1, r2);
  }

  /** The manifests of a permutation of the stages' result are all `Published`. */
  lemma PermutationPublished(sources: seq<Manifest>, previous: seq<Manifest>, api: string -> Response, now: nat,
                             index: seq<Manifest>)
    requires Stages(sources, previous, api, now).Ok?
    requires multiset(index) == multiset(Stages(sources, previous, api, now).value)
    ensures forall i | 0 <= i < |index| :: Published(index[i])
  {
    var out := Stages(sources, previous, api, now).value;
    forall i | 0 <= i < |index|
      ensures Published(index[i])
    {
      assert index[i] in multiset(index);
      assert index[i] in out;
      var k :| 0 <= k < |out| && out[k] == index[i];
      StagesPublished(sources, previous, api, now, k);
    }
  }

  /**
   * `main()`: the index to publish, or the exception that ends the run. The
   * sort compares keys, so when the stages before it succeed on two
   * manifests or more, their names and versions must be strings.
   */
  method Generate(sources: seq<Manifest>, previous: seq<Manifest>, api: string -> Response, now: nat)
    returns (r: Result<seq<Manifest>>)
    requires Stages(sources, previous, api, now).Ok? && |sources| > 1 ==>
      forall k | 0 <= k < |sources| :: HasStringKeys(sources[k])
    ensures r.Ok? <==> Stages(sources, previous, api, now).Ok?
    ensures r.Err? ==> r.error == Stages(sources, previous, api, now).error
    ensures r.Ok? ==> Sorted(r.value)
    ensures r.Ok? ==> multiset(r.value) == multiset(Stages(sources, previous, api, now).value)
    ensures r.Ok? ==> Stable(Stages(sources, previous, api, now).value, r.value)
    ensures r.Ok? ==> forall i | 0 <= i < |r.value| :: Published(r.value[i])
  {
    var trimmed := TrimAll(sources);
    var manifests := new Manifest[|trimmed|](i requires 0 <= i < |trimmed| => trimmed[i]);
    assert manifests[..] == trimmed;
    var outcome := AddExtraFields(manifests, api);
    if outcome.Fail? {
      return Err(outcome.error);
    }
    outcome := GetLastUpdatedTimes(manifests, previous, now);
    if outcome.Fail? {
      return Err(outcome.error);
    }
    ghost var stamped := manifests[..];
    assert stamped == Stages(sources, previous, api, now).value;
    if manifests.Length > 1 {
      forall k | 0 <= k < manifests.Length
        ensures HasStringKeys(manifests[k])
      {
        StagesKeepSortFields(sources, previous, api, now, k);
      }
    }
    SortManifests(manifests);
    PermutationPublished(sources, previous, api, now, manifests[..]);
    return Ok(manifests[..]);
  }
}
