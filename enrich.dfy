/**
 * `add_extra_fields`: every manifest gets its install link, the default
 * flags, the testing and update links and its download count.
 */
module Enrichment {
  import opened Outcomes
  import opened Json
  import opened Text
  import opened OwnerRepo
  import opened DownloadCount

  /** `DOWNLOAD_URL_TEMPLATE` filled in. */
  function DownloadUrl(repoUrl: string, version: string): string
  {
    repoUrl + "/releases/download/v" + version + "/latest.zip"
  }

  /** `DEFAULTS`, in the order the loop visits them. */
  const Defaults: seq<(string, Value)> := [
    ("IsHide", Bool(false)),
    ("IsTestingExclusive", Bool(false)),
    ("ApplicableVersion", Str("any"))
  ]

  /** `DUPLICATES`: each source field with the fields that default to its value. */
  const Duplicates: seq<(string, seq<string>)> := [
    ("DownloadLinkInstall", ["DownloadLinkTesting", "DownloadLinkUpdate"])
  ]

  /** The fields enrichment may add or overwrite. */
  const EnrichedKeys: set<string> := {
    "DownloadLinkInstall", "IsHide", "IsTestingExclusive", "ApplicableVersion",
    "DownloadLinkTesting", "DownloadLinkUpdate", "DownloadCount"
  }

  /** The enriched keys have 6, 13, 17, 18 or 19 characters, so a key of another length is none of them. */
  lemma NotEnrichedByLength(k: string)
    requires |k| !in {6, 13, 17, 18, 19}
    ensures k !in EnrichedKeys
  {
  }

  /** `m.setdefault(k, v)`: nothing changes when `k` is present. */
  function SetDefault(m: Manifest, k: string, v: Value): Manifest
  {
    if k in m then m else m[k := v]
  }

  /** `for k, v in defaults: m.setdefault(k, v)` */
  function SetDefaults(m: Manifest, defaults: seq<(string, Value)>): (r: Manifest)
    ensures m.Keys <= r.Keys
  {
    if defaults == [] then m
    else
      var (k, v) := defaults[|defaults| - 1];
      SetDefault(SetDefaults(m, defaults[..|defaults| - 1]), k, v)
  }

  /** `for k in keys: m.setdefault(k, m[source])` */
  function CopyTo(m: Manifest, source: string, keys: seq<string>): (r: Manifest)
    requires source in m
    ensures m.Keys <= r.Keys
  {
    if keys == [] then m
    else
      var before := CopyTo(m, source, keys[..|keys| - 1]);
      SetDefault(before, keys[|keys| - 1], before[source])
  }

  /** Every source field of `dups` is present in `m`. */
  predicate SourcesIn(m: Manifest, dups: seq<(string, seq<string>)>)
  {
    forall i | 0 <= i < |dups| :: dups[i].0 in m
  }

  /** `for source, keys in dups: for k in keys: m.setdefault(k, m[source])` */
  function CopyDuplicates(m: Manifest, dups: seq<(string, seq<string>)>): (r: Manifest)
    requires SourcesIn(m, dups)
    ensures m.Keys <= r.Keys
  {
    if dups == [] then m
    else
      var (source, keys) := dups[|dups| - 1];
      CopyTo(CopyDuplicates(m, dups[..|dups| - 1]), source, keys)
  }

  /** The error `m["RepoUrl"].rstrip("/")` raises on a value that is not a string. */
  function NoRStrip(v: Value): Error
  {
    AttributeError("'" + TypeName(v) + "' object has no attribute 'rstrip'")
  }

  /** The body of the loop of `add_extra_fields` for one manifest, or the exception it raises. */
  function EnrichOne(m: Manifest, api: string -> Response): Result<Manifest>
  {
    if "AssemblyVersion" !in m then Err(KeyError("AssemblyVersion"))
    else if "RepoUrl" !in m then Err(KeyError("RepoUrl"))
    else if !m["RepoUrl"].Str? then Err(NoRStrip(m["RepoUrl"]))
    else
      var repoUrl := RStrip(m["RepoUrl"].s, '/');
      match Display(m["AssemblyVersion"])
      case None => Err(UnrenderedVersion)
      case Some(version) =>
        match ParseOwnerRepo(repoUrl)
        case Err(e) => Err(e)
        case Ok((owner, repo)) =>
          var count := CountDownloads(api(ReleasesApiUrl(owner, repo, version)));
          Ok(Decorate(m, DownloadUrl(repoUrl, version), count))
  }

  /**
   * The fields the loop writes, given the install link and the download
   * count: the link, then the defaults, then the duplicated links, then the
   * count.
   */
  function Decorate(m: Manifest, link: string, count: int): (r: Manifest)
    ensures r.Keys == m.Keys + EnrichedKeys
  {
    var linked := m["DownloadLinkInstall" := Str(link)];
    SetDefaultsFlags(linked);
    var defaulted := SetDefaults(linked, Defaults);
    CopyDuplicatesLinks(defaulted);
    CopyDuplicates(defaulted, Duplicates)["DownloadCount" := Int(count)]
  }

  /** The body of the loop of `add_extra_fields` as a function of the manifest. */
  function EnrichStep(api: string -> Response): Manifest -> Result<Manifest>
  {
    m => EnrichOne(m, api)
  }

  /**
   * The loop of `add_extra_fields` as a whole: every manifest enriched, or
   * the exception of the first one that raises.
   */
  function EnrichAll(manifests: seq<Manifest>, api: string -> Response): Result<seq<Manifest>>
  {
    MapUntilError(EnrichStep(api), manifests)
  }

  /** The defaults with their values, as the three flags of `DEFAULTS` end up. */
  lemma SetDefaultsFlags(m: Manifest)
    ensures SetDefaults(m, Defaults).Keys == m.Keys + {"IsHide", "IsTestingExclusive", "ApplicableVersion"}
    ensures SetDefaults(m, Defaults)["IsHide"] == if "IsHide" in m then m["IsHide"] else Bool(false)
    ensures SetDefaults(m, Defaults)["IsTestingExclusive"] ==
      if "IsTestingExclusive" in m then m["IsTestingExclusive"] else Bool(false)
    ensures SetDefaults(m, Defaults)["ApplicableVersion"] ==
      if "ApplicableVersion" in m then m["ApplicableVersion"] else Str("any")
    ensures forall k | k in m :: SetDefaults(m, Defaults)[k] == m[k]
  {
    var m1 := SetDefault(m, "IsHide", Bool(false));
    var m2 := SetDefault(m1, "IsTestingExclusive", Bool(false));
    var m3 := SetDefault(m2, "ApplicableVersion", Str("any"));
    assert SetDefaults(m, Defaults[..0]) == m by {
      assert Defaults[..0] == [];
    }
    assert SetDefaults(m, Defaults[..1]) == m1 by {
      assert Defaults[..1][..0] == Defaults[..0];
    }
    assert SetDefaults(m, Defaults[..2]) == m2 by {
      assert Defaults[..2][..1] == Defaults[..1];
    }
    assert SetDefaults(m, Defaults) == m3 by {
      assert Defaults[..2] == Defaults[..3][..2];
      assert Defaults[..3] == Defaults;
    }
  }

  /** The testing and update links default to the install link. */
  lemma CopyDuplicatesLinks(m: Manifest)
    requires "DownloadLinkInstall" in m
    ensures SourcesIn(m, Duplicates)
    ensures CopyDuplicates(m, Duplicates).Keys == m.Keys + {"DownloadLinkTesting", "DownloadLinkUpdate"}
    ensures CopyDuplicates(m, Duplicates)["DownloadLinkTesting"] ==
      if "DownloadLinkTesting" in m then m["DownloadLinkTesting"] else m["DownloadLinkInstall"]
    ensures CopyDuplicates(m, Duplicates)["DownloadLinkUpdate"] ==
      if "DownloadLinkUpdate" in m then m["DownloadLinkUpdate"] else m["DownloadLinkInstall"]
    ensures forall k | k in m :: CopyDuplicates(m, Duplicates)[k] == m[k]
  {
    var keys := ["DownloadLinkTesting", "DownloadLinkUpdate"];
    var m1 := SetDefault(m, "DownloadLinkTesting", m["DownloadLinkInstall"]);
    var m2 := SetDefault(m1, "DownloadLinkUpdate", m1["DownloadLinkInstall"]);
    assert CopyTo(m, "DownloadLinkInstall", keys[..1]) == m1 by {
      assert keys[..1][..0] == [];
    }
    assert CopyTo(m, "DownloadLinkInstall", keys) == m2 by {
      assert keys[..1] == keys[..2][..1];
      assert keys[..2] == keys;
    }
    assert CopyDuplicates(m, Duplicates) == CopyTo(m, "DownloadLinkInstall", keys) by {
      assert Duplicates[..0] == [];
    }
  }

  /** `Decorate` changes no field but the install link and the count that the manifest already has. */
  lemma DecorateKeeps(m: Manifest, link: string, count: int)
    ensures forall k | k in m && k != "DownloadLinkInstall" && k != "DownloadCount" ::
      Decorate(m, link, count)[k] == m[k]
  {
    var linked := m["DownloadLinkInstall" := Str(link)];
    SetDefaultsFlags(linked);
    CopyDuplicatesLinks(SetDefaults(linked, Defaults));
  }

  /** Each flag of `DEFAULTS` keeps the manifest's value, or gets the default when absent. */
  lemma DecorateFlags(m: Manifest, link: string, count: int)
    ensures Decorate(m, link, count)["IsHide"] == if "IsHide" in m then m["IsHide"] else Bool(false)
    ensures Decorate(m, link, count)["IsTestingExclusive"] ==
      if "IsTestingExclusive" in m then m["IsTestingExclusive"] else Bool(false)
    ensures Decorate(m, link, count)["ApplicableVersion"] ==
      if "ApplicableVersion" in m then m["ApplicableVersion"] else Str("any")
  {
    var linked := m["DownloadLinkInstall" := Str(link)];
    SetDefaultsFlags(linked);
    CopyDuplicatesLinks(SetDefaults(linked, Defaults));
  }

  /**
   * The install link is always overwritten, the testing and update links
   * copy it unless present, and the count is always written.
   */
  lemma DecorateLinks(m: Manifest, link: string, count: int)
    ensures Decorate(m, link, count)["DownloadLinkInstall"] == Str(link)
    ensures Decorate(m, link, count)["DownloadLinkTesting"] ==
      if "DownloadLinkTesting" in m then m["DownloadLinkTesting"] else Str(link)
    ensures Decorate(m, link, count)["DownloadLinkUpdate"] ==
      if "DownloadLinkUpdate" in m then m["DownloadLinkUpdate"] else Str(link)
    ensures Decorate(m, link, count)["DownloadCount"] == Int(count)
  {
    var linked := m["DownloadLinkInstall" := Str(link)];
    SetDefaultsFlags(linked);
    CopyDuplicatesLinks(SetDefaults(linked, Defaults));
  }

  /**
   * The links and the count of an enriched manifest: the install link is
   * always the template filled with the stripped `RepoUrl` and the version,
   * the testing and update links keep their value or copy the install link,
   * and the count is the one the release lookup gives for that owner,
   * repository and version.
   */
  lemma EnrichOneLinks(m: Manifest, api: string -> Response)
    requires EnrichOne(m, api).Ok?
    ensures "AssemblyVersion" in m && "RepoUrl" in m && m["RepoUrl"].Str? && Hashable(m["AssemblyVersion"])
    ensures ParseOwnerRepo(RStrip(m["RepoUrl"].s, '/')).Ok?
    ensures
      var r := EnrichOne(m, api).value;
      var repoUrl := RStrip(m["RepoUrl"].s, '/');
      var version := Display(m["AssemblyVersion"]).value;
      var link := Str(repoUrl + "/releases/download/v" + version + "/latest.zip");
      && r["DownloadLinkInstall"] == link
      && r["DownloadLinkTesting"] == (if "DownloadLinkTesting" in m then m["DownloadLinkTesting"] else link)
      && r["DownloadLinkUpdate"] == (if "DownloadLinkUpdate" in m then m["DownloadLinkUpdate"] else link)
      && r["DownloadCount"] == Int(CountDownloads(api(ReleasesApiUrl(
           ParseOwnerRepo(repoUrl).value.0, ParseOwnerRepo(repoUrl).value.1, version))))
  {
    var repoUrl := RStrip(m["RepoUrl"].s, '/');
    var version := Display(m["AssemblyVersion"]).value;
    var (owner, repo) := ParseOwnerRepo(repoUrl).value;
    DecorateLinks(m, DownloadUrl(repoUrl, version), CountDownloads(api(ReleasesApiUrl(owner, repo, version))));
  }

  /**
   * The other fields of an enriched manifest: the three defaults keep a
   * value the author gave and are set otherwise, no key is lost, exactly the
   * enriched keys are added, and every other field keeps its value.
   */
  lemma EnrichOneKeeps(m: Manifest, api: string -> Response)
    requires EnrichOne(m, api).Ok?
    ensures
      var r := EnrichOne(m, api).value;
      && r.Keys == m.Keys + EnrichedKeys
      && r["IsHide"] == (if "IsHide" in m then m["IsHide"] else Bool(false))
      && r["IsTestingExclusive"] == (if "IsTestingExclusive" in m then m["IsTestingExclusive"] else Bool(false))
      && r["ApplicableVersion"] == (if "ApplicableVersion" in m then m["ApplicableVersion"] else Str("any"))
      && forall k | k in m && k != "DownloadLinkInstall" && k != "DownloadCount" :: r[k] == m[k]
  {
    var repoUrl := RStrip(m["RepoUrl"].s, '/');
    var version := Display(m["AssemblyVersion"]).value;
    var (owner, repo) := ParseOwnerRepo(repoUrl).value;
    var count := CountDownloads(api(ReleasesApiUrl(owner, repo, version)));
    DecorateFlags(m, DownloadUrl(repoUrl, version), count);
    DecorateKeeps(m, DownloadUrl(repoUrl, version), count);
  }

  /** Exactly these manifests make enrichment raise, with these exceptions. */
  lemma EnrichOneErrors(m: Manifest, api: string -> Response)
    ensures "AssemblyVersion" !in m ==> EnrichOne(m, api) == Err(KeyError("AssemblyVersion"))
    ensures "AssemblyVersion" in m && "RepoUrl" !in m ==> EnrichOne(m, api) == Err(KeyError("RepoUrl"))
    ensures "AssemblyVersion" in m && "RepoUrl" in m && !m["RepoUrl"].Str? ==>
      EnrichOne(m, api) == Err(NoRStrip(m["RepoUrl"]))
    ensures "AssemblyVersion" in m && "RepoUrl" in m && m["RepoUrl"].Str? ==>
      var repoUrl := RStrip(m["RepoUrl"].s, '/');
      && (!Hashable(m["AssemblyVersion"]) ==> EnrichOne(m, api) == Err(UnrenderedVersion))
      && (Hashable(m["AssemblyVersion"]) && ParseOwnerRepo(repoUrl).Err? ==>
            EnrichOne(m, api) == Err(ParseOwnerRepo(repoUrl).error))
      && (Hashable(m["AssemblyVersion"]) && ParseOwnerRepo(repoUrl).Ok? ==> EnrichOne(m, api).Ok?)
  {
  }

  /**
   * `add_extra_fields(manifests)`: enriches the list in place, or stops at
   * the first manifest that raises (the run then ends, so the list is not
   * described after a failure).
   */
  method AddExtraFields(manifests: array<Manifest>, api: string -> Response) returns (outcome: Outcome)
    modifies manifests
    ensures outcome.Pass? <==> EnrichAll(old(manifests[..]), api).Ok?
    ensures outcome.Pass? ==> manifests[..] == EnrichAll(old(manifests[..]), api).value
    ensures outcome.Fail? ==> outcome.error == EnrichAll(old(manifests[..]), api).error
  {
    ghost var original := manifests[..];
    var i := 0;
    while i < manifests.Length
      invariant 0 <= i <= manifests.Length
      invariant EnrichAll(original[..i], api) == Ok(manifests[..i])
      invariant forall k | i <= k < manifests.Length :: manifests[k] == original[k]
    {
      var enriched := EnrichManifest(manifests[i], api);
      if enriched.Err? {
        MapUntilErrorStops(EnrichStep(api), original, i);
        return Fail(enriched.error);
      }
      MapUntilErrorExtends(EnrichStep(api), original, i);
      manifests[i] := enriched.value;
      i := i + 1;
      assert manifests[..i] == manifests[..i - 1] + [enriched.value];
    }
    assert original[..i] == original && manifests[..i] == manifests[..];
    return Pass;
  }

  /** One pass of the loop of `add_extra_fields`: the enriched manifest, or the exception raised. */
  method EnrichManifest(manifest: Manifest, api: string -> Response) returns (r: Result<Manifest>)
    ensures r == EnrichOne(manifest, api)
  {
    var m := manifest;
    if "AssemblyVersion" !in m {
      return Err(KeyError("AssemblyVersion"));
    }
    var versionValue := m["AssemblyVersion"];
    if "RepoUrl" !in m {
      return Err(KeyError("RepoUrl"));
    }
    if !m["RepoUrl"].Str? {
      return Err(NoRStrip(m["RepoUrl"]));
    }
    var repoUrl := RStrip(m["RepoUrl"].s, '/');

    // Download links
    var shown := Display(versionValue);
    if shown.None? {
      return Err(UnrenderedVersion);
    }
    var version := shown.value;
    m := m["DownloadLinkInstall" := Str(DownloadUrl(repoUrl, version))];

    // Defaults
    SetDefaultsFlags(m);
    m := ApplyDefaults(m);

    // Duplicate fields
    m := ApplyDuplicates(m);

    // Download count from the release
    var parsed := ParseOwnerRepo(repoUrl);
    if parsed.Err? {
      return Err(parsed.error);
    }
    var (owner, repo) := parsed.value;
    var count := CountDownloads(api(ReleasesApiUrl(owner, repo, version)));
    m := m["DownloadCount" := Int(count)];
    return Ok(m);
  }

  /** The loop over `DEFAULTS`: each key the manifest lacks gets its default. */
  method ApplyDefaults(manifest: Manifest) returns (m: Manifest)
    ensures m == SetDefaults(manifest, Defaults)
  {
    m := manifest;
    for j := 0 to |Defaults|
      invariant m == SetDefaults(manifest, Defaults[..j])
    {
      var (k, v) := Defaults[j];
      assert Defaults[..j + 1][..j] == Defaults[..j];
      if k !in m {
        m := m[k := v];
      }
    }
    assert Defaults[..|Defaults|] == Defaults;
  }

  /** The loops over `DUPLICATES`: each link the manifest lacks is copied from its source field. */
  method ApplyDuplicates(manifest: Manifest) returns (m: Manifest)
    requires SourcesIn(manifest, Duplicates)
    ensures m == CopyDuplicates(manifest, Duplicates)
  {
    m := manifest;
    for d := 0 to |Duplicates|
      invariant SourcesIn(manifest, Duplicates[..d])
      invariant m == CopyDuplicates(manifest, Duplicates[..d])
    {
      var (source, keys) := Duplicates[d];
      assert Duplicates[..d + 1][..d] == Duplicates[..d];
      ghost var before := m;
      for j := 0 to |keys|
        invariant source in before
        invariant m == CopyTo(before, source, keys[..j])
      {
        assert keys[..j + 1][..j] == keys[..j];
        if keys[j] !in m {
          m := m[keys[j] := m[source]];
        }
      }
      assert keys[..|keys|] == keys;
    }
    assert Duplicates[..|Duplicates|] == Duplicates;
  }
}
