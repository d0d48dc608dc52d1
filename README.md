# Plugin index generator, modelled in Dafny

`generate_pluginmaster.py` builds the plugin index `pluginmaster.json` of a
Dalamud plugin repository. It collects the authors' plugin manifests and
cuts each one down to an allow-list of keys (`trim_manifest`). It then adds
the computed fields (`add_extra_fields`):

- the install link, built from `RepoUrl` and `AssemblyVersion`;
- the default flags;
- the testing and update links, which copy the install link;
- the download count of the matching GitHub release (`parse_owner_repo`,
  `get_release_download_count`).

Next, `get_last_updated_times` stamps every manifest with `LastUpdate`. It
keeps the previous timestamp when the previously published entry of the
same `InternalName` has an equal version. Last, `main` sorts the list by
`(InternalName, AssemblyVersion)` and writes it out.

The model takes the script's own shapes:

- **Values.** Manifests are Python dictionaries of parsed JSON values
  (`Json.Value`, `Json.Manifest`). The parts of Python's semantics the
  script relies on are stated explicitly:
  - `dict.get`;
  - `==` with `True == 1`;
  - hashability of dictionary keys;
  - `str()` of scalars.
- **Exceptions.** An exception the script would raise is an `Outcomes.Error`
  value, carried in `Result` and `Outcome`.
- **Pure functions.** Pure helpers become functions with lemmas:
  - `trim_manifest` (`Trimming`);
  - `parse_owner_repo` (`OwnerRepo`, over the `urlparse` path in `OwnerRepo.UrlPath`, `;params` included);
  - the summation in `get_release_download_count` (`DownloadCount`).
- **Loops over the list.** The two procedures that change the list in place
  become methods over an `array`, each proved against a specification
  function:
  - `Enrichment.AddExtraFields` against `Enrichment.EnrichAll`;
  - `Reconcile.GetLastUpdatedTimes` against `Reconcile.ReconcileAll`.

  Both are the loop `Outcomes.MapUntilError` over a one-manifest step
  (`Enrichment.EnrichOne`, `Reconcile.Stamp`).
- **The sort.** The script's `list.sort` is modelled by a stable insertion
  sort, `Ordering.SortManifests`. It is proved sorted, a permutation, and
  stable per key. Stability and the sorted order determine the result
  (`Ordering.SortedStableUnique`), so it is the list Python's sort gives.
- **The whole run.** `Pipeline.Generate` is `main`. It is proved to give the
  sorted, stable permutation of `Pipeline.Stages`. Every manifest it
  publishes holds the published invariants (`Pipeline.Published`).

The HTTP call is a parameter `api: string -> Response`, which maps the
release URL to the reply. The clock reading `now` and the previously
published index `previous` are parameters too.

## Model

| member | source | states |
|---|---|---|
| Trimming.TrimToKeeps | generate_pluginmaster.py:143-144 | the comprehension over a key list keeps exactly the listed keys present in the plugin, each with the plugin's value |
| Trimming.TrimManifestKeeps | generate_pluginmaster.py:143-144 | a key is in the trimmed manifest iff it is in `TRIMMED_KEYS` and in the plugin; its value is unchanged |
| Trimming.TrimManifestIdempotent | generate_pluginmaster.py:143-144 | trimming twice is trimming once |
| Trimming.TrimDropsComputedFields | generate_pluginmaster.py:20-35 | none of the computed fields (three links, two flags, count, `LastUpdate`) survives trimming |
| Trimming.TrimAll | generate_pluginmaster.py:39 | the list has the same length, and each element is the trim of the source manifest at that position |
| Text.RStripIdempotent | generate_pluginmaster.py:60 | stripping trailing `/` a second time changes nothing |
| Text.RStrip | generate_pluginmaster.py:60 | the result is a prefix of the input, everything cut off is `/`, and the result does not end in `/` |
| Text.JoinSplit | generate_pluginmaster.py:86 | `split("/")` loses nothing: joining the parts with `/` gives the string back |
| OwnerRepo.Segments | generate_pluginmaster.py:86 | every path segment kept is non-empty and contains no `/` |
| OwnerRepo.ParseOwnerRepo | generate_pluginmaster.py:80-89 | errors iff the path has fewer than two non-empty segments, with the script's ValueError message; otherwise returns the first two segments |
| OwnerRepo.ParseOwnerRepoPath | generate_pluginmaster.py:85-89 | a path `/owner/repo` followed by any further parts gives `(owner, repo)` |
| OwnerRepo.ParseHttpsUrl | generate_pluginmaster.py:80-89 | `https://{host}/{owner}/{repo}` gives `Ok((owner, repo))` for any ASCII host without brackets, `:`, `/`, `?`, `#`, tabs or line breaks, and names without those or `;` |
| OwnerRepo.ParseHttpsUrlParams | generate_pluginmaster.py:85-89 | `https://{host}/{owner}/{repo};{params}` also gives `(owner, repo)`, since `urlparse` takes the params off the path |
| OwnerRepo.UrlPathOfHttps | generate_pluginmaster.py:85 | the path of such a URL is `/{owner}/{repo}`, with or without `;params` |
| OwnerRepo.StripParamsOfRepo | generate_pluginmaster.py:85 | a `;params` tail after the last path segment is cut off, and the path up to and including that segment is kept |
| DownloadCount.SumAssetsDefined | generate_pluginmaster.py:110 | the sum is defined iff every asset contributes a count |
| DownloadCount.SumAssetsAppend | generate_pluginmaster.py:110 | the sum over two asset lists put together is the sum of the two sums |
| DownloadCount.SumAssetsSkipsZero | generate_pluginmaster.py:110 | an asset counting 0 leaves the sum unchanged |
| DownloadCount.SumAssetsSkipsUncounted | generate_pluginmaster.py:110 | an asset without `download_count` adds nothing |
| DownloadCount.CountDownloads | generate_pluginmaster.py:104-112 | a failed request, a non-200 status, an unparsable body or an empty object give 0; any non-zero count comes from a 200 reply whose `assets` list sums to it |
| DownloadCount.CountDownloadsSums | generate_pluginmaster.py:107-110 | a 200 reply whose assets all carry counts gives their sum |
| Enrichment.SetDefaultsFlags | generate_pluginmaster.py:10-14 | `DEFAULTS` adds exactly the three flags; each keeps a present value or gets False, False, "any"; no other field changes |
| Enrichment.CopyDuplicatesLinks | generate_pluginmaster.py:16-18 | `DUPLICATES` adds exactly the testing and update links; each keeps a present value or copies the install link; no other field changes |
| Enrichment.DecorateLinks | generate_pluginmaster.py:62-78 | the install link and the count are always written; the testing and update links default to the install link |
| Enrichment.DecorateFlags | generate_pluginmaster.py:67-69 | each flag keeps the manifest's value or gets its default |
| Enrichment.DecorateKeeps | generate_pluginmaster.py:57-78 | no field other than the install link and the count changes its value |
| Enrichment.EnrichOneLinks | generate_pluginmaster.py:59-78 | on success the install link is the rstripped `RepoUrl` + `/releases/download/v` + version + `/latest.zip`; the testing and update links keep their value or equal it; the count is the lookup's for the parsed owner, repository and version |
| Enrichment.EnrichOneKeeps | generate_pluginmaster.py:57-78 | the keys become the old keys plus the enriched keys; defaults apply only to absent flags; every other field keeps its value |
| Enrichment.EnrichOneErrors | generate_pluginmaster.py:59-65 | the exact errors: KeyError for a missing version or URL, AttributeError for a non-string URL, `UnrenderedVersion` for a list or dictionary version (which the model does not render), the parse ValueError for a bad path, and success otherwise |
| Enrichment.EnrichManifest | generate_pluginmaster.py:58-78 | the body of the loop, with its two inner loops, computes `EnrichOne` |
| Enrichment.ApplyDefaults | generate_pluginmaster.py:68-69 | the loop over `DEFAULTS` computes `SetDefaults` |
| Enrichment.ApplyDuplicates | generate_pluginmaster.py:72-74 | the nested loops over `DUPLICATES` compute `CopyDuplicates` |
| Enrichment.AddExtraFields | generate_pluginmaster.py:57-78 | in place: succeeds iff `EnrichAll` does, then the array holds its result; otherwise fails with its error |
| Outcomes.MapUntilErrorEach | generate_pluginmaster.py:58 | a loop that completes has applied the body to every element |
| Outcomes.MapUntilErrorSucceeds | generate_pluginmaster.py:58 | a loop whose body raises on no element completes |
| Outcomes.MapUntilErrorFirstError | generate_pluginmaster.py:133 | the loop fails with the exception of the first element that raises |
| Outcomes.MapUntilErrorAppend | generate_pluginmaster.py:133 | a loop over a concatenation is the loop over each part |
| Json.HashKeyShared | generate_pluginmaster.py:128-130 | two hashable names share a dictionary slot iff they are the same value, or one is a boolean and the other the integer it stands for (`True` and `1`) |
| Json.PyEqStr | generate_pluginmaster.py:136 | a string version is `==` only to the same string |
| Json.NatToStringRoundTrip | generate_pluginmaster.py:132 | `str(int(time()))` renders the clock reading without loss, so stamps of different times differ (used by `Reconcile.VersionChangeRefreshes`) |
| Json.Display | generate_pluginmaster.py:63-65 | the model renders `str()` only for hashable values, giving the string itself for a string; a list or dictionary gives None |
| Reconcile.PrevMap | generate_pluginmaster.py:128-130 | building `prev_map` raises iff some `InternalName` of the previous index is a list or a dictionary, with that value's TypeError |
| Reconcile.LastNamed | generate_pluginmaster.py:128-130 | the last index filed under a key, or none |
| Reconcile.PrevMapFindsLast | generate_pluginmaster.py:128-130 | `prev_map` holds a key iff some entry has that name, and then holds the last such entry |
| Reconcile.PrevMapEntriesNamed | generate_pluginmaster.py:135-136 | a found entry is never empty, so `if prev` holds whenever the lookup finds one |
| Reconcile.PrevMapErrorStays | generate_pluginmaster.py:128-130 | once a prefix raises, the whole comprehension raises the same error |
| Reconcile.PrevMapFirstError | generate_pluginmaster.py:128-130 | the comprehension raises the TypeError of the first unhashable name, when every name before it is hashable |
| Reconcile.ReconcileAllErrors | generate_pluginmaster.py:128-135 | the run raises iff a previous name or a new name is unhashable; otherwise it keeps the length |
| Reconcile.StampFound | generate_pluginmaster.py:133-137 | a name found with an equal version takes the previous `LastUpdate` (or now when absent); a different version takes now |
| Reconcile.StampNotFound | generate_pluginmaster.py:133-135 | a name not found takes now |
| Reconcile.ReconcileFromPrevious | generate_pluginmaster.py:114-137 | against the last previous entry of its name: equal version keeps that entry's timestamp, or now if it has none; otherwise now; no other field changes |
| Reconcile.ReconcileWithoutPrevious | generate_pluginmaster.py:133-135 | a name no previous entry has is stamped now, nothing else changes |
| Reconcile.VersionChangeRefreshes | generate_pluginmaster.py:132-137 | a manifest whose version changed since its name's last previous entry gets a new timestamp, a decimal string denoting a later time than the old one once the clock has moved on |
| Reconcile.ReconcileShape | generate_pluginmaster.py:133-137 | each output is its input with `LastUpdate` written, and nothing else |
| Reconcile.RestampKeeps | generate_pluginmaster.py:114-118 | re-running with the published result (in any order) as the previous index keeps every timestamp at any later time, when names are distinct |
| Reconcile.SharedNameRestamped | generate_pluginmaster.py:128-137 | two manifests of one name and different versions share the last published entry: re-running keeps that one's `LastUpdate` and gives the other the current time, its version unchanged |
| Reconcile.StampManifest | generate_pluginmaster.py:133-137 | the body of the stamping loop computes `Stamp` |
| Reconcile.GetLastUpdatedTimes | generate_pluginmaster.py:114-137 | in place: builds `prev_map` by its loop, then succeeds iff `ReconcileAll` does and leaves its result in the array; otherwise fails with its error |
| Ordering.KeyLessTotal | generate_pluginmaster.py:43 | any two different sort keys are ordered one way or the other |
| Ordering.KeyLessTransitive | generate_pluginmaster.py:43 | the tuple order on keys is transitive |
| Ordering.KeyLessIrreflexive | generate_pluginmaster.py:43 | no key is less than itself |
| Ordering.WithKeyAppend | generate_pluginmaster.py:43 | the manifests with one key in a concatenation are those of each part, in order |
| Ordering.SortedStableUnique | generate_pluginmaster.py:42-43 | two sorted lists with the same per-key subsequences are equal: the stable order is unique |
| Ordering.SortManifests | generate_pluginmaster.py:43 | in place: the result is sorted by `(InternalName, AssemblyVersion)` with `""` for a missing key, a permutation, and stable |
| Ordering.InsertAt | generate_pluginmaster.py:43 | in place: one insertion step leaves the first `i + 1` manifests sorted, rearranges without loss, and leaves the rest of the array as it was |
| Pipeline.EnrichedKeepsNames | generate_pluginmaster.py:39-40 | trimming and enrichment keep each length, `InternalName` and `AssemblyVersion` |
| Pipeline.StagesKeepSortFields | generate_pluginmaster.py:39-43 | the sort sees each source manifest's name and version |
| Pipeline.TrimEnrichLinked | generate_pluginmaster.py:39-40 | after trimming, the testing and update links always equal the install link, and both flags are False |
| Pipeline.TrimEnrichFields | generate_pluginmaster.py:39-40 | no field outside the allow-list and the computed fields survives |
| Pipeline.TrimEnrichInstall | generate_pluginmaster.py:59-65 | the install link in terms of the author's `RepoUrl` and version; `ApplicableVersion` is the author's or "any" |
| Pipeline.StampedPublished | generate_pluginmaster.py:134 | writing `LastUpdate` keeps a linked manifest's links, flags and count |
| Pipeline.StagesPublished | generate_pluginmaster.py:37-43 | every manifest before the sort is `Published`; its install link and `ApplicableVersion` come from the source manifest |
| Pipeline.StagesRerun | generate_pluginmaster.py:37-41 | a second run whose previous index is the published result gives the same list, when names are distinct |
| Pipeline.PublishedUnique | generate_pluginmaster.py:42-43 | only one list is sorted and stable with respect to the stages' result |
| Pipeline.PermutationPublished | generate_pluginmaster.py:43 | every manifest of a permutation of the stages' result is `Published` |
| Pipeline.Generate | generate_pluginmaster.py:37-44 | errs iff the stages do, with their error; otherwise the index is sorted, a stable permutation of the stages' result, and every entry is `Published` |

## Left out

- File I/O is not modelled. This covers `extract_manifests`, `write_master`, and reading `pluginmaster.json`. The previous index is a parameter, and a file that is missing or not valid JSON is the empty list. A file that is not valid UTF-8 makes the script raise; the model does not cover that case.
- JSON parsing and printing are not modelled. Floating-point numbers are not among the modelled values.
- The HTTP request, its headers and the tokens read from the environment (`_gh_headers`) are not modelled. The reply is a parameter, and a raised request is the `Failed` response.
- `time()` is not modelled: the clock reading is a parameter `now`, in whole seconds.
- `urlparse` is modelled only as far as its path. The model strips leading controls and spaces, deletes tabs and line breaks, and removes the scheme, network location, query, fragment and (for a scheme of `uses_params`) the `;params`.
- OwnerRepo.ParseOwnerRepo: the ValueError that `urlparse` itself raises for a malformed bracketed (IPv6) network location is not modelled. Neither is the check of a network location against Unicode normalisation. Such URLs give a result here instead of an exception.
- Python dictionaries keep insertion order; the model's maps do not. The order of keys in the written file is not modelled.
- Enrichment.EnrichOne, Enrichment.EnrichOneErrors, Json.Display: a version that is a list or a dictionary gives `UnrenderedVersion`, where Python would format its `repr`. Such a version makes `parse_owner_repo` and the lookup run with that text, which the model does not spell out.
- Ordering.SortManifests: requires string names and versions whenever there are two manifests or more. Runs that Python also sorts are excluded with them: keys all of one other comparable type (all integers, say), and mixes whose tuple comparisons are settled before they meet an incomparable pair. Which pairs Timsort compares is not modelled.
- Pipeline.Generate: requires string sort keys only when the stages before the sort succeed on two manifests or more. These are the runs that reach the sort's comparisons, whose outcome depends on Timsort as described above.
- Enrichment.AddExtraFields: after an exception the array's contents are not described, because the script ends the run.
- Reconcile.GetLastUpdatedTimes: the same holds after an exception.
- Reconcile.RestampKeeps: requires every manifest to have a hashable `InternalName` and names to be pairwise distinct. A nameless manifest never enters `prev_map`, so it gets a new timestamp on every run. Of two manifests with the same name, only the last published one is remembered (`Reconcile.SharedNameRestamped`).
- Pipeline.StagesRerun: has the same requirement of distinct, present names.
- The previous index is taken to be a list of JSON objects. A file holding anything else would make the comprehension raise or behave otherwise, and this is not modelled.
- The script checks neither required fields nor the URL's host: a malformed manifest raises and ends the run, and any host is accepted. The model does the same.
