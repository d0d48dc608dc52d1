/**
 * `trim_manifest`: a manifest cut down to the fixed allow-list of keys that
 * the index publishes.
 */
module Trimming {
  import opened Json

  /** `TRIMMED_KEYS`: the keys an author's manifest may contribute to the index. */
  const TrimmedKeys: seq<string> := [
    "Author",
    "Name",
    "Punchline",
    "Description",
    "Changelog",
    "InternalName",
    "AssemblyVersion",
    "RepoUrl",
    "ApplicableVersion",
    "Tags",
    "CategoryTags",
    "DalamudApiLevel",
    "IconUrl",
    "ImageUrls"
  ]

  /** `{k: plugin[k] for k in keys if k in plugin}`, one key of the list at a time. */
  function TrimTo(plugin: Manifest, keys: seq<string>): Manifest
  {
    if keys == [] then map[]
    else
      var rest := TrimTo(plugin, keys[1..]);
      if keys[0] in plugin then rest[keys[0] := plugin[keys[0]]] else rest
  }

  function TrimManifest(plugin: Manifest): Manifest
  {
    TrimTo(plugin, TrimmedKeys)
  }

  /** The comprehension keeps exactly the listed keys that are present, with their values. */
  lemma {:induction false} TrimToKeeps(plugin: Manifest, keys: seq<string>)
    ensures TrimTo(plugin, keys).Keys == plugin.Keys * set k | k in keys
    ensures forall k | k in TrimTo(plugin, keys) :: TrimTo(plugin, keys)[k] == plugin[k]
  {
    if keys != [] {
      TrimToKeeps(plugin, keys[1..]);
      assert (set k | k in keys) == {keys[0]} + set k | k in keys[1..];
    }
  }

  /**
   * A trimmed manifest holds a key exactly when the key is allow-listed and
   * present in the input, and then with the input's value.
   */
  lemma TrimManifestKeeps(plugin: Manifest)
    ensures forall k :: k in TrimManifest(plugin) <==> k in plugin && k in TrimmedKeys
    ensures forall k | k in TrimManifest(plugin) :: TrimManifest(plugin)[k] == plugin[k]
  {
    TrimToKeeps(plugin, TrimmedKeys);
  }

  /** Trimming a trimmed manifest changes nothing. */
  lemma TrimManifestIdempotent(plugin: Manifest)
    ensures TrimManifest(TrimManifest(plugin)) == TrimManifest(plugin)
  {
    TrimManifestKeeps(plugin);
    TrimManifestKeeps(TrimManifest(plugin));
  }

  /**
   * None of the fields the script computes survives trimming, except
   * `ApplicableVersion`, which the allow-list names: an author can set the
   * download links, the hiding flags, the count or the timestamp only through
   * the script.
   */
  lemma TrimDropsComputedFields(plugin: Manifest)
    ensures "DownloadLinkInstall" !in TrimManifest(plugin)
    ensures "DownloadLinkTesting" !in TrimManifest(plugin)
    ensures "DownloadLinkUpdate" !in TrimManifest(plugin)
    ensures "IsHide" !in TrimManifest(plugin)
    ensures "IsTestingExclusive" !in TrimManifest(plugin)
    ensures "DownloadCount" !in TrimManifest(plugin)
    ensures "LastUpdate" !in TrimManifest(plugin)
  {
    TrimManifestKeeps(plugin);
    NotTrimmed("DownloadLinkInstall");
    NotTrimmed("DownloadLinkTesting");
    NotTrimmed("DownloadLinkUpdate");
    NotTrimmed("IsHide");
    NotTrimmed("IsTestingExclusive");
    NotTrimmed("DownloadCount");
    NotTrimmed("LastUpdate");
  }

  /**
   * The allow-listed keys have 4, 6, 7, 9, 11, 12, 15 or 17 characters, and
   * the only one of 6 is `Author`: a key that differs from these in length,
   * or in its first character, is not allow-listed.
   */
  lemma NotTrimmed(k: string)
    requires |k| !in {4, 7, 9, 11, 12, 15, 17}
    requires |k| == 6 ==> k[0] != 'A'
    ensures k !in TrimmedKeys
  {
  }

  /** `[trim_manifest(m) for m in manifests]` */
  function TrimAll(manifests: seq<Manifest>): (r: seq<Manifest>)
    ensures |r| == |manifests|
    ensures forall i | 0 <= i < |r| :: r[i] == TrimManifest(manifests[i])
  {
    seq(|manifests|, i requires 0 <= i < |manifests| => TrimManifest(manifests[i]))
  }
}
