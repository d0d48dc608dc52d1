/**
 * The part of `get_release_download_count` that does not talk to the
 * network: which URL is asked for, and how the reply becomes a count.
 */
module DownloadCount {
  import opened Outcomes
  import opened Json

  /** `GITHUB_RELEASES_API_URL` filled in for one release tag. */
  function ReleasesApiUrl(owner: string, repo: string, version: string): string
  {
    "https://api.github.com/repos/" + owner + "/" + repo + "/releases/tags/v" + version
  }

  /**
   * What the HTTP GET gave: an exception (network failure, timeout), or a
   * status code and the body, which is None when it does not parse as JSON.
   */
  datatype Response = Failed | Reply(status: int, body: Option<Value>)

  /**
   * `asset.get("download_count", 0)` as a term of Python's `sum`: None when
   * the asset is not a dictionary (no `.get`) or its count is not a number
   * (`0 + "x"` raises); a boolean adds as 0 or 1.
   */
  function AssetCount(asset: Value): Option<int>
  {
    match asset
    case Object(fields) =>
      if "download_count" !in fields then Some(0)
      else (match fields["download_count"]
        case Int(n) => Some(n)
        case Bool(b) => Some(if b then 1 else 0)
        case _ => None)
    case _ => None
  }

  /** The sum of the counts of all assets, or None when any term raises. */
  function SumAssets(assets: seq<Value>): Option<int>
  {
    if assets == [] then Some(0)
    else match (AssetCount(assets[0]), SumAssets(assets[1..]))
      case (Some(n), Some(rest)) => Some(n + rest)
      case _ => None
  }

  /** The sum is defined exactly when every asset contributes a count. */
  lemma {:induction false} SumAssetsDefined(assets: seq<Value>)
    ensures SumAssets(assets).Some? <==> forall a | a in assets :: AssetCount(a).Some?
  {
    if assets != [] {
      SumAssetsDefined(assets[1..]);
      assert forall a | a in assets :: a == assets[0] || a in assets[1..];
    }
  }

  /** The sum over two lists of assets put together is the sum of the two sums. */
  lemma {:induction false} SumAssetsAppend(xs: seq<Value>, ys: seq<Value>)
    requires SumAssets(xs).Some? && SumAssets(ys).Some?
    ensures SumAssets(xs + ys) == Some(SumAssets(xs).value + SumAssets(ys).value)
  {
    if xs == [] {
      assert xs + ys == ys;
    } else {
      assert (xs + ys)[1..] == xs[1..] + ys;
      SumAssetsAppend(xs[1..], ys);
    }
  }

  /** An asset without a `download_count` field adds nothing. */
  lemma SumAssetsSkipsUncounted(xs: seq<Value>, fields: map<string, Value>, ys: seq<Value>)
    requires "download_count" !in fields
    ensures SumAssets(xs + [Object(fields)] + ys) == SumAssets(xs + ys)
  {
    SumAssetsSkipsZero(xs, Object(fields), ys);
  }

  /** An asset that counts 0 leaves the sum (or its absence) as it was. */
  lemma {:induction false} SumAssetsSkipsZero(xs: seq<Value>, asset: Value, ys: seq<Value>)
    requires AssetCount(asset) == Some(0)
    ensures SumAssets(xs + [asset] + ys) == SumAssets(xs + ys)
  {
    var whole := xs + [asset] + ys;
    if xs == [] {
      assert whole[0] == asset && whole[1..] == ys;
      assert xs + ys == ys;
    } else {
      assert whole[0] == xs[0] && whole[1..] == xs[1..] + [asset] + ys;
      var rest := xs + ys;
      assert rest[0] == xs[0] && rest[1..] == xs[1..] + ys;
      SumAssetsSkipsZero(xs[1..], asset, ys);
    }
  }

  /**
   * The count the lookup returns: nothing but a 200 reply whose body is a
   * JSON object can give anything but 0; a missing `assets` key gives 0, and
   * so does any exception along the way.
   */
  function CountDownloads(response: Response): (n: int)
    ensures response.Failed? ==> n == 0
    ensures response.Reply? && response.status != 200 ==> n == 0
    ensures response.Reply? && response.body.None? ==> n == 0
    ensures response == Reply(200, Some(Object(map[]))) ==> n == 0
    ensures n != 0 ==>
      && response.Reply? && response.status == 200
      && response.body.Some? && response.body.value.Object?
      && "assets" in response.body.value.fields
      && response.body.value.fields["assets"].List?
      && SumAssets(response.body.value.fields["assets"].items) == Some(n)
  {
    match response
    case Failed => 0
    case Reply(status, body) =>
      if status != 200 then 0
      else match body
        case None => 0
        case Some(data) =>
          // `data.get` raises unless the body is a dictionary
          if !data.Object? then 0
          else if "assets" !in data.fields then 0
          else match data.fields["assets"]
            case List(assets) => SumAssets(assets).GetOr(0)
            // iterating anything else either raises or (an empty string or
            // dictionary) yields no terms: 0 either way
            case _ => 0
  }

  /** A 200 reply whose assets all carry counts gives the sum of those counts. */
  lemma CountDownloadsSums(assets: seq<Value>, other: map<string, Value>)
    requires forall a | a in assets :: AssetCount(a).Some?
    ensures SumAssets(assets).Some?
    ensures CountDownloads(Reply(200, Some(Object(other["assets" := List(assets)])))) == SumAssets(assets).value
  {
    SumAssetsDefined(assets);
  }
}
