/**
 * `parse_owner_repo`: the owner and repository names a release lookup needs,
 * read off the path of the manifest's repository URL.
 */
module OwnerRepo {
  import opened Outcomes
  import opened Text

  predicate AsciiAlpha(ch: char)
  {
    'a' <= ch <= 'z' || 'A' <= ch <= 'Z'
  }

  /** The characters a URL scheme may use. */
  predicate SchemeChar(ch: char)
  {
    AsciiAlpha(ch) || '0' <= ch <= '9' || ch == '+' || ch == '-' || ch == '.'
  }

  /** The characters `urlsplit` strips from the front of a URL: the C0 controls and the space. */
  predicate ControlOrSpace(ch: char)
  {
    ch <= ' '
  }

  /** Tab, carriage return and line feed, which `urlsplit` deletes wherever they occur. */
  predicate Unsafe(ch: char)
  {
    ch == '\t' || ch == '\r' || ch == '\n'
  }

  /** A character that ends neither a path segment, nor the path, nor the last segment's name. */
  predicate SegmentChar(ch: char)
  {
    ch != '/' && ch != '?' && ch != '#' && ch != ';' && !Unsafe(ch)
  }

  /** A character allowed in `;params`: anything but `/`, `?`, `#` and the removed characters. */
  predicate ParamChar(ch: char)
  {
    ch != '/' && ch != '?' && ch != '#' && !Unsafe(ch)
  }

  function LStripControl(s: string): (r: string)
    ensures r == [] || !ControlOrSpace(r[0])
  {
    if s != [] && ControlOrSpace(s[0]) then LStripControl(s[1..]) else s
  }

  function RemoveUnsafe(s: string): (r: string)
    ensures forall i | 0 <= i < |r| :: !Unsafe(r[i])
  {
    if s == [] then []
    else (if Unsafe(s[0]) then [] else [s[0]]) + RemoveUnsafe(s[1..])
  }

  /** The URL as `urlsplit` goes on to read it. */
  function Cleaned(url: string): string
  {
    RemoveUnsafe(LStripControl(url))
  }

  /** The URL starts with `scheme:`, a letter followed by scheme characters. */
  predicate HasScheme(url: string)
  {
    var i := Span(url, {':'});
    0 < i < |url| && AsciiAlpha(url[0]) && forall k | 0 <= k < i :: SchemeChar(url[k])
  }

  function LowerChar(ch: char): char
  {
    if 'A' <= ch <= 'Z' then (ch as int - 'A' as int + 'a' as int) as char else ch
  }

  /** The scheme, lower-cased, or `""` when the URL has none. */
  function SchemeOf(url: string): string
  {
    if HasScheme(url) then seq(Span(url, {':'}), i requires 0 <= i < Span(url, {':'}) => LowerChar(url[i]))
    else ""
  }

  /** The URL with a leading `scheme:` removed, when it starts with one. */
  function AfterScheme(url: string): string
  {
    if HasScheme(url) then url[Span(url, {':'}) + 1..] else url
  }

  /** The rest after a leading `//netloc`, which ends at the first `/`, `?` or `#`. */
  function AfterNetloc(s: string): string
  {
    if |s| >= 2 && s[..2] == "//" then s[2 + Span(s[2..], {'/', '?', '#'})..] else s
  }

  /** `uses_params`: the schemes whose last path segment may carry `;params`. */
  const UsesParams: set<string> := {
    "", "ftp", "hdl", "prospero", "http", "imap", "https", "shttp", "rtsp", "rtsps", "rtspu",
    "sip", "sips", "mms", "sftp", "tel"
  }

  /** The position of the last `/`, or 0 when there is none. */
  function LastSlash(s: string): (n: nat)
    ensures n <= |s| && (n < |s| ==> n == 0 || s[n] == '/')
    ensures n == |s| ==> s == []
    ensures forall j | n < j < |s| :: s[j] != '/'
  {
    if s == [] then 0
    else if s[|s| - 1] == '/' then |s| - 1
    else LastSlash(s[..|s| - 1])
  }

  /** `_splitparams(path)[0]`: the path cut at the first `;` after its last `/`. */
  function StripParams(path: string): (r: string)
    ensures r <= path
  {
    var start := LastSlash(path);
    path[..start + Span(path[start..], {';'})]
  }

  /**
   * The path component of `urlparse(url)`: the URL cleaned of surrounding
   * controls and of tabs and line breaks, the scheme and the network
   * location taken off the front, the fragment and the query off the back,
   * and for a scheme of `uses_params` the `;params` of the last segment.
   */
  function UrlPath(url: string): string
  {
    var clean := Cleaned(url);
    var rest := AfterNetloc(AfterScheme(clean));
    var beforeFragment := rest[..Span(rest, {'#'})];
    var path := beforeFragment[..Span(beforeFragment, {'?'})];
    if SchemeOf(clean) in UsesParams then StripParams(path) else path
  }

  /** `[x for x in path.split("/") if x]` */
  function Segments(path: string): (parts: seq<string>)
    ensures forall i | 0 <= i < |parts| :: parts[i] != [] && '/' !in parts[i]
  {
    NonEmpty(Split(path, '/'))
  }

  /**
   * `parse_owner_repo(repo_url)`: the first two path segments, or the
   * ValueError the script raises when there are fewer than two.
   */
  function ParseOwnerRepo(repoUrl: string): (r: Result<(string, string)>)
    ensures r.Err? <==> |Segments(UrlPath(repoUrl))| < 2
    ensures r.Err? ==> r.error == ValueError("RepoUrl is not a valid GitHub repo URL: " + repoUrl)
    ensures r.Ok? ==> r.value.0 != [] && '/' !in r.value.0 && r.value.1 != [] && '/' !in r.value.1
    ensures r.Ok? ==> [r.value.0, r.value.1] == Segments(UrlPath(repoUrl))[..2]
  {
    var parts := Segments(UrlPath(repoUrl));
    if |parts| < 2 then Err(ValueError("RepoUrl is not a valid GitHub repo URL: " + repoUrl))
    else Ok((parts[0], parts[1]))
  }

  /**
   * The segments of a path are its non-empty `/`-free pieces: a path built by
   * joining such pieces (with empty pieces for doubled or outer slashes)
   * gives back exactly the non-empty ones.
   */
  lemma SegmentsOfJoin(pieces: seq<string>)
    requires |pieces| >= 1
    requires forall i | 0 <= i < |pieces| :: '/' !in pieces[i]
    ensures Segments(Join(pieces, '/')) == NonEmpty(pieces)
  {
    SplitJoin(pieces, '/');
  }

  /**
   * `/owner/repo` followed by nothing or by further `/`-separated parts gives
   * `(owner, repo)` whatever follows.
   */
  lemma {:induction false} ParseOwnerRepoPath(owner: string, repo: string, more: seq<string>)
    requires owner != [] && '/' !in owner && repo != [] && '/' !in repo
    requires forall i | 0 <= i < |more| :: '/' !in more[i]
    ensures |Segments(Join(["", owner, repo] + more, '/'))| >= 2
    ensures Segments(Join(["", owner, repo] + more, '/'))[..2] == [owner, repo]
  {
    var pieces := ["", owner, repo] + more;
    SegmentsOfJoin(pieces);
    NonEmptyAppend(["", owner, repo], more);
    assert NonEmpty(["", owner, repo]) == [owner, repo] by {
      assert NonEmpty([repo]) == [repo] by {
        assert [repo][1..] == [];
      }
      assert NonEmpty([owner, repo]) == [owner, repo] by {
        assert [owner, repo][1..] == [repo];
      }
      assert ["", owner, repo][1..] == [owner, repo];
    }
  }

  /** No `/`, `?`, `#`, `;`, tab or line break: a word that can stand as one path segment of a URL. */
  predicate PlainSegment(w: string)
  {
    w != [] && forall i | 0 <= i < |w| :: SegmentChar(w[i])
  }

  /**
   * A character of a host name on which `urlparse` does not raise: ASCII
   * (so Unicode normalisation cannot change it), no bracket (which would
   * start an IPv6 address), and none of `:`, `/`, `?`, `#`, tab or line break.
   */
  predicate HostChar(ch: char)
  {
    ch < 128 as char && ch != ':' && ch != '[' && ch != ']' && ParamChar(ch)
  }

  /** A host name made of `HostChar`s only. */
  predicate PlainHost(host: string)
  {
    forall i | 0 <= i < |host| :: HostChar(host[i])
  }

  /**
   * A repository URL of the form `https://{host}/{owner}/{repo}` gives
   * `(owner, repo)`. The host is not looked at: `github.com` is one instance,
   * and any other host gives the same answer.
   */
  lemma ParseHttpsUrl(host: string, owner: string, repo: string)
    requires PlainHost(host) && PlainSegment(owner) && PlainSegment(repo)
    ensures ParseOwnerRepo("https://" + host + "/" + owner + "/" + repo) == Ok((owner, repo))
  {
    ParseHttpsUrlWith(host, owner, repo, "");
    assert "https://" + host + "/" + owner + "/" + repo + "" == "https://" + host + "/" + owner + "/" + repo;
  }

  /** `;params` after the repository name are not part of it: `https://{host}/{owner}/{repo};{params}` gives `(owner, repo)`. */
  lemma ParseHttpsUrlParams(host: string, owner: string, repo: string, params: string)
    requires PlainHost(host) && PlainSegment(owner) && PlainSegment(repo)
    requires forall i | 0 <= i < |params| :: ParamChar(params[i])
    ensures ParseOwnerRepo("https://" + host + "/" + owner + "/" + repo + ";" + params) == Ok((owner, repo))
  {
    ParseHttpsUrlWith(host, owner, repo, ";" + params);
    assert "https://" + host + "/" + owner + "/" + repo + ";" + params
        == "https://" + host + "/" + owner + "/" + repo + (";" + params);
  }

  /** The common case of the two lemmas above: a tail that is empty or starts with `;`. */
  lemma ParseHttpsUrlWith(host: string, owner: string, repo: string, tail: string)
    requires PlainHost(host) && PlainSegment(owner) && PlainSegment(repo)
    requires tail == [] || tail[0] == ';'
    requires forall i | 0 <= i < |tail| :: ParamChar(tail[i])
    ensures ParseOwnerRepo("https://" + host + "/" + owner + "/" + repo + tail) == Ok((owner, repo))
  {
    var path := "/" + owner + "/" + repo;
    var url := "https://" + host + path + tail;
    UrlPathOfHttps(host, owner, repo, tail);
    var pre, middle := "https://" + host, "/" + owner + "/";
    Associative(pre, "/", owner);
    Associative(pre, "/" + owner, "/");
    Associative(pre, middle, repo);
    assert url == "https://" + host + "/" + owner + "/" + repo + tail;
    SegmentsOfOwnerRepo(owner, repo);
    ParseOwnerRepoOfPath(url, owner, repo);
  }

  lemma SegmentsOfOwnerRepo(owner: string, repo: string)
    requires PlainSegment(owner) && PlainSegment(repo)
    ensures |Segments("/" + owner + "/" + repo)| >= 2
    ensures Segments("/" + owner + "/" + repo)[..2] == [owner, repo]
  {
    JoinOwnerRepo(owner, repo);
    ParseOwnerRepoPath(owner, repo, []);
    assert ["", owner, repo] + [] == ["", owner, repo];
  }

  lemma ParseOwnerRepoOfPath(url: string, owner: string, repo: string)
    requires |Segments(UrlPath(url))| >= 2 && Segments(UrlPath(url))[..2] == [owner, repo]
    ensures ParseOwnerRepo(url) == Ok((owner, repo))
  {
    var parts := Segments(UrlPath(url));
    assert parts[0] == owner && parts[1] == repo by {
      assert parts[..2][0] == parts[0] && parts[..2][1] == parts[1];
    }
  }

  lemma JoinOwnerRepo(owner: string, repo: string)
    ensures Join(["", owner, repo], '/') == "/" + owner + "/" + repo
  {
    assert Join([repo], '/') == repo;
    assert Join([owner, repo], '/') == owner + "/" + repo by {
      assert [owner, repo][1..] == [repo];
    }
    assert ["", owner, repo][1..] == [owner, repo];
  }

  /** `https:` is a scheme. */
  lemma AfterHttpsScheme(rest: string)
    ensures AfterScheme("https:" + rest) == rest
  {
    var url := "https:" + rest;
    assert url == "https" + ([':'] + rest);
    SpanAppend("https", [':'] + rest, {':'});
    assert url[6..] == rest;
  }

  /** The path of `//host/...` is the `/...` part, when the host holds no `/`, `?` or `#`. */
  lemma AfterHostNetloc(host: string, path: string)
    requires '/' !in host && '?' !in host && '#' !in host
    requires path != [] && path[0] == '/'
    ensures AfterNetloc("//" + host + path) == path
  {
    var s := "//" + host + path;
    assert s[2..] == host + path;
    SpanAppend(host, path, {'/', '?', '#'});
    assert s[2 + |host|..] == path;
  }

  /**
   * The path of `https://host/owner/repo` followed by nothing or by
   * `;params` is `/owner/repo`.
   */
  lemma UrlPathOfHttps(host: string, owner: string, repo: string, tail: string)
    requires PlainHost(host) && PlainSegment(owner) && PlainSegment(repo)
    requires tail == [] || tail[0] == ';'
    requires forall i | 0 <= i < |tail| :: ParamChar(tail[i])
    ensures UrlPath("https://" + host + "/" + owner + "/" + repo + tail) == "/" + owner + "/" + repo
  {
    var full := "/" + owner + "/" + repo + tail;
    var netloc := "//" + host + full;
    var url := "https:" + netloc;
    assert "https://" + host + "/" + owner + "/" + repo + tail == url by {
      Associative("https://" + host, "/" + owner + "/" + repo, tail);
      Associative("https://" + host, "/" + owner + "/", repo);
      Associative("https://" + host, "/" + owner, "/");
      Associative("https://" + host, "/", owner);
      Associative("https:", "//" + host, full);
      Associative("https:", "//", host);
    }
    PathChars(owner, repo, tail);
    CleanedHttps(host, full);
    assert "https://" + host + full == url by {
      Associative("https:", "//" + host, full);
      Associative("https:", "//", host);
    }
    AfterHttpsScheme(netloc);
    SchemeOfHttps(netloc);
    assert '/' !in host && '?' !in host && '#' !in host;
    AfterHostNetloc(host, full);
    UrlPathSteps(url, full);
    StripParamsOfRepo("/" + owner, repo, tail);
  }

  /** The path once the URL is known to be clean, its front taken off, and without query or fragment. */
  lemma UrlPathSteps(url: string, path: string)
    requires Cleaned(url) == url && SchemeOf(url) in UsesParams
    requires AfterNetloc(AfterScheme(url)) == path
    requires forall i | 0 <= i < |path| :: path[i] != '?' && path[i] != '#'
    ensures UrlPath(url) == StripParams(path)
  {
    SpanAppend(path, [], {'#'});
    SpanAppend(path, [], {'?'});
    assert path + [] == path;
  }

  /** None of the characters of `/owner/repo;params` is a `?`, a `#` or one that cleaning removes. */
  lemma PathChars(owner: string, repo: string, tail: string)
    requires PlainSegment(owner) && PlainSegment(repo)
    requires forall i | 0 <= i < |tail| :: ParamChar(tail[i])
    ensures var full := "/" + owner + "/" + repo + tail;
      full != [] && full[0] == '/' && forall i | 0 <= i < |full| :: full[i] != '?' && full[i] != '#' && !Unsafe(full[i])
  {
    var full := "/" + owner + "/" + repo + tail;
    forall i | 0 <= i < |full|
      ensures full[i] != '?' && full[i] != '#' && !Unsafe(full[i])
    {
      if i == 0 || i == 1 + |owner| {
      } else if i < 1 + |owner| {
        assert full[i] == owner[i - 1];
      } else if i < 2 + |owner| + |repo| {
        assert full[i] == repo[i - 2 - |owner|];
      } else {
        assert full[i] == tail[i - 2 - |owner| - |repo|];
      }
    }
  }

  /** Cleaning leaves an `https` URL free of the removed characters as it is. */
  lemma CleanedHttps(host: string, path: string)
    requires PlainHost(host)
    requires forall i | 0 <= i < |path| :: !Unsafe(path[i])
    ensures Cleaned("https://" + host + path) == "https://" + host + path
  {
    var url := "https://" + host + path;
    forall i | 0 <= i < |url|
      ensures !Unsafe(url[i])
    {
      if 8 <= i < 8 + |host| {
        assert url[i] == host[i - 8];
      } else if 8 + |host| <= i {
        assert url[i] == path[i - 8 - |host|];
      }
    }
    assert LStripControl(url) == url;
    RemoveUnsafeNone(url);
  }

  /** A string without tabs or line breaks loses nothing to their removal. */
  lemma {:induction false} RemoveUnsafeNone(s: string)
    requires forall i | 0 <= i < |s| :: !Unsafe(s[i])
    ensures RemoveUnsafe(s) == s
  {
    if s != [] {
      var rest := s[1..];
      assert forall i | 0 <= i < |rest| :: rest[i] == s[i + 1];
      RemoveUnsafeNone(rest);
      assert [s[0]] + rest == s;
    }
  }

  /** The scheme of `https:...` is `https`, which is one of `uses_params`. */
  lemma SchemeOfHttps(rest: string)
    ensures SchemeOf("https:" + rest) == "https"
    ensures "https" in UsesParams
  {
    var url := "https:" + rest;
    assert url == "https" + ([':'] + rest);
    SpanAppend("https", [':'] + rest, {':'});
  }

  /** The params are cut from the last segment, and only from there. */
  lemma StripParamsOfRepo(front: string, repo: string, tail: string)
    requires PlainSegment(repo)
    requires tail == [] || tail[0] == ';'
    requires forall i | 0 <= i < |tail| :: tail[i] != '/'
    ensures StripParams(front + "/" + repo + tail) == front + "/" + repo
  {
    var path := front + "/" + repo + tail;
    var rest := repo + tail;
    assert forall i | 0 <= i < |rest| :: rest[i] != '/';
    Associative(front + "/", repo, tail);
    LastSlashAfter(front, rest);
    SpanOfRepo(repo, tail);
    var word := "/" + repo;
    Associative(front, "/", repo);
    Associative(front, word, tail);
    assert path[|front|..] == word + tail;
    assert path[..|front| + |word|] == front + word;
  }

  /** The name of the last segment ends at the `;` that starts the params. */
  lemma SpanOfRepo(repo: string, tail: string)
    requires PlainSegment(repo)
    requires tail == [] || tail[0] == ';'
    ensures Span("/" + repo + tail, {';'}) == 1 + |repo|
  {
    var word := "/" + repo;
    assert forall i | 0 <= i < |word| :: word[i] != ';' by {
      assert forall i | 1 <= i < |word| :: word[i] == repo[i - 1];
    }
    SpanAppend(word, tail, {';'});
  }

  /** The last `/` of `front + "/" + rest` is the one before `rest` when `rest` has none. */
  lemma {:induction false} LastSlashAfter(front: string, rest: string)
    requires forall i | 0 <= i < |rest| :: rest[i] != '/'
    ensures LastSlash(front + "/" + rest) == |front|
  {
    var s := front + "/" + rest;
    if rest == [] {
      assert s[|s| - 1] == '/';
    } else {
      var shorter := rest[..|rest| - 1];
      assert s[|s| - 1] == rest[|rest| - 1];
      assert s[..|s| - 1] == front + "/" + shorter;
      LastSlashAfter(front, shorter);
    }
  }

  /** Proof helper: regrouping a concatenation of three strings. */
  lemma Associative(a: string, b: string, c: string)
    ensures a + b + c == a + (b + c)
  {
  }

  /** A prefix free of stop characters is spanned entirely. */
  lemma {:induction false} SpanAppend(w: string, t: string, stop: set<char>)
    requires forall i | 0 <= i < |w| :: w[i] !in stop
    ensures Span(w + t, stop) == |w| + Span(t, stop)
  {
    if w != [] {
      SpanAppend(w[1..], t, stop);
      assert (w + t)[1..] == w[1..] + t;
    } else {
      assert w + t == t;
    }
  }
}
