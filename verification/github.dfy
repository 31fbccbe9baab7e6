/** The repository that hosts the userscripts (`GitRepo` in src/github.js): its identity,
    parsed from the pathname of the repository URL, and the links derived from it. */
module GitHub {
  import opened Text
  import opened Results
  import PosixPath

  const DefaultBranch: string := "main"
  const DefaultDistributionPath: string := "dist"

  /** The parts of a parsed `URL` object the repository reads. */
  datatype Url = Url(href: string, host: string, pathname: string)

  /** Constructor options; `None` is an omitted (or `undefined`) option. */
  datatype GitRepoOptions = GitRepoOptions(defaultBranch: Option<string>, distributionPath: Option<string>)

  datatype GitRepo = GitRepo(
    host: string,
    owner: string,
    repoName: string,
    defaultBranch: string,
    distributionPath: string)

  datatype RepoError = MalformedRepoUrl(url: string)

  /** `rest[..k]` is a candidate for `([^/]+?)(?:\.git|$)`: non-empty, slash-free, and
      followed by ".git" or by the end of the input. */
  predicate NameEnd(rest: string, k: int) {
    0 < k <= |rest| && '/' !in rest[..k] && (k == |rest| || StartsWith(rest[k..], ".git"))
  }

  /** `p` matches `^\/([^/]+)\/([^/]+?)(?:\.git|$)` with groups `owner` and `name`: the lazy
      second group takes the shortest candidate. */
  predicate PathMatch(p: string, owner: string, name: string) {
    && |owner| > 0 && '/' !in owner
    && StartsWith(p, "/" + owner + "/")
    && var rest := p[|owner| + 2..];
       && |name| <= |rest| && rest[..|name|] == name
       && NameEnd(rest, |name|)
       && forall k :: 0 < k < |name| ==> !NameEnd(rest, k)
  }

  /** The first position of `c` in `s`. */
  function IndexOf(s: string, c: char): (r: Option<nat>)
    ensures r.Some? ==> r.value < |s| && s[r.value] == c && c !in s[..r.value]
    ensures r.None? ==> c !in s
  {
    if |s| == 0 then None
    else if s[0] == c then Some(0)
    else match IndexOf(s[1..], c)
      case None => None
      case Some(i) => assert s[..i + 1] == [s[0]] + s[1..][..i]; Some(i + 1)
  }

  /** The lazy search for the repository name, trying lengths `k`, `k + 1`, … */
  function FindNameEnd(rest: string, k: nat): (r: Option<nat>)
    requires 0 < k && k - 1 <= |rest| && '/' !in rest[..k - 1]
    requires forall j :: 0 < j < k ==> !NameEnd(rest, j)
    ensures r.Some? ==> NameEnd(rest, r.value) && forall j :: 0 < j < r.value ==> !NameEnd(rest, j)
    ensures r.None? ==> forall j :: 0 < j ==> !NameEnd(rest, j)
    decreases |rest| - k
  {
    if k > |rest| then None
    else
      assert rest[..k] == rest[..k - 1] + [rest[k - 1]];
      if rest[k - 1] == '/' then
        assert forall j :: k <= j <= |rest| ==> rest[..j][k - 1] == '/';
        None
      else if k == |rest| || StartsWith(rest[k..], ".git") then Some(k)
      else FindNameEnd(rest, k + 1)
  }

  /** The owner of a match is the first path segment. */
  lemma OwnerIsFirstSegment(p: string, owner: string, name: string)
    requires PathMatch(p, owner, name)
    ensures |p| > 0 && p[0] == '/'
    ensures IndexOf(p[1..], '/') == Some(|owner|)
    ensures p[1..1 + |owner|] == owner
  {
    var tail := p[1..];
    assert p[..|owner| + 2] == "/" + owner + "/";
    assert tail[|owner|] == '/';
    assert forall i :: 0 <= i < |owner| ==> tail[i] == p[..|owner| + 2][i + 1];
    assert tail[..|owner|] == owner;
  }

  /** Matching the pathname regular expression; `None` when it does not match. */
  function ParsePathname(p: string): (r: Option<(string, string)>)
    ensures r.Some? ==> PathMatch(p, r.value.0, r.value.1)
    ensures r.None? ==> forall owner, name :: !PathMatch(p, owner, name)
  {
    if |p| == 0 || p[0] != '/' then None
    else match IndexOf(p[1..], '/')
      case None =>
        NoMatchWithoutSecondSlash(p);
        None
      case Some(i) =>
        if i == 0 then
          NoMatchWithEmptyOwner(p);
          None
        else
          var owner := p[1..1 + i];
          var rest := p[i + 2..];
          assert StartsWith(p, "/" + owner + "/");
          match FindNameEnd(rest, 1)
          case None =>
            NoMatchWithoutName(p, owner, rest);
            None
          case Some(k) =>
            MatchFromParts(p, owner, rest, k);
            Some((owner, rest[..k]))
  }

  /** An owner between the first two slashes and a shortest name end give a match. */
  lemma MatchFromParts(p: string, owner: string, rest: string, k: nat)
    requires |owner| > 0 && '/' !in owner && StartsWith(p, "/" + owner + "/")
    requires rest == p[|owner| + 2..]
    requires NameEnd(rest, k) && forall j :: 0 < j < k ==> !NameEnd(rest, j)
    ensures PathMatch(p, owner, rest[..k])
  {
  }

  lemma NoMatchWithoutSecondSlash(p: string)
    requires |p| > 0 && IndexOf(p[1..], '/').None?
    ensures forall owner, name :: !PathMatch(p, owner, name)
  {
    forall owner, name | PathMatch(p, owner, name) ensures false {
      OwnerIsFirstSegment(p, owner, name);
    }
  }

  lemma NoMatchWithEmptyOwner(p: string)
    requires |p| > 0 && IndexOf(p[1..], '/') == Some(0)
    ensures forall owner, name :: !PathMatch(p, owner, name)
  {
    forall owner, name | PathMatch(p, owner, name) ensures false {
      OwnerIsFirstSegment(p, owner, name);
    }
  }

  lemma NoMatchWithoutName(p: string, owner: string, rest: string)
    requires |p| > 0 && IndexOf(p[1..], '/') == Some(|owner|)
    requires |owner| > 0 && p[1..1 + |owner|] == owner && rest == p[|owner| + 2..]
    requires forall j :: 0 < j ==> !NameEnd(rest, j)
    ensures forall o, name :: !PathMatch(p, o, name)
  {
    forall o, name | PathMatch(p, o, name) ensures false {
      OwnerIsFirstSegment(p, o, name);
    }
  }

  /** The ".git" alternative is not anchored at the end: whatever follows ".git" is ignored,
      so the pathname of a repository named "a.github.io" parses with the name "a". */
  lemma NameStopsAtGit(suffix: string)
    ensures ParsePathname("/o/a.git" + suffix) == Some(("o", "a"))
  {
    var p := "/o/a.git" + suffix;
    assert p[..4] == "/o/a";
    assert p[3..][..1] == "a";
    assert p[3..][1..][..4] == ".git";
    assert PathMatch(p, "o", "a");
    var r := ParsePathname(p);
    PathMatchUnique(p, r.value.0, r.value.1, "o", "a");
  }

  /** The regular expression has at most one match: owner and name are determined. */
  lemma PathMatchUnique(p: string, o1: string, n1: string, o2: string, n2: string)
    requires PathMatch(p, o1, n1) && PathMatch(p, o2, n2)
    ensures o1 == o2 && n1 == n2
  {
    OwnerIsFirstSegment(p, o1, n1);
    OwnerIsFirstSegment(p, o2, n2);
  }

  /** `new GitRepo(repoUrl, options)`: fails with "Malformed git repo URL" unless the pathname
      matches; omitted options take their defaults. */
  function NewGitRepo(url: Url, options: GitRepoOptions): (r: Result<GitRepo, RepoError>)
    ensures r.Success? ==>
      && PathMatch(url.pathname, r.value.owner, r.value.repoName)
      && r.value.owner != "" && r.value.repoName != ""
      && r.value.host == url.host
      && r.value.defaultBranch == (if options.defaultBranch.Some? then options.defaultBranch.value else DefaultBranch)
      && r.value.distributionPath == (if options.distributionPath.Some? then options.distributionPath.value else DefaultDistributionPath)
    ensures r.Failure? ==>
      && r.error == MalformedRepoUrl(url.href)
      && forall owner, name :: !PathMatch(url.pathname, owner, name)
  {
    match ParsePathname(url.pathname)
    case None => Failure(MalformedRepoUrl(url.href))
    case Some((owner, repoName)) =>
      if owner == "" || repoName == "" then Failure(MalformedRepoUrl(url.href))
      else Success(GitRepo(
        url.host,
        owner,
        repoName,
        match options.defaultBranch case Some(b) => b case None => DefaultBranch,
        match options.distributionPath case Some(d) => d case None => DefaultDistributionPath))
  }

  /** The pathname of the canonical repository URL. */
  function RepoPath(repo: GitRepo): string {
    "/" + repo.owner + "/" + repo.repoName
  }

  /** The `repoUrl` getter: an https URL on the repository's host whose last segment is
      the repository name. */
  function RepoUrl(repo: GitRepo): (url: string)
    ensures StartsWith(url, "https://" + repo.host + "/")
    ensures EndsWith(url, "/" + repo.repoName)
  {
    var url := "https://" + repo.host + RepoPath(repo);
    assert url == "https://" + repo.host + "/" + (repo.owner + "/" + repo.repoName);
    assert url == "https://" + repo.host + "/" + repo.owner + ("/" + repo.repoName);
    url
  }

  /** The `supportUrl` getter: the issue tracker, one level below the repository URL. */
  function SupportUrl(repo: GitRepo): (url: string)
    ensures StartsWith(url, RepoUrl(repo) + "/")
    ensures url[|RepoUrl(repo)| + 1..] == "issues"
  {
    RepoUrl(repo) + "/issues"
  }

  /** `readmeSectionUrl`: a fragment link to the section of the README with the given
      (formatted) display name, through the slug function. */
  function ReadmeSectionUrl(repo: GitRepo, slugify: string -> string, formattedName: string): (url: string)
    ensures StartsWith(url, RepoUrl(repo) + "#")
    ensures url[|RepoUrl(repo)| + 1..] == slugify(formattedName)
  {
    RepoUrl(repo) + "#" + slugify(formattedName)
  }

  /** `userscriptPath(baseName)`: for a plain distribution directory and a base name
      without '/', the directory, '/', the base name and ".user.js". */
  function UserscriptPath(repo: GitRepo, baseName: string): (path: string)
    ensures PosixPath.Plain(repo.distributionPath) && '/' !in baseName ==>
      path == repo.distributionPath + "/" + baseName + ".user.js"
  {
    var file := baseName + ".user.js";
    if '/' !in baseName then
      UserFileOrdinary(baseName);
      PosixPath.Join2(repo.distributionPath, file)
    else PosixPath.Join2(repo.distributionPath, file)
  }

  /** A base name without '/' gives an ordinary userscript file name. */
  lemma UserFileOrdinary(baseName: string)
    requires '/' !in baseName
    ensures PosixPath.Ordinary(baseName + ".user.js")
  {
    var file := baseName + ".user.js";
    assert file[|file| - 1] == 's';
    assert '/' !in file by {
      assert forall i :: 0 <= i < |file| ==> file[i] == if i < |baseName| then baseName[i] else ".user.js"[i - |baseName|];
    }
  }

  /** `userscriptRawUrl(baseName)`: after `https://raw.`, the '/'-segments are the host, the
      owner, the repository, the branch and then those of the userscript path. */
  function UserscriptRawUrl(repo: GitRepo, baseName: string): (url: string)
    ensures StartsWith(url, "https://raw.")
    ensures '/' !in repo.host && '/' !in repo.owner && '/' !in repo.repoName ==>
      Split(url[12..], '/') == [repo.host, repo.owner, repo.repoName]
        + Split(repo.defaultBranch, '/') + Split(UserscriptPath(repo, baseName), '/')
  {
    var path := UserscriptPath(repo, baseName);
    var tail := Join([repo.host, repo.owner, repo.repoName, repo.defaultBranch, path], "/");
    var url := "https://raw." + tail;
    assert url[12..] == tail;
    if '/' !in repo.host && '/' !in repo.owner && '/' !in repo.repoName then
      SplitThreeThenBranchPath(repo.host, repo.owner, repo.repoName, repo.defaultBranch, path);
      url
    else url
  }

  const ShieldsBadge: string := "https://img.shields.io/badge/"
  const BadgeStyle: string := "?style=for-the-badge"
  const SourceButtonLink: string := ShieldsBadge + "Source-grey.svg" + BadgeStyle + "&logo=github"
  const InstallButtonLink: string := ShieldsBadge + "Install-success.svg" + BadgeStyle + "&logo=tampermonkey"

  /** A Markdown image that links to `target`. */
  function ImageLink(alt: string, image: string, target: string): string {
    "[![" + alt + "](" + image + ")](" + target + ")"
  }

  /** `sourceAndInstallButton(baseName)`: an Install badge linking to the raw script, then a
      Source badge linking to the script, each on a line of its own. */
  function SourceAndInstallButton(repo: GitRepo, baseName: string): (badges: string)
    ensures '\n' !in UserscriptPath(repo, baseName) ==> Split(badges, '\n') == [
      "",
      ImageLink("Install", InstallButtonLink, UserscriptPath(repo, baseName) + "?raw=1"),
      ImageLink("Source", SourceButtonLink, UserscriptPath(repo, baseName)),
      ""]
  {
    var path := UserscriptPath(repo, baseName);
    var install := ImageLink("Install", InstallButtonLink, path + "?raw=1");
    var source := ImageLink("Source", SourceButtonLink, path);
    var badges := "\n" + install + "\n" + source + "\n";
    if '\n' !in path then
      ButtonLinesSplit(path);
      badges
    else badges
  }

  /** A name end inside a prefix of `rest` is a name end of `rest`. */
  lemma NameEndPrefix(rest: string, n: string, k: nat)
    requires |n| <= |rest| && rest[..|n|] == n && 0 < k < |n|
    ensures NameEnd(n, k) ==> NameEnd(rest, k)
  {
    if NameEnd(n, k) {
      assert n[..k] == rest[..k];
      assert k + 4 <= |n|;
      forall i | 0 <= i < 4 ensures rest[k..][..4][i] == n[k..][..4][i] {
        assert rest[..|n|][k + i] == rest[k + i];
      }
      assert rest[k..][..4] == n[k..][..4];
    }
  }

  /** The canonical repository URL leads back to the same owner and name: its pathname
      matches the regular expression with exactly the parsed groups. */
  lemma RepoUrlRoundTrip(url: Url, options: GitRepoOptions, repo: GitRepo)
    requires NewGitRepo(url, options) == Success(repo)
    ensures RepoUrl(repo) == "https://" + url.host + RepoPath(repo)
    ensures ParsePathname(RepoPath(repo)) == Some((repo.owner, repo.repoName))
  {
    var p := url.pathname;
    var o, n := repo.owner, repo.repoName;
    var q := RepoPath(repo);
    var rest := p[|o| + 2..];
    assert q[..|o| + 2] == "/" + o + "/";
    assert q[|o| + 2..] == n;
    assert rest[..|n|] == n;
    assert '/' !in n;
    assert NameEnd(n, |n|);
    forall k | 0 < k < |n| ensures !NameEnd(n, k) {
      NameEndPrefix(rest, n, k);
    }
    assert PathMatch(q, o, n);
    var parsed := ParsePathname(q);
    PathMatchUnique(q, parsed.value.0, parsed.value.1, o, n);
  }

  /** The default distribution directory is a plain path. */
  lemma DefaultDistributionPathPlain()
    ensures PosixPath.Plain(DefaultDistributionPath)
  {
    SplitNoSeparator(DefaultDistributionPath, '/');
  }

  lemma JoinFive(a: string, b: string, c: string, d: string, e: string, sep: string)
    ensures Join([a, b, c, d, e], sep) == a + sep + (b + sep + (c + sep + (d + sep + e)))
  {
    assert [a, b, c, d, e][1..] == [b, c, d, e];
    assert [b, c, d, e][1..] == [c, d, e];
    assert [c, d, e][1..] == [d, e];
    assert [d, e][1..] == [e];
    assert Join([e], sep) == e;
    assert Join([d, e], sep) == d + sep + e;
    assert Join([c, d, e], sep) == c + sep + (d + sep + e);
    assert Join([b, c, d, e], sep) == b + sep + (c + sep + (d + sep + e));
  }

  /** Three separator-free parts, then a branch and a path that may hold separators of
      their own (a branch such as `release/1.0`). */
  lemma SplitThreeThenBranchPath(a: string, b: string, c: string, d: string, path: string)
    requires '/' !in a && '/' !in b && '/' !in c
    ensures Split(Join([a, b, c, d, path], "/"), '/') == [a, b, c] + Split(d, '/') + Split(path, '/')
  {
    JoinFive(a, b, c, d, path, "/");
    var t := d + "/" + path;
    assert Split(t, '/') == Split(d, '/') + Split(path, '/') by { PosixPath.SplitConcat(d, '/', path); }
    SplitThreeThenRest(a, b, c, t);
  }

  /** Three separator-free parts split off in front of whatever follows them. */
  lemma SplitThreeThenRest(a: string, b: string, c: string, t: string)
    requires '/' !in a && '/' !in b && '/' !in c
    ensures Split(a + "/" + (b + "/" + (c + "/" + t)), '/') == [a, b, c] + Split(t, '/')
  {
    var t2 := c + "/" + t;
    var t1 := b + "/" + t2;
    assert Split(t2, '/') == [c] + Split(t, '/') by { SplitAtFirst(c, '/', t); }
    assert Split(t1, '/') == [b] + Split(t2, '/') by { SplitAtFirst(b, '/', t2); }
    assert Split(a + "/" + t1, '/') == [a] + Split(t1, '/') by { SplitAtFirst(a, '/', t1); }
    assert [a] + ([b] + ([c] + Split(t, '/'))) == [a, b, c] + Split(t, '/');
  }

  lemma ImageLinkSingleLine(alt: string, image: string, target: string)
    requires '\n' !in alt && '\n' !in image && '\n' !in target
    ensures '\n' !in ImageLink(alt, image, target)
  {
  }

  lemma ButtonLinksSingleLine()
    ensures '\n' !in InstallButtonLink && '\n' !in SourceButtonLink
  {
    BadgePartsSingleLine();
    SourceLabelSingleLine();
    InstallLabelSingleLine();
    NotInFour(ShieldsBadge, "Source-grey.svg", BadgeStyle, "&logo=github", '\n');
    NotInFour(ShieldsBadge, "Install-success.svg", BadgeStyle, "&logo=tampermonkey", '\n');
  }

  /* The next four lemmas exist only to keep each literal fact in a small proof of its own:
     checked together in `ButtonLinksSingleLine`, the constants' characters make one proof
     obligation several times as costly. */
  lemma BadgePartsSingleLine()
    ensures '\n' !in ShieldsBadge && '\n' !in BadgeStyle
  {
  }

  lemma SourceLabelSingleLine()
    ensures '\n' !in "Source-grey.svg" && '\n' !in "&logo=github"
  {
  }

  lemma InstallLabelSingleLine()
    ensures '\n' !in "Install-success.svg" && '\n' !in "&logo=tampermonkey"
  {
  }

  lemma NotInFour(a: string, b: string, c: string, d: string, x: char)
    requires x !in a && x !in b && x !in c && x !in d
    ensures x !in a + b + c + d
  {
  }

  /** Two separator-free pieces, framed by separators, split into four pieces. */
  lemma FramedLines(a: string, b: string, c: char)
    requires c !in a && c !in b
    ensures Split([c] + a + [c] + b + [c], c) == ["", a, b, ""]
  {
    var tail := b + [c];
    assert Split(tail, c) == [b] + Split([], c) by {
      assert tail == b + [c] + [];
      SplitAtFirst(b, c, []);
    }
    var mid := a + [c] + tail;
    assert Split(mid, c) == [a] + Split(tail, c) by { SplitAtFirst(a, c, tail); }
    assert Split([c] + a + [c] + b + [c], c) == [""] + Split(mid, c) by {
      assert [c] + a + [c] + b + [c] == [] + [c] + mid;
      SplitAtFirst([], c, mid);
    }
  }

  /** The badges for a single-line path are one line per link, the Install link before the
      Source link. */
  lemma ButtonLinesSplit(path: string)
    requires '\n' !in path
    ensures var install := ImageLink("Install", InstallButtonLink, path + "?raw=1");
      var source := ImageLink("Source", SourceButtonLink, path);
      Split("\n" + install + "\n" + source + "\n", '\n') == ["", install, source, ""]
  {
    var install := ImageLink("Install", InstallButtonLink, path + "?raw=1");
    var source := ImageLink("Source", SourceButtonLink, path);
    ButtonLinksSingleLine();
    ImageLinkSingleLine("Install", InstallButtonLink, path + "?raw=1");
    ImageLinkSingleLine("Source", SourceButtonLink, path);
    FramedLines(install, source, '\n');
  }
}
