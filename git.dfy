/** Model of internal/git/git.go: the remote-URL parser, the short display
    name of a URL, and the line classification of `git diff --name-status`
    output. Running git (opening the repository, listing remotes, running
    the diff command) is not modelled: the command's output is an input. */
module Git {
  import opened Wrappers
  import opened Text

  /** The owner and repository name of a hosted repository. */
  datatype Identity = Identity(owner: string, name: string) {
    /** The `owner/name` form used in `repo:` filter tokens. */
    function Repo(): string {
      owner + "/" + name
    }
  }

  datatype UrlForm = Ssh | Https

  /** The four error conditions of the parser; the Go code distinguishes
      them by message text ("unsupported URL format", "missing colon
      separator", "missing path", "expected owner/repo"). */
  datatype ParseError =
    | UnsupportedFormat
    | MissingColonSeparator
    | MissingPath
    | ExpectedOwnerRepo(form: UrlForm)

  /** One path segment of an `owner/name` path. */
  predicate IsSegment(s: string) {
    s != [] && '/' !in s
  }

  const SshPrefix := "git@"
  const HttpsPrefix := "https://"
  const HttpPrefix := "http://"
  const GitSuffix := ".git"

  /** The URL after the trimming every form shares: surrounding whitespace,
      then one trailing slash. */
  function NormalizedUrl(remoteUrl: string): string {
    TrimSuffix(TrimSpace(remoteUrl), "/")
  }

  /** The text after the `https://` or `http://` scheme. */
  function AfterScheme(url: string): string {
    if HasPrefix(url, HttpsPrefix) then TrimPrefix(url, HttpsPrefix) else TrimPrefix(url, HttpPrefix)
  }

  /** The final check of both forms: the path must split on `/` into
      exactly two non-empty parts. */
  function OwnerRepo(path: string, form: UrlForm): (r: Result<Identity, ParseError>)
    ensures r.Ok? ==> IsSegment(r.value.owner) && IsSegment(r.value.name) && path == r.value.Repo()
    ensures r.Err? ==> r.error == ExpectedOwnerRepo(form)
  {
    var parts := Split(path, '/');
    if |parts| != 2 || parts[0] == "" || parts[1] == "" then
      Err(ExpectedOwnerRepo(form))
    else
      SplitJoin(path, '/');
      Ok(Identity(parts[0], parts[1]))
  }

  /** A path of exactly one `/`, neither first nor last. */
  predicate SingleSlashPath(path: string) {
    path != [] && multiset(path)['/'] == 1 && path[0] != '/' && path[|path| - 1] != '/'
  }

  /** The SSH branch, on a normalized URL that starts with `git@`: the path
      is what follows the first colon, without `.git` and a leading `/`. */
  function ParseSshUrlPath(url: string): (r: Result<Identity, ParseError>)
    ensures r == Err(MissingColonSeparator) <==> ':' !in url
    ensures r.Err? && r != Err(MissingColonSeparator) ==> r == Err(ExpectedOwnerRepo(Ssh))
  {
    var colonIdx := Index(url, ':');
    if colonIdx == -1 then
      Err(MissingColonSeparator)
    else
      var path := TrimPrefix(TrimSuffix(url[colonIdx + 1..], GitSuffix), "/");
      OwnerRepo(path, Ssh)
  }

  /** The HTTP(S) branch, on a normalized URL with either scheme: the path
      is what follows the first `/` after the host, without `.git` and then
      without one trailing `/`. */
  function ParseHttpUrlPath(url: string): (r: Result<Identity, ParseError>)
    ensures r == Err(MissingPath) <==> '/' !in AfterScheme(url)
    ensures r.Err? && r != Err(MissingPath) ==> r == Err(ExpectedOwnerRepo(Https))
  {
    var rest := AfterScheme(url);
    var slashIdx := Index(rest, '/');
    if slashIdx == -1 then
      Err(MissingPath)
    else
      var path := TrimSuffix(TrimSuffix(rest[slashIdx + 1..], GitSuffix), "/");
      OwnerRepo(path, Https)
  }

  /** ParseGitHubRepoFromUrl: SSH (`git@host:owner/repo[.git]`) and
      HTTP(S) (`scheme://host/owner/repo[.git]`) URLs of any host. */
  function ParseGitHubRepoFromUrl(remoteUrl: string): (r: Result<Identity, ParseError>)
    ensures r.Ok? ==> IsSegment(r.value.owner) && IsSegment(r.value.name)
  {
    var url := NormalizedUrl(remoteUrl);
    if HasPrefix(url, SshPrefix) then
      ParseSshUrlPath(url)
    else if HasPrefix(url, HttpsPrefix) || HasPrefix(url, HttpPrefix) then
      ParseHttpUrlPath(url)
    else
      Err(UnsupportedFormat)
  }

  const GitHubHttpsPrefix := "https://github.com/"

  /** GetRepoShortName: drops a leading `https://github.com/` and a trailing
      `.git`, each independently of the other. */
  function GetRepoShortName(url: string): (r: string)
    ensures !HasPrefix(url, GitHubHttpsPrefix) ==> r == TrimSuffix(url, GitSuffix)
    ensures !HasSuffix(url, GitSuffix) ==> r == TrimPrefix(url, GitHubHttpsPrefix)
    ensures HasPrefix(url, GitHubHttpsPrefix) && HasSuffix(url, GitSuffix) ==>
      url == GitHubHttpsPrefix + r + GitSuffix
  {
    var noHost := TrimPrefix(url, GitHubHttpsPrefix);
    assert HasPrefix(url, GitHubHttpsPrefix) && HasSuffix(url, GitSuffix) ==> HasSuffix(noHost, GitSuffix) by {
      if HasPrefix(url, GitHubHttpsPrefix) && HasSuffix(url, GitSuffix) {
        // The prefix ends in `com/`, which holds no `.`: the suffix cannot overlap it.
        assert url[|url| - |GitSuffix|..][0] == '.';
        assert |url| >= |GitHubHttpsPrefix| + |GitSuffix|;
        assert noHost[|noHost| - 4..] == url[|url| - 4..];
      }
    }
    assert HasSuffix(noHost, GitSuffix) ==> HasSuffix(url, GitSuffix) by {
      if HasSuffix(noHost, GitSuffix) {
        assert url[|url| - |noHost|..] == noHost;
        assert url[|url| - 4..] == noHost[|noHost| - 4..];
      }
    }
    TrimSuffix(noHost, GitSuffix)
  }

  // ---------------------------------------------------------------------
  // Lemmas: the error taxonomy

  /** Each error of the parser arises exactly under its own condition on
      the normalized URL; anything else is a success or, when the path is
      not `owner/name`, an "expected owner/repo" error of the matching form. */
  lemma ParseErrorTaxonomy(remoteUrl: string)
    ensures var url := NormalizedUrl(remoteUrl); var r := ParseGitHubRepoFromUrl(remoteUrl);
      && (r == Err(UnsupportedFormat)
          <==> !HasPrefix(url, SshPrefix) && !HasPrefix(url, HttpsPrefix) && !HasPrefix(url, HttpPrefix))
      && (r == Err(MissingColonSeparator) <==> HasPrefix(url, SshPrefix) && ':' !in url)
      && (r == Err(MissingPath)
          <==> !HasPrefix(url, SshPrefix) && (HasPrefix(url, HttpsPrefix) || HasPrefix(url, HttpPrefix))
               && '/' !in AfterScheme(url))
      && (r == Err(ExpectedOwnerRepo(Ssh)) ==> HasPrefix(url, SshPrefix))
      && (r == Err(ExpectedOwnerRepo(Https)) ==> !HasPrefix(url, SshPrefix))
  {
  }

  // ---------------------------------------------------------------------
  // Lemmas: the accepted shapes

  /** A name that does not end in `.git` still does not after a `/`. */
  lemma NoGitSuffixAfterSlash(prefix: string, name: string)
    requires !HasSuffix(name, GitSuffix)
    ensures !HasSuffix(prefix + "/" + name, GitSuffix)
  {
    var s := prefix + "/" + name;
    if |s| >= 4 {
      if |name| >= 4 {
        assert s[|s| - 4..] == name[|name| - 4..];
      } else {
        assert s[|s| - 4..][3 - |name|] == '/';
      }
    }
  }

  /** A URL whose ends are neither whitespace nor `/` is already normal. */
  lemma NormalizedUrlPadded(pad1: string, url: string, pad2: string)
    requires AllSpace(pad1) && AllSpace(pad2)
    requires url != [] && !IsSpace(url[0]) && !IsSpace(url[|url| - 1])
    ensures NormalizedUrl(pad1 + url + pad2) == TrimSuffix(url, "/")
  {
    TrimSpacePadded(pad1, url, pad2);
  }

  /** Normalizing removes the surrounding whitespace and one trailing `/`. */
  lemma NormalizedSlashedUrl(pad1: string, url: string, slash: bool, pad2: string)
    requires AllSpace(pad1) && AllSpace(pad2)
    requires url != [] && !IsSpace(url[0]) && !IsSpace(url[|url| - 1]) && url[|url| - 1] != '/'
    ensures NormalizedUrl(pad1 + (if slash then url + "/" else url) + pad2) == url
  {
    var u := if slash then url + "/" else url;
    assert u[0] == url[0];
    NormalizedUrlPadded(pad1, u, pad2);
    if slash {
      assert HasSuffix(u, "/");
      assert u[..|u| - 1] == url;
    }
  }

  /** A URL whose ends are neither whitespace nor `/` is already normal. */
  lemma NormalUrl(url: string)
    requires url != [] && !IsSpace(url[0]) && !IsSpace(url[|url| - 1]) && url[|url| - 1] != '/'
    ensures NormalizedUrl(url) == url
  {
    assert "" + url + "" == url;
    TrimSpacePadded("", url, "");
  }

  /** The first colon of `git@host:tail` is the one after the host. */
  lemma SshPathAfterHost(host: string, tail: string)
    requires ':' !in host
    ensures ParseSshUrlPath(SshPrefix + host + ":" + tail)
            == OwnerRepo(TrimPrefix(TrimSuffix(tail, GitSuffix), "/"), Ssh)
  {
    var h := SshPrefix + host;
    var u := h + ":" + tail;
    assert u == h + [':'] + tail;
    assert u[|h|] == ':';
    assert ':' !in h;
    var i := Index(u, ':');
    assert u[..|h|] == h;
    assert i == |h|;
    assert u[i + 1..] == tail;
  }

  /** The first slash of `host/tail` after the scheme is the one after the host. */
  lemma HttpPathAfterHost(host: string, tail: string)
    requires '/' !in host
    ensures Index(host + "/" + tail, '/') == |host|
    ensures (host + "/" + tail)[|host| + 1..] == tail
  {
    var u := host + "/" + tail;
    assert u[|host|] == '/';
    assert u[..|host|] == host;
  }

  /** A path made of two segments yields their identity. */
  lemma OwnerRepoOf(owner: string, name: string, form: UrlForm)
    requires IsSegment(owner) && IsSegment(name)
    ensures OwnerRepo(owner + "/" + name, form) == Ok(Identity(owner, name))
  {
    SplitTwo(owner, name, '/');
  }

  /** The final check accepts a path exactly when it holds one `/`, at
      neither end. */
  lemma OwnerRepoShape(path: string, form: UrlForm)
    ensures OwnerRepo(path, form).Ok? <==> SingleSlashPath(path)
  {
    var r := OwnerRepo(path, form);
    if r.Ok? {
      var o, n := r.value.owner, r.value.name;
      assert path == o + "/" + n;
      assert multiset(path) == multiset(o) + multiset("/") + multiset(n);
      assert path[0] == o[0];
      assert path[|path| - 1] == n[|n| - 1];
    }
    if SingleSlashPath(path) {
      var i := Index(path, '/');
      var o, n := path[..i], path[i + 1..];
      assert path == o + "/" + n;
      assert multiset(path) == multiset(o) + multiset("/") + multiset(n);
      assert '/' !in n by {
        assert multiset(n)['/'] == 0;
      }
      assert o != [] && n != [];
      OwnerRepoOf(o, n, form);
    }
  }

  /** A normal URL that starts with `git@` takes the SSH branch. */
  lemma ParseTakesSshBranch(url: string)
    requires NormalizedUrl(url) == url && HasPrefix(url, SshPrefix)
    ensures ParseGitHubRepoFromUrl(url) == ParseSshUrlPath(url)
  {
  }

  /** A normal URL that starts with `https://` or `http://` takes the HTTP(S) branch. */
  lemma ParseTakesHttpBranch(url: string)
    requires NormalizedUrl(url) == url && !HasPrefix(url, SshPrefix)
    requires HasPrefix(url, HttpsPrefix) || HasPrefix(url, HttpPrefix)
    ensures ParseGitHubRepoFromUrl(url) == ParseHttpUrlPath(url)
  {
  }

  /** The SSH path `[/]owner/name[.git]` reduces to `owner/name`. */
  lemma SshPathCore(lead: string, owner: string, name: string, suffix: string)
    requires lead == "" || lead == "/"
    requires suffix == "" || suffix == GitSuffix
    requires IsSegment(owner) && IsSegment(name) && !HasSuffix(name, GitSuffix)
    ensures TrimPrefix(TrimSuffix(lead + owner + "/" + name + suffix, GitSuffix), "/") == owner + "/" + name
  {
    var core := lead + owner + "/" + name;
    if suffix == "" {
      NoGitSuffixAfterSlash(lead + owner, name);
      assert core + suffix == core;
    }
    assert TrimSuffix(core + suffix, GitSuffix) == core;
    if lead == "/" {
      assert core == "/" + (owner + "/" + name);
    } else {
      assert core == owner + "/" + name;
      assert !HasPrefix(core, "/") by {
        assert core[0] == owner[0];
      }
    }
  }

  /** Every SSH URL `git@host:[/]owner/name[.git]` parses to `(owner, name)`,
      whatever the host, as long as the host holds no colon. */
  lemma ParseSshUrl(host: string, lead: string, owner: string, name: string, suffix: string)
    requires ':' !in host
    requires lead == "" || lead == "/"
    requires suffix == "" || suffix == GitSuffix
    requires IsSegment(owner) && IsSegment(name) && NoSpace(name) && !HasSuffix(name, GitSuffix)
    ensures ParseGitHubRepoFromUrl(SshPrefix + host + ":" + lead + owner + "/" + name + suffix)
            == Ok(Identity(owner, name))
  {
    var tail := lead + owner + "/" + name + suffix;
    var u := SshPrefix + host + ":" + tail;
    assert SshPrefix + host + ":" + lead + owner + "/" + name + suffix == u;
    assert ParseGitHubRepoFromUrl(u) == ParseSshUrlPath(u) by {
      assert HasPrefix(u, SshPrefix) by {
        assert u[..4] == SshPrefix;
      }
      assert u[|u| - 1] == (if suffix == "" then name[|name| - 1] else 't');
      NormalUrl(u);
      ParseTakesSshBranch(u);
    }
    assert ParseSshUrlPath(u) == OwnerRepo(owner + "/" + name, Ssh) by {
      SshPathAfterHost(host, tail);
      SshPathCore(lead, owner, name, suffix);
    }
    OwnerRepoOf(owner, name, Ssh);
  }

  /** The HTTP path `owner/name[.git]` reduces to `owner/name`. */
  lemma HttpPathCore(owner: string, name: string, kept: string)
    requires kept == "" || kept == GitSuffix
    requires IsSegment(owner) && IsSegment(name) && !HasSuffix(name, GitSuffix)
    ensures TrimSuffix(TrimSuffix(owner + "/" + name + kept, GitSuffix), "/") == owner + "/" + name
  {
    var core := owner + "/" + name;
    if kept == "" {
      NoGitSuffixAfterSlash(owner, name);
      assert core + kept == core;
    }
    assert TrimSuffix(core + kept, GitSuffix) == core;
    assert core[|core| - 1] == name[|name| - 1];
  }

  /** The parser looks at its input only through the normalized URL. */
  lemma ParseOfNormalized(a: string, b: string)
    requires NormalizedUrl(a) == NormalizedUrl(b)
    ensures ParseGitHubRepoFromUrl(a) == ParseGitHubRepoFromUrl(b)
  {
  }

  /** Either scheme is recognised as such, and not as SSH. */
  lemma AfterSchemeOf(scheme: string, rest: string)
    requires scheme == HttpsPrefix || scheme == HttpPrefix
    ensures !HasPrefix(scheme + rest, SshPrefix)
    ensures HasPrefix(scheme + rest, HttpsPrefix) || HasPrefix(scheme + rest, HttpPrefix)
    ensures AfterScheme(scheme + rest) == rest
  {
    var url := scheme + rest;
    assert url[..|scheme|] == scheme;
    assert url[1] == 't';
    if scheme == HttpPrefix {
      assert url[4] == ':';
    }
  }

  /** The HTTP(S) branch checks the path after the first `/` of the host. */
  lemma HttpPathOf(url: string, host: string, path: string)
    requires AfterScheme(url) == host + "/" + path && '/' !in host
    ensures ParseHttpUrlPath(url) == OwnerRepo(TrimSuffix(TrimSuffix(path, GitSuffix), "/"), Https)
  {
    HttpPathAfterHost(host, path);
  }

  /** Surrounding whitespace and one trailing `/` do not change the parse. */
  lemma ParseOfPadded(full: string, pad1: string, url: string, slash: bool, pad2: string)
    requires AllSpace(pad1) && AllSpace(pad2)
    requires url != [] && !IsSpace(url[0]) && !IsSpace(url[|url| - 1]) && url[|url| - 1] != '/'
    requires full == pad1 + (if slash then url + "/" else url) + pad2
    ensures ParseGitHubRepoFromUrl(full) == ParseGitHubRepoFromUrl(url)
  {
    NormalizedSlashedUrl(pad1, url, slash, pad2);
    NormalUrl(url);
    ParseOfNormalized(full, url);
  }

  /** A normal HTTP(S) URL `scheme://host/owner/name[.git]` parses to
      `(owner, name)`. */
  lemma ParseNormalHttpUrl(scheme: string, host: string, owner: string, name: string, kept: string)
    requires scheme == HttpsPrefix || scheme == HttpPrefix
    requires '/' !in host
    requires kept == "" || kept == GitSuffix
    requires IsSegment(owner) && IsSegment(name) && NoSpace(name) && !HasSuffix(name, GitSuffix)
    ensures ParseGitHubRepoFromUrl(scheme + host + "/" + owner + "/" + name + kept) == Ok(Identity(owner, name))
  {
    var path := owner + "/" + name + kept;
    var url := scheme + (host + "/" + path);
    assert scheme + host + "/" + owner + "/" + name + kept == url;
    assert NormalizedUrl(url) == url by {
      assert url[0] == 'h';
      assert url[|url| - 1] == (if kept == "" then name[|name| - 1] else 't');
      NormalUrl(url);
    }
    AfterSchemeOf(scheme, host + "/" + path);
    ParseTakesHttpBranch(url);
    HttpPathOf(url, host, path);
    HttpPathCore(owner, name, kept);
    OwnerRepoOf(owner, name, Https);
  }

  /** An HTTP(S) URL whose normal form is `scheme://host/path` is accepted
      exactly when the path, without `.git` and then without one trailing
      `/`, is `owner/name`; that is the identity returned. */
  lemma HttpUrlAccepted(remoteUrl: string, scheme: string, host: string, path: string)
    requires scheme == HttpsPrefix || scheme == HttpPrefix
    requires '/' !in host
    requires NormalizedUrl(remoteUrl) == scheme + host + "/" + path
    ensures var r := ParseGitHubRepoFromUrl(remoteUrl); var p := TrimSuffix(TrimSuffix(path, GitSuffix), "/");
      && (r.Ok? <==> SingleSlashPath(p))
      && (r.Ok? ==> r.value.Repo() == p)
      && (r.Err? ==> r.error == ExpectedOwnerRepo(Https))
  {
    var url := NormalizedUrl(remoteUrl);
    assert url == scheme + (host + "/" + path);
    AfterSchemeOf(scheme, host + "/" + path);
    assert ParseGitHubRepoFromUrl(remoteUrl) == ParseHttpUrlPath(url);
    HttpPathOf(url, host, path);
    OwnerRepoShape(TrimSuffix(TrimSuffix(path, GitSuffix), "/"), Https);
  }

  /** An SSH URL whose normal form is `git@host:tail` is accepted exactly
      when the tail, without `.git` and then without one leading `/`, is
      `owner/name`; that is the identity returned. */
  lemma SshUrlAccepted(remoteUrl: string, host: string, tail: string)
    requires ':' !in host
    requires NormalizedUrl(remoteUrl) == SshPrefix + host + ":" + tail
    ensures var r := ParseGitHubRepoFromUrl(remoteUrl); var p := TrimPrefix(TrimSuffix(tail, GitSuffix), "/");
      && (r.Ok? <==> SingleSlashPath(p))
      && (r.Ok? ==> r.value.Repo() == p)
      && (r.Err? ==> r.error == ExpectedOwnerRepo(Ssh))
  {
    var url := NormalizedUrl(remoteUrl);
    assert HasPrefix(url, SshPrefix) by {
      assert url[..4] == SshPrefix;
    }
    assert ParseGitHubRepoFromUrl(remoteUrl) == ParseSshUrlPath(url);
    SshPathAfterHost(host, tail);
    OwnerRepoShape(TrimPrefix(TrimSuffix(tail, GitSuffix), "/"), Ssh);
  }

  /** Every HTTP(S) URL `scheme://host/owner/name` with an optional `.git`
      and an optional trailing `/`, surrounded by any whitespace, parses to
      `(owner, name)`, whatever the host. */
  lemma ParseHttpUrl(pad1: string, scheme: string, host: string, owner: string, name: string,
                     suffix: string, pad2: string)
    requires AllSpace(pad1) && AllSpace(pad2)
    requires scheme == HttpsPrefix || scheme == HttpPrefix
    requires '/' !in host
    requires suffix == "" || suffix == "/" || suffix == GitSuffix || suffix == GitSuffix + "/"
    requires IsSegment(owner) && IsSegment(name) && NoSpace(name) && !HasSuffix(name, GitSuffix)
    ensures ParseGitHubRepoFromUrl(pad1 + (scheme + host + "/" + owner + "/" + name + suffix) + pad2)
            == Ok(Identity(owner, name))
  {
    var slash := suffix == "/" || suffix == GitSuffix + "/";
    var kept := if suffix == "" || suffix == "/" then "" else GitSuffix;
    var core := scheme + host + "/" + owner + "/" + name;
    var url := core + kept;
    assert core + suffix == (if slash then url + "/" else url);
    assert url[0] == 'h';
    assert url[|url| - 1] == (if kept == "" then name[|name| - 1] else 't');
    ParseOfPadded(pad1 + (core + suffix) + pad2, pad1, url, slash, pad2);
    ParseNormalHttpUrl(scheme, host, owner, name, kept);
  }

  /** The short name of a github.com HTTPS URL is its `owner/name` path. */
  lemma ShortNameOfGitHubUrl(owner: string, name: string, suffix: string)
    requires suffix == "" || suffix == GitSuffix
    requires '/' !in name && !HasSuffix(name, GitSuffix)
    ensures GetRepoShortName(GitHubHttpsPrefix + owner + "/" + name + suffix) == owner + "/" + name
  {
    var core := owner + "/" + name;
    var url := GitHubHttpsPrefix + owner + "/" + name + suffix;
    assert url == GitHubHttpsPrefix + (owner + "/" + name + suffix);
    assert TrimPrefix(url, GitHubHttpsPrefix) == core + suffix;
    if suffix == "" {
      NoGitSuffixAfterSlash(owner, name);
      assert core + suffix == core;
    }
  }

  /** On a github.com HTTPS URL the short name is the `owner/name` the
      parser finds. */
  lemma ShortNameAgreesWithParse(owner: string, name: string, suffix: string)
    requires suffix == "" || suffix == GitSuffix
    requires IsSegment(owner) && IsSegment(name) && NoSpace(name) && !HasSuffix(name, GitSuffix)
    ensures var url := GitHubHttpsPrefix + owner + "/" + name + suffix;
      && ParseGitHubRepoFromUrl(url) == Ok(Identity(owner, name))
      && GetRepoShortName(url) == Identity(owner, name).Repo()
  {
    var url := GitHubHttpsPrefix + owner + "/" + name + suffix;
    assert ParseGitHubRepoFromUrl(url) == Ok(Identity(owner, name)) by {
      assert url == "" + (HttpsPrefix + "github.com" + "/" + owner + "/" + name + suffix) + "";
      ParseHttpUrl("", HttpsPrefix, "github.com", owner, name, suffix, "");
    }
    ShortNameOfGitHubUrl(owner, name, suffix);
  }

  // ---------------------------------------------------------------------
  // The unstaged status of a working tree

  /** The files of `git diff HEAD --name-status`, by change. */
  datatype NameStatus = NameStatus(added: seq<string>, removed: seq<string>, modified: seq<string>)

  /** A line of the diff output that reports `file` under change `code`:
      at least two fields, the first starting with `code`. */
  predicate ReportsFile(line: string, code: char, file: string) {
    var fields := Fields(line);
    |fields| >= 2 && fields[0][0] == code && fields[1] == file
  }

  /** The files the lines report under `code`, in line order. */
  function FilesWithStatus(lines: seq<string>, code: char): (r: seq<string>)
    ensures |r| <= |lines|
    ensures forall i :: 0 <= i < |r| ==> IsToken(r[i])
  {
    if lines == [] then []
    else
      var last := lines[|lines| - 1];
      var fields := Fields(last);
      FilesWithStatus(lines[..|lines| - 1], code)
        + (if |fields| >= 2 && fields[0][0] == code then [fields[1]] else [])
  }

  /** The status is read one line at a time: the files of a longer output
      extend those of its first part. */
  lemma {:induction false} FilesWithStatusConcat(a: seq<string>, b: seq<string>, code: char)
    ensures FilesWithStatus(a + b, code) == FilesWithStatus(a, code) + FilesWithStatus(b, code)
    decreases |b|
  {
    if b == [] {
      assert a + b == a;
    } else {
      var b' := b[..|b| - 1];
      assert (a + b)[..|a + b| - 1] == a + b';
      assert (a + b)[|a + b| - 1] == b[|b| - 1];
      FilesWithStatusConcat(a, b', code);
    }
  }

  /** A file is listed under `code` exactly when some line reports it so. */
  lemma {:induction false} FilesWithStatusMember(lines: seq<string>, code: char, file: string)
    ensures file in FilesWithStatus(lines, code)
            <==> exists i :: 0 <= i < |lines| && ReportsFile(lines[i], code, file)
  {
    if lines != [] {
      var init := lines[..|lines| - 1];
      FilesWithStatusMember(init, code, file);
      if exists i :: 0 <= i < |init| && ReportsFile(init[i], code, file) {
        var i :| 0 <= i < |init| && ReportsFile(init[i], code, file);
        assert lines[i] == init[i];
      }
      if exists i :: 0 <= i < |lines| && ReportsFile(lines[i], code, file) {
        var i :| 0 <= i < |lines| && ReportsFile(lines[i], code, file);
        if i < |init| {
          assert init[i] == lines[i];
        }
      }
    }
  }

  /** A line reports at most one change, so no line is counted twice. */
  lemma {:induction false} FilesWithStatusCount(lines: seq<string>)
    ensures |FilesWithStatus(lines, 'A')| + |FilesWithStatus(lines, 'D')| + |FilesWithStatus(lines, 'M')|
            <= |lines|
  {
    if lines != [] {
      FilesWithStatusCount(lines[..|lines| - 1]);
    }
  }

  /** One more line extends the files of each change by what it reports. */
  lemma FilesWithStatusStep(lines: seq<string>, i: nat, code: char)
    requires i < |lines|
    ensures var fields := Fields(lines[i]);
      FilesWithStatus(lines[..i + 1], code)
        == FilesWithStatus(lines[..i], code) + (if |fields| >= 2 && fields[0][0] == code then [fields[1]] else [])
  {
    assert lines[..i + 1][..i] == lines[..i];
  }

  /** getUnstagedStatus on the standard output of the diff command: each
      line split into fields; lines of fewer than two fields are skipped;
      `A`, `D` and `M` in the first field's first character sort the
      second field into added, removed and modified. */
  method GetUnstagedStatus(stdout: string) returns (status: NameStatus)
    ensures status.added == FilesWithStatus(Split(stdout, '\n'), 'A')
    ensures status.removed == FilesWithStatus(Split(stdout, '\n'), 'D')
    ensures status.modified == FilesWithStatus(Split(stdout, '\n'), 'M')
  {
    var lines := Split(stdout, '\n');
    status := NameStatus([], [], []);
    var i := 0;
    while i < |lines|
      invariant 0 <= i <= |lines|
      invariant status.added == FilesWithStatus(lines[..i], 'A')
      invariant status.removed == FilesWithStatus(lines[..i], 'D')
      invariant status.modified == FilesWithStatus(lines[..i], 'M')
    {
      FilesWithStatusStep(lines, i, 'A');
      FilesWithStatusStep(lines, i, 'D');
      FilesWithStatusStep(lines, i, 'M');
      var fields := Fields(lines[i]);
      if |fields| >= 2 {
        var code := fields[0][0];
        if code == 'A' {
          status := status.(added := status.added + [fields[1]]);
        } else if code == 'D' {
          status := status.(removed := status.removed + [fields[1]]);
        } else if code == 'M' {
          status := status.(modified := status.modified + [fields[1]]);
        }
      }
      i := i + 1;
    }
    assert lines[..i] == lines;
  }
}
