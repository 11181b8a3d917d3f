/** The repository-scope engine of internal/tui/components/section/section.go
    as pure functions: the whitespace-token surgery on queries, the
    composition of the query that is sent, the scope transitions and the
    views derived from the scope. The section's class (module Section)
    holds this state in fields and is proved against these functions.

    The origin and upstream identities come from git; here they are a
    `Remotes` value, fixed for the duration of a call. Template expansion
    of the search text is an input: `expanded` is the expanded text. */
module Scope {
  import opened Wrappers
  import opened Text
  import opened Git
  import RepoPicker

  /** Which repository the query is scoped to when no custom filter is set. */
  datatype FilterTarget = OriginTarget | UpstreamTarget | NoTarget

  /** The identities of the `origin` and `upstream` remotes, when they exist
      and their URLs parse. */
  datatype Remotes = Remotes(origin: Option<Identity>, upstream: Option<Identity>)

  /** The scope fields of a section: its raw search text, the target, the
      custom repository filter, whether `author:@me` is suppressed, and
      whether the query is filtered by a remote. */
  datatype ScopeState = ScopeState(
    searchValue: string,
    target: FilterTarget,
    customRepoFilter: string,
    authorFilterRemoved: bool,
    filteredByCurrentRemote: bool)

  const RepoPrefix := "repo:"
  const AuthorMe := "author:@me"

  predicate IsRepoToken(t: string) {
    HasPrefix(t, RepoPrefix)
  }

  predicate AllTokens(ts: seq<string>) {
    forall i :: 0 <= i < |ts| ==> IsToken(ts[i])
  }

  // ---------------------------------------------------------------------
  // Token surgery

  /** The tokens that do not start with `repo:`, in their order. */
  function WithoutRepoTokens(ts: seq<string>): (r: seq<string>)
    ensures forall t :: t in r <==> t in ts && !IsRepoToken(t)
    ensures |r| <= |ts|
  {
    if ts == [] then []
    else (if IsRepoToken(ts[0]) then [] else [ts[0]]) + WithoutRepoTokens(ts[1..])
  }

  /** The tokens other than `x`, in their order. */
  function WithoutToken(ts: seq<string>, x: string): (r: seq<string>)
    ensures forall t :: t in r <==> t in ts && t != x
    ensures |r| <= |ts|
  {
    if ts == [] then []
    else (if ts[0] == x then [] else [ts[0]]) + WithoutToken(ts[1..], x)
  }

  /** StripRepoFilterTokens: the text's tokens without the `repo:` ones,
      joined by single spaces. Its tokens are exactly those. */
  function StripRepoFilterTokens(s: string): (r: string)
    ensures Fields(r) == WithoutRepoTokens(Fields(s))
  {
    var kept := WithoutRepoTokens(Fields(s));
    FilteredTokens(Fields(s), AuthorMe);
    FieldsJoin(kept);
    Join(kept, " ")
  }

  /** The value of the first `repo:` token, if any. */
  function FirstRepoValue(ts: seq<string>): (r: Option<string>)
    ensures r.None? <==> forall i :: 0 <= i < |ts| ==> !IsRepoToken(ts[i])
    ensures r.Some? ==> exists i :: 0 <= i < |ts| && ts[i] == RepoPrefix + r.value
                                    && forall j :: 0 <= j < i ==> !IsRepoToken(ts[j])
  {
    if ts == [] then None
    else if IsRepoToken(ts[0]) then
      assert ts[0] == RepoPrefix + TrimPrefix(ts[0], RepoPrefix);
      Some(TrimPrefix(ts[0], RepoPrefix))
    else
      var r := FirstRepoValue(ts[1..]);
      assert forall i :: 1 <= i < |ts| ==> ts[i] == ts[1..][i - 1];
      if r.Some? then
        var i :| 0 <= i < |ts[1..]| && ts[1..][i] == RepoPrefix + r.value
                 && forall j :: 0 <= j < i ==> !IsRepoToken(ts[1..][j]);
        assert ts[i + 1] == RepoPrefix + r.value;
        r
      else
        r
  }

  /** getRepoFilterTokenValue: the value of the text's first `repo:` token. */
  function GetRepoFilterTokenValue(s: string): (r: Option<string>)
    ensures var ts := Fields(s);
      r.None? <==> forall i :: 0 <= i < |ts| ==> !IsRepoToken(ts[i])
    ensures var ts := Fields(s);
      r.Some? ==> exists i :: 0 <= i < |ts| && ts[i] == RepoPrefix + r.value
                              && forall j :: 0 <= j < i ==> !IsRepoToken(ts[j])
  {
    FirstRepoValueOfFields(s);
    FirstRepoValue(Fields(s))
  }

  /** No `repo:` value exactly when no token of the text is a `repo:` token. */
  lemma FirstRepoValueOfFields(s: string)
    ensures var ts := Fields(s);
      FirstRepoValue(ts).None? <==> forall i :: 0 <= i < |ts| ==> !IsRepoToken(ts[i])
  {
  }

  /** HasRepoNameInConfiguredFilter: whether the text has a `repo:` token. */
  predicate HasRepoToken(s: string): (b: bool)
    ensures b <==> exists i :: 0 <= i < |Fields(s)| && IsRepoToken(Fields(s)[i])
  {
    GetRepoFilterTokenValue(s).Some?
  }

  /** The tokens left after author suppression. */
  function AuthorTokens(removed: bool, ts: seq<string>): seq<string> {
    if removed then WithoutToken(ts, AuthorMe) else ts
  }

  /** applyAuthorFilter: the text itself when the author filter is kept;
      otherwise its tokens other than `author:@me`, joined by single spaces. */
  function ApplyAuthorFilter(removed: bool, s: string): (r: string)
    ensures !removed ==> r == s
    ensures Fields(r) == AuthorTokens(removed, Fields(s))
  {
    if !removed then s
    else
      var kept := WithoutToken(Fields(s), AuthorMe);
      FilteredTokens(Fields(s), AuthorMe);
      FieldsJoin(kept);
      Join(kept, " ")
  }

  /** The non-`repo:` tokens of a text that survive author suppression. */
  function Rest(removed: bool, s: string): seq<string> {
    AuthorTokens(removed, WithoutRepoTokens(Fields(s)))
  }

  /** applyRepoFilter: the text without its `repo:` tokens, led by
      `repo:<repo>` when `repo` is not empty, then author suppression. */
  function ApplyRepoFilter(removed: bool, s: string, repo: string): (r: string)
    ensures NoSpace(repo) ==>
      Fields(r) == (if repo == "" then [] else [RepoPrefix + repo]) + Rest(removed, s)
    ensures repo != "" ==>
      Fields(r) == AuthorTokens(removed, Fields(RepoPrefix + repo)) + Rest(removed, s)
  {
    var stripped := StripRepoFilterTokens(s);
    var result :=
      if repo == "" then stripped
      else if stripped == "" then RepoPrefix + repo
      else RepoPrefix + repo + " " + stripped;
    FieldsOfRepoFilter(repo, stripped);
    AuthorTokensOfRepoToken(removed, repo, Fields(stripped));
    WithoutTokenConcat(Fields(RepoPrefix + repo), Fields(stripped), AuthorMe);
    ApplyAuthorFilter(removed, result)
  }

  // ---------------------------------------------------------------------
  // Identities of the targets

  /** The identities, rendered `owner/name`, hold no whitespace. */
  predicate SpaceFree(rm: Remotes) {
    && (rm.origin.Some? ==> NoSpace(rm.origin.value.Repo()))
    && (rm.upstream.Some? ==> NoSpace(rm.upstream.value.Repo()))
  }

  /** The `owner/name` a target stands for, when its remote resolves. */
  function TargetRepo(target: FilterTarget, rm: Remotes): Option<string> {
    match target
    case OriginTarget => if rm.origin.Some? then Some(rm.origin.value.Repo()) else None
    case UpstreamTarget => if rm.upstream.Some? then Some(rm.upstream.value.Repo()) else None
    case NoTarget => None
  }

  /** The `owner/name` the automatic scoping puts in the query: the
      target's, where an unresolved upstream falls back to the origin. */
  function ScopedRepo(target: FilterTarget, rm: Remotes): Option<string> {
    match target
    case OriginTarget => TargetRepo(OriginTarget, rm)
    case UpstreamTarget =>
      if rm.upstream.Some? then TargetRepo(UpstreamTarget, rm) else TargetRepo(OriginTarget, rm)
    case NoTarget => None
  }

  /** hasManualRepoFilter: the text's first `repo:` token is not the one
      the current target would apply (always so without an origin). */
  function HasManualRepoFilter(s: string, target: FilterTarget, rm: Remotes): (r: bool)
    ensures var v := GetRepoFilterTokenValue(s);
      r <==> v.Some? && (rm.origin.None? || TargetRepo(target, rm) != Some(v.value))
  {
    match GetRepoFilterTokenValue(s)
    case None => false
    case Some(repoValue) =>
      if rm.origin.None? then true
      else if repoValue == rm.origin.value.Repo() && target == OriginTarget then false
      else if rm.upstream.Some? && repoValue == rm.upstream.value.Repo() && target == UpstreamTarget then false
      else true
  }

  // ---------------------------------------------------------------------
  // Query composition

  /** GetSearchValue on the expanded search text, in the source's order:
      a custom filter; no origin; a `repo:` token in the configured
      filters; a manual `repo:` token; the target's repository. */
  function GetSearchValue(st: ScopeState, filters: string, rm: Remotes, expanded: string): (r: string)
    ensures st.authorFilterRemoved ==> AuthorMe !in Fields(r)
    ensures !st.authorFilterRemoved && st.customRepoFilter != "" ==>
      HasPrefix(r, RepoPrefix + st.customRepoFilter)
    ensures !st.authorFilterRemoved && st.customRepoFilter == "" && !AutoScoped(st, filters, rm, expanded) ==>
      r == expanded
  {
    if st.customRepoFilter != "" then
      ApplyRepoFilter(st.authorFilterRemoved, expanded, st.customRepoFilter)
    else if rm.origin.None? then
      ApplyAuthorFilter(st.authorFilterRemoved, expanded)
    else if HasRepoToken(filters) then
      ApplyAuthorFilter(st.authorFilterRemoved, expanded)
    else if HasManualRepoFilter(expanded, st.target, rm) then
      ApplyAuthorFilter(st.authorFilterRemoved, expanded)
    else
      var stripped := StripRepoFilterTokens(expanded);
      var result :=
        match st.target
        case OriginTarget => RepoPrefix + rm.origin.value.Repo() + " " + stripped
        case UpstreamTarget =>
          var id := if rm.upstream.Some? then rm.upstream.value else rm.origin.value;
          RepoPrefix + id.Repo() + " " + stripped
        case NoTarget => stripped;
      ApplyAuthorFilter(st.authorFilterRemoved, result)
  }

  /** Whether the query is composed by the automatic scoping (the last
      case of GetSearchValue). */
  predicate AutoScoped(st: ScopeState, filters: string, rm: Remotes, expanded: string) {
    && st.customRepoFilter == ""
    && rm.origin.Some?
    && !HasRepoToken(filters)
    && !HasManualRepoFilter(expanded, st.target, rm)
  }

  // ---------------------------------------------------------------------
  // Initial state

  /** GetConfigFiltersWithCurrentRemoteAdded: the configured filters, led
      by the origin's `repo:` token when smart filtering is on, the origin
      resolves and the filters name no repository. */
  function ConfigFiltersWithCurrentRemoteAdded(filters: string, smartFiltering: bool, origin: Option<Identity>): (r: string)
    ensures r == filters <==> !smartFiltering || origin.None? || HasRepoToken(filters)
    ensures r != filters ==>
      HasPrefix(r, RepoPrefix + origin.value.Repo() + " ") && HasSuffix(r, " " + filters)
  {
    if !smartFiltering || origin.None? || HasRepoToken(filters) then filters
    else RepoPrefix + origin.value.Repo() + " " + filters
  }

  /** The scope fields NewModel sets. */
  function InitialScope(filters: string, smartFiltering: bool, rm: Remotes): (r: ScopeState)
    ensures r.customRepoFilter == "" && !r.authorFilterRemoved && r.target != UpstreamTarget
    ensures r.filteredByCurrentRemote <==> r.target == OriginTarget
    ensures r.target == OriginTarget <==> r.searchValue != filters
  {
    var searchValue := ConfigFiltersWithCurrentRemoteAdded(filters, smartFiltering, rm.origin);
    var target := if smartFiltering && searchValue != filters then OriginTarget else NoTarget;
    var filtered := searchValue != filters;
    if !smartFiltering then ScopeState(searchValue, NoTarget, "", false, false)
    else ScopeState(searchValue, target, "", false, filtered)
  }

  // ---------------------------------------------------------------------
  // Transitions

  /** ToggleFilterTarget: nothing when the configured filters name a
      repository; otherwise Origin to Upstream (to None without an
      upstream), Upstream to None, None to Origin, with the remote flag
      following the target. */
  function ToggleFilterTarget(st: ScopeState, filters: string, rm: Remotes): (r: ScopeState)
    ensures HasRepoToken(filters) ==> r == st
    ensures !HasRepoToken(filters) ==>
      && r.target != st.target
      && r == st.(target := r.target, filteredByCurrentRemote := r.target != NoTarget)
    ensures !HasRepoToken(filters) && st.target == OriginTarget ==>
      r.target == (if rm.upstream.Some? then UpstreamTarget else NoTarget)
    ensures !HasRepoToken(filters) && st.target == UpstreamTarget ==> r.target == NoTarget
    ensures !HasRepoToken(filters) && st.target == NoTarget ==> r.target == OriginTarget
  {
    if HasRepoToken(filters) then st
    else
      var next :=
        match st.target
        case OriginTarget => if rm.upstream.Some? then UpstreamTarget else NoTarget
        case UpstreamTarget => NoTarget
        case NoTarget => OriginTarget;
      st.(target := next, filteredByCurrentRemote := next != NoTarget)
  }

  /** ToggleAuthorFilter flips the author suppression and nothing else. */
  function ToggleAuthorFilter(st: ScopeState): (r: ScopeState)
    ensures r.authorFilterRemoved != st.authorFilterRemoved
    ensures r.(authorFilterRemoved := st.authorFilterRemoved) == st
  {
    st.(authorFilterRemoved := !st.authorFilterRemoved)
  }

  /** SetCustomRepoFilter: records the filter; a non-empty one also clears
      the target and marks the query as filtered. */
  function SetCustomRepoFilter(st: ScopeState, repo: string): (r: ScopeState)
    ensures r.customRepoFilter == repo
    ensures repo != "" ==> r.target == NoTarget && r.filteredByCurrentRemote
    ensures repo == "" ==> r == st.(customRepoFilter := "")
    ensures r.searchValue == st.searchValue && r.authorFilterRemoved == st.authorFilterRemoved
  {
    if repo != "" then st.(customRepoFilter := repo, target := NoTarget, filteredByCurrentRemote := true)
    else st.(customRepoFilter := repo)
  }

  /** ClearCustomRepoFilter empties the custom filter and nothing else. */
  function ClearCustomRepoFilter(st: ScopeState): (r: ScopeState)
    ensures r.customRepoFilter == "" && r.(customRepoFilter := st.customRepoFilter) == st
  {
    st.(customRepoFilter := "")
  }

  /** The classification SyncRepoFilterStateFromSearchValue and
      HandleRepoSelected share: empty means all repositories; the origin's
      `owner/name` (checked first) and then the upstream's select that
      target; anything else becomes the custom filter. */
  function ClassifyRepoValue(st: ScopeState, value: string, rm: Remotes): (r: ScopeState)
    ensures r.searchValue == st.searchValue && r.authorFilterRemoved == st.authorFilterRemoved
    ensures r.filteredByCurrentRemote <==> value != ""
    ensures r.customRepoFilter != "" <==>
      value != "" && TargetRepo(OriginTarget, rm) != Some(value) && TargetRepo(UpstreamTarget, rm) != Some(value)
    ensures r.customRepoFilter != "" ==> r.customRepoFilter == value && r.target == NoTarget
    ensures r.customRepoFilter == "" && value != "" ==> TargetRepo(r.target, rm) == Some(value)
    ensures TargetRepo(OriginTarget, rm) == Some(value) ==> r.target == OriginTarget
    ensures value == "" ==> r.customRepoFilter == "" && r.target == NoTarget
  {
    if value == "" then
      st.(customRepoFilter := "", target := NoTarget, filteredByCurrentRemote := false)
    else if rm.origin.Some? && value == rm.origin.value.Repo() then
      st.(customRepoFilter := "", target := OriginTarget, filteredByCurrentRemote := true)
    else if rm.upstream.Some? && value == rm.upstream.value.Repo() then
      st.(customRepoFilter := "", target := UpstreamTarget, filteredByCurrentRemote := true)
    else
      st.(customRepoFilter := value, target := NoTarget, filteredByCurrentRemote := true)
  }

  /** SyncRepoFilterStateFromSearchValue: classifies the first `repo:`
      token of the raw search text (none counts as empty). */
  function SyncRepoFilterState(st: ScopeState, rm: Remotes): (r: ScopeState)
    ensures r.searchValue == st.searchValue && r.authorFilterRemoved == st.authorFilterRemoved
    ensures GetCurrentRepoFilter(r, rm) == GetRepoFilterTokenValue(st.searchValue).GetOr("")
  {
    ClassifyRepoValue(st, GetRepoFilterTokenValue(st.searchValue).GetOr(""), rm)
  }

  /** HandleRepoSelected: classifies the picked value; whether it was typed
      in as a custom entry makes no difference. */
  function HandleRepoSelected(st: ScopeState, value: string, isCustom: bool, rm: Remotes): (r: ScopeState)
    ensures r.searchValue == st.searchValue && r.authorFilterRemoved == st.authorFilterRemoved
    ensures GetCurrentRepoFilter(r, rm) == value
    ensures GetFilterTargetLabel(r, rm) == (if value == "" then "all" else value)
  {
    ClassifyRepoValue(st, value, rm)
  }

  // ---------------------------------------------------------------------
  // Views

  /** getCurrentRepoFilter: the custom filter, else the target's
      `owner/name` when it resolves, else empty. */
  function GetCurrentRepoFilter(st: ScopeState, rm: Remotes): (r: string)
    ensures r == "" <==> st.customRepoFilter == "" && TargetRepo(st.target, rm).None?
    ensures r != "" ==> r == st.customRepoFilter || TargetRepo(st.target, rm) == Some(r)
  {
    if st.customRepoFilter != "" then st.customRepoFilter
    else TargetRepo(st.target, rm).GetOr("")
  }

  /** GetFilterTargetLabel: the custom filter, else the target's
      `owner/name`, falling back to the literal target name, or `all`. */
  function GetFilterTargetLabel(st: ScopeState, rm: Remotes): (r: string)
    ensures r != ""
    ensures GetCurrentRepoFilter(st, rm) != "" ==> r == GetCurrentRepoFilter(st, rm)
  {
    if st.customRepoFilter != "" then st.customRepoFilter
    else
      match st.target
      case OriginTarget => if rm.origin.Some? then rm.origin.value.Repo() else "origin"
      case UpstreamTarget => if rm.upstream.Some? then rm.upstream.value.Repo() else "upstream"
      case NoTarget => "all"
  }

  /** buildRepoPickerOptions: origin and upstream when they resolve, then
      the "all repositories" entry with the empty value. */
  function BuildRepoPickerOptions(rm: Remotes): (r: seq<RepoPicker.RepoOption>)
    ensures |r| == 1 + (if rm.origin.Some? then 1 else 0) + (if rm.upstream.Some? then 1 else 0)
    ensures r[|r| - 1].value == ""
    ensures forall i :: 0 <= i < |r| - 1 ==> r[i].value != ""
    ensures rm.origin.Some? ==> r[0].value == rm.origin.value.Repo()
    ensures rm.upstream.Some? ==> r[|r| - 2].value == rm.upstream.value.Repo()
  {
    var originOptions :=
      if rm.origin.Some? then
        var repo := rm.origin.value.Repo();
        [RepoPicker.RepoOption("Origin: " + repo, repo, "Your fork / current repo")]
      else [];
    var upstreamOptions :=
      if rm.upstream.Some? then
        var repo := rm.upstream.value.Repo();
        [RepoPicker.RepoOption("Upstream: " + repo, repo, "Parent repository")]
      else [];
    originOptions + upstreamOptions + [RepoPicker.RepoOption("All Repositories", "", "No repo filter")]
  }

  // ---------------------------------------------------------------------
  // Helper lemmas on tokens

  lemma {:induction false} WithoutRepoTokensConcat(a: seq<string>, b: seq<string>)
    ensures WithoutRepoTokens(a + b) == WithoutRepoTokens(a) + WithoutRepoTokens(b)
  {
    if a != [] {
      assert (a + b)[1..] == a[1..] + b;
      WithoutRepoTokensConcat(a[1..], b);
    } else {
      assert a + b == b;
    }
  }

  lemma {:induction false} WithoutTokenConcat(a: seq<string>, b: seq<string>, x: string)
    ensures WithoutToken(a + b, x) == WithoutToken(a, x) + WithoutToken(b, x)
  {
    if a != [] {
      assert (a + b)[1..] == a[1..] + b;
      WithoutTokenConcat(a[1..], b, x);
    } else {
      assert a + b == b;
    }
  }

  lemma {:induction false} WithoutRepoTokensNone(ts: seq<string>)
    requires forall i :: 0 <= i < |ts| ==> !IsRepoToken(ts[i])
    ensures WithoutRepoTokens(ts) == ts
  {
    if ts != [] {
      WithoutRepoTokensNone(ts[1..]);
      assert ts == [ts[0]] + ts[1..];
    }
  }

  lemma {:induction false} WithoutTokenAbsent(ts: seq<string>, x: string)
    requires x !in ts
    ensures WithoutToken(ts, x) == ts
  {
    if ts != [] {
      WithoutTokenAbsent(ts[1..], x);
      assert ts == [ts[0]] + ts[1..];
    }
  }

  /** Filtering keeps tokens tokens. */
  lemma FilteredTokens(ts: seq<string>, x: string)
    requires AllTokens(ts)
    ensures AllTokens(WithoutRepoTokens(ts)) && AllTokens(WithoutToken(ts, x))
  {
    var a, b := WithoutRepoTokens(ts), WithoutToken(ts, x);
    forall i | 0 <= i < |a| ensures IsToken(a[i]) {
      assert a[i] in ts;
    }
    forall i | 0 <= i < |b| ensures IsToken(b[i]) {
      assert b[i] in ts;
    }
  }

  /** A `repo:` token is never `author:@me`. */
  lemma RepoTokenNotAuthor(t: string)
    requires IsRepoToken(t)
    ensures t != AuthorMe
  {
    assert t[0] == 'r';
  }

  lemma AuthorTokensOfRepoToken(removed: bool, repo: string, ts: seq<string>)
    ensures AuthorTokens(removed, [RepoPrefix + repo] + ts) == [RepoPrefix + repo] + AuthorTokens(removed, ts)
  {
    var t := RepoPrefix + repo;
    assert IsRepoToken(t) by {
      assert t[..5] == RepoPrefix;
    }
    RepoTokenNotAuthor(t);
    WithoutTokenConcat([t], ts, AuthorMe);
  }

  /** The tokens of `repo:<repo> <rest>`. */
  lemma FieldsOfLeadingRepo(repo: string, rest: string)
    requires NoSpace(repo)
    ensures Fields(RepoPrefix + repo + " " + rest) == [RepoPrefix + repo] + Fields(rest)
  {
    var t := RepoPrefix + repo;
    assert IsToken(t) by {
      assert t[0] == 'r';
      assert forall i :: 0 <= i < |t| ==> t[i] == (if i < 5 then RepoPrefix[i] else repo[i - 5]);
    }
    FieldsSpaceConcat(t, rest);
    FieldsOfToken(t);
  }

  lemma FieldsOfRepoFilter(repo: string, stripped: string)
    ensures NoSpace(repo) ==>
      var result :=
        if repo == "" then stripped
        else if stripped == "" then RepoPrefix + repo
        else RepoPrefix + repo + " " + stripped;
      Fields(result) == (if repo == "" then [] else [RepoPrefix + repo]) + Fields(stripped)
    ensures repo != "" ==>
      var result := if stripped == "" then RepoPrefix + repo else RepoPrefix + repo + " " + stripped;
      Fields(result) == Fields(RepoPrefix + repo) + Fields(stripped)
  {
    if repo != "" && stripped != "" {
      FieldsSpaceConcat(RepoPrefix + repo, stripped);
    }
    if repo != "" && stripped == "" {
      assert Fields(stripped) == [];
    }
    if NoSpace(repo) && repo != "" {
      FieldsOfLeadingRepo(repo, stripped);
      if stripped == "" {
        assert RepoPrefix + repo + " " + stripped == RepoPrefix + repo + " ";
        FieldsOfLeadingRepo(repo, "");
        assert Fields(RepoPrefix + repo + " ") == [RepoPrefix + repo] by {
          assert RepoPrefix + repo + " " + "" == RepoPrefix + repo + " ";
        }
        FieldsOfToken(RepoPrefix + repo);
      }
    }
  }
}
