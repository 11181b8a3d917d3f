/** The scope part of a section's BaseModel: the fields the source assigns
    in place, the loops over whitespace tokens it runs, and the methods
    that move the scope state, each proved against the pure functions of
    module Scope. The origin and upstream identities, read from git by the
    source, are passed in as `rm`; the template expansion of the search
    text is passed in as `expanded`. */
module Section {
  import opened Wrappers
  import opened Text
  import opened Git
  import Scope
  import RepoPicker

  /** The first `repo:` token of `ts` is at `i`. */
  lemma {:induction false} FirstRepoValueAt(ts: seq<string>, i: int)
    requires 0 <= i < |ts| && Scope.IsRepoToken(ts[i])
    requires forall j :: 0 <= j < i ==> !Scope.IsRepoToken(ts[j])
    ensures Scope.FirstRepoValue(ts) == Some(TrimPrefix(ts[i], Scope.RepoPrefix))
    decreases i
  {
    if i > 0 {
      assert ts[1..][i - 1] == ts[i];
      FirstRepoValueAt(ts[1..], i - 1);
    }
  }

  /** One more token extends the kept tokens by itself unless it is a
      `repo:` token. */
  lemma WithoutRepoTokensStep(ts: seq<string>, i: nat)
    requires i < |ts|
    ensures Scope.WithoutRepoTokens(ts[..i + 1])
            == Scope.WithoutRepoTokens(ts[..i]) + (if Scope.IsRepoToken(ts[i]) then [] else [ts[i]])
  {
    assert ts[..i + 1] == ts[..i] + [ts[i]];
    Scope.WithoutRepoTokensConcat(ts[..i], [ts[i]]);
    assert [ts[i]][1..] == [];
  }

  /** StripRepoFilterTokens: collects the tokens that do not start with
      `repo:` and joins them by single spaces. */
  method StripRepoFilterTokens(searchValue: string) returns (r: string)
    ensures r == Scope.StripRepoFilterTokens(searchValue)
  {
    var tokens := Fields(searchValue);
    var kept: seq<string> := [];
    for i := 0 to |tokens|
      invariant kept == Scope.WithoutRepoTokens(tokens[..i])
    {
      WithoutRepoTokensStep(tokens, i);
      if !HasPrefix(tokens[i], Scope.RepoPrefix) {
        kept := kept + [tokens[i]];
      }
    }
    assert tokens[..|tokens|] == tokens;
    r := Join(kept, " ");
  }

  /** getRepoFilterTokenValue: the value of the first `repo:` token, and
      whether there is one. */
  method GetRepoFilterTokenValue(searchValue: string) returns (value: string, ok: bool)
    ensures ok == Scope.HasRepoToken(searchValue)
    ensures value == Scope.GetRepoFilterTokenValue(searchValue).GetOr("")
  {
    var tokens := Fields(searchValue);
    for i := 0 to |tokens|
      invariant forall j :: 0 <= j < i ==> !Scope.IsRepoToken(tokens[j])
    {
      if HasPrefix(tokens[i], Scope.RepoPrefix) {
        FirstRepoValueAt(tokens, i);
        return TrimPrefix(tokens[i], Scope.RepoPrefix), true;
      }
    }
    return "", false;
  }

  /** GetConfigFiltersWithCurrentRemoteAdded: leads the configured filters
      with the origin's `repo:` token unless smart filtering is off, the
      origin does not resolve, or a token of the filters starts with
      `repo:`. */
  method GetConfigFiltersWithCurrentRemoteAdded(filters: string, smartFiltering: bool, origin: Option<Identity>)
    returns (r: string)
    ensures r == Scope.ConfigFiltersWithCurrentRemoteAdded(filters, smartFiltering, origin)
  {
    if !smartFiltering || origin.None? {
      return filters;
    }
    var tokens := Fields(filters);
    for i := 0 to |tokens|
      invariant forall j :: 0 <= j < i ==> !Scope.IsRepoToken(tokens[j])
    {
      if HasPrefix(tokens[i], Scope.RepoPrefix) {
        FirstRepoValueAt(tokens, i);
        return filters;
      }
    }
    return Scope.RepoPrefix + origin.value.Repo() + " " + filters;
  }

  class BaseModel {
    /** Config.Filters. */
    const filters: string
    var searchValue: string
    var filterTarget: Scope.FilterTarget
    var customRepoFilter: string
    var isAuthorFilterRemoved: bool
    var isFilteredByCurrentRemote: bool
    var isRepoPickerShown: bool
    const repoPicker: RepoPicker.Model

    /** The scope state the pure functions of module Scope work on. */
    function State(): Scope.ScopeState
      reads this
    {
      Scope.ScopeState(searchValue, filterTarget, customRepoFilter, isAuthorFilterRemoved, isFilteredByCurrentRemote)
    }

    ghost predicate Valid()
      reads this, repoPicker
    {
      repoPicker.Valid()
    }

    /** NewModel, for the scope fields: the search text starts as the
        configured filters, led by the origin's `repo:` token when smart
        filtering adds it, which also selects the Origin target. */
    constructor (configFilters: string, smartFilteringAtLaunch: bool, rm: Scope.Remotes)
      ensures filters == configFilters
      ensures State() == Scope.InitialScope(configFilters, smartFilteringAtLaunch, rm)
      ensures !isRepoPickerShown && repoPicker.State() == RepoPicker.Initial
      ensures fresh(repoPicker) && Valid()
    {
      var f := GetConfigFiltersWithCurrentRemoteAdded(configFilters, smartFilteringAtLaunch, rm.origin);
      filters := configFilters;
      searchValue := f;
      filterTarget := if smartFilteringAtLaunch && f != configFilters then Scope.OriginTarget else Scope.NoTarget;
      isFilteredByCurrentRemote := f != configFilters;
      customRepoFilter := "";
      isAuthorFilterRemoved := false;
      isRepoPickerShown := false;
      repoPicker := new RepoPicker.Model();
      new;
      if !smartFilteringAtLaunch {
        isFilteredByCurrentRemote := false;
        filterTarget := Scope.NoTarget;
      }
    }

    /** HasRepoNameInConfiguredFilter: some token of Config.Filters starts
        with `repo:`. */
    method HasRepoNameInConfiguredFilter() returns (b: bool)
      ensures b == Scope.HasRepoToken(filters)
    {
      var tokens := Fields(filters);
      for i := 0 to |tokens|
        invariant forall j :: 0 <= j < i ==> !Scope.IsRepoToken(tokens[j])
      {
        if HasPrefix(tokens[i], Scope.RepoPrefix) {
          FirstRepoValueAt(tokens, i);
          return true;
        }
      }
      return false;
    }

    /** applyAuthorFilter: the text itself, or its tokens other than
        `author:@me` joined by single spaces. */
    method ApplyAuthorFilter(text: string) returns (r: string)
      ensures r == Scope.ApplyAuthorFilter(isAuthorFilterRemoved, text)
    {
      if !isAuthorFilterRemoved {
        return text;
      }
      var tokens := Fields(text);
      var kept: seq<string> := [];
      for i := 0 to |tokens|
        invariant kept == Scope.WithoutToken(tokens[..i], Scope.AuthorMe)
      {
        assert tokens[..i + 1] == tokens[..i] + [tokens[i]];
        Scope.WithoutTokenConcat(tokens[..i], [tokens[i]], Scope.AuthorMe);
        assert [tokens[i]][1..] == [];
        if tokens[i] != Scope.AuthorMe {
          kept := kept + [tokens[i]];
        }
      }
      assert tokens[..|tokens|] == tokens;
      r := Join(kept, " ");
    }

    /** applyRepoFilter: the text without `repo:` tokens, led by
        `repo:<repoFilter>` unless that is empty, then author suppression. */
    method ApplyRepoFilter(text: string, repoFilter: string) returns (r: string)
      ensures r == Scope.ApplyRepoFilter(isAuthorFilterRemoved, text, repoFilter)
    {
      var stripped := StripRepoFilterTokens(text);
      var result;
      if repoFilter == "" {
        result := stripped;
      } else if stripped == "" {
        result := Scope.RepoPrefix + repoFilter;
      } else {
        result := Scope.RepoPrefix + repoFilter + " " + stripped;
      }
      r := ApplyAuthorFilter(result);
    }

    /** hasManualRepoFilter: decides on the first `repo:` token of the
        text, which is manual unless it is the one the current target
        applies. */
    method HasManualRepoFilter(text: string, rm: Scope.Remotes) returns (b: bool)
      ensures b == Scope.HasManualRepoFilter(text, filterTarget, rm)
    {
      var tokens := Fields(text);
      for i := 0 to |tokens|
        invariant forall j :: 0 <= j < i ==> !Scope.IsRepoToken(tokens[j])
      {
        if HasPrefix(tokens[i], Scope.RepoPrefix) {
          FirstRepoValueAt(tokens, i);
          var repoValue := TrimPrefix(tokens[i], Scope.RepoPrefix);
          if rm.origin.None? {
            return true;
          }
          if repoValue == rm.origin.value.Repo() && filterTarget == Scope.OriginTarget {
            return false;
          }
          if rm.upstream.Some? && repoValue == rm.upstream.value.Repo() && filterTarget == Scope.UpstreamTarget {
            return false;
          }
          return true;
        }
      }
      return false;
    }

    /** GetSearchValue on the expanded search text. */
    method GetSearchValue(rm: Scope.Remotes, expanded: string) returns (q: string)
      ensures q == Scope.GetSearchValue(State(), filters, rm, expanded)
    {
      if customRepoFilter != "" {
        q := ApplyRepoFilter(expanded, customRepoFilter);
        return;
      }
      if rm.origin.None? {
        q := ApplyAuthorFilter(expanded);
        return;
      }
      var configured := HasRepoNameInConfiguredFilter();
      if configured {
        q := ApplyAuthorFilter(expanded);
        return;
      }
      var manual := HasManualRepoFilter(expanded, rm);
      if manual {
        q := ApplyAuthorFilter(expanded);
        return;
      }
      var stripped := StripRepoFilterTokens(expanded);
      var result;
      match filterTarget {
        case OriginTarget =>
          result := Scope.RepoPrefix + rm.origin.value.Repo() + " " + stripped;
        case UpstreamTarget =>
          if rm.upstream.Some? {
            result := Scope.RepoPrefix + rm.upstream.value.Repo() + " " + stripped;
          } else {
            result := Scope.RepoPrefix + rm.origin.value.Repo() + " " + stripped;
          }
        case NoTarget =>
          result := stripped;
      }
      q := ApplyAuthorFilter(result);
    }

    /** ToggleFilterTarget. */
    method ToggleFilterTarget(rm: Scope.Remotes)
      modifies this
      ensures State() == Scope.ToggleFilterTarget(old(State()), filters, rm)
      ensures isRepoPickerShown == old(isRepoPickerShown)
    {
      var configured := HasRepoNameInConfiguredFilter();
      if configured {
        return;
      }
      match filterTarget {
        case OriginTarget =>
          if rm.upstream.Some? {
            filterTarget := Scope.UpstreamTarget;
          } else {
            filterTarget := Scope.NoTarget;
          }
        case UpstreamTarget =>
          filterTarget := Scope.NoTarget;
        case NoTarget =>
          filterTarget := Scope.OriginTarget;
      }
      isFilteredByCurrentRemote := filterTarget != Scope.NoTarget;
    }

    /** ToggleAuthorFilter. */
    method ToggleAuthorFilter()
      modifies this
      ensures State() == Scope.ToggleAuthorFilter(old(State()))
      ensures isRepoPickerShown == old(isRepoPickerShown)
    {
      isAuthorFilterRemoved := !isAuthorFilterRemoved;
    }

    /** SetCustomRepoFilter. */
    method SetCustomRepoFilter(repo: string)
      modifies this
      ensures State() == Scope.SetCustomRepoFilter(old(State()), repo)
      ensures isRepoPickerShown == old(isRepoPickerShown)
    {
      customRepoFilter := repo;
      if repo != "" {
        filterTarget := Scope.NoTarget;
        isFilteredByCurrentRemote := true;
      }
    }

    /** ClearCustomRepoFilter. */
    method ClearCustomRepoFilter()
      modifies this
      ensures State() == Scope.ClearCustomRepoFilter(old(State()))
      ensures isRepoPickerShown == old(isRepoPickerShown)
    {
      customRepoFilter := "";
    }

    /** SyncRepoFilterStateFromSearchValue. */
    method SyncRepoFilterStateFromSearchValue(rm: Scope.Remotes)
      modifies this
      ensures State() == Scope.SyncRepoFilterState(old(State()), rm)
      ensures isRepoPickerShown == old(isRepoPickerShown)
    {
      var repoValue, ok := GetRepoFilterTokenValue(searchValue);
      if !ok || repoValue == "" {
        customRepoFilter := "";
        filterTarget := Scope.NoTarget;
        isFilteredByCurrentRemote := false;
        return;
      }
      if rm.origin.Some? && repoValue == rm.origin.value.Repo() {
        customRepoFilter := "";
        filterTarget := Scope.OriginTarget;
        isFilteredByCurrentRemote := true;
        return;
      }
      if rm.upstream.Some? && repoValue == rm.upstream.value.Repo() {
        customRepoFilter := "";
        filterTarget := Scope.UpstreamTarget;
        isFilteredByCurrentRemote := true;
        return;
      }
      customRepoFilter := repoValue;
      filterTarget := Scope.NoTarget;
      isFilteredByCurrentRemote := true;
    }

    /** ShowRepoPicker: gives the picker the options, records the current
        `repo:` value as its selection and focuses it. */
    method ShowRepoPicker(rm: Scope.Remotes)
      requires Valid()
      modifies this, repoPicker
      ensures State() == old(State()) && isRepoPickerShown
      ensures repoPicker.State() == old(repoPicker.State()).(
        options := Scope.BuildRepoPickerOptions(rm),
        selectedValue := Scope.GetRepoFilterTokenValue(searchValue).GetOr(""),
        cursor := 0, focused := true, isCustomMode := false)
      ensures Valid()
    {
      var options := Scope.BuildRepoPickerOptions(rm);
      repoPicker.SetOptions(options);
      var currentRepo, _ := GetRepoFilterTokenValue(searchValue);
      repoPicker.SetSelectedValue(currentRepo);
      repoPicker.Focus();
      isRepoPickerShown := true;
    }

    /** HideRepoPicker. */
    method HideRepoPicker()
      requires Valid()
      modifies this, repoPicker
      ensures State() == old(State()) && !isRepoPickerShown
      ensures repoPicker.State() == old(repoPicker.State()).(focused := false, isCustomMode := false)
      ensures Valid()
    {
      repoPicker.Blur();
      isRepoPickerShown := false;
    }

    /** HandleRepoSelected: hides the picker, then classifies the value. */
    method HandleRepoSelected(value: string, isCustom: bool, rm: Scope.Remotes)
      requires Valid()
      modifies this, repoPicker
      ensures State() == Scope.HandleRepoSelected(old(State()), value, isCustom, rm) && !isRepoPickerShown
      ensures repoPicker.State() == old(repoPicker.State()).(focused := false, isCustomMode := false)
      ensures Valid()
    {
      HideRepoPicker();
      if value == "" {
        customRepoFilter := "";
        filterTarget := Scope.NoTarget;
        isFilteredByCurrentRemote := false;
      } else {
        if rm.origin.Some? && value == rm.origin.value.Repo() {
          customRepoFilter := "";
          filterTarget := Scope.OriginTarget;
          isFilteredByCurrentRemote := true;
          return;
        }
        if rm.upstream.Some? && value == rm.upstream.value.Repo() {
          customRepoFilter := "";
          filterTarget := Scope.UpstreamTarget;
          isFilteredByCurrentRemote := true;
          return;
        }
        customRepoFilter := value;
        filterTarget := Scope.NoTarget;
        isFilteredByCurrentRemote := true;
      }
    }
  }
}
