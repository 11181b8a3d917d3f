/** Properties of the scope engine of module Scope: what the token surgery
    keeps, the precedence of query composition, the transition table, and
    how composition and synchronisation interact. */
module ScopeProperties {
  import opened Wrappers
  import opened Text
  import opened Git
  import opened Scope

  // ---------------------------------------------------------------------
  // Helpers

  /** FirstRepoValue looks at the head first. */
  lemma FirstRepoValueCons(t: string, ts: seq<string>)
    ensures FirstRepoValue([t] + ts)
            == if IsRepoToken(t) then Some(TrimPrefix(t, RepoPrefix)) else FirstRepoValue(ts)
  {
    assert ([t] + ts)[0] == t;
    assert ([t] + ts)[1..] == ts;
  }

  lemma AuthorIsNotRepoToken()
    ensures !IsRepoToken(AuthorMe)
  {
    assert AuthorMe[..5][0] == 'a';
  }

  /** Author suppression never touches the first `repo:` token. */
  lemma {:induction false} FirstRepoValueWithoutAuthor(ts: seq<string>)
    ensures FirstRepoValue(WithoutToken(ts, AuthorMe)) == FirstRepoValue(ts)
  {
    if ts != [] {
      var tail := WithoutToken(ts[1..], AuthorMe);
      FirstRepoValueWithoutAuthor(ts[1..]);
      FirstRepoValueCons(ts[0], ts[1..]);
      assert ts == [ts[0]] + ts[1..];
      if ts[0] == AuthorMe {
        AuthorIsNotRepoToken();
        assert WithoutToken(ts, AuthorMe) == tail;
      } else {
        assert WithoutToken(ts, AuthorMe) == [ts[0]] + tail;
        FirstRepoValueCons(ts[0], tail);
      }
    }
  }

  lemma FirstRepoValueAuthorTokens(removed: bool, ts: seq<string>)
    ensures FirstRepoValue(AuthorTokens(removed, ts)) == FirstRepoValue(ts)
  {
    if removed {
      FirstRepoValueWithoutAuthor(ts);
    }
  }

  /** The value of a leading `repo:<x>` token is `x`. */
  lemma FirstRepoValueLeading(x: string, ts: seq<string>)
    ensures FirstRepoValue([RepoPrefix + x] + ts) == Some(x)
  {
    var t := RepoPrefix + x;
    assert HasPrefix(t, RepoPrefix) by {
      assert t[..5] == RepoPrefix;
    }
    assert TrimPrefix(t, RepoPrefix) == x;
  }

  /** A query built from the text's non-`repo:` tokens has no `repo:` token. */
  lemma NoRepoValueInRest(removed: bool, s: string)
    ensures FirstRepoValue(Rest(removed, s)) == None
  {
    var w := WithoutRepoTokens(Fields(s));
    FirstRepoValueAuthorTokens(removed, w);
    assert forall i :: 0 <= i < |w| ==> !IsRepoToken(w[i]) by {
      forall i | 0 <= i < |w| ensures !IsRepoToken(w[i]) {
        assert w[i] in w;
      }
    }
  }

  /** What the automatic scoping composes, as tokens. */
  lemma AutoScopedTokens(st: ScopeState, filters: string, rm: Remotes, expanded: string)
    requires AutoScoped(st, filters, rm, expanded) && SpaceFree(rm)
    ensures var q := GetSearchValue(st, filters, rm, expanded); var x := ScopedRepo(st.target, rm);
      Fields(q) == (if x.Some? then [RepoPrefix + x.value] else []) + Rest(st.authorFilterRemoved, expanded)
  {
    var stripped := StripRepoFilterTokens(expanded);
    var x := ScopedRepo(st.target, rm);
    var removed := st.authorFilterRemoved;
    if x.Some? {
      FieldsOfLeadingRepo(x.value, stripped);
      AuthorTokensOfRepoToken(removed, x.value, Fields(stripped));
    }
  }

  // ---------------------------------------------------------------------
  // Token surgery

  /** StripRepoFilterTokens leaves no `repo:` token, keeps the others in
      order (module Scope), joins them by single spaces, and a second
      application changes nothing. */
  lemma StripRepoFilterTokensNormal(s: string)
    ensures var r := StripRepoFilterTokens(s);
      && (forall i :: 0 <= i < |Fields(r)| ==> !IsRepoToken(Fields(r)[i]))
      && Join(Fields(r), " ") == r
      && StripRepoFilterTokens(r) == r
  {
    var r := StripRepoFilterTokens(s);
    var w := WithoutRepoTokens(Fields(s));
    assert Fields(r) == w;
    assert forall i :: 0 <= i < |w| ==> !IsRepoToken(w[i]) by {
      forall i | 0 <= i < |w| ensures !IsRepoToken(w[i]) {
        assert w[i] in w;
      }
    }
    WithoutRepoTokensNone(w);
  }

  /** applyAuthorFilter drops exactly the `author:@me` tokens: every other
      token stays, in order, and none equals `author:@me` afterwards. */
  lemma ApplyAuthorFilterDrops(s: string)
    ensures var r := ApplyAuthorFilter(true, s);
      && AuthorMe !in Fields(r)
      && (forall t :: t in Fields(r) <==> t in Fields(s) && t != AuthorMe)
      && (AuthorMe !in Fields(s) ==> Fields(r) == Fields(s))
  {
    if AuthorMe !in Fields(s) {
      WithoutTokenAbsent(Fields(s), AuthorMe);
    }
  }

  /** applyRepoFilter's three shapes (the stripped text; `repo:<r>` alone;
      `repo:<r> ` and the stripped text) all come out in normal form: the
      result is its own tokens joined by single spaces. */
  lemma ApplyRepoFilterNormal(removed: bool, s: string, repo: string)
    requires NoSpace(repo)
    ensures var r := ApplyRepoFilter(removed, s, repo); Join(Fields(r), " ") == r
  {
    var r := ApplyRepoFilter(removed, s, repo);
    var w := WithoutRepoTokens(Fields(s));
    var stripped := StripRepoFilterTokens(s);
    FilteredTokens(Fields(s), AuthorMe);
    FieldsJoin(w);
    if removed {
      var ts := (if repo == "" then [] else [RepoPrefix + repo]) + w;
      var result :=
        if repo == "" then stripped
        else if stripped == "" then RepoPrefix + repo
        else RepoPrefix + repo + " " + stripped;
      FilteredTokens(Fields(result), AuthorMe);
      FieldsJoin(WithoutToken(Fields(result), AuthorMe));
    } else if repo != "" && stripped != "" {
      var t := RepoPrefix + repo;
      assert w != [];
      assert ([t] + w)[1..] == w;
      assert Join([t] + w, " ") == t + " " + Join(w, " ");
    }
  }

  /** A filter with an inner run of spaces (one typed into the picker as
      `a  b`) is kept as typed: the result `repo:a  b` is not in normal
      form. */
  lemma ApplyRepoFilterKeepsSpacing(s: string, a: string, b: string)
    requires IsToken(a) && IsToken(b)
    requires StripRepoFilterTokens(s) == ""
    ensures var r := ApplyRepoFilter(false, s, a + "  " + b);
      && r == RepoPrefix + a + "  " + b
      && Join(Fields(r), " ") == RepoPrefix + a + " " + b
      && Join(Fields(r), " ") != r
  {
    var t := RepoPrefix + a;
    var r := ApplyRepoFilter(false, s, a + "  " + b);
    assert r == t + " " + (" " + b);
    FieldsOfLeadingRepo(a, " " + b);
    assert (" " + b)[1..] == b;
    FieldsOfToken(b);
    assert Fields(r) == [t, b];
    assert Join([t, b], " ") == t + " " + b by {
      assert [t, b][1..] == [b];
    }
    assert |t + " " + b| < |r|;
  }

  // ---------------------------------------------------------------------
  // Query composition

  /** GetSearchValue's precedence. A custom filter wins over everything,
      including a `repo:` token in the configured filters; without one, no
      origin, a configured `repo:` token or a manual `repo:` token send the
      text as typed (author suppression aside); otherwise the target's
      repository leads the text's other tokens, an unresolved upstream
      falling back to the origin. */
  lemma QueryPrecedence(st: ScopeState, filters: string, rm: Remotes, expanded: string)
    ensures var q := GetSearchValue(st, filters, rm, expanded); var removed := st.authorFilterRemoved;
      && (st.customRepoFilter != "" ==>
            Fields(q) == AuthorTokens(removed, Fields(RepoPrefix + st.customRepoFilter)) + Rest(removed, expanded))
      && (st.customRepoFilter != "" && NoSpace(st.customRepoFilter) ==>
            Fields(q) == [RepoPrefix + st.customRepoFilter] + Rest(removed, expanded))
      && (st.customRepoFilter == "" && !AutoScoped(st, filters, rm, expanded) ==>
            Fields(q) == AuthorTokens(removed, Fields(expanded)) && (!removed ==> q == expanded))
      && (AutoScoped(st, filters, rm, expanded) && SpaceFree(rm) ==>
            var x := ScopedRepo(st.target, rm);
            && (st.target != NoTarget ==> x.Some?)
            && Fields(q) == (if x.Some? then [RepoPrefix + x.value] else []) + Rest(removed, expanded))
  {
    if AutoScoped(st, filters, rm, expanded) && SpaceFree(rm) {
      AutoScopedTokens(st, filters, rm, expanded);
    }
  }

  /** With nothing else in the text, the automatically scoped query keeps
      the space after its `repo:` token unless author suppression joins the
      tokens anew. */
  lemma AutoScopedTrailingSpace(st: ScopeState, filters: string, rm: Remotes, expanded: string)
    requires AutoScoped(st, filters, rm, expanded) && st.target != NoTarget
    requires StripRepoFilterTokens(expanded) == ""
    ensures var q := GetSearchValue(st, filters, rm, expanded); var x := ScopedRepo(st.target, rm);
      && (!st.authorFilterRemoved ==> q == RepoPrefix + x.value + " ")
      && (st.authorFilterRemoved && SpaceFree(rm) ==> q == RepoPrefix + x.value)
  {
    var x := ScopedRepo(st.target, rm);
    if st.authorFilterRemoved && SpaceFree(rm) {
      var t := RepoPrefix + x.value;
      var q := GetSearchValue(st, filters, rm, expanded);
      FieldsOfLeadingRepo(x.value, "");
      assert t + " " + "" == t + " ";
      assert IsRepoToken(t) by {
        assert t[..5] == RepoPrefix;
      }
      RepoTokenNotAuthor(t);
      assert WithoutToken([t], AuthorMe) == [t];
      FieldsOfToken(t);
    }
  }

  /** A manual `repo:` token is kept: the query's first `repo:` token is
      the text's, whatever the target would apply. */
  lemma ManualFilterKept(st: ScopeState, filters: string, rm: Remotes, expanded: string)
    requires st.customRepoFilter == "" && HasManualRepoFilter(expanded, st.target, rm)
    ensures GetRepoFilterTokenValue(GetSearchValue(st, filters, rm, expanded)) == GetRepoFilterTokenValue(expanded)
  {
    FirstRepoValueAuthorTokens(st.authorFilterRemoved, Fields(expanded));
  }

  /** Author suppression is orthogonal to scoping: with it, the query's
      tokens are those without it minus `author:@me`, and the first `repo:`
      token is the same. */
  lemma AuthorSuppressionOrthogonal(st: ScopeState, filters: string, rm: Remotes, expanded: string)
    ensures var kept := GetSearchValue(st.(authorFilterRemoved := false), filters, rm, expanded);
      var dropped := GetSearchValue(st.(authorFilterRemoved := true), filters, rm, expanded);
      && Fields(dropped) == WithoutToken(Fields(kept), AuthorMe)
      && GetRepoFilterTokenValue(dropped) == GetRepoFilterTokenValue(kept)
  {
    var kept := GetSearchValue(st.(authorFilterRemoved := false), filters, rm, expanded);
    FirstRepoValueWithoutAuthor(Fields(kept));
  }

  // ---------------------------------------------------------------------
  // Transitions

  /** Without a configured `repo:` token, the target cycles
      Origin, Upstream, None when an upstream resolves, and Origin, None
      when none does. */
  lemma ToggleCycle(st: ScopeState, filters: string, rm: Remotes)
    requires !HasRepoToken(filters)
    ensures var t1 := ToggleFilterTarget(st, filters, rm);
      var t2 := ToggleFilterTarget(t1, filters, rm);
      var t3 := ToggleFilterTarget(t2, filters, rm);
      && (rm.upstream.Some? ==> t3.target == st.target && t1.target != t2.target && t2.target != t3.target)
      && (rm.upstream.None? ==> t2.target != UpstreamTarget && t3.target == t1.target)
      && (rm.upstream.None? && st.target != UpstreamTarget ==> t2.target == st.target)
      && (rm.upstream.Some? && st.target == OriginTarget ==>
            t1.target == UpstreamTarget && t2.target == NoTarget && t3.target == OriginTarget)
      && (rm.upstream.None? && st.target == OriginTarget ==>
            t1.target == NoTarget && t2.target == OriginTarget)
      && (rm.upstream.None? && st.target == UpstreamTarget ==>
            t1.target == NoTarget && t2.target == OriginTarget && t3.target == NoTarget)
  {
  }

  /** While a custom filter is set, toggling the target changes the state
      but not the query. */
  lemma ToggleHiddenByCustomFilter(st: ScopeState, filters: string, rm: Remotes, expanded: string)
    requires st.customRepoFilter != ""
    ensures GetSearchValue(ToggleFilterTarget(st, filters, rm), filters, rm, expanded)
            == GetSearchValue(st, filters, rm, expanded)
  {
  }

  /** Selecting a value (from the picker or the search text) makes it the
      current repository filter; the label shows it, or `all` for the empty
      value; the origin wins when origin and upstream are the same
      repository; the text and author suppression are untouched. */
  lemma SelectionRoundTrip(st: ScopeState, value: string, rm: Remotes)
    ensures var s := ClassifyRepoValue(st, value, rm);
      && GetCurrentRepoFilter(s, rm) == value
      && GetFilterTargetLabel(s, rm) == (if value == "" then "all" else value)
      && s.filteredByCurrentRemote == (value != "")
      && (s.customRepoFilter != "" ==> s.target == NoTarget)
      && (rm.origin.Some? && value == rm.origin.value.Repo() ==> s.target == OriginTarget && s.customRepoFilter == "")
      && s.searchValue == st.searchValue && s.authorFilterRemoved == st.authorFilterRemoved
  {
  }

  /** Picking any of the options the picker is given never sets a custom
      filter. */
  lemma PickerOptionsAreNotCustom(st: ScopeState, rm: Remotes, i: int)
    requires 0 <= i < |BuildRepoPickerOptions(rm)|
    ensures ClassifyRepoValue(st, BuildRepoPickerOptions(rm)[i].value, rm).customRepoFilter == ""
  {
    var opts := BuildRepoPickerOptions(rm);
    if rm.origin.Some? && rm.upstream.Some? {
      assert i == 0 || i == 1 || i == 2;
    } else if rm.origin.Some? || rm.upstream.Some? {
      assert i == 0 || i == 1;
    }
  }

  /** The label is the current repository filter, and when that is empty
      the literal name of the target. */
  lemma LabelShowsCurrentFilter(st: ScopeState, rm: Remotes)
    ensures var current := GetCurrentRepoFilter(st, rm);
      GetFilterTargetLabel(st, rm)
      == if current != "" then current
         else match st.target
              case OriginTarget => "origin"
              case UpstreamTarget => "upstream"
              case NoTarget => "all"
  {
    if st.customRepoFilter == "" && st.target == OriginTarget && rm.origin.Some? {
      assert |rm.origin.value.Repo()| > 0;
    }
    if st.customRepoFilter == "" && st.target == UpstreamTarget && rm.upstream.Some? {
      assert |rm.upstream.value.Repo()| > 0;
    }
  }

  /** With the Upstream target and no upstream, the label reads `upstream`
      while the query is scoped to the origin. */
  lemma UpstreamFallbackLabel(st: ScopeState, filters: string, rm: Remotes, expanded: string)
    requires AutoScoped(st, filters, rm, expanded) && SpaceFree(rm)
    requires st.target == UpstreamTarget && rm.upstream.None?
    ensures GetFilterTargetLabel(st, rm) == "upstream"
    ensures GetRepoFilterTokenValue(GetSearchValue(st, filters, rm, expanded)) == Some(rm.origin.value.Repo())
  {
    AutoScopedTokens(st, filters, rm, expanded);
    FirstRepoValueLeading(rm.origin.value.Repo(), Rest(st.authorFilterRemoved, expanded));
  }

  /** NewModel starts on the Origin target exactly when smart filtering is
      on, the origin resolves and the configured filters name no
      repository; the search text then leads with the origin's `repo:`
      token, and otherwise it is the configured filters. */
  lemma InitialTarget(filters: string, smartFiltering: bool, rm: Remotes)
    ensures var st := InitialScope(filters, smartFiltering, rm);
      && (st.target == OriginTarget <==> smartFiltering && rm.origin.Some? && !HasRepoToken(filters))
      && st.target != UpstreamTarget
      && st.filteredByCurrentRemote == (st.target == OriginTarget)
      && (st.target == OriginTarget ==> st.searchValue == RepoPrefix + rm.origin.value.Repo() + " " + filters)
      && (st.target != OriginTarget ==> st.searchValue == filters)
      && st.customRepoFilter == "" && !st.authorFilterRemoved
  {
    if smartFiltering && rm.origin.Some? && !HasRepoToken(filters) {
      var f := ConfigFiltersWithCurrentRemoteAdded(filters, smartFiltering, rm.origin);
      assert |f| > |filters|;
    }
  }

  // ---------------------------------------------------------------------
  // Composition and synchronisation

  lemma SyncOfCustomQuery(st: ScopeState, filters: string, rm: Remotes, text: string)
    requires st.customRepoFilter != "" && NoSpace(st.customRepoFilter)
    requires TargetRepo(OriginTarget, rm) != Some(st.customRepoFilter)
    requires TargetRepo(UpstreamTarget, rm) != Some(st.customRepoFilter)
    ensures var q := GetSearchValue(st, filters, rm, text);
      GetSearchValue(SyncRepoFilterState(st.(searchValue := q), rm), filters, rm, text) == q
  {
    var q := GetSearchValue(st, filters, rm, text);
    FirstRepoValueLeading(st.customRepoFilter, Rest(st.authorFilterRemoved, text));
    assert GetRepoFilterTokenValue(q) == Some(st.customRepoFilter);
  }

  lemma SyncOfUnscopedQuery(st: ScopeState, filters: string, rm: Remotes, text: string)
    requires st.customRepoFilter == "" && rm.origin.None? && !HasRepoToken(text)
    ensures var q := GetSearchValue(st, filters, rm, text);
      GetSearchValue(SyncRepoFilterState(st.(searchValue := q), rm), filters, rm, text) == q
  {
    var q := GetSearchValue(st, filters, rm, text);
    FirstRepoValueAuthorTokens(st.authorFilterRemoved, Fields(text));
    assert GetRepoFilterTokenValue(q) == None;
  }

  /** The automatically scoped query depends on the target only through
      the repository it scopes to. */
  lemma AutoQueryByScopedRepo(a: ScopeState, b: ScopeState, filters: string, rm: Remotes, text: string)
    requires AutoScoped(a, filters, rm, text) && AutoScoped(b, filters, rm, text)
    requires a.authorFilterRemoved == b.authorFilterRemoved
    requires ScopedRepo(a.target, rm) == ScopedRepo(b.target, rm)
    ensures GetSearchValue(a, filters, rm, text) == GetSearchValue(b, filters, rm, text)
  {
  }

  lemma SyncOfAutoScopedQuery(st: ScopeState, filters: string, rm: Remotes, text: string)
    requires AutoScoped(st, filters, rm, text) && SpaceFree(rm)
    ensures var q := GetSearchValue(st, filters, rm, text);
      GetSearchValue(SyncRepoFilterState(st.(searchValue := q), rm), filters, rm, text) == q
  {
    var q := GetSearchValue(st, filters, rm, text);
    var x := ScopedRepo(st.target, rm);
    var rest := Rest(st.authorFilterRemoved, text);
    AutoScopedTokens(st, filters, rm, text);
    var s' := SyncRepoFilterState(st.(searchValue := q), rm);
    if x.Some? {
      FirstRepoValueLeading(x.value, rest);
      assert GetRepoFilterTokenValue(q) == Some(x.value);
      assert s'.customRepoFilter == "" && s'.target != NoTarget;
      assert ScopedRepo(s'.target, rm) == x;
      assert !HasManualRepoFilter(text, s'.target, rm);
    } else {
      NoRepoValueInRest(st.authorFilterRemoved, text);
      assert GetRepoFilterTokenValue(q) == None;
      assert s'.target == NoTarget == st.target;
    }
    AutoQueryByScopedRepo(s', st, filters, rm, text);
  }

  /** Composing, synchronising the state from the composed query, and
      composing the same expanded text again gives the same query, when the configured filters
      name no repository and the query was built by the engine itself: by
      a custom filter that names neither remote, or by the automatic
      scoping (with no `repo:` token in the text when there is no origin). */
  lemma ComposeSyncCompose(st: ScopeState, filters: string, rm: Remotes, text: string)
    requires !HasRepoToken(filters) && SpaceFree(rm)
    requires st.customRepoFilter != "" ==>
      && NoSpace(st.customRepoFilter)
      && TargetRepo(OriginTarget, rm) != Some(st.customRepoFilter)
      && TargetRepo(UpstreamTarget, rm) != Some(st.customRepoFilter)
    requires st.customRepoFilter == "" && rm.origin.None? ==> !HasRepoToken(text)
    requires st.customRepoFilter == "" && rm.origin.Some? ==> !HasManualRepoFilter(text, st.target, rm)
    ensures var q := GetSearchValue(st, filters, rm, text);
      GetSearchValue(SyncRepoFilterState(st.(searchValue := q), rm), filters, rm, text) == q
  {
    if st.customRepoFilter != "" {
      SyncOfCustomQuery(st, filters, rm, text);
    } else if rm.origin.None? {
      SyncOfUnscopedQuery(st, filters, rm, text);
    } else {
      SyncOfAutoScopedQuery(st, filters, rm, text);
    }
  }

  /** A custom filter that holds whitespace (one typed into the picker as
      `a b`) composes the query `repo:a b`; re-reading that query keeps only
      `a` as the custom filter and the label. Composing the earlier
      expanded text again then gives `repo:a`, so the round trip of
      ComposeSyncCompose fails. Composing the re-read search value itself
      (when expansion leaves it unchanged and `b` is no `repo:` token)
      gives `repo:a b` back: the query is stable, the filter state is not. */
  lemma SyncSplitsSpacedCustomFilter(st: ScopeState, filters: string, rm: Remotes, text: string, a: string, b: string)
    requires !st.authorFilterRemoved && st.customRepoFilter == a + " " + b
    requires IsToken(a) && IsToken(b)
    requires TargetRepo(OriginTarget, rm) != Some(a) && TargetRepo(UpstreamTarget, rm) != Some(a)
    requires StripRepoFilterTokens(text) == ""
    ensures var q := GetSearchValue(st, filters, rm, text);
      && q == RepoPrefix + a + " " + b
      && GetSearchValue(SyncRepoFilterState(st.(searchValue := q), rm), filters, rm, text) == RepoPrefix + a
      && RepoPrefix + a != q
    ensures var q := GetSearchValue(st, filters, rm, text);
      var s' := SyncRepoFilterState(st.(searchValue := q), rm);
      && s'.customRepoFilter == a
      && GetFilterTargetLabel(s', rm) == a
      && (!IsRepoToken(b) ==> GetSearchValue(s', filters, rm, s'.searchValue) == q)
  {
    var q := GetSearchValue(st, filters, rm, text);
    assert q == RepoPrefix + a + " " + b;
    FieldsOfLeadingRepo(a, b);
    FieldsOfToken(b);
    FirstRepoValueLeading(a, [b]);
    assert GetRepoFilterTokenValue(q) == Some(a);
    var s' := SyncRepoFilterState(st.(searchValue := q), rm);
    assert s'.customRepoFilter == a && !s'.authorFilterRemoved;
    assert |RepoPrefix + a| < |q|;
    if !IsRepoToken(b) {
      assert WithoutRepoTokens([RepoPrefix + a] + [b]) == [b] by {
        WithoutRepoTokensConcat([RepoPrefix + a], [b]);
        assert IsRepoToken(RepoPrefix + a) by {
          assert (RepoPrefix + a)[..5] == RepoPrefix;
        }
        assert [RepoPrefix + a][1..] == [] && [b][1..] == [];
      }
      assert [RepoPrefix + a] + [b] == Fields(q);
      assert StripRepoFilterTokens(q) == b;
    }
  }

  /** A query typed with its `repo:` token first, naming neither remote,
      survives the round trip: it is sent as typed, re-reading makes the
      value the custom filter, and composing again rebuilds the same text. */
  lemma SyncKeepsLeadingManualFilter(st: ScopeState, filters: string, rm: Remotes, x: string, w: string)
    requires st.customRepoFilter == "" && !st.authorFilterRemoved
    requires x != "" && NoSpace(x)
    requires IsToken(w) && !IsRepoToken(w)
    requires TargetRepo(OriginTarget, rm) != Some(x) && TargetRepo(UpstreamTarget, rm) != Some(x)
    ensures var text := RepoPrefix + x + " " + w;
      var q := GetSearchValue(st, filters, rm, text);
      && q == text
      && GetSearchValue(SyncRepoFilterState(st.(searchValue := q), rm), filters, rm, text) == q
  {
    var t := RepoPrefix + x;
    var text := t + " " + w;
    FieldsOfLeadingRepo(x, w);
    FieldsOfToken(w);
    FirstRepoValueLeading(x, [w]);
    assert GetRepoFilterTokenValue(text) == Some(x);
    assert HasManualRepoFilter(text, st.target, rm);
    var q := GetSearchValue(st, filters, rm, text);
    assert q == text;
    var s' := SyncRepoFilterState(st.(searchValue := q), rm);
    assert s'.customRepoFilter == x && !s'.authorFilterRemoved;
    assert WithoutRepoTokens([t] + [w]) == [w] by {
      WithoutRepoTokensConcat([t], [w]);
      assert IsRepoToken(t) by {
        assert t[..5] == RepoPrefix;
      }
      assert [t][1..] == [] && [w][1..] == [];
    }
    assert [t] + [w] == Fields(text);
    assert StripRepoFilterTokens(text) == w;
  }

  /** A token followed by a `repo:` token. */
  lemma WordThenRepoToken(word: string, repo: string)
    requires IsToken(word) && NoSpace(repo)
    ensures var t := RepoPrefix + repo;
      && IsRepoToken(t)
      && Fields(word + " " + t) == [word, t]
      && (!IsRepoToken(word) ==> GetRepoFilterTokenValue(word + " " + t) == Some(repo))
  {
    var t := RepoPrefix + repo;
    assert IsToken(t) by {
      forall i | 0 <= i < |t| ensures !IsSpace(t[i]) {
        if i < 5 {
          assert t[i] == RepoPrefix[i];
        } else {
          assert t[i] == repo[i - 5];
        }
      }
    }
    FieldsOfToken(t);
    assert IsRepoToken(t) by {
      assert t[..5] == RepoPrefix;
    }
    FieldsSpaceConcat(word, t);
    FieldsOfToken(word);
    assert [word] + [t] == [word, t];
    FirstRepoValueCons(word, [t]);
    FirstRepoValueLeading(repo, []);
    assert [t] + [] == [t];
  }

  /** The same round trip changes a query that is sent as typed and holds
      a `repo:` token after another token: synchronising turns the token
      into a custom filter, which the next composition moves to the front.
      This is the case whenever the configured filters hold that token,
      the origin does not resolve, or the token names neither remote. */
  lemma SyncReordersKeptFilter(st: ScopeState, filters: string, rm: Remotes, word: string, repo: string)
    requires st.customRepoFilter == "" && !st.authorFilterRemoved
    requires IsToken(word) && !IsRepoToken(word)
    requires repo != "" && NoSpace(repo)
    requires TargetRepo(OriginTarget, rm) != Some(repo) && TargetRepo(UpstreamTarget, rm) != Some(repo)
    ensures var text := word + " " + (RepoPrefix + repo);
      var q := GetSearchValue(st, filters, rm, text);
      && q == text
      && GetSearchValue(SyncRepoFilterState(st.(searchValue := q), rm), filters, rm, text) != q
  {
    var t := RepoPrefix + repo;
    var text := word + " " + t;
    WordThenRepoToken(word, repo);
    var q := GetSearchValue(st, filters, rm, text);
    assert q == text;
    var s' := SyncRepoFilterState(st.(searchValue := q), rm);
    assert s'.customRepoFilter == repo;
    var q' := GetSearchValue(s', filters, rm, text);
    assert Fields(q')[0] == t;
    assert Fields(q)[0] == word;
  }
}
