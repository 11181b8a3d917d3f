# Repository scope of gh-dash sections, remote URLs and the repo picker

This project models three cooperating pieces of gh-dash, a terminal
dashboard for GitHub pull requests and issues, and proves properties of
them.

- **The scope engine of a section** (`section.BaseModel`). A section holds
  a search text, the configured filters and a small scope state:
  - the filter target (origin, upstream or none);
  - a custom repository filter;
  - whether `author:@me` is suppressed;
  - whether the query is scoped to a remote.

  From these it composes the query actually sent to GitHub. It also moves
  the state in response to the user: toggling the target, toggling author
  suppression, typing or picking a repository, and re-reading the search
  text.
  - Module `Scope` (scope.dfy) holds that logic as pure functions over a
    `ScopeState` value.
  - Module `Section` (section.dfy) holds the class `BaseModel`. It keeps
    the same state in fields that its methods assign in place, and runs the
    source's loops over whitespace tokens. Each method is proved against
    the function of `Scope` that specifies it.
  - Module `ScopeProperties` (scope_properties.dfy) proves what the engine
    promises: normal forms, precedence, the toggle cycle, selection round
    trips, and how composing and re-reading interact.
- **The remote URL parser** (`git.ParseGitHubRepoFromUrl`,
  `git.GetRepoShortName`). It reads `owner/name` from an SSH or HTTP(S)
  remote URL, with one error for each way the URL can be malformed. The
  same module, `Git` (git.dfy), also models the loop that files the lines
  of `git diff --name-status` output into added, removed and modified
  lists.
- **The repo picker** (`repopicker.Model`, module `RepoPicker` in
  repopicker.dfy). This is a small state machine over options, a cursor,
  focus and a custom-entry mode. It is driven by keys and emits
  "selected" or "cancelled". The class `Model` is proved against the pure
  transition function `Step`.

Module `Text` (text.dfy) models the Go `strings` functions the core uses:
`Fields`, `Join`, `Split`, `Index`, `TrimSpace`, prefix and suffix
trimming. Module `Wrappers` (wrappers.dfy) holds `Option` and `Result`.

The origin and upstream identities are read from git by the source. Here
they are a `Remotes` value (two `Option<Identity>`), passed to every
operation that reads them. Template expansion of the search text is also
an input (`expanded`).

Facts about the code that the model keeps and that are easy to miss:
- A non-empty custom repository filter wins over a `repo:` token in the
  configured filters: GetSearchValue checks the custom filter first.
- Without an origin, the text is sent with only author suppression
  applied; its `repo:` tokens are not stripped.
- A section starts on the Origin target only when the configured filters
  hold no `repo:` token as well.
- Re-reading the search text treats an empty `repo:` value as "all
  repositories" and clears the remote flag.
- Composing a query, re-reading the state from it, and composing the same
  expanded text again gives the same query when the engine itself built
  the query and any custom filter is free of whitespace
  (`ComposeSyncCompose`). A query sent as typed whose first token is a
  `repo:` token naming neither remote round-trips too: re-reading makes
  its value the custom filter, which rebuilds the same text
  (`SyncKeepsLeadingManualFilter`). Two cases fail:
  - a query sent as typed whose `repo:` token is not first is reordered
    (`SyncReordersKeptFilter`);
  - a custom filter typed into the picker as `a b` composes `repo:a b`.
    Re-reading that query keeps only `a` as the custom filter and the
    label, so recomposing the earlier text gives `repo:a`. Composing the
    re-read search value itself still gives `repo:a b`: the query is
    stable, but the filter state and the label lose `b`
    (`SyncSplitsSpacedCustomFilter`).
- A custom filter is kept as typed apart from its outer whitespace, so
  `a  b` composes `repo:a  b`, which is not its tokens joined by single
  spaces (`ApplyRepoFilterKeepsSpacing`).
- `ShowRepoPicker` records the current `repo:` value in the picker and then
  focuses it. Focusing puts the cursor on the first option, so after
  `ShowRepoPicker` the cursor is always on the first option, whatever value
  was recorded.

## Model

| member | source | states |
|---|---|---|
| Git.OwnerRepo | internal/git/git.go:245-248 | an accepted path is exactly `owner + "/" + name` with two non-empty, slash-free segments; any other path fails with "expected owner/repo" of the URL's form |
| Git.OwnerRepoShape | internal/git/git.go:245-248 | a path is accepted if and only if it is non-empty, holds exactly one `/`, and neither starts nor ends with it |
| Git.ParseSshUrlPath | internal/git/git.go:236-249 | an SSH URL fails with "missing colon separator" exactly when it has no `:`; its only other error is "expected owner/repo" (SSH) |
| Git.ParseHttpUrlPath | internal/git/git.go:252-275 | an HTTP(S) URL fails with "missing path" exactly when no `/` follows the host; its only other error is "expected owner/repo" (HTTPS) |
| Git.ParseGitHubRepoFromUrl | internal/git/git.go:231-279 | every success yields a non-empty owner and name, both free of `/` |
| Git.ParseErrorTaxonomy | internal/git/git.go:231-279 | after trimming spaces and one trailing `/`: "unsupported URL format" exactly when no `git@`/`https://`/`http://` prefix; "missing colon" exactly for a `git@` URL without `:`; "missing path" exactly for an HTTP(S) URL with no `/` after the host; each "expected owner/repo" error matches its form |
| Git.ParseOfNormalized | internal/git/git.go:232-233 | the parse depends only on the URL after trimming whitespace and one trailing `/` |
| Git.ParseOfPadded | internal/git/git_test.go:96-99 | surrounding whitespace and one trailing `/` never change the result |
| Git.SshUrlAccepted | internal/git/git.go:236-249 | for `git@host:tail` with a colon-free host, the parse succeeds if and only if `tail` without `.git` and a leading `/` is a one-slash path, and then yields exactly that `owner/name` |
| Git.HttpUrlAccepted | internal/git/git.go:252-275 | for `scheme://host/path` with a slash-free host, the parse succeeds if and only if `path` without `.git` and a trailing `/` is a one-slash path, and then yields exactly that `owner/name` |
| Git.ParseSshUrl | internal/git/git_test.go:38-48 | `git@host:[/]owner/name[.git]` parses to `(owner, name)` for every host without a colon |
| Git.ParseNormalHttpUrl | internal/git/git_test.go:51-67 | `https://host/owner/name[.git]` and its `http://` form parse to `(owner, name)` for every host |
| Git.ParseHttpUrl | internal/git/git_test.go:19-35 | HTTP(S) URLs with optional `.git`, an optional trailing `/` and surrounding whitespace parse to `(owner, name)` for every host |
| Git.GetRepoShortName | internal/git/git.go:194-198 | the leading `https://github.com/` and the trailing `.git` are removed independently; a URL with neither comes back verbatim; a URL with both is exactly prefix, short name, `.git` |
| Git.ShortNameOfGitHubUrl | internal/git/git_test.go:195-203 | the short name of `https://github.com/owner/name[.git]` is `owner/name` |
| Git.ShortNameAgreesWithParse | internal/git/git.go:194-198 | for a github.com HTTPS URL, the short name is the `owner/name` the parser returns |
| Git.FilesWithStatus | internal/git/git.go:163-173 | each line files at most one name, so a list is never longer than the output, and every filed name is a whitespace-free field |
| Git.FilesWithStatusConcat | internal/git/git.go:162-173 | the lines are filed one at a time, so the lists of two chunks of output are the concatenations |
| Git.FilesWithStatusMember | internal/git/git.go:163-173 | a file is in the list of a status letter exactly when some line has at least two fields, its first field starts with that letter and its second field is the file |
| Git.FilesWithStatusCount | internal/git/git.go:163-173 | each line is filed at most once: the three lists together are no longer than the output |
| Git.GetUnstagedStatus | internal/git/git.go:159-174 | the loop yields, in input order, the files of the `A`, `D` and `M` lines of the output |
| RepoPicker.ActionOf | internal/tui/components/repopicker/repopicker.go:44-67 | exactly the eight keys of the default key map are bound: `up`/`k` move up, `down`/`j` move down, `esc`/`ctrl+c` cancel, `enter` selects and `c` enters custom mode |
| RepoPicker.Step | internal/tui/components/repopicker/repopicker.go:142-203 | the cursor stays non-negative and within the options whenever there are any |
| RepoPicker.CustomModeStep | internal/tui/components/repopicker/repopicker.go:149-170 | a key in custom mode never moves the cursor or changes the options, and keeps the cursor in range |
| RepoPicker.ListModeStep | internal/tui/components/repopicker/repopicker.go:173-199 | a key in list mode never changes the options or the custom input, and keeps the cursor in range |
| RepoPicker.FirstMatch | internal/tui/components/repopicker/repopicker.go:133-138 | finds the first option holding the value, or reports that none does |
| RepoPicker.Model.constructor | internal/tui/components/repopicker/repopicker.go:81-96 | a new picker has no options, cursor 0, list mode, not focused |
| RepoPicker.Model.SetOptions | internal/tui/components/repopicker/repopicker.go:99-102 | replaces the options, puts the cursor on the first one, and nothing else changes |
| RepoPicker.Model.Focus | internal/tui/components/repopicker/repopicker.go:111-115 | focuses in list mode with the cursor on the first option |
| RepoPicker.Model.Blur | internal/tui/components/repopicker/repopicker.go:118-122 | clears focus and custom mode and changes nothing else |
| RepoPicker.Model.SetSelectedValue | internal/tui/components/repopicker/repopicker.go:130-139 | records the value and moves the cursor to the first option holding it, leaving the cursor where it was if none does |
| RepoPicker.Model.Update | internal/tui/components/repopicker/repopicker.go:142-203 | answers a message exactly as `Step` does and keeps the cursor invariant |
| RepoPicker.Model.UpdateCustomMode | internal/tui/components/repopicker/repopicker.go:149-170 | the custom-mode branch of Update assigns the fields and answers exactly as `CustomModeStep` says |
| RepoPicker.Model.UpdateListMode | internal/tui/components/repopicker/repopicker.go:173-199 | the list-mode branch of Update assigns the fields and answers exactly as `ListModeStep` says |
| RepoPicker.UnfocusedIgnores | internal/tui/components/repopicker/repopicker.go:142-145 | an unfocused picker ignores every message and emits nothing |
| RepoPicker.StepFrame | internal/tui/components/repopicker/repopicker.go:142-203 | a step never changes the options or the recorded selection; a focused picker loses focus exactly when it emits a message, and every message leaves custom mode |
| RepoPicker.CursorRoundTrip | internal/tui/components/repopicker/repopicker.go:174-181 | up then down (or down then up) restores the state inside the list; at either end the move is a no-op |
| RepoPicker.ListSelect | internal/tui/components/repopicker/repopicker.go:182-189 | in list mode, enter selects the option under the cursor as a non-custom value and unfocuses; with no options it does nothing |
| RepoPicker.ListCancelAndCustom | internal/tui/components/repopicker/repopicker.go:190-198 | in list mode, cancel unfocuses and emits "cancelled"; `c` enters custom mode and stays focused |
| RepoPicker.CustomModeKeys | internal/tui/components/repopicker/repopicker.go:149-169 | in custom mode, cancel returns to the list with an empty input; enter emits the trimmed input as a custom value only when it is non-empty; other keys only edit the input |
| RepoPicker.CustomChoiceTrimmed | internal/tui/components/repopicker/repopicker.go:155-161 | a custom selection is never empty and never starts or ends with whitespace |
| RepoPicker.ListChoiceIsOption | internal/tui/components/repopicker/repopicker.go:182-187 | a non-custom selection is always the value of one of the options |
| RepoPicker.CustomThenCancel | internal/tui/components/repopicker/repopicker.go:149-152 | entering custom mode and cancelling it leaves the picker as it was, with an empty input |
| Scope.WithoutRepoTokens | internal/tui/components/section/section.go:341-349 | keeps exactly the tokens that do not start with `repo:` |
| Scope.WithoutToken | internal/tui/components/section/section.go:385-397 | keeps exactly the tokens other than the given one |
| Scope.StripRepoFilterTokens | internal/tui/components/section/section.go:341-349 | the result's tokens are the input's non-`repo:` tokens, in order |
| Scope.GetRepoFilterTokenValue | internal/tui/components/section/section.go:351-358 | no value exactly when no token of the text starts with `repo:`; otherwise the value of the first such token |
| Scope.HasRepoToken | internal/tui/components/section/section.go:243-251 | holds exactly when some token of the text starts with `repo:` |
| Scope.FirstRepoValue | internal/tui/components/section/section.go:351-358 | finds the first `repo:` token and returns its value, or reports that there is none |
| Scope.ApplyAuthorFilter | internal/tui/components/section/section.go:385-397 | with the author filter kept, the text is returned unchanged, spacing included; otherwise its tokens are those of the text other than `author:@me` |
| Scope.ApplyRepoFilter | internal/tui/components/section/section.go:361-382 | the query's tokens are the tokens of `repo:<filter>` (none for an empty filter) after author suppression, followed by the text's non-`repo:` tokens after author suppression; a whitespace-free filter gives the single token `repo:<filter>` |
| Scope.HasManualRepoFilter | internal/tui/components/section/section.go:308-338 | a manual filter exists exactly when the text has a `repo:` token and either there is no origin or its value is not the `owner/name` of the current target |
| Scope.ToggleFilterTarget | internal/tui/components/section/section.go:441-463 | with a `repo:` token in the configured filters, nothing changes; otherwise Origin goes to Upstream (to None without an upstream), Upstream to None and None to Origin, the remote flag is set exactly when the new target is not None, and nothing else changes |
| Scope.GetSearchValue | internal/tui/components/section/section.go:253-304 | with author suppression the query holds no `author:@me` token; without it, a custom filter leads the query as `repo:<filter>`, and a query not scoped automatically is the text as typed |
| Scope.ConfigFiltersWithCurrentRemoteAdded | internal/tui/components/section/section.go:87-114 | the filters are changed exactly when smart filtering is on, the origin resolves and no token names a repository; they are then `repo:<origin> ` followed by the filters |
| Scope.InitialScope | internal/tui/components/section/section.go:116-167 | a new section has no custom filter, keeps the author filter, is never on the Upstream target, is flagged as scoped exactly on the Origin target, and is on Origin exactly when its text differs from the configured filters |
| Scope.ClassifyRepoValue | internal/tui/components/section/section.go:610-643 | the text and author suppression are untouched; the remote flag is set exactly for a non-empty value; a value becomes the custom filter (with no target) exactly when it is non-empty and names neither remote; otherwise a non-empty value selects the target whose `owner/name` it is, the origin first; the empty value clears the custom filter and the target |
| Scope.SyncRepoFilterState | internal/tui/components/section/section.go:511-545 | after re-reading, the current repository filter is the text's first `repo:` value (empty when there is none), and the text and author suppression are untouched |
| Scope.HandleRepoSelected | internal/tui/components/section/section.go:607-644 | after a selection the current repository filter is the selected value, and the label shows it (`all` for the empty value), whether or not it was typed in |
| Scope.GetCurrentRepoFilter | internal/tui/components/section/section.go:585-604 | empty exactly when there is no custom filter and the target resolves to no remote; otherwise the custom filter or the target's `owner/name` |
| Scope.GetFilterTargetLabel | internal/tui/components/section/section.go:647-669 | the label is never empty and is the current repository filter whenever there is one |
| Scope.ToggleAuthorFilter | internal/tui/components/section/section.go:466-468 | flips author suppression and nothing else, so toggling twice restores the state |
| Scope.SetCustomRepoFilter | internal/tui/components/section/section.go:497-504 | records the filter; a non-empty one clears the target and sets the remote flag, an empty one changes nothing else |
| Scope.ClearCustomRepoFilter | internal/tui/components/section/section.go:507-509 | empties the custom filter and changes nothing else |
| Scope.BuildRepoPickerOptions | internal/tui/components/section/section.go:548-582 | one option per resolved remote, origin first and upstream next, then "all repositories" as the only empty value |
| ScopeProperties.StripRepoFilterTokensNormal | internal/tui/components/section/section.go:341-349 | the result has no `repo:` token, is its tokens joined by single spaces, and stripping again changes nothing |
| ScopeProperties.ApplyAuthorFilterDrops | internal/tui/components/section/section.go:385-397 | suppression drops exactly the `author:@me` tokens, and a text without one keeps all its tokens |
| ScopeProperties.ApplyRepoFilterNormal | internal/tui/components/section/section.go:361-382 | for a whitespace-free filter, the three shapes of the result are their tokens joined by single spaces |
| ScopeProperties.ApplyRepoFilterKeepsSpacing | internal/tui/components/section/section.go:361-382 | a filter `a  b` with a double inner space gives `repo:a  b` verbatim, which differs from its tokens joined by single spaces |
| ScopeProperties.QueryPrecedence | internal/tui/components/section/section.go:253-304 | a custom filter wins, even over a configured `repo:` token, and its tokens lead the text's non-`repo:` tokens; without one, no origin, a configured `repo:` token or a manual `repo:` token send the text as typed, author suppression aside; otherwise the target's repository (upstream falling back to origin) leads the text's other tokens |
| ScopeProperties.AutoScopedTrailingSpace | internal/tui/components/section/section.go:285-303 | with nothing else in the text, the scoped query keeps its trailing space after `repo:<owner/name>`, unless author suppression joins the tokens anew |
| ScopeProperties.ManualFilterKept | internal/tui/components/section/section.go:270-274 | a manual `repo:` token is never overwritten: the query's first `repo:` value is the text's |
| ScopeProperties.AuthorSuppressionOrthogonal | internal/tui/components/section/section.go:253-304 | suppressing the author removes exactly `author:@me` from the query and never changes its `repo:` scope |
| ScopeProperties.ToggleCycle | internal/tui/components/section/section.go:441-463 | from Origin, three toggles visit Upstream, None and Origin when an upstream resolves; without one, two toggles visit None and Origin, and Upstream goes to None, Origin, None |
| ScopeProperties.ToggleHiddenByCustomFilter | internal/tui/components/section/section.go:256-258 | while a custom filter is set, toggling the target does not change the query |
| ScopeProperties.SelectionRoundTrip | internal/tui/components/section/section.go:607-644 | a selected value becomes the current repository filter and the label (`all` for empty); the origin wins over an identical upstream; the text and author suppression are untouched |
| ScopeProperties.PickerOptionsAreNotCustom | internal/tui/components/section/section.go:548-582 | picking any offered option never sets a custom filter |
| ScopeProperties.LabelShowsCurrentFilter | internal/tui/components/section/section.go:647-669 | the label is the current repository filter, or the literal target name when no repository resolves |
| ScopeProperties.UpstreamFallbackLabel | internal/tui/components/section/section.go:290-297 | with the Upstream target and no upstream, the label reads `upstream` while the query is scoped to the origin |
| ScopeProperties.InitialTarget | internal/tui/components/section/section.go:87-167 | a section starts on the Origin target exactly when smart filtering is on, the origin resolves and the filters name no repository; its text is then led by the origin's `repo:` token, and otherwise it is the filters |
| ScopeProperties.SyncKeepsLeadingManualFilter | internal/tui/components/section/section.go:511-545 | a typed query `repo:x w` whose `x` names neither remote is sent as typed, and re-reading it and composing again gives the same query |
| ScopeProperties.ComposeSyncCompose | internal/tui/components/section/section.go:511-545 | re-reading the state from a query the engine built and composing the same expanded text again gives the same query |
| ScopeProperties.SyncSplitsSpacedCustomFilter | internal/tui/components/section/section.go:511-545 | a custom filter `a b` composes `repo:a b`; re-reading keeps only `a` as the custom filter and the label; recomposing the earlier text gives `repo:a`, a different query, while composing the re-read search value (with `b` no `repo:` token) gives `repo:a b` again |
| ScopeProperties.SyncReordersKeptFilter | internal/tui/components/section/section.go:511-545 | a query sent as typed with a `repo:` token after another token is changed by that round trip: the token becomes a custom filter and moves to the front |
| Section.StripRepoFilterTokens | internal/tui/components/section/section.go:341-349 | the loop computes the text's non-`repo:` tokens joined by single spaces |
| Section.GetRepoFilterTokenValue | internal/tui/components/section/section.go:351-358 | the loop returns the value of the first `repo:` token, or empty and false |
| Section.GetConfigFiltersWithCurrentRemoteAdded | internal/tui/components/section/section.go:87-114 | the loop leads the filters with the origin's `repo:` token only when smart filtering is on, the origin resolves and no token names a repository |
| Section.BaseModel.constructor | internal/tui/components/section/section.go:116-167 | the scope fields start as the initial scope, with the picker new and hidden |
| Section.BaseModel.HasRepoNameInConfiguredFilter | internal/tui/components/section/section.go:243-251 | the loop finds whether some configured token starts with `repo:` |
| Section.BaseModel.ApplyAuthorFilter | internal/tui/components/section/section.go:385-397 | the loop computes author suppression on the current flag |
| Section.BaseModel.ApplyRepoFilter | internal/tui/components/section/section.go:361-382 | computes the repository filter on the current flag |
| Section.BaseModel.HasManualRepoFilter | internal/tui/components/section/section.go:308-338 | the loop decides on the first `repo:` token against the current target |
| Section.BaseModel.GetSearchValue | internal/tui/components/section/section.go:253-304 | composes the query from the current fields |
| Section.BaseModel.ToggleFilterTarget | internal/tui/components/section/section.go:441-463 | moves the fields as the toggle does and leaves the picker alone |
| Section.BaseModel.ToggleAuthorFilter | internal/tui/components/section/section.go:466-468 | flips author suppression in place |
| Section.BaseModel.SetCustomRepoFilter | internal/tui/components/section/section.go:497-504 | sets the custom filter in place |
| Section.BaseModel.ClearCustomRepoFilter | internal/tui/components/section/section.go:507-509 | clears the custom filter in place |
| Section.BaseModel.SyncRepoFilterStateFromSearchValue | internal/tui/components/section/section.go:511-545 | classifies the first `repo:` value of the search text into the fields |
| Section.BaseModel.ShowRepoPicker | internal/tui/components/section/section.go:471-483 | gives the picker the options and the current `repo:` value, focuses it with the cursor on the first option, and leaves the scope alone |
| Section.BaseModel.HideRepoPicker | internal/tui/components/section/section.go:486-489 | blurs and hides the picker and leaves the scope alone |
| Section.BaseModel.HandleRepoSelected | internal/tui/components/section/section.go:607-644 | hides the picker and classifies the picked value into the fields, whether or not it was typed in |

## Left out

- Git I/O: `GetOriginUrl`, `GetUpstreamUrl`, `GetRepo`, `FetchRepo`,
  `GetStatus`, `GetRepoInPwd` and the command run by `getUnstagedStatus`.
  Remote identities and command output are inputs instead.
- Branch sorting in `GetRepo`: it depends on timestamps read from git.
- Template expansion of the search text (`enrichSearchWithTemplateVars`):
  it uses a template library and the clock. The expanded text is an input
  of the query composition.
- Rendering and UI plumbing: `View`, `GetMainContent`, `SetWidth`, styles,
  spinner, table, search bar, command wrapping.
- `IsRepoPickerFocused`: a getter of `isRepoPickerShown`, which the model
  exposes directly.
- Text editing inside the picker's custom input (delegated to a text-input
  widget): an edit is an abstract replacement of the input string.
- Unicode whitespace: `Fields` and `TrimSpace` treat only ASCII space, tab,
  newline, vertical tab, form feed and carriage return as whitespace.
- Git.GetUnstagedStatus: splits the output on `\n` rather than scanning
  lines with a 64 KiB limit. Blank lines and a trailing `\r` fall to the
  fewer-than-two-fields rule and the field split, so the lists are the
  same for lines within that limit.
- Git.ParseHttpUrl, Git.ParseSshUrl, Git.ParseNormalHttpUrl: state the
  table-driven test cases as general lemmas, not as one lemma per literal
  URL. They cover every host and owner, and every name that holds no
  whitespace and does not end in `.git`. Git.SshUrlAccepted and
  Git.HttpUrlAccepted cover every name.
- ScopeProperties.ApplyRepoFilterNormal: stated only for a whitespace-free
  filter, because a filter with an inner run of spaces is kept as typed
  (`ApplyRepoFilterKeepsSpacing`).
- Section.BaseModel.GetSearchValue: the source reads the search text and
  expands it itself; here the expanded text is a parameter.
- ScopeProperties.ComposeSyncCompose: requires a custom filter free of
  whitespace and distinct from both remotes. With a spaced filter,
  recomposing the earlier text after re-reading gives a different query,
  and re-reading changes the filter state and the label
  (`SyncSplitsSpacedCustomFilter`). It also
  requires remotes whose `owner/name` holds no whitespace, although the URL
  parser keeps inner spaces in an owner.
- ScopeProperties.AutoScopedTrailingSpace: the form without the trailing
  space under author suppression is stated only for remotes whose
  `owner/name` holds no whitespace.
- ScopeProperties.QueryPrecedence: the automatic-scoping clause is stated
  only for remotes whose `owner/name` holds no whitespace.
