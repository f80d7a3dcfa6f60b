/**
 * AppListComponent of the participant manager's site-coordinator view: the
 * paged list of apps, filtered by a search query, with its "load more" rule,
 * enrollment colour bands and permission checks.
 *
 * The rxjs plumbing is modelled as events on the component: a new search
 * parameter starts a first-page pipeline, loadMoreSites a next-page pipeline,
 * the service's response arrives with Deliver, and every new query makes the
 * current pipeline emit again. Each emission runs the pipeline's mapping
 * function on the response and the latest query.
 */
module AppList {
  import opened Wrappers
  import Strings

  /** An app as listed: absent fields are `undefined`. */
  datatype App = App(name: Option<string>, customId: Option<string>, enrollmentPercentage: Option<real>)

  /** The service's response: the apps of one page and the user's role. */
  datatype ManageApps = ManageApps(apps: seq<App>, superAdmin: bool, studyPermissionCount: int)

  /** The arguments of getUserApps(limit, offset, searchValue). */
  datatype PageRequest = PageRequest(limit: nat, offset: nat, searchValue: string)

  /**
   * The pipeline `manageApp$` currently holds: none yet, the first page, or a
   * next page to merge into `base`, the list held when the page was requested.
   * `response` is the service's answer once it has arrived.
   */
  datatype Pipeline =
    | Idle
    | FirstPage(response: Option<ManageApps>)
    | NextPage(base: ManageApps, response: Option<ManageApps>)

  /** The numeric codes of the Permission enum. */
  datatype PermissionCodes = PermissionCodes(view: int, viewAndEdit: int)

  // ---------------------------------------------------------------------
  // Filtering by query
  // ---------------------------------------------------------------------

  /** `field?.toLowerCase().includes(query.toLowerCase())`: an absent field never matches. */
  predicate FieldMatches(field: Option<string>, query: string) {
    field.Some? && Strings.Contains(Strings.ToLower(field.value), Strings.ToLower(query))
  }

  /** The filter callback: the name or the custom id contains the query, ignoring case. */
  predicate MatchesQuery(app: App, query: string) {
    FieldMatches(app.name, query) || FieldMatches(app.customId, query)
  }

  /** `xs` is `ys` with some elements left out, the rest in their order. */
  predicate IsSubsequence<T(==)>(xs: seq<T>, ys: seq<T>)
    decreases |ys|
  {
    if xs == [] then true
    else if ys == [] then false
    else (xs[0] == ys[0] && IsSubsequence(xs[1..], ys[1..])) || IsSubsequence(xs, ys[1..])
  }

  /** `apps.filter(...)`: the apps that match the query, in their order. */
  function FilterApps(apps: seq<App>, query: string): (r: seq<App>)
    ensures |r| <= |apps|
    ensures IsSubsequence(r, apps)
    ensures forall a :: a in r <==> a in apps && MatchesQuery(a, query)
  {
    if apps == [] then []
    else if MatchesQuery(apps[0], query) then [apps[0]] + FilterApps(apps[1..], query)
    else FilterApps(apps[1..], query)
  }

  /** Filtering a concatenation filters each part: the earlier part's apps come first. */
  lemma {:induction false} FilterAppsAppend(xs: seq<App>, ys: seq<App>, query: string)
    ensures FilterApps(xs + ys, query) == FilterApps(xs, query) + FilterApps(ys, query)
  {
    if xs == [] {
      assert xs + ys == ys;
    } else {
      assert (xs + ys)[1..] == xs[1..] + ys;
      FilterAppsAppend(xs[1..], ys, query);
    }
  }

  /** Filtering an already filtered list by the same query changes nothing. */
  lemma {:induction false} FilterAppsIdempotent(apps: seq<App>, query: string)
    ensures FilterApps(FilterApps(apps, query), query) == FilterApps(apps, query)
  {
    if apps != [] {
      FilterAppsIdempotent(apps[1..], query);
    }
  }

  /** The empty query keeps exactly the apps that have a name or a custom id. */
  lemma EmptyQueryKeepsIdentified(app: App)
    ensures MatchesQuery(app, "") <==> app.name.Some? || app.customId.Some?
  {
    if app.name.Some? {
      Strings.ContainsEmpty(Strings.ToLower(app.name.value));
    }
    if app.customId.Some? {
      Strings.ContainsEmpty(Strings.ToLower(app.customId.value));
    }
  }

  // ---------------------------------------------------------------------
  // Paging, warnings, colours and permissions
  // ---------------------------------------------------------------------

  /** The mapping of getApps' pipeline: the response with its apps filtered. */
  function FirstPageList(page: ManageApps, query: string): ManageApps {
    page.(apps := FilterApps(page.apps, query))
  }

  /** The mapping of loadMoreSites' pipeline: the loaded list followed by the page, then filtered. */
  function MergePage(base: ManageApps, page: ManageApps, query: string): ManageApps {
    base.(apps := FilterApps(base.apps + page.apps, query))
  }

  /** The apps loaded before keep their order and come before the page's apps. */
  lemma MergeKeepsLoadedFirst(base: ManageApps, page: ManageApps, query: string)
    ensures MergePage(base, page, query).apps == FilterApps(base.apps, query) + FilterApps(page.apps, query)
    ensures FilterApps(base.apps, query) == base.apps ==> base.apps <= MergePage(base, page, query).apps
  {
    FilterAppsAppend(base.apps, page.apps, query);
  }

  /** The toastr warning: never for a super admin, else when the user manages fewer than two studies. */
  predicate ShowsWarning(page: ManageApps): (warn: bool)
    ensures page.superAdmin ==> !warn
    ensures !page.superAdmin ==> (warn <==> page.studyPermissionCount <= 1)
  {
    !page.superAdmin && page.studyPermissionCount < 2
  }

  /** progressBarColor: green above 70, orange from 30 to 70, red otherwise (missing or 0 included). */
  function ProgressBarColor(app: App): (colour: string)
    ensures colour == "green__text__sm" <==> app.enrollmentPercentage.Some? && app.enrollmentPercentage.value > 70.0
    ensures colour == "orange__text__sm"
            <==> app.enrollmentPercentage.Some? && 30.0 <= app.enrollmentPercentage.value <= 70.0
    ensures colour == "red__text__sm" <==> app.enrollmentPercentage.None? || app.enrollmentPercentage.value < 30.0
  {
    // `undefined` and 0 are falsy
    var truthy := app.enrollmentPercentage.Some? && app.enrollmentPercentage.value != 0.0;
    if truthy && app.enrollmentPercentage.value > 70.0 then "green__text__sm"
    else if truthy && app.enrollmentPercentage.value >= 30.0 && app.enrollmentPercentage.value <= 70.0 then "orange__text__sm"
    else "red__text__sm"
  }

  /** checkEditPermission: only the view-and-edit code may edit. */
  predicate CheckEditPermission(codes: PermissionCodes, permission: int): (canEdit: bool)
    ensures canEdit ==> CheckViewPermission(codes, permission)
    ensures canEdit <==> CheckViewPermission(codes, permission) && (permission != codes.view || codes.view == codes.viewAndEdit)
  {
    permission == codes.viewAndEdit
  }

  /** checkViewPermission: the view-only and the view-and-edit codes may view. */
  predicate CheckViewPermission(codes: PermissionCodes, permission: int): (canView: bool)
    ensures canView <==> permission in {codes.view, codes.viewAndEdit}
  {
    permission == codes.view || permission == codes.viewAndEdit
  }

  /** Whoever may edit may view; viewing also admits the view-only code. */
  lemma EditImpliesView(codes: PermissionCodes, permission: int)
    ensures CheckEditPermission(codes, permission) ==> CheckViewPermission(codes, permission)
    ensures CheckViewPermission(codes, permission) <==> CheckEditPermission(codes, permission) || permission == codes.view
  {
  }

  // ---------------------------------------------------------------------
  // The component
  // ---------------------------------------------------------------------

  class AppListComponent {
    const limit: nat := 10
    /** The latest value of `query$`. */
    var query: string
    var searchValue: string
    /** `manageAppsBackup`; None while it is the empty object. */
    var manageAppsBackup: Option<ManageApps>
    var loadMoreEnabled: bool
    var pipeline: Pipeline
    /** The latest value `manageApp$` emitted to the view. */
    var manageApp: Option<ManageApps>

    /**
     * While a loadMoreSites request awaits its answer, nothing has replaced
     * the list it was asked for: the pipeline's base is the current list.
     */
    predicate AwaitedBaseIsCurrent()
      reads this
    {
      pipeline.NextPage? && pipeline.response.None? ==> manageAppsBackup == Some(pipeline.base)
    }

    constructor ()
      ensures query == "" && searchValue == "" && manageAppsBackup == None
      ensures loadMoreEnabled && pipeline == Idle && manageApp == None
      ensures AwaitedBaseIsCurrent()
    {
      query := "";
      searchValue := "";
      manageAppsBackup := None;
      loadMoreEnabled := true;
      pipeline := Idle;
      manageApp := None;
    }

    /** getApps: a first-page pipeline asking for `limit` apps from offset 0. */
    method GetApps() returns (req: PageRequest)
      modifies this`pipeline
      ensures pipeline == FirstPage(None)
      ensures req == PageRequest(limit, 0, searchValue)
      ensures AwaitedBaseIsCurrent()
    {
      pipeline := FirstPage(None);
      req := PageRequest(limit, 0, searchValue);
    }

    /** The subscription in ngOnInit: a new search term resets the list and fetches from offset 0. */
    method OnSearchParameter(term: string) returns (req: PageRequest)
      modifies this`manageAppsBackup, this`searchValue, this`pipeline
      ensures manageAppsBackup == None && searchValue == term && pipeline == FirstPage(None)
      ensures req.offset == 0 && req.limit == limit && req.searchValue == term
      ensures AwaitedBaseIsCurrent()
    {
      manageAppsBackup := None;
      searchValue := term;
      req := GetApps();
    }

    /**
     * loadMoreSites: asks for the page that starts at the current list's length.
     * With no list loaded (`manageAppsBackup.apps` is undefined) it fails and
     * changes nothing.
     */
    method LoadMoreSites() returns (req: Option<PageRequest>)
      requires AwaitedBaseIsCurrent()
      modifies this`pipeline
      ensures AwaitedBaseIsCurrent()
      ensures manageAppsBackup.None? ==> req == None && pipeline == old(pipeline)
      ensures manageAppsBackup.Some? ==>
        && req == Some(PageRequest(limit, |manageAppsBackup.value.apps|, searchValue))
        && pipeline == NextPage(manageAppsBackup.value, None)
    {
      if manageAppsBackup.None? {
        return None;
      }
      var offset := |manageAppsBackup.value.apps|;
      pipeline := NextPage(manageAppsBackup.value, None);
      req := Some(PageRequest(limit, offset, searchValue));
    }

    /**
     * The view shows `page` as the current pipeline maps it under the current
     * query: that list is the backup and the emitted value, and loading more
     * stays enabled exactly when its length is a multiple of `limit`.
     */
    predicate Shows(page: ManageApps)
      reads this
    {
      && pipeline != Idle
      && manageAppsBackup == Some(if pipeline.FirstPage? then FirstPageList(page, query)
                                  else MergePage(pipeline.base, page, query))
      && loadMoreEnabled == (|manageAppsBackup.value.apps| % limit == 0)
      && manageApp == manageAppsBackup
    }

    /** One run of the current pipeline's mapping on `page` with the latest query. */
    method Emit(page: ManageApps) returns (warned: bool)
      requires pipeline != Idle && pipeline.response.Some?
      modifies this`manageAppsBackup, this`loadMoreEnabled, this`manageApp
      ensures AwaitedBaseIsCurrent()
      ensures warned == ShowsWarning(page)
      ensures Shows(page)
    {
      var list := if pipeline.FirstPage? then page else pipeline.base.(apps := pipeline.base.apps + page.apps);
      warned := ShowsWarning(page);
      list := list.(apps := FilterApps(list.apps, query));
      manageAppsBackup := Some(list);
      loadMoreEnabled := |list.apps| % limit == 0;
      manageApp := manageAppsBackup;
    }

    /** The service answers the current pipeline's request. */
    method Deliver(page: ManageApps) returns (warned: bool)
      requires AwaitedBaseIsCurrent()
      modifies this`pipeline, this`manageAppsBackup, this`loadMoreEnabled, this`manageApp
      ensures AwaitedBaseIsCurrent()
      ensures old(pipeline) == Idle ==> !warned && pipeline == Idle && unchanged(this)
      ensures old(pipeline) != Idle ==>
        && pipeline == old(pipeline).(response := Some(page))
        && warned == ShowsWarning(page)
        && Shows(page)
      ensures old(pipeline).NextPage? && old(pipeline).response.None? ==>
        manageAppsBackup == Some(MergeAsWritten(old(manageAppsBackup).value, page, query))
    {
      if pipeline == Idle {
        return false;
      }
      pipeline := pipeline.(response := Some(page));
      warned := Emit(page);
    }

    /** A pipeline that has its response runs its mapping again under the current query; any other changes nothing. */
    method Reemit() returns (warned: bool)
      requires AwaitedBaseIsCurrent()
      modifies this`manageAppsBackup, this`loadMoreEnabled, this`manageApp
      ensures AwaitedBaseIsCurrent()
      ensures (pipeline == Idle || pipeline.response.None?) ==>
        && !warned && manageAppsBackup == old(manageAppsBackup)
        && loadMoreEnabled == old(loadMoreEnabled) && manageApp == old(manageApp)
      ensures pipeline != Idle && pipeline.response.Some? ==>
        warned == ShowsWarning(pipeline.response.value) && Shows(pipeline.response.value)
    {
      if pipeline == Idle || pipeline.response.None? {
        return false;
      }
      warned := Emit(pipeline.response.value);
    }

    /** search: publishes the trimmed query; a pipeline that has its response emits again. */
    method Search(q: string) returns (warned: bool)
      requires AwaitedBaseIsCurrent()
      modifies this`query, this`manageAppsBackup, this`loadMoreEnabled, this`manageApp
      ensures AwaitedBaseIsCurrent()
      ensures query == Strings.Trim(q)
      ensures (pipeline == Idle || pipeline.response.None?) ==>
        && !warned && manageAppsBackup == old(manageAppsBackup)
        && loadMoreEnabled == old(loadMoreEnabled) && manageApp == old(manageApp)
      ensures pipeline != Idle && pipeline.response.Some? ==>
        warned == ShowsWarning(pipeline.response.value) && Shows(pipeline.response.value)
    {
      query := Strings.Trim(q);
      warned := Reemit();
    }
  }

  // ---------------------------------------------------------------------
  // Re-emission of loadMoreSites' pipeline
  // ---------------------------------------------------------------------

  /**
   * The mapping as loadMoreSites writes it: it merges the page into the
   * component's current list, which after the first emission already holds it.
   */
  function MergeAsWritten(current: ManageApps, page: ManageApps, query: string): (merged: ManageApps)
    ensures merged.apps == FilterApps(current.apps, query) + FilterApps(page.apps, query)
    ensures |merged.apps| <= |current.apps| + |page.apps|
  {
    FilterAppsAppend(current.apps, page.apps, query);
    current.(apps := FilterApps(current.apps + page.apps, query))
  }

  /** Two apps with names, for the counterexample below. */
  const AppA: App := App(Some("A"), None, None)
  const AppB: App := App(Some("B"), None, None)

  /**
   * With [A] loaded and page [B] delivered, the first emission shows [A, B];
   * a later query emission (same query "") merges [B] into [A, B] again.
   */
  lemma ReemissionDuplicatesAsWritten()
    ensures var base := ManageApps([AppA], false, 2);
            var page := ManageApps([AppB], false, 2);
            var first := MergeAsWritten(base, page, "");
            first.apps == [AppA, AppB] && MergeAsWritten(first, page, "").apps == [AppA, AppB, AppB]
  {
    EmptyQueryKeepsIdentified(AppA);
    EmptyQueryKeepsIdentified(AppB);
    assert [AppA] + [AppB] == [AppA, AppB];
    assert [AppA, AppB] + [AppB] == [AppA, AppB, AppB];
    assert FilterApps([AppB], "") == [AppB];
    assert FilterApps([AppB, AppB], "") == [AppB, AppB];
    assert FilterApps([AppA, AppB], "") == [AppA, AppB];
    assert FilterApps([AppA, AppB, AppB], "") == [AppA, AppB, AppB];
  }

  /** No app is listed twice. */
  predicate Distinct(apps: seq<App>) {
    forall i, j :: 0 <= i < j < |apps| ==> apps[i] != apps[j]
  }

  /** Filtering never repeats an app. */
  lemma {:induction false} FilterKeepsDistinct(apps: seq<App>, query: string)
    requires Distinct(apps)
    ensures Distinct(FilterApps(apps, query))
  {
    if apps != [] {
      assert Distinct(apps[1..]);
      FilterKeepsDistinct(apps[1..], query);
      assert apps[0] !in apps[1..];
    }
  }

  /**
   * With the base captured when the page is requested, every emission for any
   * query shows the base's apps before the page's, and repeats no app when the
   * base and the page hold distinct apps.
   */
  lemma ReemissionStable(base: ManageApps, page: ManageApps, query: string)
    ensures MergePage(base, page, query).apps == FilterApps(base.apps, query) + FilterApps(page.apps, query)
    ensures Distinct(base.apps + page.apps) ==> Distinct(MergePage(base, page, query).apps)
  {
    FilterAppsAppend(base.apps, page.apps, query);
    if Distinct(base.apps + page.apps) {
      FilterKeepsDistinct(base.apps + page.apps, query);
    }
  }

  /** The as-written merge breaks that: [A] and [B] are distinct, the re-emission is not. */
  lemma ReemissionNotDistinctAsWritten()
    ensures var base := ManageApps([AppA], false, 2);
            var page := ManageApps([AppB], false, 2);
            Distinct(base.apps + page.apps)
            && !Distinct(MergeAsWritten(MergeAsWritten(base, page, ""), page, "").apps)
  {
    ReemissionDuplicatesAsWritten();
    var l := [AppA, AppB, AppB];
    assert l[1] == l[2];
  }
}
