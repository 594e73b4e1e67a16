/** The list screen's view model (redditpostlist/viewmodel/PostListViewModel.kt)
    as a reducer. Its inputs are the four input channels plus what the paging
    machinery reports: a paged list delivered, pages inserted, removed or
    changed in it, and the data source's error callback. Its outputs are the
    `isRefreshing` and `showPostDetails` values and a list of effects: calls on
    the repository, invalidations of the current data source and the one-shot
    events. Each flow's `launchIn` collector is taken to run to completion
    before the next input, in the order the view model registers them: the
    repository calls and invalidations of the list output first, the
    close-details `combine` last. */
module PostListViewModel {
  import opened Wrappers
  import opened Jvm
  import opened RedditPost
  import Base = PostRepository
  import Repo = PostRepositoryExt
  import DataSource = PagedDataSource

  datatype Input =
    | Refresh
    | ClickPostListItem(post: Post)
    | ClickDismissPost(post: Post)
    | ClickDismissAll
    | PagedListDelivered
    | PageInserted
    | PageRemoved
    | PageChanged
    | ErrorLoadingPage

  datatype Effect =
    | InvalidateLocalData
    | FilterPost(post: Post)
    | MarkPostAsRead(post: Post)
    | InvalidateDataSource
    | ClosePostDetails
    | ClearedAll
    | ErrorLoadingPageEvent

  /** `lastDismissed` is the latest value the close-details `combine` has seen
      from the dismiss channel; `hasPagedList` says whether the paged list
      has a value (and the load callback is attached). */
  datatype State = State(
    isRefreshing: bool,
    showPostDetails: Option<Post>,
    lastDismissed: Option<Post>,
    hasPagedList: bool
  )

  /** The state after some inputs and every effect produced so far, in order. */
  datatype Trace = Trace(state: State, effects: seq<Effect>)

  /** `isRefreshing` starts as `true`; nothing else has a value yet. */
  const Initial := State(true, None, None, false)

  predicate IsPageEvent(input: Input) {
    input.PageInserted? || input.PageRemoved? || input.PageChanged?
  }

  /** `pagedList.value?.dataSource?.invalidate()`. */
  function InvalidateIfListed(state: State): seq<Effect> {
    if state.hasPagedList then [InvalidateDataSource] else []
  }

  /** The `combine` of dismissed and shown posts, filtered on equal ids. */
  function CloseIfSameId(dismissed: Option<Post>, shown: Option<Post>): (fx: seq<Effect>)
    ensures fx == [ClosePostDetails] <==> dismissed.Some? && shown.Some? && dismissed.value.id == shown.value.id
    ensures fx == [] || fx == [ClosePostDetails]
  {
    if dismissed.Some? && shown.Some? && dismissed.value.id == shown.value.id then [ClosePostDetails] else []
  }

  /** One input. */
  function Step(state: State, input: Input): Trace {
    match input
    case Refresh =>
      Trace(state.(isRefreshing := true), [InvalidateLocalData] + InvalidateIfListed(state))
    case ClickPostListItem(post) =>
      var next := state.(showPostDetails := Some(post));
      Trace(next, [MarkPostAsRead(post)] + InvalidateIfListed(state) + CloseIfSameId(state.lastDismissed, Some(post)))
    case ClickDismissPost(post) =>
      var next := state.(lastDismissed := Some(post));
      Trace(next, [FilterPost(post)] + InvalidateIfListed(state) + CloseIfSameId(Some(post), state.showPostDetails))
    case ClickDismissAll =>
      Trace(state, [ClearedAll, ClosePostDetails])
    case PagedListDelivered =>
      Trace(state.(hasPagedList := true), [])
    case ErrorLoadingPage =>
      Trace(state.(isRefreshing := false), [ErrorLoadingPageEvent])
    case _ =>
      Trace(if state.hasPagedList then state.(isRefreshing := false) else state, [])
  }

  /** The trace of a stream of inputs, folded from the first. */
  function Run(inputs: seq<Input>): Trace
    decreases |inputs|
  {
    if |inputs| == 0 then Trace(Initial, [])
    else
      var before := Run(inputs[..|inputs| - 1]);
      var step := Step(before.state, inputs[|inputs| - 1]);
      Trace(step.state, before.effects + step.effects)
  }

  // ---------------------------------------------------------------------------
  // Reference definitions

  /** A paged list was delivered before position `i`. */
  predicate ListedBefore(inputs: seq<Input>, i: int) {
    exists j :: 0 <= j < i && j < |inputs| && inputs[j].PagedListDelivered?
  }

  /** Input `i` ends a refresh: a load error, or a page change reported by a
      delivered paged list. */
  predicate EndsRefresh(inputs: seq<Input>, i: int)
    requires 0 <= i < |inputs|
  {
    inputs[i].ErrorLoadingPage? || (IsPageEvent(inputs[i]) && ListedBefore(inputs, i))
  }

  /** Input `i` is the latest click on a list item. */
  predicate LatestClick(inputs: seq<Input>, i: int) {
    && 0 <= i < |inputs|
    && inputs[i].ClickPostListItem?
    && forall j :: i < j < |inputs| ==> !inputs[j].ClickPostListItem?
  }

  /** The posts dismissed by a stream of inputs, in order. */
  function Dismissed(inputs: seq<Input>): seq<Post>
    decreases |inputs|
  {
    if |inputs| == 0 then []
    else (if inputs[0].ClickDismissPost? then [inputs[0].post] else []) + Dismissed(inputs[1..])
  }

  /** The posts clicked in a stream of inputs, in order. */
  function Clicked(inputs: seq<Input>): seq<Post>
    decreases |inputs|
  {
    if |inputs| == 0 then []
    else (if inputs[0].ClickPostListItem? then [inputs[0].post] else []) + Clicked(inputs[1..])
  }

  /** The posts a list of effects dismisses in the repository, in order. */
  function FilteredBy(effects: seq<Effect>): seq<Post>
    decreases |effects|
  {
    if |effects| == 0 then []
    else (if effects[0].FilterPost? then [effects[0].post] else []) + FilteredBy(effects[1..])
  }

  /** The posts a list of effects marks read in the repository, in order. */
  function MarkedBy(effects: seq<Effect>): seq<Post>
    decreases |effects|
  {
    if |effects| == 0 then []
    else (if effects[0].MarkPostAsRead? then [effects[0].post] else []) + MarkedBy(effects[1..])
  }

  /** The repository calls among the effects, performed in order. */
  function ApplyEffects(repo: Repo.Repository, effects: seq<Effect>): Repo.Repository
    decreases |effects|
  {
    if |effects| == 0 then repo
    else
      var next := match effects[0]
        case InvalidateLocalData => Repo.InvalidateLocalData(repo)
        case FilterPost(post) => Repo.FilterPost(repo, post)
        case MarkPostAsRead(post) => Repo.MarkPostAsRead(repo, post)
        case _ => repo;
      ApplyEffects(next, effects[1..])
  }

  // ---------------------------------------------------------------------------
  // Append lemmas

  lemma {:induction false} DismissedSnoc(inputs: seq<Input>, input: Input)
    ensures Dismissed(inputs + [input]) == Dismissed(inputs) + (if input.ClickDismissPost? then [input.post] else [])
    decreases |inputs|
  {
    if |inputs| == 0 {
      assert inputs + [input] == [input];
      assert [input][1..] == [];
    } else {
      assert (inputs + [input])[0] == inputs[0];
      assert (inputs + [input])[1..] == inputs[1..] + [input];
      DismissedSnoc(inputs[1..], input);
    }
  }

  lemma {:induction false} ClickedSnoc(inputs: seq<Input>, input: Input)
    ensures Clicked(inputs + [input]) == Clicked(inputs) + (if input.ClickPostListItem? then [input.post] else [])
    decreases |inputs|
  {
    if |inputs| == 0 {
      assert inputs + [input] == [input];
      assert [input][1..] == [];
    } else {
      assert (inputs + [input])[0] == inputs[0];
      assert (inputs + [input])[1..] == inputs[1..] + [input];
      ClickedSnoc(inputs[1..], input);
    }
  }

  lemma {:induction false} FilteredByAppend(xs: seq<Effect>, ys: seq<Effect>)
    ensures FilteredBy(xs + ys) == FilteredBy(xs) + FilteredBy(ys)
    decreases |xs|
  {
    if |xs| == 0 {
      assert xs + ys == ys;
    } else {
      assert (xs + ys)[0] == xs[0];
      assert (xs + ys)[1..] == xs[1..] + ys;
      FilteredByAppend(xs[1..], ys);
    }
  }

  lemma {:induction false} MarkedByAppend(xs: seq<Effect>, ys: seq<Effect>)
    ensures MarkedBy(xs + ys) == MarkedBy(xs) + MarkedBy(ys)
    decreases |xs|
  {
    if |xs| == 0 {
      assert xs + ys == ys;
    } else {
      assert (xs + ys)[0] == xs[0];
      assert (xs + ys)[1..] == xs[1..] + ys;
      MarkedByAppend(xs[1..], ys);
    }
  }

  lemma {:induction false} ApplyEffectsAppend(repo: Repo.Repository, xs: seq<Effect>, ys: seq<Effect>)
    ensures ApplyEffects(repo, xs + ys) == ApplyEffects(ApplyEffects(repo, xs), ys)
    decreases |xs|
  {
    if |xs| == 0 {
      assert xs + ys == ys;
    } else {
      assert (xs + ys)[0] == xs[0];
      assert (xs + ys)[1..] == xs[1..] + ys;
      var next := match xs[0]
        case InvalidateLocalData => Repo.InvalidateLocalData(repo)
        case FilterPost(post) => Repo.FilterPost(repo, post)
        case MarkPostAsRead(post) => Repo.MarkPostAsRead(repo, post)
        case _ => repo;
      ApplyEffectsAppend(next, xs[1..], ys);
    }
  }

  // ---------------------------------------------------------------------------
  // Properties of the view model alone

  /** Every input that ended a refresh was followed by a new `Refresh`. */
  predicate RefreshedSinceLastEnd(inputs: seq<Input>) {
    forall i :: 0 <= i < |inputs| && EndsRefresh(inputs, i) ==> exists j :: i < j < |inputs| && inputs[j].Refresh?
  }

  /** Extending the inputs by one: a `Refresh` starts a refresh, an input that
      ends one ends it, anything else keeps it as it was. */
  lemma RefreshedSinceLastEndSnoc(inputs: seq<Input>, x: Input)
    ensures ListedBefore(inputs + [x], |inputs| + 1) <==> ListedBefore(inputs, |inputs|) || x.PagedListDelivered?
    ensures EndsRefresh(inputs + [x], |inputs|)
        <==> x.ErrorLoadingPage? || (IsPageEvent(x) && ListedBefore(inputs, |inputs|))
    ensures RefreshedSinceLastEnd(inputs + [x])
        <==> x.Refresh? || (!EndsRefresh(inputs + [x], |inputs|) && RefreshedSinceLastEnd(inputs))
  {
    var all := inputs + [x];
    var n := |inputs|;
    assert all[n] == x;
    assert forall i :: 0 <= i < n ==> all[i] == inputs[i];
    assert forall i :: 0 <= i <= n ==> (ListedBefore(all, i) <==> ListedBefore(inputs, i));
    assert forall i :: 0 <= i < n ==> (EndsRefresh(all, i) <==> EndsRefresh(inputs, i));
    if x.Refresh? {
      forall i | 0 <= i < |all| && EndsRefresh(all, i)
        ensures exists j :: i < j < |all| && all[j].Refresh?
      {
        assert i < n && all[n].Refresh?;
      }
    } else if !EndsRefresh(all, n) {
      if RefreshedSinceLastEnd(inputs) {
        forall i | 0 <= i < |all| && EndsRefresh(all, i)
          ensures exists j :: i < j < |all| && all[j].Refresh?
        {
          var j :| i < j < n && inputs[j].Refresh?;
          assert all[j].Refresh?;
        }
      }
      if RefreshedSinceLastEnd(all) {
        forall i | 0 <= i < n && EndsRefresh(inputs, i)
          ensures exists j :: i < j < n && inputs[j].Refresh?
        {
          var j :| i < j < |all| && all[j].Refresh?;
          assert inputs[j].Refresh?;
        }
      }
    }
  }

  /** `isRefreshing` is true exactly when every input that ended a refresh was
      followed by a new `Refresh` (in particular, before anything ended one);
      page changes count only once a paged list was delivered. */
  lemma {:induction false} RefreshingUntilLoaded(inputs: seq<Input>)
    ensures Run(inputs).state.hasPagedList <==> ListedBefore(inputs, |inputs|)
    ensures Run(inputs).state.isRefreshing <==> RefreshedSinceLastEnd(inputs)
    decreases |inputs|
  {
    if |inputs| > 0 {
      var n := |inputs| - 1;
      assert inputs == inputs[..n] + [inputs[n]];
      RefreshingUntilLoaded(inputs[..n]);
      RefreshedSinceLastEndSnoc(inputs[..n], inputs[n]);
    }
  }

  /** The details pane shows the latest clicked post, and nothing before the
      first click. */
  lemma {:induction false} ShowsLatestClick(inputs: seq<Input>)
    ensures Run(inputs).state.showPostDetails.None? <==> Clicked(inputs) == []
    ensures Run(inputs).state.showPostDetails.Some?
        ==> Run(inputs).state.showPostDetails.value == Clicked(inputs)[|Clicked(inputs)| - 1]
    decreases |inputs|
  {
    if |inputs| > 0 {
      var n := |inputs| - 1;
      assert inputs == inputs[..n] + [inputs[n]];
      ShowsLatestClick(inputs[..n]);
      ClickedSnoc(inputs[..n], inputs[n]);
    }
  }

  /** The latest clicked post is the post of the latest click: no click on a
      list item follows it. */
  lemma {:induction false} LatestClickedIsLatestClick(inputs: seq<Input>)
    requires Clicked(inputs) != []
    ensures exists i :: LatestClick(inputs, i) && inputs[i].post == Clicked(inputs)[|Clicked(inputs)| - 1]
    decreases |inputs|
  {
    var n := |inputs| - 1;
    var prefix := inputs[..n];
    assert inputs == prefix + [inputs[n]];
    ClickedSnoc(prefix, inputs[n]);
    if inputs[n].ClickPostListItem? {
      assert LatestClick(inputs, n);
    } else {
      LatestClickedIsLatestClick(prefix);
      var i :| LatestClick(prefix, i) && prefix[i].post == Clicked(prefix)[|Clicked(prefix)| - 1];
      assert inputs[i] == prefix[i];
      assert forall j :: i < j < n ==> inputs[j] == prefix[j];
      assert LatestClick(inputs, i);
    }
  }

  /** The last dismissed post the close-details `combine` remembers is the
      latest dismissed one. */
  lemma {:induction false} RemembersLatestDismissal(inputs: seq<Input>)
    ensures Run(inputs).state.lastDismissed.None? <==> Dismissed(inputs) == []
    ensures Run(inputs).state.lastDismissed.Some?
        ==> Run(inputs).state.lastDismissed.value == Dismissed(inputs)[|Dismissed(inputs)| - 1]
    decreases |inputs|
  {
    if |inputs| > 0 {
      var n := |inputs| - 1;
      assert inputs == inputs[..n] + [inputs[n]];
      RemembersLatestDismissal(inputs[..n]);
      DismissedSnoc(inputs[..n], inputs[n]);
    }
  }

  /** Dismissing a post closes the details pane exactly when the pane shows a
      post with that id; clicking a post closes it exactly when the last
      dismissed post had the clicked post's id; "dismiss all" always closes it
      and reports that the list was cleared. */
  lemma ClosesDetailsWhen(state: State, post: Post)
    ensures ClosePostDetails in Step(state, ClickDismissPost(post)).effects
        <==> state.showPostDetails.Some? && state.showPostDetails.value.id == post.id
    ensures ClosePostDetails in Step(state, ClickPostListItem(post)).effects
        <==> state.lastDismissed.Some? && state.lastDismissed.value.id == post.id
    ensures Step(state, ClickDismissAll).effects == [ClearedAll, ClosePostDetails]
  {
  }

  /** A refresh, a click or a dismissal first calls the repository
      (`invalidateLocalData`, `markPostAsRead`, `filterPost`) and then
      invalidates the data source, the latter only once a paged list exists;
      no other input invalidates anything. */
  lemma RepositoryCallThenInvalidate(state: State, input: Input)
    ensures var fx := Step(state, input).effects;
            if input.Refresh? || input.ClickPostListItem? || input.ClickDismissPost? then
              && |fx| >= 1
              && fx[0] == (match input
                           case Refresh => InvalidateLocalData
                           case ClickPostListItem(p) => MarkPostAsRead(p)
                           case _ => FilterPost(input.post))
              && (InvalidateDataSource in fx <==> state.hasPagedList)
              && (state.hasPagedList ==> fx[1] == InvalidateDataSource)
            else
              InvalidateDataSource !in fx && InvalidateLocalData !in fx
  {
  }

  /** The repository hears of every dismissal and every click, in order. */
  lemma {:induction false} ForwardsDismissalsAndClicks(inputs: seq<Input>)
    ensures FilteredBy(Run(inputs).effects) == Dismissed(inputs)
    ensures MarkedBy(Run(inputs).effects) == Clicked(inputs)
    decreases |inputs|
  {
    if |inputs| > 0 {
      var n := |inputs| - 1;
      var prefix := inputs[..n];
      assert inputs == prefix + [inputs[n]];
      ForwardsDismissalsAndClicks(prefix);
      var before := Run(prefix);
      var step := Step(before.state, inputs[n]);
      FilteredByAppend(before.effects, step.effects);
      MarkedByAppend(before.effects, step.effects);
      DismissedSnoc(prefix, inputs[n]);
      ClickedSnoc(prefix, inputs[n]);
      assert FilteredBy(step.effects) == (if inputs[n].ClickDismissPost? then [inputs[n].post] else []) by {
        EffectsOfStep(before.state, inputs[n]);
      }
      assert MarkedBy(step.effects) == (if inputs[n].ClickPostListItem? then [inputs[n].post] else []) by {
        EffectsOfStep(before.state, inputs[n]);
      }
    }
  }

  /** Effects with no repository call dismiss and mark nothing. */
  lemma {:induction false} NoRepositoryCalls(effects: seq<Effect>)
    requires forall k :: 0 <= k < |effects| ==> !effects[k].FilterPost? && !effects[k].MarkPostAsRead?
    ensures FilteredBy(effects) == [] && MarkedBy(effects) == []
    decreases |effects|
  {
    if |effects| > 0 {
      NoRepositoryCalls(effects[1..]);
    }
  }

  /** The repository calls of one step: a dismissal filters its post, a click
      marks its post read, and nothing else does either. */
  lemma EffectsOfStep(state: State, input: Input)
    ensures FilteredBy(Step(state, input).effects) == (if input.ClickDismissPost? then [input.post] else [])
    ensures MarkedBy(Step(state, input).effects) == (if input.ClickPostListItem? then [input.post] else [])
  {
    var fx := Step(state, input).effects;
    if input.ClickPostListItem? || input.ClickDismissPost? {
      assert fx[0] == (if input.ClickPostListItem? then MarkPostAsRead(input.post) else FilterPost(input.post));
      NoRepositoryCalls(fx[1..]);
    } else {
      NoRepositoryCalls(fx);
    }
  }

  // ---------------------------------------------------------------------------
  // The view model driving the repository and the data source

  /** Performing the effects appends the dismissed and the clicked posts to
      the repository's lists, in order, and touches nothing else but the cache. */
  lemma {:induction false} EffectsReachRepository(repo: Repo.Repository, effects: seq<Effect>)
    ensures ApplyEffects(repo, effects).base.filteredPosts == repo.base.filteredPosts + FilteredBy(effects)
    ensures ApplyEffects(repo, effects).readPosts == repo.readPosts + MarkedBy(effects)
    ensures ApplyEffects(repo, effects).maxPosts == repo.maxPosts
    decreases |effects|
  {
    if |effects| > 0 {
      var next := match effects[0]
        case InvalidateLocalData => Repo.InvalidateLocalData(repo)
        case FilterPost(post) => Repo.FilterPost(repo, post)
        case MarkPostAsRead(post) => Repo.MarkPostAsRead(repo, post)
        case _ => repo;
      EffectsReachRepository(next, effects[1..]);
    }
  }

  /** After any session, the reload that the data source's invalidation
      triggers never shows a post with the id of a post dismissed during the
      session, and shows every post with the id of a clicked post as read. */
  lemma DismissedAndReadSurviveReload(repo: Repo.Repository, inputs: seq<Input>, n: Int32, fetch: Base.Fetch)
    ensures var after := ApplyEffects(repo, Run(inputs).effects);
            var load := DataSource.LoadInitial(after, n, fetch);
            load.callbacks[0].InitialResult? ==>
              && (forall q, p :: q in load.callbacks[0].posts && p in Dismissed(inputs) ==> q.id != p.id)
              && (forall q, p :: q in load.callbacks[0].posts && p in Clicked(inputs) && q.id == p.id ==> q.isRead)
  {
    var fx := Run(inputs).effects;
    var after := ApplyEffects(repo, fx);
    EffectsReachRepository(repo, fx);
    ForwardsDismissalsAndClicks(inputs);
    assert forall p :: p in Dismissed(inputs) ==> p.id in Repo.Ids(after.base.filteredPosts);
    assert forall p :: p in Clicked(inputs) ==> p.id in Repo.Ids(after.readPosts);
    Repo.AnswersApplyOverlays(after, n, None, None, fetch);
  }

  /** A pull-to-refresh empties the cache, so the reload it triggers goes to
      the network with no cursor, whatever was cached before. */
  lemma RefreshReloadsFromNetwork(repo: Repo.Repository, inputs: seq<Input>, n: Int32, fetch: Base.Fetch)
    ensures var after := ApplyEffects(repo, Run(inputs + [Refresh]).effects);
            DataSource.LoadInitial(after, n, fetch).requests == [Base.Request(n, None, None)]
  {
    var all := inputs + [Refresh];
    assert all[..|all| - 1] == inputs;
    var before := Run(inputs);
    var step := Step(before.state, Refresh);
    var inval := InvalidateIfListed(before.state);
    ApplyEffectsAppend(repo, before.effects, step.effects);
    var mid := ApplyEffects(repo, before.effects);
    ApplyEffectsAppend(mid, [InvalidateLocalData], inval);
    assert [InvalidateLocalData][1..] == [];
    var cleared := Repo.InvalidateLocalData(mid);
    assert ApplyEffects(mid, [InvalidateLocalData]) == cleared;
    assert ApplyEffects(cleared, inval) == cleared by {
      if before.state.hasPagedList {
        assert inval[1..] == [];
      }
    }
  }
}
