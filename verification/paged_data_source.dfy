/** The page-keyed data source between the paged list and the repository
    (datasource/PagedRedditPostsDataSource.kt). Page keys are the repository's
    `after`/`before` cursors. Each load makes one repository call and invokes
    exactly one callback: the paging library's result callback with the page,
    or the error callback when the call threw. The coroutine launch is left
    out: each load runs to completion before the next. */
module PagedDataSource {
  import opened Wrappers
  import opened Jvm
  import opened RedditPost
  import Base = PostRepository
  import Repo = PostRepositoryExt

  /** The callbacks a load can invoke. */
  datatype Callback =
    | InitialResult(posts: seq<Post>, previousPageKey: Option<string>, nextPageKey: Option<string>)
    | PageResult(posts: seq<Post>, adjacentPageKey: Option<string>)
    | ErrorCallback

  /** The repository after the load, the callbacks invoked, and the requests
      sent to the network on the way. */
  datatype Load = Load(repo: Repo.Repository, callbacks: seq<Callback>, requests: seq<Base.Request>)

  /** `loadInitial`: asks for `requestedLoadSize` posts without cursors and
      reports (posts, pageBefore, pageAfter). */
  function LoadInitial(repo: Repo.Repository, requestedLoadSize: Int32, fetch: Base.Fetch): (l: Load)
    ensures var c := Repo.TopPostsTodayPage(repo, requestedLoadSize, None, None, fetch);
            && l.repo == c.repo
            && l.requests == c.requests
            && (c.page.Success? ==>
                  l.callbacks == [InitialResult(c.page.value.posts, c.page.value.pageBefore, c.page.value.pageAfter)])
            && (c.page.Failure? ==> l.callbacks == [ErrorCallback])
  {
    var c := Repo.TopPostsTodayPage(repo, requestedLoadSize, None, None, fetch);
    match c.page
    case Success(page) => Load(c.repo, [InitialResult(page.posts, page.pageBefore, page.pageAfter)], c.requests)
    case Failure(_) => Load(c.repo, [ErrorCallback], c.requests)
  }

  /** `loadBefore`: passes the key as the `before` cursor and reports the
      page's `pageBefore`. */
  function LoadBefore(repo: Repo.Repository, key: string, requestedLoadSize: Int32, fetch: Base.Fetch): (l: Load)
    ensures var c := Repo.TopPostsTodayPage(repo, requestedLoadSize, None, Some(key), fetch);
            && l.repo == c.repo
            && l.requests == c.requests
            && (c.page.Success? ==> l.callbacks == [PageResult(c.page.value.posts, c.page.value.pageBefore)])
            && (c.page.Failure? ==> l.callbacks == [ErrorCallback])
  {
    var c := Repo.TopPostsTodayPage(repo, requestedLoadSize, None, Some(key), fetch);
    match c.page
    case Success(page) => Load(c.repo, [PageResult(page.posts, page.pageBefore)], c.requests)
    case Failure(_) => Load(c.repo, [ErrorCallback], c.requests)
  }

  /** `loadAfter`: passes the key as the `after` cursor and reports the page's
      `pageAfter`. */
  function LoadAfter(repo: Repo.Repository, key: string, requestedLoadSize: Int32, fetch: Base.Fetch): (l: Load)
    ensures var c := Repo.TopPostsTodayPage(repo, requestedLoadSize, Some(key), None, fetch);
            && l.repo == c.repo
            && l.requests == c.requests
            && (c.page.Success? ==> l.callbacks == [PageResult(c.page.value.posts, c.page.value.pageAfter)])
            && (c.page.Failure? ==> l.callbacks == [ErrorCallback])
  {
    var c := Repo.TopPostsTodayPage(repo, requestedLoadSize, Some(key), None, fetch);
    match c.page
    case Success(page) => Load(c.repo, [PageResult(page.posts, page.pageAfter)], c.requests)
    case Failure(_) => Load(c.repo, [ErrorCallback], c.requests)
  }

  /** Every load invokes exactly one callback, and the error callback exactly
      when the repository call threw. */
  lemma OneCallbackPerLoad(repo: Repo.Repository, key: string, n: Int32, fetch: Base.Fetch)
    ensures var l := LoadInitial(repo, n, fetch);
            |l.callbacks| == 1
            && (l.callbacks[0].ErrorCallback?
                <==> Repo.TopPostsTodayPage(repo, n, None, None, fetch).page.Failure?)
    ensures var l := LoadBefore(repo, key, n, fetch);
            |l.callbacks| == 1
            && (l.callbacks[0].ErrorCallback? <==> fetch(Base.Request(n, None, Some(key))).Failure?)
    ensures var l := LoadAfter(repo, key, n, fetch);
            |l.callbacks| == 1
            && (l.callbacks[0].ErrorCallback? <==> fetch(Base.Request(n, Some(key), None)).Failure?)
  {
  }

  /** `loadBefore` always goes to the network with the key as `before` and
      nothing as `after`, forwards the overlaid posts of the fetched page in
      order, and reports the network's `before` cursor unchanged. */
  lemma LoadBeforeRoutesKeyToBefore(repo: Repo.Repository, key: string, n: Int32, fetch: Base.Fetch)
    ensures var l := LoadBefore(repo, key, n, fetch);
            && l.requests == [Base.Request(n, None, Some(key))]
            && match fetch(Base.Request(n, None, Some(key)))
               case Success(page) =>
                 l.callbacks == [PageResult(Repo.Overlay(page.posts, Repo.Ids(repo.base.filteredPosts), Repo.Ids(repo.readPosts)),
                                            page.pageBefore)]
               case Failure(_) => l.callbacks == [ErrorCallback]
  {
  }

  /** `loadAfter` always goes to the network with the key as `after`, forwards
      the overlaid posts of the fetched page in order, and reports the
      network's `after` cursor unless the ceiling was reached. */
  lemma LoadAfterRoutesKeyToAfter(repo: Repo.Repository, key: string, n: Int32, fetch: Base.Fetch)
    ensures var l := LoadAfter(repo, key, n, fetch);
            && l.requests == [Base.Request(n, Some(key), None)]
            && match fetch(Base.Request(n, Some(key), None))
               case Success(page) =>
                 l.callbacks == [PageResult(Repo.Overlay(page.posts, Repo.Ids(repo.base.filteredPosts), Repo.Ids(repo.readPosts)),
                                            if |Repo.Cache(l.repo)| >= repo.maxPosts then None else page.pageAfter)]
               case Failure(_) => l.callbacks == [ErrorCallback]
  {
  }

  /** A failed load leaves the repository as it was. */
  lemma FailedLoadChangesNothing(repo: Repo.Repository, key: string, n: Int32, fetch: Base.Fetch)
    ensures LoadInitial(repo, n, fetch).callbacks == [ErrorCallback] ==> LoadInitial(repo, n, fetch).repo == repo
    ensures LoadBefore(repo, key, n, fetch).callbacks == [ErrorCallback] ==> LoadBefore(repo, key, n, fetch).repo == repo
    ensures LoadAfter(repo, key, n, fetch).callbacks == [ErrorCallback] ==> LoadAfter(repo, key, n, fetch).repo == repo
  {
  }

  /** The data source's unit test expects `loadBefore` to send the key as
      `after` and to report `pageAfter`; the data source sends it as `before`,
      so that expected request is never made. */
  lemma LoadBeforeIsNotWhatItsTestExpects(repo: Repo.Repository, key: string, n: Int32, fetch: Base.Fetch)
    ensures LoadBefore(repo, key, n, fetch).requests != [Base.Request(n, Some(key), None)]
  {
  }
}
