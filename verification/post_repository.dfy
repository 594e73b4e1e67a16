/** The in-memory post repository as the domain layer writes it
    (domain/repository/RedditPostRepository.kt): a cache of every post fetched
    since the last invalidation and a list of dismissed posts. The network (API
    call plus conversion) is a fetch oracle passed to each call; every call also
    reports the requests it sent, so "no fetch" and "exactly one fetch" can be
    stated. */
module PostRepository {
  import opened Wrappers
  import opened Jvm
  import opened RedditPost
  import RedditPostsResponse
  import Converter = PageConverter

  /** The arguments of one `getTopPostsTodayPage` call. */
  datatype Request = Request(numOfItems: Int32, after: Option<string>, before: Option<string>)

  /** Whatever the API call or the converter threw; passed through untouched. */
  datatype FetchError =
    | ApiError(cause: string)
    | ConversionFailed(error: Converter.ConversionError)

  /** The network: one request, answered with a converted page or an error. */
  type Fetch = Request -> Result<Page, FetchError>

  /** The API alone: one request, answered with the listing or an error. */
  type Api = Request -> Result<RedditPostsResponse.Response, FetchError>

  /** The network path of `topPostsTodayPage`: the API call, then the
      converter on its listing. */
  function ConvertingFetch(api: Api, relativeTime: Converter.RelativeTime, htmlDecode: Converter.HtmlDecode): Fetch {
    (request: Request) =>
      match api(request)
      case Failure(e) => Failure(e)
      case Success(response) =>
        match Converter.Convert(response, relativeTime, htmlDecode)
        case Failure(e) => Failure(ConversionFailed(e))
        case Success(page) => Success(page)
  }

  /** `localLoadedPosts` is the cache; `filteredPosts` the dismissed posts. */
  datatype Repository = Repository(localLoadedPosts: seq<Post>, filteredPosts: seq<Post>)

  /** The repository after a call, what the call returned or threw, and the
      requests it sent to the network. */
  datatype Call = Call(repo: Repository, page: Result<Page, FetchError>, requests: seq<Request>)

  /** A freshly constructed repository. */
  const Fresh := Repository([], [])

  /** `posts.filter { !filtered.contains(it) }`; `contains` uses the
      all-fields `equals`, i.e. datatype equality. */
  function Unfiltered(posts: seq<Post>, filtered: seq<Post>): (kept: seq<Post>)
    ensures forall p :: p in kept <==> p in posts && p !in filtered
    ensures |kept| <= |posts|
  {
    if |posts| == 0 then []
    else (if posts[0] in filtered then [] else [posts[0]]) + Unfiltered(posts[1..], filtered)
  }

  /** The filter keeps cache order: filtering two runs back to back gives the
      two filtered runs back to back. */
  lemma {:induction false} UnfilteredAppend(xs: seq<Post>, ys: seq<Post>, filtered: seq<Post>)
    ensures Unfiltered(xs + ys, filtered) == Unfiltered(xs, filtered) + Unfiltered(ys, filtered)
    decreases |xs|
  {
    if |xs| == 0 {
      assert xs + ys == ys;
    } else {
      assert (xs + ys)[1..] == xs[1..] + ys;
      UnfilteredAppend(xs[1..], ys, filtered);
    }
  }

  /** The filter only looks at which posts are dismissed, not how often or in
      what order they were dismissed. */
  lemma {:induction false} UnfilteredDependsOnMembership(posts: seq<Post>, f: seq<Post>, g: seq<Post>)
    requires forall p :: p in f <==> p in g
    ensures Unfiltered(posts, f) == Unfiltered(posts, g)
    decreases |posts|
  {
    if |posts| > 0 {
      UnfilteredDependsOnMembership(posts[1..], f, g);
    }
  }

  /** True when `topPostsTodayPage` answers from the cache. */
  predicate ServedLocally(repo: Repository, after: Option<string>, before: Option<string>) {
    after.None? && before.None? && |repo.localLoadedPosts| > 0
  }

  /** `topPostsTodayPage`. A cursorless call with a non-empty cache sends no
      request and returns the cache minus dismissed posts, with the last cached
      post's name (dismissed or not) as `pageAfter` and no `pageBefore`. Any
      other call sends exactly its own request; a page is returned as fetched
      and appended to the cache, an error is passed through and the cache is
      left alone. */
  function TopPostsTodayPage(repo: Repository, numOfItems: Int32, after: Option<string>, before: Option<string>, fetch: Fetch)
    : (c: Call)
    ensures c.repo.filteredPosts == repo.filteredPosts
    ensures ServedLocally(repo, after, before) ==>
              && c.requests == []
              && c.repo == repo
              && c.page.Success?
              && c.page.value.posts == Unfiltered(repo.localLoadedPosts, repo.filteredPosts)
              && c.page.value.pageAfter == Some(repo.localLoadedPosts[|repo.localLoadedPosts| - 1].name)
              && c.page.value.pageBefore.None?
    ensures !ServedLocally(repo, after, before) ==>
              && c.requests == [Request(numOfItems, after, before)]
              && c.page == fetch(Request(numOfItems, after, before))
              && (c.page.Success? ==> c.repo.localLoadedPosts == repo.localLoadedPosts + c.page.value.posts)
              && (c.page.Failure? ==> c.repo == repo)
  {
    if ServedLocally(repo, after, before) then
      var cache := repo.localLoadedPosts;
      Call(repo, Success(Page(Unfiltered(cache, repo.filteredPosts), Some(cache[|cache| - 1].name), None)), [])
    else
      var request := Request(numOfItems, after, before);
      match fetch(request)
      case Failure(e) => Call(repo, Failure(e), [request])
      case Success(page) =>
        Call(repo.(localLoadedPosts := repo.localLoadedPosts + page.posts), Success(page), [request])
  }

  /** `invalidateLocalData`: the cache is emptied, the dismissed list kept. */
  function InvalidateLocalData(repo: Repository): (r: Repository)
    ensures r.localLoadedPosts == []
    ensures r.filteredPosts == repo.filteredPosts
  {
    repo.(localLoadedPosts := [])
  }

  /** `filterPost`: the post is appended to the dismissed list. */
  function FilterPost(repo: Repository, post: Post): (r: Repository)
    ensures r.filteredPosts == repo.filteredPosts + [post]
    ensures r.localLoadedPosts == repo.localLoadedPosts
  {
    repo.(filteredPosts := repo.filteredPosts + [post])
  }

  /** After invalidation the next cursorless call goes to the network, with
      exactly the caller's request. */
  lemma InvalidateForcesFetch(repo: Repository, numOfItems: Int32, fetch: Fetch)
    ensures TopPostsTodayPage(InvalidateLocalData(repo), numOfItems, None, None, fetch).requests
         == [Request(numOfItems, None, None)]
  {
  }

  /** Two cursorless calls on a fresh repository send one request in total
      exactly when the first one fetched a non-empty page; an error or an
      empty page leaves the cache empty and the second call fetches again. */
  lemma SecondInitialCallIsLocal(numOfItems: Int32, fetch: Fetch)
    ensures var first := TopPostsTodayPage(Fresh, numOfItems, None, None, fetch);
            var second := TopPostsTodayPage(first.repo, numOfItems, None, None, fetch);
            (|first.requests + second.requests| == 1
             <==> (fetch(Request(numOfItems, None, None)).Success?
                   && |fetch(Request(numOfItems, None, None)).value.posts| > 0))
  {
  }

  /** A dismissed post is never served from the cache. */
  lemma DismissedNeverServedLocally(repo: Repository, post: Post, numOfItems: Int32, fetch: Fetch)
    ensures var c := TopPostsTodayPage(FilterPost(repo, post), numOfItems, None, None, fetch);
            ServedLocally(repo, None, None) ==> c.page.Success? && post !in c.page.value.posts
  {
  }

  /** Dismissing a post twice has the same effect on every later call as
      dismissing it once. */
  lemma DismissTwiceIsDismissOnce(repo: Repository, post: Post, numOfItems: Int32,
                                  after: Option<string>, before: Option<string>, fetch: Fetch)
    ensures var once := TopPostsTodayPage(FilterPost(repo, post), numOfItems, after, before, fetch);
            var twice := TopPostsTodayPage(FilterPost(FilterPost(repo, post), post), numOfItems, after, before, fetch);
            once.page == twice.page && once.requests == twice.requests
            && once.repo.localLoadedPosts == twice.repo.localLoadedPosts
  {
    var f := repo.filteredPosts + [post];
    UnfilteredDependsOnMembership(repo.localLoadedPosts, f, f + [post]);
  }

  // ---------------------------------------------------------------------------
  // Sequences of operations

  /** The operations the rest of the app performs on a repository. */
  datatype Op =
    | TopPosts(numOfItems: Int32, after: Option<string>, before: Option<string>)
    | Invalidate
    | Dismiss(post: Post)

  function Apply(repo: Repository, op: Op, fetch: Fetch): Repository {
    match op
    case TopPosts(n, after, before) => TopPostsTodayPage(repo, n, after, before, fetch).repo
    case Invalidate => InvalidateLocalData(repo)
    case Dismiss(post) => FilterPost(repo, post)
  }

  function Run(repo: Repository, ops: seq<Op>, fetch: Fetch): Repository
    decreases |ops|
  {
    if |ops| == 0 then repo else Run(Apply(repo, ops[0], fetch), ops[1..], fetch)
  }

  /** Without an invalidation the cache only grows: the cache before any run
      of operations is a prefix of the cache after it. */
  lemma {:induction false} CacheOnlyGrows(repo: Repository, ops: seq<Op>, fetch: Fetch)
    requires forall i :: 0 <= i < |ops| ==> !ops[i].Invalidate?
    ensures repo.localLoadedPosts <= Run(repo, ops, fetch).localLoadedPosts
    decreases |ops|
  {
    if |ops| > 0 {
      var next := Apply(repo, ops[0], fetch);
      assert repo.localLoadedPosts <= next.localLoadedPosts;
      CacheOnlyGrows(next, ops[1..], fetch);
    }
  }

  /** Dismissing never shrinks the cache, however many posts are dismissed. */
  lemma {:induction false} DismissKeepsCache(repo: Repository, posts: seq<Post>, fetch: Fetch)
    ensures Run(repo, seq(|posts|, i requires 0 <= i < |posts| => Dismiss(posts[i])), fetch).localLoadedPosts
         == repo.localLoadedPosts
    decreases |posts|
  {
    var ops := seq(|posts|, i requires 0 <= i < |posts| => Dismiss(posts[i]));
    if |posts| > 0 {
      assert ops[1..] == seq(|posts[1..]|, i requires 0 <= i < |posts[1..]| => Dismiss(posts[1..][i]));
      DismissKeepsCache(FilterPost(repo, posts[0]), posts[1..], fetch);
    }
  }

  // ---------------------------------------------------------------------------
  // Worked example: the network path as the unit tests exercise it

  /** The network path returns the fetched page as it came, so a dismissed
      post that the next page contains is shown again. */
  lemma NetworkPathDoesNotFilter(post: Post, cursor: string)
    ensures var fetch: Fetch := (r: Request) => Success(Page([post], None, None));
            var c := TopPostsTodayPage(FilterPost(Fresh, post), 10, Some(cursor), None, fetch);
            c.page.Success? && post in c.page.value.posts
  {
  }
}
