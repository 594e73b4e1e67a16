/** The repository as its unit tests and the list screen use it
    (RedditPostRepositoryUnitTests.kt, redditpostlist/viewmodel/PostListViewModel.kt):
    on top of the domain repository's cache and dismissed list it keeps a list
    of posts marked read and a ceiling `maxPosts` on the cache size. Both
    overlays are applied to every answer, cached or fetched, and match posts by
    `id`; once the cache holds `maxPosts` posts no further page is offered.
    These are exactly the behaviours the tests ask for beyond the domain file. */
module PostRepositoryExt {
  import opened Wrappers
  import opened Jvm
  import opened RedditPost
  import Base = PostRepository
  import Converter = PageConverter

  const DefaultMaxPosts: Int32 := 50

  /** The domain repository plus the read list and the ceiling. */
  datatype Repository = Repository(base: Base.Repository, readPosts: seq<Post>, maxPosts: Int32)

  datatype Call = Call(repo: Repository, page: Result<Page, Base.FetchError>, requests: seq<Base.Request>)

  /** A freshly constructed repository with the given ceiling. */
  function New(maxPosts: Int32): Repository {
    Repository(Base.Fresh, [], maxPosts)
  }

  function Cache(repo: Repository): seq<Post> {
    repo.base.localLoadedPosts
  }

  /** The ids of a list of posts. */
  function Ids(posts: seq<Post>): (ids: set<string>)
    ensures forall p :: p in posts ==> p.id in ids
    ensures forall id :: id in ids ==> exists p :: p in posts && p.id == id
  {
    set p | p in posts :: p.id
  }

  /** A post as shown: flagged read when its id was marked read. */
  function Marked(post: Post, readIds: set<string>): Post {
    if post.id in readIds then post.(isRead := true) else post
  }

  /** The overlay: drop the posts whose id was dismissed, flag the rest read
      when their id was marked read, keep the order. */
  function Overlay(posts: seq<Post>, dismissedIds: set<string>, readIds: set<string>): (shown: seq<Post>)
    ensures |shown| <= |posts|
  {
    if |posts| == 0 then []
    else
      var head := if posts[0].id in dismissedIds then [] else [Marked(posts[0], readIds)];
      head + Overlay(posts[1..], dismissedIds, readIds)
  }

  /** No shown post has a dismissed id, and every shown post with a read id
      is flagged read. */
  lemma {:induction false} OverlayHides(posts: seq<Post>, dismissedIds: set<string>, readIds: set<string>)
    ensures forall q :: q in Overlay(posts, dismissedIds, readIds) ==> q.id !in dismissedIds
    ensures forall q :: q in Overlay(posts, dismissedIds, readIds) ==> (q.id in readIds ==> q.isRead)
    decreases |posts|
  {
    if |posts| > 0 {
      OverlayHides(posts[1..], dismissedIds, readIds);
    }
  }

  /** The overlay shows exactly the undismissed posts, each as `Marked`: every
      shown post is the marked copy of an input post, and every input post whose
      id was not dismissed is shown. */
  lemma {:induction false} OverlayMembers(posts: seq<Post>, dismissedIds: set<string>, readIds: set<string>)
    ensures forall q :: q in Overlay(posts, dismissedIds, readIds) ==> exists p :: p in posts && q == Marked(p, readIds)
    ensures forall p :: p in posts && p.id !in dismissedIds ==> Marked(p, readIds) in Overlay(posts, dismissedIds, readIds)
    decreases |posts|
  {
    if |posts| > 0 {
      OverlayMembers(posts[1..], dismissedIds, readIds);
      assert forall p :: p in posts ==> p == posts[0] || p in posts[1..];
    }
  }

  /** The overlay keeps order: two runs back to back overlay to the two
      overlaid runs back to back. */
  lemma {:induction false} OverlayAppend(xs: seq<Post>, ys: seq<Post>, dismissedIds: set<string>, readIds: set<string>)
    ensures Overlay(xs + ys, dismissedIds, readIds) == Overlay(xs, dismissedIds, readIds) + Overlay(ys, dismissedIds, readIds)
    decreases |xs|
  {
    if |xs| == 0 {
      assert xs + ys == ys;
    } else {
      var zs := xs + ys;
      assert zs[0] == xs[0];
      assert zs[1..] == xs[1..] + ys;
      OverlayAppend(xs[1..], ys, dismissedIds, readIds);
      var head := if xs[0].id in dismissedIds then [] else [Marked(xs[0], readIds)];
      var rest, restX, restY := Overlay(xs[1..] + ys, dismissedIds, readIds), Overlay(xs[1..], dismissedIds, readIds), Overlay(ys, dismissedIds, readIds);
      assert Overlay(zs, dismissedIds, readIds) == head + rest;
      assert head + (restX + restY) == (head + restX) + restY;
    }
  }

  /** Over freshly converted (all unread) posts, exactly the shown posts whose
      id was marked read carry `isRead`, and with no marks nothing is flagged. */
  lemma {:induction false} OverlayFlagsExactlyMarked(posts: seq<Post>, dismissedIds: set<string>, readIds: set<string>)
    requires forall p :: p in posts ==> !p.isRead
    ensures forall q :: q in Overlay(posts, dismissedIds, readIds) ==> (q.isRead <==> q.id in readIds)
    decreases |posts|
  {
    if |posts| > 0 {
      OverlayFlagsExactlyMarked(posts[1..], dismissedIds, readIds);
    }
  }

  /** Without dismissals or marks the overlay is the identity. */
  lemma {:induction false} OverlayWithoutMarksIsIdentity(posts: seq<Post>)
    ensures Overlay(posts, {}, {}) == posts
    decreases |posts|
  {
    if |posts| > 0 {
      OverlayWithoutMarksIsIdentity(posts[1..]);
      assert posts == [posts[0]] + posts[1..];
    }
  }

  /** `pageAfter`, cut off once the cache has reached the ceiling. */
  function CappedAfter(pageAfter: Option<string>, cacheSize: nat, maxPosts: Int32): (after: Option<string>)
    ensures cacheSize >= maxPosts ==> after.None?
    ensures cacheSize < maxPosts ==> after == pageAfter
  {
    if cacheSize >= maxPosts then None else pageAfter
  }

  /** `topPostsTodayPage`: the domain repository's call, then the overlay on the
      posts of the answer (the whole cache on the cached path, the fetched page
      otherwise) and the ceiling on `pageAfter`. */
  function TopPostsTodayPage(repo: Repository, numOfItems: Int32, after: Option<string>, before: Option<string>, fetch: Base.Fetch)
    : (c: Call)
    ensures c.repo.readPosts == repo.readPosts && c.repo.maxPosts == repo.maxPosts
    ensures c.repo.base.filteredPosts == repo.base.filteredPosts
    ensures Base.ServedLocally(repo.base, after, before) ==>
              && c.requests == []
              && c.repo == repo
              && c.page.Success?
              && c.page.value.posts == Overlay(Cache(repo), Ids(repo.base.filteredPosts), Ids(repo.readPosts))
              && c.page.value.pageBefore.None?
              && (c.page.value.pageAfter.Some? <==> |Cache(repo)| < repo.maxPosts)
              && (c.page.value.pageAfter.Some? ==> c.page.value.pageAfter.value == Cache(repo)[|Cache(repo)| - 1].name)
    ensures !Base.ServedLocally(repo.base, after, before) ==>
              && c.requests == [Base.Request(numOfItems, after, before)]
              && match fetch(Base.Request(numOfItems, after, before))
                 case Failure(e) => c.page == Failure(e) && c.repo == repo
                 case Success(fetched) =>
                   && Cache(c.repo) == Cache(repo) + fetched.posts
                   && c.page.Success?
                   && c.page.value.posts == Overlay(fetched.posts, Ids(repo.base.filteredPosts), Ids(repo.readPosts))
                   && c.page.value.pageBefore == fetched.pageBefore
                   && c.page.value.pageAfter == (if |Cache(c.repo)| >= repo.maxPosts then None else fetched.pageAfter)
  {
    var call := Base.TopPostsTodayPage(repo.base, numOfItems, after, before, fetch);
    var next := repo.(base := call.repo);
    match call.page
    case Failure(e) => Call(next, Failure(e), call.requests)
    case Success(page) =>
      var source := if Base.ServedLocally(repo.base, after, before) then Cache(repo) else page.posts;
      var shown := Overlay(source, Ids(repo.base.filteredPosts), Ids(repo.readPosts));
      Call(next, Success(Page(shown, CappedAfter(page.pageAfter, |Cache(next)|, repo.maxPosts), page.pageBefore)), call.requests)
  }

  /** `invalidateLocalData`: the cache is emptied; dismissals, read marks and
      the ceiling survive. */
  function InvalidateLocalData(repo: Repository): (r: Repository)
    ensures Cache(r) == []
    ensures r.base.filteredPosts == repo.base.filteredPosts
    ensures r.readPosts == repo.readPosts && r.maxPosts == repo.maxPosts
  {
    repo.(base := Base.InvalidateLocalData(repo.base))
  }

  /** `filterPost`. */
  function FilterPost(repo: Repository, post: Post): (r: Repository)
    ensures r.base.filteredPosts == repo.base.filteredPosts + [post]
    ensures Cache(r) == Cache(repo) && r.readPosts == repo.readPosts && r.maxPosts == repo.maxPosts
  {
    repo.(base := Base.FilterPost(repo.base, post))
  }

  /** `markPostAsRead`: the post is appended to the read list. */
  function MarkPostAsRead(repo: Repository, post: Post): (r: Repository)
    ensures r.readPosts == repo.readPosts + [post]
    ensures r.base == repo.base && r.maxPosts == repo.maxPosts
  {
    repo.(readPosts := repo.readPosts + [post])
  }

  // ---------------------------------------------------------------------------
  // Properties

  /** Every answer, cached or fetched, hides the dismissed ids and flags the
      read ids. */
  lemma AnswersApplyOverlays(repo: Repository, numOfItems: Int32, after: Option<string>, before: Option<string>, fetch: Base.Fetch)
    ensures var c := TopPostsTodayPage(repo, numOfItems, after, before, fetch);
            c.page.Success? ==>
              && (forall q :: q in c.page.value.posts ==> q.id !in Ids(repo.base.filteredPosts))
              && (forall q :: q in c.page.value.posts && q.id in Ids(repo.readPosts) ==> q.isRead)
  {
    var dismissedIds, readIds := Ids(repo.base.filteredPosts), Ids(repo.readPosts);
    OverlayHides(Cache(repo), dismissedIds, readIds);
    match fetch(Base.Request(numOfItems, after, before))
    case Success(fetched) => OverlayHides(fetched.posts, dismissedIds, readIds);
    case Failure(_) =>
  }

  /** No post of the list is flagged read. */
  predicate AllUnread(posts: seq<Post>) {
    forall p :: p in posts ==> !p.isRead
  }

  /** With an unread cache and an unread fetched page, an answered post is
      flagged read exactly when its id was marked read, and the cache stays
      unread. */
  lemma AnswersFlagExactlyMarked(repo: Repository, numOfItems: Int32, after: Option<string>, before: Option<string>,
                                 fetch: Base.Fetch)
    requires AllUnread(Cache(repo))
    requires fetch(Base.Request(numOfItems, after, before)).Success? ==>
               AllUnread(fetch(Base.Request(numOfItems, after, before)).value.posts)
    ensures var c := TopPostsTodayPage(repo, numOfItems, after, before, fetch);
            && AllUnread(Cache(c.repo))
            && (c.page.Success? ==> forall q :: q in c.page.value.posts ==> (q.isRead <==> q.id in Ids(repo.readPosts)))
  {
    var dismissedIds, readIds := Ids(repo.base.filteredPosts), Ids(repo.readPosts);
    OverlayFlagsExactlyMarked(Cache(repo), dismissedIds, readIds);
    match fetch(Base.Request(numOfItems, after, before))
    case Success(fetched) => OverlayFlagsExactlyMarked(fetched.posts, dismissedIds, readIds);
    case Failure(_) =>
  }

  /** The converting network delivers only unread posts, and fails exactly
      when the API call or the conversion does. */
  lemma ConvertingFetchDeliversUnread(api: Base.Api, relativeTime: Converter.RelativeTime, htmlDecode: Converter.HtmlDecode,
                                      request: Base.Request)
    ensures var r := Base.ConvertingFetch(api, relativeTime, htmlDecode)(request);
            && (r.Success? ==> AllUnread(r.value.posts))
            && (r.Success? <==> api(request).Success? && Converter.Convert(api(request).value, relativeTime, htmlDecode).Success?)
  {
    match api(request)
    case Success(response) => Converter.ConvertedPostsAreUnread(response, relativeTime, htmlDecode);
    case Failure(_) =>
  }

  /** What can happen to the repository between two answers. */
  datatype Op =
    | TopPosts(numOfItems: Int32, after: Option<string>, before: Option<string>)
    | Invalidate
    | Dismiss(post: Post)
    | MarkRead(post: Post)

  function Apply(repo: Repository, op: Op, fetch: Base.Fetch): Repository {
    match op
    case TopPosts(n, after, before) => TopPostsTodayPage(repo, n, after, before, fetch).repo
    case Invalidate => InvalidateLocalData(repo)
    case Dismiss(post) => FilterPost(repo, post)
    case MarkRead(post) => MarkPostAsRead(repo, post)
  }

  function Run(repo: Repository, ops: seq<Op>, fetch: Base.Fetch): Repository
    decreases |ops|
  {
    if |ops| == 0 then repo else Run(Apply(repo, ops[0], fetch), ops[1..], fetch)
  }

  /** On the converting network, a repository built from scratch by any
      sequence of calls holds only unread posts. */
  lemma {:induction false} ConvertedCacheStaysUnread(repo: Repository, ops: seq<Op>,
                                                     api: Base.Api, relativeTime: Converter.RelativeTime,
                                                     htmlDecode: Converter.HtmlDecode)
    requires AllUnread(Cache(repo))
    ensures AllUnread(Cache(Run(repo, ops, Base.ConvertingFetch(api, relativeTime, htmlDecode))))
    decreases |ops|
  {
    if |ops| > 0 {
      var fetch := Base.ConvertingFetch(api, relativeTime, htmlDecode);
      if ops[0].TopPosts? {
        var request := Base.Request(ops[0].numOfItems, ops[0].after, ops[0].before);
        ConvertingFetchDeliversUnread(api, relativeTime, htmlDecode, request);
        AnswersFlagExactlyMarked(repo, ops[0].numOfItems, ops[0].after, ops[0].before, fetch);
      }
      ConvertedCacheStaysUnread(Apply(repo, ops[0], fetch), ops[1..], api, relativeTime, htmlDecode);
    }
  }

  /** On the converting network, whatever happened before: an answered post
      is flagged read exactly when its id was marked read. */
  lemma ConvertedAnswersFlagExactlyMarked(ops: seq<Op>, maxPosts: Int32, numOfItems: Int32,
                                          after: Option<string>, before: Option<string>,
                                          api: Base.Api, relativeTime: Converter.RelativeTime,
                                          htmlDecode: Converter.HtmlDecode)
    ensures var fetch := Base.ConvertingFetch(api, relativeTime, htmlDecode);
            var repo := Run(New(maxPosts), ops, fetch);
            var c := TopPostsTodayPage(repo, numOfItems, after, before, fetch);
            c.page.Success? ==> forall q :: q in c.page.value.posts ==> (q.isRead <==> q.id in Ids(repo.readPosts))
  {
    var fetch := Base.ConvertingFetch(api, relativeTime, htmlDecode);
    ConvertedCacheStaysUnread(New(maxPosts), ops, api, relativeTime, htmlDecode);
    ConvertingFetchDeliversUnread(api, relativeTime, htmlDecode, Base.Request(numOfItems, after, before));
    AnswersFlagExactlyMarked(Run(New(maxPosts), ops, fetch), numOfItems, after, before, fetch);
  }

  /** After `filterPost(p)` no answer, cached or fetched, shows a post with
      `p`'s id, whatever the network returns. */
  lemma DismissedNeverShown(repo: Repository, post: Post, numOfItems: Int32,
                            after: Option<string>, before: Option<string>, fetch: Base.Fetch)
    ensures var c := TopPostsTodayPage(FilterPost(repo, post), numOfItems, after, before, fetch);
            c.page.Success? ==> forall q :: q in c.page.value.posts ==> q.id != post.id
  {
    assert post.id in Ids(FilterPost(repo, post).base.filteredPosts);
    AnswersApplyOverlays(FilterPost(repo, post), numOfItems, after, before, fetch);
  }

  /** After `markPostAsRead(p)` every answer shows the posts with `p`'s id as
      read, on the cached path as on the network path. */
  lemma MarkedReadShownRead(repo: Repository, post: Post, numOfItems: Int32,
                            after: Option<string>, before: Option<string>, fetch: Base.Fetch)
    ensures var c := TopPostsTodayPage(MarkPostAsRead(repo, post), numOfItems, after, before, fetch);
            c.page.Success? ==> forall q :: q in c.page.value.posts && q.id == post.id ==> q.isRead
  {
    assert post.id in Ids(MarkPostAsRead(repo, post).readPosts);
    AnswersApplyOverlays(MarkPostAsRead(repo, post), numOfItems, after, before, fetch);
  }

  /** Dismissing or marking the same post twice changes no later answer. */
  lemma MarksAreIdempotent(repo: Repository, post: Post, numOfItems: Int32,
                           after: Option<string>, before: Option<string>, fetch: Base.Fetch)
    ensures TopPostsTodayPage(FilterPost(FilterPost(repo, post), post), numOfItems, after, before, fetch).page
         == TopPostsTodayPage(FilterPost(repo, post), numOfItems, after, before, fetch).page
    ensures TopPostsTodayPage(MarkPostAsRead(MarkPostAsRead(repo, post), post), numOfItems, after, before, fetch).page
         == TopPostsTodayPage(MarkPostAsRead(repo, post), numOfItems, after, before, fetch).page
  {
    var f := repo.base.filteredPosts + [post];
    assert Ids(f + [post]) == Ids(f);
    var r := repo.readPosts + [post];
    assert Ids(r + [post]) == Ids(r);
  }

  /** Once the cache holds `maxPosts` posts, every answer has no `pageAfter`,
      and the cache stays at or above the ceiling. */
  lemma CeilingIsFinal(repo: Repository, numOfItems: Int32, after: Option<string>, before: Option<string>, fetch: Base.Fetch)
    requires |Cache(repo)| >= repo.maxPosts
    ensures var c := TopPostsTodayPage(repo, numOfItems, after, before, fetch);
            && |Cache(c.repo)| >= c.repo.maxPosts
            && (c.page.Success? ==> c.page.value.pageAfter.None?)
  {
  }

  /** The answer on the network path: the fetched page with both overlays
      applied to its posts and its `after` cursor cut off at the ceiling, which
      counts the cache together with the new page. */
  lemma NetworkAnswer(repo: Repository, numOfItems: Int32, after: Option<string>, before: Option<string>,
                      fetch: Base.Fetch, fetched: Page)
    requires after.Some? || before.Some?
    requires fetch(Base.Request(numOfItems, after, before)) == Success(fetched)
    ensures TopPostsTodayPage(repo, numOfItems, after, before, fetch).page
         == Success(Page(Overlay(fetched.posts, Ids(repo.base.filteredPosts), Ids(repo.readPosts)),
                         CappedAfter(fetched.pageAfter, |Cache(repo)| + |fetched.posts|, repo.maxPosts),
                         fetched.pageBefore))
  {
  }

  /** Why the overlays match by id: a read post is shown as a copy with
      `isRead` set, and that copy is what the list hands back when it is
      dismissed. With the domain file's all-fields matching the cached
      original would not be hidden; matching by id hides it. */
  lemma DismissingShownCopyHidesPost(post: Post)
    requires !post.isRead
    ensures var shown := post.(isRead := true);
            && Base.Unfiltered([post], [shown]) == [post]
            && Overlay([post], Ids([shown]), {post.id}) == []
  {
    assert Ids([post.(isRead := true)]) == {post.id};
  }

  // ---------------------------------------------------------------------------
  // Worked examples: the unit tests' scenarios as instances of the above

  /** The test scenario: with a ceiling of 50, a first page of 25 posts keeps
      its cursor, and a second page of 25 fetched with that cursor loses its
      cursor although the network returned one. */
  lemma StopsWhenReachLimit(fetch: Base.Fetch, first: Page, second: Page)
    requires fetch(Base.Request(25, None, None)) == Success(first)
    requires |first.posts| == 25 && first.pageAfter.Some?
    requires fetch(Base.Request(25, first.pageAfter, None)) == Success(second)
    requires |second.posts| == 25 && second.pageAfter.Some?
    ensures var c1 := TopPostsTodayPage(New(DefaultMaxPosts), 25, None, None, fetch);
            var c2 := TopPostsTodayPage(c1.repo, 25, first.pageAfter, None, fetch);
            && c1.page.Success? && c1.page.value.pageAfter == first.pageAfter
            && c2.requests == [Base.Request(25, first.pageAfter, None)]
            && c2.page.Success? && c2.page.value.pageAfter.None?
  {
  }

  /** The test scenario with both overlays: from a fetched page p1, p2, p3, p4
      with distinct ids, after dismissing p1 and p3 and marking p4 read, the
      answer is exactly [p2, p4 flagged read] with the page's cursors. */
  lemma FilterAndReadScenario(p1: Post, p2: Post, p3: Post, p4: Post, cursor: string, fetched: Page, fetch: Base.Fetch)
    requires p1.id != p2.id && p1.id != p3.id && p1.id != p4.id && p2.id != p3.id && p2.id != p4.id && p3.id != p4.id
    requires fetched.posts == [p1, p2, p3, p4]
    requires fetch(Base.Request(10, Some(cursor), None)) == Success(fetched)
    ensures var marked := MarkPostAsRead(FilterPost(FilterPost(New(DefaultMaxPosts), p1), p3), p4);
            var c := TopPostsTodayPage(marked, 10, Some(cursor), None, fetch);
            c.page == Success(Page([p2, p4.(isRead := true)], fetched.pageAfter, fetched.pageBefore))
  {
    var marked := MarkPostAsRead(FilterPost(FilterPost(New(DefaultMaxPosts), p1), p3), p4);
    assert marked == Repository(Base.Repository([], [p1, p3]), [p4], DefaultMaxPosts);
    IdsOfFew(p1, p3, p4);
    OverlayScenario(p1, p2, p3, p4, Ids([p1, p3]), Ids([p4]));
    NetworkAnswer(marked, 10, Some(cursor), None, fetch, fetched);
  }

  lemma IdsOfFew(a: Post, b: Post, c: Post)
    ensures Ids([a, b]) == {a.id, b.id}
    ensures Ids([c]) == {c.id}
  {
  }

  lemma OverlaySingle(post: Post, dismissedIds: set<string>, readIds: set<string>)
    ensures Overlay([post], dismissedIds, readIds)
         == if post.id in dismissedIds then [] else [Marked(post, readIds)]
  {
    assert [post][1..] == [];
  }

  lemma OverlayScenario(p1: Post, p2: Post, p3: Post, p4: Post, dismissed: set<string>, read: set<string>)
    requires p1.id != p2.id && p1.id != p3.id && p1.id != p4.id && p2.id != p3.id && p2.id != p4.id && p3.id != p4.id
    requires dismissed == {p1.id, p3.id} && read == {p4.id}
    ensures Overlay([p1, p2, p3, p4], dismissed, read) == [p2, p4.(isRead := true)]
  {
    var s4 := [p4];
    var s3 := [p3] + s4;
    var s2 := [p2] + s3;
    var s1 := [p1] + s2;
    assert s1 == [p1, p2, p3, p4];
    assert Overlay(s4, dismissed, read) == [p4.(isRead := true)] by {
      OverlaySingle(p4, dismissed, read);
    }
    assert Overlay(s3, dismissed, read) == [p4.(isRead := true)] by {
      assert s3[1..] == s4;
    }
    assert Overlay(s2, dismissed, read) == [p2, p4.(isRead := true)] by {
      assert s2[1..] == s3;
      assert p2.id !in read;
    }
    assert Overlay(s1, dismissed, read) == [p2, p4.(isRead := true)] by {
      assert s1[1..] == s2;
    }
  }
}
