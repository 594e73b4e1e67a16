/** Response -> page conversion of the older screens
    (repository/converter/RedditPostsResponseToRedditPostsPageConverter.kt).
    `java.net.URL(spec)` either parses or throws; here it is a parameter that
    answers `None` where the constructor throws. The relative-time formatter is
    a parameter as well. */
module LegacyPageConverter {
  import opened Wrappers
  import opened Jvm
  import opened LegacyRedditPost
  import opened LegacyRedditPostsResponse

  type RelativeTime = real -> string

  /** `URL(spec)`; the spec may be null, as the JSON field is nullable. */
  type ParseUrl = Option<string> -> Option<Url>

  /** The exception `URL(spec)` throws, carrying the offending spec. */
  datatype ConversionError = MalformedUrl(spec: Option<string>)

  /** The field-by-field relation between a child and the post made from it. */
  ghost predicate ConvertedFrom(post: Post, child: Child, relativeTime: RelativeTime, parseUrl: ParseUrl) {
    && post.title == child.data.title
    && post.author == child.data.author
    && post.numOfComments == child.data.numComments
    && post.entryDate == relativeTime(child.data.createdUtc)
    && post.thumbnailUrl == parseUrl(child.data.thumbnail)
    && !post.isRead
  }

  /** `children.map { ... }`: one post per child, in order; the first child
      whose thumbnail does not parse aborts the whole conversion. */
  function ConvertChildren(children: seq<Child>, relativeTime: RelativeTime, parseUrl: ParseUrl)
    : (r: Result<seq<Post>, ConversionError>)
    ensures r.Success? <==> forall i :: 0 <= i < |children| ==> parseUrl(children[i].data.thumbnail).Some?
    ensures r.Success? ==> |r.value| == |children|
    ensures r.Success? ==>
              forall i :: 0 <= i < |children| ==> ConvertedFrom(r.value[i], children[i], relativeTime, parseUrl)
    ensures r.Failure? ==>
              exists k :: 0 <= k < |children|
                && parseUrl(children[k].data.thumbnail).None?
                && r.error == MalformedUrl(children[k].data.thumbnail)
                && forall i :: 0 <= i < k ==> parseUrl(children[i].data.thumbnail).Some?
  {
    if |children| == 0 then Success([])
    else
      var child := children[0];
      match parseUrl(child.data.thumbnail)
      case None => Failure(MalformedUrl(child.data.thumbnail))
      case Some(url) =>
        var post := Post(
          title := child.data.title,
          author := child.data.author,
          entryDate := relativeTime(child.data.createdUtc),
          thumbnailUrl := Some(url),
          numOfComments := child.data.numComments,
          isRead := false);
        var rest :- ConvertChildren(children[1..], relativeTime, parseUrl);
        assert forall i :: 1 <= i < |children| ==> children[i] == children[1..][i - 1];
        Success([post] + rest)
  }

  /** `convert`: the page of converted posts, or the first parse failure. */
  function Convert(response: Response, relativeTime: RelativeTime, parseUrl: ParseUrl)
    : (r: Result<Page, ConversionError>)
    ensures r.Success? <==>
              forall i :: 0 <= i < |response.data.children| ==> parseUrl(response.data.children[i].data.thumbnail).Some?
    ensures r.Success? ==> |r.value.posts| == |response.data.children|
    ensures r.Success? ==>
              forall i :: 0 <= i < |r.value.posts| ==>
                ConvertedFrom(r.value.posts[i], response.data.children[i], relativeTime, parseUrl)
  {
    var posts :- ConvertChildren(response.data.children, relativeTime, parseUrl);
    Success(Page(posts))
  }
}
