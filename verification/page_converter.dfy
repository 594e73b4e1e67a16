/** Response -> page conversion of the domain layer
    (domain/repository/converter/RedditPostsResponseToRedditPostsPageConverter.kt).
    The relative-time formatter (which reads the clock) and `Html.fromHtml` are
    library calls; both are parameters here. The one exception the conversion
    lets escape, the decoder's on a null source, is a `Failure`. */
module PageConverter {
  import opened Wrappers
  import opened Jvm
  import opened RedditPost
  import opened RedditPostsResponse

  /** `EpochToRelativeTimeConverter.convert`: epoch seconds to "12 hours ago". */
  type RelativeTime = Int64 -> string

  /** `Html.fromHtml(s, 0).toString()` on a non-null source. */
  type HtmlDecode = string -> string

  /** What escapes `convert`: `Html.fromHtml` throws on a null source, which
      is what a preview without images hands it. Carries the child's id. */
  datatype ConversionError = NullHtmlSource(childId: string)

  /** `preview.images.firstOrNull()?.source?.url`. */
  function FirstImageUrl(preview: Preview): (url: Option<string>)
    ensures url.Some? <==> |preview.images| > 0
    ensures url.Some? ==> url.value == preview.images[0].source.url
  {
    if |preview.images| > 0 then Some(preview.images[0].source.url) else None
  }

  /** A child `convert` gets through: it has no preview, or a preview with at
      least one image. */
  predicate Convertible(child: Child) {
    child.data.preview.None? || |child.data.preview.value.images| > 0
  }

  /** `getThumbnailUrl`: the decoded first preview image when a preview is
      present, otherwise the root-level `thumbnail` field. A preview without
      images makes the decoder throw. */
  function ThumbnailUrl(data: PostData, htmlDecode: HtmlDecode): (r: Result<Option<string>, ConversionError>)
    ensures r.Failure? <==> data.preview.Some? && |data.preview.value.images| == 0
    ensures r.Failure? ==> r.error == NullHtmlSource(data.id)
    ensures r.Success? && data.preview.Some? ==> r.value == Some(htmlDecode(data.preview.value.images[0].source.url))
    ensures r.Success? && data.preview.None? ==> r.value == data.thumbnail
  {
    match data.preview
    case Some(preview) =>
      (match FirstImageUrl(preview)
       case Some(source) => Success(Some(htmlDecode(source)))
       case None => Failure(NullHtmlSource(data.id)))
    case None => Success(data.thumbnail)
  }

  /** The field-by-field relation between a child and the post made from it.
      No post is related to a child that is not `Convertible`. */
  ghost predicate ConvertedFrom(post: Post, child: Child, relativeTime: RelativeTime, htmlDecode: HtmlDecode) {
    && post.id == child.data.id
    && post.name == child.data.name
    && post.title == child.data.title
    && post.author == child.data.author
    && post.selfText == child.data.selfText
    && post.permalink == child.data.permalink
    && post.url == child.data.url
    && post.numOfComments == child.data.numComments
    && post.entryDate == relativeTime(child.data.createdUtc)
    && !post.isRead
    && (child.data.preview.None? ==> post.thumbnailUrl == child.data.thumbnail)
    && (child.data.preview.Some? ==>
          && |child.data.preview.value.images| > 0
          && post.thumbnailUrl == Some(htmlDecode(child.data.preview.value.images[0].source.url)))
  }

  /** The post built for one child, or the decoder's exception. */
  function ConvertChild(child: Child, relativeTime: RelativeTime, htmlDecode: HtmlDecode): (r: Result<Post, ConversionError>)
    ensures r.Success? <==> Convertible(child)
    ensures r.Success? ==> ConvertedFrom(r.value, child, relativeTime, htmlDecode)
    ensures r.Failure? ==> r.error == NullHtmlSource(child.data.id)
  {
    var thumbnailUrl :- ThumbnailUrl(child.data, htmlDecode);
    Success(Post(
      id := child.data.id,
      name := child.data.name,
      title := child.data.title,
      author := child.data.author,
      selfText := child.data.selfText,
      permalink := child.data.permalink,
      entryDate := relativeTime(child.data.createdUtc),
      url := child.data.url,
      thumbnailUrl := thumbnailUrl,
      numOfComments := child.data.numComments,
      isRead := false))
  }

  /** The relation pins down every field: at most one post is converted from
      a given child. */
  lemma ConvertedFromIsFunctional(p: Post, q: Post, child: Child, relativeTime: RelativeTime, htmlDecode: HtmlDecode)
    requires ConvertedFrom(p, child, relativeTime, htmlDecode)
    requires ConvertedFrom(q, child, relativeTime, htmlDecode)
    ensures p == q
  {
  }

  /** `children.map { ... }`: one post per child, in child order; the first
      child that is not convertible aborts the whole conversion. */
  function ConvertChildren(children: seq<Child>, relativeTime: RelativeTime, htmlDecode: HtmlDecode)
    : (r: Result<seq<Post>, ConversionError>)
    ensures r.Success? ==> |r.value| == |children|
  {
    if |children| == 0 then Success([])
    else
      var post :- ConvertChild(children[0], relativeTime, htmlDecode);
      var rest :- ConvertChildren(children[1..], relativeTime, htmlDecode);
      Success([post] + rest)
  }

  /** The conversion succeeds exactly when every child is convertible, and
      then relates each post to its child; otherwise it fails on the first
      child that is not. */
  lemma {:induction false} ConvertChildrenSpec(children: seq<Child>, relativeTime: RelativeTime, htmlDecode: HtmlDecode)
    ensures var r := ConvertChildren(children, relativeTime, htmlDecode);
            && (r.Success? <==> forall i :: 0 <= i < |children| ==> Convertible(children[i]))
            && (r.Success? ==>
                  forall i :: 0 <= i < |children| ==> ConvertedFrom(r.value[i], children[i], relativeTime, htmlDecode))
            && (r.Failure? ==>
                  exists k :: 0 <= k < |children|
                    && !Convertible(children[k])
                    && r.error == NullHtmlSource(children[k].data.id)
                    && forall i :: 0 <= i < k ==> Convertible(children[i]))
    decreases |children|
  {
    if |children| > 0 {
      var rest := children[1..];
      ConvertChildrenSpec(rest, relativeTime, htmlDecode);
      assert forall i :: 1 <= i < |children| ==> children[i] == rest[i - 1];
      var first := ConvertChild(children[0], relativeTime, htmlDecode);
      var r := ConvertChildren(rest, relativeTime, htmlDecode);
      if first.Success? && r.Failure? {
        var k :| 0 <= k < |rest| && !Convertible(rest[k]) && r.error == NullHtmlSource(rest[k].data.id)
                 && forall i :: 0 <= i < k ==> Convertible(rest[i]);
        assert !Convertible(children[k + 1]);
        assert forall i :: 0 <= i < k + 1 ==> Convertible(children[i]);
      }
    }
  }

  /** `convert`: cursors are copied verbatim and each child becomes one unread
      post, in order; a child that is not convertible makes it throw. */
  function Convert(response: Response, relativeTime: RelativeTime, htmlDecode: HtmlDecode)
    : (r: Result<Page, ConversionError>)
    ensures r.Success? <==> forall i :: 0 <= i < |response.data.children| ==> Convertible(response.data.children[i])
    ensures r.Success? ==> r.value.pageAfter == response.data.after
    ensures r.Success? ==> r.value.pageBefore == response.data.before
    ensures r.Success? ==> |r.value.posts| == |response.data.children|
    ensures r.Success? ==>
              forall i :: 0 <= i < |r.value.posts| ==>
                ConvertedFrom(r.value.posts[i], response.data.children[i], relativeTime, htmlDecode)
    ensures r.Failure? ==>
              exists k :: 0 <= k < |response.data.children|
                && !Convertible(response.data.children[k])
                && r.error == NullHtmlSource(response.data.children[k].data.id)
  {
    ConvertChildrenSpec(response.data.children, relativeTime, htmlDecode);
    var posts :- ConvertChildren(response.data.children, relativeTime, htmlDecode);
    Success(Page(posts := posts, pageAfter := response.data.after, pageBefore := response.data.before))
  }

  /** Every converted post is unread. */
  lemma ConvertedPostsAreUnread(response: Response, relativeTime: RelativeTime, htmlDecode: HtmlDecode)
    ensures var r := Convert(response, relativeTime, htmlDecode);
            r.Success? ==> forall p :: p in r.value.posts ==> !p.isRead
  {
    var r := Convert(response, relativeTime, htmlDecode);
    if r.Success? {
      forall p | p in r.value.posts
        ensures !p.isRead
      {
        var i :| 0 <= i < |r.value.posts| && r.value.posts[i] == p;
        assert ConvertedFrom(p, response.data.children[i], relativeTime, htmlDecode);
      }
    }
  }

  /** One step of `ConvertChildren`: the head child, then the rest. */
  lemma ConvertChildrenCons(children: seq<Child>, relativeTime: RelativeTime, htmlDecode: HtmlDecode)
    requires |children| > 0
    ensures var first := ConvertChild(children[0], relativeTime, htmlDecode);
            var rest := ConvertChildren(children[1..], relativeTime, htmlDecode);
            ConvertChildren(children, relativeTime, htmlDecode)
            == if first.Failure? then Failure(first.error)
               else if rest.Failure? then Failure(rest.error)
               else Success([first.value] + rest.value)
  {
  }

  /** Conversion is compositional: converting two runs of children back to
      back fails with the first run's error, else with the second's, and
      otherwise gives the two converted runs back to back. */
  lemma {:induction false} ConvertChildrenAppend(xs: seq<Child>, ys: seq<Child>, relativeTime: RelativeTime, htmlDecode: HtmlDecode)
    ensures var a := ConvertChildren(xs, relativeTime, htmlDecode);
            var b := ConvertChildren(ys, relativeTime, htmlDecode);
            ConvertChildren(xs + ys, relativeTime, htmlDecode)
            == if a.Failure? then a else if b.Failure? then b else Success(a.value + b.value)
    decreases |xs|
  {
    var a := ConvertChildren(xs, relativeTime, htmlDecode);
    var b := ConvertChildren(ys, relativeTime, htmlDecode);
    if |xs| == 0 {
      assert xs + ys == ys;
      if b.Success? {
        assert a.value + b.value == b.value;
      }
    } else {
      var zs := xs + ys;
      assert zs[0] == xs[0];
      assert zs[1..] == xs[1..] + ys;
      var first := ConvertChild(xs[0], relativeTime, htmlDecode);
      var restA := ConvertChildren(xs[1..], relativeTime, htmlDecode);
      ConvertChildrenAppend(xs[1..], ys, relativeTime, htmlDecode);
      ConvertChildrenCons(zs, relativeTime, htmlDecode);
      ConvertChildrenCons(xs, relativeTime, htmlDecode);
      if first.Success? && restA.Success? && b.Success? {
        assert [first.value] + (restA.value + b.value) == ([first.value] + restA.value) + b.value;
      }
    }
  }
}
