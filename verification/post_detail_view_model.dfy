/** The detail screen's view model (redditpostdetail/viewmodel/PostDetailViewModel.kt)
    as a reducer: the five input channels become one stream of `Input`s, and
    the seven outputs are folded over it. One-shot `Event` outputs are kept as
    the list of everything emitted, in order; `Uri.parse` is left out, so a
    link is the string handed to it. The view is taken to observe every output
    from the start. */
module PostDetailViewModel {
  import opened Wrappers
  import opened RedditPost

  const RedditBaseUrl := "https://reddit.com"

  datatype Input =
    | ClickOpenExternal
    | ClickOpenReddit
    | ImageLoadedSuccessfully
    | ClickSaveImage
    | ErrorLoadingImage

  /** `postImageUrl` is the post's `url` (the full-size image) until the image
      fails to load, then its thumbnail. `isProgressBarHidden` has no value
      until the image loaded or failed. */
  datatype Output = Output(
    postTitle: string,
    postImageUrl: Option<string>,
    postText: Option<string>,
    openExternal: seq<string>,
    isSaveImageButtonHidden: bool,
    saveImageToGallery: seq<string>,
    isProgressBarHidden: Option<bool>
  )

  /** The outputs before any input. */
  function Initial(post: Post): Output {
    Output(post.title, post.url, post.selfText, [], true, [], None)
  }

  /** The links one input opens: the post's `url` if it has one, or its
      permalink on reddit.com. */
  function LinksOf(post: Post, input: Input): seq<string> {
    match input
    case ClickOpenExternal => if post.url.Some? then [post.url.value] else []
    case ClickOpenReddit => [RedditBaseUrl + post.permalink]
    case _ => []
  }

  /** One input. */
  function Step(post: Post, out: Output, input: Input): Output {
    match input
    case ClickOpenExternal => out.(openExternal := out.openExternal + LinksOf(post, input))
    case ClickOpenReddit => out.(openExternal := out.openExternal + LinksOf(post, input))
    case ImageLoadedSuccessfully => out.(isSaveImageButtonHidden := false, isProgressBarHidden := Some(true))
    case ClickSaveImage => out.(saveImageToGallery := out.saveImageToGallery + ["reddit-" + post.name])
    case ErrorLoadingImage =>
      out.(postImageUrl := post.thumbnailUrl, isSaveImageButtonHidden := true, isProgressBarHidden := Some(true))
  }

  /** The outputs after a stream of inputs, folded from the first. */
  function Run(post: Post, inputs: seq<Input>): Output
    decreases |inputs|
  {
    if |inputs| == 0 then Initial(post)
    else Step(post, Run(post, inputs[..|inputs| - 1]), inputs[|inputs| - 1])
  }

  // ---------------------------------------------------------------------------
  // Reference definitions

  /** Every link opened by a stream of inputs, in order. */
  function Links(post: Post, inputs: seq<Input>): seq<string>
    decreases |inputs|
  {
    if |inputs| == 0 then [] else LinksOf(post, inputs[0]) + Links(post, inputs[1..])
  }

  /** How many times an input occurs. */
  function Count(inputs: seq<Input>, input: Input): nat
    decreases |inputs|
  {
    if |inputs| == 0 then 0 else (if inputs[0] == input then 1 else 0) + Count(inputs[1..], input)
  }

  /** Some successful load is not followed by a failed one. */
  predicate LoadedSinceLastError(inputs: seq<Input>) {
    exists i :: 0 <= i < |inputs| && inputs[i] == ImageLoadedSuccessfully
                && forall j :: i < j < |inputs| ==> inputs[j] != ErrorLoadingImage
  }

  lemma {:induction false} LinksSnoc(post: Post, inputs: seq<Input>, input: Input)
    ensures Links(post, inputs + [input]) == Links(post, inputs) + LinksOf(post, input)
    decreases |inputs|
  {
    if |inputs| == 0 {
      assert inputs + [input] == [input];
      assert [input][1..] == [];
    } else {
      assert (inputs + [input])[1..] == inputs[1..] + [input];
      LinksSnoc(post, inputs[1..], input);
    }
  }

  lemma {:induction false} CountSnoc(inputs: seq<Input>, x: Input, input: Input)
    ensures Count(inputs + [x], input) == Count(inputs, input) + (if x == input then 1 else 0)
    decreases |inputs|
  {
    if |inputs| == 0 {
      assert inputs + [x] == [x];
      assert [x][1..] == [];
    } else {
      assert (inputs + [x])[1..] == inputs[1..] + [x];
      CountSnoc(inputs[1..], x, input);
    }
  }

  lemma SingleInputLinks(post: Post, input: Input)
    ensures Links(post, [input]) == LinksOf(post, input)
  {
    assert [input][1..] == [];
  }

  // ---------------------------------------------------------------------------
  // Properties

  /** The title and the text are the post's, whatever happens. */
  lemma {:induction false} TitleAndTextAreFixed(post: Post, inputs: seq<Input>)
    ensures Run(post, inputs).postTitle == post.title
    ensures Run(post, inputs).postText == post.selfText
    decreases |inputs|
  {
    if |inputs| > 0 {
      TitleAndTextAreFixed(post, inputs[..|inputs| - 1]);
    }
  }

  /** The image shown is the post's `url` until some load fails, and the
      thumbnail from then on. */
  lemma {:induction false} ImageFallsBackToThumbnail(post: Post, inputs: seq<Input>)
    ensures Run(post, inputs).postImageUrl
         == if ErrorLoadingImage in inputs then post.thumbnailUrl else post.url
    decreases |inputs|
  {
    if |inputs| > 0 {
      var prefix := inputs[..|inputs| - 1];
      assert inputs == prefix + [inputs[|inputs| - 1]];
      ImageFallsBackToThumbnail(post, prefix);
    }
  }

  /** Extending the inputs by one: a success starts a loaded spell, a failure
      ends it, anything else keeps it as it was. */
  lemma LoadedSinceLastErrorSnoc(inputs: seq<Input>, x: Input)
    ensures LoadedSinceLastError(inputs + [x])
        <==> x == ImageLoadedSuccessfully || (x != ErrorLoadingImage && LoadedSinceLastError(inputs))
  {
    var all := inputs + [x];
    var n := |inputs|;
    assert all[n] == x;
    assert forall i :: 0 <= i < n ==> all[i] == inputs[i];
    if x == ImageLoadedSuccessfully {
      assert LoadedSinceLastError(all);
    } else if x == ErrorLoadingImage {
      assert forall i :: 0 <= i < |all| && all[i] == ImageLoadedSuccessfully ==> i < n && all[n] == ErrorLoadingImage;
    } else {
      if LoadedSinceLastError(inputs) {
        var i :| 0 <= i < n && inputs[i] == ImageLoadedSuccessfully
                 && forall j :: i < j < n ==> inputs[j] != ErrorLoadingImage;
        assert all[i] == ImageLoadedSuccessfully;
      }
      if LoadedSinceLastError(all) {
        var i :| 0 <= i < |all| && all[i] == ImageLoadedSuccessfully
                 && forall j :: i < j < |all| ==> all[j] != ErrorLoadingImage;
        assert inputs[i] == ImageLoadedSuccessfully;
      }
    }
  }

  /** The save button is shown exactly when a successful load has not been
      followed by a failure; it starts hidden. */
  lemma {:induction false} SaveButtonShownAfterLoad(post: Post, inputs: seq<Input>)
    ensures !Run(post, inputs).isSaveImageButtonHidden <==> LoadedSinceLastError(inputs)
    decreases |inputs|
  {
    if |inputs| > 0 {
      var n := |inputs| - 1;
      assert inputs == inputs[..n] + [inputs[n]];
      SaveButtonShownAfterLoad(post, inputs[..n]);
      LoadedSinceLastErrorSnoc(inputs[..n], inputs[n]);
    }
  }

  /** The progress bar gets its first value, "hidden", on the first load
      result of either kind, and keeps it. */
  lemma {:induction false} ProgressHiddenOnFirstResult(post: Post, inputs: seq<Input>)
    ensures Run(post, inputs).isProgressBarHidden
         == if ImageLoadedSuccessfully in inputs || ErrorLoadingImage in inputs then Some(true) else None
    decreases |inputs|
  {
    if |inputs| > 0 {
      var prefix := inputs[..|inputs| - 1];
      assert inputs == prefix + [inputs[|inputs| - 1]];
      ProgressHiddenOnFirstResult(post, prefix);
    }
  }

  /** The opened links are those of the clicks, in click order. */
  lemma {:induction false} OpensLinksInClickOrder(post: Post, inputs: seq<Input>)
    ensures Run(post, inputs).openExternal == Links(post, inputs)
    decreases |inputs|
  {
    if |inputs| > 0 {
      var prefix := inputs[..|inputs| - 1];
      assert inputs == prefix + [inputs[|inputs| - 1]];
      OpensLinksInClickOrder(post, prefix);
      LinksSnoc(post, prefix, inputs[|inputs| - 1]);
    }
  }

  /** Without a `url`, "open external" opens nothing: every link is the
      reddit.com permalink, one per "open on reddit" click. */
  lemma {:induction false} WithoutUrlOnlyRedditOpens(post: Post, inputs: seq<Input>)
    requires post.url.None?
    ensures |Links(post, inputs)| == Count(inputs, ClickOpenReddit)
    ensures forall k :: 0 <= k < |Links(post, inputs)| ==> Links(post, inputs)[k] == RedditBaseUrl + post.permalink
    decreases |inputs|
  {
    if |inputs| > 0 {
      WithoutUrlOnlyRedditOpens(post, inputs[1..]);
    }
  }

  /** Each "save" click asks to save the image once, under `reddit-<name>`. */
  lemma {:induction false} SavesOncePerClick(post: Post, inputs: seq<Input>)
    ensures |Run(post, inputs).saveImageToGallery| == Count(inputs, ClickSaveImage)
    ensures forall k :: 0 <= k < |Run(post, inputs).saveImageToGallery|
                    ==> Run(post, inputs).saveImageToGallery[k] == "reddit-" + post.name
    decreases |inputs|
  {
    if |inputs| > 0 {
      var prefix := inputs[..|inputs| - 1];
      assert inputs == prefix + [inputs[|inputs| - 1]];
      SavesOncePerClick(post, prefix);
      CountSnoc(prefix, inputs[|inputs| - 1], ClickSaveImage);
    }
  }

  // ---------------------------------------------------------------------------
  // The post as the detail screen receives it: through a parcel

  /** The list screen hands the post to the detail screen in a parcel. As
      written, the parcel reader turns a missing `url` into `""`, so "open
      external" on a post without a link opens the empty link instead of
      nothing. */
  lemma ParcelledPostWithoutUrlOpensEmptyLink(post: Post)
    requires post.url.None?
    ensures Links(post, [ClickOpenExternal]) == []
    ensures FromParcel(WriteToParcel(post)).Some?
    ensures Links(FromParcel(WriteToParcel(post)).value.value, [ClickOpenExternal]) == [""]
  {
    ParcelFillsMissingUrl(post);
    var received := FromParcel(WriteToParcel(post)).value.value;
    SingleInputLinks(post, ClickOpenExternal);
    SingleInputLinks(received, ClickOpenExternal);
  }

  /** With the reader that keeps nulls, the detail screen behaves on the
      received post exactly as on the sent one, for every stream of inputs. */
  lemma ParcelKeepingNullsPreservesScreen(post: Post, inputs: seq<Input>)
    ensures FromParcelKeepingNulls(WriteToParcel(post)).Some?
    ensures Run(FromParcelKeepingNulls(WriteToParcel(post)).value.value, inputs) == Run(post, inputs)
    ensures Links(FromParcelKeepingNulls(WriteToParcel(post)).value.value, inputs) == Links(post, inputs)
  {
    ParcelRoundTripKeepingNulls(post, []);
    assert WriteToParcel(post) + [] == WriteToParcel(post);
  }
}
