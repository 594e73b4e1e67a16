# Reddit top-posts client: a Dafny model of its core

This project models the logic of an Android client that lists the day's top Reddit posts. It covers:

- the post record, with its `equals`/`hashCode` pair and its `Parcelable` codec;
- the converter from Reddit's JSON listing to a page of posts;
- the repository, which caches the loaded posts and hides the dismissed ones;
- the page-keyed data source between the paged list and the repository;
- the list screen's view model and the detail screen's view model.

For each, the model states and proves what the code promises. The older `home`/`repository` generation of the app is modelled where the current code still uses it: the legacy post record, with its parcel codec, and the legacy converter.

Modules, one per source file of the core:

- `Wrappers`: `Option` and `Result`.
- `Jvm`: Kotlin `Int`/`Byte` ranges and 32-bit wrap-around; `java.net.URL` as an opaque value.
- `Parcel`: a parcel as the sequence of typed slots written into it, and its readers.
- `RedditPost`, `LegacyRedditPost`: the two post records.
- `RedditPostsResponse`, `LegacyRedditPostsResponse`: the listing JSON as datatypes.
- `PageConverter`, `LegacyPageConverter`: the two converters. The HTML decoder, the relative-time clock and the URL parser are parameters.
- `PostRepository`: the repository as written, `domain/repository/RedditPostRepository.kt`.
- `PostRepositoryExt`: the repository its unit tests describe. It adds a ceiling on cached posts, read marks, and hiding on the network path.
- `PagedDataSource`: `loadInitial`, `loadBefore` and `loadAfter`.
- `PostListViewModel`, `PostDetailViewModel`: each view model as a reducer over a stream of inputs. Each proof relates the fold to an independent definition of the same output: the last clicked post, the links of the clicks in order, and so on.

The network is a function from request to page-or-error. `PostRepository.ConvertingFetch` builds it from the API call and the converter, as the repository does. Every repository call returns the requests it sent, so "this call went to the network" can be stated and proved.

## Where the code and its tests disagree

The model follows the main sources except where they do not compile or are incomplete.

- **Converter fields.** `domain/repository/converter/RedditPostsResponseToRedditPostsPageConverter.kt:23-32` builds a post without `selfText`, `permalink` and `url`, which the post class requires. The converter's unit test expects the three fields to be copied from the listing, and `PageConverter` copies them.
- **Repository extras.** The repository passes a `filtering` argument (`RedditPostRepository.kt:31-34`) that the converter does not take. Its unit tests also use three things the repository lacks: a `maxPosts` constructor argument, `markPostAsRead`, and hiding of dismissed posts on the network path.
  - `PostRepository` models the repository as written.
  - `PostRepositoryExt` models what the tests check. Dismissed and read posts are matched by id, because the tests flag a read post by mutating it (`RedditPostRepositoryUnitTests.kt:175`). `PostRepositoryExt.DismissingShownCopyHidesPost` shows that structural matching would miss the copy the list displays.
  - The data source and the view models use `PostRepositoryExt`.
- **`loadBefore` direction.** The data source's unit test expects `loadBefore` to send its key as `after` and to report `pageAfter`. The data source sends the key as `before` and reports `pageBefore`. The model follows the data source, and `PagedDataSource.LoadBeforeIsNotWhatItsTestExpects` records the difference.
- **Data source imports.** `datasource/PagedRedditPostsDataSource.kt:6-7` imports the legacy post and the legacy Rx repository. That repository returns a `Single` and takes no `before` cursor, so the data source's call does not type-check against it. The list view model (`redditpostlist/viewmodel/PostListViewModel.kt:9-11`) and the data source's unit test (`PagedRedditPostsDataSourceUnitTests.kt:5-7`) use a data source in the `domain` package, built on the domain post, page and repository. The model follows those imports.
- **`imageUrl`.** The detail view model (`PostDetailViewModel.kt:55`, `74-75`), the repository test (`RedditPostRepositoryUnitTests.kt:273`) and the test helper (`test_utils/RedditPostUtils.kt:16`) use an `imageUrl` field, which the domain post does not have. The model uses the post's `url`, the link the detail screen calls the full-size image.

## Model

| member | source | states |
|---|---|---|
| Jvm.Wrap32 | app/src/main/java/com/caiolandau/devigetredditclient/domain/model/RedditPost.kt:72-85 | the result is the 32-bit Int congruent to the exact value modulo 2^32, the way `hashCode` arithmetic wraps |
| Jvm.Wrap32Shifts | app/src/main/java/com/caiolandau/devigetredditclient/domain/model/RedditPost.kt:83-84 | adding any amount strictly between 0 and 2^32 changes the wrapped value, so the last term of `hashCode` always shows |
| Parcel.ReadString | app/src/main/java/com/caiolandau/devigetredditclient/domain/model/RedditPost.kt:20-28 | succeeds exactly on a string slot (null included), returns its value and consumes that slot only |
| Parcel.ReadInt | app/src/main/java/com/caiolandau/devigetredditclient/domain/model/RedditPost.kt:29 | succeeds exactly on an int slot, returns it and consumes that slot only |
| Parcel.ReadByte | app/src/main/java/com/caiolandau/devigetredditclient/domain/model/RedditPost.kt:30 | succeeds exactly on a byte slot, returns it and consumes that slot only |
| Parcel.ReadSerializable | app/src/main/java/com/caiolandau/devigetredditclient/home/model/RedditPost.kt:19 | succeeds exactly on a serializable slot, returns the URL (or null) and consumes that slot only |
| Parcel.ReadStrings | app/src/main/java/com/caiolandau/devigetredditclient/domain/model/RedditPost.kt:20-28 | n reads succeed exactly when the next n slots are strings; they return those strings in order and leave the slots after them |
| RedditPost.Equals | app/src/main/java/com/caiolandau/devigetredditclient/domain/model/RedditPost.kt:51-70 | no contract of its own; `RedditPost.EqualsIsStructural` states that it holds exactly for a non-null post with all eleven fields equal |
| RedditPost.HashCode | app/src/main/java/com/caiolandau/devigetredditclient/domain/model/RedditPost.kt:72-85 | no contract of its own; `RedditPost.HashCodeAgreesWithEquals` and `RedditPost.HashCodeSeesReadFlag` state its agreement with `equals` and its dependence on the read flag |
| RedditPost.EqualsIsStructural | app/src/main/java/com/caiolandau/devigetredditclient/domain/model/RedditPost.kt:51-70 | `equals` is false for null and otherwise holds exactly when all eleven fields agree |
| RedditPost.ReadFlagBreaksEquality | app/src/main/java/com/caiolandau/devigetredditclient/domain/model/RedditPost.kt:67 | a post and its copy with the read flag flipped are not equal |
| RedditPost.HashCodeAgreesWithEquals | app/src/main/java/com/caiolandau/devigetredditclient/domain/model/RedditPost.kt:72-85 | equal posts have equal hash codes, for any string hash |
| RedditPost.HashCodeSeesReadFlag | app/src/main/java/com/caiolandau/devigetredditclient/domain/model/RedditPost.kt:83-84 | flipping the read flag always changes the hash code, despite 32-bit wrap-around |
| RedditPost.WriteToParcel | app/src/main/java/com/caiolandau/devigetredditclient/domain/model/RedditPost.kt:33-45 | writes nine strings, an int and a byte in declaration order; the byte is 1 exactly for a read post |
| RedditPost.FromParcel | app/src/main/java/com/caiolandau/devigetredditclient/domain/model/RedditPost.kt:19-31 | no contract of its own; `RedditPost.ReaderConsumesWriterLayout`, `RedditPost.ReadFlagIsNonZeroByte` and `RedditPost.ParcelRoundTrip` state what it accepts, consumes and restores |
| RedditPost.ReaderConsumesWriterLayout | app/src/main/java/com/caiolandau/devigetredditclient/domain/model/RedditPost.kt:19-31 | the parcel constructor accepts a parcel exactly when its next eleven slots have the writer's layout, and consumes exactly those |
| RedditPost.ReadFlagIsNonZeroByte | app/src/main/java/com/caiolandau/devigetredditclient/domain/model/RedditPost.kt:30 | the read flag comes back true for any non-zero byte |
| RedditPost.ParcelRoundTrip | app/src/main/java/com/caiolandau/devigetredditclient/domain/model/RedditPost.kt:19-45 | reading back what was written restores every field and leaves later slots, except that a null `selfText` or `url` becomes `""` |
| RedditPost.ParcelRoundTripExact | app/src/main/java/com/caiolandau/devigetredditclient/domain/model/RedditPost.kt:19-45 | the round trip is the identity exactly when `selfText` and `url` are both present |
| RedditPost.FromParcelKeepingNulls | app/src/main/java/com/caiolandau/devigetredditclient/domain/model/RedditPost.kt:19-31 | the corrected reader; `RedditPost.KeepingNullsOnlyChangesNullables` and `RedditPost.ParcelRoundTripKeepingNulls` state how it differs and that its round trip is exact |
| RedditPost.ParcelFillsMissingUrl | app/src/main/java/com/caiolandau/devigetredditclient/domain/model/RedditPost.kt:27 | a post without a `url` is read back with the empty `url` |
| RedditPost.KeepingNullsOnlyChangesNullables | app/src/main/java/com/caiolandau/devigetredditclient/domain/model/RedditPost.kt:19-31 | the corrected reader accepts the same parcels and consumes the same slots as the original, and differs only in taking `selfText` and `url` as written |
| RedditPost.ParcelRoundTripKeepingNulls | app/src/main/java/com/caiolandau/devigetredditclient/domain/model/RedditPost.kt:19-45 | with the corrected reader, reading back what was written restores every post exactly |
| LegacyRedditPost.WriteToParcel | app/src/main/java/com/caiolandau/devigetredditclient/home/model/RedditPost.kt:26-33 | writes three strings, the URL, and two ints; the last int is 1 exactly for a read post |
| LegacyRedditPost.FromParcel | app/src/main/java/com/caiolandau/devigetredditclient/home/model/RedditPost.kt:15-22 | no contract of its own; `LegacyRedditPost.ReaderConsumesWriterLayout` and `LegacyRedditPost.ParcelRoundTrip` state what it accepts and restores |
| LegacyRedditPost.ReaderConsumesWriterLayout | app/src/main/java/com/caiolandau/devigetredditclient/home/model/RedditPost.kt:15-22 | the parcel constructor accepts a parcel exactly when its next six slots have the writer's layout, and consumes exactly those |
| LegacyRedditPost.ReadFlagIsExactlyOne | app/src/main/java/com/caiolandau/devigetredditclient/home/model/RedditPost.kt:21 | the read flag comes back true only for the int 1 |
| LegacyRedditPost.ParcelRoundTrip | app/src/main/java/com/caiolandau/devigetredditclient/home/model/RedditPost.kt:15-33 | reading back what was written restores every post exactly and leaves later slots |
| PageConverter.FirstImageUrl | app/src/main/java/com/caiolandau/devigetredditclient/domain/repository/converter/RedditPostsResponseToRedditPostsPageConverter.kt:42 | the first preview image's source URL, absent exactly when the preview has no images |
| PageConverter.ThumbnailUrl | app/src/main/java/com/caiolandau/devigetredditclient/domain/repository/converter/RedditPostsResponseToRedditPostsPageConverter.kt:37-48 | a preview with an image gives its decoded source URL; no preview gives the root `thumbnail`; a preview without images makes `Html.fromHtml(null)` throw, carried as the child's id |
| PageConverter.ConvertChild | app/src/main/java/com/caiolandau/devigetredditclient/domain/repository/converter/RedditPostsResponseToRedditPostsPageConverter.kt:23-32 | succeeds exactly for a convertible child, with a post related to it field by field (unread, relative date, thumbnail as above); otherwise throws for that child |
| PageConverter.ConvertedFromIsFunctional | app/src/main/java/com/caiolandau/devigetredditclient/domain/repository/converter/RedditPostsResponseToRedditPostsPageConverter.kt:22-48 | the field-by-field conversion relation pins down the post completely: two posts converted from one child are equal |
| PageConverter.ConvertChildren | app/src/main/java/com/caiolandau/devigetredditclient/domain/repository/converter/RedditPostsResponseToRedditPostsPageConverter.kt:22-33 | on success, one post per child |
| PageConverter.ConvertChildrenSpec | app/src/main/java/com/caiolandau/devigetredditclient/domain/repository/converter/RedditPostsResponseToRedditPostsPageConverter.kt:22-33 | the `map` succeeds exactly when every child is convertible, then relates each post to its child in order; otherwise it throws for the first child that is not |
| PageConverter.Convert | app/src/main/java/com/caiolandau/devigetredditclient/domain/repository/converter/RedditPostsResponseToRedditPostsPageConverter.kt:16-35 | succeeds exactly when every child is convertible; the page keeps the listing's cursors and holds one converted post per child, in order; a failure names a child that is not convertible |
| PageConverter.ConvertedPostsAreUnread | app/src/main/java/com/caiolandau/devigetredditclient/domain/repository/converter/RedditPostsResponseToRedditPostsPageConverter.kt:31 | every post of a converted page is unread |
| PageConverter.ConvertChildrenAppend | app/src/main/java/com/caiolandau/devigetredditclient/domain/repository/converter/RedditPostsResponseToRedditPostsPageConverter.kt:22 | converting a concatenation fails with the first part's error, else the second's, and otherwise is the concatenation of the conversions |
| LegacyPageConverter.ConvertChildren | app/src/main/java/com/caiolandau/devigetredditclient/repository/converter/RedditPostsResponseToRedditPostsPageConverter.kt:18-27 | succeeds exactly when every thumbnail parses as a URL, then converts child by child; otherwise fails on the first bad thumbnail |
| LegacyPageConverter.Convert | app/src/main/java/com/caiolandau/devigetredditclient/repository/converter/RedditPostsResponseToRedditPostsPageConverter.kt:17-28 | succeeds exactly when every thumbnail parses; the page holds one converted post per child |
| PostRepository.Unfiltered | app/src/main/java/com/caiolandau/devigetredditclient/domain/repository/RedditPostRepository.kt:25 | a post is kept exactly when it is in the cache and not dismissed; nothing is added |
| PostRepository.UnfilteredAppend | app/src/main/java/com/caiolandau/devigetredditclient/domain/repository/RedditPostRepository.kt:25 | filtering a concatenation is concatenating the filtered parts |
| PostRepository.UnfilteredDependsOnMembership | app/src/main/java/com/caiolandau/devigetredditclient/domain/repository/RedditPostRepository.kt:25 | the filter depends only on which posts were dismissed, not on order or repetition |
| PostRepository.TopPostsTodayPage | app/src/main/java/com/caiolandau/devigetredditclient/domain/repository/RedditPostRepository.kt:16-37 | without cursors and with a non-empty cache: the cache minus dismissed posts, no request, cursor after the last cached post; otherwise one request, the fetched page as is, its posts appended to the cache on success, nothing changed on failure |
| PostRepository.ConvertingFetch | app/src/main/java/com/caiolandau/devigetredditclient/domain/repository/RedditPostRepository.kt:31-36 | the API call followed by the converter; `PostRepositoryExt.ConvertingFetchDeliversUnread` states that it fails exactly when either does and delivers only unread posts |
| PostRepository.InvalidateLocalData | app/src/main/java/com/caiolandau/devigetredditclient/domain/repository/RedditPostRepository.kt:39-42 | empties the cache and keeps the dismissed posts |
| PostRepository.FilterPost | app/src/main/java/com/caiolandau/devigetredditclient/domain/repository/RedditPostRepository.kt:44 | adds the post to the dismissed ones and keeps the cache |
| PostRepository.InvalidateForcesFetch | app/src/main/java/com/caiolandau/devigetredditclient/domain/repository/RedditPostRepository.kt:21-42 | after invalidation a request without cursors always goes to the network |
| PostRepository.SecondInitialCallIsLocal | app/src/main/java/com/caiolandau/devigetredditclient/domain/repository/RedditPostRepository.kt:21-36 | of two first-page calls on a new repository only one reaches the network, exactly when the first fetch succeeded with some posts |
| PostRepository.DismissedNeverServedLocally | app/src/main/java/com/caiolandau/devigetredditclient/domain/repository/RedditPostRepository.kt:21-29 | a page served from the cache never holds a post dismissed before |
| PostRepository.DismissTwiceIsDismissOnce | app/src/main/java/com/caiolandau/devigetredditclient/domain/repository/RedditPostRepository.kt:21-44 | dismissing a post twice answers every call as dismissing it once |
| PostRepository.NetworkPathDoesNotFilter | app/src/main/java/com/caiolandau/devigetredditclient/domain/repository/RedditPostRepository.kt:31-36 | a page fetched from the network keeps a dismissed post |
| PostRepository.CacheOnlyGrows | app/src/main/java/com/caiolandau/devigetredditclient/domain/repository/RedditPostRepository.kt:21-44 | without invalidation, the cache only grows by appending |
| PostRepository.DismissKeepsCache | app/src/main/java/com/caiolandau/devigetredditclient/domain/repository/RedditPostRepository.kt:44 | any number of dismissals leave the cache as it was |
| PostRepositoryExt.Ids | app/src/test/java/com/caiolandau/devigetredditclient/domain/repository/RedditPostRepositoryUnitTests.kt:77-110 | the ids of a list of posts: every post's id and nothing else |
| PostRepositoryExt.Overlay | app/src/test/java/com/caiolandau/devigetredditclient/domain/repository/RedditPostRepositoryUnitTests.kt:147-186 | the shown list is never longer than the listed one |
| PostRepositoryExt.OverlayHides | app/src/test/java/com/caiolandau/devigetredditclient/domain/repository/RedditPostRepositoryUnitTests.kt:147-186 | no shown post has a dismissed id, and every shown post with a read id is flagged read |
| PostRepositoryExt.OverlayMembers | app/src/test/java/com/caiolandau/devigetredditclient/domain/repository/RedditPostRepositoryUnitTests.kt:147-186 | every shown post is some listed post, flagged if read; every listed post not dismissed is shown |
| PostRepositoryExt.OverlayAppend | app/src/test/java/com/caiolandau/devigetredditclient/domain/repository/RedditPostRepositoryUnitTests.kt:147-186 | the overlay of a concatenation is the concatenation of the overlays, so order is kept |
| PostRepositoryExt.OverlayFlagsExactlyMarked | app/src/test/java/com/caiolandau/devigetredditclient/domain/repository/RedditPostRepositoryUnitTests.kt:112-145 | on unread posts, a shown post is flagged read exactly when its id was marked |
| PostRepositoryExt.OverlayWithoutMarksIsIdentity | app/src/test/java/com/caiolandau/devigetredditclient/domain/repository/RedditPostRepositoryUnitTests.kt:31-60 | with nothing dismissed or read, the fetched posts are shown as they are |
| PostRepositoryExt.CappedAfter | app/src/test/java/com/caiolandau/devigetredditclient/domain/repository/RedditPostRepositoryUnitTests.kt:226-263 | the next cursor is withheld exactly when the cache holds at least the ceiling, and passed on otherwise |
| PostRepositoryExt.TopPostsTodayPage | app/src/test/java/com/caiolandau/devigetredditclient/domain/repository/RedditPostRepositoryUnitTests.kt:31-263 | local or network answer as in the shown repository, with dismissed ids hidden and read ids flagged on both paths and the next cursor cut at the post ceiling |
| PostRepositoryExt.InvalidateLocalData | app/src/main/java/com/caiolandau/devigetredditclient/domain/repository/RedditPostRepository.kt:39-42 | empties the cache; dismissed and read posts and the ceiling are kept |
| PostRepositoryExt.FilterPost | app/src/test/java/com/caiolandau/devigetredditclient/domain/repository/RedditPostRepositoryUnitTests.kt:94 | adds the post to the dismissed ones; everything else is kept |
| PostRepositoryExt.MarkPostAsRead | app/src/test/java/com/caiolandau/devigetredditclient/domain/repository/RedditPostRepositoryUnitTests.kt:129 | adds the post to the read ones; everything else is kept |
| PostRepositoryExt.AnswersApplyOverlays | app/src/test/java/com/caiolandau/devigetredditclient/domain/repository/RedditPostRepositoryUnitTests.kt:147-186 | every successful answer hides dismissed ids and flags read ids |
| PostRepositoryExt.AnswersFlagExactlyMarked | app/src/test/java/com/caiolandau/devigetredditclient/domain/repository/RedditPostRepositoryUnitTests.kt:112-186 | with an unread cache and an unread fetched page, an answered post is flagged read exactly when its id was marked read, and the cache stays unread |
| PostRepositoryExt.ConvertingFetchDeliversUnread | app/src/main/java/com/caiolandau/devigetredditclient/domain/repository/RedditPostRepository.kt:31-36 | the converting network delivers only unread posts and fails exactly when the API call or the conversion fails |
| PostRepositoryExt.ConvertedCacheStaysUnread | app/src/main/java/com/caiolandau/devigetredditclient/domain/repository/RedditPostRepository.kt:16-44 | on the converting network, any sequence of loads, invalidations, dismissals and read marks keeps the cache unread |
| PostRepositoryExt.ConvertedAnswersFlagExactlyMarked | app/src/test/java/com/caiolandau/devigetredditclient/domain/repository/RedditPostRepositoryUnitTests.kt:112-186 | on the converting network, after any history from a new repository, an answered post is flagged read exactly when its id was marked read |
| PostRepositoryExt.DismissedNeverShown | app/src/test/java/com/caiolandau/devigetredditclient/domain/repository/RedditPostRepositoryUnitTests.kt:77-110 | after dismissing a post, no answer shows a post with its id |
| PostRepositoryExt.MarkedReadShownRead | app/src/test/java/com/caiolandau/devigetredditclient/domain/repository/RedditPostRepositoryUnitTests.kt:112-145 | after marking a post read, every shown post with its id is flagged read |
| PostRepositoryExt.MarksAreIdempotent | app/src/test/java/com/caiolandau/devigetredditclient/domain/repository/RedditPostRepositoryUnitTests.kt:147-186 | dismissing or marking the same post twice answers as doing it once |
| PostRepositoryExt.CeilingIsFinal | app/src/test/java/com/caiolandau/devigetredditclient/domain/repository/RedditPostRepositoryUnitTests.kt:226-263 | once the cache reaches the ceiling it stays there and no answer has a next cursor |
| PostRepositoryExt.StopsWhenReachLimit | app/src/test/java/com/caiolandau/devigetredditclient/domain/repository/RedditPostRepositoryUnitTests.kt:226-263 | two pages of 25 under a ceiling of 50: the first answer has a next cursor, the second has none |
| PostRepositoryExt.FilterAndReadScenario | app/src/test/java/com/caiolandau/devigetredditclient/domain/repository/RedditPostRepositoryUnitTests.kt:147-186 | with posts 1 and 3 dismissed and post 4 read, the fetched page 1-4 is shown as post 2 and post 4 flagged read |
| PostRepositoryExt.NetworkAnswer | app/src/test/java/com/caiolandau/devigetredditclient/domain/repository/RedditPostRepositoryUnitTests.kt:77-186 | with a cursor, a successful fetch is answered with its overlaid posts, its previous cursor, and its next cursor cut at the ceiling |
| PostRepositoryExt.OverlayScenario | app/src/test/java/com/caiolandau/devigetredditclient/domain/repository/RedditPostRepositoryUnitTests.kt:174-175 | the overlay of posts 1-4 with 1 and 3 dismissed and 4 read is post 2 and post 4 flagged read |
| PostRepositoryExt.DismissingShownCopyHidesPost | app/src/main/java/com/caiolandau/devigetredditclient/domain/repository/RedditPostRepository.kt:25 | dismissing the read-flagged copy of a post does not hide the post under structural matching, but does under matching by id |
| PagedDataSource.LoadInitial | app/src/main/java/com/caiolandau/devigetredditclient/datasource/PagedRedditPostsDataSource.kt:17-29 | one repository call without cursors; the result callback gets its posts and both cursors, and the error callback gets a failure |
| PagedDataSource.LoadBefore | app/src/main/java/com/caiolandau/devigetredditclient/datasource/PagedRedditPostsDataSource.kt:31-44 | one repository call with the key as `before`; the result callback gets the answer's posts and its `before` cursor, the error callback a failure |
| PagedDataSource.LoadAfter | app/src/main/java/com/caiolandau/devigetredditclient/datasource/PagedRedditPostsDataSource.kt:46-59 | one repository call with the key as `after`; the result callback gets the answer's posts and its `after` cursor, the error callback a failure |
| PagedDataSource.OneCallbackPerLoad | app/src/main/java/com/caiolandau/devigetredditclient/datasource/PagedRedditPostsDataSource.kt:17-59 | every load invokes exactly one callback, the error callback exactly when the repository call failed |
| PagedDataSource.LoadBeforeRoutesKeyToBefore | app/src/main/java/com/caiolandau/devigetredditclient/datasource/PagedRedditPostsDataSource.kt:31-44 | the key goes out as the `before` cursor; the callback gets the overlaid fetched posts and the fetched `before` cursor |
| PagedDataSource.LoadAfterRoutesKeyToAfter | app/src/main/java/com/caiolandau/devigetredditclient/datasource/PagedRedditPostsDataSource.kt:46-59 | the key goes out as the `after` cursor; the callback gets the overlaid fetched posts and the `after` cursor unless the ceiling is reached |
| PagedDataSource.FailedLoadChangesNothing | app/src/main/java/com/caiolandau/devigetredditclient/datasource/PagedRedditPostsDataSource.kt:25-27 | a load that ends in the error callback leaves the repository unchanged |
| PagedDataSource.LoadBeforeIsNotWhatItsTestExpects | app/src/test/java/com/caiolandau/devigetredditclient/domain/datasource/PagedRedditPostsDataSourceUnitTests.kt:65-81 | the request `loadBefore` sends never has the key as `after`, which is what the unit test expects |
| PostListViewModel.Step | app/src/main/java/com/caiolandau/devigetredditclient/redditpostlist/viewmodel/PostListViewModel.kt:72-192 | no contract of its own; `PostListViewModel.RepositoryCallThenInvalidate`, `PostListViewModel.ClosesDetailsWhen` and `PostListViewModel.EffectsOfStep` state what one input does |
| PostListViewModel.CloseIfSameId | app/src/main/java/com/caiolandau/devigetredditclient/redditpostlist/viewmodel/PostListViewModel.kt:77-87 | asks to close the details exactly when the dismissed and the shown post have the same id |
| PostListViewModel.RefreshedSinceLastEndSnoc | app/src/main/java/com/caiolandau/devigetredditclient/redditpostlist/viewmodel/PostListViewModel.kt:107-155 | one more input: a refresh starts a refresh, an error or a page event on an attached list ends it, anything else keeps it |
| PostListViewModel.RefreshingUntilLoaded | app/src/main/java/com/caiolandau/devigetredditclient/redditpostlist/viewmodel/PostListViewModel.kt:107-155 | the spinner shows exactly when some refresh (or the start) came after the last error or the last page event on a delivered list |
| PostListViewModel.ShowsLatestClick | app/src/main/java/com/caiolandau/devigetredditclient/redditpostlist/viewmodel/PostListViewModel.kt:157-163 | the details show nothing exactly until the first click, then the last clicked post |
| PostListViewModel.LatestClickedIsLatestClick | app/src/main/java/com/caiolandau/devigetredditclient/redditpostlist/viewmodel/PostListViewModel.kt:157-163 | the last clicked post is the post of the latest click input |
| PostListViewModel.RemembersLatestDismissal | app/src/main/java/com/caiolandau/devigetredditclient/redditpostlist/viewmodel/PostListViewModel.kt:77-87 | the close-details logic remembers nothing until the first dismissal, then the last dismissed post |
| PostListViewModel.ClosesDetailsWhen | app/src/main/java/com/caiolandau/devigetredditclient/redditpostlist/viewmodel/PostListViewModel.kt:72-105 | a dismissal closes the details exactly when it hits the shown post; a click closes them exactly when it hits the last dismissed post; dismiss-all clears and closes |
| PostListViewModel.RepositoryCallThenInvalidate | app/src/main/java/com/caiolandau/devigetredditclient/redditpostlist/viewmodel/PostListViewModel.kt:112-189 | refresh, click and dismiss first call the repository and then invalidate the data source exactly when a list is attached; no other input invalidates |
| PostListViewModel.ForwardsDismissalsAndClicks | app/src/main/java/com/caiolandau/devigetredditclient/redditpostlist/viewmodel/PostListViewModel.kt:165-192 | the repository is told to dismiss exactly the dismissed posts and to mark read exactly the clicked posts, in order |
| PostListViewModel.EffectsOfStep | app/src/main/java/com/caiolandau/devigetredditclient/redditpostlist/viewmodel/PostListViewModel.kt:175-189 | one input dismisses only its own post if it is a dismissal and marks only its own post read if it is a click |
| PostListViewModel.EffectsReachRepository | app/src/main/java/com/caiolandau/devigetredditclient/redditpostlist/viewmodel/PostListViewModel.kt:175-189 | applying the effects grows the dismissed and read lists by exactly the forwarded posts and keeps the ceiling |
| PostListViewModel.DismissedAndReadSurviveReload | app/src/main/java/com/caiolandau/devigetredditclient/redditpostlist/viewmodel/PostListViewModel.kt:165-192 | after the effects reach the repository, a reload never shows a dismissed id and flags every clicked id read |
| PostListViewModel.RefreshReloadsFromNetwork | app/src/main/java/com/caiolandau/devigetredditclient/redditpostlist/viewmodel/PostListViewModel.kt:112-126 | after a refresh, the next initial load goes to the network without cursors |
| PostDetailViewModel.Step | app/src/main/java/com/caiolandau/devigetredditclient/redditpostdetail/viewmodel/PostDetailViewModel.kt:40-95 | no contract of its own; the lemmas below state its fold over any inputs against independent definitions |
| PostDetailViewModel.TitleAndTextAreFixed | app/src/main/java/com/caiolandau/devigetredditclient/redditpostdetail/viewmodel/PostDetailViewModel.kt:42-44 | the title and the text are the post's whatever the inputs |
| PostDetailViewModel.ImageFallsBackToThumbnail | app/src/main/java/com/caiolandau/devigetredditclient/redditpostdetail/viewmodel/PostDetailViewModel.kt:52-61 | the image is the post's `url` until some load fails, and its thumbnail from then on |
| PostDetailViewModel.LoadedSinceLastErrorSnoc | app/src/main/java/com/caiolandau/devigetredditclient/redditpostdetail/viewmodel/PostDetailViewModel.kt:84-90 | one more input: a success starts a loaded spell, a failure ends it, anything else keeps it |
| PostDetailViewModel.SaveButtonShownAfterLoad | app/src/main/java/com/caiolandau/devigetredditclient/redditpostdetail/viewmodel/PostDetailViewModel.kt:84-90 | the save button is shown exactly when a successful load has not been followed by a failure |
| PostDetailViewModel.ProgressHiddenOnFirstResult | app/src/main/java/com/caiolandau/devigetredditclient/redditpostdetail/viewmodel/PostDetailViewModel.kt:63-69 | the progress bar has no value until the first load result of either kind, then "hidden" |
| PostDetailViewModel.OpensLinksInClickOrder | app/src/main/java/com/caiolandau/devigetredditclient/redditpostdetail/viewmodel/PostDetailViewModel.kt:71-82 | the opened links are the links of the clicks, in click order |
| PostDetailViewModel.WithoutUrlOnlyRedditOpens | app/src/main/java/com/caiolandau/devigetredditclient/redditpostdetail/viewmodel/PostDetailViewModel.kt:71-82 | for a post without a `url`, one link per "open on reddit" click, each the reddit.com permalink |
| PostDetailViewModel.SavesOncePerClick | app/src/main/java/com/caiolandau/devigetredditclient/redditpostdetail/viewmodel/PostDetailViewModel.kt:92-95 | one save request per save click, each named `reddit-` plus the post name |
| PostDetailViewModel.ParcelledPostWithoutUrlOpensEmptyLink | app/src/main/java/com/caiolandau/devigetredditclient/redditpostdetail/viewmodel/PostDetailViewModel.kt:71-76 | a post without a `url` opens nothing on "open external", but the copy received through the parcel opens the empty link |
| PostDetailViewModel.ParcelKeepingNullsPreservesScreen | app/src/main/java/com/caiolandau/devigetredditclient/redditpostdetail/viewmodel/PostDetailViewModel.kt:40-95 | with the corrected reader the detail screen behaves on the received post exactly as on the sent one |

## Findings

| source | as written | input that shows it | evidently intended | confidence | as-written member | corrected member |
|---|---|---|---|---|---|---|
| app/src/main/java/com/caiolandau/devigetredditclient/domain/model/RedditPost.kt:24-27 | the parcel constructor reads the nullable `selfText` and `url` with `?: ""`, so null comes back as the empty string | a post with `url == null` sent to the detail screen, which receives it through a parcel; "open external" then opens `Uri.parse("")` instead of nothing | null stays null, as it does for `thumbnailUrl` on line 28, so that the detail screen's null check on the link applies | medium, not executed | PostDetailViewModel.ParcelledPostWithoutUrlOpensEmptyLink | RedditPost.ParcelRoundTripKeepingNulls |

- The as-written reader is `RedditPost.FromParcel`.
  - `RedditPost.ParcelRoundTripExact` proves that its round trip is the identity exactly when both fields are present.
  - `PostDetailViewModel.ParcelledPostWithoutUrlOpensEmptyLink` follows a post without a link to the detail screen.
- The corrected reader is `RedditPost.FromParcelKeepingNulls`.
  - `RedditPost.ParcelRoundTripKeepingNulls` proves that its round trip is exact.
  - `PostDetailViewModel.ParcelKeepingNullsPreservesScreen` proves that the detail screen behaves on the received post as on the sent one.

## Left out

- Networking, Retrofit and JSON parsing: the network is the `Fetch` parameter, and the listing is already a datatype.
- The clock and `EpochToRelativeTimeConverter`: relative time is a parameter of the converters. `java.net.URL` parsing is a parameter, as is `Html.fromHtml` on a non-null source; its exception on a null source is modelled as `PageConverter.NullHtmlSource`.
- The legacy epoch, a floating-point `Double`: it reaches the model only through the relative-time parameter.
- Android views, activities, fragments and adapters, `LocalImageSaver`, the Snackbar helper and the Rx scheduler provider. They hold no logic the view models do not already state.
- Concurrency and asynchronous delivery:
  - coroutines, `launchIn`, `postValue` coalescing and the LiveData/Flow machinery are left out;
  - each input is processed to completion before the next, with collectors running in registration order;
  - the views are taken to observe every output from the start.
- The paging library:
  - which load it calls and with what `requestedLoadSize`;
  - how it replaces an invalidated data source.

  Its reports to the view model (list delivered, pages inserted, removed or changed, load error) are inputs of `PostListViewModel`. After invalidation, the reload is modelled as the next `loadInitial`.
- The legacy list view model (`home/viewmodel/PostListViewModel.kt`) and the legacy Rx repository (`repository/RedditPostRepository.kt`). The list screen and the detail screen in `redditpostlist`/`redditpostdetail` use the domain repository. The shown data source imports the legacy repository but cannot compile against it, so the model uses the domain repository.
- `String.hashCode`: it is a parameter of `RedditPost.HashCode`, whose properties hold for any string hash.
- `describeContents`, `newArray` and the `CREATOR` objects: they carry no data.
- A malformed parcel is modelled as a failed read (`None`), where Android would return defaults or throw.
- `Uri.parse`: a link is the string handed to it.
