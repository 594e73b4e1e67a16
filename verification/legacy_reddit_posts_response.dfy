/** The listing JSON as the older screens read it: no cursors, no ids, and a
    floating-point creation time (api/response/RedditPostsResponse.kt). */
module LegacyRedditPostsResponse {
  import opened Wrappers
  import opened Jvm

  datatype Response = Response(kind: string, data: ResponseData)

  datatype ResponseData = ResponseData(children: seq<Child>)

  datatype Child = Child(data: PostData)

  /** `createdUtc` is a JSON double, kept as a real number. */
  datatype PostData = PostData(
    title: string,
    author: string,
    thumbnail: Option<string>,
    createdUtc: real,
    url: Option<string>,
    numComments: Int32
  )
}
