/** The listing JSON of the "top posts" endpoint, one datatype per JSON object
    (domain/api/response/RedditPostsResponse.kt). */
module RedditPostsResponse {
  import opened Wrappers
  import opened Jvm

  datatype Response = Response(kind: string, data: ResponseData)

  /** The children of one listing page and the cursors of its neighbours. */
  datatype ResponseData = ResponseData(children: seq<Child>, after: Option<string>, before: Option<string>)

  datatype Child = Child(data: PostData)

  /** `createdUtc` is in epoch seconds. */
  datatype PostData = PostData(
    id: string,
    name: string,
    title: string,
    selfText: Option<string>,
    permalink: string,
    author: string,
    thumbnail: Option<string>,
    createdUtc: Int64,
    url: Option<string>,
    numComments: Int32,
    preview: Option<Preview>
  )

  datatype Preview = Preview(images: seq<PreviewImage>)

  datatype PreviewImage = PreviewImage(source: PreviewImageSource)

  /** The image URL as found in the JSON, still HTML-entity encoded. */
  datatype PreviewImageSource = PreviewImageSource(url: string)
}
