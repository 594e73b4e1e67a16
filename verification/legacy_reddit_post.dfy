/** The older post record of the first screen set and its `Parcelable` codec
    (home/model/RedditPost.kt). */
module LegacyRedditPost {
  import opened Wrappers
  import opened Jvm
  import opened Parcel

  /** `thumbnailUrl` is a parsed `java.net.URL` and may be null. */
  datatype Post = Post(
    title: string,
    author: string,
    entryDate: string,
    thumbnailUrl: Option<Url>,
    numOfComments: Int32,
    isRead: bool
  )

  /** The older page holds posts only, with no cursors. */
  datatype Page = Page(posts: seq<Post>)

  /** `writeToParcel`: three strings, the URL as a serializable, the comment
      count, then `isRead` as the int 1/0. */
  function WriteToParcel(post: Post): (slots: seq<Slot>)
    ensures WriterLayout(slots)
    ensures slots[5].number == 1 <==> post.isRead
  {
    [ StringSlot(Some(post.title)),
      StringSlot(Some(post.author)),
      StringSlot(Some(post.entryDate)),
      SerializableSlot(post.thumbnailUrl),
      IntSlot(post.numOfComments),
      IntSlot(if post.isRead then 1 else 0) ]
  }

  /** The shape `writeToParcel` produces and the parcel constructor consumes. */
  predicate WriterLayout(slots: seq<Slot>) {
    && |slots| == 6
    && slots[0].StringSlot?
    && slots[1].StringSlot?
    && slots[2].StringSlot?
    && slots[3].SerializableSlot?
    && slots[4].IntSlot?
    && slots[5].IntSlot?
  }

  /** The parcel constructor: strings read with `?: ""`, the URL read back as
      it was (null included), and the flag decoded as `1 == int`. */
  function FromParcel(parcel: seq<Slot>): Option<Read<Post>> {
    var title :- ReadString(parcel);
    var author :- ReadString(title.rest);
    var entryDate :- ReadString(author.rest);
    var thumbnailUrl :- ReadSerializable(entryDate.rest);
    var numOfComments :- ReadInt(thumbnailUrl.rest);
    var isRead :- ReadInt(numOfComments.rest);
    Some(Read(
      Post(
        title.value.GetOr(""),
        author.value.GetOr(""),
        entryDate.value.GetOr(""),
        thumbnailUrl.value,
        numOfComments.value,
        1 == isRead.value),
      isRead.rest))
  }

  /** The reader accepts a parcel exactly when its next six slots have the
      writer's layout, and it consumes those six slots and nothing more. */
  lemma ReaderConsumesWriterLayout(parcel: seq<Slot>)
    ensures FromParcel(parcel).Some? <==> |parcel| >= 6 && WriterLayout(parcel[..6])
    ensures FromParcel(parcel).Some? ==> FromParcel(parcel).value.rest == parcel[6..]
  {
    if |parcel| >= 6 && WriterLayout(parcel[..6]) {
      assert forall i :: 0 <= i < 6 ==> parcel[i] == parcel[..6][i];
    }
  }

  /** The flag is true only for the int 1: a parcel holding 2 decodes as
      unread, unlike the domain post's "any non-zero byte". */
  lemma ReadFlagIsExactlyOne(parcel: seq<Slot>)
    requires FromParcel(parcel).Some?
    ensures FromParcel(parcel).value.value.isRead <==> parcel[5].number == 1
  {
    ReaderConsumesWriterLayout(parcel);
    var s := parcel;
    assert s[1..][1..][1..][1..][1..][0] == s[5];
  }

  /** Writing then reading restores every field: the strings are never null,
      so the `""` fallback is never taken, and a null URL stays null. */
  lemma ParcelRoundTrip(post: Post, rest: seq<Slot>)
    ensures FromParcel(WriteToParcel(post) + rest) == Some(Read(post, rest))
  {
    var parcel := WriteToParcel(post) + rest;
    assert parcel[..6] == WriteToParcel(post);
    assert parcel[6..] == rest;
    ReaderConsumesWriterLayout(parcel);
    assert parcel[1..][1..][1..][1..][1..][0] == parcel[5];
  }
}
