/** The app-domain post record, its page, its `equals`/`hashCode` pair and its
    `Parcelable` codec (domain/model/RedditPost.kt). */
module RedditPost {
  import opened Wrappers
  import opened Jvm
  import opened Parcel

  /** One post. `selfText`, `url` and `thumbnailUrl` are nullable; `url` is the
      link the detail screen loads as the full-size image. */
  datatype Post = Post(
    id: string,
    name: string,
    title: string,
    author: string,
    selfText: Option<string>,
    permalink: string,
    entryDate: string,
    url: Option<string>,
    thumbnailUrl: Option<string>,
    numOfComments: Int32,
    isRead: bool
  )

  /** One page of a listing with the cursors of its neighbours. */
  datatype Page = Page(posts: seq<Post>, pageAfter: Option<string>, pageBefore: Option<string>)

  // ---------------------------------------------------------------------------
  // equals / hashCode

  /** Kotlin `equals(other: Any?)`: false for `null`, otherwise all eleven
      fields are compared, `isRead` included. */
  predicate Equals(post: Post, other: Option<Post>) {
    match other
    case None => false
    case Some(o) =>
      && post.id == o.id
      && post.name == o.name
      && post.title == o.title
      && post.author == o.author
      && post.selfText == o.selfText
      && post.permalink == o.permalink
      && post.entryDate == o.entryDate
      && post.url == o.url
      && post.thumbnailUrl == o.thumbnailUrl
      && post.numOfComments == o.numOfComments
      && post.isRead == o.isRead
  }

  /** `equals` is exactly structural equality of the record, so collection
      membership (`contains`) on posts is datatype `in`. */
  lemma EqualsIsStructural(post: Post, other: Option<Post>)
    ensures Equals(post, other) <==> other == Some(post)
  {
  }

  /** Two posts that differ only in `isRead` are not equal. */
  lemma ReadFlagBreaksEquality(post: Post)
    ensures !Equals(post, Some(post.(isRead := !post.isRead)))
  {
  }

  /** `Boolean.hashCode()` on the JVM. */
  function BoolHash(b: bool): Int32 {
    if b then 1231 else 1237
  }

  /** `s?.hashCode() ?: 0`. */
  function NullableHash(s: Option<string>, stringHash: string -> Int32): Int32 {
    match s
    case Some(v) => stringHash(v)
    case None => 0
  }

  /** One `result = 31 * result + h` step, with `Int` wrap-around. */
  function Mix(acc: Int32, h: Int32): Int32 {
    Wrap32(31 * acc + h)
  }

  /** The first ten mixing steps of `hashCode()`, over every field but `isRead`. */
  function FieldsHash(post: Post, stringHash: string -> Int32): Int32 {
    var h := stringHash(post.id);
    var h := Mix(h, stringHash(post.name));
    var h := Mix(h, stringHash(post.title));
    var h := Mix(h, stringHash(post.author));
    var h := Mix(h, NullableHash(post.selfText, stringHash));
    var h := Mix(h, stringHash(post.permalink));
    var h := Mix(h, stringHash(post.entryDate));
    var h := Mix(h, NullableHash(post.url, stringHash));
    var h := Mix(h, NullableHash(post.thumbnailUrl, stringHash));
    Mix(h, post.numOfComments)
  }

  /** Kotlin `hashCode()`; `String.hashCode` is supplied by the caller. */
  function HashCode(post: Post, stringHash: string -> Int32): Int32 {
    Mix(FieldsHash(post, stringHash), BoolHash(post.isRead))
  }

  /** Equal posts have equal hash codes, whatever `String.hashCode` is. */
  lemma HashCodeAgreesWithEquals(a: Post, b: Post, stringHash: string -> Int32)
    requires Equals(a, Some(b))
    ensures HashCode(a, stringHash) == HashCode(b, stringHash)
  {
  }

  /** Flipping `isRead` always changes the hash code: the last mixing step adds
      1231 or 1237, which differ by 6, and wrap-around cannot hide that. */
  lemma HashCodeSeesReadFlag(post: Post, stringHash: string -> Int32)
    ensures HashCode(post, stringHash) != HashCode(post.(isRead := !post.isRead), stringHash)
  {
    var h := FieldsHash(post, stringHash);
    assert FieldsHash(post.(isRead := !post.isRead), stringHash) == h;
    var unreadSum := 31 * (h as int) + 1231;
    Wrap32Shifts(unreadSum, 6);
  }

  // ---------------------------------------------------------------------------
  // Parcelable

  /** `writeToParcel`: nine strings, the comment count, then `isRead` as byte 1/0. */
  function WriteToParcel(post: Post): (slots: seq<Slot>)
    ensures WriterLayout(slots)
    ensures slots[10].byte == 1 <==> post.isRead
  {
    [ StringSlot(Some(post.id)),
      StringSlot(Some(post.name)),
      StringSlot(Some(post.title)),
      StringSlot(Some(post.author)),
      StringSlot(post.selfText),
      StringSlot(Some(post.permalink)),
      StringSlot(Some(post.entryDate)),
      StringSlot(post.url),
      StringSlot(post.thumbnailUrl),
      IntSlot(post.numOfComments),
      ByteSlot(if post.isRead then 1 else 0) ]
  }

  /** The shape `writeToParcel` produces and the parcel constructor consumes. */
  predicate WriterLayout(slots: seq<Slot>) {
    && |slots| == 11
    && (forall i :: 0 <= i < 9 ==> slots[i].StringSlot?)
    && slots[9].IntSlot?
    && slots[10].ByteSlot?
  }

  /** The parcel constructor. Every string slot except `thumbnailUrl` is read
      with `?: ""`, so a null `selfText` or `url` comes back as `""`; the
      flag is any non-zero byte. `None` stands for a parcel that does not hold
      the expected slots. */
  function FromParcel(parcel: seq<Slot>): Option<Read<Post>> {
    var strings :- ReadStrings(parcel, 9);
    var numOfComments :- ReadInt(strings.rest);
    var isRead :- ReadByte(numOfComments.rest);
    var s := strings.value;
    Some(Read(
      Post(
        s[0].GetOr(""),
        s[1].GetOr(""),
        s[2].GetOr(""),
        s[3].GetOr(""),
        Some(s[4].GetOr("")),
        s[5].GetOr(""),
        s[6].GetOr(""),
        Some(s[7].GetOr("")),
        s[8],
        numOfComments.value,
        isRead.value != 0),
      isRead.rest))
  }

  /** The reader accepts a parcel exactly when its next eleven slots have the
      writer's layout, and it consumes those eleven slots and nothing more. */
  lemma ReaderConsumesWriterLayout(parcel: seq<Slot>)
    ensures FromParcel(parcel).Some? <==> |parcel| >= 11 && WriterLayout(parcel[..11])
    ensures FromParcel(parcel).Some? ==> FromParcel(parcel).value.rest == parcel[11..]
  {
    var strings := ReadStrings(parcel, 9);
    if strings.Some? {
      var afterStrings := strings.value.rest;
      assert afterStrings == parcel[9..];
      if |afterStrings| > 0 {
        assert afterStrings[0] == parcel[9];
        assert afterStrings[1..] == parcel[10..];
        if |parcel| > 10 {
          assert parcel[10..][0] == parcel[10];
          assert parcel[10..][1..] == parcel[11..];
        }
      }
    }
    if |parcel| >= 11 {
      assert forall i :: 0 <= i < 11 ==> parcel[i] == parcel[..11][i];
    }
  }

  /** The decoded flag is "byte is non-zero", for any byte in that slot. */
  lemma ReadFlagIsNonZeroByte(parcel: seq<Slot>)
    requires FromParcel(parcel).Some?
    ensures FromParcel(parcel).value.value.isRead <==> parcel[10].byte != 0
  {
    ReaderConsumesWriterLayout(parcel);
  }

  /** Writing then reading restores every field, except that a null
      `selfText` or `url` comes back as `""`; a null `thumbnailUrl` stays null. */
  lemma ParcelRoundTrip(post: Post, rest: seq<Slot>)
    ensures FromParcel(WriteToParcel(post) + rest)
         == Some(Read(post.(selfText := Some(post.selfText.GetOr("")), url := Some(post.url.GetOr(""))), rest))
  {
    var parcel := WriteToParcel(post) + rest;
    assert parcel[..11] == WriteToParcel(post);
    assert parcel[11..] == rest;
    ReaderConsumesWriterLayout(parcel);
    var strings := ReadStrings(parcel, 9).value.value;
    assert forall i :: 0 <= i < 9 ==> strings[i] == WriteToParcel(post)[i].str;
    assert parcel[9..][1..] == parcel[10..];
  }

  /** The parcel constructor with `selfText` and `url` read the way
      `thumbnailUrl` is, so that null stays null: the reader the declared
      nullable fields call for. */
  function FromParcelKeepingNulls(parcel: seq<Slot>): Option<Read<Post>> {
    var strings :- ReadStrings(parcel, 9);
    var numOfComments :- ReadInt(strings.rest);
    var isRead :- ReadByte(numOfComments.rest);
    var s := strings.value;
    Some(Read(
      Post(s[0].GetOr(""), s[1].GetOr(""), s[2].GetOr(""), s[3].GetOr(""), s[4],
           s[5].GetOr(""), s[6].GetOr(""), s[7], s[8], numOfComments.value, isRead.value != 0),
      isRead.rest))
  }

  /** A post without a `url` comes back from the parcel with the empty one. */
  lemma ParcelFillsMissingUrl(post: Post)
    requires post.url.None?
    ensures FromParcel(WriteToParcel(post)).Some?
    ensures FromParcel(WriteToParcel(post)).value.value.url == Some("")
  {
    ParcelRoundTrip(post, []);
    assert WriteToParcel(post) + [] == WriteToParcel(post);
  }

  /** The two readers accept the same parcels and consume the same slots;
      they differ only in `selfText` and `url`, which the corrected one takes
      from their slots as they are. */
  lemma KeepingNullsOnlyChangesNullables(parcel: seq<Slot>)
    ensures FromParcelKeepingNulls(parcel).Some? <==> FromParcel(parcel).Some?
    ensures FromParcel(parcel).Some? ==>
              FromParcelKeepingNulls(parcel)
              == Some(Read(FromParcel(parcel).value.value.(selfText := parcel[4].str, url := parcel[7].str),
                           FromParcel(parcel).value.rest))
  {
    ReaderConsumesWriterLayout(parcel);
  }

  /** With nulls kept, writing then reading restores every post exactly and
      leaves the slots after it. */
  lemma ParcelRoundTripKeepingNulls(post: Post, rest: seq<Slot>)
    ensures FromParcelKeepingNulls(WriteToParcel(post) + rest) == Some(Read(post, rest))
  {
    var parcel := WriteToParcel(post) + rest;
    ParcelRoundTrip(post, rest);
    KeepingNullsOnlyChangesNullables(parcel);
    assert parcel[4] == WriteToParcel(post)[4];
    assert parcel[7] == WriteToParcel(post)[7];
  }

  /** The round trip is the identity exactly for posts whose `selfText` and
      `url` are both present. */
  lemma ParcelRoundTripExact(post: Post, rest: seq<Slot>)
    ensures FromParcel(WriteToParcel(post) + rest) == Some(Read(post, rest))
        <==> post.selfText.Some? && post.url.Some?
  {
    ParcelRoundTrip(post, rest);
  }
}
