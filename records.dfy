/** The documents the controllers read and write. Every stored record carries
    its `_id`; `createdAt` is the creation timestamp as a natural number. */
module Records {
  import opened Common

  datatype User = User(
    id: Id,
    username: string,
    fullName: string,
    avatar: string,
    watchHistory: seq<Id>)

  /** The projection `{ fullName, username, avatar }` (with `_id`) that the
      owner lookups and `populate` calls attach to a listed record. */
  datatype UserSummary = UserSummary(id: Id, fullName: string, username: string, avatar: string)

  datatype Video = Video(
    id: Id,
    videoFile: string,
    thumbnail: string,
    title: string,
    description: string,
    duration: nat,
    views: nat,
    isPublished: bool,
    owner: Id,
    createdAt: nat)

  datatype Comment = Comment(id: Id, text: string, video: Id, user: Id, createdAt: nat)

  datatype Tweet = Tweet(id: Id, content: string, owner: Id, createdAt: nat)

  /** A like document. Its target fields are optional, as in the collection:
      the toggles set exactly one of `video`, `comment`, `tweet`, and none of
      them sets `channel`. */
  datatype Like = Like(
    id: Id,
    video: Option<Id>,
    comment: Option<Id>,
    tweet: Option<Id>,
    channel: Option<Id>,
    user: Id)

  datatype Subscription = Subscription(id: Id, subscriber: Id, channel: Id)

  /** The user summary a lookup of `userId` in the users collection yields;
      `None` when no user has that `_id`. */
  function SummaryOf(users: map<Id, User>, userId: Id): (r: Option<UserSummary>)
    ensures r.Some? <==> userId in users
    ensures r.Some? ==> r.value.id == userId
  {
    if userId in users then
      var u := users[userId];
      Some(UserSummary(userId, u.fullName, u.username, u.avatar))
    else None
  }
}
