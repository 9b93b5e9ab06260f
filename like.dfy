/** The like handlers: three toggles that share one state machine on the like
    collection (a like for the pair is either absent or present; a toggle
    flips it) and the listing of the videos a user liked. */
module LikeController {
  import opened Common
  import opened Collections
  import opened Records

  /** Which target field of a like a toggle is keyed on. */
  datatype TargetKind = VideoTarget | CommentTarget | TweetTarget

  function TargetOf(l: Like, kind: TargetKind): Option<Id> {
    match kind
    case VideoTarget => l.video
    case CommentTarget => l.comment
    case TweetTarget => l.tweet
  }

  /** The filter `{ <kind>: targetId, user: userId }` of `Like.findOne`. */
  function LikeOf(kind: TargetKind, targetId: Id, userId: Id): Like -> bool {
    (l: Like) => TargetOf(l, kind) == Some(targetId) && l.user == userId
  }

  /** `Like.create({ <kind>: targetId, user: userId })`: only the target field
      of the toggle's kind and the user are set. */
  function NewLike(id: Id, kind: TargetKind, targetId: Id, userId: Id): (l: Like)
    ensures LikeOf(kind, targetId, userId)(l)
    ensures forall k :: k != kind ==> TargetOf(l, k).None?
    ensures l.channel.None? && l.id == id
  {
    match kind
    case VideoTarget => Like(id, Some(targetId), None, None, None, userId)
    case CommentTarget => Like(id, None, Some(targetId), None, None, userId)
    case TweetTarget => Like(id, None, None, Some(targetId), None, userId)
  }

  function InvalidIdMessage(kind: TargetKind): string {
    match kind
    case VideoTarget => "Invalid video ID"
    case CommentTarget => "Invalid comment ID"
    case TweetTarget => "Invalid tweet ID"
  }

  function RemovedMessage(kind: TargetKind): string {
    match kind
    case VideoTarget => "Video like removed"
    case CommentTarget => "Comment like removed"
    case TweetTarget => "Tweet like removed"
  }

  function LikedMessage(kind: TargetKind): string {
    match kind
    case VideoTarget => "Video liked successfully"
    case CommentTarget => "Comment liked successfully"
    case TweetTarget => "Tweet liked successfully"
  }

  /** `toggleVideoLike`, `toggleCommentLike` and `toggleTweetLike`: 400 for an
      invalid target id, before the collection is read; otherwise the first
      like of the user on the target is deleted (`liked: false`, 200), or,
      when there is none, one is created (`liked: true`, 201). */
  function ToggleLike(likes: seq<Like>, kind: TargetKind, targetId: Id, userId: Id, newId: Id): (r: (seq<Like>, Response<bool>))
    ensures !IsValidObjectId(targetId) ==> r == (likes, Err(400, InvalidIdMessage(kind)))
    ensures IsValidObjectId(targetId) ==> r.1.Ok?
    ensures r.1.Ok? ==> (r.1.value <==> forall j :: 0 <= j < |likes| ==> !LikeOf(kind, targetId, userId)(likes[j]))
    ensures r.1.Ok? && r.1.value ==>
      r.0 == likes + [NewLike(newId, kind, targetId, userId)] && r.1.status == 201 && r.1.message == LikedMessage(kind)
    ensures r.1.Ok? && !r.1.value ==> r.1.status == 200 && r.1.message == RemovedMessage(kind)
    ensures r.1.Ok? && !r.1.value ==>
      exists i :: FirstMatch(likes, LikeOf(kind, targetId, userId), i) && r.0 == RemoveAt(likes, i)
  {
    if !IsValidObjectId(targetId) then (likes, Err(400, InvalidIdMessage(kind)))
    else
      var (after, liked) := Toggle(likes, LikeOf(kind, targetId, userId), NewLike(newId, kind, targetId, userId));
      if liked then (after, Ok(201, true, LikedMessage(kind)))
      else (after, Ok(200, false, RemovedMessage(kind)))
  }

  /** How many likes the user has on the target. */
  function LikeCount(likes: seq<Like>, kind: TargetKind, targetId: Id, userId: Id): nat {
    Count(likes, LikeOf(kind, targetId, userId))
  }

  /** A toggle on a valid id flips the pair between absent and present: it
      creates a like when there is none and deletes one when there is one. */
  lemma ToggleFlipsPresence(likes: seq<Like>, kind: TargetKind, targetId: Id, userId: Id, newId: Id)
    requires IsValidObjectId(targetId)
    ensures LikeCount(likes, kind, targetId, userId) == 0 ==>
      LikeCount(ToggleLike(likes, kind, targetId, userId, newId).0, kind, targetId, userId) == 1
    ensures LikeCount(likes, kind, targetId, userId) > 0 ==>
      LikeCount(ToggleLike(likes, kind, targetId, userId, newId).0, kind, targetId, userId) == LikeCount(likes, kind, targetId, userId) - 1
  {
    ToggleFlipsCount(likes, LikeOf(kind, targetId, userId), NewLike(newId, kind, targetId, userId));
  }

  /** A toggle leaves every like of another (user, target) pair, and their
      order, as it was. */
  lemma ToggleKeepsOtherLikes(likes: seq<Like>, kind: TargetKind, targetId: Id, userId: Id, newId: Id)
    ensures Filter(ToggleLike(likes, kind, targetId, userId, newId).0, Not(LikeOf(kind, targetId, userId)))
         == Filter(likes, Not(LikeOf(kind, targetId, userId)))
  {
    ToggleKeepsRest(likes, LikeOf(kind, targetId, userId), NewLike(newId, kind, targetId, userId));
  }

  /** Starting from "no like", two toggles report `liked: true` then
      `liked: false` and leave the collection exactly as it was. */
  lemma ToggleTwiceRestoresAbsent(likes: seq<Like>, kind: TargetKind, targetId: Id, userId: Id, newId: Id, newId': Id)
    requires IsValidObjectId(targetId)
    requires forall j :: 0 <= j < |likes| ==> !LikeOf(kind, targetId, userId)(likes[j])
    ensures var once := ToggleLike(likes, kind, targetId, userId, newId);
      var twice := ToggleLike(once.0, kind, targetId, userId, newId');
      once.1 == Ok(201, true, LikedMessage(kind)) && twice.1 == Ok(200, false, RemovedMessage(kind)) && twice.0 == likes
  {
    ToggleTwiceFromAbsent(likes, LikeOf(kind, targetId, userId), NewLike(newId, kind, targetId, userId), NewLike(newId', kind, targetId, userId));
  }

  /** Starting from "one like", two toggles report `liked: false` then
      `liked: true`; afterwards the pair again has exactly one like and all
      other likes are as they were. */
  lemma ToggleTwiceRestoresPresent(likes: seq<Like>, kind: TargetKind, targetId: Id, userId: Id, newId: Id, newId': Id)
    requires IsValidObjectId(targetId)
    requires LikeCount(likes, kind, targetId, userId) == 1
    ensures var once := ToggleLike(likes, kind, targetId, userId, newId);
      var twice := ToggleLike(once.0, kind, targetId, userId, newId');
      && once.1.Ok? && !once.1.value && twice.1.Ok? && twice.1.value
      && LikeCount(twice.0, kind, targetId, userId) == 1
      && Filter(twice.0, Not(LikeOf(kind, targetId, userId))) == Filter(likes, Not(LikeOf(kind, targetId, userId)))
  {
    var once := ToggleLike(likes, kind, targetId, userId, newId).0;
    ToggleFlipsPresence(likes, kind, targetId, userId, newId);
    ToggleFlipsPresence(once, kind, targetId, userId, newId');
    ToggleKeepsOtherLikes(likes, kind, targetId, userId, newId);
    ToggleKeepsOtherLikes(once, kind, targetId, userId, newId');
  }

  /** No two likes share a user and a value of the same target field. */
  predicate OneLikePerPair(likes: seq<Like>) {
    forall i, j, kind :: 0 <= i < j < |likes| && TargetOf(likes[i], kind).Some? ==>
      TargetOf(likes[i], kind) != TargetOf(likes[j], kind) || likes[i].user != likes[j].user
  }

  /** The toggle keeps "at most one like per (user, target)" for every pair. */
  lemma RemoveKeepsOneLikePerPair(likes: seq<Like>, i: nat)
    requires OneLikePerPair(likes) && i < |likes|
    ensures OneLikePerPair(RemoveAt(likes, i))
  {
    var after := RemoveAt(likes, i);
    forall a, b, k | 0 <= a < b < |after| && TargetOf(after[a], k).Some?
      ensures TargetOf(after[a], k) != TargetOf(after[b], k) || after[a].user != after[b].user
    {
      var a' := if a < i then a else a + 1;
      var b' := if b < i then b else b + 1;
      assert after[a] == likes[a'] && after[b] == likes[b'] && a' < b';
    }
  }

  lemma AppendUnmatchedKeepsOneLikePerPair(likes: seq<Like>, kind: TargetKind, targetId: Id, userId: Id, newId: Id)
    requires OneLikePerPair(likes)
    requires forall j :: 0 <= j < |likes| ==> !LikeOf(kind, targetId, userId)(likes[j])
    ensures OneLikePerPair(likes + [NewLike(newId, kind, targetId, userId)])
  {
    var l := NewLike(newId, kind, targetId, userId);
    forall i, k | 0 <= i < |likes| && TargetOf(likes[i], k).Some?
      ensures TargetOf(likes[i], k) != TargetOf(l, k) || likes[i].user != l.user
    {
      if k == kind {
        assert !LikeOf(kind, targetId, userId)(likes[i]);
      }
    }
  }

  lemma ToggleKeepsOneLikePerPair(likes: seq<Like>, kind: TargetKind, targetId: Id, userId: Id, newId: Id)
    requires OneLikePerPair(likes)
    ensures OneLikePerPair(ToggleLike(likes, kind, targetId, userId, newId).0)
  {
    var r := ToggleLike(likes, kind, targetId, userId, newId);
    if r.1.Ok? && r.1.value {
      AppendUnmatchedKeepsOneLikePerPair(likes, kind, targetId, userId, newId);
    } else if r.1.Ok? {
      var i :| FirstMatch(likes, LikeOf(kind, targetId, userId), i) && r.0 == RemoveAt(likes, i);
      RemoveKeepsOneLikePerPair(likes, i);
    }
  }

  // ---------------------------------------------------------------- listing

  /** The filter `{ user: userId, video: { $exists: true } }`. */
  function LikedVideoOf(userId: Id): Like -> bool {
    (l: Like) => l.user == userId && l.video.Some?
  }

  /** A like with its `video` field populated: the video with that id, or
      nothing when no video has it. */
  datatype LikedVideo = LikedVideo(like: Like, video: Option<Video>)

  function PopulateVideo(l: Like, videos: seq<Video>): (r: LikedVideo)
    requires l.video.Some?
    ensures r.like == l
    ensures r.video.Some? <==> exists j :: 0 <= j < |videos| && videos[j].id == l.video.value
    ensures r.video.Some? ==> r.video.value in videos && r.video.value.id == l.video.value
  {
    match FirstIndex(videos, (v: Video) => v.id == l.video.value)
    case None => LikedVideo(l, None)
    case Some(j) => LikedVideo(l, Some(videos[j]))
  }

  /** `populate("video")` over a list of likes that each name a video: the
      likes in order, each with the video that has its id, if one does. */
  function PopulateVideos(mine: seq<Like>, videos: seq<Video>): (r: seq<LikedVideo>)
    requires forall i :: 0 <= i < |mine| ==> mine[i].video.Some?
    ensures |r| == |mine|
    ensures forall i :: 0 <= i < |r| ==> r[i].like == mine[i]
    ensures forall i :: 0 <= i < |r| && r[i].video.Some? ==> r[i].video.value in videos && r[i].video.value.id == mine[i].video.value
    ensures forall i :: 0 <= i < |r| ==>
      (r[i].video.Some? <==> exists j :: 0 <= j < |videos| && videos[j].id == mine[i].video.value)
  {
    seq(|mine|, i requires 0 <= i < |mine| => PopulateVideo(mine[i], videos))
  }

  /** `getLikedVideos`: exactly the user's likes that have a `video` field,
      in store order, each with its video populated. */
  function GetLikedVideos(likes: seq<Like>, videos: seq<Video>, userId: Id): (r: seq<LikedVideo>)
    ensures |r| == Count(likes, LikedVideoOf(userId))
    ensures forall i :: 0 <= i < |r| ==> r[i].like in likes && r[i].like.user == userId && r[i].like.video.Some?
    ensures forall j :: 0 <= j < |likes| && likes[j].user == userId && likes[j].video.Some? ==>
      exists i :: 0 <= i < |r| && r[i].like == likes[j]
    ensures forall i :: 0 <= i < |r| && r[i].video.Some? ==> r[i].video.value in videos && r[i].video.value.id == r[i].like.video.value
    ensures forall i :: 0 <= i < |r| ==>
      (r[i].video.Some? <==> exists j :: 0 <= j < |videos| && videos[j].id == r[i].like.video.value)
    ensures forall i :: 0 <= i < |r| ==> r[i].like == Filter(likes, LikedVideoOf(userId))[i]
  {
    var mine := Filter(likes, LikedVideoOf(userId));
    var r := PopulateVideos(mine, videos);
    forall j | 0 <= j < |likes| && likes[j].user == userId && likes[j].video.Some?
      ensures exists i :: 0 <= i < |r| && r[i].like == likes[j]
    {
      assert LikedVideoOf(userId)(likes[j]);
      var i :| 0 <= i < |mine| && mine[i] == likes[j];
      assert r[i].like == likes[j];
    }
    r
  }
}
