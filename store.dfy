/** The document store the handlers change in place: one collection per
    entity, and the handlers that insert, update or delete records as
    methods on it. Each method but `PublishAVideo`, which assigns what its
    handler's function returns, takes the steps its handler takes (check the
    id, find the record, then write); each ends in the state, and with the
    response, that the handler's function in its controller module gives. */
module Store {
  import opened Common
  import opened Collections
  import opened Records
  import V = VideoController
  import L = LikeController
  import C = CommentController
  import T = TweetController
  import S = SubscriptionController
  import D = DashboardController

  function LikeId(l: Like): Id { l.id }
  function SubscriptionId(s: Subscription): Id { s.id }

  /** Users are stored under their own `_id` and watch histories hold no
      video twice. */
  ghost predicate UsersValid(users: map<Id, User>) {
    (forall k :: k in users ==> users[k].id == k) && V.HistoriesDuplicateFree(users)
  }

  /** Unique `_id`s, at most one like per (user, target), and no like tagged
      with a channel. */
  ghost predicate LikesValid(likes: seq<Like>) {
    UniqueIds(likes, LikeId) && L.OneLikePerPair(likes) && D.NoChannelTags(likes)
  }

  /** Unique `_id`s, no self-subscription and no duplicate subscription. */
  ghost predicate SubscriptionsValid(subs: seq<Subscription>) {
    UniqueIds(subs, SubscriptionId) && S.WellFormed(subs)
  }

  /** The like toggle keeps the like collection valid when the new like gets
      an unused `_id`. */
  lemma ToggleLikeKeepsValid(likes: seq<Like>, kind: L.TargetKind, targetId: Id, userId: Id, newId: Id)
    requires LikesValid(likes) && newId !in IdsOf(likes, LikeId)
    ensures LikesValid(L.ToggleLike(likes, kind, targetId, userId, newId).0)
  {
    L.ToggleKeepsOneLikePerPair(likes, kind, targetId, userId, newId);
    D.ToggleKeepsNoChannelTags(likes, kind, targetId, userId, newId);
    var r := L.ToggleLike(likes, kind, targetId, userId, newId);
    if r.1.Ok? && r.1.value {
      AppendFreshKeepsUnique(likes, LikeId, L.NewLike(newId, kind, targetId, userId));
    } else if r.1.Ok? {
      var i :| FirstMatch(likes, L.LikeOf(kind, targetId, userId), i) && r.0 == RemoveAt(likes, i);
      RemoveAtUniqueId(likes, LikeId, i);
    }
  }

  /** The subscription toggle keeps the subscription collection valid when
      the new subscription gets an unused `_id`. */
  lemma ToggleSubscriptionKeepsValid(subs: seq<Subscription>, subscriberId: Id, channelId: Id, newId: Id)
    requires SubscriptionsValid(subs) && newId !in IdsOf(subs, SubscriptionId)
    ensures SubscriptionsValid(S.ToggleSubscription(subs, subscriberId, channelId, newId).0)
  {
    S.ToggleKeepsWellFormed(subs, subscriberId, channelId, newId);
    var r := S.ToggleSubscription(subs, subscriberId, channelId, newId);
    if r.1.Ok? && r.1.value {
      AppendFreshKeepsUnique(subs, SubscriptionId, Subscription(newId, subscriberId, channelId));
    } else if r.1.Ok? {
      var i :| FirstMatch(subs, S.SubscriptionOf(subscriberId, channelId), i) && r.0 == RemoveAt(subs, i);
      RemoveAtUniqueId(subs, SubscriptionId, i);
    }
  }

  /** The like toggle as the handler runs it: look the pair up, then delete
      the like found or create one. */
  lemma ToggleLikeByLookup(likes: seq<Like>, kind: L.TargetKind, targetId: Id, userId: Id, newId: Id)
    requires IsValidObjectId(targetId)
    ensures var e := FirstIndex(likes, L.LikeOf(kind, targetId, userId));
      && (e.Some? ==> L.ToggleLike(likes, kind, targetId, userId, newId)
                        == (RemoveAt(likes, e.value), Ok(200, false, L.RemovedMessage(kind))))
      && (e.None? ==> L.ToggleLike(likes, kind, targetId, userId, newId)
                        == (likes + [L.NewLike(newId, kind, targetId, userId)], Ok(201, true, L.LikedMessage(kind))))
  {
  }

  /** The subscription toggle as the handler runs it: look the pair up, then
      delete the subscription found or create one. */
  lemma ToggleSubscriptionByLookup(subs: seq<Subscription>, subscriberId: Id, channelId: Id, newId: Id)
    requires IsValidObjectId(channelId) && !SameObjectId(subscriberId, channelId)
    ensures var e := FirstIndex(subs, S.SubscriptionOf(subscriberId, channelId));
      && (e.Some? ==> S.ToggleSubscription(subs, subscriberId, channelId, newId)
                        == (RemoveAt(subs, e.value), Ok(200, false, "Unsubscribed successfully")))
      && (e.None? ==> S.ToggleSubscription(subs, subscriberId, channelId, newId)
                        == (subs + [Subscription(newId, subscriberId, channelId)], Ok(200, true, "Subscribed successfully")))
  {
  }

  class Store {
    var users: map<Id, User>
    var videos: seq<Video>
    var comments: seq<Comment>
    var tweets: seq<Tweet>
    var likes: seq<Like>
    var subscriptions: seq<Subscription>

    /** What the handlers keep true of the store, collection by collection. */
    ghost predicate Valid()
      reads this
    {
      && UsersValid(users)
      && UniqueIds(videos, V.VideoId)
      && UniqueIds(comments, C.CommentId)
      && UniqueIds(tweets, T.TweetId)
      && LikesValid(likes)
      && SubscriptionsValid(subscriptions)
    }

    /** A store with the given users and empty collections. */
    constructor (initialUsers: map<Id, User>)
      requires forall k :: k in initialUsers ==> initialUsers[k].id == k && initialUsers[k].watchHistory == []
      ensures Valid()
      ensures users == initialUsers
      ensures videos == [] && comments == [] && tweets == [] && likes == [] && subscriptions == []
    {
      users := initialUsers;
      videos, comments, tweets, likes, subscriptions := [], [], [], [], [];
    }

    /** `getVideoById`: answers with the video and adds it to the viewer's
        watch history. */
    method GetVideoById(actor: Id, videoId: Id) returns (r: Response<V.ListedVideo>)
      requires Valid()
      modifies this
      ensures Valid()
      ensures (users, r) == V.GetVideoById(old(videos), old(users), actor, videoId)
      ensures videos == old(videos) && comments == old(comments) && tweets == old(tweets)
      ensures likes == old(likes) && subscriptions == old(subscriptions)
    {
      V.WatchHistoryIsASet(videos, users, actor, videoId);
      if !IsValidObjectId(videoId) {
        return Err(400, "Invalid video ID");
      }
      var found := FirstIndex(videos, (v: Video) => v.id == videoId);
      if found.None? {
        return Err(404, "Video not found");
      }
      r := Ok(200, V.WithOwner(videos[found.value], users), "Video fetched successfully");
      users := V.RecordView(users, actor, videoId);
    }

    /** `publishAVideo`: the upload results are parameters. */
    method PublishAVideo(actor: Id, req: V.PublishRequest, videoUpload: V.Upload, thumbnailUpload: V.Upload, newId: Id, now: nat)
      returns (r: Response<Video>)
      requires Valid() && newId !in IdsOf(videos, V.VideoId)
      modifies this
      ensures Valid()
      ensures (videos, r) == V.PublishAVideo(old(videos), actor, req, videoUpload, thumbnailUpload, newId, now)
      ensures users == old(users) && comments == old(comments) && tweets == old(tweets)
      ensures likes == old(likes) && subscriptions == old(subscriptions)
    {
      var (after, response) := V.PublishAVideo(videos, actor, req, videoUpload, thumbnailUpload, newId, now);
      if response.Ok? {
        AppendFreshKeepsUnique(videos, V.VideoId, response.value);
      }
      videos, r := after, response;
    }

    /** `updateVideo`. */
    method UpdateVideo(actor: Id, videoId: Id, patch: V.VideoPatch) returns (r: Response<Video>)
      requires Valid()
      modifies this
      ensures Valid()
      ensures (videos, r) == V.UpdateVideo(old(videos), actor, videoId, patch)
      ensures users == old(users) && comments == old(comments) && tweets == old(tweets)
      ensures likes == old(likes) && subscriptions == old(subscriptions)
    {
      if !IsValidObjectId(videoId) {
        return Err(400, "Invalid video ID");
      }
      UpdateKeepsUnique(videos, V.VideoId, V.OwnedBy(videoId, actor), (v: Video) => V.ApplyPatch(v, patch));
      var (after, found) := FindOneAndUpdate(videos, V.OwnedBy(videoId, actor), (v: Video) => V.ApplyPatch(v, patch));
      if found.None? {
        return Err(403, "Unauthorized or video not found");
      }
      videos := after;
      r := Ok(200, found.value, "Video updated successfully");
    }

    /** `deleteVideo`. */
    method DeleteVideo(actor: Id, videoId: Id) returns (r: Response<()>)
      requires Valid()
      modifies this
      ensures Valid()
      ensures (videos, r) == V.DeleteVideo(old(videos), actor, videoId)
      ensures users == old(users) && comments == old(comments) && tweets == old(tweets)
      ensures likes == old(likes) && subscriptions == old(subscriptions)
    {
      if !IsValidObjectId(videoId) {
        return Err(400, "Invalid video ID");
      }
      DeleteKeepsUnique(videos, V.VideoId, V.OwnedBy(videoId, actor));
      var (after, found) := FindOneAndDelete(videos, V.OwnedBy(videoId, actor));
      if found.None? {
        return Err(403, "Unauthorized or video not found");
      }
      videos := after;
      r := Ok(200, (), "Video deleted successfully");
    }

    /** `togglePublishStatus`: the flag is flipped and the video saved. */
    method TogglePublishStatus(actor: Id, videoId: Id) returns (r: Response<Video>)
      requires Valid()
      modifies this
      ensures Valid()
      ensures (videos, r) == V.TogglePublishStatus(old(videos), actor, videoId)
      ensures users == old(users) && comments == old(comments) && tweets == old(tweets)
      ensures likes == old(likes) && subscriptions == old(subscriptions)
    {
      if !IsValidObjectId(videoId) {
        return Err(400, "Invalid video ID");
      }
      var found := FirstIndex(videos, V.OwnedBy(videoId, actor));
      if found.None? {
        return Err(403, "Unauthorized or video not found");
      }
      var i := found.value;
      var flipped := videos[i].(isPublished := !videos[i].isPublished);
      ReplaceKeepsUnique(videos, V.VideoId, i, flipped);
      videos := videos[i := flipped];
      r := Ok(200, flipped, "Video publish status toggled");
    }

    /** `toggleVideoLike`, `toggleCommentLike` and `toggleTweetLike`. */
    method ToggleLike(kind: L.TargetKind, targetId: Id, userId: Id, newId: Id) returns (r: Response<bool>)
      requires Valid() && newId !in IdsOf(likes, LikeId)
      modifies this
      ensures Valid()
      ensures (likes, r) == L.ToggleLike(old(likes), kind, targetId, userId, newId)
      ensures users == old(users) && videos == old(videos) && comments == old(comments)
      ensures tweets == old(tweets) && subscriptions == old(subscriptions)
    {
      ToggleLikeKeepsValid(likes, kind, targetId, userId, newId);
      if !IsValidObjectId(targetId) {
        return Err(400, L.InvalidIdMessage(kind));
      }
      var filter, like := L.LikeOf(kind, targetId, userId), L.NewLike(newId, kind, targetId, userId);
      ToggleLikeByLookup(likes, kind, targetId, userId, newId);
      var existing := FirstIndex(likes, filter);
      if existing.Some? {
        likes := RemoveAt(likes, existing.value);
        r := Ok(200, false, L.RemovedMessage(kind));
      } else {
        likes := likes + [like];
        r := Ok(201, true, L.LikedMessage(kind));
      }
    }

    /** `addComment`. */
    method AddComment(actor: Id, videoId: Id, text: Option<string>, newId: Id, now: nat) returns (r: Response<Comment>)
      requires Valid() && newId !in IdsOf(comments, C.CommentId)
      modifies this
      ensures Valid()
      ensures (comments, r) == C.AddComment(old(comments), actor, videoId, text, newId, now)
      ensures users == old(users) && videos == old(videos) && tweets == old(tweets)
      ensures likes == old(likes) && subscriptions == old(subscriptions)
    {
      if C.IsBlank(text) {
        return Err(400, "Comment text is required");
      }
      if !IsValidObjectId(videoId) {
        return Err(400, "Invalid video ID");
      }
      var comment := Comment(newId, text.value, videoId, actor, now);
      AppendFreshKeepsUnique(comments, C.CommentId, comment);
      comments := comments + [comment];
      r := Ok(201, comment, "Comment added successfully");
    }

    /** `updateComment`. */
    method UpdateComment(actor: Id, commentId: Id, text: Option<string>) returns (r: Response<Comment>)
      requires Valid()
      modifies this
      ensures Valid()
      ensures (comments, r) == C.UpdateComment(old(comments), actor, commentId, text)
      ensures users == old(users) && videos == old(videos) && tweets == old(tweets)
      ensures likes == old(likes) && subscriptions == old(subscriptions)
    {
      UpdateKeepsUnique(comments, C.CommentId, C.AuthoredBy(commentId, actor), C.SetText(text));
      if !IsValidObjectId(commentId) {
        return Err(400, "Invalid comment ID");
      }
      var (after, found) := FindOneAndUpdate(comments, C.AuthoredBy(commentId, actor), C.SetText(text));
      if found.None? {
        return Err(404, "Comment not found or not authorized to update");
      }
      assert C.UpdateComment(comments, actor, commentId, text) == (after, Ok(200, found.value, "Comment updated successfully"));
      comments := after;
      r := Ok(200, found.value, "Comment updated successfully");
    }

    /** `deleteComment`. */
    method DeleteComment(actor: Id, commentId: Id) returns (r: Response<()>)
      requires Valid()
      modifies this
      ensures Valid()
      ensures (comments, r) == C.DeleteComment(old(comments), actor, commentId)
      ensures users == old(users) && videos == old(videos) && tweets == old(tweets)
      ensures likes == old(likes) && subscriptions == old(subscriptions)
    {
      if !IsValidObjectId(commentId) {
        return Err(400, "Invalid comment ID");
      }
      DeleteKeepsUnique(comments, C.CommentId, C.AuthoredBy(commentId, actor));
      var (after, found) := FindOneAndDelete(comments, C.AuthoredBy(commentId, actor));
      if found.None? {
        return Err(404, "Comment not found or not authorized to delete");
      }
      comments := after;
      r := Ok(200, (), "Comment deleted successfully");
    }

    /** `createTweet`. */
    method CreateTweet(actor: Id, content: Option<string>, newId: Id, now: nat) returns (r: Response<Tweet>)
      requires Valid() && newId !in IdsOf(tweets, T.TweetId)
      modifies this
      ensures Valid()
      ensures (tweets, r) == T.CreateTweet(old(tweets), actor, content, newId, now)
      ensures users == old(users) && videos == old(videos) && comments == old(comments)
      ensures likes == old(likes) && subscriptions == old(subscriptions)
    {
      if content.None? {
        return Err(T.MissingContentStatus, T.MissingContentMessage);
      }
      if Trim(content.value) == "" {
        return Err(400, "Tweet content cannot be empty");
      }
      var tweet := Tweet(newId, content.value, actor, now);
      AppendFreshKeepsUnique(tweets, T.TweetId, tweet);
      tweets := tweets + [tweet];
      r := Ok(201, tweet, "Tweet created successfully");
    }

    /** `updateTweet`. */
    method UpdateTweet(actor: Id, tweetId: Id, content: Option<string>) returns (r: Response<Tweet>)
      requires Valid()
      modifies this
      ensures Valid()
      ensures (tweets, r) == T.UpdateTweet(old(tweets), actor, tweetId, content)
      ensures users == old(users) && videos == old(videos) && comments == old(comments)
      ensures likes == old(likes) && subscriptions == old(subscriptions)
    {
      UpdateKeepsUnique(tweets, T.TweetId, T.OwnTweet(tweetId, actor), T.SetContent(content));
      if !IsValidObjectId(tweetId) {
        return Err(400, "Invalid tweet ID");
      }
      var (after, found) := FindOneAndUpdate(tweets, T.OwnTweet(tweetId, actor), T.SetContent(content));
      if found.None? {
        return Err(404, "Tweet not found or unauthorized to update");
      }
      assert T.UpdateTweet(tweets, actor, tweetId, content) == (after, Ok(200, found.value, "Tweet updated successfully"));
      tweets := after;
      r := Ok(200, found.value, "Tweet updated successfully");
    }

    /** `deleteTweet`. */
    method DeleteTweet(actor: Id, tweetId: Id) returns (r: Response<()>)
      requires Valid()
      modifies this
      ensures Valid()
      ensures (tweets, r) == T.DeleteTweet(old(tweets), actor, tweetId)
      ensures users == old(users) && videos == old(videos) && comments == old(comments)
      ensures likes == old(likes) && subscriptions == old(subscriptions)
    {
      if !IsValidObjectId(tweetId) {
        return Err(400, "Invalid tweet ID");
      }
      DeleteKeepsUnique(tweets, T.TweetId, T.OwnTweet(tweetId, actor));
      var (after, found) := FindOneAndDelete(tweets, T.OwnTweet(tweetId, actor));
      if found.None? {
        return Err(404, "Tweet not found or unauthorized to delete");
      }
      tweets := after;
      r := Ok(200, (), "Tweet deleted successfully");
    }

    /** `toggleSubscription`. */
    method ToggleSubscription(subscriberId: Id, channelId: Id, newId: Id) returns (r: Response<bool>)
      requires Valid() && newId !in IdsOf(subscriptions, SubscriptionId)
      modifies this
      ensures Valid()
      ensures (subscriptions, r) == S.ToggleSubscription(old(subscriptions), subscriberId, channelId, newId)
      ensures users == old(users) && videos == old(videos) && comments == old(comments)
      ensures tweets == old(tweets) && likes == old(likes)
    {
      ToggleSubscriptionKeepsValid(subscriptions, subscriberId, channelId, newId);
      if !IsValidObjectId(channelId) {
        return Err(400, "Invalid channel ID");
      }
      if SameObjectId(subscriberId, channelId) {
        return Err(400, "You cannot subscribe to yourself");
      }
      var filter, subscription := S.SubscriptionOf(subscriberId, channelId), Subscription(newId, subscriberId, channelId);
      ToggleSubscriptionByLookup(subscriptions, subscriberId, channelId, newId);
      var existing := FirstIndex(subscriptions, filter);
      if existing.Some? {
        subscriptions := RemoveAt(subscriptions, existing.value);
        r := Ok(200, false, "Unsubscribed successfully");
      } else {
        subscriptions := subscriptions + [subscription];
        r := Ok(200, true, "Subscribed successfully");
      }
    }

    /** `getChannelStats` on the store. Because no handler tags a like with a
        channel, the reported `totalLikes` of every channel is 0. */
    method GetChannelStats(channelId: Id) returns (r: Response<D.ChannelStats>)
      requires Valid()
      ensures r == D.GetChannelStats(videos, subscriptions, likes, channelId)
      ensures r.Ok? ==> r.value.totalLikes == 0
    {
      if !IsValidObjectId(channelId) {
        return Err(400, "Invalid channel ID");
      }
      D.UntaggedLikesAreNotCounted(videos, subscriptions, likes, channelId);
      r := D.GetChannelStats(videos, subscriptions, likes, channelId);
    }
  }
}
