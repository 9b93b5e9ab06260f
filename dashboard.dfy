/** The channel dashboard: the four totals of a channel and the newest-first,
    paged list of its videos. */
module DashboardController {
  import opened Common
  import opened Collections
  import opened Records
  import opened VideoController
  import opened LikeController
  import opened SubscriptionController

  /** The filter `{ owner: channelId }` on videos. */
  function ChannelVideo(channelId: Id): Video -> bool {
    (v: Video) => v.owner == channelId
  }

  /** The filter `{ channel: channelId }` on likes. */
  function ChannelTagged(channelId: Id): Like -> bool {
    (l: Like) => l.channel == Some(channelId)
  }

  /** `$sum` of `views` over the videos. */
  function SumViews(videos: seq<Video>): (n: nat)
    ensures videos == [] ==> n == 0
  {
    if videos == [] then 0 else videos[0].views + SumViews(videos[1..])
  }

  lemma {:induction false} SumViewsAppend(a: seq<Video>, b: seq<Video>)
    ensures SumViews(a + b) == SumViews(a) + SumViews(b)
  {
    HeadOfAppend(a, b);
    if a != [] {
      SumViewsAppend(a[1..], b);
    }
  }

  /** Taking one video out of the sum takes out its views. */
  lemma SumViewsRemove(b: seq<Video>, k: nat)
    requires k < |b|
    ensures SumViews(b) == b[k].views + SumViews(b[..k] + b[k + 1..])
  {
    var front, x, back := b[..k], b[k], b[k + 1..];
    calc {
      SumViews(b);
      { SplitAt(b, k); }
      SumViews((front + [x]) + back);
      { SumViewsAppend(front + [x], back); }
      SumViews(front + [x]) + SumViews(back);
      { SumViewsAppend(front, [x]); SingletonTail(x); }
      SumViews(front) + x.views + SumViews(back);
      { SumViewsAppend(front, back); }
      x.views + SumViews(front + back);
    }
  }

  /** The sum does not depend on the order of the videos. */
  lemma {:induction false} SumViewsPermutation(a: seq<Video>, b: seq<Video>)
    requires multiset(a) == multiset(b)
    ensures SumViews(a) == SumViews(b)
    decreases |a|
  {
    if a != [] {
      var x := a[0];
      assert x in multiset(b);
      var k :| 0 <= k < |b| && b[k] == x;
      var rest := b[..k] + b[k + 1..];
      MultisetSplit(b, k);
      MultisetSplit(a, 0);
      SumViewsPermutation(a[1..], rest);
      SumViewsRemove(b, k);
    }
  }

  /** The payload of `getChannelStats`. */
  datatype ChannelStats = ChannelStats(totalVideos: nat, totalSubscribers: nat, totalLikes: nat, totalViews: nat)

  /** The `$group` stage: no group at all when nothing matched, which the
      handler reports as 0, otherwise one group with the sum. */
  function TotalViews(videos: seq<Video>, channelId: Id): (n: nat)
    ensures n == SumViews(Filter(videos, ChannelVideo(channelId)))
    ensures Count(videos, ChannelVideo(channelId)) == 0 ==> n == 0
  {
    var owned := Filter(videos, ChannelVideo(channelId));
    if owned == [] then 0 else SumViews(owned)
  }

  /** `getChannelStats`: 400 for an invalid channel id; otherwise how many
      videos the channel owns, how many subscriptions name it, how many likes
      carry it in their `channel` field, and the views of its videos. */
  function GetChannelStats(videos: seq<Video>, subs: seq<Subscription>, likes: seq<Like>, channelId: Id): (r: Response<ChannelStats>)
    ensures !IsValidObjectId(channelId) ==> r == Err(400, "Invalid channel ID")
    ensures IsValidObjectId(channelId) ==> r.Ok? && r.status == 200 && r.message == "Channel stats fetched successfully"
    ensures r.Ok? ==> r.value.totalVideos == Count(videos, ChannelVideo(channelId)) <= |videos|
    ensures r.Ok? ==> r.value.totalSubscribers == Count(subs, ToChannel(channelId)) <= |subs|
    ensures r.Ok? ==> r.value.totalLikes == Count(likes, ChannelTagged(channelId)) <= |likes|
    ensures r.Ok? ==> r.value.totalViews == SumViews(Filter(videos, ChannelVideo(channelId)))
    ensures r.Ok? && r.value.totalVideos == 0 ==> r.value.totalViews == 0
  {
    if !IsValidObjectId(channelId) then Err(400, "Invalid channel ID")
    else
      Ok(200, ChannelStats(
        Count(videos, ChannelVideo(channelId)),
        Count(subs, ToChannel(channelId)),
        Count(likes, ChannelTagged(channelId)),
        TotalViews(videos, channelId)), "Channel stats fetched successfully")
  }

  /** The views total is the sum over the channel's videos, whatever their
      order, and a new video of the channel adds one video and its views. */
  lemma PublishAddsToStats(videos: seq<Video>, subs: seq<Subscription>, likes: seq<Like>, v: Video)
    requires IsValidObjectId(v.owner)
    ensures var before := GetChannelStats(videos, subs, likes, v.owner).value;
      var after := GetChannelStats(videos + [v], subs, likes, v.owner).value;
      after.totalVideos == before.totalVideos + 1 && after.totalViews == before.totalViews + v.views
  {
    FilterAppend(videos, [v], ChannelVideo(v.owner));
    FilterSingle(v, ChannelVideo(v.owner));
    SumViewsAppend(Filter(videos, ChannelVideo(v.owner)), [v]);
    assert SumViews([v]) == v.views + SumViews([]);
  }

  /** The totals of a channel with no videos, subscribers or channel-tagged
      likes are all 0. */
  lemma EmptyChannelStats(videos: seq<Video>, subs: seq<Subscription>, likes: seq<Like>, channelId: Id)
    requires IsValidObjectId(channelId)
    requires forall i :: 0 <= i < |videos| ==> videos[i].owner != channelId
    requires forall i :: 0 <= i < |subs| ==> subs[i].channel != channelId
    requires forall i :: 0 <= i < |likes| ==> likes[i].channel != Some(channelId)
    ensures GetChannelStats(videos, subs, likes, channelId) == Ok(200, ChannelStats(0, 0, 0, 0), "Channel stats fetched successfully")
  {
    assert forall i :: 0 <= i < |videos| ==> !ChannelVideo(channelId)(videos[i]);
    assert forall i :: 0 <= i < |subs| ==> !ToChannel(channelId)(subs[i]);
    assert forall i :: 0 <= i < |likes| ==> !ChannelTagged(channelId)(likes[i]);
  }

  // ------------------------------------------------- totalLikes as written

  function Untagged(l: Like): bool { l.channel.None? }

  /** No like carries a `channel` field. */
  predicate NoChannelTags(likes: seq<Like>) {
    forall i :: 0 <= i < |likes| ==> Untagged(likes[i])
  }

  /** `totalLikes` counts likes whose `channel` field names the channel, but
      no toggle ever writes that field: starting from a collection without
      such likes, every toggle leaves one without them. */
  lemma ToggleKeepsNoChannelTags(likes: seq<Like>, kind: TargetKind, targetId: Id, userId: Id, newId: Id)
    requires NoChannelTags(likes)
    ensures NoChannelTags(ToggleLike(likes, kind, targetId, userId, newId).0)
  {
    if IsValidObjectId(targetId) {
      var p, l := LikeOf(kind, targetId, userId), NewLike(newId, kind, targetId, userId);
      assert ToggleLike(likes, kind, targetId, userId, newId).0 == Toggle(likes, p, l).0;
      ToggleKeepsAll(likes, p, l, Untagged);
    }
  }

  /** Without channel-tagged likes, the reported `totalLikes` is 0 for every
      channel, however many likes its videos, comments and tweets have. */
  lemma UntaggedLikesAreNotCounted(videos: seq<Video>, subs: seq<Subscription>, likes: seq<Like>, channelId: Id)
    requires IsValidObjectId(channelId) && NoChannelTags(likes)
    ensures GetChannelStats(videos, subs, likes, channelId).value.totalLikes == 0
  {
    assert forall i :: 0 <= i < |likes| ==> !ChannelTagged(channelId)(likes[i]);
  }

  /** The discrepancy on a concrete input: a channel with one video and no
      likes; a viewer likes the video; `totalLikes` stays 0, while the
      channel's video has one like. */
  lemma LikedVideoNotCounted(v: Video, viewer: Id, newId: Id)
    requires IsValidObjectId(v.id) && IsValidObjectId(v.owner)
    ensures var likes := ToggleLike([], VideoTarget, v.id, viewer, newId).0;
      && GetChannelStats([v], [], likes, v.owner).value.totalLikes == 0
      && ChannelLikes(likes, [v], v.owner) == 1
  {
    var likes := ToggleLike([], VideoTarget, v.id, viewer, newId).0;
    var l := NewLike(newId, VideoTarget, v.id, viewer);
    assert likes == [l];
    assert l.video == Some(v.id);
    assert OnChannelVideo([v], v.owner)(l) by {
      assert [v][0].id == v.id && [v][0].owner == v.owner;
    }
    assert Filter(likes, OnChannelVideo([v], v.owner)) == [l] + Filter([], OnChannelVideo([v], v.owner));
    assert Filter(likes, ChannelTagged(v.owner)) == Filter([], ChannelTagged(v.owner));
  }

  // --------------------------------------------- totalLikes as intended

  /** The video `videoId` belongs to the channel. */
  predicate IsChannelVideo(videos: seq<Video>, videoId: Id, channelId: Id) {
    exists j | 0 <= j < |videos| :: videos[j].id == videoId && videos[j].owner == channelId
  }

  /** A like on one of the channel's videos. */
  function OnChannelVideo(videos: seq<Video>, channelId: Id): Like -> bool {
    (l: Like) => l.video.Some? && IsChannelVideo(videos, l.video.value, channelId)
  }

  /** The likes the channel's videos have received. */
  function ChannelLikes(likes: seq<Like>, videos: seq<Video>, channelId: Id): (n: nat)
    ensures n <= |likes|
    ensures n == 0 <==> forall i :: 0 <= i < |likes| ==> !OnChannelVideo(videos, channelId)(likes[i])
  {
    Count(likes, OnChannelVideo(videos, channelId))
  }

  /** `getChannelStats` with `totalLikes` counting the likes on the
      channel's videos. */
  function GetChannelStatsIntended(videos: seq<Video>, subs: seq<Subscription>, likes: seq<Like>, channelId: Id): (r: Response<ChannelStats>)
    ensures !IsValidObjectId(channelId) ==> r == Err(400, "Invalid channel ID")
    ensures IsValidObjectId(channelId) ==> r.Ok? && r.status == 200
    ensures r.Ok? ==> r.value.totalLikes == ChannelLikes(likes, videos, channelId)
    ensures r.Ok? ==> r.value.(totalLikes := 0) == GetChannelStats(videos, subs, likes, channelId).value.(totalLikes := 0)
  {
    match GetChannelStats(videos, subs, likes, channelId)
    case Err(status, message) => Err(status, message)
    case Ok(status, stats, message) => Ok(status, stats.(totalLikes := ChannelLikes(likes, videos, channelId)), message)
  }

  /** With the intended count, a viewer's first like of one of the channel's
      videos raises `totalLikes` by one, and taking it back lowers it again. */
  lemma LikingChannelVideoCounts(videos: seq<Video>, subs: seq<Subscription>, likes: seq<Like>, videoId: Id, channelId: Id, viewer: Id, newId: Id)
    requires IsValidObjectId(videoId) && IsValidObjectId(channelId)
    requires IsChannelVideo(videos, videoId, channelId)
    requires LikeCount(likes, VideoTarget, videoId, viewer) == 0
    ensures var after := ToggleLike(likes, VideoTarget, videoId, viewer, newId).0;
      GetChannelStatsIntended(videos, subs, after, channelId).value.totalLikes
        == GetChannelStatsIntended(videos, subs, likes, channelId).value.totalLikes + 1
  {
    var l := NewLike(newId, VideoTarget, videoId, viewer);
    var after := ToggleLike(likes, VideoTarget, videoId, viewer, newId).0;
    assert after == likes + [l];
    assert OnChannelVideo(videos, channelId)(l);
    CountAppend(likes, [l], OnChannelVideo(videos, channelId));
    assert Filter([l], OnChannelVideo(videos, channelId)) == [l] + Filter([], OnChannelVideo(videos, channelId));
  }

  // ------------------------------------------------------- channel videos

  /** `getChannelVideos`: 400 for an invalid channel id; otherwise page
      `page` of the channel's videos, newest first, `limit` per page, each
      with its owner's summary. */
  function GetChannelVideos(videos: seq<Video>, users: map<Id, User>, channelId: Id, page: nat, limit: nat): (r: Response<seq<ListedVideo>>)
    requires page >= 1 && limit >= 1
    ensures !IsValidObjectId(channelId) ==> r == Err(400, "Invalid channel ID")
    ensures IsValidObjectId(channelId) ==> r.Ok? && r.status == 200 && r.message == "Channel videos fetched successfully"
    ensures r.Ok? ==> |r.value| == Min(limit, Max(0, Count(videos, ChannelVideo(channelId)) - Offset(page, limit)))
    ensures r.Ok? ==> forall i :: 0 <= i < |r.value| ==>
      r.value[i].video in videos && r.value[i].video.owner == channelId && r.value[i].owner == SummaryOf(users, channelId)
    ensures r.Ok? ==> forall i, j :: 0 <= i < j < |r.value| ==> r.value[i].video.createdAt >= r.value[j].video.createdAt
    ensures r.Ok? ==> VideosOf(r.value) == Paginate(ChannelNewestFirst(videos, channelId), page, limit)
  {
    if !IsValidObjectId(channelId) then Err(400, "Invalid channel ID")
    else
      ChannelPage(videos, channelId, page, limit);
      VideosOfWithOwners(Paginate(ChannelNewestFirst(videos, channelId), page, limit), users);
      Ok(200, WithOwners(Paginate(ChannelNewestFirst(videos, channelId), page, limit), users), "Channel videos fetched successfully")
  }

  /** A page of the channel's videos is the window of the newest-first list
      that skips the earlier pages' `Offset(page, limit)` videos, that is
      `(page - 1) * limit` (`OffsetIsProduct`), and keeps up to `limit`
      (`Paginate` states the window element by element): it holds that many
      of the channel's videos, newest first. */
  lemma ChannelPage(videos: seq<Video>, channelId: Id, page: nat, limit: nat)
    requires page >= 1 && limit >= 1
    ensures var shown := Paginate(ChannelNewestFirst(videos, channelId), page, limit);
      && |shown| == Min(limit, Max(0, Count(videos, ChannelVideo(channelId)) - Offset(page, limit)))
      && (forall i :: 0 <= i < |shown| ==> shown[i] in videos && shown[i].owner == channelId)
      && (forall i, j :: 0 <= i < j < |shown| ==> shown[i].createdAt >= shown[j].createdAt)
  {
    var sorted := ChannelNewestFirst(videos, channelId);
    PaginateLength(sorted, Count(videos, ChannelVideo(channelId)), page, limit);
    PaginateKeepsMembers(sorted, page, limit);
    PaginateKeepsSorted(sorted, page, limit, KeyOf(CreatedAt), false);
  }

  /** The channel's videos, newest first. */
  function ChannelNewestFirst(videos: seq<Video>, channelId: Id): (r: seq<Video>)
    ensures multiset(r) == multiset(Filter(videos, ChannelVideo(channelId)))
    ensures |r| == Count(videos, ChannelVideo(channelId))
    ensures forall i :: 0 <= i < |r| ==> r[i] in videos && r[i].owner == channelId
    ensures SortedBy(r, KeyOf(CreatedAt), false)
  {
    SortedSelectionMembers(videos, ChannelVideo(channelId), KeyOf(CreatedAt), false);
    SortBy(Filter(videos, ChannelVideo(channelId)), KeyOf(CreatedAt), false)
  }

  /** The order of videos with equal `createdAt` is up to the database. When
      no two of the channel's videos share one, any newest-first arrangement
      of them is `ChannelNewestFirst`, so the pages are determined. */
  lemma TieFreeChannelOrder(videos: seq<Video>, channelId: Id, order: seq<Video>)
    requires SortedBy(order, KeyOf(CreatedAt), false)
    requires multiset(order) == multiset(Filter(videos, ChannelVideo(channelId)))
    requires DistinctKeys(order, KeyOf(CreatedAt))
    ensures order == ChannelNewestFirst(videos, channelId)
  {
    SortedWithoutTiesIsUnique(order, ChannelNewestFirst(videos, channelId), KeyOf(CreatedAt), false);
  }

  /** A first page large enough for the whole channel agrees with the
      dashboard totals: it lists `totalVideos` videos whose views add up to
      `totalViews`. */
  lemma ChannelVideosAgreeWithStats(videos: seq<Video>, users: map<Id, User>, subs: seq<Subscription>, likes: seq<Like>, channelId: Id, limit: nat)
    requires IsValidObjectId(channelId)
    requires limit >= 1 && limit >= |videos|
    ensures var listed := GetChannelVideos(videos, users, channelId, 1, limit).value;
      var stats := GetChannelStats(videos, subs, likes, channelId).value;
      |listed| == stats.totalVideos && SumViews(VideosOf(listed)) == stats.totalViews
  {
    var sorted := ChannelNewestFirst(videos, channelId);
    var owned := Filter(videos, ChannelVideo(channelId));
    assert |sorted| == |multiset(sorted)| == |owned|;
    var shown := Paginate(sorted, 1, limit);
    assert shown == sorted;
    VideosOfWithOwners(shown, users);
    SumViewsPermutation(sorted, owned);
  }
}
