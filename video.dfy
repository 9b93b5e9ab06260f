/** The video handlers, each as a function from the collections it reads to
    its response and, for the handlers that write, the new collection. */
module VideoController {
  import opened Common
  import opened Collections
  import opened Records

  // ---------------------------------------------------------------- listing

  /** The fields `sortBy` may name in this model. */
  datatype SortField = CreatedAt | Views | Duration

  function SortKey(v: Video, field: SortField): nat {
    match field
    case CreatedAt => v.createdAt
    case Views => v.views
    case Duration => v.duration
  }

  /** The query string of the listing: `page`, `limit`, an optional search
      text `query`, `sortBy`, `sortType` and an optional owner `userId`. */
  datatype ListQuery = ListQuery(
    page: nat,
    limit: nat,
    query: Option<string>,
    sortBy: SortField,
    sortType: string,
    userId: Option<string>)

  /** The defaults of the query string: page 1 of 10, newest first. */
  const DefaultListQuery := ListQuery(1, 10, None, CreatedAt, "desc", None)

  /** The text clause: only a non-empty query constrains, and it matches the
      title or the description, ignoring case. */
  predicate MatchesText(v: Video, query: Option<string>) {
    match query
    case None => true
    case Some(q) => q == "" || ContainsIgnoringCase(v.title, q) || ContainsIgnoringCase(v.description, q)
  }

  /** The owner clause: applied only when `userId` is a valid id. */
  predicate MatchesOwner(v: Video, userId: Option<string>) {
    userId.Some? && IsValidObjectId(userId.value) ==> v.owner == userId.value
  }

  /** The `$match` stage. */
  function MatchFilter(query: Option<string>, userId: Option<string>): Video -> bool {
    v => MatchesText(v, query) && MatchesOwner(v, userId)
  }

  /** The `$sort` key. */
  function KeyOf(field: SortField): Video -> nat {
    v => SortKey(v, field)
  }

  /** Sort direction: ascending exactly when `sortType` is "asc". */
  predicate Ascending(sortType: string) { sortType == "asc" }

  /** The videos the `$match` stage keeps, in the order `$sort` gives them. */
  function SortedMatches(videos: seq<Video>, q: ListQuery): (r: seq<Video>)
    ensures multiset(r) == multiset(Filter(videos, MatchFilter(q.query, q.userId)))
    ensures |r| == |Filter(videos, MatchFilter(q.query, q.userId))|
    ensures forall i :: 0 <= i < |r| ==> r[i] in videos && MatchesText(r[i], q.query) && MatchesOwner(r[i], q.userId)
    ensures SortedBy(r, KeyOf(q.sortBy), Ascending(q.sortType))
  {
    var matched := Filter(videos, MatchFilter(q.query, q.userId));
    SortedSelectionMembers(videos, MatchFilter(q.query, q.userId), KeyOf(q.sortBy), Ascending(q.sortType));
    SortBy(matched, KeyOf(q.sortBy), Ascending(q.sortType))
  }

  /** A listed video with its owner replaced by the owner's summary, or with
      no owner when the lookup finds no user. */
  datatype ListedVideo = ListedVideo(video: Video, owner: Option<UserSummary>)

  function WithOwner(v: Video, users: map<Id, User>): ListedVideo {
    ListedVideo(v, SummaryOf(users, v.owner))
  }

  /** `getAllVideos`: match, sort, skip `(page - 1) * limit`, keep `limit`,
      then look up each owner. */
  function GetAllVideos(videos: seq<Video>, users: map<Id, User>, q: ListQuery): (r: seq<ListedVideo>)
    requires q.page >= 1 && q.limit >= 1
    ensures |r| == Min(q.limit, Max(0, |Filter(videos, MatchFilter(q.query, q.userId))| - Offset(q.page, q.limit)))
    ensures forall i :: 0 <= i < |r| ==> r[i].video in videos && MatchesText(r[i].video, q.query) && MatchesOwner(r[i].video, q.userId)
    ensures forall i, j :: 0 <= i < j < |r| ==>
      InOrder(SortKey(r[i].video, q.sortBy), SortKey(r[j].video, q.sortBy), Ascending(q.sortType))
    ensures forall i :: 0 <= i < |r| ==> r[i].owner == SummaryOf(users, r[i].video.owner)
  {
    PageOfMatches(videos, q);
    WithOwners(Paginate(SortedMatches(videos, q), q.page, q.limit), users)
  }

  /** The `$lookup` and `$addFields` stages: one row per video, in order. */
  function WithOwners(page: seq<Video>, users: map<Id, User>): (r: seq<ListedVideo>)
    ensures |r| == |page|
    ensures forall i :: 0 <= i < |r| ==> r[i] == WithOwner(page[i], users)
  {
    seq(|page|, i requires 0 <= i < |page| => WithOwner(page[i], users))
  }

  /** The order of videos with equal sort keys is up to the database. When
      no two matching videos share a key, any arrangement of the matches that
      is sorted by the requested key is the model's order, so the pages are
      the ones `GetAllVideos` lists. */
  lemma TieFreeOrderIsTheListing(videos: seq<Video>, q: ListQuery, order: seq<Video>)
    requires SortedBy(order, KeyOf(q.sortBy), Ascending(q.sortType))
    requires multiset(order) == multiset(Filter(videos, MatchFilter(q.query, q.userId)))
    requires DistinctKeys(order, KeyOf(q.sortBy))
    ensures order == SortedMatches(videos, q)
  {
    SortedWithoutTiesIsUnique(order, SortedMatches(videos, q), KeyOf(q.sortBy), Ascending(q.sortType));
  }

  /** Every page holds matching videos of the catalog in the requested order. */
  lemma PageOfMatches(videos: seq<Video>, q: ListQuery)
    requires q.page >= 1 && q.limit >= 1
    ensures var page := Paginate(SortedMatches(videos, q), q.page, q.limit);
      && (forall i :: 0 <= i < |page| ==> page[i] in videos && MatchesText(page[i], q.query) && MatchesOwner(page[i], q.userId))
      && (forall i, j :: 0 <= i < j < |page| ==> InOrder(SortKey(page[i], q.sortBy), SortKey(page[j], q.sortBy), Ascending(q.sortType)))
  {
    var sorted := SortedMatches(videos, q);
    var page := Paginate(sorted, q.page, q.limit);
    PaginateKeepsMembers(sorted, q.page, q.limit);
    PaginateKeepsSorted(sorted, q.page, q.limit, KeyOf(q.sortBy), Ascending(q.sortType));
  }

  function VideosOf(rows: seq<ListedVideo>): (r: seq<Video>)
    ensures |r| == |rows| && forall i :: 0 <= i < |rows| ==> r[i] == rows[i].video
  {
    seq(|rows|, i requires 0 <= i < |rows| => rows[i].video)
  }

  /** Populating the owners keeps the videos and their order. */
  lemma VideosOfWithOwners(page: seq<Video>, users: map<Id, User>)
    ensures VideosOf(WithOwners(page, users)) == page
  {
  }

  /** The listed videos are the requested page of the sorted matches; the
      matches and their order do not depend on the page asked for. */
  lemma ListingIsAPage(videos: seq<Video>, users: map<Id, User>, q: ListQuery, n: nat)
    requires n >= 1 && q.limit >= 1
    ensures VideosOf(GetAllVideos(videos, users, q.(page := n))) == Paginate(SortedMatches(videos, q), n, q.limit)
  {
    var qn := q.(page := n);
    assert qn.query == q.query && qn.userId == q.userId && qn.sortBy == q.sortBy && qn.sortType == q.sortType;
    assert SortedMatches(videos, qn) == SortedMatches(videos, q);
  }

  /** Without query parameters the listing is the newest `limit` videos of
      the whole catalog: nothing is filtered out, and page 1 skips nothing. */
  lemma DefaultListingIsNewestVideos(videos: seq<Video>, users: map<Id, User>)
    ensures VideosOf(GetAllVideos(videos, users, DefaultListQuery))
      == SortBy(videos, KeyOf(CreatedAt), false)[..Min(DefaultListQuery.limit, |videos|)]
  {
    var q := DefaultListQuery;
    FilterKeepsAll(videos, MatchFilter(q.query, q.userId));
    var sorted := SortedMatches(videos, q);
    assert sorted == SortBy(videos, KeyOf(CreatedAt), false);
    VideosOfWithOwners(Paginate(sorted, 1, 10), users);
    PaginateIsSlice(sorted, 1, 10);
  }

  /** On a catalog that does not change between requests every page is a
      page of the same sorted matches (`ListingIsAPage`), so fetching pages
      1 to n in turn yields `FirstPages` of them. With n pages enough to hold
      the catalog, that lists every matching video exactly once: pages do
      not overlap and leave nothing out. */
  lemma PagesListEveryMatchOnce(videos: seq<Video>, q: ListQuery, n: nat)
    requires q.limit >= 1 && n * q.limit >= |videos|
    ensures multiset(FirstPages(SortedMatches(videos, q), n, q.limit)) == multiset(Filter(videos, MatchFilter(q.query, q.userId)))
  {
    var sorted := SortedMatches(videos, q);
    PagesTileTheListing(sorted, n, q.limit);
    assert Min(n * q.limit, |sorted|) == |sorted|;
    assert sorted[..|sorted|] == sorted;
  }

  /** An empty search text is no search text: `if (query)` is false for it. */
  lemma EmptyQueryIsNoQuery(videos: seq<Video>, users: map<Id, User>, q: ListQuery)
    requires q.page >= 1 && q.limit >= 1
    ensures GetAllVideos(videos, users, q.(query := Some(""))) == GetAllVideos(videos, users, q.(query := None))
  {
    FilterCongruent(videos, MatchFilter(Some(""), q.userId), MatchFilter(None, q.userId));
  }

  /** A `userId` that is not a valid id is ignored, not rejected: the listing
      is the one without an owner filter. */
  lemma InvalidUserIdIsIgnored(videos: seq<Video>, users: map<Id, User>, q: ListQuery, userId: string)
    requires q.page >= 1 && q.limit >= 1 && !IsValidObjectId(userId)
    ensures GetAllVideos(videos, users, q.(userId := Some(userId))) == GetAllVideos(videos, users, q.(userId := None))
  {
    FilterCongruent(videos, MatchFilter(q.query, Some(userId)), MatchFilter(q.query, None));
  }

  /** With a valid `userId` every listed video belongs to that user. */
  lemma ValidUserIdRestrictsOwner(videos: seq<Video>, users: map<Id, User>, q: ListQuery, userId: string)
    requires q.page >= 1 && q.limit >= 1 && IsValidObjectId(userId)
    ensures forall row :: row in GetAllVideos(videos, users, q.(userId := Some(userId))) ==> row.video.owner == userId
  {
  }

  // ------------------------------------------------------------ get by id

  predicate NoDuplicates(s: seq<Id>) {
    forall i, j :: 0 <= i < j < |s| ==> s[i] != s[j]
  }

  /** `$addToSet`: `id` is appended unless the history already holds it. */
  function AddToSet(history: seq<Id>, id: Id): (r: seq<Id>)
    ensures id in r
    ensures forall x :: x in r <==> x in history || x == id
    ensures |history| <= |r| <= |history| + 1 && r[..|history|] == history
    ensures NoDuplicates(history) ==> NoDuplicates(r)
  {
    if id in history then history else history + [id]
  }

  /** `User.findByIdAndUpdate(actor, { $addToSet: { watchHistory: videoId } })`:
      a no-op when no user has the id `actor`. */
  function RecordView(users: map<Id, User>, actor: Id, videoId: Id): (r: map<Id, User>)
    ensures r.Keys == users.Keys
    ensures forall u :: u in users && u != actor ==> r[u] == users[u]
    ensures actor in users ==> r[actor] == users[actor].(watchHistory := AddToSet(users[actor].watchHistory, videoId))
  {
    if actor in users then
      users[actor := users[actor].(watchHistory := AddToSet(users[actor].watchHistory, videoId))]
    else users
  }

  /** `getVideoById`: 400 for an invalid id, 404 when no video has it;
      otherwise the video with its owner, and the video is added to the
      viewer's watch history. */
  function GetVideoById(videos: seq<Video>, users: map<Id, User>, actor: Id, videoId: Id): (r: (map<Id, User>, Response<ListedVideo>))
    ensures !IsValidObjectId(videoId) ==> r == (users, Err(400, "Invalid video ID"))
    ensures r.1.Ok? <==> IsValidObjectId(videoId) && exists i :: 0 <= i < |videos| && videos[i].id == videoId
    ensures IsValidObjectId(videoId) && r.1.Err? ==> r == (users, Err(404, "Video not found"))
    ensures r.1.Ok? ==> r.1.status == 200 && r.1.value.video in videos && r.1.value.video.id == videoId
    ensures r.1.Ok? ==> r.1.value.owner == SummaryOf(users, r.1.value.video.owner)
    ensures r.1.Ok? ==> r.0 == RecordView(users, actor, videoId)
  {
    if !IsValidObjectId(videoId) then (users, Err(400, "Invalid video ID"))
    else
      match FirstIndex(videos, (v: Video) => v.id == videoId)
      case None => (users, Err(404, "Video not found"))
      case Some(i) =>
        (RecordView(users, actor, videoId), Ok(200, WithOwner(videos[i], users), "Video fetched successfully"))
  }

  predicate HistoriesDuplicateFree(users: map<Id, User>) {
    forall u :: u in users ==> NoDuplicates(users[u].watchHistory)
  }

  /** Watching keeps every watch history free of duplicates, and watching
      the same video again changes no history. */
  lemma {:induction false} WatchHistoryIsASet(videos: seq<Video>, users: map<Id, User>, actor: Id, videoId: Id)
    requires HistoriesDuplicateFree(users)
    ensures HistoriesDuplicateFree(GetVideoById(videos, users, actor, videoId).0)
    ensures var after := GetVideoById(videos, users, actor, videoId).0;
      GetVideoById(videos, after, actor, videoId).0 == after
  {
    var after := GetVideoById(videos, users, actor, videoId).0;
    if actor in users && after != users {
      assert NoDuplicates(users[actor].watchHistory);
      assert after == RecordView(users, actor, videoId);
      assert after[actor].watchHistory == AddToSet(users[actor].watchHistory, videoId);
    }
  }

  // ---------------------------------------------------------------- publish

  /** What the uploader answers for one file: its URL (empty when the upload
      gave none) and the media duration in seconds. */
  datatype Upload = Upload(url: string, duration: nat)

  /** The request body and which of the two files were attached. */
  datatype PublishRequest = PublishRequest(title: string, description: string, hasVideoFile: bool, hasThumbnail: bool)

  /** Defaults the video schema gives a new video. */
  const InitialViews: nat := 0
  const InitiallyPublished := true

  /** `publishAVideo`: both files are required (400); both uploads must give
      a URL (500); then one video owned by the actor is inserted. */
  function PublishAVideo(videos: seq<Video>, actor: Id, req: PublishRequest, videoUpload: Upload, thumbnailUpload: Upload, newId: Id, now: nat): (r: (seq<Video>, Response<Video>))
    ensures !(req.hasVideoFile && req.hasThumbnail) ==> r == (videos, Err(400, "Video file and thumbnail are required"))
    ensures r.1.Ok? <==> req.hasVideoFile && req.hasThumbnail && videoUpload.url != "" && thumbnailUpload.url != ""
    ensures req.hasVideoFile && req.hasThumbnail && (videoUpload.url == "" || thumbnailUpload.url == "")
      ==> r == (videos, Err(500, "Error uploading files to Cloudinary"))
    ensures r.1.Err? ==> r.0 == videos && r.1.status in {400, 500}
    ensures r.1.Ok? ==> r.1.status == 201 && r.1.message == "Video published successfully" && r.0 == videos + [r.1.value]
    ensures r.1.Ok? ==> var v := r.1.value;
      v.id == newId && v.owner == actor && v.title == req.title && v.description == req.description
      && v.videoFile == videoUpload.url && v.thumbnail == thumbnailUpload.url
      && v.duration == videoUpload.duration && v.createdAt == now
  {
    if !req.hasVideoFile || !req.hasThumbnail then (videos, Err(400, "Video file and thumbnail are required"))
    else if videoUpload.url == "" || thumbnailUpload.url == "" then (videos, Err(500, "Error uploading files to Cloudinary"))
    else
      var v := Video(newId, videoUpload.url, thumbnailUpload.url, req.title, req.description,
                     videoUpload.duration, InitialViews, InitiallyPublished, actor, now);
      (videos + [v], Ok(201, v, "Video published successfully"))
  }

  // --------------------------------------------------- owner-scoped changes

  /** The filter `{ _id: videoId, owner: actor }`. */
  function OwnedBy(videoId: Id, actor: Id): Video -> bool {
    (v: Video) => v.id == videoId && v.owner == actor
  }

  /** The fields of a video an update document may set; `None` leaves the
      field as it is. `_id` and `createdAt` cannot be changed. */
  datatype VideoPatch = VideoPatch(
    title: Option<string>,
    description: Option<string>,
    videoFile: Option<string>,
    thumbnail: Option<string>,
    duration: Option<nat>,
    views: Option<nat>,
    isPublished: Option<bool>,
    owner: Option<Id>)

  const EmptyPatch := VideoPatch(None, None, None, None, None, None, None, None)

  function Pick<T>(o: Option<T>, current: T): T {
    if o.Some? then o.value else current
  }

  /** The video after the update document is applied. */
  function ApplyPatch(v: Video, p: VideoPatch): (w: Video)
    ensures w.id == v.id && w.createdAt == v.createdAt
    ensures p == EmptyPatch ==> w == v
    ensures p.title.Some? ==> w.title == p.title.value
    ensures p.title.None? ==> w.title == v.title
    ensures p.description.Some? ==> w.description == p.description.value
    ensures p.description.None? ==> w.description == v.description
    ensures p.videoFile.Some? ==> w.videoFile == p.videoFile.value
    ensures p.videoFile.None? ==> w.videoFile == v.videoFile
    ensures p.thumbnail.Some? ==> w.thumbnail == p.thumbnail.value
    ensures p.thumbnail.None? ==> w.thumbnail == v.thumbnail
    ensures p.duration.Some? ==> w.duration == p.duration.value
    ensures p.duration.None? ==> w.duration == v.duration
    ensures p.views.Some? ==> w.views == p.views.value
    ensures p.views.None? ==> w.views == v.views
    ensures p.isPublished.Some? ==> w.isPublished == p.isPublished.value
    ensures p.isPublished.None? ==> w.isPublished == v.isPublished
    ensures p.owner.Some? ==> w.owner == p.owner.value
    ensures p.owner.None? ==> w.owner == v.owner
  {
    v.(title := Pick(p.title, v.title), description := Pick(p.description, v.description),
       videoFile := Pick(p.videoFile, v.videoFile), thumbnail := Pick(p.thumbnail, v.thumbnail),
       duration := Pick(p.duration, v.duration), views := Pick(p.views, v.views),
       isPublished := Pick(p.isPublished, v.isPublished), owner := Pick(p.owner, v.owner))
  }

  /** Applying the same patch again changes nothing: every field the patch
      names already holds the patch's value. */
  lemma PatchTwiceIsPatchOnce(v: Video, p: VideoPatch)
    ensures ApplyPatch(ApplyPatch(v, p), p) == ApplyPatch(v, p)
  {
  }

  /** `updateVideo`: 400 for an invalid id; 403 unless a video has both the
      id and the actor as owner; otherwise that one video is patched. */
  function UpdateVideo(videos: seq<Video>, actor: Id, videoId: Id, patch: VideoPatch): (r: (seq<Video>, Response<Video>))
    ensures !IsValidObjectId(videoId) ==> r == (videos, Err(400, "Invalid video ID"))
    ensures r.1.Ok? <==> IsValidObjectId(videoId) && exists i :: 0 <= i < |videos| && videos[i].id == videoId && videos[i].owner == actor
    ensures IsValidObjectId(videoId) && r.1.Err? ==> r == (videos, Err(403, "Unauthorized or video not found"))
    ensures r.1.Ok? ==> r.1.status == 200
    ensures r.1.Ok? ==>
      exists i :: 0 <= i < |videos| && videos[i].id == videoId && videos[i].owner == actor
                  && r.0 == videos[i := ApplyPatch(videos[i], patch)] && r.1.value == r.0[i]
  {
    if !IsValidObjectId(videoId) then (videos, Err(400, "Invalid video ID"))
    else
      var (after, found) := FindOneAndUpdate(videos, OwnedBy(videoId, actor), v => ApplyPatch(v, patch));
      if found.None? then (videos, Err(403, "Unauthorized or video not found"))
      else (after, Ok(200, found.value, "Video updated successfully"))
  }

  /** `deleteVideo`: 400 for an invalid id; 403 unless a video has both the id
      and the actor as owner; otherwise that one video is removed. */
  function DeleteVideo(videos: seq<Video>, actor: Id, videoId: Id): (r: (seq<Video>, Response<()>))
    ensures !IsValidObjectId(videoId) ==> r == (videos, Err(400, "Invalid video ID"))
    ensures r.1.Ok? <==> IsValidObjectId(videoId) && exists i :: 0 <= i < |videos| && videos[i].id == videoId && videos[i].owner == actor
    ensures IsValidObjectId(videoId) && r.1.Err? ==> r == (videos, Err(403, "Unauthorized or video not found"))
    ensures r.1.Ok? ==> r.1.status == 200
    ensures r.1.Ok? ==>
      exists i :: 0 <= i < |videos| && videos[i].id == videoId && videos[i].owner == actor
                  && r.0 == RemoveAt(videos, i)
  {
    if !IsValidObjectId(videoId) then (videos, Err(400, "Invalid video ID"))
    else
      var (after, found) := FindOneAndDelete(videos, OwnedBy(videoId, actor));
      if found.None? then (videos, Err(403, "Unauthorized or video not found"))
      else (after, Ok(200, (), "Video deleted successfully"))
  }

  function VideoId(v: Video): Id { v.id }

  /** With `_id`s unique, a successful delete removes the one video with that
      id and keeps every other video. */
  lemma DeleteVideoRemovesOnlyTarget(videos: seq<Video>, actor: Id, videoId: Id)
    requires UniqueIds(videos, VideoId)
    requires DeleteVideo(videos, actor, videoId).1.Ok?
    ensures forall v :: v in DeleteVideo(videos, actor, videoId).0 <==> v in videos && v.id != videoId
    ensures |DeleteVideo(videos, actor, videoId).0| == |videos| - 1
  {
    var after := DeleteVideo(videos, actor, videoId).0;
    var i :| 0 <= i < |videos| && videos[i].id == videoId && videos[i].owner == actor && after == RemoveAt(videos, i);
    RemoveAtUniqueId(videos, VideoId, i);
  }

  /** `togglePublishStatus`: 400 for an invalid id; 403 unless a video has
      both the id and the actor as owner; otherwise its `isPublished` flag
      is negated and nothing else changes. */
  function TogglePublishStatus(videos: seq<Video>, actor: Id, videoId: Id): (r: (seq<Video>, Response<Video>))
    ensures !IsValidObjectId(videoId) ==> r == (videos, Err(400, "Invalid video ID"))
    ensures r.1.Ok? <==> IsValidObjectId(videoId) && exists i :: 0 <= i < |videos| && videos[i].id == videoId && videos[i].owner == actor
    ensures IsValidObjectId(videoId) && r.1.Err? ==> r == (videos, Err(403, "Unauthorized or video not found"))
    ensures r.1.Ok? ==> r.1.status == 200
    ensures r.1.Ok? ==>
      exists i :: 0 <= i < |videos| && videos[i].id == videoId && videos[i].owner == actor
                  && r.0 == videos[i := videos[i].(isPublished := !videos[i].isPublished)] && r.1.value == r.0[i]
  {
    if !IsValidObjectId(videoId) then (videos, Err(400, "Invalid video ID"))
    else
      match FirstIndex(videos, OwnedBy(videoId, actor))
      case None => (videos, Err(403, "Unauthorized or video not found"))
      case Some(i) =>
        var flipped := videos[i].(isPublished := !videos[i].isPublished);
        (videos[i := flipped], Ok(200, flipped, "Video publish status toggled"))
  }

  /** Toggling the publish flag twice restores the collection. */
  lemma {:induction false} TogglePublishTwiceRestores(videos: seq<Video>, actor: Id, videoId: Id)
    ensures var once := TogglePublishStatus(videos, actor, videoId);
      var twice := TogglePublishStatus(once.0, actor, videoId);
      twice.0 == videos && (once.1.Ok? <==> twice.1.Ok?)
  {
    var p := OwnedBy(videoId, actor);
    if IsValidObjectId(videoId) {
      match FirstIndex(videos, p)
      case None =>
      case Some(i) =>
        var once := TogglePublishStatus(videos, actor, videoId).0;
        assert once == videos[i := videos[i].(isPublished := !videos[i].isPublished)];
        assert FirstMatch(once, p, i);
        FirstMatchIsFound(once, p, i);
        assert once[i := once[i].(isPublished := !once[i].isPublished)] == videos;
    }
  }
}
