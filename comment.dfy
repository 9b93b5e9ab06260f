/** The comment handlers: the newest-first, paged listing of a video's
    comments, and the author-scoped add, edit and delete. */
module CommentController {
  import opened Common
  import opened Collections
  import opened Records

  /** The filter `{ video: videoId }`. */
  function OnVideo(videoId: Id): Comment -> bool {
    (c: Comment) => c.video == videoId
  }

  function CreatedAtOf(c: Comment): nat { c.createdAt }

  function CommentId(c: Comment): Id { c.id }

  /** `getVideoComments` leaves `page` and `limit` at 1 and 10 when the query
      does not give them. */
  const DefaultPage: nat := 1
  const DefaultLimit: nat := 10

  /** A listed comment with its `user` populated with the author's summary,
      or with none when the author is not in the users collection. */
  datatype ListedComment = ListedComment(comment: Comment, user: Option<UserSummary>)

  /** The comments of the video, newest first. */
  function NewestFirst(comments: seq<Comment>, videoId: Id): (r: seq<Comment>)
    ensures multiset(r) == multiset(Filter(comments, OnVideo(videoId)))
    ensures |r| == Count(comments, OnVideo(videoId))
    ensures forall i :: 0 <= i < |r| ==> r[i] in comments && r[i].video == videoId
    ensures SortedBy(r, CreatedAtOf, false)
  {
    SortedSelectionMembers(comments, OnVideo(videoId), CreatedAtOf, false);
    SortBy(Filter(comments, OnVideo(videoId)), CreatedAtOf, false)
  }

  /** The order of comments with equal `createdAt` is up to the database.
      When no two of the video's comments share one, any newest-first
      arrangement of them is `NewestFirst`, so the pages are determined. */
  lemma TieFreeCommentOrder(comments: seq<Comment>, videoId: Id, order: seq<Comment>)
    requires SortedBy(order, CreatedAtOf, false)
    requires multiset(order) == multiset(Filter(comments, OnVideo(videoId)))
    requires DistinctKeys(order, CreatedAtOf)
    ensures order == NewestFirst(comments, videoId)
  {
    SortedWithoutTiesIsUnique(order, NewestFirst(comments, videoId), CreatedAtOf, false);
  }

  function WithUsers(page: seq<Comment>, users: map<Id, User>): (r: seq<ListedComment>)
    ensures |r| == |page|
    ensures forall i :: 0 <= i < |r| ==> r[i] == ListedComment(page[i], SummaryOf(users, page[i].user))
  {
    seq(|page|, i requires 0 <= i < |page| => ListedComment(page[i], SummaryOf(users, page[i].user)))
  }

  /** The comments of listed rows, in listing order. */
  function CommentsOf(rows: seq<ListedComment>): (r: seq<Comment>)
    ensures |r| == |rows| && forall i :: 0 <= i < |rows| ==> r[i] == rows[i].comment
  {
    seq(|rows|, i requires 0 <= i < |rows| => rows[i].comment)
  }

  /** Populating the authors keeps the comments and their order. */
  lemma CommentsOfWithUsers(page: seq<Comment>, users: map<Id, User>)
    ensures CommentsOf(WithUsers(page, users)) == page
  {
  }

  /** `getVideoComments`: 400 for an invalid video id; otherwise page `page`
      of the video's comments, newest first, `limit` per page, each with its
      author's summary. A video without comments gives an empty page, not an
      error. */
  function GetVideoComments(comments: seq<Comment>, users: map<Id, User>, videoId: Id, page: nat, limit: nat): (r: Response<seq<ListedComment>>)
    requires page >= 1 && limit >= 1
    ensures !IsValidObjectId(videoId) ==> r == Err(400, "Invalid video ID")
    ensures IsValidObjectId(videoId) ==> r.Ok? && r.status == 200 && r.message == "Comments fetched successfully"
    ensures r.Ok? ==> |r.value| == Min(limit, Max(0, Count(comments, OnVideo(videoId)) - Offset(page, limit)))
    ensures r.Ok? ==> forall i :: 0 <= i < |r.value| ==>
      r.value[i].comment in comments && r.value[i].comment.video == videoId
      && r.value[i].user == SummaryOf(users, r.value[i].comment.user)
    ensures r.Ok? ==> forall i, j :: 0 <= i < j < |r.value| ==> r.value[i].comment.createdAt >= r.value[j].comment.createdAt
    ensures r.Ok? ==> CommentsOf(r.value) == Paginate(NewestFirst(comments, videoId), page, limit)
  {
    if !IsValidObjectId(videoId) then Err(400, "Invalid video ID")
    else
      VideoCommentsPage(comments, videoId, page, limit);
      CommentsOfWithUsers(Paginate(NewestFirst(comments, videoId), page, limit), users);
      Ok(200, WithUsers(Paginate(NewestFirst(comments, videoId), page, limit), users), "Comments fetched successfully")
  }

  /** A page of the video's comments is the window of the newest-first list
      that skips the earlier pages' `Offset(page, limit)` comments, that is
      `(page - 1) * limit` (`OffsetIsProduct`), and keeps up to `limit`
      (`Paginate` states the window element by element): it holds that many
      of the video's comments, newest first. */
  lemma VideoCommentsPage(comments: seq<Comment>, videoId: Id, page: nat, limit: nat)
    requires page >= 1 && limit >= 1
    ensures |Paginate(NewestFirst(comments, videoId), page, limit)|
      == Min(limit, Max(0, Count(comments, OnVideo(videoId)) - Offset(page, limit)))
    ensures var shown := Paginate(NewestFirst(comments, videoId), page, limit);
      forall i :: 0 <= i < |shown| ==> shown[i] in comments && shown[i].video == videoId
    ensures var shown := Paginate(NewestFirst(comments, videoId), page, limit);
      forall i, j :: 0 <= i < j < |shown| ==> shown[i].createdAt >= shown[j].createdAt
  {
    var sorted := NewestFirst(comments, videoId);
    PaginateLength(sorted, Count(comments, OnVideo(videoId)), page, limit);
    PaginateKeepsMembers(sorted, page, limit);
    PaginateKeepsSorted(sorted, page, limit, CreatedAtOf, false);
  }

  /** Without `page` and `limit` in the query string the listing is the
      newest `DefaultLimit` comments of the video. */
  lemma DefaultPageIsNewestComments(comments: seq<Comment>, users: map<Id, User>, videoId: Id)
    requires IsValidObjectId(videoId)
    ensures var r := GetVideoComments(comments, users, videoId, DefaultPage, DefaultLimit);
      r.Ok? && CommentsOf(r.value) == NewestFirst(comments, videoId)[..Min(DefaultLimit, Count(comments, OnVideo(videoId)))]
  {
  }

  /** `!text?.trim()`: the text is missing or blank. */
  predicate IsBlank(text: Option<string>) {
    text.None? || Trim(text.value) == ""
  }

  /** `addComment`: the text check comes first (400 when it is missing or
      blank), then the video id check (400); otherwise one comment by the
      actor on the video is appended (201). Whether the video exists is not
      checked. */
  function AddComment(comments: seq<Comment>, actor: Id, videoId: Id, text: Option<string>, newId: Id, now: nat): (r: (seq<Comment>, Response<Comment>))
    ensures IsBlank(text) ==> r == (comments, Err(400, "Comment text is required"))
    ensures !IsBlank(text) && !IsValidObjectId(videoId) ==> r == (comments, Err(400, "Invalid video ID"))
    ensures r.1.Ok? <==> !IsBlank(text) && IsValidObjectId(videoId)
    ensures r.1.Ok? ==> r.1.status == 201 && r.1.message == "Comment added successfully"
    ensures r.1.Ok? ==> r.1.value == Comment(newId, text.value, videoId, actor, now) && r.0 == comments + [r.1.value]
  {
    if IsBlank(text) then (comments, Err(400, "Comment text is required"))
    else if !IsValidObjectId(videoId) then (comments, Err(400, "Invalid video ID"))
    else
      var c := Comment(newId, text.value, videoId, actor, now);
      (comments + [c], Ok(201, c, "Comment added successfully"))
  }

  /** An added comment is listed with the video's comments, after the ones
      that were there, and every other video's comments are unchanged. */
  lemma AddedCommentIsListed(comments: seq<Comment>, actor: Id, videoId: Id, text: Option<string>, newId: Id, now: nat, other: Id)
    requires AddComment(comments, actor, videoId, text, newId, now).1.Ok?
    ensures var r := AddComment(comments, actor, videoId, text, newId, now);
      Filter(r.0, OnVideo(videoId)) == Filter(comments, OnVideo(videoId)) + [r.1.value]
    ensures other != videoId ==>
      Filter(AddComment(comments, actor, videoId, text, newId, now).0, OnVideo(other)) == Filter(comments, OnVideo(other))
  {
    var c := AddComment(comments, actor, videoId, text, newId, now).1.value;
    FilterAppend(comments, [c], OnVideo(videoId));
    FilterAppend(comments, [c], OnVideo(other));
    FilterSingle(c, OnVideo(videoId));
    FilterSingle(c, OnVideo(other));
  }

  /** The filter `{ _id: commentId, user: actor }`. */
  function AuthoredBy(commentId: Id, actor: Id): Comment -> bool {
    (c: Comment) => c.id == commentId && c.user == actor
  }

  /** The update `{ text }`: an undefined `text` is dropped from the update,
      which then changes nothing. */
  function SetText(text: Option<string>): Comment -> Comment {
    (c: Comment) => if text.Some? then c.(text := text.value) else c
  }

  /** `updateComment`: 400 for an invalid id; 404 when the actor has no
      comment with that id; otherwise the comment's text is replaced and the
      updated comment returned (200). The new text is not checked for being
      blank. */
  function UpdateComment(comments: seq<Comment>, actor: Id, commentId: Id, text: Option<string>): (r: (seq<Comment>, Response<Comment>))
    ensures !IsValidObjectId(commentId) ==> r == (comments, Err(400, "Invalid comment ID"))
    ensures r.1.Ok? <==> IsValidObjectId(commentId) && exists i :: 0 <= i < |comments| && comments[i].id == commentId && comments[i].user == actor
    ensures IsValidObjectId(commentId) && r.1.Err? ==> r == (comments, Err(404, "Comment not found or not authorized to update"))
    ensures r.1.Ok? ==> r.1.status == 200 && r.1.message == "Comment updated successfully"
    ensures r.1.Ok? ==>
      exists i :: FirstMatch(comments, AuthoredBy(commentId, actor), i)
                  && r.0 == comments[i := SetText(text)(comments[i])] && r.1.value == r.0[i]
  {
    if !IsValidObjectId(commentId) then (comments, Err(400, "Invalid comment ID"))
    else
      var (after, found) := FindOneAndUpdate(comments, AuthoredBy(commentId, actor), SetText(text));
      if found.None? then (comments, Err(404, "Comment not found or not authorized to update"))
      else (after, Ok(200, found.value, "Comment updated successfully"))
  }

  /** Editing a comment keeps its id, author and video: no video gains or
      loses a comment and the ids stay unique. */
  lemma UpdateKeepsPlacement(comments: seq<Comment>, actor: Id, commentId: Id, text: Option<string>, videoId: Id)
    requires UniqueIds(comments, CommentId)
    ensures var after := UpdateComment(comments, actor, commentId, text).0;
      && |after| == |comments|
      && Count(after, OnVideo(videoId)) == Count(comments, OnVideo(videoId))
      && UniqueIds(after, CommentId)
  {
    var r := UpdateComment(comments, actor, commentId, text);
    if r.1.Ok? {
      var i :| FirstMatch(comments, AuthoredBy(commentId, actor), i)
               && r.0 == comments[i := SetText(text)(comments[i])] && r.1.value == r.0[i];
      var x := SetText(text)(comments[i]);
      CountReplaceSameVerdict(comments, i, x, OnVideo(videoId));
      ReplaceKeepsUnique(comments, CommentId, i, x);
    }
  }

  /** Sending the same edit twice has the effect of sending it once. */
  lemma UpdateIsIdempotent(comments: seq<Comment>, actor: Id, commentId: Id, text: Option<string>)
    ensures var once := UpdateComment(comments, actor, commentId, text);
      var twice := UpdateComment(once.0, actor, commentId, text);
      twice.0 == once.0 && twice.1 == once.1
  {
    var once := UpdateComment(comments, actor, commentId, text);
    if once.1.Ok? {
      var p := AuthoredBy(commentId, actor);
      var i :| FirstMatch(comments, p, i) && once.0 == comments[i := SetText(text)(comments[i])] && once.1.value == once.0[i];
      UpdateAgainChangesNothing(comments, p, SetText(text), i);
    }
  }

  /** `deleteComment`: 400 for an invalid id; 404 when the actor has no
      comment with that id; otherwise that comment is removed (200). */
  function DeleteComment(comments: seq<Comment>, actor: Id, commentId: Id): (r: (seq<Comment>, Response<()>))
    ensures !IsValidObjectId(commentId) ==> r == (comments, Err(400, "Invalid comment ID"))
    ensures r.1.Ok? <==> IsValidObjectId(commentId) && exists i :: 0 <= i < |comments| && comments[i].id == commentId && comments[i].user == actor
    ensures IsValidObjectId(commentId) && r.1.Err? ==> r == (comments, Err(404, "Comment not found or not authorized to delete"))
    ensures r.1.Ok? ==> r.1.status == 200 && r.1.message == "Comment deleted successfully"
    ensures r.1.Ok? ==> exists i :: FirstMatch(comments, AuthoredBy(commentId, actor), i) && r.0 == RemoveAt(comments, i)
  {
    if !IsValidObjectId(commentId) then (comments, Err(400, "Invalid comment ID"))
    else
      var (after, found) := FindOneAndDelete(comments, AuthoredBy(commentId, actor));
      if found.None? then (comments, Err(404, "Comment not found or not authorized to delete"))
      else (after, Ok(200, (), "Comment deleted successfully"))
  }

  /** A successful delete removes exactly the comment with that id; its video
      lists one comment fewer. */
  lemma DeleteRemovesOnlyTarget(comments: seq<Comment>, actor: Id, commentId: Id)
    requires UniqueIds(comments, CommentId)
    requires DeleteComment(comments, actor, commentId).1.Ok?
    ensures var after := DeleteComment(comments, actor, commentId).0;
      && (forall c :: c in after <==> c in comments && c.id != commentId)
      && UniqueIds(after, CommentId)
      && exists c :: c in comments && c.id == commentId && c.user == actor
                     && Count(after, OnVideo(c.video)) == Count(comments, OnVideo(c.video)) - 1
  {
    var after := DeleteComment(comments, actor, commentId).0;
    var i :| FirstMatch(comments, AuthoredBy(commentId, actor), i) && after == RemoveAt(comments, i);
    RemoveAtUniqueId(comments, CommentId, i);
    CountRemoveSelected(comments, i, OnVideo(comments[i].video));
  }
}
