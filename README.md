# Video platform controllers in Dafny

This project models the request handlers of a video-sharing backend, which is an
Express/Mongoose application. Users publish videos, comment on them, like
videos, comments and tweets, post tweets, subscribe to channels, and view a
channel dashboard. The handlers of six controllers are modelled:

- video
- like
- comment
- tweet
- subscription
- dashboard

Each handler is a function from the collections it reads to a `Response`.
A `Response` is either a success status with a payload and a message, or the
status and message of the error the handler throws. A handler that writes also
returns the new collection. The class `Store.Store` holds the collections as
fields, and its methods are the writing handlers as operations on those
fields. Every method but `PublishAVideo` takes its handler's steps on the
fields: check the id, look the record up, then delete, insert or update it.
`PublishAVideo` assigns the collection that `VideoController.PublishAVideo`
returns. Each method ends in the state and
response that the handler's function gives, and keeps the store's invariant
`Valid()`.

Files:

- `common.dfy` has ids, `Option`, `Response`, JavaScript's `trim`, and
  case-insensitive substring search.
- `collections.dfy` has the store queries as functions on sequences:
  - `find` with a filter;
  - `countDocuments`;
  - stable sort on one field;
  - `skip`/`limit`;
  - `findOne`, `findOneAndUpdate` and `findOneAndDelete`;
  - the find-then-delete-or-create toggle.
- `records.dfy` has the documents.
- `video.dfy`, `like.dfy`, `comment.dfy`, `tweet.dfy`, `subscription.dfy` and
  `dashboard.dfy` have one module per controller.
- `store.dfy` has the mutable store.

How the model represents the source:

- An ObjectId is a string of 24 lower-case hexadecimal digits, the spelling
  the database gives every id. The handlers accept exactly these strings as
  ids (`IsValidObjectId`). Two spellings name the same ObjectId when they agree
  ignoring case (`SameObjectId`), and on accepted ids that is string equality
  (`ValidIdsCompareAsStrings`).
- The `_id` and `createdAt` the database assigns to a new record are
  parameters, and the store requires the new `_id` to be unused.
- The upload service's answers for the video file and the thumbnail are
  parameters.
- The authenticated user is the `actor` or `userId` parameter.

Where the code and its documented design differ, the model follows the code:

- `toggleSubscription` answers 400, not a "forbidden" status, to a
  self-subscription.
- Video changes by a non-owner answer 403, while comment and tweet changes
  answer 404.
- No toggle stores a `channel` on a like, so the dashboard's `totalLikes` does
  not count likes on the channel's videos (see Findings).

## Model

| member | source | states |
|---|---|---|
| Common.ValidIdsCompareAsStrings | src/controllers/subscription.controller.js:13-17 | ids the handlers accept are ObjectId strings, and two of them name the same ObjectId exactly when they are equal strings |
| Common.Trim | src/controllers/comment.controller.js:28 | `trim()` yields the empty string exactly when every character is JavaScript whitespace |
| Common.QueryGoScenario | src/controllers/video.controller.js:14-19 | the search "go" matches "Intro to Go" and "Advanced Go" and not "Rust Basics", ignoring case |
| Collections.Filter | src/controllers/tweet.controller.js:28 | `find`: the result holds only selected records, holds every selected record, and is no longer than the collection |
| Collections.Count | src/controllers/dashboard.controller.js:16-18 | `countDocuments` is at most the collection size, and is 0 exactly when no record is selected |
| Collections.SortBy | src/controllers/video.controller.js:26 | `$sort`: the result is ordered in the requested direction and is a permutation of the input |
| Collections.Paginate | src/controllers/video.controller.js:27-28 | `$skip`/`$limit`: page `p` is the window of `limit` records that starts after the records of the earlier pages, truncated at the end |
| Collections.OffsetIsProduct | src/controllers/video.controller.js:27 | the records skipped before page `p` number `(p-1)*limit` |
| Collections.PaginateKeepsMembers | src/controllers/video.controller.js:27-28 | a page holds only records of the listing it is cut from |
| Collections.PaginateKeepsSorted | src/controllers/video.controller.js:26-28 | a page of a sorted listing is sorted |
| Collections.FirstPagesArePrefix | src/controllers/video.controller.js:27-28 | pages 1..n, concatenated, are the listing up to the start of page n+1 |
| Collections.PagesTileTheListing | src/controllers/video.controller.js:27-28 | pages 1..n, concatenated, are exactly the first `n*limit` records: no overlap and no gap |
| Collections.FilterKeepsAll | src/controllers/video.controller.js:13-25 | a `$match` with no clause that fails keeps the whole collection in order |
| Collections.SortedWithoutTiesIsUnique | src/controllers/video.controller.js:26 | two arrangements sorted on the same key, holding the same records with no shared key, are the same sequence |
| Collections.FirstIndex | src/controllers/like.controller.js:15 | `findOne` finds the first match, and finds nothing exactly when no record matches |
| Collections.FindOneAndUpdate | src/controllers/video.controller.js:97 | the first match is replaced by its updated version and returned; without a match nothing changes |
| Collections.FindOneAndDelete | src/controllers/video.controller.js:112 | the first match is removed and returned; without a match nothing changes |
| Collections.Toggle | src/controllers/like.controller.js:15-22 | the first match is deleted, or the new record is appended when there is no match |
| Collections.ToggleFlipsCount | src/controllers/like.controller.js:15-22 | a toggle takes the matching count from 0 to 1, or lowers it by 1 |
| Collections.ToggleKeepsRest | src/controllers/like.controller.js:15-22 | a toggle leaves every non-matching record in place and in order |
| Collections.ToggleTwiceFromAbsent | src/controllers/like.controller.js:15-22 | from the absent state, two toggles restore the collection exactly |
| Collections.ToggleKeepsAll | src/controllers/like.controller.js:15-22 | a property every record has, and the new record has, holds after a toggle |
| Collections.DeleteKeepsUnique | src/controllers/video.controller.js:112 | `findOneAndDelete` keeps `_id`s unique |
| Collections.UpdateKeepsUnique | src/controllers/video.controller.js:97 | `findOneAndUpdate` with an update that keeps the `_id` keeps `_id`s unique |
| Collections.RemoveAtUniqueId | src/controllers/video.controller.js:112 | with unique ids, deleting a record removes exactly the records with its id, and ids stay unique |
| Collections.CountReplaceSameVerdict | src/controllers/comment.controller.js:53-57 | replacing a record with one the filter judges the same way keeps the count |
| Records.SummaryOf | src/controllers/video.controller.js:29-38 | the owner lookup finds a summary exactly when the user exists, and the summary carries that user's id |
| VideoController.SortedMatches | src/controllers/video.controller.js:13-26 | the matching videos in sort order, a permutation of the `$match` result |
| VideoController.GetAllVideos | src/controllers/video.controller.js:10-42 | page size by formula; every row matches the text and owner filters; rows are ordered by the sort field; each owner is that user's summary |
| VideoController.TieFreeOrderIsTheListing | src/controllers/video.controller.js:24-28 | when no two matches share the sort key, every sorted arrangement of the matches is the model's order, so the pages are determined |
| VideoController.DefaultListingIsNewestVideos | src/controllers/video.controller.js:11-28 | with the query string's defaults, the listing is the ten newest videos of the whole catalog |
| VideoController.VideosOfWithOwners | src/controllers/video.controller.js:29-38 | the owner lookup keeps the videos and their order |
| VideoController.PageOfMatches | src/controllers/video.controller.js:24-28 | every page holds matching catalog videos in the requested order |
| VideoController.ListingIsAPage | src/controllers/video.controller.js:24-28 | the listing for page n is the n-th page of one and the same sorted sequence of matches, whatever the page |
| VideoController.PagesListEveryMatchOnce | src/controllers/video.controller.js:24-28 | on an unchanged catalog, pages 1..n together, with n pages enough to hold it, list every matching video exactly once |
| VideoController.EmptyQueryIsNoQuery | src/controllers/video.controller.js:14 | an empty search text gives the same listing as no search text |
| VideoController.InvalidUserIdIsIgnored | src/controllers/video.controller.js:20-22 | an invalid `userId` is ignored, not rejected |
| VideoController.ValidUserIdRestrictsOwner | src/controllers/video.controller.js:20-22 | with a valid `userId`, every listed video is owned by that user |
| VideoController.AddToSet | src/controllers/video.controller.js:84 | `$addToSet` adds the id only if absent, keeps the old history as a prefix, and keeps it duplicate-free |
| VideoController.RecordView | src/controllers/video.controller.js:84 | only the viewer's watch history changes, and a missing viewer changes nothing |
| VideoController.GetVideoById | src/controllers/video.controller.js:73-87 | 400 for a bad id; 404 when no video has the id; otherwise the video with its owner, and the view is recorded |
| VideoController.WatchHistoryIsASet | src/controllers/video.controller.js:84 | watch histories stay duplicate-free, and watching the same video again changes nothing |
| VideoController.PublishAVideo | src/controllers/video.controller.js:44-71 | 400 without both files; 500 when an upload has no URL; otherwise 201 and one appended video with the uploaded URLs, duration and owner |
| VideoController.ApplyPatch | src/controllers/video.controller.js:91-97 | for each of the eight settable fields: a field the update gives takes the given value, and a field it leaves out keeps its value; `_id` and `createdAt` never change; an empty update changes nothing |
| VideoController.PatchTwiceIsPatchOnce | src/controllers/video.controller.js:91-97 | applying the same update twice equals applying it once |
| VideoController.UpdateVideo | src/controllers/video.controller.js:89-103 | 400 for a bad id; 403 unless the actor owns a video with the id; otherwise exactly that video is patched and returned |
| VideoController.DeleteVideo | src/controllers/video.controller.js:105-118 | 400 for a bad id; 403 unless the actor owns the video; otherwise that video is removed |
| VideoController.DeleteVideoRemovesOnlyTarget | src/controllers/video.controller.js:112 | a delete removes exactly the video with the id and nothing else |
| VideoController.TogglePublishStatus | src/controllers/video.controller.js:120-136 | 400 for a bad id; 403 unless the actor owns the video; otherwise only `isPublished` is negated |
| VideoController.TogglePublishTwiceRestores | src/controllers/video.controller.js:132-133 | toggling publication twice restores the catalog |
| LikeController.NewLike | src/controllers/like.controller.js:22 | a created like sets only its own target field and the user, with no `channel` |
| LikeController.ToggleLike | src/controllers/like.controller.js:7-62 | 400 for a bad id; otherwise `liked: true` (201, one like appended) exactly when the user had no like on the target, else `liked: false` (200, the first such like deleted) |
| LikeController.ToggleFlipsPresence | src/controllers/like.controller.js:15-22 | a toggle takes the user's like count on the target from 0 to 1, or lowers it by 1 |
| LikeController.ToggleKeepsOtherLikes | src/controllers/like.controller.js:15-22 | likes of other (user, target) pairs are unchanged and keep their order |
| LikeController.ToggleTwiceRestoresAbsent | src/controllers/like.controller.js:15-22 | like then unlike answers 201 then 200 and restores the collection exactly |
| LikeController.ToggleTwiceRestoresPresent | src/controllers/like.controller.js:15-22 | unlike then like leaves exactly one like on the pair and the other likes unchanged |
| LikeController.RemoveKeepsOneLikePerPair | src/controllers/like.controller.js:17 | deleting a like keeps at most one like per (user, target) |
| LikeController.AppendUnmatchedKeepsOneLikePerPair | src/controllers/like.controller.js:22 | creating a like for a pair that has none keeps at most one like per (user, target) |
| LikeController.ToggleKeepsOneLikePerPair | src/controllers/like.controller.js:15-22 | at most one like per (user, target) is preserved |
| LikeController.PopulateVideo | src/controllers/like.controller.js:68 | `populate("video")` yields the video with the like's id exactly when one exists |
| LikeController.GetLikedVideos | src/controllers/like.controller.js:64-72 | exactly the user's likes that have a `video` field, in collection order, each with its `video` populated exactly when a video with that id exists, and then with that video |
| LikeController.PopulateVideos | src/controllers/like.controller.js:67-69 | one row per like, in order; a row's video is present exactly when the catalog has a video with the like's id, and is then that video |
| CommentController.NewestFirst | src/controllers/comment.controller.js:15-17 | the video's comments, newest first, a permutation of the `find` result |
| CommentController.TieFreeCommentOrder | src/controllers/comment.controller.js:15-17 | when no two of the video's comments share `createdAt`, every newest-first arrangement of them is the model's order |
| CommentController.GetVideoComments | src/controllers/comment.controller.js:7-22 | 400 for a bad id; otherwise the comments listed are exactly page `page` of the video's comments sorted newest first (element `i` is the comment at `(page-1)*limit + i` of that list), each with its author summary; no comments gives an empty page |
| CommentController.CommentsOfWithUsers | src/controllers/comment.controller.js:15-16 | populating the authors keeps the comments and their order |
| CommentController.DefaultPageIsNewestComments | src/controllers/comment.controller.js:9-19 | without `page` and `limit`, the listing is the ten newest comments of the video |
| CommentController.VideoCommentsPage | src/controllers/comment.controller.js:15-19 | a page holds the video's comments, newest first, as many as remain after the earlier pages, up to `limit` |
| CommentController.AddComment | src/controllers/comment.controller.js:24-43 | missing or blank text gives 400 before the id check; a bad id gives 400; otherwise 201 and one comment appended |
| CommentController.AddedCommentIsListed | src/controllers/comment.controller.js:36-40 | the new comment joins its video's comments after the old ones, and other videos' comments are unchanged |
| CommentController.UpdateComment | src/controllers/comment.controller.js:45-64 | 400 for a bad id; 404 unless the actor wrote the comment; otherwise only its text changes (a missing text changes nothing) |
| CommentController.UpdateKeepsPlacement | src/controllers/comment.controller.js:53-57 | an edit keeps every video's comment count and keeps ids unique |
| CommentController.UpdateIsIdempotent | src/controllers/comment.controller.js:53-57 | sending the same edit twice equals sending it once |
| CommentController.DeleteComment | src/controllers/comment.controller.js:66-80 | 400 for a bad id; 404 unless the actor wrote the comment; otherwise it is removed |
| CommentController.DeleteRemovesOnlyTarget | src/controllers/comment.controller.js:73 | exactly the comment with the id is removed, and its video has one comment fewer |
| TweetController.CreateTweet | src/controllers/tweet.controller.js:8-20 | missing content gives a server error; blank content gives 400; otherwise 201 and one tweet appended |
| TweetController.GetUserTweets | src/controllers/tweet.controller.js:22-30 | 400 for a bad id; otherwise all of the user's tweets, newest first |
| TweetController.CreatedTweetIsListed | src/controllers/tweet.controller.js:14-17 | a created tweet joins its author's list, and other users' lists are unchanged |
| TweetController.UpdateTweet | src/controllers/tweet.controller.js:32-51 | 400 for a bad id; 404 unless the actor owns the tweet; otherwise only its content changes |
| TweetController.UpdateKeepsOwnership | src/controllers/tweet.controller.js:40-44 | an edit keeps every user's tweet count and keeps ids unique |
| TweetController.UpdateIsIdempotent | src/controllers/tweet.controller.js:40-44 | sending the same edit twice equals sending it once |
| TweetController.DeleteTweet | src/controllers/tweet.controller.js:53-65 | 400 for a bad id; 404 unless the actor owns the tweet; otherwise it is removed |
| TweetController.DeleteRemovesOnlyTarget | src/controllers/tweet.controller.js:59 | exactly the tweet with the id is removed, and the owner has one tweet fewer |
| SubscriptionController.ToggleSubscription | src/controllers/subscription.controller.js:9-35 | 400 for a bad id; 400 when the channel is the actor, compared as ObjectIds, in any state; otherwise subscribed exactly when not subscribed before, both with 200 |
| SubscriptionController.UpperCaseSelfIdPassesCheck | src/controllers/subscription.controller.js:13-17 | the check as written lets an upper-case spelling of the actor's own id through, although it names the same ObjectId |
| SubscriptionController.SubscribeAppendsToListings | src/controllers/subscription.controller.js:30-55 | a new subscription is appended to the channel's subscriber list and to the actor's channel list; other channels' lists are unchanged |
| SubscriptionController.ToggleFlipsSubscription | src/controllers/subscription.controller.js:21-34 | a toggle flips the pair's count between 0 and 1, and other subscriptions are unchanged |
| SubscriptionController.SubscribeThenUnsubscribe | src/controllers/subscription.controller.js:21-34 | subscribe then unsubscribe restores the collection exactly |
| SubscriptionController.RemoveKeepsWellFormed | src/controllers/subscription.controller.js:28 | a delete keeps subscriptions free of self-subscriptions and duplicates |
| SubscriptionController.RemoveLeavesPairEmpty | src/controllers/subscription.controller.js:28 | in a well-formed collection, unsubscribing leaves no subscription for the pair |
| SubscriptionController.ToggleKeepsWellFormed | src/controllers/subscription.controller.js:17-34 | no subscription of a user to the same ObjectId and at most one subscription per pair are preserved |
| SubscriptionController.GetUserChannelSubscribers | src/controllers/subscription.controller.js:37-47 | 400 for a bad id; otherwise exactly the subscriptions to the channel, as many as `countDocuments` gives |
| SubscriptionController.GetSubscribedChannels | src/controllers/subscription.controller.js:49-55 | exactly the actor's subscriptions, as many as `countDocuments` gives, with no id check |
| SubscriptionController.ListingsAgree | src/controllers/subscription.controller.js:37-55 | a subscription is in its channel's list exactly when it is in its subscriber's list |
| SubscriptionController.ToggleShowsInListings | src/controllers/subscription.controller.js:21-47 | after a toggle, the actor is listed among the channel's subscribers exactly when now subscribed |
| DashboardController.SumViews | src/controllers/dashboard.controller.js:21 | `$sum` over no videos is 0 |
| DashboardController.SumViewsAppend | src/controllers/dashboard.controller.js:21 | the sum over two groups of videos adds up |
| DashboardController.SumViewsRemove | src/controllers/dashboard.controller.js:21 | removing one video removes its views from the sum |
| DashboardController.SumViewsPermutation | src/controllers/dashboard.controller.js:19-22 | the views total does not depend on the order of the videos |
| DashboardController.TotalViews | src/controllers/dashboard.controller.js:19-28 | the channel's views total is the sum of the views of the videos it owns, and 0 without videos |
| DashboardController.GetChannelStats | src/controllers/dashboard.controller.js:9-30 | 400 for a bad id; otherwise videos owned, subscriptions to the channel, likes tagged with the channel, and the sum of the views of the channel's videos |
| DashboardController.PublishAddsToStats | src/controllers/dashboard.controller.js:16-28 | a new video adds 1 to `totalVideos` and its views to `totalViews` |
| DashboardController.EmptyChannelStats | src/controllers/dashboard.controller.js:9-30 | a channel with no records (even a nonexistent user) gets all-zero stats |
| DashboardController.ToggleKeepsNoChannelTags | src/controllers/like.controller.js:22 | like toggles never create a like carrying a `channel` |
| DashboardController.UntaggedLikesAreNotCounted | src/controllers/dashboard.controller.js:18 | without channel-tagged likes, `totalLikes` is 0 for every channel |
| DashboardController.LikedVideoNotCounted | src/controllers/dashboard.controller.js:18 | after a viewer likes a channel's only video, `totalLikes` is 0 although the channel's video has one like |
| DashboardController.ChannelLikes | src/controllers/dashboard.controller.js:18 | the likes on the channel's videos: 0 exactly when none of the likes is on one of them |
| DashboardController.GetChannelStatsIntended | src/controllers/dashboard.controller.js:9-30 | the stats with `totalLikes` equal to the likes on the channel's videos, otherwise identical |
| DashboardController.LikingChannelVideoCounts | src/controllers/dashboard.controller.js:18 | with the intended count, a first like on a channel's video raises `totalLikes` by 1 |
| DashboardController.GetChannelVideos | src/controllers/dashboard.controller.js:32-47 | 400 for a bad id; otherwise the videos listed are exactly page `page` of the channel's videos sorted newest first (element `i` is the video at `(page-1)*limit + i` of that list), each with the owner summary |
| DashboardController.ChannelPage | src/controllers/dashboard.controller.js:40-43 | a page holds the channel's videos, newest first, as many as remain after the earlier pages, up to `limit` |
| DashboardController.ChannelNewestFirst | src/controllers/dashboard.controller.js:40-41 | the channel's videos, newest first, a permutation of the `find` result |
| DashboardController.TieFreeChannelOrder | src/controllers/dashboard.controller.js:40-41 | when no two of the channel's videos share `createdAt`, every newest-first arrangement of them is the model's order |
| DashboardController.ChannelVideosAgreeWithStats | src/controllers/dashboard.controller.js:16-47 | a page large enough lists `totalVideos` videos whose views add up to `totalViews` |
| Store.ToggleLikeKeepsValid | src/controllers/like.controller.js:15-22 | like toggles keep unique ids, one like per pair, and no channel tags |
| Store.ToggleSubscriptionKeepsValid | src/controllers/subscription.controller.js:21-34 | the subscription toggle keeps unique ids, no self-subscription and no duplicates |
| Store.ToggleLikeByLookup | src/controllers/like.controller.js:15-22 | the toggle is `findOne` followed by a delete of the like found or a create |
| Store.ToggleSubscriptionByLookup | src/controllers/subscription.controller.js:21-34 | the toggle is `findOne` followed by a delete of the subscription found or a create |
| Store.Store.GetVideoById | src/controllers/video.controller.js:73-87 | the user map and the answer are those of the handler; only users change; the store stays valid |
| Store.Store.PublishAVideo | src/controllers/video.controller.js:44-71 | the videos and the answer are those of the handler; the store stays valid |
| Store.Store.UpdateVideo | src/controllers/video.controller.js:89-103 | the videos and the answer are those of the handler; the store stays valid |
| Store.Store.DeleteVideo | src/controllers/video.controller.js:105-118 | the videos and the answer are those of the handler; the store stays valid |
| Store.Store.TogglePublishStatus | src/controllers/video.controller.js:120-136 | the flag flip and save, as the handler does them; the store stays valid |
| Store.Store.ToggleLike | src/controllers/like.controller.js:7-62 | `findOne` followed by a delete or a create, as the handler does them; the store stays valid |
| Store.Store.AddComment | src/controllers/comment.controller.js:24-43 | the comments and the answer are those of the handler; the store stays valid |
| Store.Store.UpdateComment | src/controllers/comment.controller.js:45-64 | the comments and the answer are those of the handler; the store stays valid |
| Store.Store.DeleteComment | src/controllers/comment.controller.js:66-80 | the comments and the answer are those of the handler; the store stays valid |
| Store.Store.CreateTweet | src/controllers/tweet.controller.js:8-20 | the tweets and the answer are those of the handler; the store stays valid |
| Store.Store.UpdateTweet | src/controllers/tweet.controller.js:32-51 | the tweets and the answer are those of the handler; the store stays valid |
| Store.Store.DeleteTweet | src/controllers/tweet.controller.js:53-65 | the tweets and the answer are those of the handler; the store stays valid |
| Store.Store.ToggleSubscription | src/controllers/subscription.controller.js:9-35 | `findOne` followed by a delete or a create, as the handler does them; the store stays valid |
| Store.Store.GetChannelStats | src/controllers/dashboard.controller.js:9-30 | on any valid store, the reported `totalLikes` of every channel is 0 |

## Left out

- HTTP plumbing is not modelled: routing, the authentication middleware, the response envelope and the `asyncHandler` error mapping. A thrown `ApiError` becomes an `Err` with its status and message.
- `$regex` is modelled as a plain case-insensitive substring test. Regular-expression metacharacters and case folding beyond ASCII letters are not.
- `isValidObjectId` also accepts upper-case hexadecimal, some 12-character strings and ObjectId instances; the model accepts only the 24 lower-case hexadecimal digits the database itself produces. Casting other spellings to ObjectIds is not modelled.
- `VideoController.GetAllVideos` and `VideoController.InvalidUserIdIsIgnored`: a `userId` of 24 hexadecimal digits with upper-case letters counts as invalid in the model, so the owner filter is dropped and every owner's videos are listed. The handler accepts it, casts it to the owner's ObjectId and lists only that owner's videos.
- `LikeController.ToggleLike`, `SubscriptionController.ToggleSubscription` and `SubscriptionController.ToggleKeepsWellFormed`: an id spelled in upper case is answered 400 in the model, while the handlers accept it and the database stores the same ObjectId as for the lower-case spelling. A like toggled once in each spelling is therefore not covered.
- `VideoController.ListingIsAPage`, `VideoController.PagesListEveryMatchOnce`, `CommentController.GetVideoComments`, `CommentController.VideoCommentsPage`, `DashboardController.GetChannelVideos` and `DashboardController.ChannelPage`: records with equal sort keys (for the comment and channel listings, equal `createdAt`) keep their collection order in the model, while the database leaves their order open, so with ties two requests may order the records differently and a page may repeat or miss one. `VideoController.TieFreeOrderIsTheListing`, `CommentController.TieFreeCommentOrder` and `DashboardController.TieFreeChannelOrder` show that the pages are determined when no two records share the key.
- `DashboardController.ChannelLikes`: the intended count covers likes on the channel's videos; likes on its comments and tweets are not counted.
- Query-string coercion is not modelled: `page` and `limit` are taken as numbers of at least 1. Strings, zero and negative values are not covered.
- `sortBy` is modelled only for `createdAt`, `views` and `duration`, not for arbitrary fields.
- `duration` is a natural number; the upload service's floating-point durations are not modelled.
- Concurrency is not modelled. Each handler runs atomically, so two toggles racing between `findOne` and the write are not covered.
- Schema defaults, validation and `timestamps` are not modelled, because src/models/ is not part of this model. A new video starts with 0 views and published, and `updatedAt` is not modelled.
- `VideoController.ApplyPatch`: the update body may set the eight stored video fields, including `owner`. Fields outside the schema and attempts to change `_id` are not modelled.
- `SubscriptionController.GetUserChannelSubscribers` and `SubscriptionController.GetSubscribedChannels` return the subscription records. The `populate(..., "name email")` projection of the counterpart user is not modelled.
- The upload service (`uploadOnCloudinary`) is a parameter. A `null` result, which would throw in the handler, is not modelled.
- No deletion cascades: deleting a video leaves its comments and likes in place, as the code does.
- No handler increments `views`, so view counts change only through `updateVideo`.
- `TweetController.CreateTweet`: a missing `content` throws a `TypeError` in the handler. The model answers 500 with the engine's message for it, and a non-string `content` is not modelled.

## Findings

| source | as written | input that shows it | evidently intended | confidence | as-written member | corrected member |
|---|---|---|---|---|---|---|
| src/controllers/dashboard.controller.js:18 | `totalLikes` counts likes whose `channel` field equals the channel, but no like toggle (like.controller.js:22, 41, 60) ever sets `channel` | a channel owns one video; a viewer toggles a like on it; `getChannelStats` reports `totalLikes` 0 | `totalLikes` counts the likes on the channel's videos | not executed | DashboardController.LikedVideoNotCounted | DashboardController.GetChannelStatsIntended |
| src/controllers/subscription.controller.js:17 | the self-subscription check compares the actor's id string and `channelId` with `===`, after `isValidObjectId` accepted `channelId` in either case | the actor `aaaaaaaaaaaaaaaaaaaaaaaa` toggles a subscription to `AAAAAAAAAAAAAAAAAAAAAAAA`: the check passes and the actor subscribes to themself | the check compares the two as ObjectIds | not executed | SubscriptionController.UpperCaseSelfIdPassesCheck | SubscriptionController.ToggleSubscription |
