/** The tweet handlers: create, the newest-first list of a user's tweets, and
    the owner-scoped edit and delete. */
module TweetController {
  import opened Common
  import opened Collections
  import opened Records

  /** The filter `{ owner: userId }`. */
  function OwnedTweet(userId: Id): Tweet -> bool {
    (t: Tweet) => t.owner == userId
  }

  function TweetCreatedAt(t: Tweet): nat { t.createdAt }

  function TweetId(t: Tweet): Id { t.id }

  /** The status and message `content.trim()` ends in when the body has no
      `content`: reading `trim` of `undefined` throws a `TypeError`, which is
      not an `ApiError` and is answered as a server error. */
  const MissingContentStatus: nat := 500
  const MissingContentMessage := "Cannot read properties of undefined (reading 'trim')"

  /** `createTweet`: a missing content is a server error, a blank one is
      rejected (400); otherwise one tweet by the actor is appended (201). */
  function CreateTweet(tweets: seq<Tweet>, actor: Id, content: Option<string>, newId: Id, now: nat): (r: (seq<Tweet>, Response<Tweet>))
    ensures content.None? ==> r == (tweets, Err(MissingContentStatus, MissingContentMessage))
    ensures content.Some? && Trim(content.value) == "" ==> r == (tweets, Err(400, "Tweet content cannot be empty"))
    ensures r.1.Ok? <==> content.Some? && exists i :: 0 <= i < |content.value| && !IsJsWhitespace(content.value[i])
    ensures r.1.Ok? ==> r.1.status == 201 && r.1.message == "Tweet created successfully"
    ensures r.1.Ok? ==> r.1.value == Tweet(newId, content.value, actor, now) && r.0 == tweets + [r.1.value]
  {
    if content.None? then (tweets, Err(MissingContentStatus, MissingContentMessage))
    else if Trim(content.value) == "" then (tweets, Err(400, "Tweet content cannot be empty"))
    else
      var t := Tweet(newId, content.value, actor, now);
      (tweets + [t], Ok(201, t, "Tweet created successfully"))
  }

  /** `getUserTweets`: 400 for an invalid user id; otherwise all of the
      user's tweets, newest first, without paging. */
  function GetUserTweets(tweets: seq<Tweet>, userId: Id): (r: Response<seq<Tweet>>)
    ensures !IsValidObjectId(userId) ==> r == Err(400, "Invalid user ID")
    ensures IsValidObjectId(userId) ==> r.Ok? && r.status == 200 && r.message == "User tweets fetched successfully"
    ensures r.Ok? ==> multiset(r.value) == multiset(Filter(tweets, OwnedTweet(userId)))
    ensures r.Ok? ==> forall i :: 0 <= i < |r.value| ==> r.value[i] in tweets && r.value[i].owner == userId
    ensures r.Ok? ==> forall i, j :: 0 <= i < j < |r.value| ==> r.value[i].createdAt >= r.value[j].createdAt
  {
    if !IsValidObjectId(userId) then Err(400, "Invalid user ID")
    else
      SortedSelectionMembers(tweets, OwnedTweet(userId), TweetCreatedAt, false);
      var sorted := SortBy(Filter(tweets, OwnedTweet(userId)), TweetCreatedAt, false);
      assert forall i, j :: 0 <= i < j < |sorted| ==> InOrder(TweetCreatedAt(sorted[i]), TweetCreatedAt(sorted[j]), false);
      Ok(200, sorted, "User tweets fetched successfully")
  }

  /** A created tweet shows up in its author's list: the list grows by that
      tweet, and no other user's list changes. */
  lemma CreatedTweetIsListed(tweets: seq<Tweet>, actor: Id, content: Option<string>, newId: Id, now: nat, userId: Id)
    requires CreateTweet(tweets, actor, content, newId, now).1.Ok? && IsValidObjectId(userId)
    ensures var r := CreateTweet(tweets, actor, content, newId, now);
      var before := GetUserTweets(tweets, userId).value;
      var after := GetUserTweets(r.0, userId).value;
      if userId == actor then multiset(after) == multiset(before) + multiset{r.1.value}
      else multiset(after) == multiset(before)
  {
    var t := CreateTweet(tweets, actor, content, newId, now).1.value;
    var mine := Filter(tweets, OwnedTweet(userId));
    FilterAppend(tweets, [t], OwnedTweet(userId));
    FilterSingle(t, OwnedTweet(userId));
    if userId == actor {
      assert Filter(tweets + [t], OwnedTweet(userId)) == mine + [t];
      assert multiset(mine + [t]) == multiset(mine) + multiset{t};
    } else {
      assert Filter(tweets + [t], OwnedTweet(userId)) == mine + [];
      assert mine + [] == mine;
    }
  }

  /** The filter `{ _id: tweetId, owner: actor }`. */
  function OwnTweet(tweetId: Id, actor: Id): Tweet -> bool {
    (t: Tweet) => t.id == tweetId && t.owner == actor
  }

  /** The update `{ content }`: an undefined `content` is dropped from the
      update, which then changes nothing. */
  function SetContent(content: Option<string>): Tweet -> Tweet {
    (t: Tweet) => if content.Some? then t.(content := content.value) else t
  }

  /** `updateTweet`: 400 for an invalid id; 404 when the actor has no tweet
      with that id; otherwise its content is replaced and the updated tweet
      returned (200). The new content is not checked for being blank. */
  function UpdateTweet(tweets: seq<Tweet>, actor: Id, tweetId: Id, content: Option<string>): (r: (seq<Tweet>, Response<Tweet>))
    ensures !IsValidObjectId(tweetId) ==> r == (tweets, Err(400, "Invalid tweet ID"))
    ensures r.1.Ok? <==> IsValidObjectId(tweetId) && exists i :: 0 <= i < |tweets| && tweets[i].id == tweetId && tweets[i].owner == actor
    ensures IsValidObjectId(tweetId) && r.1.Err? ==> r == (tweets, Err(404, "Tweet not found or unauthorized to update"))
    ensures r.1.Ok? ==> r.1.status == 200 && r.1.message == "Tweet updated successfully"
    ensures r.1.Ok? ==>
      exists i :: FirstMatch(tweets, OwnTweet(tweetId, actor), i)
                  && r.0 == tweets[i := SetContent(content)(tweets[i])] && r.1.value == r.0[i]
  {
    if !IsValidObjectId(tweetId) then (tweets, Err(400, "Invalid tweet ID"))
    else
      var (after, found) := FindOneAndUpdate(tweets, OwnTweet(tweetId, actor), SetContent(content));
      if found.None? then (tweets, Err(404, "Tweet not found or unauthorized to update"))
      else (after, Ok(200, found.value, "Tweet updated successfully"))
  }

  /** Editing a tweet keeps its id and owner: every user keeps the same
      number of tweets and the ids stay unique. */
  lemma UpdateKeepsOwnership(tweets: seq<Tweet>, actor: Id, tweetId: Id, content: Option<string>, userId: Id)
    requires UniqueIds(tweets, TweetId)
    ensures var after := UpdateTweet(tweets, actor, tweetId, content).0;
      && |after| == |tweets|
      && Count(after, OwnedTweet(userId)) == Count(tweets, OwnedTweet(userId))
      && UniqueIds(after, TweetId)
  {
    var r := UpdateTweet(tweets, actor, tweetId, content);
    if r.1.Ok? {
      var i :| FirstMatch(tweets, OwnTweet(tweetId, actor), i)
               && r.0 == tweets[i := SetContent(content)(tweets[i])] && r.1.value == r.0[i];
      var x := SetContent(content)(tweets[i]);
      CountReplaceSameVerdict(tweets, i, x, OwnedTweet(userId));
      ReplaceKeepsUnique(tweets, TweetId, i, x);
    }
  }

  /** Sending the same edit twice has the effect of sending it once. */
  lemma UpdateIsIdempotent(tweets: seq<Tweet>, actor: Id, tweetId: Id, content: Option<string>)
    ensures var once := UpdateTweet(tweets, actor, tweetId, content);
      var twice := UpdateTweet(once.0, actor, tweetId, content);
      twice.0 == once.0 && twice.1 == once.1
  {
    var once := UpdateTweet(tweets, actor, tweetId, content);
    if once.1.Ok? {
      var p := OwnTweet(tweetId, actor);
      var i :| FirstMatch(tweets, p, i) && once.0 == tweets[i := SetContent(content)(tweets[i])] && once.1.value == once.0[i];
      UpdateAgainChangesNothing(tweets, p, SetContent(content), i);
    }
  }

  /** `deleteTweet`: 400 for an invalid id; 404 when the actor has no tweet
      with that id; otherwise that tweet is removed (200). */
  function DeleteTweet(tweets: seq<Tweet>, actor: Id, tweetId: Id): (r: (seq<Tweet>, Response<()>))
    ensures !IsValidObjectId(tweetId) ==> r == (tweets, Err(400, "Invalid tweet ID"))
    ensures r.1.Ok? <==> IsValidObjectId(tweetId) && exists i :: 0 <= i < |tweets| && tweets[i].id == tweetId && tweets[i].owner == actor
    ensures IsValidObjectId(tweetId) && r.1.Err? ==> r == (tweets, Err(404, "Tweet not found or unauthorized to delete"))
    ensures r.1.Ok? ==> r.1.status == 200 && r.1.message == "Tweet deleted successfully"
    ensures r.1.Ok? ==> exists i :: FirstMatch(tweets, OwnTweet(tweetId, actor), i) && r.0 == RemoveAt(tweets, i)
  {
    if !IsValidObjectId(tweetId) then (tweets, Err(400, "Invalid tweet ID"))
    else
      var (after, found) := FindOneAndDelete(tweets, OwnTweet(tweetId, actor));
      if found.None? then (tweets, Err(404, "Tweet not found or unauthorized to delete"))
      else (after, Ok(200, (), "Tweet deleted successfully"))
  }

  /** A successful delete removes exactly the tweet with that id, and the
      actor has one tweet fewer. */
  lemma DeleteRemovesOnlyTarget(tweets: seq<Tweet>, actor: Id, tweetId: Id)
    requires UniqueIds(tweets, TweetId)
    requires DeleteTweet(tweets, actor, tweetId).1.Ok?
    ensures var after := DeleteTweet(tweets, actor, tweetId).0;
      && (forall t :: t in after <==> t in tweets && t.id != tweetId)
      && UniqueIds(after, TweetId)
      && Count(after, OwnedTweet(actor)) == Count(tweets, OwnedTweet(actor)) - 1
  {
    var after := DeleteTweet(tweets, actor, tweetId).0;
    var i :| FirstMatch(tweets, OwnTweet(tweetId, actor), i) && after == RemoveAt(tweets, i);
    RemoveAtUniqueId(tweets, TweetId, i);
    CountRemoveSelected(tweets, i, OwnedTweet(actor));
  }
}
