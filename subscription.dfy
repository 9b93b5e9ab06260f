/** The subscription handlers: the subscribe/unsubscribe toggle and the two
    listings, subscribers of a channel and channels of a subscriber. */
module SubscriptionController {
  import opened Common
  import opened Collections
  import opened Records

  /** The filter `{ channel: channelId, subscriber: subscriberId }`. */
  function SubscriptionOf(subscriberId: Id, channelId: Id): Subscription -> bool {
    (s: Subscription) => s.channel == channelId && s.subscriber == subscriberId
  }

  /** The self-subscription check as the handler writes it: the route's
      `channelId` string compared by `===` with the actor's id string. */
  predicate SelfCheckAsWritten(subscriberId: Id, channelId: Id) {
    channelId == subscriberId
  }

  /** The as-written check lets an upper-case spelling of the actor's own id
      through, although `isValidObjectId` accepts it and Mongoose casts it to
      the actor's ObjectId, so the subscription stored names the actor twice. */
  lemma UpperCaseSelfIdPassesCheck()
    ensures var actor, channel := seq(24, _ => 'a'), seq(24, _ => 'A');
      && IsObjectIdString(channel) && IsValidObjectId(actor)
      && !SelfCheckAsWritten(actor, channel) && SameObjectId(actor, channel)
  {
    var actor, channel := seq(24, _ => 'a'), seq(24, _ => 'A');
    assert channel[0] != actor[0];
    assert Lower(channel) == actor;
  }

  /** `toggleSubscription`: 400 for an invalid channel id, then 400 when the
      actor names their own channel, whatever the subscription state; then
      the subscription is deleted when it exists and created otherwise, both
      answered with 200. The payload says whether the actor is now
      subscribed. The self check compares ObjectIds (`SameObjectId`), the
      evident intent of the handler's string comparison. */
  function ToggleSubscription(subs: seq<Subscription>, subscriberId: Id, channelId: Id, newId: Id): (r: (seq<Subscription>, Response<bool>))
    ensures !IsValidObjectId(channelId) ==> r == (subs, Err(400, "Invalid channel ID"))
    ensures IsValidObjectId(channelId) && SameObjectId(subscriberId, channelId) ==> r == (subs, Err(400, "You cannot subscribe to yourself"))
    ensures r.1.Ok? <==> IsValidObjectId(channelId) && !SameObjectId(subscriberId, channelId)
    ensures r.1.Ok? ==> r.1.status == 200
    ensures r.1.Ok? ==> (r.1.value <==> forall j :: 0 <= j < |subs| ==> !SubscriptionOf(subscriberId, channelId)(subs[j]))
    ensures r.1.Ok? && r.1.value ==>
      r.0 == subs + [Subscription(newId, subscriberId, channelId)] && r.1.message == "Subscribed successfully"
    ensures r.1.Ok? && !r.1.value ==>
      r.1.message == "Unsubscribed successfully"
      && exists i :: FirstMatch(subs, SubscriptionOf(subscriberId, channelId), i) && r.0 == RemoveAt(subs, i)
  {
    if !IsValidObjectId(channelId) then (subs, Err(400, "Invalid channel ID"))
    else if SameObjectId(subscriberId, channelId) then (subs, Err(400, "You cannot subscribe to yourself"))
    else
      var (after, subscribed) := Toggle(subs, SubscriptionOf(subscriberId, channelId), Subscription(newId, subscriberId, channelId));
      if subscribed then (after, Ok(200, true, "Subscribed successfully"))
      else (after, Ok(200, false, "Unsubscribed successfully"))
  }

  /** How many subscriptions the subscriber holds to the channel. */
  function SubscriptionCount(subs: seq<Subscription>, subscriberId: Id, channelId: Id): nat {
    Count(subs, SubscriptionOf(subscriberId, channelId))
  }

  /** An accepted toggle flips the pair between unsubscribed and subscribed,
      and leaves every other subscription, in order, as it was. */
  lemma ToggleFlipsSubscription(subs: seq<Subscription>, subscriberId: Id, channelId: Id, newId: Id)
    requires IsValidObjectId(channelId) && !SameObjectId(subscriberId, channelId)
    ensures var after := ToggleSubscription(subs, subscriberId, channelId, newId).0;
      && (SubscriptionCount(subs, subscriberId, channelId) == 0 ==> SubscriptionCount(after, subscriberId, channelId) == 1)
      && (SubscriptionCount(subs, subscriberId, channelId) > 0 ==>
            SubscriptionCount(after, subscriberId, channelId) == SubscriptionCount(subs, subscriberId, channelId) - 1)
      && Filter(after, Not(SubscriptionOf(subscriberId, channelId))) == Filter(subs, Not(SubscriptionOf(subscriberId, channelId)))
  {
    var added := Subscription(newId, subscriberId, channelId);
    ToggleFlipsCount(subs, SubscriptionOf(subscriberId, channelId), added);
    ToggleKeepsRest(subs, SubscriptionOf(subscriberId, channelId), added);
  }

  /** Subscribing and then unsubscribing restores the collection exactly. */
  lemma SubscribeThenUnsubscribe(subs: seq<Subscription>, subscriberId: Id, channelId: Id, newId: Id, newId': Id)
    requires IsValidObjectId(channelId) && !SameObjectId(subscriberId, channelId)
    requires SubscriptionCount(subs, subscriberId, channelId) == 0
    ensures var once := ToggleSubscription(subs, subscriberId, channelId, newId);
      var twice := ToggleSubscription(once.0, subscriberId, channelId, newId');
      once.1 == Ok(200, true, "Subscribed successfully")
      && twice.1 == Ok(200, false, "Unsubscribed successfully") && twice.0 == subs
  {
    ToggleTwiceFromAbsent(subs, SubscriptionOf(subscriberId, channelId),
      Subscription(newId, subscriberId, channelId), Subscription(newId', subscriberId, channelId));
  }

  /** The invariant the toggle keeps: no one subscribes to their own channel,
      under any spelling of its id, and no pair is recorded twice. */
  predicate WellFormed(subs: seq<Subscription>) {
    && (forall i :: 0 <= i < |subs| ==> !SameObjectId(subs[i].subscriber, subs[i].channel))
    && (forall i, j :: 0 <= i < j < |subs| ==>
          subs[i].subscriber != subs[j].subscriber || subs[i].channel != subs[j].channel)
  }

  lemma RemoveKeepsWellFormed(subs: seq<Subscription>, i: nat)
    requires WellFormed(subs) && i < |subs|
    ensures WellFormed(RemoveAt(subs, i))
  {
    var after := RemoveAt(subs, i);
    forall a, b | 0 <= a < b < |after|
      ensures after[a].subscriber != after[b].subscriber || after[a].channel != after[b].channel
    {
      var a' := if a < i then a else a + 1;
      var b' := if b < i then b else b + 1;
      assert after[a] == subs[a'] && after[b] == subs[b'] && a' < b';
    }
  }

  /** In a well-formed collection the subscription at `i` is the only one of
      its pair: once it is removed, the pair has none. */
  lemma RemoveLeavesPairEmpty(subs: seq<Subscription>, i: nat)
    requires WellFormed(subs) && i < |subs|
    ensures forall x :: x in RemoveAt(subs, i) ==> x.subscriber != subs[i].subscriber || x.channel != subs[i].channel
  {
    var after := RemoveAt(subs, i);
    forall x | x in after ensures x.subscriber != subs[i].subscriber || x.channel != subs[i].channel {
      var j :| 0 <= j < |after| && after[j] == x;
      if j < i {
        assert subs[j] == x;
      } else {
        assert subs[j + 1] == x;
      }
    }
  }

  /** The toggle keeps the collection well formed. */
  lemma ToggleKeepsWellFormed(subs: seq<Subscription>, subscriberId: Id, channelId: Id, newId: Id)
    requires WellFormed(subs)
    ensures WellFormed(ToggleSubscription(subs, subscriberId, channelId, newId).0)
  {
    var r := ToggleSubscription(subs, subscriberId, channelId, newId);
    if r.1.Ok? && !r.1.value {
      var i :| FirstMatch(subs, SubscriptionOf(subscriberId, channelId), i) && r.0 == RemoveAt(subs, i);
      RemoveKeepsWellFormed(subs, i);
    } else if r.1.Ok? {
      forall a | 0 <= a < |subs|
        ensures subs[a].subscriber != subscriberId || subs[a].channel != channelId
      {
        assert !SubscriptionOf(subscriberId, channelId)(subs[a]);
      }
    }
  }

  /** The filter `{ channel: channelId }`. */
  function ToChannel(channelId: Id): Subscription -> bool {
    (s: Subscription) => s.channel == channelId
  }

  /** The filter `{ subscriber: subscriberId }`. */
  function BySubscriber(subscriberId: Id): Subscription -> bool {
    (s: Subscription) => s.subscriber == subscriberId
  }

  /** `getUserChannelSubscribers`: 400 for an invalid channel id; otherwise
      every subscription to the channel, in store order. */
  function GetUserChannelSubscribers(subs: seq<Subscription>, channelId: Id): (r: Response<seq<Subscription>>)
    ensures !IsValidObjectId(channelId) ==> r == Err(400, "Invalid channel ID")
    ensures IsValidObjectId(channelId) ==> r.Ok? && r.status == 200 && r.message == "Subscribers retrieved successfully"
    ensures r.Ok? ==> forall i :: 0 <= i < |r.value| ==> r.value[i] in subs && r.value[i].channel == channelId
    ensures r.Ok? ==> forall j :: 0 <= j < |subs| && subs[j].channel == channelId ==> subs[j] in r.value
    ensures r.Ok? ==> |r.value| == Count(subs, ToChannel(channelId))
  {
    if !IsValidObjectId(channelId) then Err(400, "Invalid channel ID")
    else
      var r := Filter(subs, ToChannel(channelId));
      assert forall j :: 0 <= j < |subs| && subs[j].channel == channelId ==> ToChannel(channelId)(subs[j]);
      Ok(200, r, "Subscribers retrieved successfully")
  }

  /** `getSubscribedChannels`: every subscription the actor holds, in store
      order; the actor's id is not checked. */
  function GetSubscribedChannels(subs: seq<Subscription>, subscriberId: Id): (r: Response<seq<Subscription>>)
    ensures r.Ok? && r.status == 200 && r.message == "Subscribed channels retrieved successfully"
    ensures forall i :: 0 <= i < |r.value| ==> r.value[i] in subs && r.value[i].subscriber == subscriberId
    ensures forall j :: 0 <= j < |subs| && subs[j].subscriber == subscriberId ==> subs[j] in r.value
    ensures |r.value| == Count(subs, BySubscriber(subscriberId))
  {
    var r := Filter(subs, BySubscriber(subscriberId));
    assert forall j :: 0 <= j < |subs| && subs[j].subscriber == subscriberId ==> BySubscriber(subscriberId)(subs[j]);
    Ok(200, r, "Subscribed channels retrieved successfully")
  }

  /** The two listings describe the same relation: a subscription appears
      among the channel's subscribers exactly when it appears among the
      subscriber's channels. */
  lemma ListingsAgree(subs: seq<Subscription>, s: Subscription)
    requires IsValidObjectId(s.channel)
    ensures s in GetUserChannelSubscribers(subs, s.channel).value <==> s in GetSubscribedChannels(subs, s.subscriber).value
  {
    if s in subs {
      var j :| 0 <= j < |subs| && subs[j] == s;
    }
  }

  /** After subscribing, the actor is listed among the channel's subscribers
      and the channel among the actor's channels; after unsubscribing, in a
      well-formed collection, neither is. */
  lemma ToggleShowsInListings(subs: seq<Subscription>, subscriberId: Id, channelId: Id, newId: Id)
    requires WellFormed(subs)
    requires IsValidObjectId(channelId) && !SameObjectId(subscriberId, channelId)
    ensures var r := ToggleSubscription(subs, subscriberId, channelId, newId);
      var listed := GetUserChannelSubscribers(r.0, channelId).value;
      r.1.value <==> exists k :: 0 <= k < |listed| && listed[k].subscriber == subscriberId
  {
    var r := ToggleSubscription(subs, subscriberId, channelId, newId);
    var listed := GetUserChannelSubscribers(r.0, channelId).value;
    if r.1.value {
      var added := Subscription(newId, subscriberId, channelId);
      assert r.0[|subs|] == added;
      var k :| 0 <= k < |listed| && listed[k] == added;
    } else {
      var i :| FirstMatch(subs, SubscriptionOf(subscriberId, channelId), i) && r.0 == RemoveAt(subs, i);
      RemoveLeavesPairEmpty(subs, i);
    }
  }

  /** A subscribing toggle adds the new subscription at the end of both
      listings and leaves the rest of each listing as it was, in order; every
      other channel's subscribers are unchanged. */
  lemma SubscribeAppendsToListings(subs: seq<Subscription>, subscriberId: Id, channelId: Id, newId: Id, other: Id)
    requires ToggleSubscription(subs, subscriberId, channelId, newId).1 == Ok(200, true, "Subscribed successfully")
    ensures var after := ToggleSubscription(subs, subscriberId, channelId, newId).0;
      var added := Subscription(newId, subscriberId, channelId);
      && GetUserChannelSubscribers(after, channelId).value == GetUserChannelSubscribers(subs, channelId).value + [added]
      && GetSubscribedChannels(after, subscriberId).value == GetSubscribedChannels(subs, subscriberId).value + [added]
      && (IsValidObjectId(other) && other != channelId ==>
            GetUserChannelSubscribers(after, other).value == GetUserChannelSubscribers(subs, other).value)
  {
    var added := Subscription(newId, subscriberId, channelId);
    FilterAppend(subs, [added], ToChannel(channelId));
    FilterSingle(added, ToChannel(channelId));
    FilterAppend(subs, [added], BySubscriber(subscriberId));
    FilterSingle(added, BySubscriber(subscriberId));
    FilterAppend(subs, [added], ToChannel(other));
    FilterSingle(added, ToChannel(other));
  }
}
