/** `subscriber.controller.js`: the subscription toggle and the two subscription lists. */
module SubscriptionController {
  import opened Common
  import opened Seqs
  import opened UserModel
  import opened SubscriptionModel

  /** At most one record per (subscriber, channel) pair. No index enforces it; the toggle
      keeps it. */
  ghost predicate NoDuplicatePairs(rows: seq<Subscription>)
  {
    forall i, j :: 0 <= i < j < |rows| ==>
      !IsPair(rows[j], rows[i].subscriber, rows[i].channel)
  }

  /** The subscriptions after `subscriber` toggles `channel`: the first matching record is
      deleted if there is one, otherwise a record is created. */
  function ToggleSubscriptionRows(rows: seq<Subscription>, nextId: Id, subscriber: Id, channel: Id, now: nat)
    : (r: seq<Subscription>)
    ensures FindSubscription(rows, subscriber, channel).Some? ==>
      var k := FindSubscription(rows, subscriber, channel).value;
      IsPair(rows[k], subscriber, channel) && multiset(r) + multiset{rows[k]} == multiset(rows)
    ensures FindSubscription(rows, subscriber, channel).None? ==>
      r == rows + [Subscription(nextId, subscriber, channel, now)]
    ensures forall s :: !IsPair(s, subscriber, channel) ==> multiset(r)[s] == multiset(rows)[s]
  {
    match FindSubscription(rows, subscriber, channel)
    case Some(k) => RemoveAt(rows, k)
    case None => rows + [Subscription(nextId, subscriber, channel, now)]
  }

  /** `toggleSubscription`: 400 without a channel id, 404 when no user has that id,
      otherwise the toggle; the reply is null after an unsubscribe and the new record after
      a subscribe. Subscribing to oneself is not refused. */
  method ToggleSubscription(users: UserTable, subs: SubscriptionTable, user: Id, channelId: Option<Id>, now: nat)
    returns (r: Result<Option<Subscription>>)
    requires subs.Valid()
    modifies subs
    ensures subs.Valid()
    ensures channelId.None? ==> r == Err(BadRequest) && unchanged(subs)
    ensures channelId.Some? && FindUser(users.rows, channelId.value).None? ==>
      r == Err(NotFound) && unchanged(subs)
    ensures channelId.Some? && FindUser(users.rows, channelId.value).Some? ==>
      && subs.rows == ToggleSubscriptionRows(old(subs.rows), old(subs.nextId), user, channelId.value, now)
      && (FindSubscription(old(subs.rows), user, channelId.value).Some? ==>
            r == Ok(None) && subs.nextId == old(subs.nextId))
      && (FindSubscription(old(subs.rows), user, channelId.value).None? ==>
            r == Ok(Some(subs.rows[|old(subs.rows)|])) && subs.nextId == old(subs.nextId) + 1)
  {
    if channelId.None? {
      return Err(BadRequest);
    }
    if FindUser(users.rows, channelId.value).None? {
      return Err(NotFound);
    }
    var existing := FindSubscription(subs.rows, user, channelId.value);
    if existing.Some? {
      subs.DeleteAt(existing.value);
      r := Ok(None);
    } else {
      var created := subs.Create(user, channelId.value, now);
      r := Ok(Some(created));
    }
  }

  /** The (subscriber, channel) pairs, ignoring ids and timestamps. */
  function Pair(s: Subscription): (Id, Id)
  {
    (s.subscriber, s.channel)
  }

  function Pairs(rows: seq<Subscription>): multiset<(Id, Id)>
  {
    multiset(Map(rows, Pair))
  }

  /** The toggle keeps every pair stored at most once. */
  lemma ToggleKeepsPairsUnique(rows: seq<Subscription>, nextId: Id, subscriber: Id, channel: Id, now: nat)
    requires NoDuplicatePairs(rows)
    ensures NoDuplicatePairs(ToggleSubscriptionRows(rows, nextId, subscriber, channel, now))
  {
    var r := ToggleSubscriptionRows(rows, nextId, subscriber, channel, now);
    match FindSubscription(rows, subscriber, channel)
    case Some(k) =>
      assert r == RemoveAt(rows, k);
      forall i, j | 0 <= i < j < |r| ensures !IsPair(r[j], r[i].subscriber, r[i].channel) {
        assert r[i] == rows[if i < k then i else i + 1];
        assert r[j] == rows[if j < k then j else j + 1];
      }
    case None =>
      forall i, j | 0 <= i < j < |r| ensures !IsPair(r[j], r[i].subscriber, r[i].channel) {
        if j == |rows| {
          assert r[i] == rows[i];
        }
      }
  }

  /** Subscribing and then unsubscribing restores the collection exactly. */
  lemma SubscribeThenUnsubscribe(rows: seq<Subscription>, nextId: Id, subscriber: Id, channel: Id, now1: nat, now2: nat)
    requires FindSubscription(rows, subscriber, channel).None?
    ensures var once := ToggleSubscriptionRows(rows, nextId, subscriber, channel, now1);
      ToggleSubscriptionRows(once, nextId + 1, subscriber, channel, now2) == rows
  {
    var once := ToggleSubscriptionRows(rows, nextId, subscriber, channel, now1);
    assert forall i :: 0 <= i < |rows| ==> once[i] == rows[i];
    assert IsPair(once[|rows|], subscriber, channel);
    assert FindSubscription(once, subscriber, channel) == Some(|rows|);
    assert RemoveAt(once, |rows|) == rows;
  }

  /** Unsubscribing and then subscribing again restores the set of pairs. */
  lemma UnsubscribeThenSubscribe(rows: seq<Subscription>, nextId: Id, subscriber: Id, channel: Id, now1: nat, now2: nat)
    requires NoDuplicatePairs(rows)
    requires FindSubscription(rows, subscriber, channel).Some?
    ensures var once := ToggleSubscriptionRows(rows, nextId, subscriber, channel, now1);
      Pairs(ToggleSubscriptionRows(once, nextId, subscriber, channel, now2)) == Pairs(rows)
  {
    var k := FindSubscription(rows, subscriber, channel).value;
    var once := RemoveAt(rows, k);
    assert ToggleSubscriptionRows(rows, nextId, subscriber, channel, now1) == once;
    forall i | 0 <= i < |once| ensures !IsPair(once[i], subscriber, channel) {
      var i' := if i < k then i else i + 1;
      assert once[i] == rows[i'];
    }
    var s := Subscription(nextId, subscriber, channel, now2);
    assert Map(once + [s], Pair) == Map(once, Pair) + [Pair(s)];
    assert Map(once, Pair) == RemoveAt(Map(rows, Pair), k);
    assert Pair(s) == Pair(rows[k]);
  }

  /** Toggling the same channel twice restores the set of pairs. */
  lemma ToggleTwiceRestores(rows: seq<Subscription>, nextId: Id, subscriber: Id, channel: Id, now1: nat, now2: nat)
    requires NoDuplicatePairs(rows)
    ensures var once := ToggleSubscriptionRows(rows, nextId, subscriber, channel, now1);
      var next := if |once| > |rows| then nextId + 1 else nextId;
      Pairs(ToggleSubscriptionRows(once, next, subscriber, channel, now2)) == Pairs(rows)
  {
    if FindSubscription(rows, subscriber, channel).Some? {
      UnsubscribeThenSubscribe(rows, nextId, subscriber, channel, now1, now2);
    } else {
      SubscribeThenUnsubscribe(rows, nextId, subscriber, channel, now1, now2);
    }
  }

  /** A subscriber of a channel, as `getChannelSubscribers` lists it. The summary is absent
      when the subscribing user no longer exists. */
  datatype SubscriberEntry = SubscriberEntry(id: Id, subscriber: Option<UserSummary>, subscribedAt: nat)

  function SubscribedAt(e: SubscriberEntry): nat
  {
    e.subscribedAt
  }

  /** The `$lookup` of one subscriber and the projection `{subscriber, subscribedAt}`. */
  function EntryFor(s: Subscription, users: seq<User>): SubscriberEntry
  {
    SubscriberEntry(s.id, SummaryOf(users, s.subscriber), s.createdAt)
  }

  /** The `$match` on `channel`, then the `$lookup` of the subscriber and the projection. */
  function SubscriberEntries(rows: seq<Subscription>, users: seq<User>, channel: Id): (r: seq<SubscriberEntry>)
    ensures |r| == CountKey(rows, ChannelOf, channel)
    ensures forall e :: e in r <==> exists s :: s in rows && s.channel == channel && e == EntryFor(s, users)
  {
    var mine := FilterKey(rows, ChannelOf, channel);
    var r := Map(mine, (s: Subscription) => EntryFor(s, users));
    forall e | e in r ensures exists s :: s in rows && s.channel == channel && e == EntryFor(s, users) {
      var i :| 0 <= i < |r| && r[i] == e;
      assert mine[i] in rows;
    }
    forall s | s in rows && s.channel == channel ensures EntryFor(s, users) in r {
      var i :| 0 <= i < |rows| && rows[i] == s;
      assert s in mine;
      var j :| 0 <= j < |mine| && mine[j] == s;
      assert r[j] == EntryFor(s, users);
    }
    r
  }

  /** `getChannelSubscribers`: 400 without a channel id; otherwise the channel's subscribers
      newest first, one page of them. */
  function GetChannelSubscribers(rows: seq<Subscription>, users: seq<User>, channelId: Option<Id>, page: int, limit: int)
    : (r: Result<seq<SubscriberEntry>>)
    ensures channelId.None? ==> r == Err(BadRequest)
    ensures channelId.Some? ==> (r.Err? <==> page < 1 || limit < 1)
    ensures channelId.Some? && r.Err? ==> r.error == Unhandled
    ensures r.Ok? ==> |r.value| <= limit && NewestFirst(r.value, SubscribedAt)
    ensures r.Ok? ==> |r.value| == PageLength(CountKey(rows, ChannelOf, channelId.value), page, limit)
  {
    if channelId.None? then Err(BadRequest)
    else
      var sorted := SortNewestFirst(SubscriberEntries(rows, users, channelId.value), SubscribedAt);
      match Paginate(sorted, page, limit)
      case None => Err(Unhandled)
      case Some(window) =>
        PageNewestFirst(sorted, page, limit, SubscribedAt);
        Ok(window)
  }

  /** Every entry of a page is a subscription to that channel, and the page is the slice
      of the newest-first list at offset `(page - 1) * limit`. */
  lemma ChannelSubscribersPage(rows: seq<Subscription>, users: seq<User>, channel: Id, page: int, limit: int)
    requires page >= 1 && limit >= 1
    ensures var r := GetChannelSubscribers(rows, users, Some(channel), page, limit).value;
      var all := SortNewestFirst(SubscriberEntries(rows, users, channel), SubscribedAt);
      && |r| == PageLength(|all|, page, limit)
      && (forall i :: 0 <= i < |r| ==> r[i] == all[Skip(page, limit) + i])
      && (forall e :: e in r ==> exists s :: s in rows && s.channel == channel && s.id == e.id)
  {
    var entries := SubscriberEntries(rows, users, channel);
    var all := SortNewestFirst(entries, SubscribedAt);
    SortKeepsMembers(entries, SubscribedAt);
    PageMembers(all, page, limit);
    var r := Paginate(all, page, limit).value;
    assert GetChannelSubscribers(rows, users, Some(channel), page, limit).value == r;
    forall e | e in r ensures exists s :: s in rows && s.channel == channel && s.id == e.id {
      assert e in entries;
      var s :| s in rows && s.channel == channel && e == EntryFor(s, users);
    }
  }

  /** A channel the caller subscribes to, as `getUserSubscribedChannels` lists it. */
  datatype ChannelEntry = ChannelEntry(channel: UserSummary, subscribedAt: nat)

  /** The channel entry of one subscription: nothing when the channel user no longer
      exists. */
  function ChannelWith(users: seq<User>): Subscription -> Option<ChannelEntry>
  {
    (s: Subscription) =>
      match SummaryOf(users, s.channel)
      case None => None
      case Some(c) => Some(ChannelEntry(c, s.createdAt))
  }

  /** The `$lookup` of each subscription's channel and the `$unwind` that drops those whose
      channel user no longer exists. */
  function JoinChannels(rows: seq<Subscription>, users: seq<User>): (r: seq<ChannelEntry>)
    ensures |r| <= |rows|
    ensures forall s :: s in rows && SummaryOf(users, s.channel).Some? ==>
      ChannelEntry(SummaryOf(users, s.channel).value, s.createdAt) in r
  {
    var r := FilterMap(rows, ChannelWith(users));
    assert forall s :: s in rows && SummaryOf(users, s.channel).Some? ==> ChannelWith(users)(s).Some?;
    r
  }

  lemma {:induction false} JoinedChannelsExist(rows: seq<Subscription>, users: seq<User>)
    ensures forall e :: e in JoinChannels(rows, users) ==>
      exists s :: s in rows && SummaryOf(users, s.channel) == Some(e.channel) && s.createdAt == e.subscribedAt
  {
    if rows != [] {
      JoinedChannelsExist(rows[1..], users);
      forall e | e in JoinChannels(rows, users) ensures
        exists s :: s in rows && SummaryOf(users, s.channel) == Some(e.channel) && s.createdAt == e.subscribedAt
      {
        var c := SummaryOf(users, rows[0].channel);
        if c.Some? && e == ChannelEntry(c.value, rows[0].createdAt) {
          assert rows[0] in rows;
        } else {
          assert e in JoinChannels(rows[1..], users);
          var s :| s in rows[1..] && SummaryOf(users, s.channel) == Some(e.channel) && s.createdAt == e.subscribedAt;
          assert s in rows;
        }
      }
    }
  }

  datatype SubscribedChannels = SubscribedChannels(totalSubscribed: nat, channels: seq<ChannelEntry>)

  /** `getUserSubscribedChannels`: the caller's subscriptions whose channel still exists, in
      natural order, with their number. */
  function GetUserSubscribedChannels(rows: seq<Subscription>, users: seq<User>, user: Id): (r: SubscribedChannels)
    ensures r.totalSubscribed == |r.channels|
    ensures var live := FilterKey(FilterKey(rows, SubscriberOf, user), Defined(ChannelWith(users)), true);
      && |r.channels| == |live|
      && forall i :: 0 <= i < |live| ==>
           SummaryOf(users, live[i].channel) == Some(r.channels[i].channel) && r.channels[i].subscribedAt == live[i].createdAt
    ensures forall s :: s in rows && s.subscriber == user && SummaryOf(users, s.channel).Some? ==>
      ChannelEntry(SummaryOf(users, s.channel).value, s.createdAt) in r.channels
  {
    var mine := FilterKey(rows, SubscriberOf, user);
    var channels := JoinChannels(mine, users);
    FilterMapDefined(mine, ChannelWith(users));
    forall s | s in rows && s.subscriber == user && SummaryOf(users, s.channel).Some?
      ensures ChannelEntry(SummaryOf(users, s.channel).value, s.createdAt) in channels
    {
      var i :| 0 <= i < |rows| && rows[i] == s;
      assert s in mine;
    }
    SubscribedChannels(|channels|, channels)
  }

  /** Every listed channel is one the caller subscribes to. */
  lemma SubscribedChannelsAreSubscribed(rows: seq<Subscription>, users: seq<User>, user: Id)
    ensures forall e :: e in GetUserSubscribedChannels(rows, users, user).channels ==>
      exists s :: s in rows && s.subscriber == user && s.channel == e.channel.id && s.createdAt == e.subscribedAt
  {
    var r := GetUserSubscribedChannels(rows, users, user);
    var live := FilterKey(FilterKey(rows, SubscriberOf, user), Defined(ChannelWith(users)), true);
    forall e | e in r.channels
      ensures exists s :: s in rows && s.subscriber == user && s.channel == e.channel.id && s.createdAt == e.subscribedAt
    {
      var i :| 0 <= i < |r.channels| && r.channels[i] == e;
      assert live[i] in live;
      assert live[i] in FilterKey(rows, SubscriberOf, user);
    }
  }
}
