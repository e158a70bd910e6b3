/** The `subscriptions` collection: `subscriber` follows `channel`. The schema declares no
    unique index, so nothing but the toggle keeps a pair from being stored twice. */
module SubscriptionModel {
  import opened Common
  import opened Seqs

  datatype Subscription = Subscription(id: Id, subscriber: Id, channel: Id, createdAt: nat)

  /** The filter `{subscriber, channel}`. */
  predicate IsPair(s: Subscription, subscriber: Id, channel: Id)
  {
    s.subscriber == subscriber && s.channel == channel
  }

  function ChannelOf(s: Subscription): Id
  {
    s.channel
  }

  function SubscriberOf(s: Subscription): Id
  {
    s.subscriber
  }

  /** `Subscription.findOne({subscriber, channel})`. */
  function FindSubscription(rows: seq<Subscription>, subscriber: Id, channel: Id): (r: Option<nat>)
    ensures r.Some? ==> r.value < |rows| && IsPair(rows[r.value], subscriber, channel)
    ensures r.None? <==> forall i :: 0 <= i < |rows| ==> !IsPair(rows[i], subscriber, channel)
  {
    FindIndex(rows, (s: Subscription) => IsPair(s, subscriber, channel))
  }

  ghost predicate SubscriptionsValid(rows: seq<Subscription>, nextId: Id)
  {
    && (forall i :: 0 <= i < |rows| ==> rows[i].id < nextId)
    && (forall i, j :: 0 <= i < j < |rows| ==> rows[i].id != rows[j].id)
  }

  class SubscriptionTable {
    var rows: seq<Subscription>
    var nextId: Id

    ghost predicate Valid()
      reads this
    {
      SubscriptionsValid(rows, nextId)
    }

    constructor ()
      ensures Valid() && rows == [] && nextId == 0
    {
      rows := [];
      nextId := 0;
    }

    /** `Subscription.create`. */
    method Create(subscriber: Id, channel: Id, now: nat) returns (s: Subscription)
      requires Valid()
      modifies this
      ensures Valid()
      ensures s == Subscription(old(nextId), subscriber, channel, now)
      ensures rows == old(rows) + [s] && nextId == old(nextId) + 1
    {
      s := Subscription(nextId, subscriber, channel, now);
      rows := rows + [s];
      nextId := nextId + 1;
    }

    /** `findByIdAndDelete` of the subscription at position `k`. */
    method DeleteAt(k: nat)
      requires Valid() && k < |rows|
      modifies this
      ensures Valid()
      ensures rows == RemoveAt(old(rows), k) && nextId == old(nextId)
    {
      var r := RemoveAt(rows, k);
      forall i, j | 0 <= i < j < |r| ensures r[i].id != r[j].id {
        var i' := if i < k then i else i + 1;
        var j' := if j < k then j else j + 1;
        assert r[i] == rows[i'] && r[j] == rows[j'];
      }
      rows := r;
    }
  }
}
