/** Subscription verification: classify one membership lookup, check every
    configured channel, and derive whether all were joined and which were not.

    The channel list is a parameter here; the configured one is `Bot.Channels`.
    Results are index-aligned with the channel list. A result vector shorter
    than the list is read the way JavaScript reads a missing element: as not
    joined.
 */
module Subscription {
  import opened Telegram

  /** A configured channel: display name, invite link and chat identifier. */
  datatype Channel = Channel(name: string, url: string, id: ChatId)

  /** Statuses that count as membership. */
  const SubscribedStatuses: seq<string> := ["creator", "administrator", "member"]

  /** `isSubscribed`: a settled lookup counts as membership when its status is
      one of the three above; a failed lookup counts as not subscribed and is
      never passed on. */
  function IsSubscribed(lookup: MembershipLookup, channelId: ChatId, userId: UserId): (b: bool)
    ensures b <==> lookup(channelId, userId).Ok?
                   && (lookup(channelId, userId).value.status == "creator"
                       || lookup(channelId, userId).value.status == "administrator"
                       || lookup(channelId, userId).value.status == "member")
  {
    match lookup(channelId, userId)
    case Ok(member) => member.status in SubscribedStatuses
    case Err(_) => false
  }

  /** `checkAllChannels`: one classification per configured channel, in
      configuration order (the parallel `Promise.all` reassembles by index). */
  function CheckAllChannels(lookup: MembershipLookup, channels: seq<Channel>, userId: UserId): (results: seq<bool>)
    ensures |results| == |channels|
    ensures forall i :: 0 <= i < |channels| ==> results[i] == IsSubscribed(lookup, channels[i].id, userId)
  {
    if |channels| == 0 then []
    else [IsSubscribed(lookup, channels[0].id, userId)] + CheckAllChannels(lookup, channels[1..], userId)
  }

  /** `results.every(Boolean)`. */
  function AllJoined(results: seq<bool>): (b: bool)
    ensures b <==> forall i :: 0 <= i < |results| ==> results[i]
  {
    |results| == 0 || (results[0] && AllJoined(results[1..]))
  }

  /** Truthiness of `results[i]`; an index past the end reads `undefined`. */
  predicate Joined(results: seq<bool>, i: nat) {
    i < |results| && results[i]
  }

  /** Number of indices below `n` that are not joined. */
  function CountMissing(results: seq<bool>, n: nat): nat {
    if n == 0 then 0 else CountMissing(results, n - 1) + (if Joined(results, n - 1) then 0 else 1)
  }

  /** `CHANNELS.filter((_, i) => !results[i]).map((ch) => ch.name)`.
      Channel `i`, when not joined, lands at position `CountMissing(results, i)`,
      the number of not-joined channels before it; together with the length this
      fixes the whole result, in configuration order. */
  function NotJoinedNames(channels: seq<Channel>, results: seq<bool>): (names: seq<string>)
    ensures |names| == CountMissing(results, |channels|)
    ensures forall i :: 0 <= i < |channels| && !Joined(results, i) ==>
              CountMissing(results, i) < |names| && names[CountMissing(results, i)] == channels[i].name
    decreases |channels|
  {
    if |channels| == 0 then []
    else
      var n := |channels| - 1;
      var front := NotJoinedNames(channels[..n], results);
      var names := front + (if Joined(results, n) then [] else [channels[n].name]);
      assert forall i :: 0 <= i < |channels| && !Joined(results, i) ==>
               CountMissing(results, i) < |names| && names[CountMissing(results, i)] == channels[i].name by {
        forall i | 0 <= i < |channels| && !Joined(results, i)
          ensures CountMissing(results, i) < |names| && names[CountMissing(results, i)] == channels[i].name
        {
          if i < n {
            assert channels[..n][i] == channels[i];
            assert names[CountMissing(results, i)] == front[CountMissing(results, i)];
          }
        }
      }
      names
  }

  // ---------------------------------------------------------------------------
  // Counting

  lemma {:induction false} CountMissingMonotone(results: seq<bool>, i: nat, j: nat)
    requires i <= j
    ensures CountMissing(results, i) <= CountMissing(results, j)
    decreases j - i
  {
    if i < j {
      CountMissingMonotone(results, i, j - 1);
    }
  }

  lemma {:induction false} CountMissingZero(results: seq<bool>, n: nat)
    ensures CountMissing(results, n) == 0 <==> forall k :: 0 <= k < n ==> Joined(results, k)
    decreases n
  {
    if n != 0 {
      CountMissingZero(results, n - 1);
    }
  }

  lemma {:induction false} CountMissingMultiset(results: seq<bool>, n: nat)
    requires n <= |results|
    ensures CountMissing(results, n) == n - multiset(results[..n])[true]
    decreases n
  {
    if n != 0 {
      CountMissingMultiset(results, n - 1);
      assert results[..n] == results[..n - 1] + [results[n - 1]];
    }
  }

  // ---------------------------------------------------------------------------
  // Properties of the derivation

  /** The not-joined list has one entry per false result:
      its length is the channel count minus the number of true results. */
  lemma NotJoinedCount(channels: seq<Channel>, results: seq<bool>)
    requires |results| == |channels|
    ensures |NotJoinedNames(channels, results)| == |channels| - multiset(results)[true]
  {
    CountMissingMultiset(results, |results|);
    assert results[..|results|] == results;
  }

  /** Two not-joined channels appear in the list in configuration order. */
  lemma NotJoinedPreservesOrder(channels: seq<Channel>, results: seq<bool>, i: nat, j: nat)
    requires i < j < |channels|
    requires !Joined(results, i) && !Joined(results, j)
    ensures var names := NotJoinedNames(channels, results);
            CountMissing(results, i) < CountMissing(results, j) < |names|
            && names[CountMissing(results, i)] == channels[i].name
            && names[CountMissing(results, j)] == channels[j].name
  {
    CountMissingMonotone(results, i + 1, j);
  }

  /** Every listed name belongs to a channel whose result is false. */
  lemma {:induction false} NotJoinedOnlyMissing(channels: seq<Channel>, results: seq<bool>, k: nat)
    requires k < |NotJoinedNames(channels, results)|
    ensures exists i :: 0 <= i < |channels| && !Joined(results, i) && NotJoinedNames(channels, results)[k] == channels[i].name
    decreases |channels|
  {
    var n := |channels| - 1;
    var front := NotJoinedNames(channels[..n], results);
    assert NotJoinedNames(channels, results) == front + (if Joined(results, n) then [] else [channels[n].name]);
    if k < |front| {
      NotJoinedOnlyMissing(channels[..n], results, k);
      var i :| 0 <= i < n && !Joined(results, i) && front[k] == channels[..n][i].name;
      assert channels[..n][i] == channels[i];
    } else {
      assert NotJoinedNames(channels, results)[k] == channels[n].name;
    }
  }

  /** `allJoined` holds exactly when nobody is left to list. */
  lemma AllJoinedIffNoneMissing(channels: seq<Channel>, results: seq<bool>)
    requires |results| == |channels|
    ensures AllJoined(results) <==> NotJoinedNames(channels, results) == []
  {
    var names := NotJoinedNames(channels, results);
    CountMissingZero(results, |channels|);
    if !AllJoined(results) {
      var i :| 0 <= i < |results| && !results[i];
      assert !Joined(results, i);
      assert CountMissing(results, i) < |names|;
    }
  }

  /** Over a full check, `allJoined` holds exactly when every lookup shows membership. */
  lemma AllJoinedIffEverySubscribed(lookup: MembershipLookup, channels: seq<Channel>, userId: UserId)
    ensures AllJoined(CheckAllChannels(lookup, channels, userId))
            <==> forall i :: 0 <= i < |channels| ==> IsSubscribed(lookup, channels[i].id, userId)
  {
  }

  /** A failed lookup weighs exactly like a lookup reporting a non-member status:
      replacing failures by such statuses leaves the result vector unchanged. */
  lemma FailureCountsAsNotSubscribed(failing: MembershipLookup, answering: MembershipLookup,
                                     channels: seq<Channel>, userId: UserId)
    requires forall i :: 0 <= i < |channels| ==>
               failing(channels[i].id, userId) == answering(channels[i].id, userId)
               || (failing(channels[i].id, userId).Err?
                   && answering(channels[i].id, userId).Ok?
                   && answering(channels[i].id, userId).value.status !in SubscribedStatuses)
    ensures CheckAllChannels(failing, channels, userId) == CheckAllChannels(answering, channels, userId)
  {
  }
}
