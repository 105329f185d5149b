/** The configured channels and the `check_subscription` callback handler:
    check every channel, then either grant access or list what is missing.
    Sending, editing and acknowledging messages are not modelled; the handler
    returns the reply it would send. */
module Bot {
  import opened Telegram
  import opened Subscription
  import opened Keyboard
  import opened Messages
  import opened Html

  /** `CHANNELS`, in configuration order. */
  const Channels: seq<Channel> := [
    Channel("CEFR Demo", "https://t.me/cefrwithdemo", "@cefrwithdemo"),
    Channel("Demo Materials", "https://t.me/demo_materials", "@demo_materials"),
    Channel("Study Need Future", "https://t.me/studyneedfuture", "@studyneedfuture")
  ]

  /** What the handler shows: on success the channel keyboard with every mark
      set (followed by the fixed success message); otherwise the failure text
      listing the missing channels, with the channel keyboard. */
  datatype CheckReply =
    | Granted(keyboard: InlineKeyboard)
    | Denied(missing: seq<string>, text: string, keyboard: InlineKeyboard)

  /** The `check_subscription` action. */
  function HandleCheckSubscription(lookup: MembershipLookup, channels: seq<Channel>, userId: UserId): (reply: CheckReply)
    ensures reply.Granted? <==> forall i :: 0 <= i < |channels| ==> IsSubscribed(lookup, channels[i].id, userId)
    ensures |reply.keyboard| == |channels| + 1
    ensures forall i :: 0 <= i < |channels| ==>
              |reply.keyboard[i]| == 1 && |reply.keyboard[i][0].text| > 0
              && (reply.keyboard[i][0].text[0] == JoinedMark <==> IsSubscribed(lookup, channels[i].id, userId))
    ensures reply.Denied? ==> |reply.missing| > 0 && reply.text == BuildFailText(reply.missing)
    ensures reply.Denied? ==> forall i :: 0 <= i < |channels| && !IsSubscribed(lookup, channels[i].id, userId)
                                ==> channels[i].name in reply.missing
    ensures reply.Denied? ==> reply.missing == NotJoinedNames(channels, CheckAllChannels(lookup, channels, userId))
    ensures reply.keyboard == BuildChannelKeyboard(channels, CheckAllChannels(lookup, channels, userId))
  {
    var results := CheckAllChannels(lookup, channels, userId);
    var keyboard := BuildChannelKeyboard(channels, results);
    if AllJoined(results) then Granted(keyboard)
    else
      var missing := NotJoinedNames(channels, results);
      AllJoinedIffNoneMissing(channels, results);
      Denied(missing, BuildFailText(missing), keyboard)
  }

  /** The reply depends on the lookups only through the result vector. */
  lemma SameResultsSameReply(a: MembershipLookup, b: MembershipLookup, channels: seq<Channel>, userId: UserId)
    requires CheckAllChannels(a, channels, userId) == CheckAllChannels(b, channels, userId)
    ensures HandleCheckSubscription(a, channels, userId) == HandleCheckSubscription(b, channels, userId)
  {
  }

  /** A name with no line break and none of the five special characters is
      shown verbatim on its bullet line. */
  predicate PlainName(name: string) {
    '\n' !in name && '&' !in name && '<' !in name && '>' !in name && '"' !in name && '\'' !in name
  }

  lemma PlainNameVerbatim(name: string)
    requires PlainName(name)
    ensures EscapeHtml(name) == name
  {
    assert forall k :: 0 <= k < |name| ==> !IsSpecial(name[k]);
    EscapeHtmlIdentity(name);
  }

  /** The configured channels: three of them, with distinct chat identifiers,
      and names without line breaks or characters escaping would change, so the
      failure text lists each one verbatim on a bullet line of its own
      (see `PlainNameVerbatim` and `Messages.FailTextBullets`). */
  lemma ConfiguredChannels()
    ensures |Channels| == 3
    ensures forall i, j :: 0 <= i < j < |Channels| ==> Channels[i].id != Channels[j].id
    ensures forall i :: 0 <= i < |Channels| ==> PlainName(Channels[i].name)
  {
    FirstNamePlain();
    SecondNamePlain();
    ThirdNamePlain();
  }

  // One lemma per configured name, each checking its literal in pieces of a few
  // characters: checking longer literals at once exceeds the solver's budget.
  lemma PlainAppend(a: string, b: string)
    requires PlainName(a) && PlainName(b)
    ensures PlainName(a + b)
  {
  }

  lemma FirstNamePlain()
    ensures PlainName(Channels[0].name)
  {
    assert Channels[0].name == "CEFR" + " Demo";
    PlainAppend("CEFR", " Demo");
  }

  lemma SecondNamePlain()
    ensures PlainName(Channels[1].name)
  {
    assert Channels[1].name == "Demo" + " Materials";
    PlainAppend("Demo", " Materials");
  }

  lemma ThirdNamePlain()
    ensures PlainName(Channels[2].name)
  {
    assert Channels[2].name == "Study" + " Need" + " Future";
    PlainAppend("Study", " Need");
    PlainAppend("Study" + " Need", " Future");
  }

  // ---------------------------------------------------------------------------
  // End-to-end scenarios over the configured channels

  /** Member of the first channel, left the second, administrator of the third. */
  function SecondLeft(chat: ChatId, user: UserId): Result<ChatMember, ApiError> {
    if chat == "@cefrwithdemo" then Ok(ChatMember("member"))
    else if chat == "@demo_materials" then Ok(ChatMember("left"))
    else Ok(ChatMember("administrator"))
  }

  /** Member, member, creator. */
  function AllThree(chat: ChatId, user: UserId): Result<ChatMember, ApiError> {
    if chat == "@studyneedfuture" then Ok(ChatMember("creator")) else Ok(ChatMember("member"))
  }

  /** The lookup of the second channel fails; the others report membership. */
  function SecondFails(chat: ChatId, user: UserId): Result<ChatMember, ApiError> {
    if chat == "@demo_materials" then Err(ApiError("Bad Request: chat not found"))
    else Ok(ChatMember("member"))
  }

  lemma ScenarioSecondLeft(userId: UserId)
    ensures CheckAllChannels(SecondLeft, Channels, userId) == [true, false, true]
    ensures !AllJoined([true, false, true])
    ensures NotJoinedNames(Channels, [true, false, true]) == ["Demo Materials"]
    ensures HandleCheckSubscription(SecondLeft, Channels, userId).Denied?
  {
  }

  lemma ScenarioAllThree(userId: UserId)
    ensures CheckAllChannels(AllThree, Channels, userId) == [true, true, true]
    ensures AllJoined([true, true, true])
    ensures NotJoinedNames(Channels, [true, true, true]) == []
    ensures HandleCheckSubscription(AllThree, Channels, userId).Granted?
  {
  }

  /** A failed lookup reads as "not joined" and raises nothing: the reply is
      the one a "left" status would have produced. */
  lemma ScenarioSecondFails(userId: UserId)
    ensures CheckAllChannels(SecondFails, Channels, userId) == [true, false, true]
    ensures HandleCheckSubscription(SecondFails, Channels, userId)
            == HandleCheckSubscription(SecondLeft, Channels, userId)
  {
    ScenarioSecondLeft(userId);
    assert CheckAllChannels(SecondFails, Channels, userId) == [true, false, true];
    SameResultsSameReply(SecondFails, SecondLeft, Channels, userId);
  }
}
