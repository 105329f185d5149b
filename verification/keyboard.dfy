/** The channel keyboard (`buildChannelKeyboard`): one link button per
    configured channel, marked by its aligned result, then the re-check button. */
module Keyboard {
  import opened Telegram
  import opened Subscription

  /** Marks that prefix a channel button: joined, not joined. */
  const JoinedMark: char := '\U{2705}'
  const MissingMark: char := '\U{274C}'

  /** The re-check button: its label and the callback data the bot listens for. */
  const CheckLabel: string := "\U{1F504} Tekshirish"
  const CheckAction: string := "check_subscription"

  /** Button of channel `ch`: `${mark} ${ch.name}` linking to `ch.url`. */
  function ChannelButton(ch: Channel, joined: bool): Button {
    UrlButton([if joined then JoinedMark else MissingMark] + " " + ch.name, ch.url)
  }

  /** `buildChannelKeyboard(subscribed)`: a missing entry of `subscribed`
      (the start handler passes `[]`) shows as not joined. */
  function BuildChannelKeyboard(channels: seq<Channel>, subscribed: seq<bool>): (rows: InlineKeyboard)
    ensures |rows| == |channels| + 1
    ensures forall i :: 0 <= i < |channels| ==>
              && |rows[i]| == 1
              && rows[i][0].UrlButton?
              && rows[i][0].url == channels[i].url
              && |rows[i][0].text| == |channels[i].name| + 2
              && rows[i][0].text[1] == ' '
              && rows[i][0].text[2..] == channels[i].name
              && (rows[i][0].text[0] == JoinedMark || rows[i][0].text[0] == MissingMark)
              && (rows[i][0].text[0] == JoinedMark <==> Joined(subscribed, i))
    ensures rows[|channels|] == [CallbackButton(CheckLabel, CheckAction)]
  {
    seq(|channels|, i requires 0 <= i < |channels| => [ChannelButton(channels[i], Joined(subscribed, i))])
    + [[CallbackButton(CheckLabel, CheckAction)]]
  }

  /** Reads the marks back off a keyboard: whether each channel row shows the joined mark. */
  function ReadMarks(rows: InlineKeyboard): seq<bool>
    requires |rows| >= 1
  {
    seq(|rows| - 1, i requires 0 <= i < |rows| - 1 =>
      |rows[i]| > 0 && |rows[i][0].text| > 0 && rows[i][0].text[0] == JoinedMark)
  }

  /** The keyboard shows exactly the results it was built from, padded with
      "not joined" for channels the results do not cover. */
  lemma KeyboardShowsResults(channels: seq<Channel>, subscribed: seq<bool>)
    ensures var marks := ReadMarks(BuildChannelKeyboard(channels, subscribed));
            |marks| == |channels| && forall i :: 0 <= i < |channels| ==> marks[i] == Joined(subscribed, i)
    ensures |subscribed| == |channels| ==> ReadMarks(BuildChannelKeyboard(channels, subscribed)) == subscribed
  {
  }

  /** The keyboard sent on `/start` (built from `[]`) marks every channel as not joined. */
  lemma StartKeyboardAllMissing(channels: seq<Channel>)
    ensures var rows := BuildChannelKeyboard(channels, []);
            forall i :: 0 <= i < |channels| ==> rows[i][0].text[0] == MissingMark
  {
  }
}
