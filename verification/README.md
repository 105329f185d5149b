# checkerbot membership gate — Dafny model

The bot gates access to an external test behind membership of three Telegram
channels. When the user presses the re-check button, it asks Telegram for the
user's membership status in every configured channel. It classifies each answer
as subscribed or not; a failed lookup counts as not subscribed. It then either
grants access or lists the channels still missing. This project models that
pure core of `bot.js`:

- `Html` (`html.dfy`): `escapeHtml`, literally as five global replacements,
  `&` first. It is related to a per-character reference and to an inverse.
- `Telegram` (`telegram.dfy`): the API values the core consumes. These are the
  chat member record, API errors, a `Result`, buttons and inline keyboards. The
  membership lookup (`getChatMember`) is a function parameter.
- `Subscription` (`subscription.dfy`): `isSubscribed`, `checkAllChannels`,
  `allJoined` and `notJoinedNames`.
- `Keyboard` (`keyboard.dfy`): `buildChannelKeyboard`.
- `Lines` (`lines.dfy`): `Array.prototype.join` with a newline, and the
  matching split. The split is used to read the failure text back line by line.
- `Messages` (`messages.dfy`): `buildFailText`.
- `Bot` (`bot.dfy`): the configured `CHANNELS`, the `check_subscription`
  handler's decision, and three end-to-end scenarios.

The channel list is a parameter of every operation. The source reads the global
`CHANNELS`, which is `Bot.Channels` here. A result vector shorter than the
channel list is read as JavaScript reads `results[i]` past the end: as not
joined. `buildChannelKeyboard([])` on `/start` relies on exactly this.

On success the handler (bot.js:165-171) edits the message to show the channel
keyboard with every channel marked ✅, and then sends a separate success message
carrying the website button. A `Granted` reply stands for both. On failure
(bot.js:174-175) the message shows the failure text and the same keyboard with
each channel marked by its own lookup.

## Model

| member | source | states |
|---|---|---|
| Html.ReplaceAll | bot.js:18-22 | No contract of its own; one global replacement of a literal character by a replacement text without `$` patterns (as in bot.js:18-22). See the rows of Html.ReplaceAllRemoves, Html.ReplaceAllKeepsAbsent and the Html.EscapeHtml lemmas. |
| Html.ReplaceAllRemoves | bot.js:19-22 | A global replacement leaves no occurrence of its character when the replacement text does not contain it. |
| Html.ReplaceAllKeepsAbsent | bot.js:19-22 | A pass never introduces a character absent from both its input and its replacement text, so a later pass cannot undo an earlier one. |
| Html.EscapeHtml | bot.js:16-23 | The output contains none of `<`, `>`, `"` or `'`, whatever the input: each of the last four passes removes its character and no later pass brings it back. |
| Html.EscapeHtmlIsPerCharacter | bot.js:16-23 | The five chained replacements equal replacing every character by its own entity independently. Since `&` goes first, no entity added by a later pass is escaped again. |
| Html.EscapeHtmlAppend | bot.js:16-23 | Escaping `a + b` is escaping `a` followed by escaping `b`. |
| Html.EscapeHtmlAmpersandsBeginEntities | bot.js:18-22 | Every `&` in escaped text begins one of `&amp;`, `&lt;`, `&gt;`, `&quot;`, `&#39;`. |
| Html.EscapeHtmlLength | bot.js:16-23 | Output length is at least the input length plus three per special character. The output equals the input exactly when there are no special characters. |
| Html.EscapeHtmlIdentity | bot.js:16-23 | Escaping is the identity exactly on strings with none of `& < > " '`, in both directions. |
| Html.EscapeHtmlCharacters | bot.js:16-23 | Every character of the output comes from the input or from one of the entities. In particular no line break is introduced. |
| Html.UnescapeEscapeHtml | bot.js:16-23 | Decoding the five entities gives back the original text, so escaping loses nothing. |
| Html.EscapeHtmlInjective | bot.js:16-23 | Different texts never escape to the same output. |
| Html.AmpersandLastDoubleEscapes | bot.js:17-22 | With the `&` pass moved last, `<` would become `&amp;lt;`; as written it becomes `&lt;`. |
| Lines.Join | bot.js:54 | `join('\n')` starts with the first line verbatim. When there are at least two lines, the separator follows it directly. |
| Lines.SplitJoin | bot.js:48-54 | Splitting newline-joined lines on newlines gives the lines back, when no line contains a newline. |
| Subscription.IsSubscribed | bot.js:92-100 | True exactly when the lookup succeeds with status `creator`, `administrator` or `member`. A failed lookup gives false and is not propagated. |
| Subscription.CheckAllChannels | bot.js:102-104 | One result per configured channel. Element `i` is the classification of channel `i`'s lookup, in configuration order. |
| Subscription.AllJoined | bot.js:163 | `results.every(Boolean)` holds exactly when every element is true. |
| Subscription.NotJoinedNames | bot.js:174 | The list has as many entries as there are not-joined channels. Not-joined channel `i` sits at position "not-joined channels before `i`" and carries its name. This fixes the whole list in configuration order. |
| Subscription.NotJoinedCount | bot.js:174 | The list's length is the channel count minus the number of `true` results. |
| Subscription.NotJoinedPreservesOrder | bot.js:174 | Two not-joined channels appear in the list in configuration order. |
| Subscription.NotJoinedOnlyMissing | bot.js:174 | Every listed name is the name of a channel whose result is false. |
| Subscription.AllJoinedIffNoneMissing | bot.js:163-174 | For results aligned with the channels, `allJoined` is true exactly when `notJoinedNames` is empty. |
| Subscription.AllJoinedIffEverySubscribed | bot.js:102-104 | After a full check, `allJoined` (bot.js:163) is true exactly when every channel's lookup shows membership. |
| Subscription.FailureCountsAsNotSubscribed | bot.js:93-99 | Replacing failed lookups by non-member statuses leaves the result vector unchanged. |
| Keyboard.BuildChannelKeyboard | bot.js:106-113 | There are `|channels| + 1` rows. Row `i` is one URL button to channel `i`'s link, labelled mark, space, name. The mark is ✅ exactly when `subscribed[i]` is true, and a missing index shows ❌. The last row is the `check_subscription` callback. |
| Keyboard.KeyboardShowsResults | bot.js:106-113 | Reading the marks off the keyboard gives back the result vector, padded with "not joined". |
| Keyboard.StartKeyboardAllMissing | bot.js:144-149 | The `/start` keyboard, built from `[]`, marks every channel ❌. |
| Messages.BuildFailText | bot.js:47-55 | The failure text opens with the warning header followed by a line break. |
| Messages.FailTextLines | bot.js:47-55 | Splitting the failure text on line breaks gives back header, blank line, one bullet line per name, blank line and closing line, when no name contains a line break. |
| Messages.FailTextBullets | bot.js:47-55 | The failure text has a header and a blank line, then one bullet line per not-joined name in order, then a blank line and the closing line. Bullet line `j` is `• ` followed by exactly the escaped `j`-th name, and unescaping that part recovers the name. |
| Bot.HandleCheckSubscription | bot.js:158-176 | Access is granted exactly when every channel shows membership. The keyboard, on both paths, is the channel keyboard built from the full check, so each channel is marked by its own lookup. A denial lists exactly the not-joined names in configuration order, and its text is the failure text for that list. |
| Bot.ConfiguredChannels | bot.js:7-11 | The configured `CHANNELS` list (`Bot.Channels`) has three channels with distinct chat identifiers. No name contains a line break or a character escaping would change. |
| Bot.PlainNameVerbatim | bot.js:16-23 | A name without special characters is left unchanged by escaping, so it appears verbatim on its bullet line (bot.js:51). |
| Bot.SameResultsSameReply | bot.js:158-176 | The reply depends on the lookups only through the result vector. |
| Bot.ScenarioSecondLeft | bot.js:158-176 | Statuses member, left, administrator give `[true, false, true]`, no access, and the list `["Demo Materials"]`. |
| Bot.ScenarioAllThree | bot.js:158-176 | Statuses member, member, creator give `[true, true, true]`, access, and an empty list. |
| Bot.ScenarioSecondFails | bot.js:92-104 | A failing lookup for the second channel gives `[true, false, true]` and the same reply as a `left` status. |

## Left out

- `sendOrEditMessage`, `ctx.reply`, `ctx.editMessageText`, `answerCbQuery` and the "message is not modified" fallback (bot.js:127-142). These are Telegram I/O. The handler model returns the reply it would show instead of sending it.
- The top-level `bot.catch` handler and the `console.error` logging in `isSubscribed`. Both are side effects only.
- `getWebhookConfig` (bot.js:75-90). It depends on the WHATWG `URL` parser, which is not part of this model.
- Startup, webhook versus polling launch, signal handling and environment configuration (bot.js:1-5, 13-14, 183-203). These are deployment glue.
- The concurrency of `Promise.all`. Lookups are modelled as a sequential map over the channel list, so only the index alignment is kept.
- `buildWebsiteButton` and `buildSuccessKeyboard` (bot.js:115-125). They choose a `webApp` or `url` button by library feature detection.
- The fixed texts `buildStartText`, `buildSiteCardText`, `buildSuccessText`, `buildJoinedChannelsText` and the `/site` command. They are constant strings. A `Granted` reply stands for the joined text plus the success message.
- `String.prototype.replace` expands `$` patterns (`$&`, `$1`, …) in its replacement text. `Html.ReplaceAll` inserts the text literally. The five replacement texts of `escapeHtml` contain no `$`, so the two agree there.
- `escapeHtml`'s `String(value)` coercion. Every caller passes a channel name, so the input is a string.
- JavaScript strings are UTF-16 code units, while the model's `char` is a code point. The marks ✅ and ❌ are single code units either way, so the labels agree.
- Messages.FailTextBullets: stated only for names without line breaks. A name containing a newline would add lines of its own, since escaping leaves newlines alone. The configured names contain none.
- A debounce guard for repeated triggers. No such logic exists in `bot.js`.
