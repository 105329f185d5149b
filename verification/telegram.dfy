/** The parts of the Telegram Bot API the core consumes, as plain values.

    The membership lookup (`getChatMember`) is a pure function from a chat and a
    user to either a chat member record or an API error; the network, retries and
    the asynchronous call itself are not part of the model.
 */
module Telegram {

  /** A chat (channel) identifier such as `@somechannel`. */
  type ChatId = string

  /** A Telegram user identifier. */
  type UserId = int

  /** The record `getChatMember` returns; only its `status` field is read. */
  datatype ChatMember = ChatMember(status: string)

  /** Any failure of an API call: network error, bot not admin, chat not found, rate limit. */
  datatype ApiError = ApiError(description: string)

  datatype Result<+T, +E> = Ok(value: T) | Err(error: E)

  /** `telegram.getChatMember(channelId, userId)`, settled. */
  type MembershipLookup = (ChatId, UserId) -> Result<ChatMember, ApiError>

  /** An inline keyboard button: a link, or a callback carrying `data` back to the bot. */
  datatype Button = UrlButton(text: string, url: string) | CallbackButton(text: string, data: string)

  /** An inline keyboard: rows of buttons, top to bottom. */
  type InlineKeyboard = seq<seq<Button>>
}
