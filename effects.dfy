/**
 * The observable side effects of the bot's event handlers.
 *
 * Calls into collaborators that are not part of this model (the chat client,
 * the feed stream, the subscription store, the logger, localisation) are
 * recorded as values of `Effect`, in the order the handlers issue them.
 */
module Effects {

  datatype Option<+T> = None | Some(value: T)

  /** JavaScript truthiness of an optional string: present and not "". */
  predicate Truthy(s: Option<string>) {
    s.Some? && |s.value| > 0
  }

  /** One line written by the process logger. */
  datatype LogEntry =
    | ExecutingCommand(command: string, args: seq<string>)
    | RejectedCommand(command: string, args: seq<string>, reason: Option<string>)
    | ClientError(message: string)
    | ClientErrorDetails
    | JoinedGuild(guildName: string)
    | WelcomeFailed(guildName: string)
    | LeftGuild(guildName: string)
    | LoggedIn
    | ChannelDeleted(channelName: string, channelId: string, removedSubs: int)

  datatype Effect =
    | Log(entry: LogEntry)
    /** post.translated(channel, key): a localised message posted to the channel of the command */
    | PostTranslated(key: string)
    /** post.message(channel, i18n(lang, key)) */
    | PostLocalized(lang: string, key: string)
    /** message.reply(text) */
    | Reply(text: string)
    /** post.embed(channel, help panel in lang) */
    | PostHelp(lang: string)
    /** post.dm(address, i18n(lang, key)) */
    | DirectMessage(channelId: string, lang: string, key: string)
    /** subs.rmGuild(id) */
    | RemoveGuildSubscriptions(guildId: string)
    /** subs.rmChannel(id) */
    | RemoveChannelSubscriptions(channelId: string)
    /** subs.sanityCheck() */
    | SanityCheck
    /** twitter.createStream() */
    | CreateStream
    /** twitter.destroyStream() */
    | DestroyStream
    /** discord.login() */
    | Login
}
