# QTweet: command dispatch and client lifecycle, modelled in Dafny

QTweet is a bot that relays posts from a social-media feed to chat channels.
This project models the event handlers of `src/discordEvents.js`: how a chat
message becomes a command, how a command passes its asynchronous checks
before its handler runs, and what the client lifecycle events (error, guild
create and delete, ready, channel delete) do to the feed stream.

Calls into collaborators are not performed. What they return is a
parameter, and what the handlers ask of them is a value of
`Effects.Effect`: log lines, posted messages, subscription removals, and
stream creation and destruction. The handlers return these effects in order.

- `effects.dfy`, module `Effects`: `Option`, the log entries and the effects.
- `command_checks.dfy`, module `CommandChecks`: `handleCommand`. The
  closure state of one dispatch is the class `CheckBarrier`. Its fields are
  the pass counter `validChecks`, the flag `isValid`, the handler-call count
  and `posted`, the effects produced so far (both the messages posted and the
  lines logged, in order). Its `Report` method is the callback of one check.
  The check callbacks arrive as a sequence of `CheckReport`s in completion
  order, and each check index appears at most once. The state after any such
  sequence is given in closed form (`FirstFailure`, `PassesCounted`,
  `StillValid`, `HandlerCallsAfter`, `PostedAfter`). `CheckBarrier.Valid()`
  keeps the fields equal to that closed form. The lemmas then prove what the
  barrier promises, including that the completion order does not matter.
- `message_routing.dfy`, module `MessageRouting`: `handleMessage`. It models
  JavaScript's `indexOf`, `trim`, `split(/ +/)` and `toLowerCase` as
  functions. `Classify` picks the branch a message takes, and
  `HandleMessage` performs that branch. Module `RoutingConsequences` follows a
  typed command line through both: a registered command typed with too few
  arguments (such as `"!tweet"`), with any runs of spaces between the words,
  only posts its usage message.
- `lifecycle.dfy`, module `Lifecycle`: the five lifecycle handlers as
  functions. `RunStream` reads their effects as commands to the feed stream
  and returns the stream's state. The lemmas state when each handler tears
  the stream down and when it rebuilds it.

Two consequences of the code are worth stating:

- Only the first failure posts: the callback returns once the flag is
  cleared (src/discordEvents.js:44). So at most one rejection is ever posted
  (`RejectionPostedAtMostOnce`).
- A guild deletion restarts the stream when the removal reports `users > 0`
  (src/discordEvents.js:131), whatever was removed. `HandleGuildDelete`
  follows this.

## Model

| member | source | states |
|---|---|---|
| `CommandChecks.FirstFailure` | src/discordEvents.js:44-52 | the position of the first failing report, if any: every earlier report passed, and there is none exactly when all reports passed |
| `CommandChecks.FirstFailureExtend` | src/discordEvents.js:44-52 | one more report sets the first failure only if none has happened yet, and only if that report failed |
| `CommandChecks.FailureIsFinal` | src/discordEvents.js:44 | after a failure, any later reports leave the flag cleared and change nothing else: not the counter, not the handler calls (zero), not what was posted |
| `CommandChecks.PassesMonotone` | src/discordEvents.js:37-45 | with each check reporting at most once, `validChecks` never decreases and never exceeds the number of checks |
| `CommandChecks.WellFormedPairwise` | src/discordEvents.js:40-42 | a report sequence is well formed exactly when every index is below the number of checks and no two reports share an index |
| `CommandChecks.ReportsBounded` | src/discordEvents.js:40-42 | reports with distinct check indices below k number at most k |
| `CommandChecks.HandlerRanIffAllCounted` | src/discordEvents.js:45-57 | the handler has run at most once, and has run exactly when `isValid` holds and `validChecks` equals the number of checks |
| `CommandChecks.AllPassRunsHandlerOnLastReport` | src/discordEvents.js:37-57 | with k > 0 checks all passing, in any completion order, the handler runs exactly once, on the k-th report and not before |
| `CommandChecks.CompletionOrderIrrelevant` | src/discordEvents.js:40-58 | two completion orders of the same reports agree on validity and on handler calls; when all pass they also agree on the counter and on everything posted |
| `CommandChecks.RejectionPostedAtMostOnce` | src/discordEvents.js:44-52 | each message key is posted at most once: only for the first failure, and only if that check's key is truthy; the empty key is never posted |
| `CommandChecks.ReportStep` | src/discordEvents.js:42-58 | one report from a check that has not reported yet: after a failure nothing changes; a pass increments the counter and runs the handler exactly when it is the last pass needed; the first failure clears validity and appends the rejection; the counter stays within the number of checks |
| `CommandChecks.CheckBarrier.Start` | src/discordEvents.js:33-39 | logs the dispatch, starts with zero passes and the flag set, and runs the handler directly when there are no checks (line 60) |
| `CommandChecks.CheckBarrier.Report` | src/discordEvents.js:42-58 | a late report changes nothing; a pass increments the counter and runs the handler when the count reaches the number of checks; the first failure clears the flag, posts the check's key only if it is truthy (present and not empty), and logs the rejection; the state always equals the closed form of the reports so far |
| `CommandChecks.HandleCommand` | src/discordEvents.js:24-62 | an unknown command has no effect; too few arguments posts only `usage-<name>` and starts no check; otherwise the posts and handler calls are those of the closed form of the reports |
| `MessageRouting.IndexOfFrom` | src/discordEvents.js:69 | returns the first position at or after `from` where the pattern occurs, or -1 when there is none |
| `MessageRouting.IndexOfZeroIffPrefix` | src/discordEvents.js:69 | `indexOf(prefix) === 0` holds exactly when the content starts with the prefix |
| `MessageRouting.TrimStart` | src/discordEvents.js:85 | removes exactly the longest whitespace prefix |
| `MessageRouting.TrimEnd` | src/discordEvents.js:85 | removes exactly the longest whitespace suffix |
| `MessageRouting.Trim` | src/discordEvents.js:85 | the result is a contiguous part of the input; only whitespace lies outside it, and neither of its ends is whitespace |
| `MessageRouting.SplitSpaces` | src/discordEvents.js:86 | splitting on runs of spaces yields at least one piece, and no piece contains a space |
| `MessageRouting.SplitJoin` | src/discordEvents.js:86 | splitting undoes joining pieces without spaces by non-empty runs of spaces, where only the first and last piece may be empty |
| `MessageRouting.SplitSpacesDecomposes` | src/discordEvents.js:86 | every line is its pieces joined back by non-empty runs of spaces; with `SplitJoin` this pins the pieces down completely |
| `MessageRouting.InnerPiecesNonEmpty` | src/discordEvents.js:86 | only the first and the last piece of a split can be empty |
| `MessageRouting.TrimmedPiecesNonEmpty` | src/discordEvents.js:83-86 | a non-empty line with no leading or trailing space splits into non-empty pieces |
| `MessageRouting.ToLower` | src/discordEvents.js:88 | lowercasing keeps the length and maps each character through the ASCII lowercase map |
| `MessageRouting.LowerIsLower` | src/discordEvents.js:88 | a lowercased word has no upper-case letter, and lowercasing is idempotent |
| `MessageRouting.CommandLine` | src/discordEvents.js:83-86 | the pieces of the line after the prefix: at least one, none containing a space |
| `MessageRouting.Classify` | src/discordEvents.js:64-107 | bot authors are ignored; content that does not start with the prefix never reaches help or dispatch, and is answered with a fortune, a DM welcome or nothing; otherwise the lowercased first piece is the command, `help` or `?` gives the help panel, and anything else is dispatched with the remaining pieces as arguments |
| `MessageRouting.DispatchedWords` | src/discordEvents.js:83-92 | a dispatched command is never `help` or `?`, contains no space and no upper-case letter, and its arguments are non-empty and contain no spaces |
| `MessageRouting.HandleMessage` | src/discordEvents.js:64-108 | the effects of each branch: nothing, a fortune reply, a localised welcome, the help panel (never reaching the command handler), or those of `HandleCommand` on the parsed command |
| `MessageRouting.TypedLineSplits` | src/discordEvents.js:85-86 | non-empty words without whitespace, joined by runs of spaces, survive trimming and split back into exactly those words |
| `MessageRouting.ParsesTypedCommand` | src/discordEvents.js:69-92 | a line typed as the prefix and words separated by runs of spaces is routed to the help panel when the lowercased first word is `help` or `?`, and otherwise dispatched as that lowercased word with the other words as arguments |
| `RoutingConsequences.UsageWhenArgumentsMissing` | src/discordEvents.js:24-32 | a registered command typed with fewer words than its minimum number of arguments, with any runs of spaces between the words, posts exactly `usage-<command>` and never runs the handler |
| `Lifecycle.HandleError` | src/discordEvents.js:110-116 | logs the error and then its details; the last two steps destroy the stream and then log in again, neither happens earlier, and no stream is created |
| `Lifecycle.HandleGuildCreate` | src/discordEvents.js:118-126 | logs the join, then sends the English welcome DM to the owner exactly when the unserialized address has a truthy id, and otherwise logs the failure |
| `Lifecycle.HandleGuildDelete` | src/discordEvents.js:128-132 | exactly the departure log and the removal of the guild's subscriptions, followed by one stream creation exactly when `users > 0`; nothing else, and never a destruction |
| `Lifecycle.HandleReady` | src/discordEvents.js:134-138 | exactly three steps: the login log, the sanity check, then the stream creation, which happens nowhere earlier; the stream is never destroyed |
| `Lifecycle.HandleChannelDelete` | src/discordEvents.js:140-146 | removes the channel's subscriptions first; logs the count exactly when `subs > 0`; creates the stream exactly when `subs > 0 && users > 0`, and then only as the last step; one, two or three steps accordingly, never a destruction |
| `Lifecycle.RunStream` | src/discordEvents.js:113-114 | the number of streams built never decreases, and effects that neither create nor destroy a stream leave it as it was |
| `Lifecycle.RunStreamAppend` | src/discordEvents.js:113-114 | running two sequences of effects one after the other is the same as running them joined |
| `Lifecycle.ErrorStopsStream` | src/discordEvents.js:113-115 | after a client error the stream is down and no new stream has been built |
| `Lifecycle.ReadyStartsStream` | src/discordEvents.js:134-138 | after ready the stream is live and exactly one stream has been built |
| `Lifecycle.GuildDeleteRebuildsStream` | src/discordEvents.js:128-132 | leaving a guild builds a new live stream if `users > 0`, and leaves the stream untouched otherwise |
| `Lifecycle.ChannelDeleteRebuildsStream` | src/discordEvents.js:140-146 | deleting a channel builds a new live stream if `subs > 0 && users > 0`, and leaves the stream untouched otherwise |
| `Lifecycle.GuildCreateLeavesStream` | src/discordEvents.js:118-126 | joining a guild never touches the stream |

## Left out

- `src/discord.js` is not part of this model. It holds the login retry loop
  with its backoff timer (the `Backup` class is not part of this model
  either), the client lookups, and the permission-flag checks `canPostIn`
  and `canPostEmbedIn`. These are wrappers over the chat library and a
  network call.
- The help panel (src/discordEvents.js:93-103) is formatting done by the chat
  library. It is one `PostHelp(lang)` effect.
- `fortune()`, `i18n`, the `post` functions, `log`, `getLang`,
  `sanityCheck`, `rmGuild`, `rmChannel`, `createStream`, `destroyStream`,
  `login` and the `QChannel` class are collaborators. Their results are
  parameters (the fortune text, the language, the removal counts, the
  unserialized owner address), and calling them is an effect. Log lines are
  structured values, not formatted text.
- A collaborator that throws or whose promise rejects is not modelled: the
  handlers always take the success path. In the source the handler stops at
  that call. `handleReady` does not create the stream when `sanityCheck`
  rejects (src/discordEvents.js:136-137). `handleGuildDelete` does
  not restart the stream when `rmGuild` rejects (line 130), and
  `handleChannelDelete` neither logs nor restarts it when `rmChannel` rejects
  (line 141). Nothing is posted or dispatched when
  `getLang` rejects (lines 78, 90). A check that throws synchronously leaves
  the later checks unstarted and escapes `handleCommand` (lines 40-42).
  `handleError` does not log in again when `destroyStream` throws (lines
  114-115).
- Asynchrony is not modelled as concurrency. An `await` is sequential
  composition. Check callbacks are a sequence of reports in completion
  order.
- A check whose callback fires more than once is not modelled. The code does
  not guard against it, so `Report` and `HandleCommand` require each check
  to report at most once.
- A check that never reports leaves its command pending. The model
  represents this as a report sequence that lacks that check's index.
- `MessageRouting.ToLower`: lowercases only the ASCII letters A-Z.
  JavaScript's `toLowerCase` also maps the other Unicode letters, which are
  not modelled.
- `CommandChecks.HandleCommand`: models the command registry as a map, so a
  name is either registered or not. A JavaScript object lookup would also
  find inherited properties such as `constructor`; that case is not
  modelled.
- The mention test of src/discordEvents.js:70-74 is one boolean of the
  message: whether one of the mentioned members is the bot's own user.
