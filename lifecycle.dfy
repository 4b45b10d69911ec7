/**
 * The client lifecycle handlers of src/discordEvents.js: error, guild create,
 * guild delete, ready and channel delete. Each is a function from what its
 * collaborators return to the effects it issues, in order.
 *
 * The feed stream is provisioned with the followed accounts when it is
 * created and cannot be updated afterwards, so what matters about these
 * handlers is when they tear it down and when they rebuild it. `RunStream`
 * reads a sequence of effects as commands to the stream and gives the
 * resulting state, and the lemmas at the end state each handler's effect on it.
 */
module Lifecycle {
  import opened Effects

  /** A channel address rebuilt from its serialized form. The address object
      itself comes from a collaborator; `id` is absent when the serialized
      identifier was null or undefined. */
  datatype ChannelAddress = ChannelAddress(id: Option<string>)

  /** The `qc && qc.id` guard: an address that a message can be sent to. */
  predicate Deliverable(qc: Option<ChannelAddress>) {
    qc.Some? && Truthy(qc.value.id)
  }

  /** handleError: log, tear the feed stream down, log in again. */
  function HandleError(message: string): (r: seq<Effect>)
    ensures |r| == 4 && r[..2] == [Log(ClientError(message)), Log(ClientErrorDetails)]
    ensures r[|r| - 2] == DestroyStream && r[|r| - 1] == Login
    ensures DestroyStream !in r[..|r| - 2] && Login !in r[..|r| - 2]
    ensures CreateStream !in r
  {
    [Log(ClientError(message)), Log(ClientErrorDetails), DestroyStream, Login]
  }

  /** handleGuildCreate: welcome the owner of the joined guild by direct
      message, in English, when the owner's address is deliverable. */
  function HandleGuildCreate(guildName: string, owner: Option<ChannelAddress>): (r: seq<Effect>)
    ensures |r| == 2 && r[0] == Log(JoinedGuild(guildName))
    ensures r[1].DirectMessage? <==> Deliverable(owner)
    ensures Deliverable(owner) ==> r[1] == DirectMessage(owner.value.id.value, "en", "welcomeMessage")
    ensures !Deliverable(owner) ==> r[1] == Log(WelcomeFailed(guildName))
  {
    [Log(JoinedGuild(guildName))]
    + if owner.Some? && Truthy(owner.value.id)
      then [DirectMessage(owner.value.id.value, "en", "welcomeMessage")]
      else [Log(WelcomeFailed(guildName))]
  }

  /** handleGuildDelete: remove the guild's subscriptions; `users` is what the
      removal reports. The stream is rebuilt when `users > 0`. */
  function HandleGuildDelete(guildId: string, guildName: string, users: int): (r: seq<Effect>)
    ensures |r| == if users > 0 then 3 else 2
    ensures r[..2] == [Log(LeftGuild(guildName)), RemoveGuildSubscriptions(guildId)]
    ensures CreateStream in r <==> users > 0
    ensures CreateStream !in r[..2] && DestroyStream !in r
  {
    [Log(LeftGuild(guildName)), RemoveGuildSubscriptions(guildId)]
    + if users > 0 then [CreateStream] else []
  }

  /** handleReady: log, run the consistency check of the subscriptions, then
      start the feed stream. */
  function HandleReady(): (r: seq<Effect>)
    ensures |r| == 3 && r[0] == Log(LoggedIn) && r[|r| - 1] == CreateStream
    ensures CreateStream !in r[..|r| - 1] && SanityCheck in r[..|r| - 1]
    ensures DestroyStream !in r
  {
    var r := [Log(LoggedIn), SanityCheck, CreateStream];
    assert r[..2][1] == SanityCheck;
    r
  }

  /** handleChannelDelete: remove the channel's subscriptions; the removal
      reports `subs` removed subscriptions and `users` followed accounts
      left. Logs only when something was removed, and rebuilds the stream
      only when something was removed and some account is still followed. */
  function HandleChannelDelete(channelId: string, channelName: string, subs: int, users: int): (r: seq<Effect>)
    ensures |r| == if subs > 0 then (if users > 0 then 3 else 2) else 1
    ensures r[0] == RemoveChannelSubscriptions(channelId)
    ensures Log(ChannelDeleted(channelName, channelId, subs)) in r <==> subs > 0
    ensures CreateStream in r <==> subs > 0 && users > 0
    ensures CreateStream in r ==> r[|r| - 1] == CreateStream && CreateStream !in r[..|r| - 1]
    ensures DestroyStream !in r
  {
    [RemoveChannelSubscriptions(channelId)]
    + if subs > 0 then
        [Log(ChannelDeleted(channelName, channelId, subs))]
        + if users > 0 then [CreateStream] else []
      else []
  }

  // ---------------------------------------------------------------------
  // The feed stream, as driven by the effects above

  /** Whether a stream is live, and how many streams have been built. */
  datatype StreamState = StreamState(live: bool, builds: nat)

  /** Creating builds a new stream from the current subscriptions,
      destroying stops the live one, and nothing else touches the stream. */
  function StreamStep(s: StreamState, e: Effect): StreamState {
    match e
    case CreateStream => StreamState(true, s.builds + 1)
    case DestroyStream => StreamState(false, s.builds)
    case _ => s
  }

  /** The stream state after the effects `es`. */
  function RunStream(s: StreamState, es: seq<Effect>): (t: StreamState)
    ensures s.builds <= t.builds
    ensures CreateStream !in es && DestroyStream !in es ==> t == s
    decreases |es|
  {
    if es == [] then s
    else
      assert es == [es[0]] + es[1..];
      RunStream(StreamStep(s, es[0]), es[1..])
  }

  /** Running effects in two parts is running them in one. */
  lemma {:induction false} RunStreamAppend(s: StreamState, a: seq<Effect>, b: seq<Effect>)
    ensures RunStream(s, a + b) == RunStream(RunStream(s, a), b)
    decreases |a|
  {
    if a != [] {
      assert (a + b)[1..] == a[1..] + b;
      assert (a + b)[0] == a[0];
      RunStreamAppend(StreamStep(s, a[0]), a[1..], b);
    } else {
      assert a + b == b;
    }
  }

  /** After a client error the stream is down, none is built, and a new
      login follows. */
  lemma ErrorStopsStream(s: StreamState, message: string)
    ensures RunStream(s, HandleError(message)) == StreamState(false, s.builds)
  {
    var logs := [Log(ClientError(message)), Log(ClientErrorDetails)];
    assert HandleError(message) == logs + [DestroyStream, Login];
    RunStreamAppend(s, logs, [DestroyStream, Login]);
    assert RunStream(s, logs) == s;
    assert RunStream(s, [DestroyStream, Login]) == RunStream(StreamState(false, s.builds), [Login]);
  }

  /** Once ready, exactly one stream is built and it is live. */
  lemma ReadyStartsStream(s: StreamState)
    ensures RunStream(s, HandleReady()) == StreamState(true, s.builds + 1)
  {
    var r := HandleReady();
    assert r == [Log(LoggedIn), SanityCheck] + [CreateStream];
    RunStreamAppend(s, [Log(LoggedIn), SanityCheck], [CreateStream]);
  }

  /** Leaving a guild rebuilds the stream exactly when followed accounts remain. */
  lemma GuildDeleteRebuildsStream(s: StreamState, guildId: string, guildName: string, users: int)
    ensures RunStream(s, HandleGuildDelete(guildId, guildName, users)) ==
      if users > 0 then StreamState(true, s.builds + 1) else s
  {
    var head := [Log(LeftGuild(guildName)), RemoveGuildSubscriptions(guildId)];
    if users > 0 {
      RunStreamAppend(s, head, [CreateStream]);
    }
  }

  /** Deleting a channel rebuilds the stream exactly when subscriptions were
      removed and followed accounts remain. */
  lemma ChannelDeleteRebuildsStream(s: StreamState, channelId: string, channelName: string, subs: int, users: int)
    ensures RunStream(s, HandleChannelDelete(channelId, channelName, subs, users)) ==
      if subs > 0 && users > 0 then StreamState(true, s.builds + 1) else s
  {
    if subs > 0 && users > 0 {
      var head := [RemoveChannelSubscriptions(channelId), Log(ChannelDeleted(channelName, channelId, subs))];
      assert HandleChannelDelete(channelId, channelName, subs, users) == head + [CreateStream];
      RunStreamAppend(s, head, [CreateStream]);
    }
  }

  /** Joining a guild never touches the stream. */
  lemma GuildCreateLeavesStream(s: StreamState, guildName: string, owner: Option<ChannelAddress>)
    ensures RunStream(s, HandleGuildCreate(guildName, owner)) == s
  {
  }
}
