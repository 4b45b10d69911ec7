/**
 * Command dispatch through a registry and a fan-in barrier over the
 * command's asynchronous checks (handleCommand in src/discordEvents.js).
 *
 * Every check is started at once; each one later reports `passed` through a
 * callback. The callbacks share a pass counter and a validity flag: the
 * handler runs when the counter reaches the number of checks while the flag
 * still holds, and the first failure clears the flag for good.
 *
 * The callbacks are modelled as a sequence of reports, in completion order,
 * in which each check index appears at most once. The state reached after a
 * sequence of reports is given in closed form by the functions below, and
 * `CheckBarrier` keeps its fields equal to it.
 */
module CommandChecks {
  import opened Effects

  /** A check of a command: the predicate itself is a collaborator, whose
      verdict arrives as a `CheckReport`; `badB` is the optional message key
      posted when it fails. */
  datatype Check = Check(badB: Option<string>)

  /** An entry of the command registry. */
  datatype Command = Command(minArgs: nat, checks: seq<Check>)

  /** The callback of check number `index` fired with `passed`. */
  datatype CheckReport = CheckReport(index: nat, passed: bool)

  /** Reports of a command with `k` checks: every index names a check, and no
      check reports twice. */
  ghost predicate WellFormed(k: nat, h: seq<CheckReport>)
    decreases |h|
  {
    h == [] ||
    (&& WellFormed(k, h[..|h| - 1])
     && h[|h| - 1].index < k
     && forall j | 0 <= j < |h| - 1 :: h[j].index != h[|h| - 1].index)
  }

  /** `WellFormed`, stated for all positions at once. */
  lemma {:induction false} WellFormedPairwise(k: nat, h: seq<CheckReport>)
    ensures WellFormed(k, h) <==>
      && (forall j | 0 <= j < |h| :: h[j].index < k)
      && (forall j, l | 0 <= j < l < |h| :: h[j].index != h[l].index)
    decreases |h|
  {
    if h != [] {
      var init := h[..|h| - 1];
      WellFormedPairwise(k, init);
      assert forall j | 0 <= j < |init| :: init[j] == h[j];
    }
  }

  /** The position in `h` of the first failing report, if any. */
  function FirstFailure(h: seq<CheckReport>): (r: Option<nat>)
    ensures r.None? <==> forall j | 0 <= j < |h| :: h[j].passed
    ensures r.Some? ==> r.value < |h| && !h[r.value].passed
    ensures r.Some? ==> forall j | 0 <= j < r.value :: h[j].passed
  {
    if h == [] then None
    else if !h[0].passed then Some(0)
    else match FirstFailure(h[1..])
      case None => None
      case Some(p) => Some(p + 1)
  }

  /** `isValid` after the reports `h`. */
  predicate StillValid(h: seq<CheckReport>) {
    FirstFailure(h).None?
  }

  /** `validChecks` after the reports `h`: the passes counted before the
      first failure, after which no report is counted. */
  function PassesCounted(h: seq<CheckReport>): nat {
    match FirstFailure(h)
    case None => |h|
    case Some(p) => p
  }

  /** How often the handler has run after the reports `h`, for a command
      with `k` checks (for `k == 0` the handler runs directly, with no report). */
  function HandlerCallsAfter(k: nat, h: seq<CheckReport>): nat {
    if StillValid(h) && |h| == k then 1 else 0
  }

  /** What the first failure of a check with message key `badB` posts and
      logs: the key is posted only when it is truthy (present and not ""). */
  function Rejection(name: string, args: seq<string>, badB: Option<string>): seq<Effect> {
    (if Truthy(badB) then [PostTranslated(badB.value)] else [])
    + [Log(RejectedCommand(name, args, badB))]
  }

  /** The messages and log lines emitted by a dispatch after the reports `h`. */
  function PostedAfter(name: string, args: seq<string>, checks: seq<Check>, h: seq<CheckReport>): seq<Effect>
    requires WellFormed(|checks|, h)
  {
    [Log(ExecutingCommand(name, args))]
    + match FirstFailure(h)
      case None => []
      case Some(p) =>
        WellFormedPairwise(|checks|, h);
        Rejection(name, args, checks[h[p].index].badB)
  }

  /** The set of check indices that have reported. */
  function ReportedIndices(h: seq<CheckReport>): set<nat> {
    set j | 0 <= j < |h| :: h[j].index
  }

  /** Distinct indices below `k`: so at most `k` reports can arrive, and one
      more only if some index has not yet reported. */
  lemma {:induction false} ReportsBounded(k: nat, h: seq<CheckReport>)
    requires WellFormed(k, h)
    ensures |ReportedIndices(h)| == |h| <= k
  {
    if h != [] {
      var init := h[..|h| - 1];
      ReportsBounded(k, init);
      assert forall j | 0 <= j < |init| :: init[j] == h[j];
      assert ReportedIndices(h) == ReportedIndices(init) + {h[|h| - 1].index};
      assert h[|h| - 1].index !in ReportedIndices(init);
    }
    WellFormedPairwise(k, h);
    IndicesBelow(k, ReportedIndices(h));
  }

  /** A set of naturals below `k` has at most `k` elements. */
  lemma {:induction false} IndicesBelow(k: nat, s: set<nat>)
    requires forall x | x in s :: x < k
    ensures |s| <= k
  {
    if k > 0 {
      IndicesBelow(k - 1, s - {k - 1});
    } else {
      assert s == {};
    }
  }

  lemma FreshIndexLeavesRoom(k: nat, h: seq<CheckReport>, i: nat)
    requires WellFormed(k, h) && i < k
    requires forall j | 0 <= j < |h| :: h[j].index != i
    ensures |h| < k
  {
    var h' := h + [CheckReport(i, true)];
    assert h'[..|h|] == h;
    ReportsBounded(k, h');
  }

  /** How one more report changes the first failure. */
  lemma {:induction false} FirstFailureExtend(h: seq<CheckReport>, r: CheckReport)
    ensures FirstFailure(h + [r]) ==
      if FirstFailure(h).Some? then FirstFailure(h)
      else if r.passed then None
      else Some(|h|)
  {
    if h != [] {
      assert (h + [r])[1..] == h[1..] + [r];
      FirstFailureExtend(h[1..], r);
    }
  }

  /** Once a report has failed, later reports change nothing: neither the
      counter, nor the flag, nor the handler calls, nor what was posted. */
  lemma {:induction false} FailureIsFinal(name: string, args: seq<string>, checks: seq<Check>,
                                         h: seq<CheckReport>, later: seq<CheckReport>)
    requires WellFormed(|checks|, h + later)
    requires !StillValid(h)
    ensures WellFormed(|checks|, h)
    ensures !StillValid(h + later)
    ensures PassesCounted(h + later) == PassesCounted(h)
    ensures HandlerCallsAfter(|checks|, h + later) == HandlerCallsAfter(|checks|, h) == 0
    ensures PostedAfter(name, args, checks, h + later) == PostedAfter(name, args, checks, h)
  {
    if later == [] {
      assert h + later == h;
    } else {
      var last := later[|later| - 1];
      var init := later[..|later| - 1];
      assert h + later == (h + init) + [last];
      assert (h + later)[..|h + later| - 1] == h + init;
      FailureIsFinal(name, args, checks, h, init);
      FirstFailureExtend(h + init, last);
    }
  }

  /** What one more report, from a check that has not reported yet, does to
      the closed form: nothing after a failure; a pass counts and completes
      the handler when it is the last one; the first failure clears validity
      and appends the rejection. */
  lemma ReportStep(name: string, args: seq<string>, checks: seq<Check>,
                   h: seq<CheckReport>, r: CheckReport)
    requires WellFormed(|checks|, h) && r.index < |checks|
    requires forall j | 0 <= j < |h| :: h[j].index != r.index
    ensures WellFormed(|checks|, h + [r])
    ensures HandlerCallsAfter(|checks|, h) == 0 || |checks| == 0
    ensures StillValid(h + [r]) == (StillValid(h) && r.passed)
    ensures PassesCounted(h + [r]) ==
      if StillValid(h) && r.passed then PassesCounted(h) + 1 else PassesCounted(h)
    ensures PassesCounted(h + [r]) <= |checks|
    ensures HandlerCallsAfter(|checks|, h + [r]) ==
      if StillValid(h) && r.passed && PassesCounted(h) + 1 == |checks| then 1 else 0
    ensures PostedAfter(name, args, checks, h + [r]) ==
      if StillValid(h) && !r.passed
      then PostedAfter(name, args, checks, h) + Rejection(name, args, checks[r.index].badB)
      else PostedAfter(name, args, checks, h)
  {
    var h' := h + [r];
    assert h'[..|h|] == h;
    FreshIndexLeavesRoom(|checks|, h, r.index);
    ReportsBounded(|checks|, h');
    FirstFailureExtend(h, r);
    PostedStep(name, args, checks, h, r);
  }

  /** The posts part of `ReportStep`. */
  lemma PostedStep(name: string, args: seq<string>, checks: seq<Check>,
                   h: seq<CheckReport>, r: CheckReport)
    requires WellFormed(|checks|, h) && WellFormed(|checks|, h + [r])
    ensures PostedAfter(name, args, checks, h + [r]) ==
      if StillValid(h) && !r.passed
      then PostedAfter(name, args, checks, h) + Rejection(name, args, checks[r.index].badB)
      else PostedAfter(name, args, checks, h)
  {
    FirstFailureExtend(h, r);
    assert forall j | 0 <= j < |h| :: (h + [r])[j] == h[j];
  }

  /** The counter never decreases and never exceeds the number of checks. */
  lemma PassesMonotone(k: nat, h: seq<CheckReport>, r: CheckReport)
    requires WellFormed(k, h + [r])
    ensures WellFormed(k, h)
    ensures PassesCounted(h) <= PassesCounted(h + [r]) <= k
  {
    assert (h + [r])[..|h|] == h;
    FirstFailureExtend(h, r);
    ReportsBounded(k, h + [r]);
  }

  /** The handler has run exactly when the flag holds and the counter has
      reached the number of checks. */
  lemma HandlerRanIffAllCounted(k: nat, h: seq<CheckReport>)
    requires WellFormed(k, h)
    ensures HandlerCallsAfter(k, h) <= 1
    ensures HandlerCallsAfter(k, h) == 1 <==> StillValid(h) && PassesCounted(h) == k
  {
  }

  /** With all `k > 0` checks passing, in whatever order they complete, the
      handler runs exactly once, and it does so on the k-th report. */
  lemma {:induction false} AllPassRunsHandlerOnLastReport(k: nat, h: seq<CheckReport>)
    requires WellFormed(k, h) && |h| == k > 0
    requires forall j | 0 <= j < |h| :: h[j].passed
    ensures HandlerCallsAfter(k, h) == 1
    ensures forall n | 0 <= n < k :: HandlerCallsAfter(k, h[..n]) == 0
  {
    forall n | 0 <= n < k
      ensures HandlerCallsAfter(k, h[..n]) == 0
    {
      assert |h[..n]| == n;
    }
  }

  /** Independence from completion order: two deliveries of the same
      reports agree on whether the command stays valid and on how often the
      handler runs; when every check passes they also agree on the counter
      and on everything posted. */
  lemma {:induction false} CompletionOrderIrrelevant(name: string, args: seq<string>, checks: seq<Check>,
                                                   h1: seq<CheckReport>, h2: seq<CheckReport>)
    requires WellFormed(|checks|, h1) && WellFormed(|checks|, h2)
    requires multiset(h1) == multiset(h2)
    ensures StillValid(h1) == StillValid(h2)
    ensures HandlerCallsAfter(|checks|, h1) == HandlerCallsAfter(|checks|, h2)
    ensures StillValid(h1) ==> PassesCounted(h1) == PassesCounted(h2)
    ensures StillValid(h1) ==> PostedAfter(name, args, checks, h1) == PostedAfter(name, args, checks, h2)
  {
    assert |h1| == |multiset(h1)| == |multiset(h2)| == |h2|;
    AllPassedSameMultiset(h1, h2);
    AllPassedSameMultiset(h2, h1);
  }

  lemma AllPassedSameMultiset(h1: seq<CheckReport>, h2: seq<CheckReport>)
    requires multiset(h1) == multiset(h2)
    ensures (forall j | 0 <= j < |h1| :: h1[j].passed) ==> (forall j | 0 <= j < |h2| :: h2[j].passed)
  {
    if forall j | 0 <= j < |h1| :: h1[j].passed {
      forall j | 0 <= j < |h2|
        ensures h2[j].passed
      {
        assert h2[j] in multiset(h1);
      }
    }
  }

  /** At most one rejection is ever posted: exactly one when the first
      failing check carries a truthy message key, none otherwise (so the
      empty key is never posted). */
  lemma RejectionPostedAtMostOnce(name: string, args: seq<string>, checks: seq<Check>,
                                  h: seq<CheckReport>, key: string)
    requires WellFormed(|checks|, h)
    ensures forall j | 0 <= j < |h| :: h[j].index < |checks|
    ensures multiset(PostedAfter(name, args, checks, h))[PostTranslated(key)] ==
      match FirstFailure(h)
      case None => 0
      case Some(p) => if checks[h[p].index].badB == Some(key) && key != "" then 1 else 0
  {
    WellFormedPairwise(|checks|, h);
  }

  /**
   * The closure state of one dispatch of a command (lines 37-38 of
   * src/discordEvents.js) together with the effects it has produced and how
   * often it has run the handler. `posted` holds both the messages posted and
   * the lines logged, in order. `history` is the ghost record of the reports
   * so far.
   */
  class CheckBarrier {
    const name: string
    const args: seq<string>
    const checks: seq<Check>
    var validChecks: nat
    var isValid: bool
    var handlerCalls: nat
    var posted: seq<Effect>
    ghost var history: seq<CheckReport>

    ghost predicate Valid()
      reads this
    {
      && WellFormed(|checks|, history)
      && validChecks == PassesCounted(history)
      && isValid == StillValid(history)
      && handlerCalls == HandlerCallsAfter(|checks|, history)
      && posted == PostedAfter(name, args, checks, history)
    }

    /** Logs the dispatch, starts the counters and, when the command has no
        checks, runs the handler directly. */
    constructor Start(name: string, args: seq<string>, checks: seq<Check>)
      ensures Valid() && history == []
      ensures this.name == name && this.args == args && this.checks == checks
      ensures validChecks == 0 && isValid
      ensures handlerCalls == (if |checks| == 0 then 1 else 0)
      ensures posted == [Log(ExecutingCommand(name, args))]
    {
      this.name := name;
      this.args := args;
      this.checks := checks;
      validChecks := 0;
      isValid := true;
      posted := [Log(ExecutingCommand(name, args))];
      history := [];
      handlerCalls := 0;
      new;
      if |checks| == 0 {
        handlerCalls := handlerCalls + 1;
      }
    }

    /** The callback of check `i`, fired with `passed`. Once the flag is
        cleared nothing changes; a pass is counted and runs the handler when
        it completes the count; the first failure clears the flag, posts the
        check's message key if it is truthy, and logs the rejection. */
    method Report(i: nat, passed: bool)
      requires Valid()
      requires i < |checks|
      requires forall j | 0 <= j < |history| :: history[j].index != i
      modifies this
      ensures Valid() && history == old(history) + [CheckReport(i, passed)]
      ensures old(validChecks) <= validChecks <= |checks|
      ensures isValid == (old(isValid) && passed)
      ensures validChecks == old(validChecks) + (if old(isValid) && passed then 1 else 0)
      ensures handlerCalls ==
        old(handlerCalls) + (if old(isValid) && passed && validChecks == |checks| then 1 else 0)
      ensures posted ==
        old(posted) + (if old(isValid) && !passed then Rejection(name, args, checks[i].badB) else [])
    {
      ghost var h, r := history, CheckReport(i, passed);
      ReportStep(name, args, checks, h, r);
      if isValid {
        if passed {
          validChecks := validChecks + 1;
          if validChecks == |checks| {
            handlerCalls := handlerCalls + 1;
          }
        } else {
          isValid := false;
          ghost var before := posted;
          if Truthy(checks[i].badB) {
            posted := posted + [PostTranslated(checks[i].badB.value)];
          }
          posted := posted + [Log(RejectedCommand(name, args, checks[i].badB))];
          assert posted == before + Rejection(name, args, checks[i].badB);
        }
      }
      history := h + [r];
      assert validChecks == PassesCounted(history) && isValid == StillValid(history);
      assert handlerCalls == HandlerCallsAfter(|checks|, history);
      assert posted == PostedAfter(name, args, checks, history);
    }
  }

  /**
   * handleCommand: looks the command up, enforces its minimum argument count,
   * then starts every check and delivers the `reports` to their callbacks in
   * the order given. Returns what was posted or logged and how often the
   * handler ran.
   */
  method HandleCommand(registry: map<string, Command>, name: string, args: seq<string>,
                       reports: seq<CheckReport>)
    returns (posted: seq<Effect>, handlerCalls: nat)
    requires name in registry ==> WellFormed(|registry[name].checks|, reports)
    ensures name !in registry ==> posted == [] && handlerCalls == 0
    ensures name in registry && |args| < registry[name].minArgs ==>
      posted == [PostTranslated("usage-" + name)] && handlerCalls == 0
    ensures name in registry && |args| >= registry[name].minArgs ==>
      var checks := registry[name].checks;
      && posted == PostedAfter(name, args, checks, reports)
      && handlerCalls == HandlerCallsAfter(|checks|, reports)
  {
    if name !in registry {
      return [], 0;
    }
    var command := registry[name];
    if |args| < command.minArgs {
      return [PostTranslated("usage-" + name)], 0;
    }
    var barrier := new CheckBarrier.Start(name, args, command.checks);
    Deliver(barrier, reports);
    posted, handlerCalls := barrier.posted, barrier.handlerCalls;
  }

  /** In well-formed reports, the next report names a check that has not
      reported before it. */
  lemma NextReportFresh(k: nat, reports: seq<CheckReport>, n: nat, h: seq<CheckReport>)
    requires WellFormed(k, reports) && n < |reports| && h == reports[..n]
    ensures reports[n].index < k
    ensures forall j | 0 <= j < |h| :: h[j].index != reports[n].index
  {
    WellFormedPairwise(k, reports);
  }

  /** Fires the callback of report `n`, after those before it. */
  method DeliverNext(barrier: CheckBarrier, reports: seq<CheckReport>, n: nat)
    requires n < |reports| && WellFormed(|barrier.checks|, reports)
    requires barrier.Valid() && barrier.history == reports[..n]
    modifies barrier
    ensures barrier.Valid() && barrier.history == reports[..n + 1]
  {
    NextReportFresh(|barrier.checks|, reports, n, barrier.history);
    barrier.Report(reports[n].index, reports[n].passed);
    assert reports[..n + 1] == reports[..n] + [reports[n]];
  }

  /** Fires the check callbacks of a fresh dispatch in the order of `reports`. */
  method Deliver(barrier: CheckBarrier, reports: seq<CheckReport>)
    requires barrier.Valid() && barrier.history == []
    requires WellFormed(|barrier.checks|, reports)
    modifies barrier
    ensures barrier.Valid() && barrier.history == reports
  {
    var n := 0;
    while n < |reports|
      invariant 0 <= n <= |reports|
      invariant barrier.Valid() && barrier.history == reports[..n]
    {
      DeliverNext(barrier, reports, n);
      n := n + 1;
    }
    assert reports[..n] == reports;
  }
}
