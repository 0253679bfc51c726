/**
 The channel failover loop of `Relay` (controller/relay.go).

 Everything the loop cannot decide itself is an oracle in `Env`, indexed by the attempt number,
 so a statement about all environments is a statement about all runs.  Errors are opaque codes;
 the log produced by a failed attempt is named by the number of that attempt.
 */
module Failover {
  import opened Options
  import opened Runs
  import opened Selection

  type Error = int

  datatype Env = Env(
    pinned: bool,                                 // specific_channel_id is set
    first: ChannelId,                             // the distributor's channel
    firstSetup: Option<Error>,                    // its preserved setup error
    eligible: set<ChannelId>,                     // channels of the resolved group for this model
    select: Select<Error>,                        // selector, given the use_channel list
    begin: nat -> bool,                           // BeginChannelAttempt
    body: nat -> Option<Error>,                   // GetBodyStorage
    handle: nat -> Option<Error>,                 // the relay handler
    logged: nat -> bool,                          // an error log is produced for the failed attempt
    sent: nat -> bool,                            // HasSendResponse at the failure check
    cancelled: nat -> bool,                       // request context done at the failure check
    normalize: Error -> Error,                    // NormalizeViolationFeeError on a non-nil error
    skipRetry: Error -> bool,                     // IsSkipRetryError
    noChannel: Error)

  datatype Attempt =
    | SetupFailed(channel: ChannelId, error: Error)
    | BodyFailed(channel: ChannelId, error: Error)
    | HandlerFailed(channel: ChannelId, error: Error)
    | Succeeded(channel: ChannelId)

  /** A call of `relayAttemptErrorLog.record` for the log of the given attempt. */
  datatype Record = Record(attempt: nat, intermediate: bool)

  /** Why the loop stopped. */
  datatype Stop = Refused | NoChannel(failure: Option<Error>) | GaveUp | Done

  ghost predicate SelectorSafe(env: Env) {
    Safe(env.select, env.eligible)
  }

  /** `shouldContinueSameGroupFailover` at the failure check of attempt k. */
  predicate ShouldContinue(env: Env, k: nat) {
    !env.pinned && !env.sent(k) && !env.cancelled(k)
  }

  function PickFor(env: Env, k: nat, used: seq<ChannelId>): Pick<Error> {
    if k == 0 then Found(env.first, env.firstSetup) else env.select(k, used)
  }

  /** What attempt k does once its channel is chosen. */
  function Outcome(env: Env, k: nat, channel: ChannelId, setup: Option<Error>): Attempt {
    if setup.Some? then SetupFailed(channel, env.normalize(setup.value))
    else if env.body(k).Some? then BodyFailed(channel, env.body(k).value)
    else if env.handle(k).Some? then HandlerFailed(channel, env.normalize(env.handle(k).value))
    else Succeeded(channel)
  }

  /** A failure of the channel itself: the only kind that produces a log or lets failover go on. */
  predicate ChannelFailed(a: Attempt) {
    a.SetupFailed? || a.HandlerFailed?
  }

  /** The channels tried, in order: the request's `use_channel` list. */
  function Channels(attempts: seq<Attempt>): (used: seq<ChannelId>)
    ensures |used| == |attempts| && forall i :: 0 <= i < |used| ==> used[i] == attempts[i].channel
  {
    seq(|attempts|, i requires 0 <= i < |attempts| => attempts[i].channel)
  }

  /** The failure check after the attempts so far lets the loop go round again. */
  ghost predicate GoesOn(env: Env, attempts: seq<Attempt>) {
    attempts != [] ==> ChannelFailed(attempts[|attempts|-1]) && ShouldContinue(env, |attempts|-1)
  }

  /** Attempt a is what the environment dictates after the given attempts. */
  ghost predicate Follows(env: Env, attempts: seq<Attempt>, a: Attempt) {
    && GoesOn(env, attempts)
    && env.begin(|attempts|)
    && var p := PickFor(env, |attempts|, Channels(attempts));
       p.Found? && a == Outcome(env, |attempts|, p.channel, p.setup)
  }

  ghost function FollowsIn(env: Env): Follow<Attempt> {
    (attempts, a) => Follows(env, attempts, a)
  }

  /** The attempts of a run, finished or not. */
  ghost predicate IsRun(env: Env, attempts: seq<Attempt>) {
    IsRunOf(FollowsIn(env), attempts)
  }

  /** The run cannot go on, for the stated reason. */
  ghost predicate IsStop(env: Env, attempts: seq<Attempt>, stop: Stop) {
    var n := |attempts|;
    match stop
    case Refused => GoesOn(env, attempts) && !env.begin(n)
    case NoChannel(f) =>
      n > 0 && GoesOn(env, attempts) && env.begin(n) && PickFor(env, n, Channels(attempts)) == Missing(f)
    case GaveUp => n > 0 && !attempts[n-1].Succeeded? && !GoesOn(env, attempts)
    case Done => n > 0 && attempts[n-1].Succeeded?
  }

  function Logs(env: Env): (nat, Attempt) -> bool {
    (n: nat, a: Attempt) => ChannelFailed(a) && env.logged(n)
  }

  /** The logs produced by the attempts, oldest first. */
  function Produced(env: Env, attempts: seq<Attempt>): seq<nat> {
    Marked(Logs(env), attempts)
  }

  function LogsOf(records: seq<Record>): (ls: seq<nat>)
    ensures |ls| == |records| && forall i :: 0 <= i < |ls| ==> ls[i] == records[i].attempt
  {
    seq(|records|, i requires 0 <= i < |records| => records[i].attempt)
  }

  /** A log is intermediate exactly when some later attempt got past reading the request body. */
  ghost predicate Superseded(attempts: seq<Attempt>, log: nat) {
    exists i :: log < i < |attempts| && !attempts[i].BodyFailed?
  }

  function ErrorOf(a: Attempt): Option<Error> {
    if a.Succeeded? then None else Some(a.error)
  }

  /** The error the loop leaves behind: a selector failure, or else the last attempt's own result. */
  function LoopError(attempts: seq<Attempt>, stop: Stop): Option<Error> {
    if stop.NoChannel? && stop.failure.Some? then stop.failure
    else if attempts == [] then None
    else ErrorOf(attempts[|attempts|-1])
  }

  lemma {:induction false} Snoc(env: Env, attempts: seq<Attempt>, a: Attempt)
    ensures Channels(attempts + [a]) == Channels(attempts) + [a.channel]
    ensures Produced(env, attempts + [a])
         == Produced(env, attempts) + if ChannelFailed(a) && env.logged(|attempts|) then [|attempts|] else []
    ensures IsRun(env, attempts + [a]) <==> IsRun(env, attempts) && Follows(env, attempts, a)
  {
    RunSnoc(FollowsIn(env), attempts, a);
    assert (attempts + [a])[..|attempts|] == attempts;
  }

  /** `relayAttemptErrorLog.record`, when a log is pending. */
  function RecordPending(records: seq<Record>, pending: Option<nat>, intermediate: bool): seq<Record> {
    if pending.None? then records else records + [Record(pending.value, intermediate)]
  }

  lemma LogsOfSnoc(records: seq<Record>, r: Record)
    ensures LogsOf(records + [r]) == LogsOf(records) + [r.attempt]
  {
  }

  lemma {:induction false} RecordedIff(records: seq<Record>)
    ensures forall k: nat :: (exists j :: 0 <= j < |records| && records[j].attempt == k) <==> k in LogsOf(records)
  {
    var logs := LogsOf(records);
    forall k: nat ensures (exists j :: 0 <= j < |records| && records[j].attempt == k) <==> k in logs {
      if k in logs {
        var j :| 0 <= j < |logs| && logs[j] == k;
        assert records[j].attempt == k;
      }
      if j :| 0 <= j < |records| && records[j].attempt == k { assert logs[j] == k; }
    }
  }

  /** How a pending log is recorded does not change which logs are. */
  lemma {:induction false} FlushKeepsLogs(records: seq<Record>, pending: Option<nat>)
    ensures LogsOf(RecordPending(records, pending, true)) == LogsOf(RecordPending(records, pending, false))
  {
    if pending.Some? {
      LogsOfSnoc(records, Record(pending.value, true));
      LogsOfSnoc(records, Record(pending.value, false));
    }
  }

  /** Every record is justified by the attempts, in both directions. */
  ghost predicate Justified(attempts: seq<Attempt>, records: seq<Record>) {
    forall j :: 0 <= j < |records| ==> (records[j].intermediate <==> Superseded(attempts, records[j].attempt))
  }

  /** Recorded and pending logs are together the logs produced; every record is intermediate. */
  ghost predicate LogsAgree(env: Env, attempts: seq<Attempt>, records: seq<Record>, pending: Option<nat>) {
    && LogsOf(RecordPending(records, pending, false)) == Produced(env, attempts)
    && (pending.Some? ==> pending.value < |attempts| && !Superseded(attempts, pending.value))
    && (forall j :: 0 <= j < |records| ==> records[j].intermediate && Superseded(attempts, records[j].attempt))
  }

  /** The one-slot log after an attempt that got past reading the body. */
  function NewPending(env: Env, n: nat): Option<nat> {
    if env.logged(n) then Some(n) else None
  }

  lemma SupersededSnoc(attempts: seq<Attempt>, a: Attempt, log: nat)
    ensures Superseded(attempts + [a], log)
       <==> Superseded(attempts, log) || (log < |attempts| && !a.BodyFailed?)
  {
    var longer := attempts + [a];
    if Superseded(attempts, log) {
      var i :| log < i < |attempts| && !attempts[i].BodyFailed?;
      assert longer[i] == attempts[i];
    }
    if log < |attempts| && !a.BodyFailed? { assert longer[|attempts|] == a; }
  }

  /** An attempt that got past the body flushes the pending log as intermediate. */
  lemma FlushKeepsAgreement(env: Env, attempts: seq<Attempt>, records: seq<Record>, pending: Option<nat>, a: Attempt)
    requires LogsAgree(env, attempts, records, pending) && !a.BodyFailed?
    ensures LogsAgree(env, attempts + [a], RecordPending(records, pending, true),
                      if ChannelFailed(a) then NewPending(env, |attempts|) else None)
  {
    var n := |attempts|;
    var flushed := RecordPending(records, pending, true);
    Snoc(env, attempts, a);
    FlushKeepsLogs(records, pending);
    LogsOfSnoc(flushed, Record(n, false));
    forall j | 0 <= j < |flushed|
      ensures flushed[j].intermediate && Superseded(attempts + [a], flushed[j].attempt)
    {
      SupersededSnoc(attempts, a, flushed[j].attempt);
    }
  }

  /** A body failure ends the loop and leaves the pending log to be recorded as final. */
  lemma BodyFailureKeepsAgreement(env: Env, attempts: seq<Attempt>, records: seq<Record>, pending: Option<nat>, a: Attempt)
    requires LogsAgree(env, attempts, records, pending) && a.BodyFailed?
    ensures LogsAgree(env, attempts + [a], records, pending)
  {
    Snoc(env, attempts, a);
    if pending.Some? { SupersededSnoc(attempts, a, pending.value); }
    forall j | 0 <= j < |records|
      ensures records[j].intermediate && Superseded(attempts + [a], records[j].attempt)
    {
      SupersededSnoc(attempts, a, records[j].attempt);
    }
  }

  /** After the loop whatever is still pending is recorded as final. */
  lemma {:induction false} FinalRecordsAreJustified(env: Env, attempts: seq<Attempt>, records: seq<Record>, pending: Option<nat>)
    requires LogsAgree(env, attempts, records, pending)
    ensures Justified(attempts, RecordPending(records, pending, false))
  {
  }

  /** The variables the loop carries from one attempt to the next. */
  datatype Loop = Loop(
    attempts: seq<Attempt>,
    used: seq<ChannelId>,
    err: Option<Error>,
    lastError: Option<Error>,
    pending: Option<nat>,
    records: seq<Record>)

  ghost predicate LoopOk(env: Env, s: Loop) {
    && IsRun(env, s.attempts)
    && s.used == Channels(s.attempts)
    && LogsAgree(env, s.attempts, s.records, s.pending)
  }

  /** The part of the loop body that runs once a channel is chosen. */
  method UseChannel(env: Env, s: Loop, channel: ChannelId, setup: Option<Error>) returns (t: Loop, stop: Option<Stop>)
    requires LoopOk(env, s) && Follows(env, s.attempts, Outcome(env, |s.attempts|, channel, setup))
    ensures t.attempts == s.attempts + [Outcome(env, |s.attempts|, channel, setup)]
    ensures t.used == s.used + [channel]
    ensures LoopOk(env, t)
    ensures t.err == LoopError(t.attempts, Refused) && (stop.None? ==> t.lastError == t.err)
    ensures stop == if GoesOn(env, t.attempts) then None
                    else Some(if t.attempts[|s.attempts|].Succeeded? then Done else GaveUp)
  {
    var k := |s.attempts|;
    ghost var a := Outcome(env, k, channel, setup);
    Snoc(env, s.attempts, a);
    if a.BodyFailed? {
      BodyFailureKeepsAgreement(env, s.attempts, s.records, s.pending, a);
    } else {
      FlushKeepsAgreement(env, s.attempts, s.records, s.pending, a);
    }
    t := s.(used := s.used + [channel]);
    stop := Some(GaveUp);
    if setup.Some? {
      var e := env.normalize(setup.value);
      t := t.(err := Some(e), lastError := Some(e),
              records := RecordPending(s.records, s.pending, true), pending := NewPending(env, k),
              attempts := s.attempts + [SetupFailed(channel, e)]);
      if ShouldContinue(env, k) { stop := None; }
    } else if env.body(k).Some? {
      var e := env.body(k).value;
      t := t.(err := Some(e), attempts := s.attempts + [BodyFailed(channel, e)]);
    } else {
      t := t.(records := RecordPending(s.records, s.pending, true), pending := None);
      var result := env.handle(k);
      if result.None? {
        t := t.(err := None, lastError := None, attempts := s.attempts + [Succeeded(channel)]);
        stop := Some(Done);
      } else {
        var e := env.normalize(result.value);
        t := t.(err := Some(e), lastError := Some(e), pending := NewPending(env, k),
                attempts := s.attempts + [HandlerFailed(channel, e)]);
        if ShouldContinue(env, k) { stop := None; }
      }
    }
  }

  /** Break out before a channel is tried: the attempt is refused, or there is no channel for it. */
  method StopBefore(env: Env, s: Loop, p: Pick<Error>) returns (t: Loop, stop: Stop)
    requires LoopOk(env, s) && GoesOn(env, s.attempts) && s.err == s.lastError == LoopError(s.attempts, Refused)
    requires p == PickFor(env, |s.attempts|, s.used) && (!env.begin(|s.attempts|) || p.Missing?)
    ensures LoopOk(env, t) && IsStop(env, t.attempts, stop) && t.err == LoopError(t.attempts, stop)
  {
    t, stop := s, Refused;
    if env.begin(|s.attempts|) {
      t := s.(err := if p.failure.Some? then p.failure
                     else if s.lastError.Some? then s.lastError else Some(env.noChannel));
      stop := NoChannel(p.failure);
    }
  }

  lemma {:induction false} EndsFor(env: Env, attempts: seq<Attempt>)
    requires attempts != []
    ensures var stop := if attempts[|attempts|-1].Succeeded? then Done else GaveUp;
            && (!GoesOn(env, attempts) ==> IsStop(env, attempts, stop))
            && LoopError(attempts, stop) == LoopError(attempts, Refused)
  {
  }

  /** One pass through the loop body; `stop` is set when the pass breaks out or returns. */
  method AttemptOnce(env: Env, s: Loop) returns (t: Loop, stop: Option<Stop>)
    requires LoopOk(env, s) && GoesOn(env, s.attempts)
    requires s.err == s.lastError == LoopError(s.attempts, Refused)
    ensures LoopOk(env, t)
    ensures stop.None? ==> GoesOn(env, t.attempts) && t.err == t.lastError == LoopError(t.attempts, Refused)
    ensures stop.None? ==> t.attempts != []
    ensures stop.None? ==> var p := PickFor(env, |s.attempts|, s.used); p.Found? && t.used == s.used + [p.channel]
    ensures stop.Some? ==> IsStop(env, t.attempts, stop.value) && t.err == LoopError(t.attempts, stop.value)
  {
    var k := |s.attempts|;
    var p := if k == 0 then Found(env.first, env.firstSetup) else env.select(k, s.used);
    if !env.begin(k) || p.Missing? {
      var why;
      t, why := StopBefore(env, s, p);
      stop := Some(why);
    } else {
      t, stop := UseChannel(env, s, p.channel, p.setup);
      EndsFor(env, t.attempts);
    }
  }

  /** The `for` loop itself. */
  method TryChannels(env: Env) returns (s: Loop, stop: Stop)
    requires SelectorSafe(env)
    ensures LoopOk(env, s) && IsStop(env, s.attempts, stop) && s.err == LoopError(s.attempts, stop)
  {
    s := Loop([], [], None, None, None, []);
    var stopped: Option<Stop> := None;
    while stopped.None?
      invariant LoopOk(env, s)
      invariant stopped.None? ==> GoesOn(env, s.attempts) && s.err == s.lastError == LoopError(s.attempts, Refused)
      invariant stopped.Some? ==> IsStop(env, s.attempts, stopped.value) && s.err == LoopError(s.attempts, stopped.value)
      decreases stopped.None?, Untried(env.eligible, s.used), s.attempts == []
    {
      ghost var p := PickFor(env, |s.attempts|, s.used);
      if p.Found? { UntriedShrinks(env.select, env.eligible, |s.attempts|, s.used, p.channel); }
      s, stopped := AttemptOnce(env, s);
    }
    stop := stopped.value;
  }

  method FailoverLoop(env: Env)
    returns (err: Option<Error>, attempts: seq<Attempt>, used: seq<ChannelId>, records: seq<Record>, stop: Stop)
    requires SelectorSafe(env)
    ensures IsRun(env, attempts) && used == Channels(attempts)
    ensures IsStop(env, attempts, stop)
    ensures err == LoopError(attempts, stop)
    ensures LogsOf(records) == Produced(env, attempts)
    ensures Justified(attempts, records)
  {
    var s;
    s, stop := TryChannels(env);
    err, attempts, used, records := s.err, s.attempts, s.used, RecordPending(s.records, s.pending, false);
    FinalRecordsAreJustified(env, s.attempts, s.records, s.pending);
  }

  // ----- what holds of every run -----

  /** The attempts up to any point are themselves a run, and the next attempt follows from them. */
  lemma {:induction false} RunPrefix(env: Env, attempts: seq<Attempt>, i: nat)
    requires IsRun(env, attempts) && i < |attempts|
    ensures IsRun(env, attempts[..i]) && Follows(env, attempts[..i], attempts[i])
  {
    PrefixIsRun(FollowsIn(env), attempts, i);
  }

  lemma {:induction false} ChannelsAt(attempts: seq<Attempt>, i: nat)
    requires i < |attempts|
    ensures Channels(attempts)[i] == attempts[i].channel
    ensures Channels(attempts[..i]) == Channels(attempts)[..i]
  {
  }

  /** The channels of a run are the selector's answers. */
  lemma {:induction false} RunIsPicked(env: Env, attempts: seq<Attempt>)
    requires IsRun(env, attempts)
    ensures Picked(env.select, Channels(attempts))
  {
    forall i | 0 < i < |attempts| ensures PickedAt(env.select, Channels(attempts), i) {
      RunPrefix(env, attempts, i);
      ChannelsAt(attempts, i);
    }
  }

  /** No channel is tried twice, and from the second attempt on each is one of the group's. */
  lemma {:induction false} EachChannelOnce(env: Env, attempts: seq<Attempt>, j: nat, i: nat)
    requires SelectorSafe(env) && IsRun(env, attempts) && j < i < |attempts|
    ensures attempts[i].channel in env.eligible && attempts[j].channel != attempts[i].channel
  {
    RunIsPicked(env, attempts);
    ChannelsAt(attempts, i);
    ChannelsAt(attempts, j);
    NeverRepeats(env.select, env.eligible, Channels(attempts), j, i);
  }

  /** A run never has more attempts than the first channel and the group's channels together; a pinned run has one. */
  lemma {:induction false} AttemptsBounded(env: Env, attempts: seq<Attempt>)
    requires SelectorSafe(env) && IsRun(env, attempts)
    ensures |attempts| <= |env.eligible| + 1
    ensures env.pinned ==> |attempts| <= 1
  {
    RunIsPicked(env, attempts);
    UseIsBounded(env.select, env.eligible, Channels(attempts));
    if |attempts| > 1 { RunPrefix(env, attempts, 1); }
  }

  /** No attempt starts after a failure check that saw a sent response or a cancelled request. */
  lemma NoAttemptAfterStopSignal(env: Env, attempts: seq<Attempt>, i: nat)
    requires IsRun(env, attempts) && i + 1 < |attempts|
    ensures !env.pinned && !env.sent(i) && !env.cancelled(i)
    ensures ChannelFailed(attempts[i])
  {
    RunPrefix(env, attempts, i + 1);
  }

  /** After the distributor's channel, channels are tried in the order the selector ranks them. */
  lemma {:induction false} TriedInOrder(env: Env, atLeast: Ranking, attempts: seq<Attempt>, i: nat, j: nat)
    requires SelectorSafe(env) && Prefers(env.select, env.eligible, atLeast) && IsRun(env, attempts)
    requires 0 < i < j < |attempts|
    ensures atLeast(attempts[i].channel, attempts[j].channel)
  {
    RunIsPicked(env, attempts);
    ChannelsAt(attempts, i);
    ChannelsAt(attempts, j);
    InOrder(env.select, env.eligible, atLeast, Channels(attempts), i, j);
  }

  /**
   What an attempt of a run did: it began, on the distributor's channel or else on the one the selector finds
   given the channels used before, and it ended as channel setup, the request body and the handler say.
   */
  lemma {:induction false} AttemptIsDictated(env: Env, attempts: seq<Attempt>, i: nat)
    requires IsRun(env, attempts) && i < |attempts|
    ensures env.begin(i)
    ensures i > 0 ==> env.select(i, Channels(attempts)[..i]).Found?
    ensures attempts[i].channel == if i == 0 then env.first else env.select(i, Channels(attempts)[..i]).channel
    ensures var setup := if i == 0 then env.firstSetup else env.select(i, Channels(attempts)[..i]).setup;
            && (attempts[i].Succeeded? <==> setup.None? && env.body(i).None? && env.handle(i).None?)
            && (attempts[i].SetupFailed? <==> setup.Some?)
            && (attempts[i].BodyFailed? <==> setup.None? && env.body(i).Some?)
            && (attempts[i].SetupFailed? ==> attempts[i].error == env.normalize(setup.value))
            && (attempts[i].BodyFailed? ==> attempts[i].error == env.body(i).value)
            && (attempts[i].HandlerFailed? ==> attempts[i].error == env.normalize(env.handle(i).value))
  {
    RunPrefix(env, attempts, i);
    ChannelsAt(attempts, i);
  }

  /**
   The run cannot go on after a channel failure at attempt i: it is pinned, something was sent, the request was
   cancelled, the next attempt is refused, or there is no channel for it.  The error itself plays no part.
   */
  ghost predicate HaltsAfter(env: Env, attempts: seq<Attempt>, i: nat)
    requires i < |attempts|
  {
    || env.pinned || env.sent(i) || env.cancelled(i)
    || !env.begin(i + 1)
    || env.select(i + 1, Channels(attempts)[..i+1]).Missing?
  }

  /**
   An attempt is the last of a complete run exactly when it succeeded, could not read the request body, or the
   run is halted after it: in every other case the loop must go on.
   */
  lemma {:induction false} EndsAfterIff(env: Env, attempts: seq<Attempt>, stop: Stop, i: nat)
    requires IsRun(env, attempts) && IsStop(env, attempts, stop) && i < |attempts|
    ensures i + 1 == |attempts| <==> attempts[i].Succeeded? || attempts[i].BodyFailed? || HaltsAfter(env, attempts, i)
  {
    if i + 1 < |attempts| {
      RunPrefix(env, attempts, i + 1);
      ChannelsAt(attempts, i + 1);
      assert attempts[..i+1][i] == attempts[i];
    } else {
      assert Channels(attempts)[..i+1] == Channels(attempts);
    }
  }

  /** The error a complete run leaves: none on success, the selector's own, or that of the last attempt. */
  lemma {:induction false} ErrorIsTheLast(env: Env, attempts: seq<Attempt>, stop: Stop)
    requires IsRun(env, attempts) && IsStop(env, attempts, stop) && attempts != []
    ensures var n, err := |attempts|, LoopError(attempts, stop);
            var last, next := attempts[n-1], env.select(n, Channels(attempts));
            if last.Succeeded? then err == None
            else if !last.BodyFailed? && !env.pinned && !env.sent(n-1) && !env.cancelled(n-1) && env.begin(n)
              then err == (if next.Missing? && next.failure.Some? then next.failure else Some(last.error))
            else err == Some(last.error)
  {
  }

  /** A failure that the error itself marks as not to be retried. */
  predicate SkipRetryFailure(env: Env, a: Attempt) {
    ChannelFailed(a) && env.skipRetry(a.error)
  }

  /** What the failover design asks for: nothing is tried after such a failure. */
  ghost predicate SkipRetryIsTerminal(env: Env, attempts: seq<Attempt>) {
    forall i :: 0 <= i < |attempts| && SkipRetryFailure(env, attempts[i]) ==> i + 1 == |attempts|
  }

  /** A complete run meets this if and only if something else halts it after every such failure. */
  lemma {:induction false} SkipRetryIsTerminalIff(env: Env, attempts: seq<Attempt>, stop: Stop)
    requires IsRun(env, attempts) && IsStop(env, attempts, stop)
    ensures SkipRetryIsTerminal(env, attempts) <==>
            forall i :: 0 <= i < |attempts| && SkipRetryFailure(env, attempts[i]) ==> HaltsAfter(env, attempts, i)
  {
    forall i | 0 <= i < |attempts| && SkipRetryFailure(env, attempts[i])
      ensures i + 1 == |attempts| <==> HaltsAfter(env, attempts, i)
    {
      EndsAfterIff(env, attempts, stop, i);
    }
  }

  /** Two channels, of which the first fails for good and the second would answer. */
  function TwoChannels(): Env {
    Env(false, 1, None, {2},
        (k, used) => if 2 in used then Missing(None) else Found(2, None),
        k => true, k => None, k => if k == 0 then Some(5) else None,
        k => true, k => false, k => false, e => e, e => e == 5, 0)
  }

  /** The loop does go on past a skip-retry error. */
  lemma {:induction false} SkipRetryIsIgnored()
    ensures var env, attempts := TwoChannels(), [HandlerFailed(1, 5), Succeeded(2)];
            && SelectorSafe(env) && IsRun(env, attempts) && IsStop(env, attempts, Done)
            && !SkipRetryIsTerminal(env, attempts)
  {
    var env := TwoChannels();
    var first, second := HandlerFailed(1, 5), Succeeded(2);
    Snoc(env, [], first);
    Snoc(env, [first], second);
    assert [] + [first] == [first] && [first] + [second] == [first, second];
    assert Follows(env, [], first) && Follows(env, [first], second);
    assert SkipRetryFailure(env, [first, second][0]);
  }

  /** Exhaustion is genuine: every channel of the group was tried, each once. */
  lemma {:induction false} ExhaustionTriesWholeGroup(env: Env, attempts: seq<Attempt>, c: ChannelId)
    requires Exhausts(env.select, env.eligible) && IsRun(env, attempts) && IsStop(env, attempts, NoChannel(None))
    requires c in env.eligible
    ensures exists i :: 0 <= i < |attempts| && attempts[i].channel == c
  {
    var used := Channels(attempts);
    assert c in used;
    var i :| 0 <= i < |used| && used[i] == c;
    ChannelsAt(attempts, i);
  }

  /**
   Failover does its job: a complete run that nothing interrupts succeeds in the end, or has tried every channel
   of the group in vain.
   */
  lemma {:induction false} SucceedsOrTriesAll(env: Env, attempts: seq<Attempt>, stop: Stop)
    requires Exhausts(env.select, env.eligible) && IsRun(env, attempts) && IsStop(env, attempts, stop)
    requires !env.pinned && forall k: nat :: env.begin(k) && !env.sent(k) && !env.cancelled(k) && env.body(k).None?
    requires forall k: nat, used: seq<ChannelId> :: env.select(k, used).Missing? ==> env.select(k, used).failure.None?
    ensures attempts != []
    ensures || attempts[|attempts|-1].Succeeded?
            || forall c :: c in env.eligible ==>
                 exists i :: 0 <= i < |attempts| && attempts[i].channel == c && !attempts[i].Succeeded?
  {
    var n := |attempts| - 1;
    assert env.begin(0);
    EndsAfterIff(env, attempts, stop, n);
    AttemptIsDictated(env, attempts, n);
    if !attempts[n].Succeeded? {
      assert env.begin(n) && env.begin(n + 1);
      assert Channels(attempts)[..n+1] == Channels(attempts);
      forall c | c in env.eligible
        ensures exists i :: 0 <= i < |attempts| && attempts[i].channel == c && !attempts[i].Succeeded?
      {
        assert c in Channels(attempts);
        var i :| 0 <= i < |attempts| && Channels(attempts)[i] == c;
        if i < n { EndsAfterIff(env, attempts, stop, i); }
        assert attempts[i].channel == c && !attempts[i].Succeeded?;
      }
    }
  }

  /** The loop leaves no error exactly when it made no attempt or its last attempt succeeded. */
  lemma NoErrorIffLastSucceeded(env: Env, attempts: seq<Attempt>, stop: Stop)
    requires IsRun(env, attempts) && IsStop(env, attempts, stop)
    ensures LoopError(attempts, stop).None? <==>
            !env.begin(0) || (attempts != [] && attempts[|attempts|-1].Succeeded?)
    ensures !env.begin(0) <==> attempts == []
  {
    if attempts != [] { RunPrefix(env, attempts, 0); }
  }

  /** An environment has exactly one complete run. */
  lemma {:induction false} CompleteRunIsUnique(env: Env, a: seq<Attempt>, sa: Stop, b: seq<Attempt>, sb: Stop)
    requires IsRun(env, a) && IsStop(env, a, sa) && IsRun(env, b) && IsStop(env, b, sb)
    ensures a == b && sa == sb
  {
    var n := if |a| <= |b| then |a| else |b|;
    PrefixesAgree(FollowsIn(env), a, b, n);
    assert a[..|a|] == a && b[..|b|] == b;
    if |a| < |b| { RunPrefix(env, b, |a|); }
    if |b| < |a| { RunPrefix(env, a, |b|); }
  }

  /**
   Exactly the logs of channel failures are recorded, each once and in order, as intermediate exactly when a
   later attempt got past reading the body; so all but possibly the last are intermediate, and a run that
   ends in success records none as final.
   */
  lemma {:induction false} OnlyLastLogMayBeFinal(env: Env, attempts: seq<Attempt>, stop: Stop, records: seq<Record>)
    requires IsRun(env, attempts) && IsStop(env, attempts, stop)
    requires LogsOf(records) == Produced(env, attempts) && Justified(attempts, records)
    ensures forall k: nat :: (exists j :: 0 <= j < |records| && records[j].attempt == k) <==>
              k < |attempts| && (attempts[k].SetupFailed? || attempts[k].HandlerFailed?) && env.logged(k)
    ensures forall i, j :: 0 <= i < j < |records| ==> records[i].attempt < records[j].attempt
    ensures forall j :: 0 <= j < |records| ==>
              (records[j].intermediate <==> exists i :: records[j].attempt < i < |attempts| && !attempts[i].BodyFailed?)
    ensures forall j :: 0 <= j < |records| - 1 ==> records[j].intermediate
    ensures LoopError(attempts, stop).None? ==> forall j :: 0 <= j < |records| ==> records[j].intermediate
  {
    var logs := LogsOf(records);
    MarksAscend(Logs(env), attempts);
    RecordedIff(records);
    forall j | 0 <= j < |records|
      ensures records[j].attempt < |attempts| && ChannelFailed(attempts[records[j].attempt])
    {
      assert logs[j] in logs;
    }
    forall j | 0 <= j < |records| - 1 ensures Superseded(attempts, records[j].attempt) {
      assert !attempts[records[j+1].attempt].BodyFailed?;
    }
  }

  // ----- the billing bracket around the loop -----

  datatype Billing = Billing(
    free: bool,                    // priceData.FreeModel: nothing is pre-consumed
    preConsume: Option<Error>,     // PreConsumeBilling
    lookup: Option<Error>,         // looking up the distributor's channel
    session: bool)                 // relayInfo.Billing is set when the deferred handler runs

  /** The error handed out is the loop's, normalised. */
  ghost predicate NormalizedFrom(env: Env, err: Option<Error>, out: Option<Error>) {
    && (out.None? <==> err.None?)
    && (out.Some? ==> out.value == env.normalize(err.value))
  }

  /** The deferred handler: normalise the error and return what was pre-consumed. */
  method Settle(env: Env, b: Billing, err: Option<Error>) returns (out: Option<Error>, refunds: nat)
    ensures NormalizedFrom(env, err, out)
    ensures refunds == if err.Some? && b.session then 1 else 0
  {
    out, refunds := err, 0;
    if err.Some? {
      out := Some(env.normalize(err.value));
      if b.session { refunds := refunds + 1; }
    }
  }

  /** `Relay` from pre-consumption to the end of its deferred billing handler. */
  method Relay(env: Env, b: Billing)
    returns (err: Option<Error>, attempts: seq<Attempt>, records: seq<Record>, refunds: nat)
    requires SelectorSafe(env)
    // Nothing is attempted or refunded unless pre-consumption went through.
    ensures !b.free && b.preConsume.Some? ==> err == b.preConsume && attempts == [] && records == [] && refunds == 0
    ensures (b.free || b.preConsume.None?) && b.lookup.Some? ==>
              err == Some(env.normalize(b.lookup.value)) && attempts == [] && records == []
    // Past both, the attempts are the environment's run and the error is the loop's, normalised.
    ensures (b.free || b.preConsume.None?) && b.lookup.None? ==>
              && IsRun(env, attempts) && LogsOf(records) == Produced(env, attempts) && Justified(attempts, records)
              && exists stop :: IsStop(env, attempts, stop) && NormalizedFrom(env, LoopError(attempts, stop), err)
    ensures (b.free || b.preConsume.None?) && b.lookup.None? && env.begin(0) ==>
              (err.None? <==> attempts != [] && attempts[|attempts|-1].Succeeded?)
    // One refund on failure, none on success.
    ensures b.free || b.preConsume.None? ==> refunds == if err.Some? && b.session then 1 else 0
    ensures err.None? ==> forall j :: 0 <= j < |records| ==> records[j].intermediate
  {
    attempts, records, refunds := [], [], 0;
    err := None;
    if !b.free {
      err := b.preConsume;
      if err.Some? { return; }
    }
    if b.lookup.Some? {
      err, refunds := Settle(env, b, b.lookup);
      return;
    }
    var used, stop;
    err, attempts, used, records, stop := FailoverLoop(env);
    NoErrorIffLastSucceeded(env, attempts, stop);
    OnlyLastLogMayBeFinal(env, attempts, stop, records);
    err, refunds := Settle(env, b, err);
  }
}
