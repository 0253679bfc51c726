/**
 The submission loop of `RelayTask` (controller/relay.go) and the settlement that follows it.

 It differs from the synchronous loop in three ways that the statements below keep apart: a pinned
 task retries the same channel under a budget, a locally raised error never fails over, and a body
 failure produces a log of its own.
 */
module TaskFailover {
  import opened Options
  import opened Runs
  import opened Selection
  import opened Failover

  datatype TaskError = TaskError(code: int, local: bool, status: int)
  datatype ChannelError = ChannelError(code: int, status: int)
  datatype BodyError = BodyError(code: int, tooLarge: bool)

  datatype TaskEnv = TaskEnv(
    pinned: bool,                                     // origin-locked or specific_channel_id
    first: ChannelId,                                 // locked channel, or the distributor's
    limit: int,                                       // ResolveChannelRetryTimes of the pinned channel
    setup: nat -> Option<ChannelError>,               // channel setup of the first or a pinned attempt
    eligible: set<ChannelId>,
    select: Select<ChannelError>,
    begin: nat -> bool,
    body: nat -> Option<BodyError>,
    submit: nat -> Option<TaskError>,                 // RelayTaskSubmit
    logged: nat -> bool,
    sent: nat -> bool,
    cancelled: nat -> bool,
    alwaysSkip: int -> bool,                          // IsAlwaysSkipRetryStatusCode
    noChannel: int)

  datatype TaskAttempt =
    | SetupBroke(channel: ChannelId, error: TaskError)
    | BodyBroke(channel: ChannelId, error: TaskError)
    | Rejected(channel: ChannelId, error: TaskError)
    | Submitted(channel: ChannelId)

  datatype TaskStop = Barred | Exhausted(failure: Option<ChannelError>) | Abandoned | Accepted

  ghost predicate TaskSelectorSafe(env: TaskEnv) {
    Safe(env.select, env.eligible)
  }

  /** `shouldRetryTaskRelay` on a non-nil error. */
  predicate ShouldRetryTask(env: TaskEnv, e: TaskError) {
    if e.local then false
    else if e.status == 429 then true
    else if e.status == 307 then true
    else if 500 <= e.status < 600 then !env.alwaysSkip(e.status)
    else if e.status == 400 then false
    else if e.status == 408 then false
    else !(200 <= e.status < 300)
  }

  function SetupTaskError(e: ChannelError): TaskError { TaskError(e.code, false, e.status) }
  function BodyTaskError(e: BodyError): TaskError { TaskError(e.code, true, if e.tooLarge then 413 else 400) }
  function LocalTaskError(code: int): TaskError { TaskError(code, true, 500) }

  function TaskPickFor(env: TaskEnv, k: nat, used: seq<ChannelId>): Pick<ChannelError> {
    if env.pinned || k == 0 then Found(env.first, env.setup(k)) else env.select(k, used)
  }

  function TaskOutcome(env: TaskEnv, k: nat, channel: ChannelId, setup: Option<ChannelError>): TaskAttempt {
    if setup.Some? then SetupBroke(channel, SetupTaskError(setup.value))
    else if env.body(k).Some? then BodyBroke(channel, BodyTaskError(env.body(k).value))
    else if env.submit(k).Some? then Rejected(channel, env.submit(k).value)
    else Submitted(channel)
  }

  /** The failure check after attempt k, with `retry` retries already counted. */
  predicate MayGoOn(env: TaskEnv, k: nat, retry: nat, a: TaskAttempt) {
    && (a.SetupBroke? || (a.Rejected? && !a.error.local))
    && if env.pinned then !env.cancelled(k) && ShouldRetryTask(env, a.error) && retry < env.limit
       else !env.sent(k) && !env.cancelled(k)
  }

  function TaskChannels(attempts: seq<TaskAttempt>): (used: seq<ChannelId>)
    ensures |used| == |attempts| && forall i :: 0 <= i < |used| ==> used[i] == attempts[i].channel
  {
    seq(|attempts|, i requires 0 <= i < |attempts| => attempts[i].channel)
  }

  /** In a run the retry counter is the number of failed attempts before the current one. */
  ghost predicate TaskGoesOn(env: TaskEnv, attempts: seq<TaskAttempt>) {
    attempts != [] ==> MayGoOn(env, |attempts|-1, |attempts|-1, attempts[|attempts|-1])
  }

  ghost predicate TaskFollows(env: TaskEnv, attempts: seq<TaskAttempt>, a: TaskAttempt) {
    && TaskGoesOn(env, attempts)
    && env.begin(|attempts|)
    && var p := TaskPickFor(env, |attempts|, TaskChannels(attempts));
       p.Found? && a == TaskOutcome(env, |attempts|, p.channel, p.setup)
  }

  ghost function TaskFollowsIn(env: TaskEnv): Follow<TaskAttempt> {
    (attempts, a) => TaskFollows(env, attempts, a)
  }

  ghost predicate IsTaskRun(env: TaskEnv, attempts: seq<TaskAttempt>) {
    IsRunOf(TaskFollowsIn(env), attempts)
  }

  ghost predicate IsTaskStop(env: TaskEnv, attempts: seq<TaskAttempt>, stop: TaskStop) {
    var n := |attempts|;
    match stop
    case Barred => TaskGoesOn(env, attempts) && !env.begin(n)
    case Exhausted(f) =>
      n > 0 && TaskGoesOn(env, attempts) && env.begin(n) && TaskPickFor(env, n, TaskChannels(attempts)) == Missing(f)
    case Abandoned => n > 0 && !attempts[n-1].Submitted? && !TaskGoesOn(env, attempts)
    case Accepted => n > 0 && attempts[n-1].Submitted?
  }

  /** Every failed attempt may produce a log, a body failure included. */
  function TaskLogs(env: TaskEnv): (nat, TaskAttempt) -> bool {
    (n: nat, a: TaskAttempt) => !a.Submitted? && env.logged(n)
  }

  function TaskProduced(env: TaskEnv, attempts: seq<TaskAttempt>): seq<nat> {
    Marked(TaskLogs(env), attempts)
  }

  function TaskErrorOf(a: TaskAttempt): Option<TaskError> {
    if a.Submitted? then None else Some(a.error)
  }

  function TaskLoopError(attempts: seq<TaskAttempt>, stop: TaskStop): Option<TaskError> {
    if stop.Exhausted? && stop.failure.Some? then Some(LocalTaskError(stop.failure.value.code))
    else if attempts == [] then None
    else TaskErrorOf(attempts[|attempts|-1])
  }

  lemma {:induction false} TaskSnoc(env: TaskEnv, attempts: seq<TaskAttempt>, a: TaskAttempt)
    ensures TaskChannels(attempts + [a]) == TaskChannels(attempts) + [a.channel]
    ensures TaskProduced(env, attempts + [a])
         == TaskProduced(env, attempts) + if !a.Submitted? && env.logged(|attempts|) then [|attempts|] else []
    ensures IsTaskRun(env, attempts + [a]) <==> IsTaskRun(env, attempts) && TaskFollows(env, attempts, a)
  {
    RunSnoc(TaskFollowsIn(env), attempts, a);
    assert (attempts + [a])[..|attempts|] == attempts;
  }

  /** Recorded and pending logs are together the logs produced; whatever is recorded has a later attempt. */
  ghost predicate TaskLogsAgree(env: TaskEnv, attempts: seq<TaskAttempt>, records: seq<Record>, pending: Option<nat>) {
    && LogsOf(RecordPending(records, pending, false)) == TaskProduced(env, attempts)
    && (pending.Some? ==> pending.value == |attempts| - 1)
    && (forall j :: 0 <= j < |records| ==> records[j].intermediate && records[j].attempt < |attempts| - 1)
  }

  /** A record is intermediate exactly when another attempt followed. */
  ghost predicate TaskJustified(attempts: seq<TaskAttempt>, records: seq<Record>) {
    forall j :: 0 <= j < |records| ==> (records[j].intermediate <==> records[j].attempt < |attempts| - 1)
  }

  lemma {:induction false} TaskFlushKeepsAgreement(
      env: TaskEnv, attempts: seq<TaskAttempt>, records: seq<Record>, pending: Option<nat>, a: TaskAttempt)
    requires TaskLogsAgree(env, attempts, records, pending)
    ensures TaskLogsAgree(env, attempts + [a], RecordPending(records, pending, true),
                          if !a.Submitted? && env.logged(|attempts|) then Some(|attempts|) else None)
  {
    TaskSnoc(env, attempts, a);
    FlushKeepsLogs(records, pending);
    LogsOfSnoc(RecordPending(records, pending, true), Record(|attempts|, false));
  }

  datatype TaskLoop = TaskLoop(
    attempts: seq<TaskAttempt>,
    used: seq<ChannelId>,
    err: Option<TaskError>,
    retry: nat,
    pending: Option<nat>,
    records: seq<Record>)

  ghost predicate TaskLoopOk(env: TaskEnv, s: TaskLoop) {
    && IsTaskRun(env, s.attempts)
    && s.used == TaskChannels(s.attempts)
    && TaskLogsAgree(env, s.attempts, s.records, s.pending)
  }

  /** The part of the loop body that runs once a channel is chosen. */
  method TryChannel(env: TaskEnv, s: TaskLoop, channel: ChannelId, setup: Option<ChannelError>)
    returns (t: TaskLoop, stop: Option<TaskStop>)
    requires TaskLoopOk(env, s) && s.retry == |s.attempts|
    requires TaskFollows(env, s.attempts, TaskOutcome(env, |s.attempts|, channel, setup))
    ensures t.attempts == s.attempts + [TaskOutcome(env, |s.attempts|, channel, setup)]
    ensures t.used == s.used + [channel]
    ensures TaskLoopOk(env, t)
    ensures t.err == TaskLoopError(t.attempts, Barred)
    ensures stop.None? ==> t.retry == |t.attempts| && (env.pinned ==> s.retry < env.limit)
    ensures stop.None? <==> TaskGoesOn(env, t.attempts)
    ensures stop.Some? ==> stop.value == if t.attempts[|s.attempts|].Submitted? then Accepted else Abandoned
  {
    var k := |s.attempts|;
    ghost var a := TaskOutcome(env, k, channel, setup);
    TaskSnoc(env, s.attempts, a);
    TaskFlushKeepsAgreement(env, s.attempts, s.records, s.pending, a);
    var newLog := if env.logged(k) then Some(k) else None;
    t := s.(used := s.used + [channel], records := RecordPending(s.records, s.pending, true), pending := newLog);
    var goOn := false;
    stop := Some(Abandoned);
    if setup.Some? {
      var e := SetupTaskError(setup.value);
      t := t.(err := Some(e), attempts := s.attempts + [SetupBroke(channel, e)]);
      goOn := if env.pinned then !env.cancelled(k) && ShouldRetryTask(env, e) && s.retry < env.limit
              else !env.sent(k) && !env.cancelled(k);
    } else if env.body(k).Some? {
      var e := BodyTaskError(env.body(k).value);
      t := t.(err := Some(e), attempts := s.attempts + [BodyBroke(channel, e)]);
    } else {
      var result := env.submit(k);
      if result.None? {
        t := t.(err := None, pending := None, attempts := s.attempts + [Submitted(channel)]);
        stop := Some(Accepted);
      } else {
        t := t.(err := result, attempts := s.attempts + [Rejected(channel, result.value)]);
        goOn := if result.value.local then false
                else if env.pinned then
                  !env.cancelled(k) && ShouldRetryTask(env, result.value) && s.retry < env.limit
                else !env.sent(k) && !env.cancelled(k);
      }
    }
    if goOn {
      t := t.(retry := s.retry + 1);
      stop := None;
    }
  }

  /** Break out before a channel is tried: the attempt is refused, or there is no channel for it. */
  method StopBefore(env: TaskEnv, s: TaskLoop, p: Pick<ChannelError>) returns (t: TaskLoop, stop: TaskStop)
    requires TaskLoopOk(env, s) && TaskGoesOn(env, s.attempts) && s.err == TaskLoopError(s.attempts, Barred)
    requires p == TaskPickFor(env, |s.attempts|, s.used) && (!env.begin(|s.attempts|) || p.Missing?)
    ensures TaskLoopOk(env, t) && IsTaskStop(env, t.attempts, stop) && t.err == TaskLoopError(t.attempts, stop)
  {
    t, stop := s, Barred;
    if env.begin(|s.attempts|) {
      t := s.(err := if p.failure.Some? then Some(LocalTaskError(p.failure.value.code))
                     else if s.err.Some? then s.err else Some(LocalTaskError(env.noChannel)));
      stop := Exhausted(p.failure);
    }
  }

  /** One pass through the loop body; `stop` is set when the pass breaks out. */
  method SubmitOnce(env: TaskEnv, s: TaskLoop) returns (t: TaskLoop, stop: Option<TaskStop>)
    requires TaskLoopOk(env, s) && TaskGoesOn(env, s.attempts) && s.retry == |s.attempts|
    requires s.err == TaskLoopError(s.attempts, Barred)
    ensures TaskLoopOk(env, t)
    ensures stop.None? ==> TaskGoesOn(env, t.attempts) && t.retry == |t.attempts| == |s.attempts| + 1
    ensures stop.None? ==> t.err == TaskLoopError(t.attempts, Barred) && (env.pinned ==> s.retry < env.limit)
    ensures stop.None? ==>
              var p := TaskPickFor(env, |s.attempts|, s.used); p.Found? && t.used == s.used + [p.channel]
    ensures stop.Some? ==> IsTaskStop(env, t.attempts, stop.value) && t.err == TaskLoopError(t.attempts, stop.value)
  {
    var p := TaskPickFor(env, |s.attempts|, s.used);
    if !env.begin(|s.attempts|) || p.Missing? {
      var why;
      t, why := StopBefore(env, s, p);
      stop := Some(why);
    } else {
      t, stop := TryChannel(env, s, p.channel, p.setup);
    }
  }

  /** The `for` loop itself. */
  method Submissions(env: TaskEnv) returns (s: TaskLoop, stop: TaskStop)
    requires TaskSelectorSafe(env)
    ensures TaskLoopOk(env, s) && IsTaskStop(env, s.attempts, stop) && s.err == TaskLoopError(s.attempts, stop)
  {
    s := TaskLoop([], [], None, 0, None, []);
    var stopped: Option<TaskStop> := None;
    while stopped.None?
      invariant TaskLoopOk(env, s)
      invariant stopped.None? ==> TaskGoesOn(env, s.attempts) && s.retry == |s.attempts|
      invariant stopped.None? ==> s.err == TaskLoopError(s.attempts, Barred)
      invariant stopped.Some? ==> IsTaskStop(env, s.attempts, stopped.value) && s.err == TaskLoopError(s.attempts, stopped.value)
      decreases stopped.None?, (if env.pinned then env.limit - s.retry else 0),
                if env.pinned then {} else Untried(env.eligible, s.used), s.attempts == []
    {
      ghost var p := TaskPickFor(env, |s.attempts|, s.used);
      if p.Found? { UntriedShrinks(env.select, env.eligible, |s.attempts|, s.used, p.channel); }
      s, stopped := SubmitOnce(env, s);
    }
    stop := stopped.value;
  }

  method SubmitLoop(env: TaskEnv)
    returns (err: Option<TaskError>, attempts: seq<TaskAttempt>, records: seq<Record>, stop: TaskStop)
    requires TaskSelectorSafe(env)
    ensures IsTaskRun(env, attempts) && IsTaskStop(env, attempts, stop)
    ensures err == TaskLoopError(attempts, stop)
    ensures LogsOf(records) == TaskProduced(env, attempts)
    ensures TaskJustified(attempts, records)
  {
    var s;
    s, stop := Submissions(env);
    err, attempts, records := s.err, s.attempts, RecordPending(s.records, s.pending, false);
  }

  // ----- what holds of every run -----

  lemma {:induction false} TaskRunPrefix(env: TaskEnv, attempts: seq<TaskAttempt>, i: nat)
    requires IsTaskRun(env, attempts) && i < |attempts|
    ensures IsTaskRun(env, attempts[..i]) && TaskFollows(env, attempts[..i], attempts[i])
  {
    PrefixIsRun(TaskFollowsIn(env), attempts, i);
  }

  lemma {:induction false} TaskRunIsPicked(env: TaskEnv, attempts: seq<TaskAttempt>)
    requires IsTaskRun(env, attempts) && !env.pinned
    ensures Picked(env.select, TaskChannels(attempts))
  {
    forall i | 0 < i < |attempts| ensures PickedAt(env.select, TaskChannels(attempts), i) {
      TaskRunPrefix(env, attempts, i);
      assert TaskChannels(attempts[..i]) == TaskChannels(attempts)[..i];
    }
  }

  /** An attempt that is not the last was a channel failure seen with the request still live. */
  lemma {:induction false} TaskStopSignals(env: TaskEnv, attempts: seq<TaskAttempt>, i: nat)
    requires IsTaskRun(env, attempts) && i + 1 < |attempts|
    ensures !env.cancelled(i)
    ensures attempts[i].SetupBroke? || (attempts[i].Rejected? && !attempts[i].error.local)
    ensures if env.pinned then i < env.limit && ShouldRetryTask(env, attempts[i].error) else !env.sent(i)
  {
    TaskRunPrefix(env, attempts, i + 1);
    assert attempts[..i+1][i] == attempts[i];
  }

  /**
   What an attempt of a run did: it began, on the first channel or, when not pinned, later on the one the selector
   finds, and it ended as channel setup, the request body and the submission say.
   */
  lemma {:induction false} TaskAttemptIsDictated(env: TaskEnv, attempts: seq<TaskAttempt>, i: nat)
    requires IsTaskRun(env, attempts) && i < |attempts|
    ensures env.begin(i)
    ensures i > 0 && !env.pinned ==> env.select(i, TaskChannels(attempts)[..i]).Found?
    ensures attempts[i].channel ==
              if i == 0 || env.pinned then env.first else env.select(i, TaskChannels(attempts)[..i]).channel
    ensures var setup := if i == 0 || env.pinned then env.setup(i) else env.select(i, TaskChannels(attempts)[..i]).setup;
            && (attempts[i].Submitted? <==> setup.None? && env.body(i).None? && env.submit(i).None?)
            && (attempts[i].SetupBroke? <==> setup.Some?)
            && (attempts[i].BodyBroke? <==> setup.None? && env.body(i).Some?)
            && (attempts[i].SetupBroke? ==> attempts[i].error == TaskError(setup.value.code, false, setup.value.status))
            && (attempts[i].BodyBroke? ==>
                  var e := env.body(i).value; attempts[i].error == TaskError(e.code, true, if e.tooLarge then 413 else 400))
            && (attempts[i].Rejected? ==> Some(attempts[i].error) == env.submit(i))
  {
    TaskRunPrefix(env, attempts, i);
    assert TaskChannels(attempts[..i]) == TaskChannels(attempts)[..i];
  }

  /** The attempt failed on its channel and not locally. */
  predicate FailedUpstream(a: TaskAttempt) {
    a.SetupBroke? || (a.Rejected? && !a.error.local)
  }

  /** A status after which a pinned task gives up: a success, 400, 408, or a server error to be skipped always. */
  predicate GivesUpOn(env: TaskEnv, status: int) {
    200 <= status <= 299 || status == 400 || status == 408 || (500 <= status <= 599 && env.alwaysSkip(status))
  }

  /** The task cannot go on after a failure at attempt i. */
  ghost predicate TaskHaltsAfter(env: TaskEnv, attempts: seq<TaskAttempt>, i: nat)
    requires i < |attempts| && !attempts[i].Submitted?
  {
    || env.cancelled(i)
    || !env.begin(i + 1)
    || if env.pinned then attempts[i].error.local || GivesUpOn(env, attempts[i].error.status) || i >= env.limit
       else env.sent(i) || env.select(i + 1, TaskChannels(attempts)[..i+1]).Missing?
  }

  /**
   A submission is the last of a complete run exactly when it was accepted, failed locally, or the task is halted
   after it: in every other case the loop must go on.
   */
  lemma {:induction false} TaskEndsAfterIff(env: TaskEnv, attempts: seq<TaskAttempt>, stop: TaskStop, i: nat)
    requires IsTaskRun(env, attempts) && IsTaskStop(env, attempts, stop) && i < |attempts|
    ensures i + 1 == |attempts| <==>
              attempts[i].Submitted? || !FailedUpstream(attempts[i]) || TaskHaltsAfter(env, attempts, i)
  {
    if i + 1 < |attempts| {
      TaskRunPrefix(env, attempts, i + 1);
      assert TaskChannels(attempts[..i+1]) == TaskChannels(attempts)[..i+1];
      assert attempts[..i+1][i] == attempts[i];
    } else {
      assert TaskChannels(attempts)[..i+1] == TaskChannels(attempts);
    }
  }

  /** The error a complete run leaves: none on acceptance, the selector's as a local one, or that of the last attempt. */
  lemma {:induction false} TaskErrorIsTheLast(env: TaskEnv, attempts: seq<TaskAttempt>, stop: TaskStop)
    requires IsTaskRun(env, attempts) && IsTaskStop(env, attempts, stop) && attempts != []
    ensures var n, err := |attempts|, TaskLoopError(attempts, stop);
            var last, next := attempts[n-1], env.select(n, TaskChannels(attempts));
            if last.Submitted? then err == None
            else if FailedUpstream(last) && !env.pinned && !env.sent(n-1) && !env.cancelled(n-1) && env.begin(n)
                    && next.Missing? && next.failure.Some?
              then err == Some(TaskError(next.failure.value.code, true, 500))
            else err == Some(last.error)
  {
  }

  /** A pinned task stays on its channel and makes at most max(limit, 0) + 1 attempts. */
  lemma {:induction false} PinnedTaskBudget(env: TaskEnv, attempts: seq<TaskAttempt>)
    requires IsTaskRun(env, attempts) && env.pinned
    ensures forall i :: 0 <= i < |attempts| ==> attempts[i].channel == env.first
    ensures |attempts| <= (if env.limit > 0 then env.limit else 0) + 1
  {
    forall i | 0 <= i < |attempts| ensures attempts[i].channel == env.first { TaskRunPrefix(env, attempts, i); }
    if |attempts| > 1 { TaskStopSignals(env, attempts, |attempts| - 2); }
  }

  /** An unpinned task tries each channel at most once and, after the first, only the group's. */
  lemma {:induction false} UnpinnedTaskChannels(env: TaskEnv, attempts: seq<TaskAttempt>, j: nat, i: nat)
    requires TaskSelectorSafe(env) && IsTaskRun(env, attempts) && !env.pinned
    requires j < i < |attempts|
    ensures attempts[i].channel in env.eligible && attempts[j].channel != attempts[i].channel
  {
    TaskRunIsPicked(env, attempts);
    NeverRepeats(env.select, env.eligible, TaskChannels(attempts), j, i);
  }

  /** After the first, an unpinned task tries channels in the order the selector ranks them. */
  lemma {:induction false} TaskTriedInOrder(env: TaskEnv, atLeast: Ranking, attempts: seq<TaskAttempt>, i: nat, j: nat)
    requires TaskSelectorSafe(env) && Prefers(env.select, env.eligible, atLeast) && IsTaskRun(env, attempts)
    requires !env.pinned && 0 < i < j < |attempts|
    ensures atLeast(attempts[i].channel, attempts[j].channel)
  {
    TaskRunIsPicked(env, attempts);
    InOrder(env.select, env.eligible, atLeast, TaskChannels(attempts), i, j);
  }

  /** A task that ends for lack of channels has tried every channel of the group. */
  lemma {:induction false} TaskExhaustionTriesWholeGroup(env: TaskEnv, attempts: seq<TaskAttempt>, c: ChannelId)
    requires Exhausts(env.select, env.eligible) && IsTaskRun(env, attempts) && IsTaskStop(env, attempts, Exhausted(None))
    requires c in env.eligible
    ensures exists i :: 0 <= i < |attempts| && attempts[i].channel == c
  {
    var used := TaskChannels(attempts);
    assert c in used;
    var i :| 0 <= i < |used| && used[i] == c;
    assert attempts[i].channel == c;
  }

  /**
   Failover does its job for tasks too: a complete run of an unpinned task that nothing interrupts, and in which no
   submission fails locally, is accepted in the end, or has tried every channel of the group in vain.
   */
  lemma {:induction false} TaskSucceedsOrTriesAll(env: TaskEnv, attempts: seq<TaskAttempt>, stop: TaskStop)
    requires Exhausts(env.select, env.eligible) && IsTaskRun(env, attempts) && IsTaskStop(env, attempts, stop)
    requires !env.pinned && forall k: nat :: env.begin(k) && !env.sent(k) && !env.cancelled(k) && env.body(k).None?
    requires forall k: nat :: env.submit(k).Some? ==> !env.submit(k).value.local
    requires forall k: nat, used: seq<ChannelId> :: env.select(k, used).Missing? ==> env.select(k, used).failure.None?
    ensures attempts != []
    ensures || attempts[|attempts|-1].Submitted?
            || forall c :: c in env.eligible ==>
                 exists i :: 0 <= i < |attempts| && attempts[i].channel == c && !attempts[i].Submitted?
  {
    var n := |attempts| - 1;
    assert env.begin(0);
    TaskEndsAfterIff(env, attempts, stop, n);
    TaskAttemptIsDictated(env, attempts, n);
    if !attempts[n].Submitted? {
      assert env.begin(n) && env.begin(n + 1);
      assert TaskChannels(attempts)[..n+1] == TaskChannels(attempts);
      forall c | c in env.eligible
        ensures exists i :: 0 <= i < |attempts| && attempts[i].channel == c && !attempts[i].Submitted?
      {
        assert c in TaskChannels(attempts);
        var i :| 0 <= i < |attempts| && TaskChannels(attempts)[i] == c;
        if i < n { TaskEndsAfterIff(env, attempts, stop, i); }
        assert attempts[i].channel == c && !attempts[i].Submitted?;
      }
    }
  }

  /** The loop leaves no error exactly when its last submission was accepted or the first was refused. */
  lemma {:induction false} TaskNoErrorIffSubmitted(env: TaskEnv, attempts: seq<TaskAttempt>, stop: TaskStop)
    requires IsTaskRun(env, attempts) && IsTaskStop(env, attempts, stop)
    ensures TaskLoopError(attempts, stop).None? <==>
            !env.begin(0) || (attempts != [] && attempts[|attempts|-1].Submitted?)
    ensures !env.begin(0) <==> attempts == []
    ensures env.begin(0) ==> (TaskLoopError(attempts, stop).None? <==> stop.Accepted?)
  {
    if attempts != [] { TaskRunPrefix(env, attempts, 0); }
  }

  /** An environment has exactly one complete submission run. */
  lemma {:induction false} CompleteTaskRunIsUnique(
      env: TaskEnv, a: seq<TaskAttempt>, sa: TaskStop, b: seq<TaskAttempt>, sb: TaskStop)
    requires IsTaskRun(env, a) && IsTaskStop(env, a, sa) && IsTaskRun(env, b) && IsTaskStop(env, b, sb)
    ensures a == b && sa == sb
  {
    var n := if |a| <= |b| then |a| else |b|;
    PrefixesAgree(TaskFollowsIn(env), a, b, n);
    assert a[..|a|] == a && b[..|b|] == b;
    if |a| < |b| { TaskRunPrefix(env, b, |a|); }
    if |b| < |a| { TaskRunPrefix(env, a, |b|); }
  }

  /**
   Exactly the logs of failed attempts are recorded, each once and in order, as intermediate exactly when another
   attempt followed; so all but possibly the last are intermediate, and a run that ends in an accepted
   submission records none as final.
   */
  lemma {:induction false} TaskOnlyLastLogMayBeFinal(
      env: TaskEnv, attempts: seq<TaskAttempt>, stop: TaskStop, records: seq<Record>)
    requires IsTaskRun(env, attempts) && IsTaskStop(env, attempts, stop)
    requires LogsOf(records) == TaskProduced(env, attempts) && TaskJustified(attempts, records)
    ensures forall k: nat :: (exists j :: 0 <= j < |records| && records[j].attempt == k) <==>
              k < |attempts| && !attempts[k].Submitted? && env.logged(k)
    ensures forall i, j :: 0 <= i < j < |records| ==> records[i].attempt < records[j].attempt
    ensures forall j :: 0 <= j < |records| ==> (records[j].intermediate <==> records[j].attempt + 1 < |attempts|)
    ensures forall j :: 0 <= j < |records| - 1 ==> records[j].intermediate
    ensures TaskLoopError(attempts, stop).None? ==> forall j :: 0 <= j < |records| ==> records[j].intermediate
  {
    var logs := LogsOf(records);
    MarksAscend(TaskLogs(env), attempts);
    RecordedIff(records);
    forall j | 0 <= j < |records|
      ensures records[j].attempt < |attempts| && !attempts[records[j].attempt].Submitted?
    {
      assert logs[j] in logs;
    }
    forall j | 0 <= j < |records| - 1 ensures records[j].intermediate {
      assert records[j].attempt < records[j+1].attempt < |attempts|;
    }
  }

  // ----- refund or settle -----

  datatype Effect = Settled | Inserted | Responded | Refunded | Crashed

  /**
   `RelayTask` past origin resolution, to the end of its deferred refund.  The result of a submission is
   read on success; if no submission was ever made it is nil and reading it panics.
   */
  method RelayTask(env: TaskEnv, lookup: Option<int>, session: bool)
    returns (err: Option<TaskError>, attempts: seq<TaskAttempt>, records: seq<Record>, effects: seq<Effect>)
    requires TaskSelectorSafe(env)
    // Exactly one of settlement and refund, the refund only where there is a session to refund;
    // a task is inserted after settlement and at no other time.  A refused first attempt crashes.
    ensures effects == if lookup.None? && !env.begin(0) then [Crashed]
                       else if err.None? then [Settled, Inserted]
                       else if session then [Responded, Refunded] else [Responded]
    ensures lookup.Some? ==> err == Some(TaskError(lookup.value, true, 500)) && attempts == [] && records == []
    ensures lookup.None? ==>
              && IsTaskRun(env, attempts)
              && (exists stop :: IsTaskStop(env, attempts, stop) && err == TaskLoopError(attempts, stop))
              && LogsOf(records) == TaskProduced(env, attempts) && TaskJustified(attempts, records)
    ensures lookup.None? && env.begin(0) ==>
              attempts != [] && (err.None? <==> attempts[|attempts|-1].Submitted?)
    ensures err.None? ==> forall j :: 0 <= j < |records| ==> records[j].intermediate
  {
    attempts, records, effects := [], [], [];
    if lookup.Some? {
      err := Some(LocalTaskError(lookup.value));
      effects := effects + [Responded];
    } else {
      var stop;
      err, attempts, records, stop := SubmitLoop(env);
      TaskNoErrorIffSubmitted(env, attempts, stop);
      TaskOnlyLastLogMayBeFinal(env, attempts, stop, records);
      if err.None? {
        var submitted := |attempts| > 0;
        if !submitted { effects := effects + [Crashed]; return; }
        effects := effects + [Settled];
        effects := effects + [Inserted];
      }
      if err.Some? {
        effects := effects + [Responded];
      }
    }
    if err.Some? && session {
      effects := effects + [Refunded];
    }
  }
}
