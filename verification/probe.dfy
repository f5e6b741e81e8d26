/** The readiness probes of index.js as pure decisions: the exit-code poll of
    `waitOnExit` (its stop test and its verdict) and the attempt loop of
    `waitOnSocket` (a connection, or `retry`'s deadline, error and retry
    precedence). The clock, the child's exit status and each attempt's
    outcome arrive as observations; sockets and timers are not modelled. */
module Probe {
  import opened Js
  import opened Failures
  import opened Dependency

  /** One evaluation of the poll's stop test: milliseconds since the probe
      started, and the child's `exitCode` at that moment. */
  datatype Tick = Tick(elapsedMs: int, exitCode: Option<int>)

  /** Where a probe ended: the index of the deciding tick and the report. */
  datatype ProbeEnd = ProbeEnd(tick: nat, report: Report)

  /** The `async.until` test of `waitOnExit`: `exitCode || last > timeout * 1000`.
      An exit code of 0 is falsy, so only the deadline ends the poll then. */
  predicate PollStops(t: Tick, timeoutSeconds: int)
  {
    CodeTruthy(t.exitCode) || t.elapsedMs > timeoutSeconds * 1000
  }

  /** The verdict once the poll has stopped: success when the exit code is
      loosely equal to the expected one, a mismatch for any other code, and
      a timeout while the child is still running. */
  function ExitVerdict(name: string, expected: JsValue, t: Tick): (r: Report)
    ensures r == Ok <==> LooseEquals(Nullable(t.exitCode), expected)
    ensures r.Fail? && t.exitCode.Some? ==> r.failure == ExitMismatch(name, expected, t.exitCode.value)
    ensures r.Fail? && t.exitCode.None? ==> r.failure == TimedOut(name, t.elapsedMs)
  {
    if LooseEquals(Nullable(t.exitCode), expected) then Ok
    else if t.exitCode.Some? then Fail(ExitMismatch(name, expected, t.exitCode.value))
    else Fail(TimedOut(name, t.elapsedMs))
  }

  /** With a numeric expected code the verdict is success exactly when the
      child exited with that very code. */
  lemma ExitVerdictNumeric(name: string, expected: int, t: Tick)
    ensures ExitVerdict(name, Num(expected), t) == Ok <==> t.exitCode == Some(expected)
  {
    LooseEqualsNumber(expected, Nullable(t.exitCode));
  }

  /** With `exit_code: null` a child still running at the deadline counts
      as ready, because `null == null`. */
  lemma ExitVerdictNullExpected(name: string, t: Tick)
    requires t.exitCode.None?
    ensures ExitVerdict(name, Null, t) == Ok
  {
  }

  /** `waitOnExit`: evaluates the stop test at each observed tick and, at the
      first tick where it holds, reports the verdict. `None` means the poll
      is still running after the last observation. */
  method WaitOnExit(name: string, w: WaitFor, ticks: seq<Tick>) returns (r: Option<ProbeEnd>)
    ensures r.None? <==> forall i :: 0 <= i < |ticks| ==> !PollStops(ticks[i], EffectiveTimeout(w.timeout))
    ensures r.Some? ==> r.value.tick < |ticks|
                        && PollStops(ticks[r.value.tick], EffectiveTimeout(w.timeout))
                        && (forall j :: 0 <= j < r.value.tick ==> !PollStops(ticks[j], EffectiveTimeout(w.timeout)))
                        && r.value.report == ExitVerdict(name, w.exitCode, ticks[r.value.tick])
  {
    var timeout := EffectiveTimeout(w.timeout);
    var i := 0;
    while i < |ticks|
      invariant 0 <= i <= |ticks|
      invariant forall j :: 0 <= j < i ==> !PollStops(ticks[j], timeout)
    {
      if PollStops(ticks[i], timeout) {
        return Some(ProbeEnd(i, ExitVerdict(name, w.exitCode, ticks[i])));
      }
      i := i + 1;
    }
    return None;
  }

  /** A child that exited with code 0 does not end the poll: the probe ends
      only past the deadline, whatever the expected code. */
  lemma ZeroExitWaitsForDeadline(t: Tick, timeoutSeconds: int)
    requires t.exitCode == Some(0)
    ensures PollStops(t, timeoutSeconds) <==> t.elapsedMs > timeoutSeconds * 1000
  {
  }

  /** A non-zero exit code ends the poll at once, deadline or not. */
  lemma NonZeroExitStopsPoll(t: Tick, timeoutSeconds: int)
    requires t.exitCode.Some? && t.exitCode.value != 0
    ensures PollStops(t, timeoutSeconds)
  {
  }

  /** What one `retry` of the socket probe decides. */
  datatype RetryStep = GiveUp(failure: Failure) | Connected | Abort(failure: Failure) | Again

  /** `retry` in `waitOnSocket`: the deadline is checked first, then a
      successful connection, then an error recorded on the unit (its child
      died while waiting); otherwise another attempt is scheduled. */
  function Retry(name: string, w: WaitFor, elapsedMs: int, found: bool, error: Option<Failure>): (r: RetryStep)
    ensures elapsedMs > EffectiveTimeout(w.timeout) * 1000 <==> r.GiveUp?
    ensures r.GiveUp? ==> r.failure == TimedOut(name, elapsedMs)
    ensures r.Connected? <==> elapsedMs <= EffectiveTimeout(w.timeout) * 1000 && found
    ensures r.Abort? <==> elapsedMs <= EffectiveTimeout(w.timeout) * 1000 && !found && error.Some?
    ensures r.Abort? ==> Some(r.failure) == error
    ensures r == Again <==> elapsedMs <= EffectiveTimeout(w.timeout) * 1000 && !found && error.None?
  {
    if elapsedMs > EffectiveTimeout(w.timeout) * 1000 then GiveUp(TimedOut(name, elapsedMs))
    else if found then Connected
    else if error.Some? then Abort(error.value)
    else Again
  }

  /** How one connection attempt of the socket probe ends: the socket
      connects, or it errors or stays silent for 199 ms, after which `retry`
      runs at `elapsedMs` and sees the unit's error as it is then. */
  datatype Attempt = Connects | NoConnection(elapsedMs: int, error: Option<Failure>)

  /** What `retry` decides after a failed attempt. `found` is still false
      there: only the connect handler sets it, and that handler ends the
      probe itself. */
  function Decide(name: string, w: WaitFor, a: Attempt): RetryStep
    requires a.NoConnection?
  {
    Retry(name, w, a.elapsedMs, false, a.error)
  }

  /** Whether an attempt ends the probe: a connection always does (the
      connect handler sets `found`, the `until` test then holds and `retry`
      is never consulted); a failed attempt does unless `retry` schedules
      another one. */
  predicate Ends(name: string, w: WaitFor, a: Attempt)
  {
    a.Connects? || Decide(name, w, a) != Again
  }

  /** `waitOnSocket` over a sequence of attempts: the index of the attempt
      that ends the probe and what the probe's callback receives. A
      connection gives success whatever the elapsed time; a failed attempt
      gives `retry`'s timeout or the unit's error. */
  function SocketProbe(name: string, w: WaitFor, attempts: seq<Attempt>): (r: Option<(nat, Report)>)
    ensures r.None? <==> forall i :: 0 <= i < |attempts| ==> !Ends(name, w, attempts[i])
    ensures r.Some? ==> r.value.0 < |attempts| && Ends(name, w, attempts[r.value.0])
                        && forall j :: 0 <= j < r.value.0 ==> !Ends(name, w, attempts[j])
    ensures r.Some? && attempts[r.value.0].Connects? ==> r.value.1 == Ok
    ensures r.Some? && attempts[r.value.0].NoConnection? ==>
              r.value.1.Fail? && r.value.1.failure == Decide(name, w, attempts[r.value.0]).failure
    decreases |attempts|
  {
    if attempts == [] then None
    else if attempts[0].Connects? then Some((0, Ok))
    else
      var step := Decide(name, w, attempts[0]);
      if step != Again then Some((0, Fail(step.failure)))
      else match SocketProbe(name, w, attempts[1..])
        case None => None
        case Some((k, report)) => Some((k + 1, report))
  }

  /** The socket probe does not outlive its deadline: a failed attempt past
      the deadline ends it at the latest there, and a connection ends it
      with success. The clause on giving up restates `Retry`'s deadline test
      for the attempt that ends the probe. */
  lemma SocketProbeEndsByDeadline(name: string, w: WaitFor, attempts: seq<Attempt>, i: nat)
    requires i < |attempts| && attempts[i].NoConnection?
    requires attempts[i].elapsedMs > EffectiveTimeout(w.timeout) * 1000
    ensures var r := SocketProbe(name, w, attempts);
              r.Some? && r.value.0 <= i
              && (attempts[r.value.0].NoConnection? ==>
                    (Decide(name, w, attempts[r.value.0]).GiveUp?
                     <==> attempts[r.value.0].elapsedMs > EffectiveTimeout(w.timeout) * 1000))
              && (attempts[r.value.0].Connects? ==> r.value.1 == Ok)
  {
  }

  /** The deadline only guards failed attempts: with `timeout: 1`, a retry at
      1000 ms schedules another attempt, and if that one connects the unit
      is reported ready although more than a second has passed. */
  lemma ConnectAfterDeadlineSucceeds(name: string, w: WaitFor)
    requires w.timeout == Some(1)
    ensures SocketProbe(name, w, [NoConnection(1000, None), Connects]) == Some((1, Ok))
  {
  }
}
