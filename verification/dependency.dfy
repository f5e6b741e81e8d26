/** One dependency unit (`Dependency` in index.js): a declared process, the
    child it spawned, and the flags and sticky error that the start request,
    the exit listener, the settle timer and `kill` read and update.

    The operating-system child is abstracted to what the unit code observes:
    whether Node still holds its handle, its `exitCode` and `signalCode`, and
    whether the unit's `'exit'` listener is still attached. */
module Dependency {
  import opened Js
  import opened Failures

  /** The `wait_for` readiness declaration. An absent field is `None` (or
      `Undefined` for the expected exit code, which is compared loosely). */
  datatype WaitFor = WaitFor(port: Option<int>, exitCode: JsValue, timeout: Option<int>)

  /** The parts of a declaration the unit logic reads. The command, working
      directory and output redirection only feed the operating system. */
  datatype Decl = Decl(signal: Option<string>, waitFor: Option<WaitFor>)

  /** What the unit sees of its child process. */
  datatype ChildStatus = ChildStatus(hasHandle: bool, exitCode: Option<int>, signalCode: Option<string>, listening: bool)

  /** How a child terminated: Node sets exactly one of `exitCode` and
      `signalCode` and releases the handle before emitting `'exit'`. */
  datatype Termination = Code(code: int) | Signal(signal: string)

  datatype Unit = Unit(
    name: string,
    decl: Decl,
    spawned: bool,
    error: Option<Failure>,
    child: Option<ChildStatus>,
    test: bool)   // whether a test harness object was passed to the last start

  /** What a start callback eventually receives: `null` or an error. */
  datatype Report = Ok | Fail(failure: Failure)

  /** What a start request leads to. `DeferError` defers a callback that
      reads the unit's error only when it runs (`null` under a harness);
      `DeferOk` defers a plain success. The others follow a fresh spawn: the
      settle timer, one of the two probes, or the exception for a `wait_for`
      that names neither a port nor an exit code. */
  datatype Started = DeferError(test: bool) | DeferOk | AwaitSettle | ProbeSocket | ProbeExit | Throws
  {
    predicate CreatedChild()
    {
      !DeferError? && !DeferOk?
    }
  }

  /** The argument a `DeferError` callback receives when it finally runs
      against the unit as it is then: `test ? null : self.error`. */
  function DeferredArg(u: Unit, test: bool): (a: Option<Failure>)
    ensures test ==> a.None?
    ensures !test ==> a == u.error
  {
    if test then None else u.error
  }

  const DefaultTimeoutSeconds: int := 30
  const DefaultSignal: string := "SIGTERM"

  /** A child just returned by `spawn`: live handle, no exit status, the
      unit's exit listener attached. */
  const FreshChild: ChildStatus := ChildStatus(true, None, None, true)

  /** `wait_for.timeout || 30`. */
  function EffectiveTimeout(t: Option<int>): (s: int)
    ensures s != 0
    ensures CodeTruthy(t) ==> s == t.value
    ensures !CodeTruthy(t) ==> s == DefaultTimeoutSeconds
  {
    if CodeTruthy(t) then t.value else DefaultTimeoutSeconds
  }

  /** `what.signal || 'SIGTERM'`. */
  function KillSignal(d: Decl): (s: string)
    ensures s != ""
    ensures TextTruthy(d.signal) ==> s == d.signal.value
    ensures !TextTruthy(d.signal) ==> s == DefaultSignal
  {
    if TextTruthy(d.signal) then d.signal.value else DefaultSignal
  }

  predicate ChildWf(c: ChildStatus)
  {
    && (c.hasHandle ==> c.exitCode.None? && c.signalCode.None?)
    && (!c.hasHandle ==> c.exitCode.Some? != c.signalCode.Some?)
  }

  /** The invariant every reachable unit satisfies, given that creating the
      child does not throw: a child exists exactly when the unit has
      spawned; an error is only ever recorded after a spawn; the exit
      listener is only removed by `kill`, which leaves an error behind; while
      the listener can still run, no error is recorded yet; a spawned unit's
      `wait_for.timeout` has been defaulted. */
  predicate Wf(u: Unit)
  {
    && (u.spawned <==> u.child.Some?)
    && (u.error.Some? ==> u.spawned)
    && (u.child.Some? ==> ChildWf(u.child.value))
    && (u.child.Some? && !u.child.value.listening ==> u.error.Some?)
    && (u.child.Some? && u.child.value.hasHandle && u.child.value.listening ==> u.error.None?)
    && (u.spawned && u.decl.waitFor.Some? ==> CodeTruthy(u.decl.waitFor.value.timeout))
  }

  /** The `Dependency` constructor. */
  function NewUnit(name: string, decl: Decl): (u: Unit)
    ensures Wf(u)
    ensures u.name == name && u.decl == decl
    ensures !u.spawned && u.child.None? && u.error.None? && !u.test
  {
    Unit(name, decl, false, None, None, false)
  }

  /** `Dependency.prototype.spawn`: records the harness, then refuses to
      start a unit holding an error or one already spawned, and otherwise
      creates the child, defaults `wait_for.timeout` and picks how readiness
      is decided. */
  function Spawn(u: Unit, test: bool): (r: (Unit, Started))
    ensures r.0.name == u.name && r.0.test == test
    // a unit holding an error: no child, nothing changes, a deferred reply with its error
    ensures u.error.Some? ==> r.0 == u.(test := test) && r.1 == DeferError(test)
    ensures u.error.Some? ==> DeferredArg(r.0, test) == (if test then None else u.error)
    // an error-free unit that already spawned: no second child, success
    ensures u.error.None? && u.spawned ==> r.0 == u.(test := test) && r.1 == DeferOk
    // a child is created exactly when the unit is error-free and has never spawned
    ensures r.1.CreatedChild() <==> u.error.None? && !u.spawned
    ensures r.1.CreatedChild() ==> r.0.spawned && r.0.child == Some(FreshChild) && r.0.error.None?
    ensures r.0.spawned == (u.spawned || r.1.CreatedChild())
    // the declaration is kept, except for the defaulted timeout
    ensures r.0.decl.signal == u.decl.signal
    ensures u.decl.waitFor.None? ==> r.0.decl == u.decl
    ensures !r.1.CreatedChild() ==> r.0.decl == u.decl
    // readiness dispatch on a fresh spawn
    ensures r.1 == AwaitSettle <==> r.1.CreatedChild() && u.decl.waitFor.None?
    ensures r.1 == ProbeSocket <==> r.1.CreatedChild() && u.decl.waitFor.Some? && CodeTruthy(u.decl.waitFor.value.port)
    ensures r.1 == ProbeExit <==> r.1.CreatedChild() && u.decl.waitFor.Some? && !CodeTruthy(u.decl.waitFor.value.port)
                                  && u.decl.waitFor.value.exitCode != Undefined
    ensures r.1.CreatedChild() && u.decl.waitFor.Some? ==>
              r.0.decl.waitFor == Some(u.decl.waitFor.value.(timeout := Some(EffectiveTimeout(u.decl.waitFor.value.timeout))))
    ensures Wf(u) ==> Wf(r.0)
  {
    var u1 := u.(test := test);
    if u.error.Some? then
      (u1, DeferError(test))
    else if u.spawned then
      (u1, DeferOk)
    else
      var u2 := u1.(spawned := true, child := Some(FreshChild));
      match u.decl.waitFor
      case None => (u2, AwaitSettle)
      case Some(w) =>
        var w' := w.(timeout := Some(EffectiveTimeout(w.timeout)));
        var u3 := u2.(decl := u2.decl.(waitFor := Some(w')));
        if CodeTruthy(w.port) then (u3, ProbeSocket)
        else if w.exitCode != Undefined then (u3, ProbeExit)
        else (u3, Throws)
  }

  /** Whether the exit listener treats a termination as a failure: it is
      attached, the code is not loosely equal to `wait_for.exit_code`, and
      the code is a non-zero number. */
  predicate UnexpectedExit(u: Unit, t: Termination)
    requires u.child.Some?
  {
    && u.child.value.listening
    && t.Code?
    && !(u.decl.waitFor.Some? && LooseEquals(Num(t.code), u.decl.waitFor.value.exitCode))
    && t.code != 0
  }

  /** The child's `'exit'` event, delivered once while Node still holds the
      handle: Node records the termination and drops the handle, then the
      unit's listener (if `kill` has not removed it) ignores the expected
      exit code, and on a non-zero code overwrites the error with "exited
      with code N". The returned failure is the one whose message the
      listener passes to `stop`. */
  function ChildExited(u: Unit, t: Termination): (r: (Unit, Option<Failure>))
    requires u.child.Some? && u.child.value.hasHandle
    ensures r.0.name == u.name && r.0.decl == u.decl && r.0.spawned == u.spawned && r.0.test == u.test
    ensures r.0.child.Some? && !r.0.child.value.hasHandle
    ensures r.0.child.value.listening == u.child.value.listening
    ensures t.Code? ==> r.0.child.value.exitCode == Some(t.code) && r.0.child.value.signalCode.None?
    ensures t.Signal? ==> r.0.child.value.signalCode == Some(t.signal) && r.0.child.value.exitCode.None?
    ensures UnexpectedExit(u, t) ==> r.1 == Some(ExitedWithCode(u.name, t.code)) && r.0.error == r.1
    ensures !UnexpectedExit(u, t) ==> r.1.None? && r.0.error == u.error
    ensures Wf(u) ==> Wf(r.0)
  {
    var c := u.child.value;
    var c' := match t
      case Code(n) => c.(hasHandle := false, exitCode := Some(n), signalCode := None)
      case Signal(s) => c.(hasHandle := false, exitCode := None, signalCode := Some(s));
    var u1 := u.(child := Some(c'));
    if !c.listening then
      (u1, None)
    else if u.decl.waitFor.Some? && LooseEquals(Nullable(c'.exitCode), u.decl.waitFor.value.exitCode) then
      (u1, None)
    else if c'.exitCode.Some? && c'.exitCode.value != 0 then
      var f := ExitedWithCode(u.name, c'.exitCode.value);
      (u1.(error := Some(f)), Some(f))
    else
      (u1, None)
  }

  /** Whether the child had already gone when the settle timer fires:
      `signalCode || exitCode`, so an exit code of 0 does not count. */
  predicate ChildGone(c: ChildStatus)
  {
    TextTruthy(c.signalCode) || CodeTruthy(c.exitCode)
  }

  /** The settle timer armed by a spawn without `wait_for`: the unit is
      ready when the child shows neither a signal nor a non-zero exit code;
      otherwise the error records the signal, or failing that the code.
      `test` is the harness the spawning start received: under a harness the
      failure goes to the harness and the callback gets `null`. */
  function Settle(u: Unit, test: bool): (r: (Unit, Report))
    requires u.child.Some?
    ensures !ChildGone(u.child.value) ==> r == (u, Ok)
    ensures ChildGone(u.child.value) ==>
              r.0 == u.(error := r.0.error) && r.0.error.Some?
              && (TextTruthy(u.child.value.signalCode) ==>
                    r.0.error == Some(ExitedAfterSignal(u.name, u.child.value.signalCode.value)))
              && (!TextTruthy(u.child.value.signalCode) ==>
                    r.0.error == Some(ExitedImmediately(u.name, u.child.value.exitCode.value)))
    ensures r.1.Fail? <==> ChildGone(u.child.value) && !test
    ensures r.1.Fail? ==> Some(r.1.failure) == r.0.error
    ensures Wf(u) ==> Wf(r.0)
  {
    var c := u.child.value;
    if ChildGone(c) then
      var f := if TextTruthy(c.signalCode) then ExitedAfterSignal(u.name, c.signalCode.value)
               else ExitedImmediately(u.name, c.exitCode.value);
      (u.(error := Some(f)), if test then Ok else Fail(f))
    else
      (u, Ok)
  }

  /** Whether `kill` acts: there is a child, Node still holds its handle, and
      it shows neither a signal nor a non-zero exit code. */
  predicate Killable(u: Unit)
  {
    u.child.Some? && u.child.value.hasHandle && !ChildGone(u.child.value)
  }

  /** `Dependency.prototype.kill`: on a killable unit, records a "killed"
      error unless one is already there, removes the exit listener and
      sends the declared signal (SIGTERM by default). Returns the signal
      sent, if any. */
  function Kill(u: Unit, reason: Reason): (r: (Unit, Option<string>))
    ensures !Killable(u) ==> r == (u, None)
    ensures Killable(u) ==> r.1 == Some(KillSignal(u.decl))
    ensures Killable(u) ==> r.0 == u.(error := r.0.error, child := Some(u.child.value.(listening := false)))
    ensures u.error.Some? ==> r.0.error == u.error
    ensures Killable(u) && u.error.None? ==> r.0.error == Some(Killed(u.name, reason))
    ensures Wf(u) ==> Wf(r.0)
  {
    if u.child.None? then (u, None)
    else if !u.child.value.hasHandle then (u, None)
    else if ChildGone(u.child.value) then (u, None)
    else
      var e := if u.error.None? then Some(Killed(u.name, reason)) else u.error;
      (u.(error := e, child := Some(u.child.value.(listening := false))), Some(KillSignal(u.decl)))
  }

  /** Kill leaves a unit untouched in each of the four cases the source
      guards against. */
  lemma KillNoOpCases(u: Unit, reason: Reason)
    requires || u.child.None?
             || !u.child.value.hasHandle
             || TextTruthy(u.child.value.signalCode)
             || CodeTruthy(u.child.value.exitCode)
    ensures Kill(u, reason) == (u, None)
  {
  }

  /** A second kill changes nothing more and re-sends the same signal: the
      child keeps its handle until it actually exits. */
  lemma KillTwice(u: Unit, a: Reason, b: Reason)
    ensures Kill(Kill(u, a).0, b) == (Kill(u, a).0, Kill(u, a).1)
  {
  }
}
