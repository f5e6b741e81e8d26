/** A unit's life as a sequence of the events index.js reacts to: start
    requests, the child's exit, the settle timer and kill requests (from
    `stop`, whichever hook or cascade called it). The lemmas here are about
    every such sequence. */
module Lifecycle {
  import opened Js
  import opened Failures
  import opened Dependency

  datatype Event =
    | StartRequest(test: bool)
    | ChildExit(how: Termination)
    | SettleTimer(test: bool)
    | KillRequest(reason: Reason)

  /** The coarse phase of a unit: never started, running, exited cleanly as
      far as the unit is concerned, or holding an error. */
  datatype Phase = Idle | Running | Exited | Failed

  function PhaseOf(u: Unit): Phase
  {
    if u.error.Some? then Failed
    else if !u.spawned then Idle
    else if u.child.Some? && u.child.value.hasHandle then Running
    else Exited
  }

  function Rank(p: Phase): nat
  {
    match p
    case Idle => 0
    case Running => 1
    case Exited => 2
    case Failed => 3
  }

  /** One event applied to a unit; the flag says whether a child process was
      created. An exit is only delivered while Node holds the child's handle
      (it is emitted once), and the settle timer only exists after a spawn. */
  function Step(u: Unit, e: Event): (r: (Unit, bool))
    ensures r.1 ==> !u.spawned
    ensures r.0.spawned == (u.spawned || r.1)
    ensures Rank(PhaseOf(u)) <= Rank(PhaseOf(r.0))
    ensures Wf(u) ==> Wf(r.0)
  {
    match e
    case StartRequest(test) =>
      var (u', started) := Spawn(u, test);
      (u', started.CreatedChild())
    case ChildExit(how) =>
      if u.child.Some? && u.child.value.hasHandle then (ChildExited(u, how).0, false) else (u, false)
    case SettleTimer(test) =>
      if u.child.Some? then (Settle(u, test).0, false) else (u, false)
    case KillRequest(reason) =>
      (Kill(u, reason).0, false)
  }

  function Run(u: Unit, es: seq<Event>): Unit
    decreases |es|
  {
    if es == [] then u else Run(Step(u, es[0]).0, es[1..])
  }

  /** How many child processes a sequence of events creates. */
  function SpawnCount(u: Unit, es: seq<Event>): nat
    decreases |es|
  {
    if es == [] then 0
    else (if Step(u, es[0]).1 then 1 else 0) + SpawnCount(Step(u, es[0]).0, es[1..])
  }

  /** At most one spawn per unit, whatever the events: none at all once it
      has spawned, and a unit that did spawn stays marked as spawned. */
  lemma {:induction false} AtMostOneSpawn(u: Unit, es: seq<Event>)
    ensures SpawnCount(u, es) <= (if u.spawned then 0 else 1)
    ensures u.spawned ==> Run(u, es).spawned
    ensures SpawnCount(u, es) == 1 ==> Run(u, es).spawned
    decreases |es|
  {
    if es != [] {
      AtMostOneSpawn(Step(u, es[0]).0, es[1..]);
    }
  }

  /** Every event sequence keeps the unit invariant. */
  lemma {:induction false} RunPreservesWf(u: Unit, es: seq<Event>)
    requires Wf(u)
    ensures Wf(Run(u, es))
    decreases |es|
  {
    if es != [] {
      RunPreservesWf(Step(u, es[0]).0, es[1..]);
    }
  }

  /** Whenever the exit listener can still run, the unit holds no error: a
      kill error comes with the listener's removal, the listener records its
      own error only as it runs, once, and the settle timer records one only
      after the exit. So the listener never overwrites an error. */
  lemma ExitListenerFindsNoError(u: Unit, es: seq<Event>)
    requires Wf(u)
    ensures var v := Run(u, es);
              v.child.Some? && v.child.value.hasHandle && v.child.value.listening ==> v.error.None?
  {
    RunPreservesWf(u, es);
  }

  /** Phases only move forward, so an error once recorded is never cleared
      (it may be replaced by another error, but never by `null`). */
  lemma {:induction false} PhaseMonotone(u: Unit, es: seq<Event>)
    ensures Rank(PhaseOf(u)) <= Rank(PhaseOf(Run(u, es)))
    ensures u.error.Some? ==> Run(u, es).error.Some?
    decreases |es|
  {
    if es != [] {
      PhaseMonotone(Step(u, es[0]).0, es[1..]);
    }
  }

  /** Once `kill` has acted, the child's exit no longer reaches the unit's
      listener, so the kill error survives the child's death. */
  lemma KillThenExitKeepsError(u: Unit, reason: Reason, how: Termination)
    requires Killable(u)
    ensures Step(Kill(u, reason).0, ChildExit(how)).0.error == Kill(u, reason).0.error
    ensures Kill(u, reason).0.error.Some?
  {
  }

  /** A start refused because of a stored error defers a callback that reads
      the error only when it runs. Whatever happens to the unit meanwhile, a
      callback without a harness still receives an error (possibly a newer
      one, such as the settle timer's), never `null`. */
  lemma DeferredErrorStaysAnError(u: Unit, test: bool, meanwhile: seq<Event>)
    requires u.error.Some? && !test
    ensures Spawn(u, test).1 == DeferError(test)
    ensures DeferredArg(Run(Spawn(u, test).0, meanwhile), test).Some?
  {
    PhaseMonotone(Spawn(u, test).0, meanwhile);
  }

  /** An exit-code probe whose child exits with a different, non-zero code
      leaves a sticky error: the exit listener stores "exited with code N",
      so a later start reports that error rather than "already started". */
  lemma NonZeroMismatchIsRecorded(u: Unit, expected: int, code: int, test: bool)
    requires Wf(u) && u.spawned && u.error.None?
    requires u.child.value.hasHandle
    requires u.decl.waitFor.Some? && u.decl.waitFor.value.exitCode == Num(expected)
    requires code != expected && code != 0
    ensures Step(u, ChildExit(Code(code))).0.error == Some(ExitedWithCode(u.name, code))
    ensures Spawn(Step(u, ChildExit(Code(code))).0, test).1 == DeferError(test)
  {
    LooseEqualsNumber(expected, Num(code));
  }

  /** A child that exits with code 0 while the exit-code probe expects
      another code leaves no error on the unit: the mismatch reaches only the
      probe's callback, and a later start reports "already started". */
  lemma ZeroMismatchIsNotRecorded(u: Unit, expected: int, test: bool)
    requires Wf(u) && u.spawned && u.error.None?
    requires u.child.value.hasHandle
    requires u.decl.waitFor.Some? && u.decl.waitFor.value.exitCode == Num(expected)
    requires expected != 0
    ensures Step(u, ChildExit(Code(0))).0.error.None?
    ensures Spawn(Step(u, ChildExit(Code(0))).0, test).1 == DeferOk
  {
  }
}
