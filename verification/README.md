# depends-on: the dependency unit state machine in Dafny

depends-on starts the external processes a test suite needs, in dependency
order. It decides when each one is ready, and it kills all of them when one
fails or the controlling Node process ends. This project models the part of
`index.js` that has logic of its own:

- the per-process `Dependency` unit;
- the name-keyed registry that holds the units.

Each event that touches a unit is a pure transition over an immutable record.
The record holds `spawned`, the sticky `error`, the harness flag `test` and an
abstract child. The child has a live-handle flag, `exitCode`, `signalCode`
and a flag for whether the unit's `'exit'` listener is still attached.

Modules:

- `Js` (js.dfy): the JavaScript semantics the code relies on. This covers
  truthiness (`0`, `null`, `undefined` and `""` are falsy), loose `==` (where
  `null == undefined`), and `String(n)` of an integer, with a proof that
  printing is injective.
- `Failures` (failures.dfy): every error the unit records or reports, and
  its message text.
- `Dependency` (dependency.dfy): the constructor, the start request
  (`spawn`), the exit listener, the settle timer and `kill`. It also holds
  the invariant `Wf` that every transition preserves.
- `Probe` (probe.dfy): the exit-code poll of `waitOnExit` (its stop test and
  its verdict) and the attempt loop of `waitOnSocket`, where a connection
  ends the probe and `retry` decides after every failed attempt.
- `Lifecycle` (lifecycle.dfy): any sequence of events applied to a unit. It
  proves three things: at most one spawn, phases that only move forward, and
  that the invariant holds along the way.
- `Registry` (registry.dfy): `get_dependency` memoised on the name, the
  registration loop, `stop`, and the exit listener's cascade into `stop`.

Behaviours of the code that are easy to misread:

- A start request assigns `this.test` before its guards. A refused start
  therefore still records the new harness flag; nothing else changes.
- The exit-code probe's own failures go only to the callback and are never
  stored in `this.error`. This covers a timeout, and a mismatch where the
  child exited with code 0. Such a failure is not sticky: a later start of the
  same unit reports success ("already started"). A mismatch with a non-zero
  code is different. The exit listener has already stored "exited with code
  N" and called `stop`, so a later start reports that error. Both sentences
  hold unless `kill` has already removed the listener. Then nothing is stored
  at the exit, and the kill error is what a later start reports
  (`Lifecycle.KillThenExitKeepsError`).
- A start refused because of a stored error defers its callback. The
  callback reads `self.error` only when it runs, so it gets the error held at
  that moment. That may be a newer one, for example the settle timer's
  "exited after signal" replacing "killed". It is never `null` unless a
  harness is attached.
- Only the settle timer overwrites an error that is already recorded, for
  example "killed" becoming "exited after signal". `kill` keeps an existing
  error. The exit listener never finds one: `kill` records its error and
  removes the listener together, the listener runs once, and the settle
  timer records only after the exit (`Lifecycle.ExitListenerFindsNoError`).
  An error, once present, is never cleared (`Lifecycle.PhaseMonotone`).
- The exit listener calls `stop` directly. So an unexpected non-zero exit
  kills every other unit whose child is live, without going through the
  process hooks.
- `stop` signals again a child that an earlier `stop` signalled if that
  child has not exited yet. Its handle is still held, so `kill` acts again.
  It records nothing new.
- The poll's stop test reads `exitCode || elapsed > timeout`. So a child
  that exits with code 0 is not noticed until the deadline passes. With
  `exit_code: 0` the unit is reported ready only after the full timeout.
- With `exit_code: null` the exit-code probe is used (`null !== undefined`).
  Because `null == null`, a child still running at the deadline then counts
  as ready.

Node's child-process behaviour is assumed as follows. When a child
terminates, Node sets exactly one of `exitCode` and `signalCode` and releases
the handle, and only then emits `'exit'`. It emits `'exit'` once.

## Model

| member | source | states |
|---|---|---|
| Dependency.NewUnit | index.js:145-152 | a new unit has not spawned, has no child and no error, carries the given name and declaration, and satisfies the unit invariant |
| Dependency.Spawn | index.js:174-243 | the harness flag is always recorded. A unit holding an error creates no child, changes nothing else, and defers a reply that reads the unit's error when it runs (null under a harness). An error-free unit that has spawned replies with success and spawns nothing. A child is created exactly when the unit is error-free and has never spawned. A fresh spawn keeps the declared signal, changes the declaration only by defaulting `wait_for.timeout`, and picks the settle timer, the socket probe (truthy port), the exit probe (exit_code not undefined) or the throw. The invariant is preserved |
| Dependency.EffectiveTimeout | index.js:233 | the timeout is the declared one when it is truthy and 30 seconds otherwise, and it is never 0 |
| Dependency.KillSignal | index.js:171 | the signal sent is the declared one when it is truthy and SIGTERM otherwise |
| Dependency.ChildExited | index.js:210-230 | an exit drops the handle and records exactly the code or the signal. With the listener attached, a code loosely equal to `wait_for.exit_code` is ignored. A non-null non-zero code overwrites the error with "exited with code N" and yields the failure that is passed to stop. A signal or code 0 records nothing. A removed listener records nothing. The invariant is preserved |
| Dependency.Settle | index.js:245-267 | with neither a truthy signalCode nor a non-zero exitCode the unit is ready and unchanged (so exit code 0 counts as ready). Otherwise the error records the signal in preference to the code, and the callback gets that error, or null under the harness |
| Dependency.Kill | index.js:154-172 | kill acts only on a unit whose child has a handle and neither a truthy signal nor a non-zero code. When it acts, it keeps an existing error or records "killed", removes the exit listener and sends the declared signal or SIGTERM. Otherwise the unit is unchanged and no signal is sent |
| Dependency.KillNoOpCases | index.js:154-163 | no child, no handle, a truthy signalCode or a non-zero exitCode each leave the unit unchanged with no signal |
| Dependency.KillTwice | index.js:154-172 | a second kill changes nothing more and sends the same signal again |
| Probe.ExitVerdict | index.js:342-352 | success exactly when the exit code loosely equals the expected one. Any other code gives a mismatch error naming both codes. A still-running child gives a timeout error |
| Probe.ExitVerdictNumeric | index.js:342 | against a numeric expected code, success holds exactly when the child exited with that code |
| Probe.ExitVerdictNullExpected | index.js:342-347 | with `exit_code: null` a still-running child is reported as ready |
| Probe.WaitOnExit | index.js:325-354 | the poll ends at the first tick whose stop test holds and reports that tick's verdict. It is still running exactly when no observed tick satisfies the test |
| Probe.ZeroExitWaitsForDeadline | index.js:332-335 | after an exit with code 0 the poll stops exactly when the deadline has passed |
| Probe.NonZeroExitStopsPoll | index.js:334 | a non-zero exit code stops the poll regardless of the deadline |
| Probe.SocketProbe | index.js:276-321 | the socket probe ends at the first attempt that connects or whose retry does not schedule another one, and keeps running exactly when every attempt fails and retries. A connection reports success, and a failed attempt that ends the probe reports retry's timeout or the unit's error |
| Probe.SocketProbeEndsByDeadline | index.js:277-280 | a failed attempt past the deadline ends the probe at or before it. The probe gives up on time exactly when its last attempt failed past the deadline, and an attempt that connects ends it with success whatever the time |
| Probe.ConnectAfterDeadlineSucceeds | index.js:294-309 | the deadline guards only failed attempts: with a one-second timeout, a retry at 1000 ms schedules another attempt, and if that attempt connects the unit is reported ready although more than a second has passed |
| Probe.Retry | index.js:276-290 | the socket retry gives up with a timeout exactly when the deadline has passed. Otherwise it reports the connection if found, then the unit's recorded error, and otherwise tries again |
| Lifecycle.Step | index.js:154-267 | one event never unsets `spawned`, creates a child only for a unit that has not spawned, never moves the unit's phase backwards and preserves the invariant |
| Lifecycle.AtMostOneSpawn | index.js:192-199 | any sequence of events creates at most one child per unit, and none once it has spawned |
| Lifecycle.RunPreservesWf | index.js:145-267 | every event sequence keeps the unit invariant: a child exactly when spawned, errors only after a spawn, the listener removed only with an error recorded |
| Lifecycle.PhaseMonotone | index.js:154-267 | phases only move forward (idle, running, exited, failed), so a recorded error is never cleared |
| Lifecycle.DeferredErrorStaysAnError | index.js:182-189 | a start refused because of a stored error defers a callback that, without a harness, still receives an error whatever happens to the unit meanwhile |
| Lifecycle.NonZeroMismatchIsRecorded | index.js:210-220 | a child that exits with a non-zero code other than the expected one leaves "exited with code N" on the unit, so a later start reports that error |
| Lifecycle.ZeroMismatchIsNotRecorded | index.js:210-220 | a child that exits with code 0 when another code is expected leaves no error on the unit, so a later start reports "already started" |
| Lifecycle.ExitListenerFindsNoError | index.js:167-253 | after any sequence of events, whenever the exit listener is still attached to a live child the unit holds no error, so the listener never overwrites one |
| Lifecycle.KillThenExitKeepsError | index.js:167-171 | after kill has acted, the child's exit does not reach the listener, so the kill error stays |
| Registry.GetDependency | index.js:141-143 | a registered name returns its existing unit and ignores the new declaration. A new name gets a fresh unit. Every other entry is unchanged and the registry stays consistent, with one unit per name filed under its own name |
| Registry.GetDependencyMemoised | index.js:141-143 | a second lookup of a name, with any declaration, returns the same unit and the same registry |
| Registry.Declare | index.js:107-127 | after registering the declarations, the registry holds the old names plus the declared ones. Existing units are untouched, and each new unit is fresh with its first listed declaration |
| Registry.Stop | index.js:34-38 | stop is kill applied to every unit independently. It leaves every unit without a live, un-exited child unchanged and unsignalled. It signals every other unit with its declared signal, changes only that unit's error and listener, and records "killed" with the given reason unless an error is already there, which it never overwrites |
| Registry.StopTwice | index.js:34-38 | a second stop leaves the registry as the first left it and sends the same signals again |
| Registry.StartUnit | index.js:125-126 | a start request touches only the named unit, exactly as its spawn does |
| Registry.StartTwiceSpawnsOnce | index.js:192-199 | a second start of the same unit never creates a child |
| Registry.ExitUnit | index.js:210-230 | an expected or harmless exit changes only the exiting unit and signals nothing. An unexpected non-zero exit records "exited with code N" on that unit and kills every other unit with that message as the reason. Each sibling with a live child is signalled with its own declared signal, and the exited unit itself is not signalled |
| Registry.ExitCascadeKillsSiblings | index.js:217-229 | after an unexpected exit, every other unit with a live child holds an error and was signalled, and every unit without one is untouched |
| Failures.KilledMessageShape | index.js:168 | the kill message names the reason exactly when the reason is truthy |
| Failures.ExitMessageDeterminesCode | index.js:218 | the "exited with code N" message determines N |
| Js.LooseEqualsCharacterised | index.js:211 | loose equality is strict equality except that null and undefined are equal |

## Left out

- Process spawning, `fs.openSync` redirection of stdout/stderr, `child.unref`, the command and the working directory (index.js:201-208). These are operating-system I/O. A spawn is modelled as "a child with a live handle and the listener attached now exists".
- A child that cannot be spawned at all (for example a missing executable). Node reports it with an `'error'` event, for which the unit has no listener. This is not modelled.
- An exception between `this.spawned = true` and the assignment of `this.child` (index.js:199-206). `spawn` throws for an empty `cmd`, and `fs.openSync` throws for an stdout or stderr path it cannot open. Either leaves the unit with `spawned` true and no child. From then on every start answers "already started" and `kill` does nothing. The model's spawn always creates the child, and its invariant `Wf` (a child exactly when spawned) assumes this exception does not happen.
- Dependency.Kill: the declared signal is assumed to be a signal name Node knows. For an unknown name, Node's `child.kill` throws after the error has been recorded and the listener removed. Inside `stop` that exception ends the loop, so the remaining units are not killed. The model always sends the signal and always continues.
- The sockets and timers of `waitOnSocket` (index.js:270-322). Each attempt is an observed outcome: it connects, or it fails (an error or 199 ms of silence) and `retry` runs at an observed elapsed time. The `async.until` test and the final callback also read `this.error` from an unclear receiver. The model takes that value as falsy, so only `found` and `retry`'s errors end the probe.
- Timer delays (100, 101, 198, 199 ms) and the clock. The poll sees the clock only as the `elapsedMs` of each observed tick. A timeout error carries the elapsed time of the deciding tick; the source reads the clock again to build the message.
- Dependency-ordered scheduling, fail-fast reporting and target-subset selection. These are delegated to the foreign `async.auto` and `async-autotarget` (index.js:131-137) and cannot be seen here.
- The process hooks for `'exit'`, `'uncaughtException'` and `'SIGINT'` (index.js:17-32). They are host-environment plumbing. The `'exit'` and `'uncaughtException'` hooks call `stop` with an exit status or a thrown value as the reason, and both kinds of reason are modelled. The `'SIGINT'` hook does not go through `kill`. It calls `child.kill('SIGINT')` directly on every unit that has a child, without kill's guards, recording no error and leaving the exit listener attached. It then throws, and only that exception reaches `stop`, through the uncaught-exception hook. This direct signalling is not modelled.
- Test-harness reporting (`test.pass`, `test.fail`, `test.end`) and writes to stderr. Only whether a callback receives the error or null is modelled.
- Declaration loading and path handling: `find_dependencies`, `require` of the declaration file, the `Dependencies` constructor, the `already` path of `get_ready`, `depends` defaulting and `path.resolve` (index.js:45-122). These are filesystem work and library calls.
- `get_dependencies`, memoised on an object argument (index.js:41-43).
- `self.waiter` in the settle timer: it is never assigned anywhere, so its call is dead code.
- Declaration values other than undefined, null and integers. For example, an `exit_code` given as the string "0" would compare loosely equal to 0. Fractional numbers and NaN are not modelled either.
