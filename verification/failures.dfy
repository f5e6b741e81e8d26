/** The errors a dependency unit records or reports, and the messages they
    carry (index.js builds them by string concatenation). */
module Failures {
  import opened Js

  /** The `reason` handed to `stop` and `kill`: nothing (a manual `stop()`),
      a message string (the exit listener's cascade), the host's exit status
      (the `'exit'` hook), or a thrown value (the uncaught-exception hook).
      `Thrown` carries the thrown value as string concatenation renders it,
      such as `"Error: boom"`, `"TypeError: x is undefined"` or `"Error"`;
      thrown falsy values are not modelled. */
  datatype Reason = NoReason | Text(text: string) | ExitStatus(status: int) | Thrown(rendered: string)

  /** Whether `reason ? ... : ''` takes the first branch. */
  predicate ReasonTruthy(r: Reason)
  {
    match r
    case NoReason => false
    case Text(s) => s != ""
    case ExitStatus(n) => n != 0
    case Thrown(_) => true
  }

  /** How a reason prints when concatenated to a string. */
  function ReasonString(r: Reason): string
  {
    match r
    case NoReason => "undefined"
    case Text(s) => s
    case ExitStatus(n) => NumberToString(n)
    case Thrown(shown) => shown
  }

  /** How a JavaScript value prints when concatenated to a string. */
  function ValueString(v: JsValue): string
  {
    match v
    case Undefined => "undefined"
    case Null => "null"
    case Num(n) => NumberToString(n)
  }

  /** Every error the unit code produces. `Killed` is stored as a plain
      string in the source; the others are `Error` objects. */
  datatype Failure =
    | Killed(unit: string, reason: Reason)
    | ExitedWithCode(unit: string, code: int)
    | ExitedAfterSignal(unit: string, signal: string)
    | ExitedImmediately(unit: string, code: int)
    | ExitMismatch(unit: string, expected: JsValue, got: int)
    | TimedOut(unit: string, elapsedMs: int)

  /** The text of a failure: the string itself for `Killed`, the Error's
      message otherwise. */
  function Message(f: Failure): string
  {
    match f
    case Killed(n, r) => n + " killed" + (if ReasonTruthy(r) then " because " + ReasonString(r) else "")
    case ExitedWithCode(n, c) => n + " exited with code " + NumberToString(c)
    case ExitedAfterSignal(n, s) => n + " exited after signal " + s
    case ExitedImmediately(n, c) => n + " exited immediately with code " + NumberToString(c)
    case ExitMismatch(n, e, g) => "Expected " + n + " to exit " + ValueString(e) + " but got " + NumberToString(g)
    case TimedOut(n, ms) => "Timed out after " + NumberToString(ms) + " waiting for " + n
  }

  /** A kill message names the reason exactly when the reason is truthy; a
      falsy reason (no reason, `""`, host exit status 0) leaves the bare
      "<name> killed". */
  lemma KilledMessageShape(name: string, r: Reason)
    ensures ReasonTruthy(r) ==> Message(Killed(name, r)) == name + " killed because " + ReasonString(r)
    ensures !ReasonTruthy(r) ==> Message(Killed(name, r)) == name + " killed"
  {
    if ReasonTruthy(r) {
      assert name + " killed" + (" because " + ReasonString(r)) == name + " killed because " + ReasonString(r);
    }
  }

  /** The unexpected-exit message determines the exit code, so the reason
      that the exit cascade hands to every other unit identifies the code. */
  lemma ExitMessageDeterminesCode(name: string, a: int, b: int)
    requires Message(ExitedWithCode(name, a)) == Message(ExitedWithCode(name, b))
    ensures a == b
  {
    var prefix := name + " exited with code ";
    var ma := Message(ExitedWithCode(name, a));
    var mb := Message(ExitedWithCode(name, b));
    assert ma[|prefix|..] == NumberToString(a);
    assert mb[|prefix|..] == NumberToString(b);
    NumberToStringInjective(a, b);
  }
}
