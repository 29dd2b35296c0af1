/**
 * The exit hook of a window: a predicate that can veto closing. The caller's
 * predicate is an outside piece of code, so its answer is an input here; the
 * mode it was installed with decides whether that answer is consulted.
 */
module ExitHooks {
  import Retval

  datatype Mode = Always | OkOnly

  /** What the window's exit_hook_ holds: nothing yet, or a caller's predicate under a mode. */
  datatype ExitHook = Unset | Installed(mode: Mode)

  /**
   * The answer of the installed hook, evaluated against the return value the
   * window has at the moment of evaluation. `hookResult` is what the caller's
   * predicate answers if it is consulted.
   */
  function Combine(mode: Mode, retval: int, hookResult: bool): (allowClose: bool)
    ensures mode == Always ==> (allowClose <==> hookResult)
    ensures mode == OkOnly && retval != Retval.OK ==> allowClose
    ensures mode == OkOnly && retval == Retval.OK ==> (allowClose <==> hookResult)
  {
    match mode
    case Always => hookResult
    case OkOnly => retval != Retval.OK || hookResult
  }

  /** Under ok_only the caller's predicate is never consulted for a return value other than OK. */
  lemma OkOnlyIgnoresHookUnlessOk(retval: int)
    requires retval != Retval.OK
    ensures Combine(OkOnly, retval, true) == Combine(OkOnly, retval, false)
  {
  }

  /** A veto only ever comes from the caller's predicate, and under ok_only only when the value is OK. */
  lemma VetoComesFromHook(mode: Mode, retval: int, hookResult: bool)
    ensures !Combine(mode, retval, hookResult) ==> !hookResult
    ensures !Combine(mode, retval, hookResult) && mode == OkOnly ==> retval == Retval.OK
  {
  }

  /** ok_only never vetoes where always would allow closing. */
  lemma OkOnlyNoStricterThanAlways(retval: int, hookResult: bool)
    ensures Combine(Always, retval, hookResult) ==> Combine(OkOnly, retval, hookResult)
  {
  }
}
