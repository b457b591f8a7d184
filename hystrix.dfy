/**
 * The circuit-breaker wrapper every @HystrixCommand handler runs under: when the
 * primary body throws, the caller gets the fallback's sentinel value instead.
 */
module Hystrix {
  import opened Model

  /** The value a wrapped handler hands back to its caller. */
  function Run<T>(primary: Reply<T>, fallback: T): (r: T)
    ensures primary.Ok? ==> r == primary.value
    ensures primary.Err? ==> r == fallback
  {
    match primary
    case Ok(v) => v
    case Err(_) => fallback
  }

  /** A failure never propagates: the caller sees the sentinel. */
  lemma FailureBecomesSentinel<T>(primary: Reply<T>, fallback: T)
    requires primary.Err?
    ensures Run(primary, fallback) == fallback
  {
  }

  /**
   * A caller can tell a failure from a success only by the payload, and only when
   * the primary never returns the sentinel itself.
   */
  lemma SentinelDetectsFailure<T>(primary: Reply<T>, fallback: T)
    requires primary.Ok? ==> primary.value != fallback
    ensures Run(primary, fallback) == fallback <==> primary.Err?
  {
  }

  /** A success whose payload equals the sentinel cannot be told from a failure. */
  lemma SentinelAmbiguous<T>(fallback: T)
    ensures Run(Ok(fallback), fallback) == Run(Err(Runtime("")), fallback)
  {
  }
}
