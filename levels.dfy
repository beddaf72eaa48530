/** The public header: severity levels and configuration defaults (include/wl_log.h). */
module Levels {

  /** wl_log_level_t. A numerically smaller level is more severe. */
  datatype Level = None | Error | Warn | Info | Debug | Verbose
  {
    /** The enumerator's integer value. */
    function Value(): (v: nat)
      ensures v <= 5
    {
      match this
      case None => 0
      case Error => 1
      case Warn => 2
      case Info => 3
      case Debug => 4
      case Verbose => 5
    }
  }

  /** The level whose enumerator has value `v`. */
  function FromValue(v: nat): (l: Level)
    requires v <= 5
    ensures l.Value() == v
  {
    if v == 0 then None
    else if v == 1 then Error
    else if v == 2 then Warn
    else if v == 3 then Info
    else if v == 4 then Debug
    else Verbose
  }

  /** The enumerators are declared in strictly increasing order, so each level
      is identified by its value. */
  lemma SeverityOrder(a: Level, b: Level)
    ensures None.Value() < Error.Value() < Warn.Value() < Info.Value() < Debug.Value() < Verbose.Value()
    ensures a.Value() == b.Value() ==> a == b
    ensures FromValue(a.Value()) == a
  {
  }

  /** WL_LOG_BUFFER_SIZE when the build does not predefine it. */
  const DefaultBufferSize: nat := 1024
}
