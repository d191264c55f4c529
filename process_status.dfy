/**
 * `exit_with_process_status` (cargo-hf2/src/main.rs): the exit code the tool
 * leaves with when `cargo build` did not succeed.
 */
module ProcessStatus {
  import opened Wrappers

  /** The two `cfg` variants of `exit_with_process_status`. */
  datatype Platform = Unix | NonUnix

  /**
   * What `std::process::ExitStatus` reveals: `code()` (set when the child
   * exited normally) and, on Unix, `signal()` (set when a signal ended it).
   */
  datatype ExitStatus = ExitStatus(code: Option<int>, signal: Option<int>)

  /** `ExitStatus::success`: the child exited normally with code 0. */
  predicate Success(status: ExitStatus): (r: bool)
    ensures r ==> ExitCodeFor(status, Unix) == 0 && ExitCodeFor(status, NonUnix) == 0
  {
    status.code == Some(0)
  }

  /**
   * On Unix, a signal number is at least 1. Nothing else is assumed; in
   * particular a non-Unix status may carry any code.
   */
  predicate WellFormed(status: ExitStatus) {
    status.signal.Some? ==> status.signal.value >= 1
  }

  /** The code handed to `std::process::exit`: the child's code, else (Unix only) its signal, else 1. */
  function ExitCodeFor(status: ExitStatus, platform: Platform): (r: int)
    ensures status.code.Some? ==> r == status.code.value
    ensures status.code.None? && platform == Unix && status.signal.Some? ==> r == status.signal.value
    ensures status.code.None? && (platform == NonUnix || status.signal.None?) ==> r == 1
  {
    match platform
    case Unix =>
      if status.code.Some? then status.code.value
      else if status.signal.Some? then status.signal.value
      else 1
    case NonUnix =>
      if status.code.Some? then status.code.value else 1
  }

  /** A build that failed never makes the tool exit with the success code 0, on either platform. */
  lemma FailureNeverExitsZero(status: ExitStatus, platform: Platform)
    requires WellFormed(status) && !Success(status)
    ensures ExitCodeFor(status, platform) != 0
  {
  }

  /** The signal is only consulted on Unix: elsewhere a status without code leaves with 1. */
  lemma SignalOnlyOnUnix(code: Option<int>, signal: int)
    ensures code.None? ==> ExitCodeFor(ExitStatus(code, Some(signal)), NonUnix) == 1
    ensures code.None? ==> ExitCodeFor(ExitStatus(code, Some(signal)), Unix) == signal
    ensures code.Some? ==> ExitCodeFor(ExitStatus(code, Some(signal)), NonUnix)
                           == ExitCodeFor(ExitStatus(code, Some(signal)), Unix)
  {
  }
}
