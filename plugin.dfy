/** What a monitoring plugin reports: its exit status, as both check_netstat/check_netstat.py
    and check_disk.py number them, or the exception that ended it first. */
module Plugin {
  import opened Wrappers

  const OK: int := 0
  const WARNING: int := 1
  const CRITICAL: int := 2
  const UNKNOWN: int := 3

  /** How a run of a plugin ends: `exit(code)`, or an uncaught exception. */
  datatype Outcome = Exit(code: int) | Crash(error: Error)
}
