/** What a child process reports back to the callback of `exec`. */
module Process {
  import opened Wrappers

  /** The `(error, stdout, stderr)` triple handed to an `exec` callback. */
  datatype ExecReport = ExecReport(error: Option<string>, stdout: string, stderr: string)

  /** What one launch did: the command it ran and how its promise settled. */
  datatype Launch = Launch(command: string, outcome: Result<string, string>)
}
