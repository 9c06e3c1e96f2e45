/** The result record every command returns (src/shell/mod.rs). */
module Shell {
  import opened Wrappers
  import opened Paths

  /** A new working directory, text for standard output and text for standard error,
      each optional. */
  datatype CommandOutput = CommandOutput(
    updatedDir: Option<Path>,
    stdOutput: Option<string>,
    stdError: Option<string>)

  /** `CommandOutput::empty`: nothing to report. */
  function Empty(): (r: CommandOutput)
    ensures r.updatedDir.None? && r.stdOutput.None? && r.stdError.None?
  {
    CommandOutput(None, None, None)
  }

  /** `CommandOutput::success`: only standard output is set. */
  function Success(msg: string): (r: CommandOutput)
    ensures r.stdOutput == Some(msg)
    ensures r.updatedDir.None? && r.stdError.None?
  {
    CommandOutput(None, Some(msg), None)
  }

  /** `CommandOutput::failure`: only standard error is set. */
  function Failure(msg: string): (r: CommandOutput)
    ensures r.stdError == Some(msg)
    ensures r.updatedDir.None? && r.stdOutput.None?
  {
    CommandOutput(None, None, Some(msg))
  }

  /** `CommandOutput::path_update`: only the new directory is set. */
  function PathUpdate(p: Path): (r: CommandOutput)
    ensures r.updatedDir == Some(p)
    ensures r.stdOutput.None? && r.stdError.None?
  {
    CommandOutput(Some(p), None, None)
  }

  /** The four constructors never produce the same record, and each one's argument
      can be read back from its result. */
  lemma ConstructorsDistinct(a: string, b: string, p: Path)
    ensures Success(a) != Failure(b) && Success(a) != Empty() && Failure(b) != Empty()
    ensures PathUpdate(p) != Success(a) && PathUpdate(p) != Failure(b) && PathUpdate(p) != Empty()
    ensures Success(a).stdOutput.value == a && Failure(b).stdError.value == b
    ensures PathUpdate(p).updatedDir.value == p
  {
  }
}
