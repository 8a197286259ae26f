/** What the unseen `execute` helper hands back, and the helper itself as an
    oracle. Running the Docker CLI is outside the model: `execute` is a
    parameter, a total function from a command line to its outcome. */
module Process {

  /** The three fields of a process result that the manager reads or writes.
      How `succeeded` relates to `returnCode` is decided inside `execute`, so
      the two are independent here. */
  datatype Outcome = Outcome(out: string, returnCode: int, succeeded: bool)

  /** `execute(command)`: the host runs the command line and reports back. */
  type Executor = string -> Outcome

  /** The mutable result object that `execute` returns and `run` edits in
      place. */
  class ProcessResult {
    var out: string
    var returnCode: int
    var succeeded: bool

    constructor (o: Outcome)
      ensures Value() == o
    {
      out, returnCode, succeeded := o.out, o.returnCode, o.succeeded;
    }

    /** The object's current fields as a value. */
    function Value(): Outcome
      reads this
    {
      Outcome(out, returnCode, succeeded)
    }
  }
}
