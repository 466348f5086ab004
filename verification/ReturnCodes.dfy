/** The exit code of the module compiler and how reports accumulate in it. */
module ReturnCodes {

  datatype ExitCode = Succeed | Fail | FailRetryable | Error | Warning

  function After(current: ExitCode, rc: ExitCode): (r: ExitCode) {
    match current
    case Fail => Fail
    case Error => if rc == Fail then rc else Error
    case Warning => if rc == Fail || rc == Error then rc else Warning
    case Succeed => rc
    case FailRetryable => rc
  }

  function AfterAll(current: ExitCode, rcs: seq<ExitCode>): (r: ExitCode) {
    if rcs == [] then current else After(AfterAll(current, rcs[..|rcs| - 1]), rcs[|rcs| - 1])
  }

  /** Whatever order the reports come in, the exit code is the most severe one. Codes that are neither of the
      three do not count: without those the exit code is just the last one set. */
  lemma {:induction false} ExitCodeIs(current: ExitCode, rcs: seq<ExitCode>)
    ensures var all := [current] + rcs;
            AfterAll(current, rcs) ==
              if Fail in all then Fail else if Error in all then Error else if Warning in all then Warning
              else all[|all| - 1]
  {
    if rcs != [] {
      var rest, rc := rcs[..|rcs| - 1], rcs[|rcs| - 1];
      ExitCodeIs(current, rest);
      assert [current] + rcs == [current] + rest + [rc];
    }
  }

  /** The program that reports are made to. */
  class CompileUserModule {
    var returnCode: ExitCode
    var diags: seq<int>

    constructor ()
      ensures returnCode == Succeed && diags == []
    {
      returnCode, diags := Succeed, [];
    }

    method SetReturnCode(rc: ExitCode)
      modifies this`returnCode
      ensures returnCode == After(old(returnCode), rc)
    {
      match returnCode
      case Fail =>
      case Error =>
        if rc == Fail {
          returnCode := rc;
        }
      case Warning =>
        if rc == Fail || rc == Error {
          returnCode := rc;
        }
      case _ =>
        returnCode := rc;
    }

    /** A report of failure with its number. */
    method ReportFailure(sqlcode: int)
      modifies this
      ensures returnCode == Fail && diags == old(diags) + [sqlcode]
    {
      SetReturnCode(Fail);
      diags := diags + [sqlcode];
    }
  }
}
