/** `CmdAgent.execute_command`: how the outcome of running a command in a
    shell becomes the `(success, output)` pair the agent records.

    The shell itself (`subprocess.run(command, shell=True, ...)` in the
    current directory) is not modelled: its outcome is an input, either the
    process exited with a return code and captured streams, or it could not
    be run at all and the exception's message is all there is. */
module Executor {
  import opened Wrappers
  import opened Text

  /** What running one command produced. */
  datatype Outcome =
    | Exited(code: int, stdout: string, stderr: string)
    | LaunchFailed(reason: string)

  /** The `(success, output)` tuple of the source. */
  datatype ExecResult = ExecResult(success: bool, output: string)

  const CodePrefix: string := "Error (code "
  const CodeSuffix: string := "):\n"
  const LaunchPrefix: string := "Failed to execute command: "

  /** `CmdAgent.execute_command`, given the outcome of the shell. It is
      total: every outcome, including a failed launch, becomes a result. */
  function Execute(o: Outcome): (r: ExecResult)
    ensures r.success <==> o.Exited? && o.code == 0
  {
    match o
    case Exited(code, stdout, stderr) =>
      if code == 0 then ExecResult(true, stdout)
      else ExecResult(false, CodePrefix + IntDecimal(code) + CodeSuffix + stderr)
    case LaunchFailed(reason) => ExecResult(false, LaunchPrefix + reason)
  }

  /** The part of an outcome the result keeps: the return code with the
      stream that matters for it (standard output on success, standard error
      otherwise), or the reason the command could not be run. */
  datatype Observed = Ran(code: int, text: string) | NotRun(reason: string)

  function Observe(o: Outcome): Observed {
    match o
    case Exited(code, stdout, stderr) => Ran(code, if code == 0 then stdout else stderr)
    case LaunchFailed(reason) => NotRun(reason)
  }

  /** The first `)` at or after `i`, or `|s|` when there is none. */
  function FirstClose(s: string, i: nat): (j: nat)
    requires i <= |s|
    ensures i <= j <= |s|
    ensures forall k :: i <= k < j ==> s[k] != ')'
    ensures j < |s| ==> s[j] == ')'
    decreases |s| - i
  {
    if i == |s| || s[i] == ')' then i else FirstClose(s, i + 1)
  }

  lemma {:induction false} FirstCloseUnique(s: string, i: nat, j: nat)
    requires i <= j < |s| && s[j] == ')'
    requires forall k :: i <= k < j ==> s[k] != ')'
    ensures FirstClose(s, i) == j
    decreases j - i
  {
    if i < j {
      FirstCloseUnique(s, i + 1, j);
    }
  }

  /** Reads a result back into what it says about the outcome, or `None`
      when no outcome produces it. */
  function Recover(r: ExecResult): Option<Observed> {
    if r.success then Some(Ran(0, r.output))
    else if SliceIs(r.output, 0, LaunchPrefix) then Some(NotRun(r.output[|LaunchPrefix|..]))
    else if SliceIs(r.output, 0, CodePrefix) then
      var rest := r.output[|CodePrefix|..];
      var j := FirstClose(rest, 0);
      if SliceIs(rest, j, CodeSuffix) then
        match ParseDecimal(rest[..j])
        case Some(code) => if code != 0 then Some(Ran(code, rest[j + |CodeSuffix|..])) else None
        case None => None
      else None
    else None
  }

  /** In a failure report, the return code is followed by the first `)`. */
  lemma CodeReportClose(code: int, stderr: string)
    ensures FirstClose(IntDecimal(code) + CodeSuffix + stderr, 0) == |IntDecimal(code)|
  {
    var d := IntDecimal(code);
    var rest := d + CodeSuffix + stderr;
    IntDecimalChars(code);
    forall k | 0 <= k < |d|
      ensures rest[k] != ')'
    {
      assert rest[k] == d[k];
    }
    FirstCloseUnique(rest, 0, |d|);
  }

  /** A failure report reads back as its return code and standard error. */
  lemma RecoverCodeReport(code: int, stderr: string)
    requires code != 0
    ensures Recover(Execute(Exited(code, "", stderr))) == Some(Ran(code, stderr))
  {
    var out := CodePrefix + IntDecimal(code) + CodeSuffix + stderr;
    var d := IntDecimal(code);
    var rest := out[|CodePrefix|..];
    assert rest == d + CodeSuffix + stderr;
    assert out[0] != LaunchPrefix[0];
    assert !SliceIs(out, 0, LaunchPrefix);
    assert out[..|CodePrefix|] == CodePrefix;
    CodeReportClose(code, stderr);
    assert rest[..|d|] == d;
    assert rest[|d|..|d| + |CodeSuffix|] == CodeSuffix;
    assert rest[|d| + |CodeSuffix|..] == stderr;
    IntDecimalRoundTrip(code);
  }

  /** A failed launch reads back as its reason. */
  lemma RecoverLaunchReport(reason: string)
    ensures Recover(Execute(LaunchFailed(reason))) == Some(NotRun(reason))
  {
    var out := LaunchPrefix + reason;
    assert out[..|LaunchPrefix|] == LaunchPrefix;
    assert out[|LaunchPrefix|..] == reason;
  }

  /** The result keeps exactly what `Observe` keeps, and nothing is lost
      in reading it back. */
  lemma ExecuteRecover(o: Outcome)
    ensures Recover(Execute(o)) == Some(Observe(o))
  {
    match o
    case Exited(code, stdout, stderr) =>
      if code != 0 {
        RecoverCodeReport(code, stderr);
        assert Execute(o) == Execute(Exited(code, "", stderr));
      }
    case LaunchFailed(reason) =>
      RecoverLaunchReport(reason);
  }

  /** Two outcomes give the same result exactly when they agree on what the
      result keeps: the output never confuses a return code with a launch
      failure, or one return code with another. */
  lemma ExecuteSameIff(o1: Outcome, o2: Outcome)
    ensures Execute(o1) == Execute(o2) <==> Observe(o1) == Observe(o2)
  {
    ExecuteRecover(o1);
    ExecuteRecover(o2);
  }
}
