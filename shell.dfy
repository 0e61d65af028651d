/**
 * `run_shell`: the denylist, then the operator's yes/no, then the command.
 * The operator's reply and the finished child process are inputs (oracles);
 * the outcome records, besides the returned text or raised fault, whether
 * the operator was asked and whether the command was run.
 */
module Shell {
  import opened Results
  import opened PyText
  import opened Shlex
  import opened Policy

  /** What `subprocess.run(..., capture_output=True, text=True)` hands back. */
  datatype Completed = Completed(stdout: string, stderr: string, returncode: int)

  /** What the tool call gives the agent: a string, or the exception it raised. */
  datatype ToolResult = Returned(text: string) | Raised(fault: Fault)

  datatype Run = Run(result: ToolResult, prompted: bool, executed: bool)

  function BlockedNotice(cmd: string): string {
    "Error: Command '" + cmd + "' is blocked for safety."
  }

  const RejectedNotice: string := "Command rejected by user."
  const NoOutput: string := "(no output)"

  /** The approval gate: the reply, stripped and lower-cased, must be exactly "y". */
  predicate Approved(reply: string) {
    Lower(Strip(reply)) == "y"
  }

  /** `output.strip() or "(no output)"` with output = stdout + stderr. */
  function FormatOutput(p: Completed): (r: string)
    ensures r != []
    ensures AllSpace(p.stdout + p.stderr) ==> r == NoOutput
    ensures !AllSpace(p.stdout + p.stderr) ==>
              (Trimmed(r) &&
               exists i, j :: 0 <= i <= j <= |p.stdout + p.stderr| && r == (p.stdout + p.stderr)[i..j] &&
                 AllSpace((p.stdout + p.stderr)[..i]) && AllSpace((p.stdout + p.stderr)[j..]))
  {
    var out := Strip(p.stdout + p.stderr);
    StripEmptyIff(p.stdout + p.stderr);
    StripTrims(p.stdout + p.stderr);
    if out == [] then NoOutput else out
  }

  /** `run_shell(cmd)`; each stage that returns ends the call. */
  function RunShell(cmd: string, reply: string, proc: Completed): (r: Run)
    ensures r.prompted <==> IsBlocked(cmd) == Ok(false)
    ensures r.executed <==> IsBlocked(cmd) == Ok(false) && Approved(reply)
    ensures IsBlocked(cmd) == Ok(true) ==> r.result == Returned(BlockedNotice(cmd))
    ensures IsBlocked(cmd).Err? ==> r.result == Raised(IsBlocked(cmd).error)
    ensures r.prompted && !r.executed ==> r.result == Returned(RejectedNotice)
    ensures r.executed ==> r.result == Returned(FormatOutput(proc))
    ensures r.result.Returned? ==> r.result.text != []
  {
    match IsBlocked(cmd)
    case Err(f) => Run(Raised(f), false, false)
    case Ok(blocked) =>
      if blocked then Run(Returned(BlockedNotice(cmd)), false, false)
      else if !Approved(reply) then Run(Returned(RejectedNotice), true, false)
      else Run(Returned(FormatOutput(proc)), true, true)
  }

  // ---------------------------------------------------------------------
  // The approval gate

  /** Approval happens exactly for a lone `y` or `Y` between whitespace. */
  lemma ApprovedIff(reply: string)
    ensures Approved(reply) <==> Strip(reply) == "y" || Strip(reply) == "Y"
  {
    var t := Strip(reply);
    if Approved(reply) {
      assert |t| == 1;
      LowerCharInverse(t[0], 'y');
      assert t == [t[0]];
    }
    if t == "Y" {
      assert Lower(t) == [LowerChar('Y')];
    }
  }

  /** Any amount of surrounding whitespace around `y` or `Y` still approves. */
  lemma ApprovedWithWhitespace(a: string, c: char, b: string)
    requires AllSpace(a) && AllSpace(b) && (c == 'y' || c == 'Y')
    ensures Approved(a + [c] + b)
  {
    StripExact(a, [c], b);
    ApprovedIff(a + [c] + b);
  }

  /** Fail-closed: the empty reply and anything longer than one letter reject. */
  lemma RejectedReplies(reply: string)
    requires Strip(reply) == [] || |Strip(reply)| > 1 || Strip(reply) == "n"
    ensures !Approved(reply)
  {
    ApprovedIff(reply);
  }

  // ---------------------------------------------------------------------
  // Ordering of the stages, and which oracle each stage consults

  /** A blocked or unsplittable command never reaches the operator or the shell:
      the outcome is the same whatever the operator would answer and the command print. */
  lemma BlockedConsultsNoOracle(cmd: string, reply1: string, proc1: Completed, reply2: string, proc2: Completed)
    requires IsBlocked(cmd) != Ok(false)
    ensures RunShell(cmd, reply1, proc1) == RunShell(cmd, reply2, proc2)
    ensures !RunShell(cmd, reply1, proc1).prompted && !RunShell(cmd, reply1, proc1).executed
  {
  }

  /** A rejected command never reaches the shell. */
  lemma RejectedIgnoresProcess(cmd: string, reply: string, proc1: Completed, proc2: Completed)
    requires IsBlocked(cmd) == Ok(false) && !Approved(reply)
    ensures RunShell(cmd, reply, proc1) == RunShell(cmd, reply, proc2) == Run(Returned(RejectedNotice), true, false)
  {
  }

  /** The exit status of an executed command is not part of the result. */
  lemma ExitStatusIgnored(cmd: string, reply: string, out: string, err: string, code1: int, code2: int)
    ensures RunShell(cmd, reply, Completed(out, err, code1)).result == RunShell(cmd, reply, Completed(out, err, code2)).result
  {
  }

  /** Executed output is the combined streams with surrounding whitespace removed. */
  lemma ExecutedOutput(cmd: string, reply: string, a: string, m: string, b: string, out: string, err: string, code: int)
    requires IsBlocked(cmd) == Ok(false) && Approved(reply)
    requires out + err == a + m + b
    requires AllSpace(a) && AllSpace(b) && Trimmed(m) && m != []
    ensures RunShell(cmd, reply, Completed(out, err, code)) == Run(Returned(m), true, true)
  {
    StripExact(a, m, b);
  }

  /** A command that prints only whitespace reports "(no output)". */
  lemma SilentCommand(cmd: string, reply: string, proc: Completed)
    requires IsBlocked(cmd) == Ok(false) && Approved(reply)
    requires AllSpace(proc.stdout + proc.stderr)
    ensures RunShell(cmd, reply, proc) == Run(Returned(NoOutput), true, true)
  {
  }

  /** `rm -rf /` is refused before anyone is asked, even when the operator would say yes. */
  lemma RmRfNeverRuns(cmd: string, reply: string, proc: Completed)
    requires cmd == "rm -rf /"
    ensures RunShell(cmd, reply, proc) == Run(Returned(BlockedNotice(cmd)), false, false)
  {
    RmRfBlocked(cmd);
  }

  lemma EchoNotBlocked(cmd: string)
    requires cmd == "echo hi"
    ensures IsBlocked(cmd) == Ok(false)
  {
    SplitWithoutQuoting(" hi");
    BlockedPlainWord([], "echo", " hi");
    assert [] + "echo" + " hi" == cmd;
  }

  lemma PlainYApproves(reply: string)
    requires reply == "y"
    ensures Approved(reply)
  {
    ApprovedWithWhitespace([], 'y', []);
    assert [] + ['y'] + [] == reply;
  }

  lemma HiNewlineFormatsAsHi(proc: Completed)
    requires proc == Completed("hi\n", "", 0)
    ensures FormatOutput(proc) == "hi"
  {
    assert proc.stdout + proc.stderr == [] + "hi" + "\n";
    StripExact([], "hi", "\n");
  }

  /** `echo hi` approved with `y` and printing `hi` and a newline returns `hi`. */
  lemma EchoApproved(cmd: string, reply: string, proc: Completed)
    requires cmd == "echo hi" && reply == "y" && proc == Completed("hi\n", "", 0)
    ensures RunShell(cmd, reply, proc) == Run(Returned("hi"), true, true)
  {
    EchoNotBlocked(cmd);
    PlainYApproves(reply);
    HiNewlineFormatsAsHi(proc);
  }
}
