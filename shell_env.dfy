/**
 `load_shell_environment`: run the user's shell with `env -0` and read its output into a
 map of environment variables. The shell run itself is outside the model; its exit status
 and its already decoded standard output are the inputs.
 */
module ShellEnv {
  import opened Wrappers
  import opened EnvFormat

  /** How the shell process ended, as `std::process::ExitStatus` reports it on Unix. */
  datatype ExitStatus = Exited(code: int) | Signaled(signal: nat)
  {
    /** `ExitStatus::success`: the process exited normally with code 0. */
    predicate Success(): (ok: bool)
      ensures ok <==> this == Exited(0)
    {
      Exited? && code == 0
    }
  }

  /** The error `load_shell_environment` returns when the shell did not succeed. */
  datatype LoadError = ShellExitedWithError(status: ExitStatus)

  /** The parse loop: walk `stdout` one NUL-terminated piece at a time, as the
      `split_terminator('\0')` iterator does, and insert the pair of every piece that
      contains `=` into the map. */
  method ParseEnvironment(stdout: string) returns (parsedEnv: Env)
    ensures parsedEnv == ParsedEnv(stdout)
    ensures WellFormedEnv(parsedEnv)
  {
    parsedEnv := map[];
    ghost var lines: seq<string> := [];
    var start := 0;
    while start < |stdout|
      invariant start <= |stdout|
      invariant SplitTerminator(stdout) == lines + SplitTerminator(stdout[start..])
      invariant parsedEnv == Build(lines)
      decreases |stdout| - start
    {
      var rest := stdout[start..];
      var line: string;
      var next: nat;
      var terminator := Find(rest, NUL);
      if terminator.Some? {
        line, next := rest[..terminator.value], start + terminator.value + 1;
      } else {
        line, next := rest, |stdout|;
      }
      NextPiece(stdout, start, lines, line, next);
      BuildSnoc(lines, line);
      var separator := Find(line, EQ);
      if separator.Some? {
        var key := line[..separator.value];
        var value := line[separator.value + 1..];
        assert ParseEntry(line) == Some((key, value));
        parsedEnv := parsedEnv[key := value];
      } else {
        assert ParseEntry(line) == None;
      }
      assert parsedEnv == Build(lines + [line]);
      lines := lines + [line];
      start := next;
    }
    SplitTerminatorEmpty();
    assert lines + [] == lines;
  }

  /** The whole function once the shell has run: a shell that did not exit successfully is
      an error and no map; otherwise its output is parsed. */
  method LoadShellEnvironment(status: ExitStatus, stdout: string)
    returns (r: Result<Env, LoadError>)
    ensures r.Failure? <==> !status.Success()
    ensures r.Failure? ==> r.error == ShellExitedWithError(status)
    ensures r.Success? ==> r.value == ParsedEnv(stdout) && WellFormedEnv(r.value)
  {
    if !status.Success() {
      return Failure(ShellExitedWithError(status));
    }
    var parsedEnv := ParseEnvironment(stdout);
    return Success(parsedEnv);
  }
}
