/** Running the step's command: the first argument is the program, the rest
    are passed to it verbatim. The captured streams are echoed, decoded as
    UTF-8 and returned with the exit status as a three-entry map. */
module Command {
  import opened Wrappers
  import opened Decimal
  import opened Host
  import Byproducts

  const SIGNAL_STATUS: string := "Process terminated by signal"

  /** The exit code in decimal, or the fixed text for a process ended by a
      signal; the two can never be confused. */
  function Status(code: Option<i32>): (s: string)
    ensures code.Some? ==> CanonicalDecimal(s) && (s[0] == '-' <==> code.value < 0)
    ensures code.Some? ==> ParseInt(s) == Some(code.value as int)
    ensures code.Some? ==> s != SIGNAL_STATUS
    ensures code.None? ==> s == SIGNAL_STATUS
  {
    match code
    case Some(c) => ParseIntOfDecimal(c); IntToDecimal(c)
    case None => SIGNAL_STATUS
  }

  /** Distinct statuses give distinct texts. */
  lemma StatusInjective(a: Option<i32>, b: Option<i32>)
    ensures Status(a) == Status(b) ==> a == b
  {
  }

  /** Starting the program `args[0]` with the arguments `args[1..]`. */
  function Launch(args: seq<string>, fs: FileSystem, env: Env): Execution
    requires |args| > 0
  {
    env.exec(fs, args[0], args[1..])
  }

  /** The file system once the command is over. */
  function FsAfter(args: seq<string>, fs: FileSystem, env: Env): (after: FileSystem)
    requires |args| > 0
    ensures Launch(args, fs, env).LaunchFailed? ==> after == fs
    ensures Launch(args, fs, env).Exited? ==> after == Launch(args, fs, env).after
  {
    match Launch(args, fs, env)
    case LaunchFailed(_) => fs
    case Exited(_, after) => after
  }

  predicate EchoSucceeds(echo: Echo) {
    echo.stdoutWrite.None? && echo.stderrWrite.None?
  }

  /** What one run of the command yields. A launch failure comes first, then
      a failed echo of standard output, then of standard error, then invalid
      UTF-8 on standard output, then on standard error. */
  function CommandOutcome(args: seq<string>, fs: FileSystem, env: Env): (r: Result<map<string, string>, Error>)
    requires |args| > 0
    ensures Launch(args, fs, env).LaunchFailed? ==> r == Failure(Launch(args, fs, env).error)
    ensures Launch(args, fs, env).Exited? && env.echo.stdoutWrite.Some? ==>
      r == Failure(env.echo.stdoutWrite.value)
    ensures Launch(args, fs, env).Exited? && env.echo.stdoutWrite.None? && env.echo.stderrWrite.Some? ==>
      r == Failure(env.echo.stderrWrite.value)
    ensures Launch(args, fs, env).Exited? && EchoSucceeds(env.echo) ==>
      var out := Launch(args, fs, env).output;
      (env.utf8(out.stdout).Utf8Invalid? ==> r == Failure(Io("Utf8Error: " + env.utf8(out.stdout).detail))) &&
      (env.utf8(out.stdout).Decoded? && env.utf8(out.stderr).Utf8Invalid? ==>
        r == Failure(Io("Utf8Error: " + env.utf8(out.stderr).detail)))
    ensures r.Success? <==>
      Launch(args, fs, env).Exited? && EchoSucceeds(env.echo) &&
      env.utf8(Launch(args, fs, env).output.stdout).Decoded? &&
      env.utf8(Launch(args, fs, env).output.stderr).Decoded?
    ensures r.Success? ==>
      var out := Launch(args, fs, env).output;
      r.value.Keys == {Byproducts.STDOUT, Byproducts.STDERR, Byproducts.RETURN_VALUE} &&
      r.value[Byproducts.STDOUT] == env.utf8(out.stdout).text &&
      r.value[Byproducts.STDERR] == env.utf8(out.stderr).text &&
      r.value[Byproducts.RETURN_VALUE] == Status(out.code)
  {
    match Launch(args, fs, env)
    case LaunchFailed(err) => Failure(err)
    case Exited(out, _) =>
      if env.echo.stdoutWrite.Some? then Failure(env.echo.stdoutWrite.value)
      else if env.echo.stderrWrite.Some? then Failure(env.echo.stderrWrite.value)
      else match env.utf8(out.stdout)
        case Utf8Invalid(detail) => Failure(Io("Utf8Error: " + detail))
        case Decoded(stdout) =>
          match env.utf8(out.stderr)
          case Utf8Invalid(detail) => Failure(Io("Utf8Error: " + detail))
          case Decoded(stderr) =>
            Success(map[Byproducts.STDOUT := stdout, Byproducts.STDERR := stderr,
                        Byproducts.RETURN_VALUE := Status(out.code)])
  }

  /** Runs the command and builds its byproducts map entry by entry; `after`
      is the file system the command leaves behind. */
  method RunCommand(args: seq<string>, fs: FileSystem, env: Env)
    returns (r: Result<map<string, string>, Error>, after: FileSystem)
    requires |args| > 0
    ensures r == CommandOutcome(args, fs, env)
    ensures after == FsAfter(args, fs, env)
  {
    var execution := env.exec(fs, args[0], args[1..]);
    if execution.LaunchFailed? {
      return Failure(execution.error), fs;
    }
    var output := execution.output;
    after := execution.after;

    if env.echo.stdoutWrite.Some? {
      return Failure(env.echo.stdoutWrite.value), after;
    }
    if env.echo.stderrWrite.Some? {
      return Failure(env.echo.stderrWrite.value), after;
    }

    var byproducts: map<string, string> := map[];
    var stdout: string;
    match env.utf8(output.stdout)
    case Utf8Invalid(detail) =>
      return Failure(Io("Utf8Error: " + detail)), after;
    case Decoded(text) =>
      stdout := text;
    var stderr: string;
    match env.utf8(output.stderr)
    case Utf8Invalid(detail) =>
      return Failure(Io("Utf8Error: " + detail)), after;
    case Decoded(text) =>
      stderr := text;
    var status := Status(output.code);

    byproducts := byproducts[Byproducts.STDOUT := stdout];
    byproducts := byproducts[Byproducts.STDERR := stderr];
    byproducts := byproducts[Byproducts.RETURN_VALUE := status];
    return Success(byproducts), after;
  }
}
