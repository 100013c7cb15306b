/** What the step recorder receives from the operating system and from the
    libraries it calls, stated as plain values: the entries a directory walk
    yields, the outcome of running a process, and the foreign functions
    (hashing, path validation, UTF-8 decoding) as function-valued parameters. */
module Host {
  import opened Wrappers
  import opened Decimal

  newtype byte = x: int | 0 <= x < 256

  type Bytes = seq<byte>

  /** The crate's error: an I/O error with its message, or a path that is not
      a valid target path. The link metadata builder's own refusal is not
      modelled here; it is whatever error the builder parameter returns. */
  datatype Error =
    | Io(message: string)
    | InvalidPath(path: string)

  /** The digests of one file, by algorithm name. */
  type TargetDescription = map<string, string>

  /** What `metadata` says about a walked path. */
  datatype Metadata = IsFile | NotFile | MetadataError(error: Error)

  /** What opening and hashing a file yields. */
  datatype FileContent =
    | Content(bytes: Bytes)
    | OpenError(error: Error)
    | ReadError(error: Error)

  /** One item of a directory walk: a walk error, or a path together with
      what its metadata and its content turn out to be. */
  datatype WalkEntry =
    | WalkError(detail: string)
    | Entry(path: string, metadata: Metadata, content: FileContent)

  /** A snapshot of the file system as seen by directory walks: for each root
      that exists, the entries a walk from it yields, in walk order. */
  datatype FileSystem = FileSystem(walks: map<string, seq<WalkEntry>>)

  /** Walking a root that does not exist yields a single walk error. */
  function Walk(fs: FileSystem, root: string): (es: seq<WalkEntry>)
    ensures root !in fs.walks ==> es == [WalkError(root)]
  {
    if root in fs.walks then fs.walks[root] else [WalkError(root)]
  }

  /** The captured result of a process that ran: its two output streams and
      its exit code, absent when a signal ended it. */
  datatype Output = Output(stdout: Bytes, stderr: Bytes, code: Option<i32>)

  /** Starting a process either fails, or the process runs to its end and
      leaves the file system in some state. */
  datatype Execution =
    | LaunchFailed(error: Error)
    | Exited(output: Output, after: FileSystem)

  datatype Utf8Result = Decoded(text: string) | Utf8Invalid(detail: string)

  /** Whether echoing the captured streams to the recorder's own standard
      output and standard error failed. */
  datatype Echo = Echo(stdoutWrite: Option<Error>, stderrWrite: Option<Error>)

  /** The collaborators the recorder calls and cannot see into. */
  datatype Env = Env(
    hash: Bytes -> TargetDescription,
    validPath: string -> bool,
    exec: (FileSystem, string, seq<string>) -> Execution,
    echo: Echo,
    utf8: Bytes -> Utf8Result)
}
