/** Recording artifacts: every regular file under a list of roots is hashed
    and entered into one map, keyed by its path with every "./" removed.
    The whole call fails on the first entry that cannot be walked, stat'ed,
    opened, hashed or turned into a target path. */
module Artifacts {
  import opened Wrappers
  import opened Host

  /** Target path ↦ digests of that file. */
  type Inventory = map<string, TargetDescription>

  // ---------------------------------------------------------------------------
  // Path normalisation: `replace("./", "")`

  /** Removes, left to right, every non-overlapping occurrence of "./". */
  function Normalize(path: string): (r: string)
    ensures |r| <= |path|
    decreases |path|
  {
    if |path| < 2 then path
    else if path[0] == '.' && path[1] == '/' then Normalize(path[2..])
    else [path[0]] + Normalize(path[1..])
  }

  predicate HasDotSlash(s: string) {
    exists i :: 0 <= i < |s| - 1 && s[i] == '.' && s[i + 1] == '/'
  }

  /** Normalisation changes a path exactly when the path holds a "./". */
  lemma {:induction false} NormalizeFixedPoint(s: string)
    ensures Normalize(s) == s <==> !HasDotSlash(s)
    decreases |s|
  {
    if |s| < 2 {
    } else if s[0] == '.' && s[1] == '/' {
      assert |Normalize(s[2..])| <= |s| - 2;
    } else {
      var t := s[1..];
      NormalizeFixedPoint(t);
      assert Normalize(s) == [s[0]] + Normalize(t);
      if HasDotSlash(s) {
        var i :| 0 <= i < |s| - 1 && s[i] == '.' && s[i + 1] == '/';
        assert i > 0;
        assert t[i - 1] == '.' && t[i] == '/';
      }
      if HasDotSlash(t) {
        var i :| 0 <= i < |t| - 1 && t[i] == '.' && t[i + 1] == '/';
        assert s[i + 1] == '.' && s[i + 2] == '/';
      }
      if Normalize(s) == s {
        assert Normalize(t) == s[1..];
      }
    }
  }

  /** A leading "./" is always stripped. */
  lemma NormalizeStripsLeadingDotSlash(s: string)
    ensures Normalize("./" + s) == Normalize(s)
  {
    assert ("./" + s)[2..] == s;
  }

  /** Normalisation works piecewise when no "./" straddles the cut, that is
      unless `a` ends in '.' and `b` starts with '/'. */
  lemma {:induction false} NormalizeAppend(a: string, b: string)
    requires !(|a| > 0 && a[|a| - 1] == '.' && |b| > 0 && b[0] == '/')
    ensures Normalize(a + b) == Normalize(a) + Normalize(b)
    decreases |a|
  {
    if |a| == 0 {
      assert a + b == b;
    } else if |a| == 1 {
      if |b| > 0 {
        assert (a + b)[1..] == b;
      }
    } else if a[0] == '.' && a[1] == '/' {
      assert (a + b)[2..] == a[2..] + b;
      NormalizeAppend(a[2..], b);
    } else {
      assert (a + b)[1..] == a[1..] + b;
      NormalizeAppend(a[1..], b);
    }
  }

  /** Every occurrence is removed, not only a leading one: a "./" inside a
      path goes too. */
  lemma NormalizeRemovesInnerOccurrence()
    ensures Normalize("./a/./b") == "a/b"
  {
    var tail := "a/" + "./b";
    calc {
      Normalize("./a/./b");
    == { assert "./a/./b" == "./" + tail; NormalizeStripsLeadingDotSlash(tail); }
      Normalize(tail);
    == { NormalizeAppend("a/", "./b"); }
      Normalize("a/") + Normalize("./b");
    == { assert "./b" == "./" + "b"; NormalizeStripsLeadingDotSlash("b"); }
      Normalize("a/") + Normalize("b");
    == { assert Normalize("a/") == "a/"; assert Normalize("b") == "b"; }
      "a/b";
    }
  }

  /** So two different files can end up under one key. */
  lemma NormalizeMergesDistinctPaths()
    ensures Normalize("foo./bar") == Normalize("foobar") == "foobar"
  {
  }

  /** And the result can itself hold a "./": normalising is not idempotent. */
  lemma NormalizeNotIdempotent()
    ensures Normalize("..//") == "./"
    ensures Normalize(Normalize("..//")) == ""
  {
  }

  // ---------------------------------------------------------------------------
  // The specification of record_artifacts

  /** What one walk entry contributes: an error, nothing, or one key and its digests. */
  function EntryOutcome(e: WalkEntry, env: Env): Result<Option<(string, TargetDescription)>, Error> {
    match e
    case WalkError(detail) => Failure(Io("Walkdir Error: " + detail))
    case Entry(path, md, content) =>
      match md
      case MetadataError(err) => Failure(err)
      case NotFile => Success(None)
      case IsFile =>
        match content
        case OpenError(err) => Failure(err)
        case ReadError(err) => Failure(err)
        case Content(bytes) =>
          var digests := env.hash(bytes);
          var key := Normalize(path);
          if env.validPath(key) then Success(Some((key, digests))) else Failure(InvalidPath(key))
  }

  function Step(acc: Inventory, e: WalkEntry, env: Env): Result<Inventory, Error> {
    match EntryOutcome(e, env)
    case Failure(err) => Failure(err)
    case Success(None) => Success(acc)
    case Success(Some(kd)) => Success(acc[kd.0 := kd.1])
  }

  /** Processes the entries of one walk in order, stopping at the first failure. */
  function RecordEntries(es: seq<WalkEntry>, acc: Inventory, env: Env): Result<Inventory, Error>
    decreases |es|
  {
    if es == [] then Success(acc)
    else match Step(acc, es[0], env)
      case Failure(err) => Failure(err)
      case Success(next) => RecordEntries(es[1..], next, env)
  }

  /** Processes the walks of all roots in order, stopping at the first failure. */
  function RecordRoots(roots: seq<seq<WalkEntry>>, acc: Inventory, env: Env): Result<Inventory, Error>
    decreases |roots|
  {
    if roots == [] then Success(acc)
    else match RecordEntries(roots[0], acc, env)
      case Failure(err) => Failure(err)
      case Success(next) => RecordRoots(roots[1..], next, env)
  }

  function Walks(fs: FileSystem, paths: seq<string>): (roots: seq<seq<WalkEntry>>)
    ensures |roots| == |paths|
    ensures forall i :: 0 <= i < |paths| ==> roots[i] == Walk(fs, paths[i])
  {
    seq(|paths|, i requires 0 <= i < |paths| => Walk(fs, paths[i]))
  }

  /** All entries of all roots, root after root. */
  function Flatten(roots: seq<seq<WalkEntry>>): seq<WalkEntry> {
    if roots == [] then [] else roots[0] + Flatten(roots[1..])
  }

  function RecordSpec(fs: FileSystem, paths: seq<string>, env: Env): Result<Inventory, Error> {
    RecordRoots(Walks(fs, paths), map[], env)
  }

  /** All entries the walks of `paths` yield, root after root. */
  function AllEntries(fs: FileSystem, paths: seq<string>): seq<WalkEntry> {
    Flatten(Walks(fs, paths))
  }

  // ---------------------------------------------------------------------------
  // What the specification means

  /** An entry passes when it is not a walk error and its metadata can be
      read; a file must also open, hash and give a valid target path. Non-file
      entries are never opened. */
  predicate EntrySucceeds(e: WalkEntry, env: Env) {
    match e
    case WalkError(_) => false
    case Entry(path, md, content) =>
      md.NotFile? || (md.IsFile? && content.Content? && env.validPath(Normalize(path)))
  }

  /** The entries that add a key: those whose metadata says "file". */
  predicate RecordsFile(e: WalkEntry) {
    e.Entry? && e.metadata.IsFile?
  }

  lemma EntryOutcomeSucceeds(e: WalkEntry, env: Env)
    ensures EntryOutcome(e, env).Success? <==> EntrySucceeds(e, env)
    ensures EntryOutcome(e, env).Success? && RecordsFile(e) ==>
      EntryOutcome(e, env).value == Some((Normalize(e.path), env.hash(e.content.bytes)))
    ensures EntryOutcome(e, env).Success? && !RecordsFile(e) ==> EntryOutcome(e, env).value == None
  {
  }

  lemma {:induction false} RecordEntriesAppend(a: seq<WalkEntry>, b: seq<WalkEntry>, acc: Inventory, env: Env)
    ensures RecordEntries(a + b, acc, env) ==
      match RecordEntries(a, acc, env)
      case Failure(err) => Failure(err)
      case Success(m) => RecordEntries(b, m, env)
    decreases |a|
  {
    if a == [] {
      assert a + b == b;
    } else {
      assert (a + b)[0] == a[0] && (a + b)[1..] == a[1..] + b;
      match Step(acc, a[0], env)
      case Failure(_) =>
      case Success(next) => RecordEntriesAppend(a[1..], b, next, env);
    }
  }

  /** Recording root by root is recording the concatenated entries. */
  lemma {:induction false} RecordRootsFlatten(roots: seq<seq<WalkEntry>>, acc: Inventory, env: Env)
    ensures RecordRoots(roots, acc, env) == RecordEntries(Flatten(roots), acc, env)
    decreases |roots|
  {
    if roots != [] {
      RecordEntriesAppend(roots[0], Flatten(roots[1..]), acc, env);
      match RecordEntries(roots[0], acc, env)
      case Failure(_) =>
      case Success(next) => RecordRootsFlatten(roots[1..], next, env);
    }
  }

  lemma {:induction false} RecordEntriesSucceeds(es: seq<WalkEntry>, acc: Inventory, env: Env)
    ensures RecordEntries(es, acc, env).Success? <==> forall i :: 0 <= i < |es| ==> EntrySucceeds(es[i], env)
    decreases |es|
  {
    if es != [] {
      EntryOutcomeSucceeds(es[0], env);
      match Step(acc, es[0], env)
      case Failure(_) =>
      case Success(next) =>
        RecordEntriesSucceeds(es[1..], next, env);
        assert forall i :: 1 <= i < |es| ==> es[i] == es[1..][i - 1];
    }
  }

  lemma {:induction false} RecordEntriesFirstFailure(es: seq<WalkEntry>, acc: Inventory, env: Env)
    requires RecordEntries(es, acc, env).Failure?
    ensures exists i :: 0 <= i < |es| && EntryOutcome(es[i], env) == Failure(RecordEntries(es, acc, env).error)
                        && forall j :: 0 <= j < i ==> EntrySucceeds(es[j], env)
    decreases |es|
  {
    var err := RecordEntries(es, acc, env).error;
    EntryOutcomeSucceeds(es[0], env);
    match Step(acc, es[0], env)
    case Failure(_) =>
      assert EntryOutcome(es[0], env) == Failure(err);
    case Success(next) =>
      RecordEntriesFirstFailure(es[1..], next, env);
      var i :| 0 <= i < |es| - 1 && EntryOutcome(es[1..][i], env) == Failure(err)
               && forall j :: 0 <= j < i ==> EntrySucceeds(es[1..][j], env);
      assert forall j :: 1 <= j < i + 1 ==> es[j] == es[1..][j - 1];
      assert EntryOutcome(es[i + 1], env) == Failure(err);
  }

  lemma {:induction false} RecordEntriesKeys(es: seq<WalkEntry>, acc: Inventory, env: Env)
    requires RecordEntries(es, acc, env).Success?
    ensures forall k :: k in RecordEntries(es, acc, env).value <==>
      k in acc || exists i :: 0 <= i < |es| && RecordsFile(es[i]) && Normalize(es[i].path) == k
    decreases |es|
  {
    if es != [] {
      EntryOutcomeSucceeds(es[0], env);
      var next := Step(acc, es[0], env).value;
      RecordEntriesKeys(es[1..], next, env);
      var r := RecordEntries(es, acc, env).value;
      forall k
        ensures k in r <==> k in acc || exists i :: 0 <= i < |es| && RecordsFile(es[i]) && Normalize(es[i].path) == k
      {
        if exists i :: 0 <= i < |es| && RecordsFile(es[i]) && Normalize(es[i].path) == k {
          var i :| 0 <= i < |es| && RecordsFile(es[i]) && Normalize(es[i].path) == k;
          if i > 0 {
            assert es[1..][i - 1] == es[i];
          }
        }
        if exists i :: 0 <= i < |es| - 1 && RecordsFile(es[1..][i]) && Normalize(es[1..][i].path) == k {
          var i :| 0 <= i < |es| - 1 && RecordsFile(es[1..][i]) && Normalize(es[1..][i].path) == k;
          assert es[i + 1] == es[1..][i];
        }
      }
    }
  }

  lemma {:induction false} RecordEntriesKeepsUntouched(es: seq<WalkEntry>, acc: Inventory, env: Env, k: string)
    requires RecordEntries(es, acc, env).Success?
    requires k in acc
    requires forall i :: 0 <= i < |es| && RecordsFile(es[i]) ==> Normalize(es[i].path) != k
    ensures k in RecordEntries(es, acc, env).value && RecordEntries(es, acc, env).value[k] == acc[k]
    decreases |es|
  {
    if es != [] {
      EntryOutcomeSucceeds(es[0], env);
      var next := Step(acc, es[0], env).value;
      assert forall i :: 0 <= i < |es| - 1 ==> es[1..][i] == es[i + 1];
      RecordEntriesKeepsUntouched(es[1..], next, env, k);
    }
  }

  lemma {:induction false} RecordEntriesLastWins(es: seq<WalkEntry>, acc: Inventory, env: Env, i: nat)
    requires RecordEntries(es, acc, env).Success?
    requires i < |es| && RecordsFile(es[i])
    requires forall j :: i < j < |es| && RecordsFile(es[j]) ==> Normalize(es[j].path) != Normalize(es[i].path)
    ensures es[i].content.Content?
    ensures Normalize(es[i].path) in RecordEntries(es, acc, env).value
    ensures RecordEntries(es, acc, env).value[Normalize(es[i].path)] == env.hash(es[i].content.bytes)
    decreases |es|
  {
    EntryOutcomeSucceeds(es[0], env);
    RecordEntriesSucceeds(es, acc, env);
    assert EntrySucceeds(es[i], env);
    var next := Step(acc, es[0], env).value;
    assert forall j :: 0 <= j < |es| - 1 ==> es[1..][j] == es[j + 1];
    if i == 0 {
      RecordEntriesKeepsUntouched(es[1..], next, env, Normalize(es[0].path));
    } else {
      RecordEntriesLastWins(es[1..], next, env, i - 1);
    }
  }

  lemma {:induction false} FlattenAppend(a: seq<seq<WalkEntry>>, b: seq<seq<WalkEntry>>)
    ensures Flatten(a + b) == Flatten(a) + Flatten(b)
    decreases |a|
  {
    if a == [] {
      assert a + b == b;
    } else {
      assert (a + b)[0] == a[0] && (a + b)[1..] == a[1..] + b;
      FlattenAppend(a[1..], b);
    }
  }

  lemma {:induction false} RecordRootsAppend(a: seq<seq<WalkEntry>>, b: seq<seq<WalkEntry>>, acc: Inventory, env: Env)
    ensures RecordRoots(a, acc, env).Failure? ==> RecordRoots(a + b, acc, env) == RecordRoots(a, acc, env)
    ensures RecordRoots(a, acc, env).Success? ==>
      RecordRoots(a + b, acc, env) == RecordRoots(b, RecordRoots(a, acc, env).value, env)
    decreases |a|
  {
    if a == [] {
      assert a + b == b;
    } else {
      assert (a + b)[0] == a[0] && (a + b)[1..] == a[1..] + b;
      match RecordEntries(a[0], acc, env)
      case Failure(_) =>
      case Success(next) => RecordRootsAppend(a[1..], b, next, env);
    }
  }

  /** The roots are walked in the order given: the entries for `p + q` are
      those for `p` followed by those for `q`. */
  lemma AllEntriesAppend(fs: FileSystem, p: seq<string>, q: seq<string>)
    ensures AllEntries(fs, p + q) == AllEntries(fs, p) + AllEntries(fs, q)
  {
    assert Walks(fs, p + q) == Walks(fs, p) + Walks(fs, q);
    FlattenAppend(Walks(fs, p), Walks(fs, q));
  }

  /** Recording `p + q` is recording `p` and then carrying on over the roots
      of `q` from the map `p` gave; a failure in `p` ends the call. */
  lemma RecordSpecAppend(fs: FileSystem, p: seq<string>, q: seq<string>, env: Env)
    ensures RecordSpec(fs, p, env).Failure? ==> RecordSpec(fs, p + q, env) == RecordSpec(fs, p, env)
    ensures RecordSpec(fs, p, env).Success? ==>
      RecordSpec(fs, p + q, env) == RecordRoots(Walks(fs, q), RecordSpec(fs, p, env).value, env)
  {
    assert Walks(fs, p + q) == Walks(fs, p) + Walks(fs, q);
    RecordRootsAppend(Walks(fs, p), Walks(fs, q), map[], env);
  }

  // ---------------------------------------------------------------------------
  // The same facts for a whole call

  /** The call succeeds exactly when every entry of every walk succeeds; in
      particular a metadata failure aborts it even on a directory. */
  lemma RecordSucceedsIff(fs: FileSystem, paths: seq<string>, env: Env)
    ensures RecordSpec(fs, paths, env).Success? <==>
      forall i :: 0 <= i < |AllEntries(fs, paths)| ==> EntrySucceeds(AllEntries(fs, paths)[i], env)
  {
    RecordRootsFlatten(Walks(fs, paths), map[], env);
    RecordEntriesSucceeds(AllEntries(fs, paths), map[], env);
  }

  /** A failed call reports the error of the first failing entry. */
  lemma RecordReportsFirstFailure(fs: FileSystem, paths: seq<string>, env: Env)
    requires RecordSpec(fs, paths, env).Failure?
    ensures var es := AllEntries(fs, paths);
      exists i :: 0 <= i < |es| && EntryOutcome(es[i], env) == Failure(RecordSpec(fs, paths, env).error)
                  && forall j :: 0 <= j < i ==> EntrySucceeds(es[j], env)
  {
    RecordRootsFlatten(Walks(fs, paths), map[], env);
    RecordEntriesFirstFailure(AllEntries(fs, paths), map[], env);
  }

  /** The keys of a successful call are the normalised paths of the file entries. */
  lemma RecordKeys(fs: FileSystem, paths: seq<string>, env: Env)
    requires RecordSpec(fs, paths, env).Success?
    ensures var es := AllEntries(fs, paths);
      forall k :: k in RecordSpec(fs, paths, env).value <==>
        exists i :: 0 <= i < |es| && RecordsFile(es[i]) && Normalize(es[i].path) == k
  {
    RecordRootsFlatten(Walks(fs, paths), map[], env);
    RecordEntriesKeys(AllEntries(fs, paths), map[], env);
  }

  /** A key holds the digests of the last file entry, across all roots, that
      normalises to it. */
  lemma RecordLastWins(fs: FileSystem, paths: seq<string>, env: Env, i: nat)
    requires RecordSpec(fs, paths, env).Success?
    requires var es := AllEntries(fs, paths);
      i < |es| && RecordsFile(es[i]) &&
      forall j :: i < j < |es| && RecordsFile(es[j]) ==> Normalize(es[j].path) != Normalize(es[i].path)
    ensures var es := AllEntries(fs, paths);
      es[i].content.Content? && Normalize(es[i].path) in RecordSpec(fs, paths, env).value &&
      RecordSpec(fs, paths, env).value[Normalize(es[i].path)] == env.hash(es[i].content.bytes)
  {
    RecordRootsFlatten(Walks(fs, paths), map[], env);
    RecordEntriesLastWins(AllEntries(fs, paths), map[], env, i);
  }

  /** A root that does not exist fails the call with a walk error. */
  lemma MissingRootFails(fs: FileSystem, root: string, env: Env)
    requires root !in fs.walks
    ensures RecordSpec(fs, [root], env) == Failure(Io("Walkdir Error: " + root))
  {
  }

  /** The same file named "./x" under one root and "x" under a later one
      leaves only the later digests. */
  lemma LaterRootOverwrites(fs: FileSystem, env: Env, a: string, b: string, early: Bytes, late: Bytes)
    requires a != b && env.validPath("x")
    requires fs.walks == map[a := [Entry("./x", IsFile, Content(early))], b := [Entry("x", IsFile, Content(late))]]
    ensures RecordSpec(fs, [a, b], env) == Success(map["x" := env.hash(late)])
  {
    assert Normalize("./x") == "x";
    var roots := Walks(fs, [a, b]);
    assert roots == [[Entry("./x", IsFile, Content(early))], [Entry("x", IsFile, Content(late))]];
    var first := map["x" := env.hash(early)];
    assert RecordEntries(roots[0], map[], env) == Success(first) by {
      assert EntryOutcome(roots[0][0], env) == Success(Some(("x", env.hash(early))));
      assert roots[0][1..] == [];
    }
    assert RecordEntries(roots[1], first, env) == Success(map["x" := env.hash(late)]) by {
      assert EntryOutcome(roots[1][0], env) == Success(Some(("x", env.hash(late))));
      assert roots[1][1..] == [];
      assert first["x" := env.hash(late)] == map["x" := env.hash(late)];
    }
    assert roots[1..][0] == roots[1] && roots[1..][1..] == [];
    assert RecordRoots(roots[1..], first, env) == Success(map["x" := env.hash(late)]);
  }

  // ---------------------------------------------------------------------------
  // The imperative algorithm

  method RecordArtifacts(paths: seq<string>, fs: FileSystem, env: Env) returns (r: Result<Inventory, Error>)
    ensures r == RecordSpec(fs, paths, env)
    ensures paths == [] ==> r == Success(map[])
  {
    var artifacts: Inventory := map[];
    ghost var roots := Walks(fs, paths);
    for pi := 0 to |paths|
      invariant RecordRoots(roots[pi..], artifacts, env) == RecordSpec(fs, paths, env)
    {
      var entries := Walk(fs, paths[pi]);
      ghost var start := artifacts;
      assert roots[pi..][0] == entries && roots[pi..][1..] == roots[pi + 1..];
      for ei := 0 to |entries|
        invariant RecordRoots(roots[pi..], start, env) == RecordSpec(fs, paths, env)
        invariant RecordEntries(entries[ei..], artifacts, env) == RecordEntries(entries, start, env)
      {
        assert entries[ei..][0] == entries[ei] && entries[ei..][1..] == entries[ei + 1..];
        match entries[ei]
        case WalkError(detail) =>
          return Failure(Io("Walkdir Error: " + detail));
        case Entry(path, md, content) =>
          match md
          case MetadataError(err) =>
            return Failure(err);
          case NotFile =>
          case IsFile =>
            match content
            case OpenError(err) =>
              return Failure(err);
            case ReadError(err) =>
              return Failure(err);
            case Content(bytes) =>
              var digests := env.hash(bytes);
              var key := Normalize(path);
              if !env.validPath(key) {
                return Failure(InvalidPath(key));
              }
              artifacts := artifacts[key := digests];
      }
      assert entries[|entries|..] == [];
    }
    assert roots[|paths|..] == [];
    return Success(artifacts);
  }
}
