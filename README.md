# in-toto step recorder: a Dafny model

This project models the part of the in-toto Rust crate that records one
supply-chain step: the `ByProducts` value object (`src/models/link/byproducts.rs`)
and the step-recording functions of `src/runlib.rs` — `record_artifacts`,
`run_command` and `in_toto_run`.

- `byproducts.dfy` (module `Byproducts`): the `ByProducts` record with its
  constructor, five setters and four getters as a datatype with functional
  updates, and the flat JSON form that serde's `flatten` gives it, as a
  string-keyed map of JSON values with an encoder and a decoder.
- `host.dfy` (module `Host`): what the recorder receives from outside, as
  values. A directory walk is a sequence of entries. Each entry is a walk
  error, or a path with its metadata result (file, not a file, or error) and
  its open/read result. A file system is a snapshot: for each root, the
  entries a walk from it yields. A process outcome is a launch failure or an
  exit with output bytes, an optional exit code and the file system left
  behind. The hash, `VirtualTargetPath::new`, the UTF-8 decoder and the
  process launcher are function-valued parameters bundled in `Env`.
- `artifacts.dfy` (module `Artifacts`): the path normalisation
  `replace("./", "")`, a specification of `record_artifacts` as a fold
  over the walk entries, the imperative nested loop proved equal to it, and
  lemmas about it. The lemmas say when the call succeeds, which error it
  reports, which keys appear, and that the last entry for a key wins.
- `decimal.dfy` (module `Decimal`): `i32` and the decimal text of an exit
  code, with a parser proving that the text determines the code.
- `command.dfy` (module `Command`): `run_command`, as a specification
  function and a method that fills the byproducts map insert by insert.
- `runlib.dfy` (module `Runlib`): `in_toto_run`, meaning materials, then the
  command, then products on the file system the command left, then the link.
  The method also returns a ghost list of the stages that ran.
- `wrappers.dfy` (module `Wrappers`): `Option` and `Result`.

Three behaviours of the code are easy to misread:

- The code removes every `"./"` in a path, not only a leading one. So
  `foo./bar` and `foobar` get the same key, and `..//` becomes `./`.
- The code reads metadata for every walk entry, directories included. A
  metadata failure on a directory therefore aborts the call.
- `run_command` returns a string map whose `return-value` is text, not a
  sentinel number.

## Model

| member | source | states |
|---|---|---|
| `Byproducts.New` | src/models/link/byproducts.rs:46-53 | a new value has return value 0, empty stderr and stdout, and no extension fields |
| `Byproducts.ByProducts.SetReturnValue` | src/models/link/byproducts.rs:55-59 | sets the return value and leaves stderr, stdout and the extension map unchanged |
| `Byproducts.ByProducts.SetStderr` | src/models/link/byproducts.rs:61-65 | sets stderr and leaves every other field unchanged |
| `Byproducts.ByProducts.SetStdout` | src/models/link/byproducts.rs:67-71 | sets stdout and leaves every other field unchanged |
| `Byproducts.ByProducts.SetOtherFields` | src/models/link/byproducts.rs:73-79 | the extension map becomes exactly the given map; the fixed fields are unchanged |
| `Byproducts.ByProducts.SetOtherField` | src/models/link/byproducts.rs:81-85 | adds or overwrites exactly the given key, keeps every other key with its value, fixed fields unchanged |
| `Byproducts.GettersReturnLastSet` | src/models/link/byproducts.rs:87-105 | each getter returns what its setter last stored, and setters do not disturb the other getters |
| `Byproducts.FixedSettersLastWriteWins` | src/models/link/byproducts.rs:56-71 | setting a fixed field twice equals setting it once to the last value; repeating one value is idempotent |
| `Byproducts.BulkReplaceDiscardsEarlierFields` | src/models/link/byproducts.rs:73-85 | a bulk replace discards earlier inserted fields; an insert after it inserts into the new map |
| `Byproducts.InsertedFieldsEqualBulkFields` | src/models/link/byproducts.rs:117-157 | two inserts into an empty extension map equal one bulk set of both, in either order |
| `Byproducts.Serialize` | src/models/link/byproducts.rs:35-43 | the flat object has keys `return-value`, `stderr`, `stdout` plus every extension key; an extension key overwrites a colliding fixed key |
| `Byproducts.Deserialize` | src/models/link/byproducts.rs:35-43 | a decoded value never has an extension key named like a fixed field, and its keys together with the fixed ones are the object's keys |
| `Byproducts.DeserializeSerialize` | src/models/link/byproducts.rs:159-201 | decoding the flat form returns the original value when no extension key is a fixed field name |
| `Byproducts.SerializeDeserialize` | src/models/link/byproducts.rs:35-43 | every object that decodes is re-encoded to exactly itself |
| `Byproducts.ReservedStdoutKeyDoesNotRoundTrip` | src/models/link/byproducts.rs:39-42 | an extension field named `stdout` comes back as the stdout field, so the value is not recovered |
| `Byproducts.ReservedReturnValueKeyFailsToDecode` | src/models/link/byproducts.rs:37-42 | an extension field named `return-value` turns the number into a string, and decoding fails |
| `Byproducts.SerializedExample` | src/models/link/byproducts.rs:116-201 | the tests' value encodes to the expected five-key object, and that object decodes back to it |
| `Decimal.NatToDecimal` | src/runlib.rs:97 | the text is non-empty, all decimal digits, and has no leading zero |
| `Decimal.IntToDecimal` | src/runlib.rs:97 | the text is canonical decimal (optional minus sign, digits, no leading zero, never `-0`) and has a minus sign exactly for negative numbers |
| `Decimal.ParseNatOfDecimal` | src/runlib.rs:97 | reading back the digits of a natural number gives that number |
| `Decimal.ParseIntOfDecimal` | src/runlib.rs:97 | reading back the decimal text of any integer gives that integer |
| `Decimal.IntToDecimalInjective` | src/runlib.rs:97 | different exit codes have different texts |
| `Decimal.CanonicalNatUnique` | src/runlib.rs:97 | digits with no leading zero are the decimal text of the number they read as |
| `Decimal.CanonicalDecimalUnique` | src/runlib.rs:97 | a canonical decimal text that reads as an integer is that integer's text, so the canonical form and the round trip fix the text `i32::to_string` prints |
| `Artifacts.Normalize` | src/runlib.rs:52 | normalising never makes a path longer |
| `Artifacts.NormalizeFixedPoint` | src/runlib.rs:52 | a path is left unchanged exactly when it contains no `./` |
| `Artifacts.NormalizeStripsLeadingDotSlash` | src/runlib.rs:52 | a leading `./` is removed |
| `Artifacts.NormalizeAppend` | src/runlib.rs:52 | normalisation distributes over concatenation whenever no `./` straddles the cut (`a` does not end in `.` while `b` starts with `/`); with the fixed-point and leading-`./` lemmas this fixes the result on every string, split at its leftmost `./` |
| `Artifacts.NormalizeRemovesInnerOccurrence` | src/runlib.rs:52 | `./a/./b` becomes `a/b`: inner occurrences are removed too |
| `Artifacts.NormalizeMergesDistinctPaths` | src/runlib.rs:52 | `foo./bar` and `foobar` normalise to the same key |
| `Artifacts.NormalizeNotIdempotent` | src/runlib.rs:52 | `..//` normalises to `./`, which normalises again to the empty path |
| `Artifacts.EntryOutcomeSucceeds` | src/runlib.rs:30-54 | an entry succeeds exactly when a file's metadata, open, hash and target path all succeed, or a non-file's metadata does; a file adds its normalised path with the hash of its content, a non-file adds nothing |
| `Artifacts.RecordEntriesAppend` | src/runlib.rs:28-56 | recording two entry lists one after the other is recording their concatenation |
| `Artifacts.RecordRootsFlatten` | src/runlib.rs:28-56 | recording root after root is recording all their entries in sequence |
| `Artifacts.FlattenAppend` | src/runlib.rs:28-29 | the entries of two lists of walks are the entries of the first followed by those of the second |
| `Artifacts.RecordRootsAppend` | src/runlib.rs:28-56 | recording two lists of walks is recording the first and continuing over the second from its map, unless the first fails |
| `Artifacts.AllEntriesAppend` | src/runlib.rs:28-29 | the roots are walked in the given order: the entries for `p + q` are those for `p`, then those for `q` |
| `Artifacts.RecordSpecAppend` | src/runlib.rs:28-57 | recording `p + q` is recording `p`, then carrying on over the walks of `q` from its map; a failure in `p` ends the call with that error |
| `Artifacts.RecordEntriesSucceeds` | src/runlib.rs:28-57 | recording a list of entries succeeds exactly when every entry does |
| `Artifacts.RecordEntriesFirstFailure` | src/runlib.rs:30-53 | a failed recording returns the error of the first failing entry |
| `Artifacts.RecordEntriesKeys` | src/runlib.rs:46-54 | the keys are those already present plus the normalised paths of the file entries |
| `Artifacts.RecordEntriesKeepsUntouched` | src/runlib.rs:53 | a key that no later file entry normalises to keeps its value |
| `Artifacts.RecordEntriesLastWins` | src/runlib.rs:50-53 | a key holds the hash of the last file entry that normalises to it |
| `Artifacts.RecordSucceedsIff` | src/runlib.rs:28-57 | `record_artifacts` returns a map exactly when every entry of every walk succeeds, metadata on directories included |
| `Artifacts.RecordReportsFirstFailure` | src/runlib.rs:30-53 | a failed call reports the error of the first failing entry across all roots, and no map |
| `Artifacts.RecordKeys` | src/runlib.rs:46-54 | the keys of the result are exactly the normalised paths of the file entries |
| `Artifacts.RecordLastWins` | src/runlib.rs:25-57 | across all roots, a key holds the hash of the content of the last file entry that normalises to it |
| `Artifacts.MissingRootFails` | src/runlib.rs:29-37 | recording a root that does not exist fails with a `Walkdir Error` |
| `Artifacts.LaterRootOverwrites` | src/runlib.rs:28-53 | `./x` under one root and `x` under a later root leave only the later file's hash |
| `Artifacts.RecordArtifacts` | src/runlib.rs:20-58 | the nested loop with early returns computes the specification; no paths gives the empty map |
| `Command.Status` | src/runlib.rs:96-99 | an exit code becomes canonical decimal text, negative exactly for a negative code, that parses back to it and is never the signal text; no code gives `Process terminated by signal` |
| `Command.StatusInjective` | src/runlib.rs:96-99 | different exit statuses give different `return-value` texts |
| `Command.CommandOutcome` | src/runlib.rs:64-106 | errors in source order: launch, echo of stdout, echo of stderr, invalid UTF-8 on stdout, then on stderr; success exactly when none happen, with the keys `stdout`, `stderr`, `return-value` and their values |
| `Command.RunCommand` | src/runlib.rs:64-106 | running `args[0]` with `args[1..]` and inserting the three entries yields the specified outcome |
| `Runlib.StepOutcome` | src/runlib.rs:110-148 | any failure of materials, command, products or build is returned unchanged; on success the link holds the name and the three results |
| `Runlib.InTotoRun` | src/runlib.rs:120-135 | computes the step outcome; the stages run in order, and the last one to run is the first that failed |
| `Runlib.UnchangedFileSystemGivesEqualInventories` | src/runlib.rs:120-127 | a command that leaves the file system unchanged, recorded over the same roots, gives equal materials and products |

## Left out

- Directory walking, `std::fs::metadata`, `File::open` and `BufReader` are not modelled. Their results are given as walk entries. A missing root yields one walk error whose detail is the root name, not walkdir's message.
- `crypto::calculate_hashes` and SHA-256 are foreign code. The hash is an uninterpreted function of the file content, a read failure is an entry result, and the byte length it returns is ignored.
- `VirtualTargetPath::new` is not part of this model. It is an abstract validity predicate on the normalised path.
- `to_str().unwrap()` on the entry path is not modelled. Paths are strings already, so a non-UTF-8 path is not considered.
- Process spawning is the `exec` parameter. Echoing the output to the recorder's own streams is modelled only as the possible failure of each write.
- UTF-8 validation is an abstract decoder returning text or an error detail.
- `LinkMetadataBuilder` and `Link::from` are not part of this model. They are one `build` check that may refuse the link. The link holds only the name, materials, byproducts and products.
- The unused `key` parameter and the commented-out signing block are left out.
- The sorted order of keys (`BTreeMap`) is not modelled. Dafny maps are unordered, and map equality does not depend on insertion order.
- Byproducts.Deserialize: when an object has several defects, it reports them in field-declaration order (`return-value`, `stderr`, `stdout`, then extension values), not in the order serde meets them in the text. JSON text is not modelled: that covers escapes, duplicate keys in a text and non-integer numbers.
- An empty argument list makes `run_command` panic. The model states this as a precondition (`|args| > 0`) of `RunCommand`, not as an error value. `in_toto_run` records the materials first (src/runlib.rs:121) and reaches `cmd_args[0]` only afterwards (src/runlib.rs:68), so `InTotoRun` and `StepOutcome` also accept an empty list when the materials fail, and return that error; only an empty list with materials that succeed is excluded.
- The unit test's expectation that `printf hello` returns `"1"` is not modelled as a property, since a normal exit gives `"0"`.
- Symbolic-link and hidden-file handling exist only as TODO comments and are not modelled.
