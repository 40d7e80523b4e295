# Node end-to-end test runner: a Dafny model

This project models the decision logic of the Kubernetes node end-to-end
test runner, `test/e2e_node/runner/run_e2e.go`. The runner takes a set of
fixed hosts and compute images. It provisions one instance per image and
builds the test archive once. It runs the tests on every target, deletes
the instances it created when `--delete-instances` is set, and exits 1
when any target failed.

The runner's collaborators are inputs to the model. Each one is given as
the reply it would make:

- the compute API (`Instances.Insert`, `Instances.Get`);
- the ssh `docker version` probe;
- `RunRemote`;
- `CreateTestArchive`;
- local file reads.

The poll loop takes a script of per-attempt replies. The results channel
is a sequence of results in arrival order. `sync.Once` becomes a `built`
flag on an `Archive` object.

Modules:

- `Wrappers`: `Option` and `Result`. A Go `error` is an `Option<Error>`.
- `GoStrings`: Go's `strings.Split`, `ToUpper` and `Contains`, as the runner uses them. It also has a `Join`, which the runner never calls; it exists only to state and prove facts about `Split`.
- `Runner`: the entities (flags, `TestResult`, `GCEImage`, the instance fields read, errors).
- `Metadata`: `parseInstanceMetadata`.
- `Provisioner`: `createInstance` and its poll loop, `getExternalIp` and the name and path helpers.
- `Executor`: `testHost`, `testImage` and the `deleteFiles` policy.
- `Bundle`: the memoised `Archive`.
- `Orchestrator`: flag validation and image merging, the launch loops, the receive loop and the exit decision.

Three behaviours of the code are easy to miss, and the model keeps them:

- `main` ends with `os.Exit(1)` when a target failed. That call skips the
  deferred `deleteArchive`, so the archive is deleted only on success
  (`Orchestrator.Epilogue`), not after every run.
- `testHost` leaves the host empty in the result it returns when the
  archive is missing.
- `createInstance` returns an empty name when the insert fails. When
  `--delete-instances` is set, `testImage` still deletes
  `imageToInstanceName(image)`.

## Model

| member | source | states |
|---|---|---|
| `GoStrings.Split` | test/e2e_node/runner/run_e2e.go:416-423 | a split always has at least one piece |
| `GoStrings.SplitLength` | test/e2e_node/runner/run_e2e.go:418-424 | a split has one piece more than the string has separators |
| `GoStrings.SplitPiecesLackSeparator` | test/e2e_node/runner/run_e2e.go:416-423 | no piece holds the separator |
| `GoStrings.JoinSplit` | test/e2e_node/runner/run_e2e.go:416 | joining the pieces gives back the string |
| `GoStrings.SplitJoin` | test/e2e_node/runner/run_e2e.go:126 | splitting a join of separator-free pieces gives back the pieces, so a comma list `a,b` splits into `a` and `b` |
| `GoStrings.SplitWithoutSeparator` | test/e2e_node/runner/run_e2e.go:418 | a string without the separator is one piece |
| `GoStrings.SplitAfterPiece` | test/e2e_node/runner/run_e2e.go:418-420 | a separator-free prefix followed by the separator becomes the first piece |
| `GoStrings.SplitFirstIsPrefix` | test/e2e_node/runner/run_e2e.go:418-425 | the first piece of a split is a prefix of the string, so a metadata key is the start of its entry |
| `GoStrings.FourPiecesThen` | test/e2e_node/runner/run_e2e.go:442-448 | four separator-free pieces, each followed by the separator, split off the front of what follows |
| `GoStrings.Contains` | test/e2e_node/runner/run_e2e.go:357 | a string can only contain a substring that is no longer than it |
| `GoStrings.ToUpper` | test/e2e_node/runner/run_e2e.go:237 | upper-casing keeps the length and maps each character on its own |
| `Runner.IsRunning` | test/e2e_node/runner/run_e2e.go:237 | a status reads RUNNING after upper-casing only if it has seven characters; `IsRunningIff` gives the exact condition |
| `Runner.IsRunningIff` | test/e2e_node/runner/run_e2e.go:343 | a status counts as RUNNING exactly when it spells "running" in any mix of cases |
| `Metadata.Entry` | test/e2e_node/runner/run_e2e.go:418-433 | the key of a parsed entry is a prefix of the entry; an entry that is not a `k=v` assignment has exactly one `<`, and its value is the contents of the file it names |
| `Metadata.MetadataOf` | test/e2e_node/runner/run_e2e.go:417-434 | every key in the map is defined by some entry |
| `Metadata.ParseInstanceMetadata` | test/e2e_node/runner/run_e2e.go:414-436 | the loop builds the map that applies the comma-separated entries in order |
| `Metadata.EntryAssignment` | test/e2e_node/runner/run_e2e.go:418-422 | `k=v` sets `k` to `v` even when `v` holds `<` (`a=b<c` gives `b<c`), and reads no file |
| `Metadata.EntryFromFile` | test/e2e_node/runner/run_e2e.go:423-433 | `k<p` with `<` in neither half and not exactly one `=` (so `a=b=c<p` too) sets `k` to the file's contents, and is skipped when the read fails |
| `Metadata.EntryBySeparators` | test/e2e_node/runner/run_e2e.go:418-427 | exactly one `=`: the assignment of the two pieces; otherwise exactly one `<`: the key before it gets the named file's contents, or the entry is skipped when the read fails; otherwise the entry is skipped |
| `Metadata.MetadataLastEntryWins` | test/e2e_node/runner/run_e2e.go:417-434 | a key is set iff some entry defines it, and it holds the value of the last entry that does |
| `Provisioner.InstanceName` | test/e2e_node/runner/run_e2e.go:438-440 | the name is the prefix, a dash, then the image |
| `Provisioner.InstanceNameInjective` | test/e2e_node/runner/run_e2e.go:438-440 | under one prefix, different images get different instance names |
| `Provisioner.SourceImage` | test/e2e_node/runner/run_e2e.go:442-444 | the path starts with `projects/`, ends with the image, and is 24 characters longer than project and image together |
| `Provisioner.SourceImageSegments` | test/e2e_node/runner/run_e2e.go:442-444 | the source image path is `projects`, the project, `global`, `images`, then the image's segments |
| `Provisioner.SourceImageInjective` | test/e2e_node/runner/run_e2e.go:442-444 | a source image path names exactly one project and one image |
| `Provisioner.MachineType` | test/e2e_node/runner/run_e2e.go:446-448 | the path is `zones/`, the zone, then `/machineTypes/n1-standard-1` |
| `Provisioner.MachineTypeSegments` | test/e2e_node/runner/run_e2e.go:446-448 | the machine type path is `zones/<zone>/machineTypes/n1-standard-1` |
| `Provisioner.EffectivePrefix` | test/e2e_node/runner/run_e2e.go:148-150 | the prefix is never empty; it is the flag, or `tmp-node-e2e-` and eight UUID characters |
| `Provisioner.FirstNatIp` | test/e2e_node/runner/run_e2e.go:369-374 | a non-empty result is the NAT address of one of the interface's access configs |
| `Provisioner.ExternalIp` | test/e2e_node/runner/run_e2e.go:366-377 | a non-empty result is the NAT address of some access config of some interface |
| `Provisioner.FirstNatIpIsFirst` | test/e2e_node/runner/run_e2e.go:369-374 | within one interface: the first non-empty NAT address, or "" when there is none |
| `Provisioner.ExternalIpIsFirst` | test/e2e_node/runner/run_e2e.go:366-377 | "" exactly when no access config has a NAT address; otherwise the first one in interface-then-config order |
| `Provisioner.GetExternalIp` | test/e2e_node/runner/run_e2e.go:366-377 | the nested loop with early return computes that first address |
| `Provisioner.Attempt` | test/e2e_node/runner/run_e2e.go:338-361 | one attempt succeeds iff the read worked, the status is RUNNING, the probe worked and its output holds "Server"; a read error is kept |
| `Provisioner.AttemptRegistrations` | test/e2e_node/runner/run_e2e.go:343-350 | one attempt registers at most one address, only when the lookup found the instance RUNNING; the address is non-empty, under the instance's name, and a NAT address of the instance |
| `Provisioner.RegistrationsOf` | test/e2e_node/runner/run_e2e.go:334-361 | at most one registration per attempt, each under the instance's name with a non-empty address |
| `Provisioner.PollUntilReady` | test/e2e_node/runner/run_e2e.go:333-363 | 1 to 30 attempts, 20 seconds of sleep before every attempt but the first; stops at the first success; err is nil iff some attempt within 30 succeeds, else the last attempt's error |
| `Provisioner.CreateInstance` | test/e2e_node/runner/run_e2e.go:287-364 | the request's name, machine type, NAT config, disk and metadata; insert errors give an empty name; otherwise the poll loop's result under the instance name |
| `Executor.TestHost` | test/e2e_node/runner/run_e2e.go:228-265 | a failed read or non-RUNNING status gives err, exitOk false and no archive or remote run; no archive gives err and an empty host; otherwise the remote output, error and verdict are copied unchanged |
| `Executor.DeleteFiles` | test/e2e_node/runner/run_e2e.go:280-282 | files are removed only when the instance is kept and cleanup is asked for |
| `Executor.TestImage` | test/e2e_node/runner/run_e2e.go:269-284 | deletion of `prefix-image` is scheduled iff `--delete-instances`, even when creation fails; the provisioning error is the insert's, the rejected operation's, or the last poll attempt's; a creation failure gives err and exitOk false; otherwise `testHost` on the new instance |
| `Bundle.Archive.constructor` | test/e2e_node/runner/run_e2e.go:60-66 | a fresh archive has not been built |
| `Bundle.Archive.GetArchive` | test/e2e_node/runner/run_e2e.go:214-217 | the builder runs at most once; every call returns the same `(path, err)`, the first build's result |
| `Bundle.Archive.DeleteArchive` | test/e2e_node/runner/run_e2e.go:219-225 | the path is removed only when the cached error is nil |
| `Orchestrator.MergedImages` | test/e2e_node/runner/run_e2e.go:122-133 | each CLI image becomes the entry under its own name with the image project, overwriting the config entry; the other entries are kept |
| `Orchestrator.MergedImagesStep` | test/e2e_node/runner/run_e2e.go:127-132 | merging one more image is one more map update |
| `Orchestrator.MergeCliImages` | test/e2e_node/runner/run_e2e.go:126-132 | the merge loop computes that map |
| `Orchestrator.CandidateImages` | test/e2e_node/runner/run_e2e.go:122-133 | without `--images` the configured map; with it, the configured keys plus every comma piece, at least one image, and each image not configured is that name under `--image-project` |
| `Orchestrator.Acceptable` | test/e2e_node/runner/run_e2e.go:102-147 | accepted command-line images imply that `--image-project`, `--zone` and `--project` are all given |
| `Orchestrator.Configure` | test/e2e_node/runner/run_e2e.go:96-150 | build-only stops first; otherwise the run is accepted iff a target flag is given, `--images` has `--image-project`, images have a zone and project, and every image has a project; each refusal is the first failing check, and each of the first two refusals happens exactly when its check fails |
| `Orchestrator.HostList` | test/e2e_node/runner/run_e2e.go:180-181 | no hosts for an empty flag; otherwise one host more than the flag has commas, none of them holding a comma |
| `Orchestrator.LaunchImages` | test/e2e_node/runner/run_e2e.go:172-179 | one run per image, each key once, in some order, numbered from 1 |
| `Orchestrator.Launch` | test/e2e_node/runner/run_e2e.go:171-188 | `running` is the number of images plus hosts; images come first, then hosts; junit numbers are 1..running |
| `Orchestrator.ReportOf` | test/e2e_node/runner/run_e2e.go:196-202 | the report is a success exactly when the result's error is nil, and carries the result's host, output and error |
| `Orchestrator.Collect` | test/e2e_node/runner/run_e2e.go:190-205 | exactly `running` results are read; errCount counts non-nil errors; exitOk is the AND of the exitOk flags; one report per result, successful iff err is nil |
| `Orchestrator.ErrCount` | test/e2e_node/runner/run_e2e.go:191-199 | errCount is at most the number of results |
| `Orchestrator.AllExitOk` | test/e2e_node/runner/run_e2e.go:192-203 | a true verdict means every result's exitOk holds |
| `Orchestrator.AllExitOkIff` | test/e2e_node/runner/run_e2e.go:203 | the overall verdict holds iff every result's exitOk holds |
| `Orchestrator.ErrCountNone` | test/e2e_node/runner/run_e2e.go:197-199 | errCount is zero iff no result has an error |
| `Orchestrator.ErrCountAppend` | test/e2e_node/runner/run_e2e.go:193-205 | counts and verdicts of two batches of results combine |
| `Orchestrator.SummaryIgnoresOrder` | test/e2e_node/runner/run_e2e.go:190-205 | errCount and exitOk do not depend on the order results arrive in |
| `Orchestrator.Epilogue` | test/e2e_node/runner/run_e2e.go:207-211 | exit code 1 iff the verdict is false; the deferred archive deletion runs only when it is true |
| `Orchestrator.ExitCodeReflectsEveryResult` | test/e2e_node/runner/run_e2e.go:190-211 | the process exits 0 iff every result passed |

## Left out

- The compute API and OAuth are foreign services. The replies of `Instances.Insert` and `Instances.Get` are inputs.
- `getComputeClient` with its ten retries (run_e2e.go:379-405) is not modelled: the model assumes the client is created. The `glog.Fatalf` when it fails (run_e2e.go:166-169) exits before any target runs and skips the deferred `deleteArchive` (run_e2e.go:163); the model does not include that exit.
- Remote copy and execution (`RunRemote`, `RunSshCommand`) live in files that are not part of this model. Each is an input reply.
- `AddHostnameIp` and `GetHostnameOrIp` live in files that are not part of this model. The model returns the registrations the runner makes but holds no shared address table.
- Goroutines, the results channel and `sync.Once` are concurrency primitives. Fan-in is a sequence of results; `Once` is a sequential flag.
- `Executor.TestHost`: takes the archive's `(path, err)` as a value instead of calling `getArchive`. `Bundle.Archive.GetArchive` proves every call returns that same pair.
- `Executor.TestImage`: does not order the deferred `deleteInstance` after `testHost`. The delete's own error is only logged, so it is not an input.
- `Provisioner.PollUntilReady`: takes a script of at least 30 replies, one for each attempt the loop may make. The 20-second sleeps are counted, not performed.
- `GoStrings.ToUpper`: maps only ASCII letters. Go's `strings.ToUpper` also maps other Unicode letters, such as dotless `ı` to `I`.
- Error messages are `Error` constructors carrying the formatted fields, not text.
- Metadata items are built from a map in Go, in random order. The model keeps the map.
- Flag parsing, reading and parsing the image config file (run_e2e.go:108-118), random seeding and terminal colours are I/O. Configuration is given as parsed values.
- `Orchestrator.Configure`: returns `BuildArchiveOnly` for `--build-only` but does not build the archive. Go ignores that build's result anyway.
- Printing of the report blocks and the failure summary is output. Reports are values.
- `pkg/controller/framework/informers/factory.go` is a constructor registry over an external watch library, and `test/e2e_node/e2e_node_suite_test.go` is test-suite wiring and process I/O. Neither is modelled.
