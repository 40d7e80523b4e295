/** Running the tests on one target (run_e2e.go: `testHost`, `testImage`,
    `deleteInstance`). The compute API and `RunRemote` are inputs: the
    reply to each request the target would make. */
module Executor {
  import opened Wrappers
  import opened Runner
  import opened Provisioner
  import opened Bundle
  import Metadata

  /** The arguments `RunRemote` is called with. */
  datatype RemoteRun = RemoteRun(
    archivePath: string, host: string, deleteFiles: bool,
    junitFileNum: nat, setupNode: bool, testArgs: string)

  /** What `RunRemote` returns: the output, whether the tests passed, and
      an error when the host could not be reached or the run not started. */
  datatype RemoteReply = RemoteReply(output: string, exitOk: bool, err: Option<Error>)

  /** Everything `testHost` does: its result, the addresses it registered,
      whether it asked for the archive, and the remote run it started. */
  datatype HostOutcome = HostOutcome(
    result: TestResult, registered: seq<Registration>,
    archiveRequested: bool, remote: Option<RemoteRun>)

  /** `testHost`. `lookup` is the instance status read, `archive` what
      `getArchive` returns, `reply` what the remote run would return. */
  function TestHost(host: string, deleteFiles: bool, junitFileNum: nat, setupNode: bool, testArgs: string,
                    lookup: Lookup, archive: ArchiveResult, reply: RemoteReply): (o: HostOutcome)
    // the status read fails: report its error, touch nothing else
    ensures lookup.LookupFailed? ==>
      o == HostOutcome(TestResult("", Some(lookup.cause), host, false), [], false, None)
    // the instance is not RUNNING: report that, touch nothing else
    ensures lookup.Found? && !IsRunning(lookup.instance.status) ==>
      o == HostOutcome(TestResult("", Some(NotRunning(host, lookup.instance.status)), host, false), [], false, None)
    // running: register its address if it has one and ask for the archive
    ensures lookup.Found? && IsRunning(lookup.instance.status) ==>
      o.archiveRequested &&
      o.registered == (var ip := ExternalIp(lookup.instance.networkInterfaces);
                       if ip != "" then [Registration(host, ip)] else [])
    // no archive: report that, with an empty host, and run nothing
    ensures lookup.Found? && IsRunning(lookup.instance.status) && archive.err.Some? ==>
      o.result == TestResult("", Some(ArchiveUnavailable(archive.err.value)), "", false) && o.remote == None
    // otherwise the remote run's output, error and verdict are reported unchanged
    ensures lookup.Found? && IsRunning(lookup.instance.status) && archive.err.None? ==>
      o.remote == Some(RemoteRun(archive.path, host, deleteFiles, junitFileNum, setupNode, testArgs)) &&
      o.result == TestResult(reply.output, reply.err, host, reply.exitOk)
    // no remote run means an infrastructure error, never a pass
    ensures o.remote == None ==> o.result.err.Some? && !o.result.exitOk
  {
    match lookup
    case LookupFailed(cause) =>
      HostOutcome(TestResult("", Some(cause), host, false), [], false, None)
    case Found(instance) =>
      if !IsRunning(instance.status) then
        HostOutcome(TestResult("", Some(NotRunning(host, instance.status)), host, false), [], false, None)
      else
        var externalIp := ExternalIp(instance.networkInterfaces);
        var registered := if |externalIp| > 0 then [Registration(host, externalIp)] else [];
        if archive.err.Some? then
          HostOutcome(TestResult("", Some(ArchiveUnavailable(archive.err.value)), "", false), registered, true, None)
        else
          var run := RemoteRun(archive.path, host, deleteFiles, junitFileNum, setupNode, testArgs);
          HostOutcome(TestResult(reply.output, reply.err, host, reply.exitOk), registered, true, Some(run))
  }

  /** Files are removed from an image's instance only when the instance is
      kept and cleanup is asked for. */
  function DeleteFiles(deleteInstances: bool, cleanup: bool): (r: bool)
    ensures r ==> !deleteInstances
    ensures !cleanup ==> !r
    ensures !deleteInstances && cleanup ==> r
  {
    !deleteInstances && cleanup
  }

  /** Everything `testImage` does: the instance request, the provisioning
      error, the `testHost` run if provisioning succeeded, the result, and
      the instance whose deletion was scheduled. */
  datatype ImageOutcome = ImageOutcome(
    request: InstanceRequest, provisionErr: Option<Error>,
    hostRun: Option<HostOutcome>, result: TestResult, deleted: Option<string>)

  /** `testImage`: provision an instance of `image`, run the tests on it,
      and delete it afterwards when `--delete-instances` is set. */
  method TestImage(flags: Flags, prefix: string, image: string, imageProject: string, junitFileNum: nat,
                   readFile: Metadata.FileReader, insert: InsertReply, replies: seq<PollReply>,
                   lookup: Lookup, archive: ArchiveResult, reply: RemoteReply)
    returns (o: ImageOutcome)
    requires |replies| >= MaxPollAttempts
    // deletion is scheduled whenever the flag is set, whatever happened, for the name creation used
    ensures o.deleted == if flags.deleteInstances then Some(InstanceName(prefix, image)) else None
    ensures o.request.name == InstanceName(prefix, image)
    ensures o.request.machineType == MachineType(flags.zone)
    ensures o.request.disks == [AttachedDisk(true, true, "PERSISTENT", SourceImage(image, imageProject))]
    ensures o.provisionErr == None <==>
      insert == Inserted(None) &&
      exists k :: 0 <= k < MaxPollAttempts && Attempt(InstanceName(prefix, image), replies[k]) == None
    // the provisioning error is the insert's, the operation's, or the last poll attempt's
    ensures insert.InsertFailed? ==> o.provisionErr == Some(insert.cause)
    ensures insert.Inserted? && insert.opError.Some? ==>
      o.provisionErr == Some(CreateRejected(InstanceName(prefix, image), insert.opError.value))
    ensures insert == Inserted(None) && o.provisionErr.Some? ==>
      o.provisionErr == Attempt(InstanceName(prefix, image), replies[MaxPollAttempts - 1])
    // a provisioning failure is reported with exitOk false and no test run
    ensures o.provisionErr.Some? ==>
      o.hostRun == None &&
      o.result == TestResult("", Some(ProvisioningFailed(image, o.provisionErr.value)), "", false)
    // otherwise the tests run on the new instance, files kept only if the instance is
    ensures o.provisionErr == None ==>
      o.hostRun == Some(TestHost(InstanceName(prefix, image), DeleteFiles(flags.deleteInstances, flags.cleanup),
                                 junitFileNum, flags.setupNode, flags.testArgs, lookup, archive, reply)) &&
      o.result == o.hostRun.value.result
    // the instance deleted is the one the tests ran on
    ensures o.deleted.Some? && o.hostRun.Some? && o.hostRun.value.remote.Some? ==>
      o.hostRun.value.remote.value.host == o.deleted.value
  {
    var request, host, err, attempts, registered :=
      CreateInstance(prefix, flags.zone, image, imageProject, flags.instanceMetadata, readFile, insert, replies);
    var deleted: Option<string> := None;
    if flags.deleteInstances {
      // deferred in Go: runs after the result below is computed
      deleted := Some(InstanceName(prefix, image));
    }
    if err.Some? {
      return ImageOutcome(request, err, None,
        TestResult("", Some(ProvisioningFailed(image, err.value)), "", false), deleted);
    }
    var deleteFiles := DeleteFiles(flags.deleteInstances, flags.cleanup);
    var run := TestHost(host, deleteFiles, junitFileNum, flags.setupNode, flags.testArgs, lookup, archive, reply);
    o := ImageOutcome(request, None, Some(run), run.result, deleted);
  }
}
