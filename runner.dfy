/** The entities declared by the node end-to-end test runner
    (test/e2e_node/runner/run_e2e.go): its flags, the result of one target,
    the image configuration, the parts of a compute instance it reads, and
    the errors it creates. */
module Runner {
  import opened Wrappers
  import opened GoStrings

  /** The errors the runner creates or passes along. A Go `error` is an
      `Option<Error>`, with `None` for nil. */
  datatype Error =
    | Foreign(message: string)                          // returned by the compute API, ssh or the archive builder
    | NotRunning(instance: string, status: string)      // "instance %s not in state RUNNING, was %s."
    | DockerCommandFailed(instance: string, output: string)   // the docker probe failed
    | DockerServerNotFound(instance: string, output: string)  // the probe output lacks "Server"
    | CreateRejected(instance: string, opError: string) // the insert operation reported an error
    | ArchiveUnavailable(cause: Error)                  // "unable to create test archive %v."
    | ProvisioningFailed(image: string, cause: Error)   // "unable to create gce instance ... for image %s. %v"

  /** What one target (host or image) reports back to the result loop. */
  datatype TestResult = TestResult(output: string, err: Option<Error>, host: string, exitOk: bool)

  /** One entry of the image configuration: a compute image and its project. */
  datatype GCEImage = GCEImage(image: string, project: string)

  /** The parts of a compute instance the runner reads. */
  datatype AccessConfig = AccessConfig(natIP: string)
  datatype NetworkInterface = NetworkInterface(accessConfigs: seq<AccessConfig>)
  datatype Instance = Instance(status: string, networkInterfaces: seq<NetworkInterface>)

  /** The answer of `Instances.Get`: an error or the instance. */
  datatype Lookup = LookupFailed(cause: Error) | Found(instance: Instance)

  /** A host name mapped to an address, as handed to `AddHostnameIp`. */
  datatype Registration = Registration(host: string, ip: string)

  /** The command-line flags, after parsing. */
  datatype Flags = Flags(
    testArgs: string,
    instanceNamePrefix: string,
    zone: string,
    project: string,
    imageConfigFile: string,
    imageProject: string,
    images: string,
    hosts: string,
    cleanup: bool,
    deleteInstances: bool,
    buildOnly: bool,
    setupNode: bool,
    instanceMetadata: string)

  /** The status an instance must report before it is used. */
  const RunningStatus := "RUNNING"

  /** `strings.ToUpper(status) == "RUNNING"`. */
  predicate IsRunning(status: string)
    // upper-casing keeps the length, so only a seven-character status can be RUNNING
    ensures IsRunning(status) ==> |status| == |RunningStatus|
  {
    ToUpper(status) == RunningStatus
  }

  /** A status counts as running exactly when it spells "running" in any
      mix of upper and lower case. */
  lemma IsRunningIff(status: string)
    ensures IsRunning(status) <==>
      |status| == |RunningStatus| &&
      forall i :: 0 <= i < |status| ==> status[i] == RunningStatus[i] || status[i] == "running"[i]
  {
    if IsRunning(status) {
      forall i | 0 <= i < |status|
        ensures status[i] == RunningStatus[i] || status[i] == "running"[i]
      {
        assert UpperChar(status[i]) == RunningStatus[i];
      }
    }
    if |status| == |RunningStatus| &&
       forall i :: 0 <= i < |status| ==> status[i] == RunningStatus[i] || status[i] == "running"[i]
    {
      var up := ToUpper(status);
      assert forall i :: 0 <= i < |up| ==> up[i] == RunningStatus[i];
      assert up == RunningStatus;
    }
  }
}
