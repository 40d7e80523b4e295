/** Provisioning of a compute instance from an image (run_e2e.go:
    `createInstance`, `getExternalIp`, `imageToInstanceName`, `sourceImage`,
    `machineType`). The compute API and the ssh probe are inputs: the reply
    to the insert request and, per poll attempt, the reply to the status read
    and to `docker version`. */
module Provisioner {
  import opened Wrappers
  import opened GoStrings
  import opened Runner
  import Metadata

  /** The poll loop makes at most this many attempts... */
  const MaxPollAttempts := 30
  /** ...and sleeps this long before every attempt but the first. */
  const PollDelaySeconds := 20

  const MachineTypeName := "n1-standard-1"

  /** `imageToInstanceName`: the instance for `image` is `<prefix>-<image>`. */
  function InstanceName(prefix: string, image: string): (r: string)
    ensures |r| == |prefix| + 1 + |image|
    ensures r[..|prefix|] == prefix && r[|prefix|] == '-' && r[|prefix| + 1..] == image
  {
    prefix + "-" + image
  }

  /** Under one prefix, different images get different instances. */
  lemma InstanceNameInjective(prefix: string, a: string, b: string)
    requires InstanceName(prefix, a) == InstanceName(prefix, b)
    ensures a == b
  {
    assert a == InstanceName(prefix, a)[|prefix| + 1..];
  }

  /** `sourceImage`: `projects/<project>/global/images/<image>`. */
  function SourceImage(image: string, imageProject: string): (r: string)
    ensures |r| == 24 + |imageProject| + |image|
    ensures r[..9] == "projects/" && r[|r| - |image|..] == image
  {
    "projects/" + imageProject + "/global/images/" + image
  }

  /** The path segments of a source image: the project is the second one
      and the image is everything after `images`. */
  lemma SourceImageSegments(image: string, imageProject: string)
    requires '/' !in imageProject
    ensures Split(SourceImage(image, imageProject), '/') ==
      ["projects", imageProject, "global", "images"] + Split(image, '/')
  {
    var projects, global, images := "projects", "global", "images";
    assert SourceImage(image, imageProject) ==
      projects + ['/'] + (imageProject + ['/'] + (global + ['/'] + (images + ['/'] + image)));
    FourPiecesThen(projects, imageProject, global, images, image, '/');
  }

  /** A source image names one project and one image. */
  lemma SourceImageInjective(i1: string, p1: string, i2: string, p2: string)
    requires '/' !in p1 && '/' !in p2
    requires SourceImage(i1, p1) == SourceImage(i2, p2)
    ensures i1 == i2 && p1 == p2
  {
    SourceImageSegments(i1, p1);
    SourceImageSegments(i2, p2);
    var s1 := ["projects", p1, "global", "images"] + Split(i1, '/');
    var s2 := ["projects", p2, "global", "images"] + Split(i2, '/');
    assert s1[1] == p1 && s2[1] == p2;
    assert s1[4..] == Split(i1, '/') && s2[4..] == Split(i2, '/');
    JoinSplit(i1, '/');
    JoinSplit(i2, '/');
  }

  /** `machineType`: `zones/<zone>/machineTypes/n1-standard-1`. */
  function MachineType(zone: string): (r: string)
    ensures |r| == |"zones/"| + |zone| + |"/machineTypes/"| + |MachineTypeName|
    ensures r[..6] == "zones/" && r[6..6 + |zone|] == zone
    ensures r[6 + |zone|..] == "/machineTypes/" + MachineTypeName
  {
    "zones/" + zone + "/machineTypes/" + MachineTypeName
  }

  /** The machine type path has exactly four segments, the zone second. */
  lemma MachineTypeSegments(zone: string)
    requires '/' !in zone
    ensures Split(MachineType(zone), '/') == ["zones", zone, "machineTypes", MachineTypeName]
  {
    var parts := ["zones", zone, "machineTypes", MachineTypeName];
    assert Join(parts[3..], '/') == MachineTypeName;
    assert Join(parts[2..], '/') == "machineTypes" + "/" + MachineTypeName;
    assert Join(parts[1..], '/') == zone + "/" + ("machineTypes" + "/" + MachineTypeName);
    assert Join(parts, '/') == MachineType(zone);
    SplitJoin(parts, '/');
  }

  /** The instance name prefix: the flag, or `tmp-node-e2e-` and the first
      eight characters of a fresh UUID when the flag is empty. */
  function EffectivePrefix(flag: string, uuid: string): (r: string)
    requires |uuid| >= 8
    ensures r != ""
    ensures flag != "" ==> r == flag
    ensures flag == "" ==> |r| == 21 && r[..13] == "tmp-node-e2e-" && r[13..] == uuid[..8]
  {
    if flag == "" then "tmp-node-e2e-" + uuid[..8] else flag
  }

  /** `ip` is the NAT address of one of `configs`. */
  predicate NatIpAmong(configs: seq<AccessConfig>, ip: string)
  {
    exists j :: 0 <= j < |configs| && ip == configs[j].natIP
  }

  /** `ip` is the NAT address of one of the access configs of `interfaces`. */
  predicate NatIpOf(interfaces: seq<NetworkInterface>, ip: string)
  {
    exists i :: 0 <= i < |interfaces| && NatIpAmong(interfaces[i].accessConfigs, ip)
  }

  /** The first non-empty NAT address among `configs`, or "". */
  function FirstNatIp(configs: seq<AccessConfig>): (r: string)
    ensures r != "" ==> NatIpAmong(configs, r)
    decreases |configs|
  {
    if configs == [] then ""
    else if |configs[0].natIP| > 0 then configs[0].natIP
    else FirstNatIp(configs[1..])
  }

  /** The first non-empty NAT address, interfaces in order and within each
      its access configs in order, or "" when there is none. */
  function ExternalIp(interfaces: seq<NetworkInterface>): (r: string)
    ensures r != "" ==> NatIpOf(interfaces, r)
    decreases |interfaces|
  {
    if interfaces == [] then ""
    else if FirstNatIp(interfaces[0].accessConfigs) != "" then FirstNatIp(interfaces[0].accessConfigs)
    else ExternalIp(interfaces[1..])
  }

  /** Position (i, j) comes before position (i', j') in scan order. */
  predicate Before(i: int, j: int, i': int, j': int)
  {
    i < i' || (i == i' && j < j')
  }

  /** Every access config scanned before position (i, j) has an empty NAT address. */
  predicate EmptyBefore(interfaces: seq<NetworkInterface>, i: int, j: int)
  {
    forall i', j' :: 0 <= i' < |interfaces| && 0 <= j' < |interfaces[i'].accessConfigs| && Before(i', j', i, j) ==>
      interfaces[i'].accessConfigs[j'].natIP == ""
  }

  lemma {:induction false} FirstNatIpIsFirst(configs: seq<AccessConfig>)
    ensures FirstNatIp(configs) == "" <==> forall j :: 0 <= j < |configs| ==> configs[j].natIP == ""
    ensures FirstNatIp(configs) != "" ==>
      exists j :: 0 <= j < |configs| && FirstNatIp(configs) == configs[j].natIP &&
        forall j' :: 0 <= j' < j ==> configs[j'].natIP == ""
    decreases |configs|
  {
    if configs != [] && configs[0].natIP == "" {
      FirstNatIpIsFirst(configs[1..]);
      assert forall j :: 1 <= j < |configs| ==> configs[j] == configs[1..][j - 1];
      if FirstNatIp(configs) != "" {
        var j :| 0 <= j < |configs[1..]| && FirstNatIp(configs[1..]) == configs[1..][j].natIP &&
          forall j' :: 0 <= j' < j ==> configs[1..][j'].natIP == "";
        assert FirstNatIp(configs) == configs[j + 1].natIP;
      }
    }
  }

  /** `getExternalIp` returns "" exactly when no access config has a NAT
      address, and otherwise the first one in scan order. */
  lemma {:induction false} ExternalIpIsFirst(interfaces: seq<NetworkInterface>)
    ensures ExternalIp(interfaces) == "" <==>
      forall i, j :: 0 <= i < |interfaces| && 0 <= j < |interfaces[i].accessConfigs| ==>
        interfaces[i].accessConfigs[j].natIP == ""
    ensures ExternalIp(interfaces) != "" ==> exists i, j ::
      0 <= i < |interfaces| && 0 <= j < |interfaces[i].accessConfigs| &&
      ExternalIp(interfaces) == interfaces[i].accessConfigs[j].natIP && EmptyBefore(interfaces, i, j)
    decreases |interfaces|
  {
    if interfaces != [] {
      var head := interfaces[0].accessConfigs;
      FirstNatIpIsFirst(head);
      if FirstNatIp(head) != "" {
        var j :| 0 <= j < |head| && FirstNatIp(head) == head[j].natIP &&
          forall j' :: 0 <= j' < j ==> head[j'].natIP == "";
        assert EmptyBefore(interfaces, 0, j);
      } else {
        var tail := interfaces[1..];
        ExternalIpIsFirst(tail);
        assert forall i :: 1 <= i < |interfaces| ==> interfaces[i] == tail[i - 1];
        if ExternalIp(interfaces) != "" {
          var i, j :| 0 <= i < |tail| && 0 <= j < |tail[i].accessConfigs| &&
            ExternalIp(tail) == tail[i].accessConfigs[j].natIP && EmptyBefore(tail, i, j);
          assert EmptyBefore(interfaces, i + 1, j) by {
            forall i', j' | 0 <= i' < |interfaces| && 0 <= j' < |interfaces[i'].accessConfigs| && Before(i', j', i + 1, j)
              ensures interfaces[i'].accessConfigs[j'].natIP == ""
            {
              if i' > 0 {
                assert Before(i' - 1, j', i, j);
              }
            }
          }
        }
      }
    }
  }

  /** `getExternalIp`: nested scan with an early return. */
  method GetExternalIp(instance: Instance) returns (ip: string)
    ensures ip == ExternalIp(instance.networkInterfaces)
  {
    var interfaces := instance.networkInterfaces;
    var i := 0;
    while i < |interfaces|
      invariant 0 <= i <= |interfaces|
      invariant ExternalIp(interfaces) == ExternalIp(interfaces[i..])
    {
      var configs := interfaces[i].accessConfigs;
      var j := 0;
      while j < |configs|
        invariant 0 <= j <= |configs|
        invariant FirstNatIp(configs) == FirstNatIp(configs[j..])
      {
        if |configs[j].natIP| > 0 {
          return configs[j].natIP;
        }
        assert configs[j..][1..] == configs[j + 1..];
        j := j + 1;
      }
      assert interfaces[i..][1..] == interfaces[i + 1..];
      i := i + 1;
    }
    return "";
  }

  /** The `docker version` probe over ssh: its output, and whether the
      command failed. */
  datatype Probe = Probe(output: string, failed: bool)

  /** What one poll attempt sees: the status read and, if it gets that far,
      the probe. */
  datatype PollReply = PollReply(lookup: Lookup, probe: Probe)

  /** The error one attempt leaves in `err`; None means the instance is
      running and runs a docker daemon. */
  function Attempt(name: string, reply: PollReply): (r: Option<Error>)
    ensures r == None <==>
      reply.lookup.Found? && IsRunning(reply.lookup.instance.status) &&
      !reply.probe.failed && Contains(reply.probe.output, "Server")
    ensures reply.lookup.LookupFailed? ==> r == Some(reply.lookup.cause)
  {
    match reply.lookup
    case LookupFailed(cause) => Some(cause)
    case Found(instance) =>
      if !IsRunning(instance.status) then Some(NotRunning(name, instance.status))
      else if reply.probe.failed then Some(DockerCommandFailed(name, reply.probe.output))
      else if !Contains(reply.probe.output, "Server") then Some(DockerServerNotFound(name, reply.probe.output))
      else None
  }

  /** The address one attempt registers: once the status reads RUNNING and
      the instance has an external address. */
  function AttemptRegistrations(name: string, reply: PollReply): (r: seq<Registration>)
    ensures |r| <= 1
    // an address is registered only for a lookup that found the instance RUNNING
    ensures |r| == 1 ==> reply.lookup.Found? && IsRunning(reply.lookup.instance.status)
    ensures |r| == 1 ==>
      (r[0].host == name && r[0].ip != "" && NatIpOf(reply.lookup.instance.networkInterfaces, r[0].ip))
  {
    if reply.lookup.Found? && IsRunning(reply.lookup.instance.status) &&
       ExternalIp(reply.lookup.instance.networkInterfaces) != ""
    then [Registration(name, ExternalIp(reply.lookup.instance.networkInterfaces))]
    else []
  }

  /** The registrations made over a run of attempts, in order. */
  function RegistrationsOf(name: string, replies: seq<PollReply>): (r: seq<Registration>)
    ensures |r| <= |replies|
    ensures forall i :: 0 <= i < |r| ==> r[i].host == name && r[i].ip != ""
    decreases |replies|
  {
    if replies == [] then []
    else RegistrationsOf(name, replies[..|replies| - 1]) + AttemptRegistrations(name, replies[|replies| - 1])
  }

  /** The poll loop of `createInstance`. `replies[k]` is what attempt k
      would see; the loop stops at the first attempt that finds the
      instance running with a docker server, or after MaxPollAttempts. */
  method PollUntilReady(name: string, replies: seq<PollReply>)
    returns (attempts: nat, slept: nat, err: Option<Error>, registered: seq<Registration>)
    requires |replies| >= MaxPollAttempts
    ensures 1 <= attempts <= MaxPollAttempts
    // seconds spent sleeping: one delay before every attempt but the first
    ensures slept == (attempts - 1) * PollDelaySeconds
    ensures forall k :: 0 <= k < attempts - 1 ==> Attempt(name, replies[k]).Some?
    ensures err == Attempt(name, replies[attempts - 1])
    ensures err.Some? ==> attempts == MaxPollAttempts
    ensures err == None <==> exists k :: 0 <= k < MaxPollAttempts && Attempt(name, replies[k]) == None
    ensures registered == RegistrationsOf(name, replies[..attempts])
  {
    var instanceRunning := false;
    attempts, slept, err, registered := 0, 0, None, [];
    while attempts < MaxPollAttempts && !instanceRunning
      invariant 0 <= attempts <= MaxPollAttempts
      invariant slept == if attempts == 0 then 0 else (attempts - 1) * PollDelaySeconds
      invariant forall k :: 0 <= k < attempts - 1 ==> Attempt(name, replies[k]).Some?
      invariant attempts > 0 ==> err == Attempt(name, replies[attempts - 1])
      invariant instanceRunning <==> attempts > 0 && err == None
      invariant registered == RegistrationsOf(name, replies[..attempts])
    {
      if attempts > 0 {
        slept := slept + PollDelaySeconds;
      }
      var reply := replies[attempts];
      assert replies[..attempts + 1][..attempts] == replies[..attempts];
      match reply.lookup {
        case LookupFailed(cause) =>
          err := Some(cause);
        case Found(instance) =>
          if !IsRunning(instance.status) {
            err := Some(NotRunning(name, instance.status));
          } else {
            var externalIp := GetExternalIp(instance);
            if |externalIp| > 0 {
              registered := registered + [Registration(name, externalIp)];
            }
            if reply.probe.failed {
              err := Some(DockerCommandFailed(name, reply.probe.output));
            } else if !Contains(reply.probe.output, "Server") {
              err := Some(DockerServerNotFound(name, reply.probe.output));
            } else {
              err := None;
              instanceRunning := true;
            }
          }
      }
      attempts := attempts + 1;
    }
    if err.Some? {
      assert attempts == MaxPollAttempts;
      assert forall k :: 0 <= k < MaxPollAttempts ==> Attempt(name, replies[k]).Some?;
    }
  }

  /** The reply to the insert request: an error, or an operation that may
      itself carry an error. */
  datatype InsertReply = InsertFailed(cause: Error) | Inserted(opError: Option<string>)

  /** The disk and network settings every instance is created with. */
  datatype AttachedDisk = AttachedDisk(autoDelete: bool, boot: bool, diskType: string, sourceImage: string)
  datatype AccessConfigRequest = AccessConfigRequest(configType: string, configName: string)

  /** The instance the runner asks the compute API to create. Metadata
      items are listed from a map in Go, so their order is unspecified; the
      model keeps the map. */
  datatype InstanceRequest = InstanceRequest(
    name: string,
    machineType: string,
    accessConfigs: seq<AccessConfigRequest>,
    disks: seq<AttachedDisk>,
    metadata: Option<map<string, string>>)

  /** `createInstance`: build and send the insert request, then poll. */
  method CreateInstance(prefix: string, zone: string, image: string, imageProject: string,
                        instanceMetadata: string, readFile: Metadata.FileReader,
                        insert: InsertReply, replies: seq<PollReply>)
    returns (request: InstanceRequest, host: string, err: Option<Error>, attempts: nat, registered: seq<Registration>)
    requires |replies| >= MaxPollAttempts
    ensures request.name == InstanceName(prefix, image)
    ensures request.machineType == MachineType(zone)
    ensures request.accessConfigs == [AccessConfigRequest("ONE_TO_ONE_NAT", "External NAT")]
    ensures request.disks == [AttachedDisk(true, true, "PERSISTENT", SourceImage(image, imageProject))]
    ensures request.metadata ==
      if instanceMetadata == "" then None
      else Some(Metadata.MetadataOf(Split(instanceMetadata, ','), readFile))
    ensures insert.InsertFailed? ==>
      host == "" && err == Some(insert.cause) && attempts == 0 && registered == []
    ensures insert.Inserted? && insert.opError.Some? ==>
      host == "" && err == Some(CreateRejected(request.name, insert.opError.value)) &&
      attempts == 0 && registered == []
    ensures insert == Inserted(None) ==>
      host == request.name && 1 <= attempts <= MaxPollAttempts &&
      (forall k :: 0 <= k < attempts - 1 ==> Attempt(host, replies[k]).Some?) &&
      err == Attempt(host, replies[attempts - 1]) &&
      (err.Some? ==> attempts == MaxPollAttempts) &&
      (err == None <==> exists k :: 0 <= k < MaxPollAttempts && Attempt(host, replies[k]) == None) &&
      registered == RegistrationsOf(host, replies[..attempts])
    ensures err == None ==> host == request.name
  {
    var name := InstanceName(prefix, image);
    var metadata: Option<map<string, string>> := None;
    if instanceMetadata != "" {
      var raw := Metadata.ParseInstanceMetadata(instanceMetadata, readFile);
      metadata := Some(raw);
    }
    request := InstanceRequest(
      name,
      MachineType(zone),
      [AccessConfigRequest("ONE_TO_ONE_NAT", "External NAT")],
      [AttachedDisk(true, true, "PERSISTENT", SourceImage(image, imageProject))],
      metadata);
    match insert {
      case InsertFailed(cause) =>
        return request, "", Some(cause), 0, [];
      case Inserted(opError) =>
        if opError.Some? {
          return request, "", Some(CreateRejected(name, opError.value)), 0, [];
        }
    }
    var slept;
    attempts, slept, err, registered := PollUntilReady(name, replies);
    host := name;
  }
}
