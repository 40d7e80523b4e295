/** The decisions of the runner's `main` (run_e2e.go): which images and
    hosts to test, the order in which the per-target runs are started, and
    the receive loop that turns their results into one exit status. The
    goroutines and the results channel are left to their inputs: the
    results arrive as a sequence, in any order. */
module Orchestrator {
  import opened Wrappers
  import opened GoStrings
  import opened Runner
  import opened Provisioner

  /** Why `main` refuses to run (each is a `glog.Fatal`). */
  datatype ConfigError =
    | NoTargets                          // none of --hosts, --image-config-file, --images
    | ImagesWithoutProject               // --images without --image-project
    | MissingZone                        // images to run but no --zone
    | MissingImageProject(shortName: string)  // an image entry with an empty project
    | MissingProject                     // images to run but no --project

  /** What `main` goes on to do once the flags are accepted. */
  datatype Plan =
    | BuildArchiveOnly
    | RunTests(images: map<string, GCEImage>, prefix: string)

  /** The configured images with each command-line image added under its
      own name, overwriting a configured entry of that name. */
  function MergedImages(configured: map<string, GCEImage>, cliImages: seq<string>, imageProject: string)
    : (m: map<string, GCEImage>)
    ensures m.Keys == configured.Keys + (set img | img in cliImages)
    ensures forall img :: img in cliImages ==> m[img] == GCEImage(img, imageProject)
    ensures forall k :: k in configured && k !in cliImages ==> m[k] == configured[k]
  {
    configured + map img | img in cliImages :: GCEImage(img, imageProject)
  }

  /** The merge loop of `main`. */
  method MergeCliImages(configured: map<string, GCEImage>, cliImages: seq<string>, imageProject: string)
    returns (m: map<string, GCEImage>)
    ensures m == MergedImages(configured, cliImages, imageProject)
  {
    m := configured;
    for i := 0 to |cliImages|
      invariant m == MergedImages(configured, cliImages[..i], imageProject)
    {
      var img := cliImages[i];
      assert cliImages[..i + 1] == cliImages[..i] + [img];
      MergedImagesStep(configured, cliImages[..i], img, imageProject);
      m := m[img := GCEImage(img, imageProject)];
    }
    assert cliImages[..|cliImages|] == cliImages;
  }

  /** Merging one more image is one more map update. */
  lemma MergedImagesStep(configured: map<string, GCEImage>, cliImages: seq<string>, img: string, imageProject: string)
    ensures MergedImages(configured, cliImages + [img], imageProject) ==
      MergedImages(configured, cliImages, imageProject)[img := GCEImage(img, imageProject)]
  {
    var lhs := MergedImages(configured, cliImages + [img], imageProject);
    var rhs := MergedImages(configured, cliImages, imageProject)[img := GCEImage(img, imageProject)];
    assert forall k :: k in cliImages + [img] <==> k in cliImages || k == img;
    assert lhs.Keys == rhs.Keys;
    forall k | k in lhs
      ensures lhs[k] == rhs[k]
    {
      if k != img && k !in cliImages {
        assert k !in cliImages + [img];
      }
    }
  }

  /** None of the three target flags is given. */
  predicate NoTargetFlags(flags: Flags)
  {
    flags.hosts == "" && flags.imageConfigFile == "" && flags.images == ""
  }

  /** The images `main` will provision: the configured ones, merged with
      `--images` when that flag is given. */
  function CandidateImages(flags: Flags, configured: map<string, GCEImage>): (r: map<string, GCEImage>)
    ensures flags.images == "" ==> r == configured
    ensures flags.images != "" ==> r.Keys == configured.Keys + (set img | img in Split(flags.images, ','))
    // an image that was not configured comes from `--images`, under `--image-project`
    ensures forall k :: k in r && k !in configured ==> r[k] == GCEImage(k, flags.imageProject)
    // `--images` always contributes at least one image (possibly the empty name)
    ensures flags.images != "" ==> |r| != 0
  {
    if flags.images != "" then
      var cli := Split(flags.images, ',');
      assert cli[0] in MergedImages(configured, cli, flags.imageProject);
      MergedImages(configured, cli, flags.imageProject)
    else configured
  }

  /** All the conditions `main` checks, as one conjunction. */
  predicate Acceptable(flags: Flags, configured: map<string, GCEImage>)
    // images named on the command line need the image project, the zone and the project
    ensures Acceptable(flags, configured) && flags.images != "" ==>
      flags.imageProject != "" && flags.zone != "" && flags.project != ""
  {
    && !NoTargetFlags(flags)
    && (flags.images != "" ==> flags.imageProject != "")
    && (|CandidateImages(flags, configured)| != 0 ==> flags.zone != "" && flags.project != "")
    && forall k :: k in CandidateImages(flags, configured) ==> CandidateImages(flags, configured)[k].project != ""
  }

  /** The flag handling of `main` up to the start of the test runs.
      `configured` is what the image config file declared (nothing without
      one); `uuid` stands for a fresh UUID. */
  method Configure(flags: Flags, configured: map<string, GCEImage>, uuid: string)
    returns (r: Result<Plan, ConfigError>)
    requires |uuid| >= 8
    requires flags.imageConfigFile == "" ==> configured == map[]
    ensures flags.buildOnly ==> r == Success(BuildArchiveOnly)
    ensures !flags.buildOnly ==> (r.Success? <==> Acceptable(flags, configured))
    ensures !flags.buildOnly && r.Success? ==>
      r.value == RunTests(CandidateImages(flags, configured), EffectivePrefix(flags.instanceNamePrefix, uuid))
    // the checks, in the order main makes them
    ensures !flags.buildOnly && NoTargetFlags(flags) ==> r == Failure(NoTargets)
    ensures !flags.buildOnly && !NoTargetFlags(flags) && flags.images != "" && flags.imageProject == "" ==>
      r == Failure(ImagesWithoutProject)
    ensures r == Failure(NoTargets) ==> NoTargetFlags(flags)
    ensures r == Failure(ImagesWithoutProject) ==>
      !NoTargetFlags(flags) && flags.images != "" && flags.imageProject == ""
    ensures r == Failure(MissingZone) ==>
      !NoTargetFlags(flags) && |CandidateImages(flags, configured)| != 0 && flags.zone == ""
    ensures r.Failure? && r.error.MissingImageProject? ==>
      flags.zone != "" &&
      r.error.shortName in CandidateImages(flags, configured) &&
      CandidateImages(flags, configured)[r.error.shortName].project == ""
    ensures r == Failure(MissingProject) ==>
      flags.zone != "" && flags.project == "" && |CandidateImages(flags, configured)| != 0 &&
      forall k :: k in CandidateImages(flags, configured) ==> CandidateImages(flags, configured)[k].project != ""
  {
    if flags.buildOnly {
      return Success(BuildArchiveOnly);
    }
    if flags.hosts == "" && flags.imageConfigFile == "" && flags.images == "" {
      return Failure(NoTargets);
    }
    var images := configured;
    if flags.images != "" {
      if flags.imageProject == "" {
        return Failure(ImagesWithoutProject);
      }
      var cliImages := Split(flags.images, ',');
      images := MergeCliImages(images, cliImages, flags.imageProject);
    }
    assert images == CandidateImages(flags, configured);
    if |images| != 0 && flags.zone == "" {
      return Failure(MissingZone);
    }
    if exists shortName :: shortName in images && images[shortName].project == "" {
      var shortName :| shortName in images && images[shortName].project == "";
      return Failure(MissingImageProject(shortName));
    }
    if |images| != 0 && flags.project == "" {
      return Failure(MissingProject);
    }
    return Success(RunTests(images, EffectivePrefix(flags.instanceNamePrefix, uuid)));
  }

  /** One per-target run `main` starts, with its junit file number. */
  datatype Target =
    | ImageTarget(image: string, imageProject: string, junitFileNum: nat)
    | HostTarget(host: string, deleteFiles: bool, setupNode: bool, junitFileNum: nat)

  /** The hosts named by `--hosts`. */
  function HostList(hosts: string): (r: seq<string>)
    ensures |r| == if hosts == "" then 0 else Count(hosts, ',') + 1
    ensures forall i :: 0 <= i < |r| ==> ',' !in r[i]
  {
    if hosts == "" then []
    else
      SplitLength(hosts, ',');
      SplitPiecesLackSeparator(hosts, ',');
      Split(hosts, ',')
  }

  /** A run of images after image-map keys in `order`, numbered from 1. */
  predicate ImageRuns(images: map<string, GCEImage>, order: seq<string>, targets: seq<Target>)
  {
    && |order| <= |targets|
    && (forall k :: k in order ==> k in images)
    && forall i :: 0 <= i < |order| ==>
         targets[i] == ImageTarget(images[order[i]].image, images[order[i]].project, i + 1)
  }

  /** The image launch loop of `main`: one run per image, in the map's
      (unspecified) iteration order `order`, numbered 1, 2, ... */
  method LaunchImages(images: map<string, GCEImage>) returns (order: seq<string>, targets: seq<Target>)
    ensures |order| == |targets| == |images|
    ensures forall k :: k in images <==> k in order
    ensures forall i, j :: 0 <= i < j < |order| ==> order[i] != order[j]
    ensures ImageRuns(images, order, targets)
  {
    order, targets := [], [];
    var pending := images.Keys;
    while pending != {}
      invariant pending <= images.Keys
      invariant forall k :: k in images ==> (k in pending <==> k !in order)
      invariant forall i, j :: 0 <= i < j < |order| ==> order[i] != order[j]
      invariant |order| + |pending| == |images.Keys|
      invariant |order| == |targets|
      invariant ImageRuns(images, order, targets)
      decreases |pending|
    {
      var shortName :| shortName in pending;
      var running := |targets| + 1;
      targets := targets + [ImageTarget(images[shortName].image, images[shortName].project, running)];
      order := order + [shortName];
      pending := pending - {shortName};
    }
  }

  /** The launch loops of `main`: the images first, then one run per host;
      `running` counts the runs and numbers the junit files 1, 2, ... */
  method Launch(images: map<string, GCEImage>, flags: Flags)
    returns (running: nat, order: seq<string>, targets: seq<Target>)
    ensures running == |targets| == |images| + |HostList(flags.hosts)|
    ensures |order| == |images|
    ensures forall k :: k in images <==> k in order
    ensures forall i, j :: 0 <= i < j < |order| ==> order[i] != order[j]
    ensures forall i :: 0 <= i < |targets| ==> targets[i].junitFileNum == i + 1
    ensures ImageRuns(images, order, targets)
    ensures forall i :: 0 <= i < |HostList(flags.hosts)| ==>
      targets[|order| + i] == HostTarget(HostList(flags.hosts)[i], flags.cleanup, flags.setupNode, |order| + i + 1)
  {
    order, targets := LaunchImages(images);
    running := |targets|;
    var hosts := HostList(flags.hosts);
    for h := 0 to |hosts|
      invariant running == |targets| == |order| + h
      invariant forall i :: 0 <= i < |targets| ==> targets[i].junitFileNum == i + 1
      invariant ImageRuns(images, order, targets)
      invariant forall i :: 0 <= i < h ==>
        targets[|order| + i] == HostTarget(hosts[i], flags.cleanup, flags.setupNode, |order| + i + 1)
    {
      running := running + 1;
      targets := targets + [HostTarget(hosts[h], flags.cleanup, flags.setupNode, running)];
    }
  }

  /** Number of results with a non-nil error. */
  function ErrCount(results: seq<TestResult>): (n: nat)
    ensures n <= |results|
    decreases |results|
  {
    if results == [] then 0
    else ErrCount(results[..|results| - 1]) + (if results[|results| - 1].err.Some? then 1 else 0)
  }

  /** Every result passed. */
  predicate AllExitOk(results: seq<TestResult>)
    ensures AllExitOk(results) ==> forall i :: 0 <= i < |results| ==> results[i].exitOk
    decreases |results|
  {
    results == [] || (AllExitOk(results[..|results| - 1]) && results[|results| - 1].exitOk)
  }

  /** The block printed for one result: "Success" exactly when its error is nil. */
  datatype Report = Report(host: string, output: string, err: Option<Error>, success: bool)

  function ReportOf(tr: TestResult): (r: Report)
    ensures r.success <==> tr.err == None
    ensures r.host == tr.host && r.output == tr.output && r.err == tr.err
  {
    Report(tr.host, tr.output, tr.err, tr.err.None?)
  }

  /** The receive loop of `main`. `arrivals` are the results of the
      `running` runs in the order they reach the channel. */
  method Collect(running: nat, arrivals: seq<TestResult>)
    returns (errCount: nat, exitOk: bool, reports: seq<Report>)
    requires |arrivals| == running
    ensures errCount == ErrCount(arrivals)
    ensures exitOk == AllExitOk(arrivals)
    ensures |reports| == running
    ensures forall i :: 0 <= i < running ==> reports[i] == ReportOf(arrivals[i])
  {
    errCount, exitOk, reports := 0, true, [];
    for i := 0 to running
      invariant errCount == ErrCount(arrivals[..i])
      invariant exitOk == AllExitOk(arrivals[..i])
      invariant |reports| == i
      invariant forall j :: 0 <= j < i ==> reports[j] == ReportOf(arrivals[j])
    {
      var tr := arrivals[i];
      assert arrivals[..i + 1][..i] == arrivals[..i];
      if tr.err.Some? {
        errCount := errCount + 1;
      }
      reports := reports + [ReportOf(tr)];
      exitOk := exitOk && tr.exitOk;
    }
    assert arrivals[..running] == arrivals;
  }

  lemma {:induction false} AllExitOkIff(results: seq<TestResult>)
    ensures AllExitOk(results) <==> forall i :: 0 <= i < |results| ==> results[i].exitOk
    decreases |results|
  {
    if results != [] {
      var init := results[..|results| - 1];
      AllExitOkIff(init);
      assert forall i :: 0 <= i < |init| ==> init[i] == results[i];
    }
  }

  lemma {:induction false} ErrCountNone(results: seq<TestResult>)
    ensures ErrCount(results) == 0 <==> forall i :: 0 <= i < |results| ==> results[i].err.None?
    decreases |results|
  {
    if results != [] {
      var init := results[..|results| - 1];
      ErrCountNone(init);
      assert forall i :: 0 <= i < |init| ==> init[i] == results[i];
    }
  }

  lemma {:induction false} ErrCountAppend(a: seq<TestResult>, b: seq<TestResult>)
    ensures ErrCount(a + b) == ErrCount(a) + ErrCount(b)
    ensures AllExitOk(a + b) == (AllExitOk(a) && AllExitOk(b))
    decreases |b|
  {
    if b == [] {
      assert a + b == a;
    } else {
      var init := b[..|b| - 1];
      ErrCountAppend(a, init);
      assert (a + b)[..|a + b| - 1] == a + init;
    }
  }

  /** The error count and the overall verdict depend only on which results
      arrived, not on the order they arrived in. */
  lemma {:induction false} SummaryIgnoresOrder(a: seq<TestResult>, b: seq<TestResult>)
    requires multiset(a) == multiset(b)
    ensures ErrCount(a) == ErrCount(b)
    ensures AllExitOk(a) == AllExitOk(b)
    decreases |a|
  {
    if a == [] {
      assert |b| == |multiset(b)| == 0;
    } else {
      var n := |a|;
      var x := a[n - 1];
      assert a == a[..n - 1] + [x];
      assert x in multiset(b);
      var j :| 0 <= j < |b| && b[j] == x;
      assert b == b[..j] + [x] + b[j + 1..];
      var rest := b[..j] + b[j + 1..];
      assert multiset(b) == multiset(b[..j]) + multiset([x]) + multiset(b[j + 1..]);
      assert multiset(rest) == multiset(b[..j]) + multiset(b[j + 1..]);
      assert multiset(a) == multiset(a[..n - 1]) + multiset([x]);
      assert multiset(rest) == multiset(b) - multiset([x]);
      assert multiset(a[..n - 1]) == multiset(a) - multiset([x]);
      SummaryIgnoresOrder(a[..n - 1], rest);
      ErrCountAppend(a[..n - 1], [x]);
      ErrCountAppend(b[..j], [x]);
      ErrCountAppend(b[..j] + [x], b[j + 1..]);
      ErrCountAppend(b[..j], b[j + 1..]);
      assert ErrCount([x]) == ErrCount([]) + (if x.err.Some? then 1 else 0);
      assert AllExitOk([x]) == x.exitOk;
    }
  }

  /** How `main` ends: the exit code, and whether the deferred
      `deleteArchive` runs (`os.Exit(1)` skips deferred calls). */
  datatype Exit = Exit(code: nat, archiveDeleted: bool)

  function Epilogue(exitOk: bool): (e: Exit)
    ensures e.code == 0 || e.code == 1
    ensures e.code == 1 <==> !exitOk
    ensures e.archiveDeleted <==> exitOk
  {
    if !exitOk then Exit(1, false) else Exit(0, true)
  }

  /** The process exits 0 exactly when every result passed. */
  lemma ExitCodeReflectsEveryResult(results: seq<TestResult>)
    ensures Epilogue(AllExitOk(results)).code == 0 <==> forall i :: 0 <= i < |results| ==> results[i].exitOk
  {
    AllExitOkIff(results);
  }
}
