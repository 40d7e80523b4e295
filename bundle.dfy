/** The test archive (run_e2e.go: `Archive`, `getArchive`, `deleteArchive`).
    The archive is built on the first request and every request, first or
    not, gets the same path and error. `sync.Once` becomes the `built` flag. */
module Bundle {
  import opened Wrappers
  import opened Runner

  /** What `CreateTestArchive` returns: the archive's path and an error. */
  datatype ArchiveResult = ArchiveResult(path: string, err: Option<Error>)

  class Archive {
    var built: bool
    var path: string
    var err: Option<Error>
    /** How many times the archive builder has run. */
    ghost var builds: nat

    /** The builder has run at most once, and has run exactly when the
        cached pair is set. */
    ghost predicate Valid()
      reads this
    {
      builds <= 1 && (built <==> builds == 1)
    }

    /** The cached pair; meaningful once built. */
    function Cached(): ArchiveResult
      reads this
    {
      ArchiveResult(path, err)
    }

    constructor ()
      ensures Valid() && !built && builds == 0
    {
      built, path, err := false, "", None;
      builds := 0;
    }

    /** `getArchive`. `created` is what `CreateTestArchive` would return if
        it ran now; it is used only on the first call. */
    method GetArchive(created: ArchiveResult) returns (r: ArchiveResult)
      requires Valid()
      modifies this
      ensures Valid() && built && builds == 1
      ensures r == Cached()
      ensures old(built) ==> r == old(Cached()) && builds == old(builds)
      ensures !old(built) ==> r == created
    {
      if !built {
        path, err := created.path, created.err;
        built := true;
        builds := builds + 1;
      }
      r := ArchiveResult(path, err);
    }

    /** `deleteArchive`: fetches the archive like any caller, then removes
        its path unless building it failed. Returns the path removed. */
    method DeleteArchive(created: ArchiveResult) returns (removed: Option<string>)
      requires Valid()
      modifies this
      ensures Valid() && built && builds == 1
      ensures old(built) ==> Cached() == old(Cached())
      ensures !old(built) ==> Cached() == created
      ensures removed == if err == None then Some(path) else None
    {
      var r := GetArchive(created);
      if r.err.Some? {
        return None;
      }
      removed := Some(r.path);
    }
  }
}
