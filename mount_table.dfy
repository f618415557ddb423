/** `valid_mount_point` and the threshold logic of `main` in check_disk.py: a mount
    point is accepted when `/proc/mounts` lists it with a file-system type outside a
    fixed exclusion list; the usage percentage is then compared with two integer
    thresholds. */
module MountTable {
  import opened Wrappers
  import opened Strings
  import opened Plugin

  /** `exclude_fstypes`: pseudo and virtual file systems, in the source's order. */
  const ExcludedFsTypes: seq<string> := [
    "sysfs", "proc", "devtmpfs", "devpts", "tmpfs",
    "securityfs", "cgroup", "efivarfs", "autofs", "debugfs", "mqueue",
    "hugetlbfs", "fusectl", "rpc_pipefs", "nfsd", "binfmt_misc",
    "fuse.gvfsd-fuse", "pstore"
  ]

  /** `output[:-1].split('\n')`: the final character of the table (its newline) is
      dropped, then the text is cut at every newline. An empty table gives one empty
      line. */
  function MountLines(contents: string): (lines: seq<string>)
    ensures |lines| >= 1
  {
    Split(DropLast(contents), {'\n'})
  }

  /** A line that has the three columns the loop unpacks (device, mount, type). */
  predicate WellFormed(line: string)
  {
    |Fields(line)| >= 3
  }

  /** A line that puts `mountPoint` in `valid_mounts`. */
  predicate Accepts(line: string, mountPoint: string)
  {
    WellFormed(line) && Fields(line)[1] == mountPoint && Fields(line)[2] !in ExcludedFsTypes
  }

  /** `valid_mounts` after the loop has seen `lines`; a line with fewer than three
      columns raises IndexError. */
  function ValidMounts(lines: seq<string>): Result<seq<string>>
  {
    if |lines| == 0 then Success([])
    else
      var mounts :- ValidMounts(lines[..|lines| - 1]);
      var fields := Fields(lines[|lines| - 1]);
      if |fields| < 3 then Failure(IndexError)
      else if fields[2] in ExcludedFsTypes then Success(mounts)
      else Success(mounts + [fields[1]])
  }

  /** The answer of `valid_mount_point` for the given table lines. */
  function CheckMounts(mountPoint: string, lines: seq<string>): Result<bool>
  {
    var mounts :- ValidMounts(lines);
    Success(mountPoint in mounts)
  }

  /** `valid_mount_point(mount_point)` over the text of `/proc/mounts`. */
  function IsValidMountPoint(mountPoint: string, contents: string): Result<bool>
  {
    CheckMounts(mountPoint, MountLines(contents))
  }

  /** `valid_mount_point` as the source runs it: the loop that collects the mounts,
      then the membership test. */
  method ValidMountPoint(mountPoint: string, contents: string) returns (valid: Result<bool>)
    ensures valid == IsValidMountPoint(mountPoint, contents)
  {
    var validMounts: seq<string> := [];
    var lines := MountLines(contents);
    for i := 0 to |lines|
      invariant ValidMounts(lines[..i]) == Success(validMounts)
    {
      assert lines[..i + 1][..i] == lines[..i];
      var fields := Fields(lines[i]);
      if |fields| < 3 {
        ValidMountsFailureSticks(lines, i + 1);
        return Failure(IndexError);
      }
      var mount, fstype := fields[1], fields[2];
      if fstype !in ExcludedFsTypes {
        validMounts := validMounts + [mount];
      }
    }
    assert lines[..|lines|] == lines;
    return Success(mountPoint in validMounts);
  }

  /** Once the loop has raised, the whole check has raised. */
  lemma {:induction false} ValidMountsFailureSticks(lines: seq<string>, k: nat)
    requires k <= |lines| && ValidMounts(lines[..k]).Failure?
    ensures ValidMounts(lines) == ValidMounts(lines[..k])
    decreases |lines|
  {
    if k < |lines| {
      var init := lines[..|lines| - 1];
      assert init[..k] == lines[..k];
      ValidMountsFailureSticks(init, k);
    } else {
      assert lines[..k] == lines;
    }
  }

  // ---------------------------------------------------------------------------
  // What the loop computes

  /** The loop succeeds exactly when every line has three columns, and then collects
      precisely the mount columns of the lines whose type is not excluded. */
  lemma {:induction false} ValidMountsMeaning(lines: seq<string>)
    ensures ValidMounts(lines).Success? <==> forall line :: line in lines ==> WellFormed(line)
    ensures ValidMounts(lines).Failure? ==> ValidMounts(lines).error == IndexError
    ensures ValidMounts(lines).Success? ==>
      forall mountPoint :: mountPoint in ValidMounts(lines).value
        <==> exists line :: line in lines && Accepts(line, mountPoint)
  {
    if |lines| > 0 {
      var init := lines[..|lines| - 1];
      var last := lines[|lines| - 1];
      assert lines == init + [last];
      assert forall line :: line in lines <==> line in init || line == last;
      ValidMountsMeaning(init);
      assert ValidMounts(lines).Success? <==> ValidMounts(init).Success? && WellFormed(last);
      if ValidMounts(lines).Success? {
        var mounts := ValidMounts(init).value;
        forall mountPoint
          ensures mountPoint in ValidMounts(lines).value
              <==> exists line :: line in lines && Accepts(line, mountPoint)
        {
          if mountPoint in mounts {
            var line :| line in init && Accepts(line, mountPoint);
            assert line in lines;
          }
          if Accepts(last, mountPoint) {
            assert last in lines;
          }
          if exists line :: line in lines && Accepts(line, mountPoint) {
            var line :| line in lines && Accepts(line, mountPoint);
            assert line in init || line == last;
          }
        }
      }
    }
  }

  /** `valid_mount_point` is true exactly when every line has three columns and some
      line lists `mountPoint` with a type outside the exclusion list; it raises
      IndexError exactly when some line has fewer than three columns. */
  lemma CheckMountsMeaning(mountPoint: string, lines: seq<string>)
    ensures CheckMounts(mountPoint, lines) == Success(true)
        <==> (forall line :: line in lines ==> WellFormed(line))
             && exists line :: line in lines && Accepts(line, mountPoint)
    ensures CheckMounts(mountPoint, lines) == Success(false)
        <==> (forall line :: line in lines ==> WellFormed(line))
             && forall line :: line in lines ==> !Accepts(line, mountPoint)
    ensures CheckMounts(mountPoint, lines) == Failure(IndexError)
        <==> exists line :: line in lines && !WellFormed(line)
  {
    ValidMountsMeaning(lines);
  }

  /** The order of the table does not matter. */
  lemma MountOrderIrrelevant(mountPoint: string, lines: seq<string>, reordered: seq<string>)
    requires multiset(lines) == multiset(reordered)
    ensures CheckMounts(mountPoint, lines) == CheckMounts(mountPoint, reordered)
  {
    assert forall line :: line in lines <==> line in multiset(lines);
    assert forall line :: line in reordered <==> line in multiset(reordered);
    CheckMountsMeaning(mountPoint, lines);
    CheckMountsMeaning(mountPoint, reordered);
  }

  /** A mount point listed only with excluded types, however many times, is never
      valid. */
  lemma ExcludedOnlyNeverValid(mountPoint: string, lines: seq<string>)
    requires forall line :: line in lines && WellFormed(line) && Fields(line)[1] == mountPoint
               ==> Fields(line)[2] in ExcludedFsTypes
    ensures CheckMounts(mountPoint, lines) != Success(true)
  {
    CheckMountsMeaning(mountPoint, lines);
  }

  /** Only the mount column is compared: when no line has `mountPoint` there, the
      answer is false even if a device column equals it. */
  lemma OnlyMountColumnCounts(mountPoint: string, lines: seq<string>)
    requires forall line :: line in lines ==> WellFormed(line) && Fields(line)[1] != mountPoint
    ensures CheckMounts(mountPoint, lines) == Success(false)
  {
    CheckMountsMeaning(mountPoint, lines);
  }

  /** Appending lines that list `mountPoint` with an accepted type makes it valid,
      provided the whole table is well formed: one accepting entry is enough. */
  lemma OneAcceptingEntryEnough(mountPoint: string, lines: seq<string>, line: string)
    requires forall l :: l in lines ==> WellFormed(l)
    requires Accepts(line, mountPoint)
    ensures CheckMounts(mountPoint, lines + [line]) == Success(true)
  {
    assert line in lines + [line];
    assert forall l :: l in lines + [line] ==> l in lines || l == line;
    CheckMountsMeaning(mountPoint, lines + [line]);
  }

  /** An empty table still yields one (empty) line, which raises. */
  lemma EmptyTableRaises(mountPoint: string)
    ensures IsValidMountPoint(mountPoint, "") == Failure(IndexError)
  {
    var lines := MountLines("");
    assert lines == Split("", {'\n'});
    assert lines == [""];
    assert !WellFormed("");
  }

  // ---------------------------------------------------------------------------
  // Alerting

  /** The three usage tests of `main`, for thresholds already known to satisfy
      `warning < critical`. */
  function UsageStatus(percInUse: real, warning: int, critical: int, noalert: bool): (code: int)
    requires warning < critical
    ensures code == OK <==> noalert || percInUse <= warning as real
    ensures code == WARNING <==> !noalert && warning as real < percInUse < critical as real
    ensures code == CRITICAL <==> !noalert && critical as real <= percInUse
  {
    if percInUse <= warning as real || noalert then OK
    else if percInUse > warning as real && percInUse < critical as real then WARNING
    else CRITICAL
  }

  /** `main` from the threshold checks on. `contents` is the text of `/proc/mounts`
      (`None`: reading it failed) and `percInUse` the usage `disk_status` reports. */
  method DiskProbe(warning: int, critical: int, noalert: bool, mountPoint: string,
                   contents: Option<string>, percInUse: real)
    returns (outcome: Outcome)
    ensures warning >= critical ==> outcome == Exit(UNKNOWN)
    ensures warning < critical && contents.None? ==> outcome == Exit(UNKNOWN)
    ensures warning < critical && contents.Some? ==>
      var valid := IsValidMountPoint(mountPoint, contents.value);
      outcome == if valid.Failure? then Crash(valid.error)
                 else if !valid.value then Exit(UNKNOWN)
                 else Exit(UsageStatus(percInUse, warning, critical, noalert))
  {
    if warning > critical {
      return Exit(UNKNOWN);
    }
    if warning == critical {
      return Exit(UNKNOWN);
    }
    if contents.None? {
      return Exit(UNKNOWN);
    }
    var valid := ValidMountPoint(mountPoint, contents.value);
    if valid.Failure? {
      return Crash(valid.error);
    }
    if !valid.value {
      return Exit(UNKNOWN);
    }
    if percInUse <= warning as real || noalert {
      return Exit(OK);
    }
    if percInUse > warning as real && percInUse < critical as real {
      return Exit(WARNING);
    }
    assert percInUse >= critical as real;
    return Exit(CRITICAL);
  }
}
