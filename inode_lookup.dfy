/** `_get_pid_of_inode` in check_netstat/check_netstat.py: which process owns a socket,
    found by scanning the file-descriptor links of every process, and the `readlink`
    of that process's `exe` that every table scan does next.

    The file system is an input: the glob over every `/proc/<pid>/fd/<fd>` link is a sequence of
    entries in the order the scan returns them, each with the link target or `None`
    when reading the link raised; the `exe` links are a map from link path to target. */
module InodeLookup {
  import opened Wrappers
  import opened Strings

  /** One file-descriptor path and what `os.readlink` gave for it (`None`: it raised). */
  datatype FdEntry = FdEntry(path: string, target: Option<string>)

  /** `item.split('/')[2]`: the pid component of `/proc/<pid>/fd/<fd>`. */
  function PidOfPath(path: string): Result<string>
  {
    At(Split(path, {'/'}), 2)
  }

  /** The body of the `try` returns for this entry: the link could be read, its target
      contains the inode text, and the path has a third component. Anything else the
      body raises is swallowed and the scan moves on. */
  predicate Matches(e: FdEntry, inode: string)
  {
    e.target.Some? && Contains(e.target.value, inode) && PidOfPath(e.path).Success?
  }

  /** The scan's answer: the pid of the first matching entry, `None` when none matches. */
  function PidOfInode(entries: seq<FdEntry>, inode: string): Option<string>
  {
    if |entries| == 0 then None
    else if Matches(entries[0], inode) then Some(PidOfPath(entries[0].path).value)
    else PidOfInode(entries[1..], inode)
  }

  /** Entry `k` is the first one that matches. */
  predicate FirstMatchAt(entries: seq<FdEntry>, inode: string, k: int)
  {
    0 <= k < |entries| && Matches(entries[k], inode)
    && forall j :: 0 <= j < k ==> !Matches(entries[j], inode)
  }

  /** `_get_pid_of_inode`: the loop with its early return. */
  method GetPidOfInode(entries: seq<FdEntry>, inode: string) returns (pid: Option<string>)
    ensures pid == PidOfInode(entries, inode)
  {
    for i := 0 to |entries|
      invariant PidOfInode(entries, inode) == PidOfInode(entries[i..], inode)
    {
      assert entries[i..][1..] == entries[i + 1..];
      var item := entries[i];
      if item.target.Some? && Contains(item.target.value, inode) {
        var components := Split(item.path, {'/'});
        if |components| > 2 {
          return Some(components[2]);
        }
      }
    }
    return None;
  }

  /** The scan returns the pid of the first matching entry. */
  lemma {:induction false} PidOfFirstMatch(entries: seq<FdEntry>, inode: string, k: int)
    requires FirstMatchAt(entries, inode, k)
    ensures PidOfInode(entries, inode) == Some(PidOfPath(entries[k].path).value)
    decreases k
  {
    if k > 0 {
      assert !Matches(entries[0], inode);
      assert FirstMatchAt(entries[1..], inode, k - 1) by {
        forall j | 0 <= j < k - 1
          ensures !Matches(entries[1..][j], inode)
        {
          assert entries[1..][j] == entries[j + 1];
        }
      }
      PidOfFirstMatch(entries[1..], inode, k - 1);
    }
  }

  /** Any pid the scan returns comes from the first matching entry. */
  lemma {:induction false} PidComesFromFirstMatch(entries: seq<FdEntry>, inode: string)
    requires PidOfInode(entries, inode).Some?
    ensures exists k :: FirstMatchAt(entries, inode, k)
                        && PidOfInode(entries, inode) == Some(PidOfPath(entries[k].path).value)
  {
    if Matches(entries[0], inode) {
      assert FirstMatchAt(entries, inode, 0);
    } else {
      PidComesFromFirstMatch(entries[1..], inode);
      var k :| FirstMatchAt(entries[1..], inode, k)
               && PidOfInode(entries[1..], inode) == Some(PidOfPath(entries[1..][k].path).value);
      assert FirstMatchAt(entries, inode, k + 1) by {
        forall j | 0 <= j < k + 1
          ensures !Matches(entries[j], inode)
        {
          if j > 0 {
            assert entries[j] == entries[1..][j - 1];
          }
        }
      }
    }
  }

  /** `None` exactly when no entry matches. */
  lemma {:induction false} NoPidIffNoMatch(entries: seq<FdEntry>, inode: string)
    ensures PidOfInode(entries, inode).None?
        <==> forall k :: 0 <= k < |entries| ==> !Matches(entries[k], inode)
  {
    if PidOfInode(entries, inode).Some? {
      PidComesFromFirstMatch(entries, inode);
    } else if |entries| > 0 {
      NoPidIffNoMatch(entries[1..], inode);
      forall k | 0 < k < |entries|
        ensures !Matches(entries[k], inode)
      {
        assert entries[k] == entries[1..][k - 1];
      }
    }
  }

  /** An entry whose link cannot be read never ends the scan and never changes its
      answer, wherever it sits. */
  lemma {:induction false} UnreadableEntryIgnored(before: seq<FdEntry>, path: string, after: seq<FdEntry>, inode: string)
    ensures PidOfInode(before + [FdEntry(path, None)] + after, inode) == PidOfInode(before + after, inode)
    decreases |before|
  {
    if |before| == 0 {
      assert before + [FdEntry(path, None)] + after == [FdEntry(path, None)] + after;
      assert ([FdEntry(path, None)] + after)[1..] == after;
      assert before + after == after;
    } else {
      assert (before + [FdEntry(path, None)] + after)[1..] == before[1..] + [FdEntry(path, None)] + after;
      assert (before + after)[1..] == before[1..] + after;
      UnreadableEntryIgnored(before[1..], path, after, inode);
    }
  }

  lemma ProcPathComponents(pid: string, fd: string)
    ensures "/proc/" + pid + "/fd/" + fd == Join(["", "proc", pid, "fd", fd], '/')
  {
    assert Join(["fd", fd], '/') == "fd/" + fd;
    assert Join([pid, "fd", fd], '/') == pid + "/fd/" + fd;
    assert Join(["proc", pid, "fd", fd], '/') == "proc/" + pid + "/fd/" + fd;
  }

  /** For a path the scan produces, `/proc/<pid>/fd/<fd>`, the component taken is the pid. */
  lemma PidOfProcPath(pid: string, fd: string)
    requires forall i :: 0 <= i < |pid| ==> pid[i] != '/'
    requires forall i :: 0 <= i < |fd| ==> fd[i] != '/'
    ensures PidOfPath("/proc/" + pid + "/fd/" + fd) == Success(pid)
  {
    ProcPathComponents(pid, fd);
    var parts := ["", "proc", pid, "fd", fd];
    forall k, i | 0 <= k < |parts| && 0 <= i < |parts[k]|
      ensures parts[k][i] != '/'
    {
    }
    SplitOfJoin(parts, '/');
  }

  /** The test is a substring search, not an equality: the link `socket:[<n>]` of a
      socket whose inode number `n` merely starts with the one sought also matches. */
  lemma LongerInodeMatches(inode: string, more: string)
    ensures Contains("socket:[" + inode + more + "]", inode)
  {
    assert OccursAt("socket:[" + inode + more + "]", inode, 8);
  }

  /** So a process holding such a socket is reported when its entry comes first. */
  lemma LongerInodeReported(pid: string, fd: string, inode: string, more: string, rest: seq<FdEntry>)
    requires forall i :: 0 <= i < |pid| ==> pid[i] != '/'
    requires forall i :: 0 <= i < |fd| ==> fd[i] != '/'
    ensures PidOfInode([FdEntry("/proc/" + pid + "/fd/" + fd, Some("socket:[" + inode + more + "]"))] + rest, inode)
         == Some(pid)
  {
    LongerInodeMatches(inode, more);
    PidOfProcPath(pid, fd);
  }

  // ---------------------------------------------------------------------------
  // The process name

  /** The link every table scan reads to name the process. */
  function ExePath(pid: string): string
  {
    "/proc/" + pid + "/exe"
  }

  /** `os.readlink('/proc/'+pid+'/exe')` with any failure swallowed: `None` when there
      is no pid (the concatenation raises) or the link cannot be read. */
  function ReadExe(pid: Option<string>, exeLinks: map<string, string>): (exe: Option<string>)
    ensures pid.None? ==> exe.None?
    ensures exe.Some? <==> pid.Some? && ExePath(pid.value) in exeLinks
    ensures exe.Some? ==> exe.value == exeLinks[ExePath(pid.value)]
  {
    if pid.Some? && ExePath(pid.value) in exeLinks then Some(exeLinks[ExePath(pid.value)]) else None
  }
}
