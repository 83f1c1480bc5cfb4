/**
 The system calls that r1-filectl makes on the card, one at a time.

 Every call either has its effect or fails and changes nothing; it may always fail for a reason
 of its own (`faults` counts those failures), but it never reports ENOENT or EEXIST wrongly.
 `log` lists the trees at the system call boundaries, so each of its elements is a state that an
 interruption can leave behind (`Crash`). One process at a time changes the card: it holds the lock.
 */
module Syscalls {
  import opened Bytes
  import opened Paths
  import opened Tree

  function Last(p: Path): Name
    requires p != []
  {
    p[|p| - 1]
  }

  /** Why the kernel refuses a rename, if it does. */
  function RenameError(fs: Fs, src: Path, dst: Path, noreplace: bool): Option<Errno>
    requires dst != []
  {
    if |Last(dst)| > NAME_MAX then Some(ENAMETOOLONG)
    else if src !in fs then Some(ENOENT)
    else if noreplace && dst in fs then Some(EEXIST)
    else if src == dst then None
    else if src <= dst then Some(EINVAL)
    else if dst <= src then Some(ENOTEMPTY)
    else if dst !in fs then None
    else if fs[src].Dir? && !fs[dst].Dir? then Some(ENOTDIR)
    else if !fs[src].Dir? && fs[dst].Dir? then Some(EISDIR)
    else if !Bare(fs, dst) then Some(ENOTEMPTY)
    else None
  }

  class Card {
    var fs: Fs
    var faults: nat
    const hasRenameat2: bool
    var log: seq<Fs>

    ghost predicate Valid()
      reads this
    {
      WellFormed(fs) && forall k | 0 <= k < |log| :: WellFormed(log[k])
    }

    constructor (fs: Fs, hasRenameat2: bool)
      requires WellFormed(fs)
      ensures Valid() && this.fs == fs && this.hasRenameat2 == hasRenameat2 && faults == 0 && log == []
    {
      this.fs, this.faults, this.hasRenameat2, this.log := fs, 0, hasRenameat2, [];
    }

    /** Power is lost after so many of the system calls made since the log had length n. */
    method Crash(n: nat, before: Fs, calls: nat)
      requires Valid() && n + calls <= |log| && WellFormed(before)
      modifies this`fs
      ensures Valid()
      ensures fs == if calls == 0 then before else log[n + calls - 1]
    {
      fs := if calls == 0 then before else log[n + calls - 1];
    }

    /** A failure that has nothing to do with the tree. */
    method Fault() returns (error: Option<Errno>)
      modifies this`faults
      ensures error.Some? ==> faults == old(faults) + 1 && error.value !in {ENOENT, EEXIST}
      ensures error.None? ==> faults == old(faults)
    {
      if * {
        var e: Errno :| e !in {ENOENT, EEXIST};
        faults := faults + 1;
        return Some(e);
      }
      return None;
    }

    method Fstatat(p: Path) returns (error: Option<Errno>)
      modifies this`faults
      ensures error == None ==> p in fs
      ensures error == Some(ENOENT) ==> p !in fs && (p == [] || |Last(p)| <= NAME_MAX)
      ensures faults >= old(faults)
      ensures faults == old(faults) ==>
                error == (if p != [] && |Last(p)| > NAME_MAX then Some(ENAMETOOLONG)
                          else if p in fs then None else Some(ENOENT))
    {
      error := Fault();
      if error.None? {
        error := if p != [] && |Last(p)| > NAME_MAX then Some(ENAMETOOLONG)
                 else if p in fs then None else Some(ENOENT);
      }
    }

    /** openat with O_DIRECTORY and O_NOFOLLOW */
    method OpenDirectoryAt(p: Path) returns (error: Option<Errno>)
      modifies this`faults
      ensures error == None ==> IsDir(fs, p)
      ensures error == Some(ENOENT) ==> p !in fs
      ensures faults >= old(faults)
      ensures faults == old(faults) ==>
                error == (if p !in fs then Some(ENOENT) else if fs[p].Dir? then None else Some(ENOTDIR))
    {
      error := Fault();
      if error.None? {
        error := if p !in fs then Some(ENOENT) else if fs[p].Dir? then None else Some(ENOTDIR);
      }
    }

    method Mkdirat(p: Path) returns (error: Option<Errno>)
      requires Valid() && p != [] && IsDir(fs, Up(p))
      modifies this`fs, this`faults, this`log
      ensures Valid()
      ensures error == None ==> p !in old(fs) && fs == old(fs)[p := Dir] && log == old(log) + [fs]
      ensures error != None ==> fs == old(fs) && log == old(log)
      ensures error == Some(EEXIST) ==> p in fs
      ensures faults >= old(faults)
      ensures faults == old(faults) && |Last(p)| <= NAME_MAX ==>
                error == (if p in old(fs) then Some(EEXIST) else None)
    {
      hide WellFormed;
      error := Fault();
      if error.None? {
        if |Last(p)| > NAME_MAX {
          error := Some(ENAMETOOLONG);
        } else if p in fs {
          error := Some(EEXIST);
        } else {
          AddedIsWellFormed(fs, p, Dir);
          fs := fs[p := Dir];
          log := log + [fs];
        }
      }
    }

    /** openat with O_CREAT and O_EXCL */
    method CreateFile(p: Path) returns (error: Option<Errno>)
      requires Valid() && p != [] && IsDir(fs, Up(p))
      modifies this`fs, this`faults, this`log
      ensures Valid()
      ensures error == None ==> p !in old(fs) && fs == old(fs)[p := File([])] && log == old(log) + [fs]
      ensures error != None ==> fs == old(fs) && log == old(log)
      ensures faults >= old(faults)
      ensures faults == old(faults) && p !in old(fs) && |Last(p)| <= NAME_MAX ==> error == None
    {
      hide WellFormed;
      error := Fault();
      if error.None? {
        if |Last(p)| > NAME_MAX {
          error := Some(ENAMETOOLONG);
        } else if p in fs {
          error := Some(EEXIST);
        } else {
          AddedIsWellFormed(fs, p, File([]));
          fs := fs[p := File([])];
          log := log + [fs];
        }
      }
    }

    /** write: appends a prefix of the text, all of it unless something goes wrong. */
    method Write(p: Path, text: seq<byte>) returns (count: nat)
      requires Valid() && p in fs && fs[p].File?
      modifies this`fs, this`faults, this`log
      ensures Valid()
      ensures count <= |text|
      ensures fs == old(fs)[p := File(old(fs)[p].content + text[..count])] && log == old(log) + [fs]
      ensures faults >= old(faults)
      ensures faults == old(faults) ==> count == |text|
    {
      hide WellFormed;
      count := |text|;
      if * {
        count :| 0 <= count <= |text|;
        faults := faults + 1;
      }
      RewrittenIsWellFormed(fs, p, fs[p].content + text[..count]);
      fs := fs[p := File(fs[p].content + text[..count])];
      log := log + [fs];
    }

    /** read of a whole file */
    method ReadFile(p: Path) returns (content: Result<seq<byte>>)
      modifies this`faults
      ensures content.Ok? ==> p in fs && fs[p] == File(content.value)
      ensures faults >= old(faults)
      ensures faults == old(faults) && p in fs && fs[p].File? ==> content.Ok?
    {
      var error := Fault();
      if error.Some? {
        return Err(error.value);
      }
      if p !in fs || !fs[p].File? {
        return Err(if p in fs then EINVAL else ENOENT);
      }
      return Ok(fs[p].content);
    }

    /** unlinkat without AT_REMOVEDIR */
    method Unlinkat(p: Path) returns (error: Option<Errno>)
      requires Valid()
      modifies this`fs, this`faults, this`log
      ensures Valid()
      ensures error == None ==>
                p in old(fs) && !old(fs)[p].Dir? && fs == old(fs) - {p} && log == old(log) + [fs]
      ensures error != None ==> fs == old(fs) && log == old(log)
      ensures faults >= old(faults)
      ensures faults == old(faults) && p in old(fs) && !old(fs)[p].Dir? ==> error == None
    {
      hide WellFormed;
      hide Bare;
      TopIsDir(fs);
      error := Fault();
      if error.None? {
        if p !in fs {
          error := Some(ENOENT);
        } else if fs[p].Dir? {
          error := Some(EISDIR);
        } else {
          OnlyDirsHaveEntries(fs, p);
          RemovedIsWellFormed(fs, p);
          fs := fs - {p};
          log := log + [fs];
        }
      }
    }

    /** unlinkat with AT_REMOVEDIR */
    method Rmdir(p: Path) returns (error: Option<Errno>)
      requires Valid() && p != []
      modifies this`fs, this`faults, this`log
      ensures Valid()
      ensures error == None ==>
                IsDir(old(fs), p) && Bare(old(fs), p) && fs == old(fs) - {p} && log == old(log) + [fs]
      ensures error != None ==> fs == old(fs) && log == old(log)
      ensures faults >= old(faults)
      ensures faults == old(faults) && IsDir(old(fs), p) ==>
                error == (if Bare(old(fs), p) then None else Some(ENOTEMPTY))
    {
      hide WellFormed;
      hide Bare;
      error := Fault();
      if error.None? {
        if p !in fs {
          error := Some(ENOENT);
        } else if !fs[p].Dir? {
          error := Some(ENOTDIR);
        } else if !Bare(fs, p) {
          error := Some(ENOTEMPTY);
        } else {
          RemovedIsWellFormed(fs, p);
          fs := fs - {p};
          log := log + [fs];
        }
      }
    }

    /** renameat, or renameat2 with RENAME_NOREPLACE where the kernel has it */
    method Renameat(src: Path, dst: Path, noreplace: bool) returns (error: Option<Errno>)
      requires Valid() && src != [] && dst != [] && IsDir(fs, Up(src)) && IsDir(fs, Up(dst))
      modifies this`fs, this`faults, this`log
      ensures Valid()
      ensures error == None ==>
                && RenameError(old(fs), src, dst, noreplace) == None
                && (if src == dst then fs == old(fs) && log == old(log)
                    else fs == Renamed(old(fs), src, dst) && log == old(log) + [fs])
      ensures error != None ==> fs == old(fs) && log == old(log)
      ensures error == Some(ENOENT) ==> src !in fs
      ensures error == Some(EEXIST) ==> noreplace && dst in fs
      ensures faults >= old(faults)
      ensures faults == old(faults) ==>
                error == if noreplace && !hasRenameat2 then Some(ENOSYS)
                         else RenameError(old(fs), src, dst, noreplace)
    {
      hide Renamed;
      error := Fault();
      if error.None? {
        if noreplace && !hasRenameat2 {
          error := Some(ENOSYS);
        } else {
          error := RenameError(fs, src, dst, noreplace);
          if error.None? && src != dst {
            if dst !in fs || !fs[dst].Dir? {
              OnlyDirsHaveEntries(fs, dst);
            }
            RenamedIsWellFormed(fs, src, dst);
            fs := Renamed(fs, src, dst);
            log := log + [fs];
          }
        }
      }
    }

    // ---- The helpers of r1_filectl.c on top of them ----

    /** rename_noreplace, with its fallback for kernels and file systems without the flag */
    method RenameNoreplace(src: Path, dst: Path) returns (error: Option<Errno>)
      requires Valid() && src != [] && dst != [] && IsDir(fs, Up(src)) && IsDir(fs, Up(dst))
      modifies this`fs, this`faults, this`log
      ensures Valid()
      ensures error == None ==>
                && src in old(fs) && dst !in old(fs) && !(src <= dst)
                && RenameError(old(fs), src, dst, false) == None
                && fs == Renamed(old(fs), src, dst) && log == old(log) + [fs]
      ensures error != None ==> fs == old(fs) && log == old(log)
      ensures faults >= old(faults)
      ensures faults == old(faults) ==> (error == None <==> RenameError(old(fs), src, dst, true) == None)
    {
      hide Renamed;
      error := Renameat(src, dst, true);
      if error == Some(ENOSYS) || error == Some(EINVAL) {
        var existing := Fstatat(dst);
        if existing.None? {
          return Some(EEXIST);
        }
        if existing != Some(ENOENT) {
          return existing;
        }
        OnlyDirsHaveEntries(fs, dst);
        error := Renameat(src, dst, false);
      }
    }
  }
}
