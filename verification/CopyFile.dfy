/** Replacing a file by a copy (CopyRegularFile of cf-agent/verify_files_utils.c): hard links are
    preserved through the inode cache, and the old file is kept until the new one is in place. */
module CopyFile {
  import opened Common
  import opened FileSystem
  import opened CompressedArray

  // ---------------------------------------------------------------- names

  const CF_NEW: string := ".cfnew"
  const CF_SAVED: string := ".cfsaved"

  datatype BackupOption = NoBackup | Plain | Timestamp(stamp: string) | RepositoryStore

  predicate Discards(option: BackupOption) {
    option == NoBackup || option == RepositoryStore
  }

  function NewName(dest: string): string { dest + CF_NEW }

  function BackupName(dest: string, option: BackupOption): string {
    dest + (if option.Timestamp? then option.stamp else []) + CF_SAVED
  }

  lemma {:induction false} NamesDistinct(dest: string, option: BackupOption)
    ensures NewName(dest) != dest && BackupName(dest, option) != dest
    ensures NewName(dest) != BackupName(dest, option)
  {
    var n, b := NewName(dest), BackupName(dest, option);
    assert |n| == |dest| + 6 && |b| >= |dest| + 8;
  }

  // ---------------------------------------------------------------- the outside

  /** What stat(2) says about the source, and how many links it has. */
  datatype SourceStat = SourceStat(ino: nat, links: nat, size: nat)

  /** The cache is keyed by an int: only the low 32 bits of an inode number survive. */
  function CacheKey(ino: nat): int { ino % 0x1_0000_0000 }

  /** Which calls fail; `vanished` is another agent removing the new file, `verified` the outcome
      of the optional hash comparison. */
  datatype Env = Env(linkOk: bool, chunk: nat, copyStop: Option<nat>, backupOk: bool, vanished: bool,
                     verified: bool, installOk: bool, restoreOk: bool, archived: bool)

  // ---------------------------------------------------------------- frames

  /** Only the destination and its two companions changed, and no inode that existed before. */
  ghost predicate OnlyThree(a: State, b: State, dest: string, option: BackupOption) {
    && (forall n | n != dest && n != NewName(dest) && n != BackupName(dest, option) :: At(b, n) == At(a, n))
    && Grows(a, b)
  }

  lemma {:induction false} OnlyThreeChain(a: State, b: State, c: State, dest: string, option: BackupOption)
    requires OnlyThree(a, b, dest, option) && OnlyThree(b, c, dest, option)
    ensures OnlyThree(a, c, dest, option)
  {
  }

  lemma {:induction false} OnlyAtIsThree(a: State, b: State, name: string, dest: string, option: BackupOption)
    requires OnlyAt(a, b, name) && name in {dest, NewName(dest), BackupName(dest, option)}
    ensures OnlyThree(a, b, dest, option)
    ensures forall n | n != name && Read(a, n).Some? :: Read(b, n) == Read(a, n)
  {
  }

  // ---------------------------------------------------------------- no lost original

  /** The original is at the destination or at the backup, or the copy is installed. */
  ghost predicate Kept(s: State, dest: string, option: BackupOption, original: Content, copy: Content) {
    || Read(s, dest) == Some(original)
    || Read(s, BackupName(dest, option)) == Some(original)
    || Read(s, dest) == Some(copy)
  }

  ghost predicate AllKept(trace: seq<State>, from: nat, dest: string, option: BackupOption,
                          original: Content, copy: Content) {
    forall i | from <= i < |trace| :: Kept(trace[i], dest, option, original, copy)
  }

  /** The entry has moved to another name. */
  ghost predicate Moved(a: State, b: State, from: string, to: string) {
    At(a, from).Some? && At(b, from).None? && At(b, to) == At(a, from)
  }

  /** The part that copies to the new name and moves the old file aside. */
  method StageCopy(disk: Disk, source: string, dest: string, option: BackupOption, env: Env)
    returns (ok: bool, backupOk: bool)
    requires disk.Valid() && env.chunk > 0
    requires source != NewName(dest)
    modifies disk
    ensures disk.Valid() && old(disk.trace) <= disk.trace
    ensures OnlyThree(old(disk.now), disk.now, dest, option)
    ensures ok <==> env.copyStop.None? && Read(old(disk.now), source).Some?
    ensures ok ==> Read(disk.now, NewName(dest)) == Read(old(disk.now), source)
    ensures ok ==> At(disk.now, NewName(dest)) == Some(Hard(old(disk.now).next))
    ensures backupOk <==> ok && !Discards(option) && env.backupOk && dest in old(disk.now).names
    ensures if backupOk then Moved(old(disk.now), disk.now, dest, BackupName(dest, option))
            else At(disk.now, dest) == At(old(disk.now), dest)
    ensures ok && !backupOk ==>
              At(disk.now, BackupName(dest, option)) == if Discards(option) then At(old(disk.now), BackupName(dest, option)) else None
    ensures Read(old(disk.now), dest).Some? ==>
              var original := Read(old(disk.now), dest).value;
              AllKept(disk.trace, |old(disk.trace)|, dest, option, original, original)
  {
    var new', backup := NewName(dest), BackupName(dest, option);
    NamesDistinct(dest, option);
    ghost var start, mark := disk.now, |disk.trace|;
    ok := disk.CopyFile(source, new', env.chunk, env.copyStop);
    backupOk := false;
    OnlyAtIsThree(start, disk.now, new', dest, option);
    forall i | mark <= i < |disk.trace| ensures OnlyThree(start, disk.trace[i], dest, option)
      && (Read(start, dest).Some? ==> Read(disk.trace[i], dest) == Read(start, dest))
    {
      OnlyAtIsThree(start, disk.trace[i], new', dest, option);
    }
    if ok {
      ghost var copied, mid := disk.now, disk.trace;
      backupOk := MoveAside(disk, dest, option, env);
      OnlyThreeChain(start, copied, disk.now, dest, option);
      if Read(start, dest).Some? {
        KeptJoin(mid, disk.trace, mark, dest, option, Read(start, dest).value, Read(start, dest).value);
      }
    }
  }

  /** The old file moves to the backup name, where nothing else stays. */
  method MoveAside(disk: Disk, dest: string, option: BackupOption, env: Env) returns (backupOk: bool)
    requires disk.Valid()
    modifies disk
    ensures disk.Valid() && old(disk.trace) <= disk.trace
    ensures OnlyThree(old(disk.now), disk.now, dest, option) && At(disk.now, NewName(dest)) == At(old(disk.now), NewName(dest))
    ensures backupOk <==> !Discards(option) && env.backupOk && dest in old(disk.now).names
    ensures if backupOk then Moved(old(disk.now), disk.now, dest, BackupName(dest, option))
            else At(disk.now, dest) == At(old(disk.now), dest)
    ensures !backupOk ==>
              At(disk.now, BackupName(dest, option)) == if Discards(option) then At(old(disk.now), BackupName(dest, option)) else None
    ensures Read(old(disk.now), dest).Some? ==>
              var original := Read(old(disk.now), dest).value;
              AllKept(disk.trace, |old(disk.trace)|, dest, option, original, original)
  {
    NamesDistinct(dest, option);
    backupOk := false;
    if !Discards(option) {
      disk.Unlink(BackupName(dest, option));
      backupOk := disk.Rename(dest, BackupName(dest, option), env.backupOk);
    }
  }

  /** Put the backup back, ignoring failure. */
  method Restore(disk: Disk, dest: string, option: BackupOption, backupOk: bool, env: Env)
    requires disk.Valid()
    modifies disk
    ensures disk.Valid() && old(disk.trace) <= disk.trace
    ensures OnlyThree(old(disk.now), disk.now, dest, option)
    ensures var backup := BackupName(dest, option);
            if backupOk && env.restoreOk && backup in old(disk.now).names
            then disk.now == Renamed(old(disk.now), backup, dest) && disk.trace == old(disk.trace) + [disk.now]
            else disk.now == old(disk.now) && forall i | |old(disk.trace)| <= i < |disk.trace| :: disk.trace[i] == disk.now
  {
    NamesDistinct(dest, option);
    if backupOk {
      var ok := disk.Rename(BackupName(dest, option), dest, env.restoreOk);
    }
  }

  /** The new file is complete; the original, if any, is at the destination or at the backup. */
  ghost predicate Staged(s: State, dest: string, option: BackupOption, backupOk: bool,
                         original: Option<Content>, copy: Content) {
    && Read(s, NewName(dest)) == Some(copy)
    && (original.Some? ==>
          if backupOk then Read(s, BackupName(dest, option)) == original && At(s, dest).None?
          else Read(s, dest) == original)
  }

  /** Where the original ends up when the copy is not installed. */
  ghost predicate Abandoned(s: State, dest: string, option: BackupOption, backupOk: bool,
                            original: Option<Content>, env: Env) {
    original.Some? ==>
      if backupOk && (env.vanished || !env.restoreOk) then Read(s, BackupName(dest, option)) == original
      else Read(s, dest) == original
  }

  /** From the check of the new file to the end. A new file that has disappeared is the one
      failure after which the backup is not put back. */
  method Install(disk: Disk, dest: string, option: BackupOption, backupOk: bool, size: nat, env: Env,
                 ghost original: Option<Content>, ghost copy: Content)
    returns (ret: bool)
    requires disk.Valid() && Staged(disk.now, dest, option, backupOk, original, copy)
    requires At(disk.now, dest) != At(disk.now, NewName(dest))
    modifies disk
    ensures disk.Valid() && old(disk.trace) <= disk.trace
    ensures OnlyThree(old(disk.now), disk.now, dest, option)
    ensures ret <==> !env.vanished && |copy| == size && env.verified && env.installOk
    ensures ret ==> At(disk.now, dest) == At(old(disk.now), NewName(dest)) && Read(disk.now, dest) == Some(copy)
    ensures ret ==> At(disk.now, NewName(dest)) == None
    ensures ret ==> At(disk.now, BackupName(dest, option)) ==
                      if !Discards(option) && env.archived then None else At(old(disk.now), BackupName(dest, option))
    ensures ret && backupOk && !env.archived && original.Some? ==> Read(disk.now, BackupName(dest, option)) == original
    ensures !ret ==> Abandoned(disk.now, dest, option, backupOk, original, env)
    ensures original.Some? ==> AllKept(disk.trace, |old(disk.trace)|, dest, option, original.value, copy)
  {
    var new' := NewName(dest);
    NamesDistinct(dest, option);
    if env.vanished {
      disk.Unlink(new');
      return false;
    }
    ghost var start := disk.now;
    var good := |Read(disk.now, new').value| == size && env.verified;
    var installed := false;
    if good {
      installed := disk.Rename(new', dest, env.installOk);
    }
    if !installed {
      assert disk.now == start;
      Restore(disk, dest, option, backupOk, env);
      return false;
    }
    ghost var done := disk.now;
    if !Discards(option) && env.archived {
      disk.Unlink(BackupName(dest, option));
    }
    return true;
  }

  /** CopyRegularFile. A further link to an inode already copied becomes a hard link to the first
      copy (when linking fails the old file is gone and the call still returns true). Otherwise the
      original is never lost before the copy is in place, and after a failed check or install it is
      back at the destination if the restoring rename works. */
  method CopyRegularFile(disk: Disk, cache: Cache, source: string, dest: string, stat: SourceStat,
                         option: BackupOption, env: Env)
    returns (ret: bool)
    requires disk.Valid() && env.chunk > 0
    requires source != NewName(dest)
    modifies disk
    ensures disk.Valid() && old(disk.trace) <= disk.trace
    ensures OnlyThree(old(disk.now), disk.now, dest, option)
    ensures var known := Lookup(cache.cells, CacheKey(stat.ino));
            if stat.links > 1 && known.Some? && known.value != dest
            then ret && At(disk.now, dest) == if env.linkOk then At(old(disk.now), known.value) else None
            else CopyPost(old(disk.now), old(disk.trace), disk.now, disk.trace, source, dest, stat, option, env, ret)
  {
    var linkable := cache.Value(CacheKey(stat.ino));
    if stat.links > 1 && linkable.Some? && linkable.value != dest {
      disk.Unlink(dest);
      var _ := disk.Link(linkable.value, dest, env.linkOk);
      return true;
    }
    ret := CopyAndInstall(disk, source, dest, stat, option, env);
  }

  method CopyAndInstall(disk: Disk, source: string, dest: string, stat: SourceStat, option: BackupOption, env: Env)
    returns (ret: bool)
    requires disk.Valid() && env.chunk > 0 && source != NewName(dest)
    modifies disk
    ensures disk.Valid() && old(disk.trace) <= disk.trace
    ensures OnlyThree(old(disk.now), disk.now, dest, option)
    ensures CopyPost(old(disk.now), old(disk.trace), disk.now, disk.trace, source, dest, stat, option, env, ret)
  {
    ghost var start, before := disk.now, disk.trace;
    ghost var original, copy := Read(start, dest), Read(start, source);
    var ok, backupOk := StageCopy(disk, source, dest, option, env);
    if !ok {
      if original.Some? && copy.Some? { KeptEither(disk.trace, |before|, dest, option, original.value, copy.value); }
      return false;
    }
    ghost var staged, mid := disk.now, disk.trace;
    ret := Install(disk, dest, option, backupOk, stat.size, env, original, copy.value);
    OnlyThreeChain(start, staged, disk.now, dest, option);
    if original.Some? {
      KeptEither(mid, |before|, dest, option, original.value, copy.value);
      KeptJoin(mid, disk.trace, |before|, dest, option, original.value, copy.value);
    }
  }

  lemma {:induction false} KeptEither(trace: seq<State>, from: nat, dest: string, option: BackupOption,
                                      original: Content, copy: Content)
    requires AllKept(trace, from, dest, option, original, original)
    ensures AllKept(trace, from, dest, option, original, copy)
  {
  }

  lemma {:induction false} KeptJoin(mid: seq<State>, trace: seq<State>, from: nat, dest: string,
                                    option: BackupOption, original: Content, copy: Content)
    requires mid <= trace
    requires AllKept(mid, from, dest, option, original, copy)
    requires AllKept(trace, |mid|, dest, option, original, copy)
    ensures AllKept(trace, from, dest, option, original, copy)
  {
  }

  /** The copying branch as a whole. */
  ghost predicate CopyPost(before: State, trace0: seq<State>, after: State, trace: seq<State>, source: string,
                           dest: string, stat: SourceStat, option: BackupOption, env: Env, ret: bool)
  {
    var original, copy := Read(before, dest), Read(before, source);
    var aside := !Discards(option) && env.backupOk && At(before, dest).Some?;
    && (ret <==> env.copyStop.None? && copy.Some? && !env.vanished && |copy.value| == stat.size
                 && env.verified && env.installOk)
    && (ret ==> Read(after, dest) == copy && At(after, dest) == Some(Hard(before.next)) && At(after, NewName(dest)) == None)
    && (ret ==> At(after, BackupName(dest, option)) ==
                  if Discards(option) then At(before, BackupName(dest, option))
                  else if aside && !env.archived then At(before, dest) else None)
    && (original.Some? ==>
          && AllKept(trace, |trace0|, dest, option, original.value, if copy.Some? then copy.value else original.value)
          && (ret && aside && !env.archived ==> Read(after, BackupName(dest, option)) == original)
          && (!ret ==> if env.copyStop.Some? || copy.None? then Read(after, dest) == original
                       else Abandoned(after, dest, option, aside, original, env)))
  }

  /** Which options keep the old file beside the new one: plain and timestamped backups, and neither
      "no backup" nor the repository, which leave the backup's name alone. */
  lemma {:induction false} BackupKept(before: State, trace0: seq<State>, after: State, trace: seq<State>, source: string,
                                      dest: string, stat: SourceStat, option: BackupOption, env: Env)
    requires CopyPost(before, trace0, after, trace, source, dest, stat, option, env, true)
    ensures (option == Plain || option.Timestamp?) && env.backupOk && !env.archived && Read(before, dest).Some? ==>
              && At(after, BackupName(dest, option)) == At(before, dest)
              && Read(after, BackupName(dest, option)) == Read(before, dest)
    ensures option == NoBackup || option == RepositoryStore ==>
              At(after, BackupName(dest, option)) == At(before, BackupName(dest, option))
    ensures Read(after, dest) == Read(before, source) && Read(after, dest).Some?
  {
  }
}
