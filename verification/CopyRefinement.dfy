/** One file of a tree copy, refined: when its calls succeed, the steps of CopyRegularFile on names and
    inodes have the effect that the tree copy takes for one step. */
module CopyRefinement {
  import opened Common
  import FileSystem
  import CopyFile
  import TreeCopy

  /** The entry of a directory: nothing, or a file with that content. */
  ghost predicate ShowsEntry(s: FileSystem.State, name: string, node: Option<TreeCopy.Node>) {
    match node
    case None => FileSystem.At(s, name) == None
    case Some(File(content)) => FileSystem.Read(s, name) == Some(content)
    case Some(Dir) => false
  }

  /** The names that start with `prefix` are the files of directory `dir`. */
  ghost predicate Shows(s: FileSystem.State, prefix: string, t: TreeCopy.Nodes, dir: TreeCopy.Path) {
    forall n: string :: ShowsEntry(s, prefix + n, TreeCopy.At(t, dir + [n]))
  }

  /** Both models are given the same backup policy. */
  predicate Suits(pol: TreeCopy.Policy, option: CopyFile.BackupOption, env: CopyFile.Env) {
    && pol.archived == env.archived
    && pol.backup == if CopyFile.Discards(option) then None
                     else Some((if option.Timestamp? then option.stamp else []) + CopyFile.CF_SAVED)
  }

  lemma {:induction false} NamesAgree(prefix: string, n: string, pol: TreeCopy.Policy, option: CopyFile.BackupOption, env: CopyFile.Env)
    requires Suits(pol, option, env)
    ensures CopyFile.NewName(prefix + n) == prefix + CopyFile.NewName(n)
    ensures pol.backup.Some? ==> CopyFile.BackupName(prefix + n, option) == prefix + TreeCopy.BackupName(n, pol)
    ensures pol.backup != Some([])
  {
    if pol.backup.Some? {
      assert |pol.backup.value| >= |CopyFile.CF_SAVED| == 8;
      assert prefix + (n + pol.backup.value) == (prefix + n) + pol.backup.value;
      assert (prefix + n) + (if option.Timestamp? then option.stamp else []) + CopyFile.CF_SAVED == (prefix + n) + pol.backup.value;
    }
    assert prefix + (n + CopyFile.CF_NEW) == (prefix + n) + CopyFile.CF_NEW;
  }

  lemma {:induction false} PrefixApart(prefix: string, m: string, n: string)
    ensures prefix + m == prefix + n <==> m == n
  {
    if prefix + m == prefix + n {
      assert m == (prefix + m)[|prefix|..] && n == (prefix + n)[|prefix|..];
    }
  }

  /** A successful copy of the file shows exactly what the tree copy does in one step. */
  lemma {:induction false} CopyRefines(before: FileSystem.State, after: FileSystem.State, trace0: seq<FileSystem.State>,
                                       trace: seq<FileSystem.State>, source: string, prefix: string, n: string,
                                       stat: CopyFile.SourceStat, option: CopyFile.BackupOption, env: CopyFile.Env,
                                       t: TreeCopy.Nodes, dir: TreeCopy.Path, pol: TreeCopy.Policy, content: string)
    requires Shows(before, prefix, t, dir) && Suits(pol, option, env) && env.backupOk
    requires FileSystem.Sound(before) && FileSystem.Read(before, source) == Some(content)
    requires CopyFile.OnlyThree(before, after, prefix + n, option)
    requires CopyFile.CopyPost(before, trace0, after, trace, source, prefix + n, stat, option, env, true)
    ensures Shows(after, prefix, TreeCopy.Copied(t, dir, n, content, pol), dir)
  {
    var u := TreeCopy.Copied(t, dir, n, content, pol);
    NamesAgree(prefix, n, pol, option, env);
    TreeCopy.CopiedAt(t, dir, n, content, pol);
    forall m: string ensures ShowsEntry(after, prefix + m, TreeCopy.At(u, dir + [m])) {
      assert ShowsEntry(before, prefix + m, TreeCopy.At(t, dir + [m]));
      PrefixApart(prefix, m, n);
      if m != n {
        if TreeCopy.Companion(m, n, pol) {
          CompanionRefines(before, after, prefix, n, m, option, env, t, dir, pol, content);
        } else {
          NotCompanion(prefix, m, n, option, env, dir, pol);
        }
      }
    }
  }

  lemma {:induction false} NotCompanion(prefix: string, m: string, n: string, option: CopyFile.BackupOption, env: CopyFile.Env,
                                        dir: TreeCopy.Path, pol: TreeCopy.Policy)
    requires Suits(pol, option, env) && m != n && !TreeCopy.Companion(m, n, pol)
    ensures prefix + m != CopyFile.NewName(prefix + n)
    ensures !CopyFile.Discards(option) ==> prefix + m != CopyFile.BackupName(prefix + n, option)
    ensures forall c | TreeCopy.Companion(c, n, pol) :: dir + [m] != dir + [c]
    ensures dir + [m] != dir + [n]
  {
    NamesAgree(prefix, n, pol, option, env);
    PrefixApart(prefix, m, CopyFile.NewName(n));
    if pol.backup.Some? { PrefixApart(prefix, m, TreeCopy.BackupName(n, pol)); }
    TreeCopy.OneStepApart(dir, m, n);
    forall c | TreeCopy.Companion(c, n, pol) ensures dir + [m] != dir + [c] { TreeCopy.OneStepApart(dir, m, c); }
  }

  lemma {:induction false} CompanionRefines(before: FileSystem.State, after: FileSystem.State, prefix: string, n: string, c: string,
                                            option: CopyFile.BackupOption, env: CopyFile.Env,
                                            t: TreeCopy.Nodes, dir: TreeCopy.Path, pol: TreeCopy.Policy, content: string)
    requires ShowsEntry(before, prefix + n, TreeCopy.At(t, dir + [n])) && Suits(pol, option, env) && env.backupOk
    requires FileSystem.Sound(before) && CopyFile.OnlyThree(before, after, prefix + n, option)
    requires TreeCopy.Companion(c, n, pol)
    requires FileSystem.At(after, CopyFile.NewName(prefix + n)) == None
    requires FileSystem.At(after, CopyFile.BackupName(prefix + n, option)) ==
               if CopyFile.Discards(option) then FileSystem.At(before, CopyFile.BackupName(prefix + n, option))
               else if FileSystem.At(before, prefix + n).Some? && !env.archived then FileSystem.At(before, prefix + n) else None
    ensures ShowsEntry(after, prefix + c, TreeCopy.At(TreeCopy.Copied(t, dir, n, content, pol), dir + [c]))
  {
    NamesAgree(prefix, n, pol, option, env);
    CopyFile.NamesDistinct(prefix + n, option);
    TreeCopy.CompanionDiffers(c, n, pol);
    TreeCopy.CompanionDiffers(CopyFile.NewName(n), n, pol);
    TreeCopy.OneStepApart(dir, c, n);
    TreeCopy.OneStepApart(dir, CopyFile.NewName(n), n);
    if pol.backup.Some? {
      TreeCopy.CompanionDiffers(TreeCopy.BackupName(n, pol), n, pol);
      TreeCopy.OneStepApart(dir, TreeCopy.BackupName(n, pol), n);
      TreeCopy.OneStepApart(dir, TreeCopy.BackupName(n, pol), CopyFile.NewName(n));
      assert TreeCopy.BackupName(n, pol) != CopyFile.NewName(n) by {
        assert prefix + TreeCopy.BackupName(n, pol) != prefix + CopyFile.NewName(n);
      }
    }
  }

  /** The steps themselves, when every call succeeds. */
  method CopyOne(disk: FileSystem.Disk, source: string, prefix: string, n: string, stat: CopyFile.SourceStat,
                 option: CopyFile.BackupOption, env: CopyFile.Env,
                 ghost t: TreeCopy.Nodes, ghost dir: TreeCopy.Path, ghost pol: TreeCopy.Policy, ghost content: string)
    requires disk.Valid() && Shows(disk.now, prefix, t, dir) && Suits(pol, option, env)
    requires source != CopyFile.NewName(prefix + n) && FileSystem.Read(disk.now, source) == Some(content) && |content| == stat.size
    requires env.chunk > 0 && env.copyStop.None? && !env.vanished && env.verified && env.installOk && env.backupOk
    modifies disk
    ensures disk.Valid() && Shows(disk.now, prefix, TreeCopy.Copied(t, dir, n, content, pol), dir)
  {
    ghost var before, trace := disk.now, disk.trace;
    var ret := CopyFile.CopyAndInstall(disk, source, prefix + n, stat, option, env);
    assert ret;
    CopyRefines(before, disk.now, trace, disk.trace, source, prefix, n, stat, option, env, t, dir, pol, content);
  }
}
