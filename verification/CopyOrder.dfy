/** When copying a directory loses what it has copied: the names beside a file are used up, and the order
    in which the source is read decides. */
module CopyOrder {
  import opened Common
  import CopyFile
  import opened TreeCopy

  /** The file system after the first `j` files of a directory have been copied in the order in which
      they were read. */
  function Stage(s: Nodes, from: Path, to: Path, order: seq<string>, j: nat, pol: Policy): Nodes
    requires j <= |order|
  {
    if j == 0 then s else CopyIn(Stage(s, from, to, order, j - 1, pol), from, to, order[j - 1], pol)
  }

  /** The names read from a directory of files, each once; the destination holds no directories. */
  ghost predicate Files(s: Nodes, from: Path, to: Path, order: seq<string>) {
    && (forall c: string :: At(s, to + [c]) != Some(Dir))
    && (forall i | 0 <= i < |order| :: At(s, from + [order[i]]) != None && At(s, from + [order[i]]) != Some(Dir))
    && (forall i, j | 0 <= i < j < |order| :: order[i] != order[j])
  }

  // ---------------------------------------------------------------- what the start decides

  /** What is at name `c` of the destination when the first `j` files have been read and `c` is none of
      them: what the last of them that used that name has left, or what was there at the start. */
  function Left(s: Nodes, from: Path, to: Path, order: seq<string>, j: nat, c: string, pol: Policy): Option<Node>
    requires j <= |order|
    decreases j, 0
  {
    if j == 0 then At(s, to + [c])
    else if Uses(s, from, to, order, j - 1, c, pol) then Leaves(s, from, to, order, j - 1, c, pol)
    else Left(s, from, to, order, j - 1, c, pol)
  }

  /** The `k`-th file is really copied when its turn comes. */
  predicate Recopied(s: Nodes, from: Path, to: Path, order: seq<string>, k: nat, pol: Policy)
    requires k < |order|
    decreases k, 1
  {
    var there := Left(s, from, to, order, k, order[k], pol);
    there == None || pol.force || there != At(s, from + [order[k]])
  }

  /** The `k`-th file is really copied, and `c` is one of the names beside it. */
  predicate Uses(s: Nodes, from: Path, to: Path, order: seq<string>, k: nat, c: string, pol: Policy)
    requires k < |order|
    decreases k, 2
  {
    Companion(c, order[k], pol) && Recopied(s, from, to, order, k, pol)
  }

  /** What it leaves there: what it replaced, at the backup's name if backups stay, and nothing else. */
  function Leaves(s: Nodes, from: Path, to: Path, order: seq<string>, k: nat, c: string, pol: Policy): Option<Node>
    requires k < |order|
    decreases k, 1
  {
    if pol.backup.Some? && !pol.archived && c == BackupName(order[k], pol) then Left(s, from, to, order, k, order[k], pol)
    else None
  }

  /** What is at the `i`-th file's own destination when `j` files have been read, that one among them. */
  function Final(s: Nodes, from: Path, to: Path, order: seq<string>, i: nat, j: nat, pol: Policy): Option<Node>
    requires i < j <= |order|
    decreases j
  {
    if j == i + 1 then At(s, from + [order[i]])
    else if Uses(s, from, to, order, j - 1, order[i], pol) then Leaves(s, from, to, order, j - 1, order[i], pol)
    else Final(s, from, to, order, i, j - 1, pol)
  }

  // ---------------------------------------------------------------- one file

  lemma {:induction false} CopyInElsewhere(s: Nodes, from: Path, to: Path, n: string, pol: Policy, p: Path)
    requires pol.backup != Some([])
    requires p != to + [n] && forall c | Companion(c, n, pol) :: p != to + [c]
    ensures At(CopyIn(s, from, to, n, pol), p) == At(s, p)
  {
    match At(s, from + [n])
    case Some(File(content)) => CopiedAt(s, to, n, content, pol);
    case _ =>
  }

  lemma {:induction false} CopyInSource(s: Nodes, from: Path, to: Path, n: string, pol: Policy, m: string)
    requires pol.backup != Some([]) && Apart(from, to)
    ensures At(CopyIn(s, from, to, n, pol), from + [m]) == At(s, from + [m])
  {
    UnderAppend(from, [m]);
    ApartBelow(from, to, from + [m]);
    forall c: string ensures from + [m] != to + [c] { UnderAppend(to, [c]); }
    CopyInElsewhere(s, from, to, n, pol, from + [m]);
  }

  /** What a really copied file leaves at a name beside it. */
  lemma {:induction false} CopyInCompanion(s: Nodes, from: Path, to: Path, n: string, pol: Policy, c: string)
    requires pol.backup != Some([]) && Companion(c, n, pol)
    requires At(s, from + [n]) != None && At(s, from + [n]) != Some(Dir) && Copies(s, from, to, n, pol)
    ensures At(CopyIn(s, from, to, n, pol), to + [c]) ==
              if pol.backup.Some? && !pol.archived && c == BackupName(n, pol) then At(s, to + [n]) else None
  {
    CompanionDiffers(c, n, pol);
    OneStepApart(to, c, n);
    CompanionDiffers(CopyFile.NewName(n), n, pol);
    OneStepApart(to, CopyFile.NewName(n), n);
    if pol.backup.Some? {
      CompanionDiffers(BackupName(n, pol), n, pol);
      OneStepApart(to, BackupName(n, pol), n);
      OneStepApart(to, c, BackupName(n, pol));
    }
  }

  // ---------------------------------------------------------------- all files

  ghost predicate Progress(s: Nodes, from: Path, to: Path, order: seq<string>, j: nat, pol: Policy)
    requires j <= |order|
  {
    var now := Stage(s, from, to, order, j, pol);
    && (forall m :: At(now, from + [m]) == At(s, from + [m]))
    && (forall i | 0 <= i < j :: At(now, to + [order[i]]) == Final(s, from, to, order, i, j, pol))
    && (forall k | j <= k < |order| :: At(now, to + [order[k]]) == Left(s, from, to, order, j, order[k], pol))
  }

  lemma {:induction false} TurnIs(s: Nodes, from: Path, to: Path, order: seq<string>, j: nat, pol: Policy)
    requires Files(s, from, to, order) && j < |order| && Progress(s, from, to, order, j, pol)
    ensures var now := Stage(s, from, to, order, j, pol);
            && Copies(now, from, to, order[j], pol) == Recopied(s, from, to, order, j, pol)
            && At(now, to + [order[j]]) == Left(s, from, to, order, j, order[j], pol)
            && At(now, from + [order[j]]) == At(s, from + [order[j]])
  {
  }

  /** What happens to another file's destination when file `j` is read. */
  lemma {:induction false} OtherFile(s: Nodes, from: Path, to: Path, order: seq<string>, j: nat, i: nat, pol: Policy)
    requires pol.backup != Some([]) && Files(s, from, to, order)
    requires j < |order| && i < |order| && i != j && Progress(s, from, to, order, j, pol)
    ensures At(Stage(s, from, to, order, j + 1, pol), to + [order[i]]) ==
              if Uses(s, from, to, order, j, order[i], pol) then Leaves(s, from, to, order, j, order[i], pol)
              else At(Stage(s, from, to, order, j, pol), to + [order[i]])
  {
    var now := Stage(s, from, to, order, j, pol);
    var n, m := order[j], order[i];
    assert n != m by { assert i < j || j < i; }
    TurnIs(s, from, to, order, j, pol);
    OneStepApart(to, m, n);
    if Companion(m, n, pol) {
      if Copies(now, from, to, n, pol) { CopyInCompanion(now, from, to, n, pol, m); }
    } else {
      forall c | Companion(c, n, pol) ensures to + [m] != to + [c] { OneStepApart(to, m, c); }
      CopyInElsewhere(now, from, to, n, pol, to + [m]);
    }
  }

  lemma {:induction false} OwnFile(s: Nodes, from: Path, to: Path, order: seq<string>, j: nat, pol: Policy)
    requires pol.backup != Some([]) && Files(s, from, to, order) && j < |order| && Progress(s, from, to, order, j, pol)
    ensures At(Stage(s, from, to, order, j + 1, pol), to + [order[j]]) == At(s, from + [order[j]])
  {
    TurnIs(s, from, to, order, j, pol);
    CopiedAt(Stage(s, from, to, order, j, pol), to, order[j], At(s, from + [order[j]]).value.content, pol);
  }

  lemma {:induction false} ProgressAt(s: Nodes, from: Path, to: Path, order: seq<string>, j: nat, pol: Policy)
    requires pol.backup != Some([]) && Apart(from, to) && Files(s, from, to, order) && j <= |order|
    ensures Progress(s, from, to, order, j, pol)
  {
    if j > 0 {
      var k := j - 1;
      ProgressAt(s, from, to, order, k, pol);
      var now, next := Stage(s, from, to, order, k, pol), Stage(s, from, to, order, j, pol);
      forall m ensures At(next, from + [m]) == At(s, from + [m]) {
        CopyInSource(now, from, to, order[k], pol, m);
        assert At(now, from + [m]) == At(s, from + [m]);
      }
      OwnFile(s, from, to, order, k, pol);
      forall i | 0 <= i < j ensures At(next, to + [order[i]]) == Final(s, from, to, order, i, j, pol) {
        if i < k { OtherFile(s, from, to, order, k, i, pol); }
      }
      forall i | j <= i < |order| ensures At(next, to + [order[i]]) == Left(s, from, to, order, j, order[i], pol) {
        OtherFile(s, from, to, order, k, i, pol);
      }
    }
  }

  // ---------------------------------------------------------------- when copies are lost

  /** The `k`-th file is the last one before `j` that used the `i`-th file's name. */
  ghost predicate LastUser(s: Nodes, from: Path, to: Path, order: seq<string>, i: nat, k: nat, j: nat, pol: Policy)
    requires i < k < j <= |order|
  {
    Uses(s, from, to, order, k, order[i], pol) && forall l | k < l < j :: !Uses(s, from, to, order, l, order[i], pol)
  }

  /** Whoever used the name last has left the file's own copy there. */
  ghost predicate Survives(s: Nodes, from: Path, to: Path, order: seq<string>, i: nat, j: nat, pol: Policy)
    requires i < j <= |order|
  {
    forall k | i < k < j && LastUser(s, from, to, order, i, k, j, pol) ::
      Leaves(s, from, to, order, k, order[i], pol) == At(s, from + [order[i]])
  }

  lemma {:induction false} FinalIsLast(s: Nodes, from: Path, to: Path, order: seq<string>, i: nat, j: nat, pol: Policy)
    requires i < j <= |order|
    ensures Final(s, from, to, order, i, j, pol) == At(s, from + [order[i]]) <==> Survives(s, from, to, order, i, j, pol)
    decreases j
  {
    if j > i + 1 {
      FinalIsLast(s, from, to, order, i, j - 1, pol);
      if Uses(s, from, to, order, j - 1, order[i], pol) {
        assert LastUser(s, from, to, order, i, j - 1, j, pol);
      } else {
        forall k | i < k < j - 1
          ensures LastUser(s, from, to, order, i, k, j, pol) <==> LastUser(s, from, to, order, i, k, j - 1, pol)
        {
        }
      }
    }
  }

  /** All files of the directory are copied in the end. */
  ghost predicate AllCopied(s: Nodes, from: Path, to: Path, order: seq<string>, pol: Policy) {
    forall i | 0 <= i < |order| ::
      At(Stage(s, from, to, order, |order|, pol), to + [order[i]]) == At(s, from + [order[i]])
  }

  /** For every reading order and backup policy: the copies are all right in the end if and only if, for
      each file, the last file read after it that was really copied and used its name, if there is one,
      left that very copy there. Which files are really copied, and what they leave, is decided by the
      start and the order. */
  lemma {:induction false} MirrorLostExactly(s: Nodes, from: Path, to: Path, order: seq<string>, pol: Policy)
    requires pol.backup != Some([]) && Apart(from, to) && Files(s, from, to, order)
    ensures AllCopied(s, from, to, order, pol) <==>
              forall i | 0 <= i < |order| :: Survives(s, from, to, order, i, |order|, pol)
  {
    ProgressAt(s, from, to, order, |order|, pol);
    forall i | 0 <= i < |order|
      ensures At(Stage(s, from, to, order, |order|, pol), to + [order[i]]) == At(s, from + [order[i]])
              <==> Survives(s, from, to, order, i, |order|, pol)
    {
      FinalIsLast(s, from, to, order, i, |order|, pol);
    }
  }

  // ---------------------------------------------------------------- when no old file is kept

  /** No old file is kept beside its copy: there are no backups, they move to a repository, or nothing
      is there before. */
  ghost predicate KeepsNothing(s: Nodes, to: Path, order: seq<string>, pol: Policy) {
    pol.backup.None? || pol.archived || forall i | 0 <= i < |order| :: At(s, to + [order[i]]) == None
  }

  lemma {:induction false} NothingLeft(s: Nodes, from: Path, to: Path, order: seq<string>, j: nat, c: string, pol: Policy)
    requires j <= |order| && KeepsNothing(s, to, order, pol) && pol.backup.Some? && !pol.archived && At(s, to + [c]) == None
    ensures Left(s, from, to, order, j, c, pol) == None
    decreases j
  {
    if j > 0 {
      NothingLeft(s, from, to, order, j - 1, c, pol);
      NothingLeft(s, from, to, order, j - 1, order[j - 1], pol);
    }
  }

  lemma {:induction false} LeavesNothing(s: Nodes, from: Path, to: Path, order: seq<string>, k: nat, c: string, pol: Policy)
    requires k < |order| && KeepsNothing(s, to, order, pol)
    ensures Leaves(s, from, to, order, k, c, pol) == None
  {
    if pol.backup.Some? && !pol.archived { NothingLeft(s, from, to, order, k, order[k], pol); }
  }

  /** Then a file is really copied exactly when it was missing or different at the start, when updates are
      forced, or when a file before it used its name. */
  lemma {:induction false} RecopiedExactly(s: Nodes, from: Path, to: Path, order: seq<string>, k: nat, pol: Policy)
    requires k < |order| && KeepsNothing(s, to, order, pol)
    ensures Recopied(s, from, to, order, k, pol) <==>
              Copies(s, from, to, order[k], pol) || exists m | 0 <= m < k :: Uses(s, from, to, order, m, order[k], pol)
  {
    LeftExactly(s, from, to, order, k, order[k], pol);
  }

  lemma {:induction false} LeftExactly(s: Nodes, from: Path, to: Path, order: seq<string>, j: nat, c: string, pol: Policy)
    requires j <= |order| && KeepsNothing(s, to, order, pol)
    ensures Left(s, from, to, order, j, c, pol) ==
              if exists m | 0 <= m < j :: Uses(s, from, to, order, m, c, pol) then None else At(s, to + [c])
    decreases j
  {
    if j > 0 {
      LeftExactly(s, from, to, order, j - 1, c, pol);
      LeavesNothing(s, from, to, order, j - 1, c, pol);
      if Uses(s, from, to, order, j - 1, c, pol) {
        assert exists m | 0 <= m < j :: Uses(s, from, to, order, m, c, pol);
      } else {
        assert forall m | 0 <= m < j && Uses(s, from, to, order, m, c, pol) :: m < j - 1;
      }
    }
  }

  /** The `k`-th file leaves the `i`-th file's name alone. */
  predicate NeverUsed(s: Nodes, from: Path, to: Path, order: seq<string>, i: nat, k: nat, pol: Policy)
    requires i < |order| && k < |order|
  {
    !Uses(s, from, to, order, k, order[i], pol)
  }

  /** And the copies are all right in the end if and only if no file that is really copied is read after
      one with a name beside it. */
  lemma {:induction false} NothingKeptExactly(s: Nodes, from: Path, to: Path, order: seq<string>, pol: Policy)
    requires pol.backup != Some([]) && Apart(from, to) && Files(s, from, to, order) && KeepsNothing(s, to, order, pol)
    ensures AllCopied(s, from, to, order, pol) <==>
              forall i, k | 0 <= i < k < |order| :: NeverUsed(s, from, to, order, i, k, pol)
  {
    MirrorLostExactly(s, from, to, order, pol);
    if i, k :| 0 <= i < k < |order| && Uses(s, from, to, order, k, order[i], pol) {
      var l := LastOne(s, from, to, order, i, k, |order|, pol);
      LeavesNothing(s, from, to, order, l, order[i], pol);
      assert At(s, from + [order[i]]) != None;
      assert !Survives(s, from, to, order, i, |order|, pol);
      assert !AllCopied(s, from, to, order, pol);
      assert !NeverUsed(s, from, to, order, i, k, pol);
    } else {
      forall i | 0 <= i < |order| ensures Survives(s, from, to, order, i, |order|, pol) {
        forall k | i < k < |order| ensures !LastUser(s, from, to, order, i, k, |order|, pol) {
          assert NeverUsed(s, from, to, order, i, k, pol);
        }
      }
    }
  }

  lemma {:induction false} LastOne(s: Nodes, from: Path, to: Path, order: seq<string>, i: nat, k: nat, j: nat, pol: Policy)
    returns (l: nat)
    requires i < k < j <= |order| && Uses(s, from, to, order, k, order[i], pol)
    ensures k <= l < j && LastUser(s, from, to, order, i, l, j, pol)
    decreases j
  {
    if Uses(s, from, to, order, j - 1, order[i], pol) {
      l := j - 1;
    } else {
      l := LastOne(s, from, to, order, i, k, j - 1, pol);
    }
  }

  // ---------------------------------------------------------------- a reading order that loses a copy

  /** Plain backups, and an old destination: reading a file after the one that has its backup name puts
      the old text in that one's place; reading it before keeps both. */
  lemma {:induction false} OrderDecides(s: Nodes, from: Path, to: Path, n: string, pol: Policy)
    requires pol.backup.Some? && pol.backup != Some([]) && !pol.archived && !pol.force && Apart(from, to)
    requires var b := BackupName(n, pol);
             && Files(s, from, to, [b, n]) && CopyFile.NewName(n) != b
             && At(s, to + [n]) != None && At(s, to + [n]) != At(s, from + [n]) && At(s, to + [n]) != At(s, from + [b])
    ensures !AllCopied(s, from, to, [BackupName(n, pol), n], pol)
    ensures AllCopied(s, from, to, [n, BackupName(n, pol)], pol)
  {
    var b := BackupName(n, pol);
    var bad, good := [b, n], [n, b];
    assert Companion(b, n, pol) && |b| > |n| && |CopyFile.NewName(b)| > |n| && |BackupName(b, pol)| > |n|;
    assert !Companion(n, b, pol);
    assert Left(s, from, to, bad, 1, n, pol) == At(s, to + [n]);
    assert LastUser(s, from, to, bad, 0, 1, 2, pol);
    assert Leaves(s, from, to, bad, 1, b, pol) == At(s, to + [n]);
    assert !Survives(s, from, to, bad, 0, 2, pol);
    MirrorLostExactly(s, from, to, bad, pol);
    assert Files(s, from, to, good) by {
      assert good[0] == bad[1] && good[1] == bad[0] && bad[0] != bad[1];
    }
    assert !Uses(s, from, to, good, 1, n, pol);
    MirrorLostExactly(s, from, to, good, pol);
  }
}
