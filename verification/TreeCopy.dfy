/** Copying a directory tree (SourceSearchAndCopy, the local part of CfCopyFile, and PurgeLocalFiles
    of cf-agent/verify_files_utils.c) for trees of regular files and directories, when system calls
    succeed and files are compared by content or updates are forced. */
module TreeCopy {
  import opened Common
  import CopyFile

  type Path = seq<string>

  datatype Node = File(content: string) | Dir

  type Nodes = map<Path, Node>

  function At(s: Nodes, p: Path): Option<Node> {
    if p in s then Some(s[p]) else None
  }

  function Parent(p: Path): Path
    requires p != []
  {
    p[..|p| - 1]
  }

  /** Everything lies in a directory. */
  ghost predicate Closed(s: Nodes) {
    forall p | p in s && p != [] :: At(s, Parent(p)) == Some(Dir)
  }

  /** Names that are always ignored; whether destination files that are not in the source are
      purged; whether files are copied even when equal; the backup suffix, if backups are kept
      beside the file; and whether they then move to a repository. */
  datatype Policy = Policy(ignored: set<string>, purge: bool, force: bool,
                           backup: Option<string>, archived: bool)

  predicate Visible(r: Path, pol: Policy) {
    forall i | 0 <= i < |r| :: r[i] !in pol.ignored
  }

  // ---------------------------------------------------------------- copying one file

  /** The backup's name, with the time stamp if there is one. */
  function BackupName(n: string, pol: Policy): string
    requires pol.backup.Some?
  {
    n + pol.backup.value
  }

  /** The names beside `n` that copying `n` may create or remove. */
  predicate Companion(c: string, n: string, pol: Policy) {
    c == CopyFile.NewName(n) || (pol.backup.Some? && c == BackupName(n, pol))
  }

  /** What CopyRegularFile does to the directory: the new name is used up, an existing file is
      moved to the backup name (whose previous file is removed), and the copy takes its place. */
  function Copied(s: Nodes, dir: Path, n: string, content: string, pol: Policy): Nodes {
    var dest := dir + [n];
    var s1 := s - {dir + [CopyFile.NewName(n)]};
    var s2 := if pol.backup.None? then s1 else s1 - {dir + [BackupName(n, pol)]};
    var s3 := if pol.backup.Some? && dest in s2 && !pol.archived
              then s2[dir + [BackupName(n, pol)] := s2[dest]] else s2;
    s3[dest := File(content)]
  }

  lemma {:induction false} CompanionDiffers(c: string, n: string, pol: Policy)
    requires Companion(c, n, pol) && pol.backup != Some([])
    ensures c != n
  {
    assert |CopyFile.NewName(n)| > |n|;
  }

  /** Copying touches the file and its companions only. */
  lemma {:induction false} CopiedAt(s: Nodes, dir: Path, n: string, content: string, pol: Policy)
    requires pol.backup != Some([])
    ensures var t := Copied(s, dir, n, content, pol);
            && At(t, dir + [n]) == Some(File(content))
            && (forall p | p != dir + [n] && (forall c | Companion(c, n, pol) :: p != dir + [c]) ::
                  At(t, p) == At(s, p))
  {
    var t := Copied(s, dir, n, content, pol);
    forall p | p != dir + [n] && (forall c | Companion(c, n, pol) :: p != dir + [c])
      ensures At(t, p) == At(s, p)
    {
      assert Companion(CopyFile.NewName(n), n, pol);
      if pol.backup.Some? { assert Companion(BackupName(n, pol), n, pol); }
    }
  }

  /** A companion that is left behind is a file if the original was. */
  lemma {:induction false} CopiedCompanion(s: Nodes, dir: Path, n: string, content: string, pol: Policy, c: string)
    requires pol.backup != Some([]) && Companion(c, n, pol) && At(s, dir + [n]) != Some(Dir)
    ensures At(Copied(s, dir, n, content, pol), dir + [c]) != Some(Dir)
  {
    CompanionDiffers(c, n, pol);
    assert dir + [c] != dir + [n] by { assert (dir + [c])[|dir|] != (dir + [n])[|dir|]; }
  }

  /** Whether CfCopyFile really copies the file: it is missing, or different, or updates are forced. */
  predicate Copies(s: Nodes, from: Path, to: Path, n: string, pol: Policy) {
    At(s, to + [n]) == None || pol.force || At(s, to + [n]) != At(s, from + [n])
  }

  /** What CfCopyFile does for a file of the source. */
  function CopyIn(s: Nodes, from: Path, to: Path, n: string, pol: Policy): Nodes {
    match At(s, from + [n])
    case Some(File(content)) => if Copies(s, from, to, n, pol) then Copied(s, to, n, content, pol) else s
    case _ => s
  }

  lemma {:induction false} OneStepApart(dir: Path, a: string, b: string)
    ensures dir + [a] == dir + [b] <==> a == b
  {
    assert (dir + [a])[|dir|] == a && (dir + [b])[|dir|] == b;
  }

  // ---------------------------------------------------------------- paths

  function Child(p: Path, n: string): Path { p + [n] }

  /** `p` is `q` or lies somewhere below it. */
  predicate Under(p: Path, q: Path) {
    |q| <= |p| && p[..|q|] == q
  }

  predicate Below(p: Path, q: Path) {
    |q| < |p| && p[..|q|] == q
  }

  lemma {:induction false} UnderTransitive(p: Path, q: Path, r: Path)
    requires Under(p, q) && Under(q, r)
    ensures Under(p, r)
  {
    assert p[..|r|] == p[..|q|][..|r|];
  }

  lemma {:induction false} UnderChild(p: Path, q: Path, n: string)
    ensures Under(p, Child(q, n)) <==> Below(p, q) && p[|q|] == n
  {
    if Under(p, Child(q, n)) {
      assert p[..|q|] == p[..|q| + 1][..|q|] == q;
      assert p[|q|] == p[..|q| + 1][|q|];
    }
  }

  lemma {:induction false} UnderAppend(q: Path, r: Path)
    ensures Under(q + r, q)
  {
    assert (q + r)[..|q|] == q;
  }

  lemma {:induction false} Shift(p: Path, n: string, r: Path)
    ensures Child(p, n) + r == p + ([n] + r)
  {
    assert Child(p, n) + r == p + ([n] + r);
  }

  lemma {:induction false} Unshift(p: Path, r: Path)
    requires r != []
    ensures p + r == Child(p, r[0]) + r[1..]
  {
    assert r == [r[0]] + r[1..];
    Shift(p, r[0], r[1..]);
  }

  /** The two trees do not overlap. */
  predicate Apart(p: Path, q: Path) {
    !Under(p, q) && !Under(q, p)
  }

  lemma {:induction false} ApartBelow(p: Path, q: Path, x: Path)
    requires Apart(p, q) && Under(x, p)
    ensures !Under(x, q) && !Under(q, x)
  {
    if Under(q, x) { UnderTransitive(q, x, p); }
  }

  lemma {:induction false} ApartChildren(p: Path, q: Path, m: string, n: string)
    requires Apart(p, q)
    ensures Apart(Child(p, m), Child(q, n))
  {
    UnderAppend(p, [m]);
    UnderAppend(q, [n]);
    ApartBelow(p, q, Child(p, m));
    if Under(Child(p, m), Child(q, n)) { UnderTransitive(Child(p, m), Child(q, n), q); }
    if Under(Child(q, n), Child(p, m)) { UnderTransitive(Child(q, n), Child(p, m), p); ApartBelow(q, p, Child(q, n)); }
  }

  /** Nothing exists below what is not a directory. */
  lemma {:induction false} NothingBelow(s: Nodes, p: Path, q: Path)
    requires Closed(s) && At(s, q) != Some(Dir) && Below(p, q)
    ensures At(s, p) == None
    decreases |p|
  {
    if p in s {
      assert At(s, Parent(p)) == Some(Dir);
      if |Parent(p)| > |q| {
        assert Parent(p)[..|q|] == q;
        NothingBelow(s, Parent(p), q);
      }
    }
  }

  // ---------------------------------------------------------------- what a copy has to achieve

  /** The names DirRead yields in a directory, less the ignored ones. */
  function Listing(s: Nodes, dir: Path, pol: Policy): set<string> {
    set p | p in s.Keys && |p| == |dir| + 1 && p[..|dir|] == dir && p[|dir|] !in pol.ignored :: p[|dir|]
  }

  lemma {:induction false} ListingIs(s: Nodes, dir: Path, pol: Policy, n: string)
    ensures n in Listing(s, dir, pol) <==> n !in pol.ignored && At(s, Child(dir, n)).Some?
  {
    var p := Child(dir, n);
    assert |p| == |dir| + 1 && p[..|dir|] == dir && p[|dir|] == n;
    if n in Listing(s, dir, pol) {
      var q :| q in s.Keys && |q| == |dir| + 1 && q[..|dir|] == dir && q[|dir|] == n;
      assert q == q[..|dir|] + [q[|dir|]] == p;
    }
  }

  /** The destination holds what the source holds; without purging it may also hold more. */
  predicate Matches(source: Option<Node>, dest: Option<Node>, pol: Policy) {
    source == dest || (source.None? && !pol.purge)
  }

  /** Down to depth `k`, the tree at `to` is the tree that was at `from`. */
  ghost predicate MirrorTo(s0: Nodes, from: Path, s: Nodes, to: Path, pol: Policy, k: nat) {
    forall r | Visible(r, pol) && |r| <= k :: Matches(At(s0, from + r), At(s, to + r), pol)
  }

  /** The same at every depth. */
  ghost predicate Mirror(s0: Nodes, from: Path, s: Nodes, to: Path, pol: Policy) {
    forall r | Visible(r, pol) :: Matches(At(s0, from + r), At(s, to + r), pol)
  }

  /** The source tree is less than `k` directories high. */
  ghost predicate Lower(s: Nodes, from: Path, pol: Policy, k: nat) {
    forall r | Visible(r, pol) && At(s, from + r) == Some(Dir) :: |r| < k
  }

  /** A depth limit above the tree's height hides nothing. */
  lemma {:induction false} DepthSuffices(s0: Nodes, from: Path, s: Nodes, to: Path, pol: Policy, k: nat)
    requires Closed(s0) && Closed(s) && MirrorTo(s0, from, s, to, pol, k) && Lower(s0, from, pol, k)
    ensures Mirror(s0, from, s, to, pol)
  {
    forall r | Visible(r, pol) ensures Matches(At(s0, from + r), At(s, to + r), pol) {
      if |r| > k {
        var q := r[..k];
        assert At(s0, from + q) != Some(Dir);
        assert Matches(At(s0, from + q), At(s, to + q), pol);
        assert Below(from + r, from + q) by { assert (from + r)[..|from| + k] == from + q; }
        assert Below(to + r, to + q) by { assert (to + r)[..|to| + k] == to + q; }
        NothingBelow(s0, from + r, from + q);
        if pol.purge { NothingBelow(s, to + r, to + q); }
      }
    }
  }

  ghost predicate SameUnder(s: Nodes, t: Nodes, q: Path) {
    forall p | Under(p, q) :: At(s, p) == At(t, p)
  }

  lemma {:induction false} MirrorFrame(s0: Nodes, from: Path, s: Nodes, t: Nodes, to: Path, pol: Policy, k: nat)
    requires MirrorTo(s0, from, s, to, pol, k) && SameUnder(s, t, to)
    ensures MirrorTo(s0, from, t, to, pol, k)
  {
    forall r | Visible(r, pol) && |r| <= k ensures Matches(At(s0, from + r), At(t, to + r), pol) {
      UnderAppend(to, r);
      assert Matches(At(s0, from + r), At(s, to + r), pol);
    }
  }

  lemma {:induction false} MirrorSource(s0: Nodes, s1: Nodes, from: Path, s: Nodes, to: Path, pol: Policy, k: nat)
    requires MirrorTo(s0, from, s, to, pol, k) && SameUnder(s0, s1, from)
    ensures MirrorTo(s1, from, s, to, pol, k)
  {
    forall r | Visible(r, pol) && |r| <= k ensures Matches(At(s1, from + r), At(s, to + r), pol) {
      UnderAppend(from, r);
      assert Matches(At(s0, from + r), At(s, to + r), pol);
    }
  }

  /** Entries of one kind: directories meet directories or nothing, and files do not meet
      directories. */
  predicate SameKind(source: Option<Node>, dest: Option<Node>) {
    source.Some? && dest.Some? ==> (source.value.Dir? <==> dest.value.Dir?)
  }

  /** Copying file `n` in these directories hits no directory and no other file of the source. */
  ghost predicate Clear(s: Nodes, from: Path, to: Path, n: string, pol: Policy) {
    forall c | Companion(c, n, pol) ::
      && At(s, Child(to, c)) != Some(Dir)
      && (c !in pol.ignored ==> At(s, Child(from, c)) == None)
  }

  ghost predicate ClearIn(s: Nodes, from: Path, to: Path, pol: Policy) {
    forall n | n !in pol.ignored && At(s, Child(from, n)) != None && At(s, Child(from, n)) != Some(Dir) ::
      Clear(s, from, to, n, pol)
  }

  /** The destination can take the source's tree without conflicts of type or of names. */
  ghost predicate NoClash(s: Nodes, from: Path, to: Path, pol: Policy) {
    forall r | Visible(r, pol) ::
      && SameKind(At(s, from + r), At(s, to + r))
      && ClearIn(s, from + r, to + r, pol)
  }

  lemma {:induction false} VisibleStep(n: string, r: Path, pol: Policy)
    ensures Visible([n] + r, pol) <==> n !in pol.ignored && Visible(r, pol)
  {
    assert ([n] + r)[0] == n;
    assert forall i | 0 <= i < |r| :: ([n] + r)[i + 1] == r[i];
    if n !in pol.ignored && Visible(r, pol) {
      forall i | 0 <= i < |r| + 1 ensures ([n] + r)[i] !in pol.ignored {
        if i > 0 { assert ([n] + r)[i] == r[i - 1]; }
      }
    }
    if Visible([n] + r, pol) {
      forall i | 0 <= i < |r| ensures r[i] !in pol.ignored { assert ([n] + r)[i + 1] == r[i]; }
    }
  }

  lemma {:induction false} NoClashChild(s: Nodes, from: Path, to: Path, n: string, pol: Policy)
    requires NoClash(s, from, to, pol) && n !in pol.ignored
    ensures NoClash(s, Child(from, n), Child(to, n), pol)
  {
    forall r | Visible(r, pol)
      ensures SameKind(At(s, Child(from, n) + r), At(s, Child(to, n) + r))
              && ClearIn(s, Child(from, n) + r, Child(to, n) + r, pol)
    {
      VisibleStep(n, r, pol);
      Shift(from, n, r);
      Shift(to, n, r);
    }
  }

  lemma {:induction false} ClearFrame(s: Nodes, t: Nodes, from: Path, to: Path, pol: Policy)
    requires ClearIn(s, from, to, pol) && SameUnder(s, t, from) && SameUnder(s, t, to)
    ensures ClearIn(t, from, to, pol)
  {
    forall n | n !in pol.ignored && At(t, Child(from, n)) != None && At(t, Child(from, n)) != Some(Dir)
      ensures Clear(t, from, to, n, pol)
    {
      UnderAppend(from, [n]);
      assert Clear(s, from, to, n, pol);
      forall c | Companion(c, n, pol)
        ensures At(t, Child(to, c)) != Some(Dir) && (c !in pol.ignored ==> At(t, Child(from, c)) == None)
      {
        UnderAppend(from, [c]);
        UnderAppend(to, [c]);
      }
    }
  }

  lemma {:induction false} SameUnderDeeper(s: Nodes, t: Nodes, q: Path, r: Path)
    requires SameUnder(s, t, q)
    ensures SameUnder(s, t, q + r)
  {
    forall p | Under(p, q + r) ensures At(s, p) == At(t, p) {
      UnderAppend(q, r);
      UnderTransitive(p, q + r, q);
    }
  }

  lemma {:induction false} NoClashFrame(s: Nodes, t: Nodes, from: Path, to: Path, pol: Policy)
    requires NoClash(s, from, to, pol) && SameUnder(s, t, from) && SameUnder(s, t, to)
    ensures NoClash(t, from, to, pol)
  {
    forall r | Visible(r, pol)
      ensures SameKind(At(t, from + r), At(t, to + r)) && ClearIn(t, from + r, to + r, pol)
    {
      UnderAppend(from, r);
      UnderAppend(to, r);
      assert SameKind(At(s, from + r), At(s, to + r)) && ClearIn(s, from + r, to + r, pol);
      SameUnderDeeper(s, t, from, r);
      SameUnderDeeper(s, t, to, r);
      ClearFrame(s, t, from + r, to + r, pol);
    }
  }

  lemma {:induction false} MirrorChild(s0: Nodes, from: Path, s: Nodes, to: Path, n: string, pol: Policy, k: nat)
    requires MirrorTo(s0, from, s, to, pol, k) && n !in pol.ignored && k > 0
    ensures MirrorTo(s0, Child(from, n), s, Child(to, n), pol, k - 1)
  {
    forall r | Visible(r, pol) && |r| <= k - 1
      ensures Matches(At(s0, Child(from, n) + r), At(s, Child(to, n) + r), pol)
    {
      VisibleStep(n, r, pol);
      Shift(from, n, r);
      Shift(to, n, r);
      assert Matches(At(s0, from + ([n] + r)), At(s, to + ([n] + r)), pol);
    }
  }

  /** The mirror of a directory is put together from the mirrors of its entries. */
  lemma {:induction false} Assemble(s0: Nodes, from: Path, s: Nodes, to: Path, pol: Policy, k: nat)
    requires Closed(s0) && Closed(s) && k > 0
    requires At(s0, from) == Some(Dir) && At(s, to) == Some(Dir)
    requires forall n | n in Listing(s0, from, pol) :: MirrorTo(s0, Child(from, n), s, Child(to, n), pol, k - 1)
    requires pol.purge ==> Listing(s, to, pol) <= Listing(s0, from, pol)
    ensures MirrorTo(s0, from, s, to, pol, k)
  {
    forall r | Visible(r, pol) && |r| <= k ensures Matches(At(s0, from + r), At(s, to + r), pol) {
      if r == [] {
        assert from + r == from && to + r == to;
      } else {
        AssembleAt(s0, from, s, to, pol, k, r);
      }
    }
  }

  lemma {:induction false} AssembleAt(s0: Nodes, from: Path, s: Nodes, to: Path, pol: Policy, k: nat, r: Path)
    requires Closed(s0) && Closed(s) && k > 0
    requires forall n | n in Listing(s0, from, pol) :: MirrorTo(s0, Child(from, n), s, Child(to, n), pol, k - 1)
    requires pol.purge ==> Listing(s, to, pol) <= Listing(s0, from, pol)
    requires Visible(r, pol) && 0 < |r| <= k
    ensures Matches(At(s0, from + r), At(s, to + r), pol)
  {
    var n, q := r[0], r[1..];
    Unshift(from, r);
    Unshift(to, r);
    assert r == [n] + q;
    VisibleStep(n, q, pol);
    ListingIs(s0, from, pol, n);
    ListingIs(s, to, pol, n);
    if n in Listing(s0, from, pol) {
      assert Matches(At(s0, Child(from, n) + q), At(s, Child(to, n) + q), pol);
    } else {
      AbsentBelow(s0, Child(from, n), q);
      if pol.purge { AbsentBelow(s, Child(to, n), q); }
    }
  }

  lemma {:induction false} AbsentBelow(s: Nodes, p: Path, q: Path)
    requires Closed(s) && At(s, p) == None
    ensures At(s, p + q) == None
  {
    if q == [] {
      assert p + q == p;
    } else {
      UnderAppend(p, q);
      NothingBelow(s, p + q, p);
    }
  }


  // ---------------------------------------------------------------- one entry at a time

  /** `p` is a name beside file `n` that copying it may use up. */
  predicate CompanionPath(p: Path, dir: Path, n: string, pol: Policy) {
    |p| == |dir| + 1 && p[..|dir|] == dir && Companion(p[|dir|], n, pol)
  }

  /** From `s` to `t`, only the entry `n` of `dir` and, for a file, its companions changed; no
      companion became a directory. */
  ghost predicate EntryStep(s: Nodes, t: Nodes, dir: Path, n: string, file: bool, pol: Policy) {
    && (forall p | !Under(p, Child(dir, n)) && !(file && CompanionPath(p, dir, n, pol)) :: At(t, p) == At(s, p))
    && (file ==> forall c | Companion(c, n, pol) :: At(t, Child(dir, c)) != Some(Dir))
  }

  lemma {:induction false} CopiedStep(s: Nodes, dir: Path, n: string, content: string, pol: Policy)
    requires pol.backup != Some([]) && At(s, Child(dir, n)) != Some(Dir)
    ensures EntryStep(s, Copied(s, dir, n, content, pol), dir, n, true, pol)
  {
    var t := Copied(s, dir, n, content, pol);
    CopiedAt(s, dir, n, content, pol);
    forall p | !Under(p, Child(dir, n)) && !CompanionPath(p, dir, n, pol) ensures At(t, p) == At(s, p) {
      forall c | Companion(c, n, pol) ensures p != dir + [c] {
        assert (dir + [c])[..|dir|] == dir;
      }
    }
    forall c | Companion(c, n, pol) ensures At(t, Child(dir, c)) != Some(Dir) {
      CopiedCompanion(s, dir, n, content, pol, c);
    }
  }

  /** Copying keeps the file system closed: the names it changes hold no directory. */
  lemma {:induction false} CopiedClosed(s: Nodes, dir: Path, n: string, content: string, pol: Policy)
    requires pol.backup != Some([]) && Closed(s) && At(s, dir) == Some(Dir) && At(s, Child(dir, n)) != Some(Dir)
    requires forall c | Companion(c, n, pol) :: At(s, Child(dir, c)) != Some(Dir)
    ensures Closed(Copied(s, dir, n, content, pol))
  {
    var t := Copied(s, dir, n, content, pol);
    CopiedStep(s, dir, n, content, pol);
    forall p | p in t && p != [] ensures At(t, Parent(p)) == Some(Dir) {
      CopiedParent(s, t, dir, n, pol, p);
    }
  }

  lemma {:induction false} CopiedParent(s: Nodes, t: Nodes, dir: Path, n: string, pol: Policy, p: Path)
    requires Closed(s) && At(s, dir) == Some(Dir) && At(s, Child(dir, n)) != Some(Dir)
    requires forall c | Companion(c, n, pol) :: At(s, Child(dir, c)) != Some(Dir)
    requires EntryStep(s, t, dir, n, true, pol) && p in t && p != []
    requires forall q | Below(q, Child(dir, n)) :: At(t, q) == At(s, q)
    ensures At(t, Parent(p)) == Some(Dir)
  {
    var q := Parent(p);
    assert At(t, dir) == At(s, dir);
    if p == Child(dir, n) || CompanionPath(p, dir, n, pol) {
      assert q == dir;
    } else {
      assert At(t, p) == At(s, p);
      CopiedDirectory(s, t, dir, n, pol, q);
    }
  }

  /** Directories stay. */
  lemma {:induction false} CopiedDirectory(s: Nodes, t: Nodes, dir: Path, n: string, pol: Policy, q: Path)
    requires At(s, Child(dir, n)) != Some(Dir) && At(s, q) == Some(Dir)
    requires forall c | Companion(c, n, pol) :: At(s, Child(dir, c)) != Some(Dir)
    requires EntryStep(s, t, dir, n, true, pol)
    requires forall p | Below(p, Child(dir, n)) :: At(t, p) == At(s, p)
    ensures At(t, q) == Some(Dir)
  {
    assert q != Child(dir, n);
    assert Under(q, Child(dir, n)) ==> Below(q, Child(dir, n));
    assert |q| == |dir| + 1 && q[..|dir|] == dir ==> q == Child(dir, q[|dir|]);
  }

  lemma {:induction false} MirrorFile(s: Nodes, from: Path, t: Nodes, to: Path, pol: Policy, k: nat)
    requires Closed(s) && Closed(t) && At(s, from) != Some(Dir) && At(s, from) == At(t, to)
    ensures MirrorTo(s, from, t, to, pol, k)
  {
    forall r | Visible(r, pol) && |r| <= k ensures Matches(At(s, from + r), At(t, to + r), pol) {
      UnderAppend(from, r);
      UnderAppend(to, r);
      if r == [] {
        assert from + r == from && to + r == to;
      } else {
        NothingBelow(s, from + r, from);
        NothingBelow(t, to + r, to);
      }
    }
  }

  /** `n` is a file of the source beside `r`, and has the last name of `r` as a companion. */
  predicate UsedBy(s0: Nodes, from: Path, r: Path, n: string, pol: Policy) {
    && r != []
    && Companion(r[|r| - 1], n, pol)
    && At(s0, Child(from + Parent(r), n)) != None && At(s0, Child(from + Parent(r), n)) != Some(Dir)
  }

  /** The name may be used up as a companion of a file of the source. */
  ghost predicate Spare(s0: Nodes, from: Path, r: Path, pol: Policy) {
    exists n :: UsedBy(s0, from, r, n, pol)
  }

  /** What the source does not mention stays. */
  ghost predicate Kept(s0: Nodes, from: Path, s: Nodes, t: Nodes, to: Path, pol: Policy) {
    forall r | (At(s0, from + r) == None || !Visible(r, pol)) && !Spare(s0, from, r, pol) ::
      At(t, to + r) == At(s, to + r)
  }

  lemma {:induction false} SpareShift(s0: Nodes, from: Path, n: string, q: Path, pol: Policy)
    requires Spare(s0, Child(from, n), q, pol)
    ensures Spare(s0, from, [n] + q, pol)
  {
    var m :| UsedBy(s0, Child(from, n), q, m, pol);
    var r := [n] + q;
    assert Parent(r) == [n] + Parent(q);
    Shift(from, n, Parent(q));
    assert UsedBy(s0, from, r, m, pol);
  }

  /** A relative path that a step for file `n` reaches as a companion is spare. */
  lemma {:induction false} CompanionIsSpare(s0: Nodes, from: Path, to: Path, n: string, r: Path, pol: Policy)
    requires At(s0, Child(from, n)) != None && At(s0, Child(from, n)) != Some(Dir)
    requires CompanionPath(to + r, to, n, pol)
    ensures Spare(s0, from, r, pol)
  {
    assert (to + r)[|to|] == r[|r| - 1];
    assert from + Parent(r) == from;
    assert UsedBy(s0, from, r, n, pol);
  }

  lemma {:induction false} KeptAt(s0: Nodes, s: Nodes, t: Nodes, from: Path, to: Path, n: string, file: bool, pol: Policy, r: Path)
    requires EntryStep(s, t, to, n, file, pol)
    requires n !in pol.ignored && At(s0, Child(from, n)).Some?
    requires file <==> At(s0, Child(from, n)) != Some(Dir)
    requires Kept(s0, Child(from, n), s, t, Child(to, n), pol)
    requires (At(s0, from + r) == None || !Visible(r, pol)) && !Spare(s0, from, r, pol)
    ensures At(t, to + r) == At(s, to + r)
  {
    if r != [] && r[0] == n {
      var q := r[1..];
      assert r == [n] + q;
      Shift(from, n, q);
      Shift(to, n, q);
      VisibleStep(n, q, pol);
      if Spare(s0, Child(from, n), q, pol) { SpareShift(s0, from, n, q, pol); }
    } else {
      UnderAppend(to, r);
      UnderChild(to + r, to, n);
      if file && CompanionPath(to + r, to, n, pol) { CompanionIsSpare(s0, from, to, n, r, pol); }
    }
  }

  lemma {:induction false} KeptStep(s0: Nodes, s: Nodes, t: Nodes, from: Path, to: Path, n: string, file: bool, pol: Policy)
    requires Kept(s0, from, s0, s, to, pol) && EntryStep(s, t, to, n, file, pol)
    requires n !in pol.ignored && At(s0, Child(from, n)).Some?
    requires file <==> At(s0, Child(from, n)) != Some(Dir)
    requires Kept(s0, Child(from, n), s, t, Child(to, n), pol)
    ensures Kept(s0, from, s0, t, to, pol)
  {
    forall r | (At(s0, from + r) == None || !Visible(r, pol)) && !Spare(s0, from, r, pol)
      ensures At(t, to + r) == At(s0, to + r)
    {
      KeptAt(s0, s, t, from, to, n, file, pol, r);
    }
  }

  // ---------------------------------------------------------------- the loop over a directory

  /** Between two entries: the source and everything outside `to` is untouched, entries still to
      come meet their old destination, and the others are mirrored. */
  ghost predicate Progress(s0: Nodes, s: Nodes, from: Path, to: Path, todo: set<string>, pol: Policy, k: nat) {
    && Closed(s)
    && (forall p | !Below(p, to) :: At(s, p) == At(s0, p))
    && (forall n | n in todo :: SameUnder(s0, s, Child(to, n)))
    && (forall n | n in Listing(s0, from, pol) && n !in todo ::
          MirrorTo(s0, Child(from, n), s, Child(to, n), pol, k))
    && (forall c | c !in Listing(s0, from, pol) && At(s, Child(to, c)) == Some(Dir) ::
          At(s0, Child(to, c)) == Some(Dir))
  }

  /** Progress, and what else the loop keeps: without purging nothing else is lost, and a copy that
      is up to date stays as it is. */
  ghost predicate Copying(s0: Nodes, s: Nodes, from: Path, to: Path, todo: set<string>, pol: Policy, k: nat)
    requires k > 0
  {
    && Progress(s0, s, from, to, todo, pol, k - 1)
    && (!pol.purge ==> Kept(s0, from, s0, s, to, pol))
    && (!pol.force && MirrorTo(s0, from, s0, to, pol, k) ==> s == s0)
  }

  /** A step for one name leaves the destinations of all other names of the source alone. */
  lemma {:induction false} OthersSame(s0: Nodes, s: Nodes, t: Nodes, from: Path, to: Path, n: string, m: string, pol: Policy)
    requires ClearIn(s0, from, to, pol)
    requires n in Listing(s0, from, pol) && m in Listing(s0, from, pol) && m != n
    requires EntryStep(s, t, to, n, At(s0, Child(from, n)) != Some(Dir), pol)
    ensures SameUnder(s, t, Child(to, m))
  {
    ListingIs(s0, from, pol, n);
    ListingIs(s0, from, pol, m);
    forall p | Under(p, Child(to, m)) ensures At(s, p) == At(t, p) {
      UnderChild(p, to, m);
      UnderChild(p, to, n);
      assert p[|to|] == m;
    }
  }

  lemma {:induction false} ProgressStep(s0: Nodes, s: Nodes, t: Nodes, from: Path, to: Path, todo: set<string>,
                                        n: string, pol: Policy, k: nat)
    requires Progress(s0, s, from, to, todo, pol, k)
    requires ClearIn(s0, from, to, pol)
    requires n in todo && todo <= Listing(s0, from, pol)
    requires Closed(t) && EntryStep(s, t, to, n, At(s0, Child(from, n)) != Some(Dir), pol)
    requires MirrorTo(s0, Child(from, n), t, Child(to, n), pol, k)
    ensures Progress(s0, t, from, to, todo - {n}, pol, k)
  {
    forall m | m in Listing(s0, from, pol) && m != n ensures SameUnder(s, t, Child(to, m)) {
      OthersSame(s0, s, t, from, to, n, m, pol);
    }
    forall p | !Below(p, to) ensures At(t, p) == At(s0, p) {
      UnderChild(p, to, n);
      assert At(s, p) == At(s0, p);
    }
    forall m | m in todo - {n} ensures SameUnder(s0, t, Child(to, m)) {
      SameUnderChain(s0, s, t, Child(to, m));
    }
    forall m | m in Listing(s0, from, pol) && m !in todo - {n}
      ensures MirrorTo(s0, Child(from, m), t, Child(to, m), pol, k)
    {
      if m != n { MirrorFrame(s0, Child(from, m), s, t, Child(to, m), pol, k); }
    }
    forall c | c !in Listing(s0, from, pol) && At(t, Child(to, c)) == Some(Dir)
      ensures At(s0, Child(to, c)) == Some(Dir)
    {
      UnderAppend(to, [c]);
      UnderChild(Child(to, c), to, n);
      assert Child(to, c)[|to|] == c;
      assert At(s, Child(to, c)) == Some(Dir);
    }
  }

  lemma {:induction false} SameUnderChain(s: Nodes, t: Nodes, u: Nodes, q: Path)
    requires SameUnder(s, t, q) && SameUnder(t, u, q)
    ensures SameUnder(s, u, q)
  {
  }

  // ---------------------------------------------------------------- purging

  /** The directory without the visible entries that are not to be kept. */
  function Purged(s: Nodes, dir: Path, keep: set<string>, pol: Policy): Nodes {
    map p | p in s && !(Below(p, dir) && p[|dir|] !in keep && p[|dir|] !in pol.ignored) :: s[p]
  }

  lemma {:induction false} PurgedClosed(s: Nodes, dir: Path, keep: set<string>, pol: Policy)
    requires Closed(s)
    ensures Closed(Purged(s, dir, keep, pol))
  {
    var t := Purged(s, dir, keep, pol);
    forall p | p in t && p != [] ensures At(t, Parent(p)) == Some(Dir) {
      var q := Parent(p);
      assert At(s, q) == Some(Dir);
      if Below(q, dir) { assert p[..|dir|] == dir && p[|dir|] == q[|dir|]; }
    }
  }

  /** Purging leaves no visible name but those kept, and does not touch their trees. */
  lemma {:induction false} PurgedListing(s: Nodes, dir: Path, keep: set<string>, pol: Policy)
    ensures Listing(Purged(s, dir, keep, pol), dir, pol) <= keep
    ensures forall n | n in keep :: SameUnder(s, Purged(s, dir, keep, pol), Child(dir, n))
    ensures forall p | !Below(p, dir) :: At(Purged(s, dir, keep, pol), p) == At(s, p)
  {
    forall n, p | n in keep && Under(p, Child(dir, n)) ensures At(s, p) == At(Purged(s, dir, keep, pol), p) {
      UnderChild(p, dir, n);
    }
  }

  // ---------------------------------------------------------------- the directories above

  function Made(s: Nodes, p: Path): Nodes {
    if p in s then s else s[p := Dir]
  }

  /** With the missing directories on the way to `p`, and `p` itself. */
  function WithDirs(s: Nodes, p: Path): Nodes {
    if p == [] then s else Made(WithDirs(s, Parent(p)), p)
  }

  lemma {:induction false} WithDirsAt(s: Nodes, p: Path, q: Path)
    requires At(s, []) == Some(Dir)
    ensures At(WithDirs(s, p), q) == if At(s, q) == None && Under(p, q) then Some(Dir) else At(s, q)
    decreases |p|
  {
    if p != [] {
      WithDirsAt(s, Parent(p), q);
      if Under(p, q) && p != q { assert Parent(p)[..|q|] == q; }
      if Under(Parent(p), q) { assert p[..|q|] == q; }
    }
  }

  ghost predicate NoFileAbove(s: Nodes, to: Path) {
    forall p | Under(to, p) :: At(s, p) == None || At(s, p) == Some(Dir)
  }

  lemma {:induction false} WithDirsClosed(s: Nodes, p: Path)
    requires Closed(s) && At(s, []) == Some(Dir) && NoFileAbove(s, p)
    ensures Closed(WithDirs(s, p)) && At(WithDirs(s, p), p) == Some(Dir)
  {
    var t := WithDirs(s, p);
    WithDirsAt(s, p, p);
    forall q | q in t && q != [] ensures At(t, Parent(q)) == Some(Dir) {
      WithDirsAt(s, p, q);
      WithDirsAt(s, p, Parent(q));
      if q !in s { assert p[..|q| - 1] == Parent(q); }
    }
  }

  /** Where a directory is, everything above it is a directory. */
  lemma {:induction false} DirsAbove(s: Nodes, p: Path, q: Path)
    requires Closed(s) && At(s, p) == Some(Dir) && Under(p, q)
    ensures At(s, q) == Some(Dir)
    decreases |p|
  {
    if p != q {
      assert Parent(p)[..|q|] == q;
      DirsAbove(s, Parent(p), q);
    }
  }

  lemma {:induction false} WithDirsIdle(s: Nodes, p: Path)
    requires Closed(s) && At(s, p) == Some(Dir)
    ensures WithDirs(s, p) == s && NoFileAbove(s, p) && At(s, []) == Some(Dir)
    decreases |p|
  {
    DirsAbove(s, p, []);
    forall q | Under(p, q) ensures At(s, q) == Some(Dir) { DirsAbove(s, p, q); }
    if p != [] { WithDirsIdle(s, Parent(p)); }
  }

  lemma {:induction false} WithDirsSource(s: Nodes, from: Path, to: Path)
    requires Apart(from, to) && At(s, []) == Some(Dir)
    ensures SameUnder(s, WithDirs(s, to), from) && SameUnder(WithDirs(s, to), s, from)
  {
    forall p | Under(p, from) ensures At(WithDirs(s, to), p) == At(s, p) {
      ApartBelow(from, to, p);
      WithDirsAt(s, to, p);
    }
  }

  /** Missing directories hold nothing, so making them changes no entry below. */
  lemma {:induction false} WithDirsBelow(s: Nodes, to: Path, r: Path)
    requires At(s, []) == Some(Dir) && r != []
    ensures At(WithDirs(s, to), to + r) == At(s, to + r)
  {
    WithDirsAt(s, to, to + r);
  }

  // ---------------------------------------------------------------- the whole copy

  /** DeleteDirectoryTree and rmdir, or unlink. */
  function WithoutTree(s: Nodes, p: Path): Nodes {
    map q | q in s && !Under(q, p) :: s[q]
  }

  /** What purging has done when `names` are still to come. */
  ghost predicate Purging(s: Nodes, t: Nodes, dir: Path, keep: set<string>, names: set<string>, pol: Policy) {
    forall p :: At(t, p) == if p in Purged(s, dir, keep, pol) || (Below(p, dir) && p[|dir|] in names) then At(s, p) else None
  }

  lemma {:induction false} PurgingStarts(s: Nodes, dir: Path, keep: set<string>, pol: Policy)
    requires Closed(s)
    ensures Purging(s, s, dir, keep, Listing(s, dir, pol), pol)
  {
    forall p | p !in Purged(s, dir, keep, pol) && !(Below(p, dir) && p[|dir|] in Listing(s, dir, pol))
      ensures At(s, p) == None
    {
      if p in s {
        var n := p[|dir|];
        ListingIs(s, dir, pol, n);
        UnderChild(p, dir, n);
        assert p != Child(dir, n);
        NothingBelow(s, p, Child(dir, n));
      }
    }
  }

  lemma {:induction false} PurgingStep(s: Nodes, t: Nodes, dir: Path, keep: set<string>, names: set<string>, n: string, pol: Policy)
    requires Purging(s, t, dir, keep, names, pol) && n in names && n !in pol.ignored
    ensures Purging(s, if n in keep then t else WithoutTree(t, Child(dir, n)), dir, keep, names - {n}, pol)
  {
    var u := if n in keep then t else WithoutTree(t, Child(dir, n));
    forall p
      ensures At(u, p) == if p in Purged(s, dir, keep, pol) || (Below(p, dir) && p[|dir|] in names - {n}) then At(s, p) else None
    {
      UnderChild(p, dir, n);
      assert At(t, p) == if p in Purged(s, dir, keep, pol) || (Below(p, dir) && p[|dir|] in names) then At(s, p) else None;
    }
  }

  lemma {:induction false} PurgingEnds(s: Nodes, t: Nodes, dir: Path, keep: set<string>, pol: Policy)
    requires Purging(s, t, dir, keep, {}, pol)
    ensures t == Purged(s, dir, keep, pol)
  {
    var u := Purged(s, dir, keep, pol);
    forall p ensures At(t, p) == At(u, p) { }
    forall p ensures p in t <==> p in u { assert At(t, p) == At(u, p); }
    forall p | p in t ensures t[p] == u[p] { assert At(t, p) == At(u, p); }
  }

  // ---------------------------------------------------------------- before and after an entry

  lemma {:induction false} TopClash(s: Nodes, from: Path, to: Path, pol: Policy)
    requires NoClash(s, from, to, pol)
    ensures SameKind(At(s, from), At(s, to)) && ClearIn(s, from, to, pol)
  {
    assert Visible([], pol);
    assert from + [] == from && to + [] == to;
  }

  lemma {:induction false} TopMirror(s0: Nodes, from: Path, s: Nodes, to: Path, pol: Policy, k: nat)
    ensures MirrorTo(s0, from, s, to, pol, k) ==> Matches(At(s0, from), At(s, to), pol)
  {
    if MirrorTo(s0, from, s, to, pol, k) {
      assert from + [] == from && to + [] == to;
      assert Visible([], pol);
    }
  }

  lemma {:induction false} KeptSource(s0: Nodes, s1: Nodes, from: Path, s: Nodes, t: Nodes, to: Path, pol: Policy)
    requires Kept(s0, from, s, t, to, pol) && SameUnder(s0, s1, from)
    ensures Kept(s1, from, s, t, to, pol)
  {
    forall r | (At(s1, from + r) == None || !Visible(r, pol)) && !Spare(s1, from, r, pol)
      ensures At(t, to + r) == At(s, to + r)
    {
      UnderAppend(from, r);
      if Spare(s0, from, r, pol) {
        var n :| UsedBy(s0, from, r, n, pol);
        UnderAppend(from, Parent(r) + [n]);
        assert from + (Parent(r) + [n]) == Child(from + Parent(r), n);
        assert UsedBy(s1, from, r, n, pol);
      }
    }
  }

  /** Making the destination directory itself creates no conflict. */
  lemma {:induction false} NoClashMade(s: Nodes, t: Nodes, from: Path, to: Path, pol: Policy)
    requires NoClash(s, from, to, pol) && SameUnder(s, t, from) && At(s, from) == Some(Dir) == At(t, to)
    requires forall p | Below(p, to) :: At(t, p) == At(s, p)
    ensures NoClash(t, from, to, pol)
  {
    forall r | Visible(r, pol)
      ensures SameKind(At(t, from + r), At(t, to + r)) && ClearIn(t, from + r, to + r, pol)
    {
      UnderAppend(from, r);
      UnderAppend(to, r);
      assert SameKind(At(s, from + r), At(s, to + r)) && ClearIn(s, from + r, to + r, pol);
      SameUnderDeeper(s, t, from, r);
      assert r == [] ==> to + r == to && from + r == from;
      forall p | Below(p, to + r) ensures At(t, p) == At(s, p) {
        UnderTransitive(p, to + r, to);
      }
      ClearMade(s, t, from + r, to + r, pol);
    }
  }

  lemma {:induction false} ClearMade(s: Nodes, t: Nodes, from: Path, to: Path, pol: Policy)
    requires ClearIn(s, from, to, pol) && SameUnder(s, t, from) && (forall p | Below(p, to) :: At(t, p) == At(s, p))
    ensures ClearIn(t, from, to, pol)
  {
    forall n | n !in pol.ignored && At(t, Child(from, n)) != None && At(t, Child(from, n)) != Some(Dir)
      ensures Clear(t, from, to, n, pol)
    {
      UnderAppend(from, [n]);
      assert Clear(s, from, to, n, pol);
      forall c | Companion(c, n, pol)
        ensures At(t, Child(to, c)) != Some(Dir) && (c !in pol.ignored ==> At(t, Child(from, c)) == None)
      {
        UnderAppend(from, [c]);
        UnderAppend(to, [c]);
      }
    }
  }

  /** A directory entry may be entered once it exists at the destination. */
  lemma {:induction false} EnteringReady(s: Nodes, from: Path, to: Path, n: string, pol: Policy)
    requires Closed(s) && Apart(from, to) && At(s, to) == Some(Dir)
    requires At(s, Child(from, n)) == Some(Dir) && NoClash(s, Child(from, n), Child(to, n), pol)
    ensures var t := Made(s, Child(to, n));
            && Closed(t) && Apart(Child(from, n), Child(to, n)) && At(t, []) == Some(Dir)
            && At(t, Child(from, n)) == Some(Dir) && At(t, Child(to, n)) == Some(Dir)
            && NoFileAbove(t, Child(to, n)) && WithDirs(t, Child(to, n)) == t
            && SameUnder(s, t, Child(from, n)) && NoClash(t, Child(from, n), Child(to, n), pol)
  {
    var newfrom, newto := Child(from, n), Child(to, n);
    var t := Made(s, newto);
    TopClash(s, newfrom, newto, pol);
    ApartChildren(from, to, n, n);
    forall p | Under(p, newfrom) ensures At(t, p) == At(s, p) { ApartBelow(newfrom, newto, p); }
    NoClashMade(s, t, newfrom, newto, pol);
    WithDirsIdle(t, newto);
  }

  lemma {:induction false} EnteringDone(s: Nodes, u: Nodes, from: Path, to: Path, n: string, pol: Policy, k: nat)
    requires Closed(s) && k > 0 && n !in pol.ignored
    requires At(s, Child(from, n)) == Some(Dir) && SameUnder(s, Made(s, Child(to, n)), Child(from, n))
    requires At(Made(s, Child(to, n)), Child(to, n)) == Some(Dir)
    requires k == 1 ==> u == Made(s, Child(to, n))
    requires k > 1 ==> forall p | !Below(p, Child(to, n)) :: At(u, p) == At(Made(s, Child(to, n)), p)
    requires k > 1 ==> MirrorTo(Made(s, Child(to, n)), Child(from, n), u, Child(to, n), pol, k - 1)
    requires k > 1 && !pol.purge ==> Kept(Made(s, Child(to, n)), Child(from, n), Made(s, Child(to, n)), u, Child(to, n), pol)
    ensures EntryStep(s, u, to, n, false, pol)
    ensures MirrorTo(s, Child(from, n), u, Child(to, n), pol, k - 1)
    ensures !pol.purge ==> Kept(s, Child(from, n), s, u, Child(to, n), pol)
  {
    var newfrom, newto := Child(from, n), Child(to, n);
    var t := Made(s, newto);
    if k == 1 {
      forall r | Visible(r, pol) && |r| <= 0 ensures Matches(At(s, newfrom + r), At(u, newto + r), pol) {
        assert newfrom + r == newfrom && newto + r == newto;
      }
    } else {
      MirrorSource(t, s, newfrom, u, newto, pol, k - 1);
    }
    if !pol.purge {
      EnteringKept(s, t, u, newfrom, newto, pol);
    }
  }

  lemma {:induction false} EnteringKept(s: Nodes, t: Nodes, u: Nodes, from: Path, to: Path, pol: Policy)
    requires t == Made(s, to) && SameUnder(s, t, from) && At(s, from) == Some(Dir)
    requires u == t || Kept(t, from, t, u, to, pol)
    ensures Kept(s, from, s, u, to, pol)
  {
    if u != t { KeptSource(t, s, from, t, u, to, pol); }
    forall r | (At(s, from + r) == None || !Visible(r, pol)) && !Spare(s, from, r, pol)
      ensures At(u, to + r) == At(s, to + r)
    {
      assert from + [] == from;
      assert r != [] ==> to + r != to;
    }
  }

  lemma {:induction false} FileKept(s: Nodes, t: Nodes, from: Path, to: Path, pol: Policy)
    requires Closed(s) && Closed(t) && At(s, from) != None && At(s, to) != Some(Dir) && At(t, to) != Some(Dir)
    ensures Kept(s, from, s, t, to, pol)
  {
    forall r | (At(s, from + r) == None || !Visible(r, pol)) && !Spare(s, from, r, pol)
      ensures At(t, to + r) == At(s, to + r)
    {
      UnderAppend(to, r);
      assert from + [] == from;
      if r != [] {
        NothingBelow(s, to + r, to);
        NothingBelow(t, to + r, to);
      }
    }
  }

  lemma {:induction false} Ready(was: Nodes, from: Path, to: Path, pol: Policy, k: nat)
    requires Closed(was) && Apart(from, to) && k > 0
    requires At(was, []) == Some(Dir) && At(was, from) == Some(Dir) && NoFileAbove(was, to)
    requires NoClash(was, from, to, pol)
    ensures var s := WithDirs(was, to);
            && At(s, from) == Some(Dir) && At(s, to) == Some(Dir) && NoClash(s, from, to, pol)
            && Progress(s, s, from, to, Listing(s, from, pol), pol, k - 1)
            && (MirrorTo(was, from, was, to, pol, k) ==> s == was)
  {
    var s := WithDirs(was, to);
    WithDirsClosed(was, to);
    WithDirsSource(was, from, to);
    forall p | Below(p, to) ensures At(s, p) == At(was, p) { WithDirsAt(was, to, p); }
    NoClashMade(was, s, from, to, pol);
    TopMirror(was, from, was, to, pol, k);
    if At(was, to) == Some(Dir) { WithDirsIdle(was, to); }
  }

  /** The source is where it was, whatever has been copied. */
  lemma {:induction false} SourceStays(s: Nodes, t: Nodes, from: Path, to: Path)
    requires Apart(from, to) && (forall p | !Below(p, to) :: At(t, p) == At(s, p))
    ensures SameUnder(s, t, from) && SameUnder(t, s, from)
  {
    forall p | Under(p, from) ensures At(t, p) == At(s, p) { ApartBelow(from, to, p); }
  }

  lemma {:induction false} EntryReady(s: Nodes, cur: Nodes, from: Path, to: Path, todo: set<string>, n: string, pol: Policy, k: nat)
    requires Progress(s, cur, from, to, todo, pol, k) && Apart(from, to) && NoClash(s, from, to, pol)
    requires At(s, from) == Some(Dir) && At(s, to) == Some(Dir)
    requires n in todo && todo <= Listing(s, from, pol)
    ensures At(cur, from) == Some(Dir) && At(cur, to) == Some(Dir)
    ensures n !in pol.ignored && At(cur, Child(from, n)) == At(s, Child(from, n)) != None
    ensures NoClash(cur, Child(from, n), Child(to, n), pol)
    ensures At(cur, Child(from, n)) != Some(Dir) ==>
              forall c | Companion(c, n, pol) :: At(cur, Child(to, c)) != Some(Dir)
  {
    ListingIs(s, from, pol, n);
    SourceStays(s, cur, from, to);
    UnderAppend(from, []);
    UnderAppend(from, [n]);
    assert from + [] == from;
    SameUnderDeeper(s, cur, from, [n]);
    NoClashChild(s, from, to, n, pol);
    NoClashFrame(s, cur, Child(from, n), Child(to, n), pol);
    TopClash(s, from, to, pol);
    if At(s, Child(from, n)) != Some(Dir) {
      assert Clear(s, from, to, n, pol);
      forall c | Companion(c, n, pol) ensures At(cur, Child(to, c)) != Some(Dir) {
        ListingIs(s, from, pol, c);
      }
    }
  }

  lemma {:induction false} EntryDone(s: Nodes, before: Nodes, after: Nodes, from: Path, to: Path, todo: set<string>,
                                     n: string, pol: Policy, k: nat)
    requires Progress(s, before, from, to, todo, pol, k) && Apart(from, to) && NoClash(s, from, to, pol)
    requires n in todo && todo <= Listing(s, from, pol)
    requires Closed(after) && EntryStep(before, after, to, n, At(before, Child(from, n)) != Some(Dir), pol)
    requires MirrorTo(before, Child(from, n), after, Child(to, n), pol, k)
    requires !pol.purge ==> Kept(s, from, s, before, to, pol)
    requires !pol.purge ==> Kept(before, Child(from, n), before, after, Child(to, n), pol)
    ensures Progress(s, after, from, to, todo - {n}, pol, k)
    ensures !pol.purge ==> Kept(s, from, s, after, to, pol)
    ensures MirrorTo(s, from, s, to, pol, k + 1) ==> MirrorTo(s, Child(from, n), s, Child(to, n), pol, k)
  {
    ListingIs(s, from, pol, n);
    SourceStays(s, before, from, to);
    UnderAppend(from, [n]);
    SameUnderDeeper(before, s, from, [n]);
    MirrorSource(before, s, Child(from, n), after, Child(to, n), pol, k);
    TopClash(s, from, to, pol);
    ProgressStep(s, before, after, from, to, todo, n, pol, k);
    if !pol.purge {
      KeptSource(before, s, Child(from, n), before, after, Child(to, n), pol);
      KeptStep(s, before, after, from, to, n, At(s, Child(from, n)) != Some(Dir), pol);
    }
    if MirrorTo(s, from, s, to, pol, k + 1) { MirrorChild(s, from, s, to, n, pol, k + 1); }
  }

  /** There is nothing to purge in a mirror. */
  lemma {:induction false} PurgeIdle(s: Nodes, from: Path, to: Path, pol: Policy, k: nat)
    requires Closed(s) && k > 0 && pol.purge && MirrorTo(s, from, s, to, pol, k)
    ensures Purged(s, to, Listing(s, from, pol), pol) == s
  {
    forall p | p in s && Below(p, to) && p[|to|] !in pol.ignored ensures p[|to|] in Listing(s, from, pol) {
      NotPurged(s, from, to, pol, k, p);
    }
  }

  lemma {:induction false} NotPurged(s: Nodes, from: Path, to: Path, pol: Policy, k: nat, p: Path)
    requires Closed(s) && k > 0 && pol.purge && MirrorTo(s, from, s, to, pol, k)
    requires p in s && Below(p, to) && p[|to|] !in pol.ignored
    ensures p[|to|] in Listing(s, from, pol)
  {
    var n := p[|to|];
    ListingIs(s, from, pol, n);
    assert Visible([n], pol);
    assert Matches(At(s, from + [n]), At(s, to + [n]), pol);
    UnderChild(p, to, n);
    assert p != Child(to, n) ==> Below(p, Child(to, n));
    if At(s, Child(to, n)) == None && p != Child(to, n) { NothingBelow(s, p, Child(to, n)); }
  }

  lemma {:induction false} Finished(was: Nodes, copied: Nodes, final: Nodes, from: Path, to: Path, pol: Policy, k: nat)
    requires Closed(was) && Apart(from, to) && k > 0 && At(was, []) == Some(Dir)
    requires At(WithDirs(was, to), from) == Some(Dir) && At(WithDirs(was, to), to) == Some(Dir)
    requires Progress(WithDirs(was, to), WithDirs(was, to), from, to, Listing(WithDirs(was, to), from, pol), pol, k - 1)
    requires Progress(WithDirs(was, to), copied, from, to, {}, pol, k - 1)
    requires final == if pol.purge then Purged(copied, to, Listing(WithDirs(was, to), from, pol), pol) else copied
    ensures Closed(final) && MirrorTo(was, from, final, to, pol, k)
    ensures forall p | !Below(p, to) :: At(final, p) == At(WithDirs(was, to), p)
  {
    var s := WithDirs(was, to);
    var all := Listing(s, from, pol);
    PurgedClosed(copied, to, all, pol);
    PurgedListing(copied, to, all, pol);
    forall n | n in all ensures MirrorTo(s, Child(from, n), final, Child(to, n), pol, k - 1) {
      if pol.purge { MirrorFrame(s, Child(from, n), copied, final, Child(to, n), pol, k - 1); }
    }
    assert At(final, to) == Some(Dir);
    Assemble(s, from, final, to, pol, k);
    WithDirsSource(was, from, to);
    MirrorSource(s, was, from, final, to, pol, k);
  }

  lemma {:induction false} FinishedKept(was: Nodes, final: Nodes, from: Path, to: Path, pol: Policy)
    requires Apart(from, to) && At(was, []) == Some(Dir) && At(was, from) == Some(Dir)
    requires Kept(WithDirs(was, to), from, WithDirs(was, to), final, to, pol)
    ensures Kept(was, from, was, final, to, pol)
  {
    var s := WithDirs(was, to);
    WithDirsSource(was, from, to);
    KeptSource(s, was, from, s, final, to, pol);
    forall r | (At(was, from + r) == None || !Visible(r, pol)) && !Spare(was, from, r, pol)
      ensures At(final, to + r) == At(was, to + r)
    {
      assert from + [] == from;
      if r != [] { WithDirsBelow(was, to, r); }
    }
  }

  /** No companion has a name that is always ignored. */
  ghost predicate CompanionsVisible(pol: Policy) {
    forall n, c | Companion(c, n, pol) :: c !in pol.ignored
  }

  /** After a purging copy there is still no conflict: the copy can be repeated. */
  lemma {:induction false} NoClashAgain(was: Nodes, s: Nodes, from: Path, to: Path, pol: Policy)
    requires NoClash(was, from, to, pol) && SameUnder(was, s, from) && Mirror(was, from, s, to, pol)
    requires pol.purge && CompanionsVisible(pol)
    ensures NoClash(s, from, to, pol) && Mirror(s, from, s, to, pol)
  {
    forall r | Visible(r, pol)
      ensures SameKind(At(s, from + r), At(s, to + r)) && ClearIn(s, from + r, to + r, pol) && At(s, from + r) == At(s, to + r)
    {
      UnderAppend(from, r);
      assert Matches(At(was, from + r), At(s, to + r), pol);
      assert ClearIn(was, from + r, to + r, pol);
      SameUnderDeeper(was, s, from, r);
      forall n | n !in pol.ignored && At(s, Child(from + r, n)) != None && At(s, Child(from + r, n)) != Some(Dir)
        ensures Clear(s, from + r, to + r, n, pol)
      {
        UnderAppend(from + r, [n]);
        assert Clear(was, from + r, to + r, n, pol);
        ClearAgain(was, s, from, to, r, n, pol);
      }
    }
  }

  lemma {:induction false} ClearAgain(was: Nodes, s: Nodes, from: Path, to: Path, r: Path, n: string, pol: Policy)
    requires Clear(was, from + r, to + r, n, pol) && SameUnder(was, s, from) && Mirror(was, from, s, to, pol)
    requires pol.purge && CompanionsVisible(pol) && Visible(r, pol)
    ensures Clear(s, from + r, to + r, n, pol)
  {
    forall c | Companion(c, n, pol)
      ensures At(s, Child(to + r, c)) != Some(Dir) && (c !in pol.ignored ==> At(s, Child(from + r, c)) == None)
    {
      var q := r + [c];
      assert Visible(q, pol);
      assert Child(from + r, c) == from + q && Child(to + r, c) == to + q;
      UnderAppend(from, q);
      assert Matches(At(was, from + q), At(s, to + q), pol);
    }
  }

  lemma {:induction false} Again(was: Nodes, s: Nodes, from: Path, to: Path, pol: Policy, k: nat)
    requires Closed(was) && Closed(s) && Apart(from, to) && At(was, []) == Some(Dir) && At(was, from) == Some(Dir)
    requires NoClash(was, from, to, pol) && pol.purge && CompanionsVisible(pol) && Lower(was, from, pol, k)
    requires forall p | !Below(p, to) :: At(s, p) == At(WithDirs(was, to), p)
    requires MirrorTo(was, from, s, to, pol, k)
    ensures Mirror(was, from, s, to, pol) && MirrorTo(s, from, s, to, pol, k)
    ensures At(s, []) == Some(Dir) && At(s, from) == Some(Dir) && NoFileAbove(s, to) && NoClash(s, from, to, pol)
  {
    DepthSuffices(was, from, s, to, pol, k);
    SourceStays(WithDirs(was, to), s, from, to);
    WithDirsSource(was, from, to);
    SameUnderChain(was, WithDirs(was, to), s, from);
    NoClashAgain(was, s, from, to, pol);
    TopMirror(was, from, s, to, pol, k);
    WithDirsIdle(s, to);
    UnderAppend(from, []);
    assert from + [] == from;
  }

  class TreeCopier {
    var nodes: Nodes
    const pol: Policy

    constructor (nodes: Nodes, pol: Policy)
      ensures this.nodes == nodes && this.pol == pol
    {
      this.nodes := nodes;
      this.pol := pol;
    }

    method MakeParentDirectory(to: Path)
      modifies this`nodes
      ensures nodes == WithDirs(old(nodes), to)
    {
      var i := 0;
      assert to[..0] == [];
      while i < |to|
        invariant 0 <= i <= |to| && nodes == WithDirs(old(nodes), to[..i])
      {
        i := i + 1;
        assert Parent(to[..i]) == to[..i - 1];
        if to[..i] !in nodes { nodes := nodes[to[..i] := Dir]; }
      }
      assert to[..|to|] == to;
    }

    /** Purging the root directory is refused. */
    method PurgeLocalFiles(filelist: set<string>, localdir: Path)
      requires Closed(nodes)
      modifies this`nodes
      ensures nodes == if localdir == [] then old(nodes) else Purged(old(nodes), localdir, filelist, pol)
    {
      if localdir == [] { return; }
      var names := Listing(nodes, localdir, pol);
      PurgingStarts(nodes, localdir, filelist, pol);
      while names != {}
        invariant Purging(old(nodes), nodes, localdir, filelist, names, pol)
        invariant forall n | n in names :: n !in pol.ignored
        decreases names
      {
        var n :| n in names;
        PurgingStep(old(nodes), nodes, localdir, filelist, names, n, pol);
        if n !in filelist { nodes := WithoutTree(nodes, Child(localdir, n)); }
        names := names - {n};
      }
      PurgingEnds(old(nodes), nodes, localdir, filelist, pol);
    }

    /** Both branches of CfCopyFile for a regular file on this host. */
    method CfCopyFile(from: Path, to: Path, n: string)
      requires pol.backup != Some([]) && Closed(nodes) && At(nodes, to) == Some(Dir)
      requires At(nodes, Child(from, n)) != None && At(nodes, Child(from, n)) != Some(Dir)
      requires At(nodes, Child(to, n)) != Some(Dir)
      requires forall c | Companion(c, n, pol) :: At(nodes, Child(to, c)) != Some(Dir)
      modifies this`nodes
      ensures Closed(nodes) && EntryStep(old(nodes), nodes, to, n, true, pol)
      ensures At(nodes, Child(to, n)) == At(old(nodes), Child(from, n))
      ensures nodes == CopyIn(old(nodes), from, to, n, pol)
      ensures !pol.force && At(old(nodes), Child(to, n)) == At(old(nodes), Child(from, n)) ==> nodes == old(nodes)
    {
      var content := nodes[Child(from, n)].content;
      if Child(to, n) !in nodes || pol.force || nodes[Child(to, n)] != File(content) {
        CopiedStep(nodes, to, n, content, pol);
        CopiedClosed(nodes, to, n, content, pol);
        CopiedAt(nodes, to, n, content, pol);
        nodes := Copied(nodes, to, n, content, pol);
      }
    }
  
    /** The body of the loop over the source directory. */
    method CopyEntry(from: Path, to: Path, n: string, maxrecurse: nat)
      requires maxrecurse > 0 && pol.backup != Some([]) && Closed(nodes) && Apart(from, to)
      requires At(nodes, from) == Some(Dir) && At(nodes, to) == Some(Dir)
      requires At(nodes, Child(from, n)) != None && n !in pol.ignored
      requires NoClash(nodes, Child(from, n), Child(to, n), pol)
      requires At(nodes, Child(from, n)) != Some(Dir) ==>
                 forall c | Companion(c, n, pol) :: At(nodes, Child(to, c)) != Some(Dir)
      modifies this`nodes
      decreases maxrecurse, 0
      ensures Closed(nodes)
      ensures EntryStep(old(nodes), nodes, to, n, At(old(nodes), Child(from, n)) != Some(Dir), pol)
      ensures MirrorTo(old(nodes), Child(from, n), nodes, Child(to, n), pol, maxrecurse - 1)
      ensures !pol.purge ==> Kept(old(nodes), Child(from, n), old(nodes), nodes, Child(to, n), pol)
      ensures !pol.force && MirrorTo(old(nodes), Child(from, n), old(nodes), Child(to, n), pol, maxrecurse - 1)
              ==> nodes == old(nodes)
    {
      ghost var s := nodes;
      var newfrom, newto := Child(from, n), Child(to, n);
      TopClash(s, newfrom, newto, pol);
      if nodes[newfrom] == Dir {
        if newto !in nodes { nodes := nodes[newto := Dir]; }
        EnteringReady(s, from, to, n, pol);
        SourceSearchAndCopy(newfrom, newto, maxrecurse - 1);
        EnteringDone(s, nodes, from, to, n, pol, maxrecurse);
      } else {
        CfCopyFile(from, to, n);
        MirrorFile(s, newfrom, nodes, newto, pol, maxrecurse - 1);
        FileKept(s, nodes, newfrom, newto, pol);
      }
      TopMirror(s, newfrom, s, newto, pol, maxrecurse - 1);
    }

    /** The loop over the source directory; DirRead may yield the names in any order. */
    method CopyEntries(from: Path, to: Path, maxrecurse: nat)
      requires maxrecurse > 0 && pol.backup != Some([]) && Apart(from, to)
      requires At(nodes, from) == Some(Dir) && At(nodes, to) == Some(Dir) && NoClash(nodes, from, to, pol)
      requires Copying(nodes, nodes, from, to, Listing(nodes, from, pol), pol, maxrecurse)
      modifies this`nodes
      decreases maxrecurse, 1
      ensures Copying(old(nodes), nodes, from, to, {}, pol, maxrecurse)
    {
      ghost var s := nodes;
      var todo := Listing(nodes, from, pol);
      ghost var all := todo;
      while todo != {}
        invariant todo <= all && Copying(s, nodes, from, to, todo, pol, maxrecurse)
        decreases todo
      {
        var n :| n in todo;
        ghost var before := nodes;
        EntryReady(s, before, from, to, todo, n, pol, maxrecurse - 1);
        CopyEntry(from, to, n, maxrecurse);
        EntryDone(s, before, nodes, from, to, todo, n, pol, maxrecurse - 1);
        todo := todo - {n};
      }
    }

    method SourceSearchAndCopy(from: Path, to: Path, maxrecurse: nat)
      requires pol.backup != Some([]) && Closed(nodes) && Apart(from, to)
      requires At(nodes, []) == Some(Dir) && At(nodes, from) == Some(Dir) && NoFileAbove(nodes, to)
      requires NoClash(nodes, from, to, pol)
      modifies this`nodes
      decreases maxrecurse, 2
      ensures Closed(nodes)
      ensures maxrecurse == 0 ==> nodes == old(nodes)
      ensures maxrecurse > 0 ==> forall p | !Below(p, to) :: At(nodes, p) == At(WithDirs(old(nodes), to), p)
      ensures maxrecurse > 0 ==> MirrorTo(old(nodes), from, nodes, to, pol, maxrecurse)
      ensures maxrecurse > 0 && !pol.purge ==> Kept(old(nodes), from, old(nodes), nodes, to, pol)
      ensures !pol.force && MirrorTo(old(nodes), from, old(nodes), to, pol, maxrecurse) ==> nodes == old(nodes)
    {
      if maxrecurse == 0 { return; }
      ghost var was := nodes;
      MakeParentDirectory(to);
      Ready(was, from, to, pol, maxrecurse);
      var namecache := if pol.purge then Listing(nodes, from, pol) else {};
      CopyEntries(from, to, maxrecurse);
      ghost var copied := nodes;
      if pol.purge { PurgeLocalFiles(namecache, to); }
      Finished(was, copied, nodes, from, to, pol, maxrecurse);
      if !pol.purge { FinishedKept(was, nodes, from, to, pol); }
      if pol.purge && MirrorTo(was, from, was, to, pol, maxrecurse) { PurgeIdle(was, from, to, pol, maxrecurse); }
    }
  
    /** The promise on two successive runs: with purging and a limit above the tree's height, the
        first makes the destination equal to the source and the second does nothing. */
    method RunTwice(from: Path, to: Path, maxrecurse: nat) returns (ghost first: Nodes)
      requires pol.backup != Some([]) && Closed(nodes) && Apart(from, to)
      requires At(nodes, []) == Some(Dir) && At(nodes, from) == Some(Dir) && NoFileAbove(nodes, to)
      requires NoClash(nodes, from, to, pol) && CompanionsVisible(pol)
      requires pol.purge && !pol.force && maxrecurse > 0 && Lower(nodes, from, pol, maxrecurse)
      modifies this`nodes
      ensures Mirror(old(nodes), from, nodes, to, pol) && nodes == first
    {
      ghost var was := nodes;
      SourceSearchAndCopy(from, to, maxrecurse);
      first := nodes;
      Again(was, first, from, to, pol, maxrecurse);
      SourceSearchAndCopy(from, to, maxrecurse);
    }
  }
}
