/** Copying many files with one inode cache (VerifyCopy, RegisterAHardLink and the part of
    CfCopyFile for regular files, cf-agent/verify_files_utils.c), when all system calls succeed. */
module HardLinks {
  import opened Common
  import opened FileSystem
  import opened CompressedArray
  import opened CopyFile

  /** One file to copy: names, and what stat(2) says about the source. */
  datatype Job = Job(source: string, dest: string, ino: nat, links: nat)

  predicate AllSucceeds(env: Env) {
    env.linkOk && env.chunk > 0 && env.copyStop.None? && !env.vanished && env.verified && env.installOk
  }

  predicate Apart(job: Job, option: BackupOption) {
    job.source !in {job.dest, NewName(job.dest), BackupName(job.dest, option)}
  }

  /** The destination an earlier link to the same source inode was copied to. */
  function Earlier(cells: seq<Cell>, job: Job): Option<string> {
    if job.links > 1 then Lookup(cells, CacheKey(job.ino)) else None
  }

  /** RegisterAHardLink: the first destination is recorded, a later one is unlinked. */
  method RegisterAHardLink(disk: Disk, cache: Cache, key: int, dest: string, ghost option: BackupOption)
    requires disk.Valid()
    modifies disk, cache
    ensures disk.Valid() && cache.cells == Fixed(old(cache.cells), key, dest)
    ensures OnlyThree(old(disk.now), disk.now, dest, option)
    ensures if Lookup(old(cache.cells), key).None? then disk.now == old(disk.now)
            else disk.now == Unlinked(old(disk.now), dest)
  {
    var fixed := cache.Fix(key, dest);
    if !fixed {
      disk.Unlink(dest);
    }
  }

  /** CfCopyFile for a regular source: a symbolic link in the way is removed, a missing or different
      destination is copied, an equal one is left alone unless an update is forced. */
  method CfCopyFile(disk: Disk, cache: Cache, job: Job, option: BackupOption, force: bool, env: Env)
    requires disk.Valid() && AllSucceeds(env) && Apart(job, option) && Read(disk.now, job.source).Some?
    modifies disk
    ensures disk.Valid() && OnlyThree(old(disk.now), disk.now, job.dest, option)
    ensures match Earlier(cache.cells, job)
            case Some(first) =>
              first != job.dest && At(old(disk.now), job.dest).None? ==>
                At(disk.now, job.dest) == At(old(disk.now), first)
            case None => Read(disk.now, job.dest) == Read(old(disk.now), job.source)
    ensures Earlier(cache.cells, job) == Some(job.dest) ==>
              Read(disk.now, job.dest) == Read(old(disk.now), job.source)
  {
    var content := Read(disk.now, job.source).value;
    ghost var start := disk.now;
    if At(disk.now, job.dest).Some? && At(disk.now, job.dest).value.Symlink? {
      disk.Unlink(job.dest);
    }
    ghost var cleared := disk.now;
    assert OnlyThree(start, cleared, job.dest, option);
    if At(disk.now, job.dest).None? || force || Read(disk.now, job.dest) != Some(content) {
      var stat := SourceStat(job.ino, job.links, |content|);
      var _ := CopyRegularFile(disk, cache, job.source, job.dest, stat, option, env);
      OnlyThreeChain(start, cleared, disk.now, job.dest, option);
    }
  }

  /** VerifyCopy of a regular file. */
  method VerifyCopy(disk: Disk, cache: Cache, job: Job, option: BackupOption, force: bool, env: Env)
    requires disk.Valid() && AllSucceeds(env) && Apart(job, option) && Read(disk.now, job.source).Some?
    modifies disk, cache
    ensures disk.Valid() && OnlyThree(old(disk.now), disk.now, job.dest, option)
    ensures cache.cells == if job.links > 1 then Fixed(old(cache.cells), CacheKey(job.ino), job.dest)
                           else old(cache.cells)
    ensures match Earlier(old(cache.cells), job)
            case Some(first) => first != job.dest ==> At(disk.now, job.dest) == At(old(disk.now), first)
            case None => Read(disk.now, job.dest) == Read(old(disk.now), job.source)
  {
    ghost var start, cells := disk.now, cache.cells;
    if job.links > 1 {
      RegisterAHardLink(disk, cache, CacheKey(job.ino), job.dest, option);
      FixedLookup(cells, CacheKey(job.ino), job.dest, CacheKey(job.ino));
    }
    ghost var registered := disk.now;
    assert Read(disk.now, job.source) == Read(start, job.source);
    CfCopyFile(disk, cache, job, option, force, env);
    OnlyThreeChain(start, registered, disk.now, job.dest, option);
  }

  // ---------------------------------------------------------------- many copies

  /** The first of the first `n` jobs that is a link to an inode with this key. */
  function Registered(jobs: seq<Job>, n: nat, key: int): (r: Option<nat>)
    requires n <= |jobs|
    ensures r.Some? ==> r.value < n && jobs[r.value].links > 1 && CacheKey(jobs[r.value].ino) == key
  {
    if n == 0 then None
    else match Registered(jobs, n - 1, key)
         case Some(f) => Some(f)
         case None => if jobs[n - 1].links > 1 && CacheKey(jobs[n - 1].ino) == key then Some(n - 1) else None
  }

  /** The job whose copy job `i` ends up sharing: itself, or the first with the same key. */
  function First(jobs: seq<Job>, i: nat): (f: nat)
    requires i < |jobs|
    ensures f <= i
  {
    if jobs[i].links > 1 && Registered(jobs, i + 1, CacheKey(jobs[i].ino)).Some?
    then Registered(jobs, i + 1, CacheKey(jobs[i].ino)).value else i
  }

  /** Destinations are distinct, and no destination or source is another copy's new or backup name. */
  ghost predicate NoClash(jobs: seq<Job>, option: BackupOption) {
    && (forall i, j | 0 <= i < j < |jobs| :: jobs[i].dest != jobs[j].dest)
    && (forall i, j | 0 <= i < |jobs| && 0 <= j < |jobs| && i != j ::
          jobs[j].dest !in {NewName(jobs[i].dest), BackupName(jobs[i].dest, option)})
    && (forall i, j | 0 <= i < |jobs| && 0 <= j < |jobs| ::
          jobs[j].source !in {jobs[i].dest, NewName(jobs[i].dest), BackupName(jobs[i].dest, option)})
  }

  /** Job `i` is done: its destination is one inode with its first copy, holding that source. */
  ghost predicate Done(start: State, s: State, jobs: seq<Job>, i: nat)
    requires i < |jobs|
  {
    var f := First(jobs, i);
    && At(s, jobs[i].dest) == At(s, jobs[f].dest)
    && Read(s, jobs[i].dest) == Read(start, jobs[f].source)
  }

  ghost predicate CacheIs(cells: seq<Cell>, jobs: seq<Job>, n: nat)
    requires n <= |jobs|
  {
    forall k :: Lookup(cells, k) == match Registered(jobs, n, k) case None => None case Some(f) => Some(jobs[f].dest)
  }

  ghost predicate SourcesKept(start: State, s: State, jobs: seq<Job>) {
    forall j | 0 <= j < |jobs| :: Read(start, jobs[j].source).Some? && Read(s, jobs[j].source) == Read(start, jobs[j].source)
  }

  /** A later copy leaves an earlier one alone. */
  lemma {:induction false} DoneKept(start: State, a: State, b: State, jobs: seq<Job>, i: nat, n: nat, option: BackupOption)
    requires i < n < |jobs| && NoClash(jobs, option)
    requires Done(start, a, jobs, i) && Read(a, jobs[i].dest).Some?
    requires OnlyThree(a, b, jobs[n].dest, option)
    ensures Done(start, b, jobs, i) && Read(b, jobs[i].dest).Some?
  {
    var f := First(jobs, i);
    assert At(b, jobs[i].dest) == At(a, jobs[i].dest);
    assert At(b, jobs[f].dest) == At(a, jobs[f].dest);
  }

  lemma {:induction false} SourcesStay(start: State, a: State, b: State, jobs: seq<Job>, n: nat, option: BackupOption)
    requires n < |jobs| && NoClash(jobs, option) && SourcesKept(start, a, jobs)
    requires OnlyThree(a, b, jobs[n].dest, option)
    ensures SourcesKept(start, b, jobs)
  {
    forall j | 0 <= j < |jobs| ensures Read(b, jobs[j].source) == Read(start, jobs[j].source) {
      assert At(b, jobs[j].source) == At(a, jobs[j].source);
    }
  }

  lemma {:induction false} CacheStep(cells: seq<Cell>, jobs: seq<Job>, n: nat)
    requires n < |jobs| && CacheIs(cells, jobs, n)
    ensures var job := jobs[n];
            CacheIs(if job.links > 1 then Fixed(cells, CacheKey(job.ino), job.dest) else cells, jobs, n + 1)
  {
    var job := jobs[n];
    var next := if job.links > 1 then Fixed(cells, CacheKey(job.ino), job.dest) else cells;
    forall k ensures Lookup(next, k) == match Registered(jobs, n + 1, k) case None => None case Some(f) => Some(jobs[f].dest) {
      FixedLookup(cells, CacheKey(job.ino), job.dest, k);
      assert Lookup(cells, k) == match Registered(jobs, n, k) case None => None case Some(f) => Some(jobs[f].dest);
    }
  }

  lemma {:induction false} NewlyDone(start: State, a: State, b: State, cells: seq<Cell>, jobs: seq<Job>, n: nat, option: BackupOption)
    requires n < |jobs| && NoClash(jobs, option) && CacheIs(cells, jobs, n) && SourcesKept(start, a, jobs)
    requires forall i | 0 <= i < n :: Done(start, a, jobs, i) && Read(a, jobs[i].dest).Some?
    requires OnlyThree(a, b, jobs[n].dest, option)
    requires match Earlier(cells, jobs[n])
             case Some(first) => first != jobs[n].dest ==> At(b, jobs[n].dest) == At(a, first)
             case None => Read(b, jobs[n].dest) == Read(a, jobs[n].source)
    ensures Done(start, b, jobs, n) && Read(b, jobs[n].dest).Some?
  {
    var job := jobs[n];
    var f := First(jobs, n);
    if job.links > 1 {
      var k := CacheKey(job.ino);
      assert Lookup(cells, k) == match Registered(jobs, n, k) case None => None case Some(f) => Some(jobs[f].dest);
      if Registered(jobs, n, k).Some? {
        assert f == Registered(jobs, n, k).value && f < n;
        FirstIsOwn(jobs, f, n, k);
        assert Done(start, a, jobs, f);
        assert At(b, jobs[f].dest) == At(a, jobs[f].dest);
      } else {
        assert f == n;
      }
    }
    assert Read(a, job.source) == Read(start, job.source);
  }

  /** The first link to an inode is its own first. */
  lemma {:induction false} FirstIsOwn(jobs: seq<Job>, f: nat, n: nat, key: int)
    requires n <= |jobs| && Registered(jobs, n, key) == Some(f)
    ensures First(jobs, f) == f
    decreases n
  {
    if f < n - 1 {
      FirstIsOwn(jobs, f, n - 1, key);
    }
  }

  /** Everything that holds after the first `n` copies. */
  ghost predicate Progress(start: State, s: State, cells: seq<Cell>, jobs: seq<Job>, n: nat)
    requires n <= |jobs|
  {
    && CacheIs(cells, jobs, n)
    && SourcesKept(start, s, jobs)
    && (forall i | 0 <= i < n :: Done(start, s, jobs, i) && Read(s, jobs[i].dest).Some?)
  }

  lemma {:induction false} ProgressStep(start: State, a: State, b: State, cells: seq<Cell>, jobs: seq<Job>, n: nat, option: BackupOption)
    requires n < |jobs| && NoClash(jobs, option) && Progress(start, a, cells, jobs, n)
    requires OnlyThree(a, b, jobs[n].dest, option)
    requires match Earlier(cells, jobs[n])
             case Some(first) => first != jobs[n].dest ==> At(b, jobs[n].dest) == At(a, first)
             case None => Read(b, jobs[n].dest) == Read(a, jobs[n].source)
    ensures var job := jobs[n];
            Progress(start, b, if job.links > 1 then Fixed(cells, CacheKey(job.ino), job.dest) else cells, jobs, n + 1)
  {
    CacheStep(cells, jobs, n);
    SourcesStay(start, a, b, jobs, n, option);
    NewlyDone(start, a, b, cells, jobs, n, option);
    forall i | 0 <= i < n ensures Done(start, b, jobs, i) && Read(b, jobs[i].dest).Some? {
      DoneKept(start, a, b, jobs, i, n, option);
    }
  }

  /** The copies one after the other. */
  method CopyEach(disk: Disk, cache: Cache, jobs: seq<Job>, option: BackupOption, force: bool, env: Env)
    requires disk.Valid() && cache.cells == [] && AllSucceeds(env) && NoClash(jobs, option)
    requires forall j | 0 <= j < |jobs| :: Read(disk.now, jobs[j].source).Some?
    modifies disk, cache
    ensures disk.Valid() && Progress(old(disk.now), disk.now, cache.cells, jobs, |jobs|)
  {
    ghost var start := disk.now;
    var n := 0;
    while n < |jobs|
      invariant n <= |jobs| && disk.Valid()
      invariant Progress(start, disk.now, cache.cells, jobs, n)
    {
      CopyNext(disk, cache, jobs, n, option, force, env, start);
      n := n + 1;
    }
  }

  method CopyNext(disk: Disk, cache: Cache, jobs: seq<Job>, n: nat, option: BackupOption, force: bool, env: Env, ghost start: State)
    requires disk.Valid() && n < |jobs| && AllSucceeds(env) && NoClash(jobs, option)
    requires Progress(start, disk.now, cache.cells, jobs, n)
    modifies disk, cache
    ensures disk.Valid() && Progress(start, disk.now, cache.cells, jobs, n + 1)
  {
    ghost var a, cells := disk.now, cache.cells;
    ReadyFor(start, a, cells, jobs, n, option);
    VerifyCopy(disk, cache, jobs[n], option, force, env);
    ProgressStep(start, a, disk.now, cells, jobs, n, option);
  }

  /** Over any sequence of copies to distinct destinations with one inode cache, every destination
      shares the inode of the first copy with its key and holds that copy's source content. That is its
      own source, for all of them, exactly when the low 32 bits of the inode numbers identify the
      content; and destinations of one inode are one inode again. */
  method CopyAll(disk: Disk, cache: Cache, jobs: seq<Job>, option: BackupOption, force: bool, env: Env)
    requires disk.Valid() && cache.cells == [] && AllSucceeds(env) && NoClash(jobs, option)
    requires forall j | 0 <= j < |jobs| :: Read(disk.now, jobs[j].source).Some?
    modifies disk, cache
    ensures disk.Valid() && Progress(old(disk.now), disk.now, cache.cells, jobs, |jobs|)
    ensures OwnContents(old(disk.now), disk.now, jobs) <==> NumbersIdentify(old(disk.now), jobs)
    ensures SmallNumbers(old(disk.now), jobs) ==> OwnContents(old(disk.now), disk.now, jobs)
    ensures LinksShared(disk.now, jobs)
  {
    CopyEach(disk, cache, jobs, option, force, env);
    CopiesAre(old(disk.now), disk.now, cache.cells, jobs);
  }

  lemma {:induction false} ReadyFor(start: State, s: State, cells: seq<Cell>, jobs: seq<Job>, n: nat, option: BackupOption)
    requires n < |jobs| && NoClash(jobs, option) && Progress(start, s, cells, jobs, n)
    ensures Apart(jobs[n], option) && Read(s, jobs[n].source).Some?
  {
  }

  // ---------------------------------------------------------------- when the copies are right

  lemma {:induction false} SameKeySameFirst(jobs: seq<Job>, i: nat, j: nat)
    requires i < |jobs| && j < |jobs| && jobs[i].links > 1 && jobs[j].links > 1
    requires CacheKey(jobs[i].ino) == CacheKey(jobs[j].ino)
    ensures First(jobs, i) == First(jobs, j)
  {
    if i <= j {
      RegisteredStays(jobs, i + 1, j + 1, CacheKey(jobs[i].ino));
    } else {
      RegisteredStays(jobs, j + 1, i + 1, CacheKey(jobs[i].ino));
    }
  }

  lemma {:induction false} RegisteredStays(jobs: seq<Job>, m: nat, n: nat, key: int)
    requires m <= n <= |jobs| && Registered(jobs, m, key).Some?
    ensures Registered(jobs, n, key) == Registered(jobs, m, key)
    decreases n
  {
    if m < n {
      RegisteredStays(jobs, m, n - 1, key);
    }
  }

  /** Two links with the same cache key have the same content. */
  ghost predicate KeysIdentify(s: State, jobs: seq<Job>) {
    forall i, j | 0 <= i < |jobs| && 0 <= j < |jobs| && jobs[i].links > 1 && jobs[j].links > 1
                  && CacheKey(jobs[i].ino) == CacheKey(jobs[j].ino) ::
      Read(s, jobs[i].source) == Read(s, jobs[j].source)
  }

  /** Every destination holds its own source's content exactly when the cache keys identify the
      sources: the key keeps 32 bits of the inode number and leaves out the device. */
  lemma {:induction false} FaithfulExactly(s: State, jobs: seq<Job>)
    ensures (forall i | 0 <= i < |jobs| :: Read(s, jobs[First(jobs, i)].source) == Read(s, jobs[i].source))
            <==> KeysIdentify(s, jobs)
  {
    if forall i | 0 <= i < |jobs| :: Read(s, jobs[First(jobs, i)].source) == Read(s, jobs[i].source) {
      forall i, j | 0 <= i < |jobs| && 0 <= j < |jobs| && jobs[i].links > 1 && jobs[j].links > 1
                    && CacheKey(jobs[i].ino) == CacheKey(jobs[j].ino)
        ensures Read(s, jobs[i].source) == Read(s, jobs[j].source)
      {
        SameKeySameFirst(jobs, i, j);
      }
    }
  }

  // ---------------------------------------------------------------- told by inode numbers

  /** Two multiply linked sources share their first copy exactly when their inode numbers agree in the
      low 32 bits. */
  lemma {:induction false} SharedExactly(jobs: seq<Job>, i: nat, j: nat)
    requires i < |jobs| && j < |jobs| && jobs[i].links > 1 && jobs[j].links > 1
    ensures First(jobs, i) == First(jobs, j) <==> jobs[i].ino % 0x1_0000_0000 == jobs[j].ino % 0x1_0000_0000
  {
    FirstIs(jobs, i);
    FirstIs(jobs, j);
    if jobs[i].ino % 0x1_0000_0000 == jobs[j].ino % 0x1_0000_0000 {
      SameKeySameFirst(jobs, i, j);
    }
  }

  /** The first copy: a file with one link is its own; otherwise it is the earliest multiply linked
      source whose inode number agrees in the low 32 bits. */
  lemma {:induction false} FirstIs(jobs: seq<Job>, i: nat)
    requires i < |jobs|
    ensures var f := First(jobs, i);
            if jobs[i].links <= 1 then f == i
            else && jobs[f].links > 1 && jobs[f].ino % 0x1_0000_0000 == jobs[i].ino % 0x1_0000_0000
                 && forall g | 0 <= g < f && jobs[g].links > 1 ::
                      jobs[g].ino % 0x1_0000_0000 != jobs[i].ino % 0x1_0000_0000
  {
    if jobs[i].links > 1 {
      forall g | 0 <= g < First(jobs, i) && jobs[g].links > 1
        ensures jobs[g].ino % 0x1_0000_0000 != jobs[i].ino % 0x1_0000_0000
      {
        NoneBefore(jobs, i + 1, g, jobs[i].ino);
      }
    }
  }

  lemma {:induction false} NoneBefore(jobs: seq<Job>, n: nat, g: nat, ino: nat)
    requires g < n <= |jobs| && jobs[g].links > 1
    ensures jobs[g].ino % 0x1_0000_0000 == ino % 0x1_0000_0000 ==>
              Registered(jobs, n, CacheKey(ino)).Some? && Registered(jobs, n, CacheKey(ino)).value <= g
    decreases n
  {
    if g < n - 1 {
      NoneBefore(jobs, n - 1, g, ino);
    }
  }

  /** Multiply linked sources whose inode numbers agree in the low 32 bits have the same content. */
  ghost predicate NumbersIdentify(s: State, jobs: seq<Job>) {
    forall i, j | 0 <= i < |jobs| && 0 <= j < |jobs| && jobs[i].links > 1 && jobs[j].links > 1
                  && jobs[i].ino % 0x1_0000_0000 == jobs[j].ino % 0x1_0000_0000 ::
      Read(s, jobs[i].source) == Read(s, jobs[j].source)
  }

  ghost predicate OwnContents(start: State, end: State, jobs: seq<Job>) {
    forall i | 0 <= i < |jobs| :: Read(end, jobs[i].dest) == Read(start, jobs[i].source)
  }

  /** Destinations whose sources are links to one inode are links to one inode. */
  ghost predicate LinksShared(end: State, jobs: seq<Job>) {
    forall i, j | 0 <= i < |jobs| && 0 <= j < |jobs| && jobs[i].links > 1 && jobs[j].links > 1
                  && jobs[i].ino == jobs[j].ino ::
      At(end, jobs[i].dest) == At(end, jobs[j].dest)
  }

  /** After all copies every destination holds its own source, exactly when the numbers identify. */
  lemma {:induction false} CopiedExactly(start: State, end: State, cells: seq<Cell>, jobs: seq<Job>)
    requires Progress(start, end, cells, jobs, |jobs|)
    ensures OwnContents(start, end, jobs) <==> NumbersIdentify(start, jobs)
  {
    FaithfulExactly(start, jobs);
    forall i | 0 <= i < |jobs| ensures Read(end, jobs[i].dest) == Read(start, jobs[First(jobs, i)].source) {
      assert Done(start, end, jobs, i);
    }
    if KeysIdentify(start, jobs) {
      assert NumbersIdentify(start, jobs);
    }
    if NumbersIdentify(start, jobs) {
      assert KeysIdentify(start, jobs);
    }
  }

  lemma {:induction false} SharedLinks(start: State, end: State, cells: seq<Cell>, jobs: seq<Job>)
    requires Progress(start, end, cells, jobs, |jobs|)
    ensures LinksShared(end, jobs)
  {
    forall i, j | 0 <= i < |jobs| && 0 <= j < |jobs| && jobs[i].links > 1 && jobs[j].links > 1
                  && jobs[i].ino == jobs[j].ino
      ensures At(end, jobs[i].dest) == At(end, jobs[j].dest)
    {
      SharedExactly(jobs, i, j);
      assert Done(start, end, jobs, i) && Done(start, end, jobs, j);
    }
  }

  lemma {:induction false} SmallModulo(n: nat)
    requires n < 0x1_0000_0000
    ensures n % 0x1_0000_0000 == n
  {
  }

  /** Inode numbers below 2^32, and equal numbers mean equal content. */
  ghost predicate SmallNumbers(s: State, jobs: seq<Job>) {
    && (forall i | 0 <= i < |jobs| :: jobs[i].ino < 0x1_0000_0000)
    && (forall i, j | 0 <= i < |jobs| && 0 <= j < |jobs| && jobs[i].ino == jobs[j].ino ::
          Read(s, jobs[i].source) == Read(s, jobs[j].source))
  }

  lemma {:induction false} SmallIdentify(s: State, jobs: seq<Job>)
    requires SmallNumbers(s, jobs)
    ensures NumbersIdentify(s, jobs)
  {
    forall i, j | 0 <= i < |jobs| && 0 <= j < |jobs| && jobs[i].links > 1 && jobs[j].links > 1
                  && jobs[i].ino % 0x1_0000_0000 == jobs[j].ino % 0x1_0000_0000
      ensures Read(s, jobs[i].source) == Read(s, jobs[j].source)
    {
      SmallModulo(jobs[i].ino);
      SmallModulo(jobs[j].ino);
    }
  }

  /** With inode numbers below 2^32 that identify the content, every destination holds its own source. */
  lemma {:induction false} SmallNumbersFaithful(start: State, end: State, cells: seq<Cell>, jobs: seq<Job>)
    requires Progress(start, end, cells, jobs, |jobs|) && SmallNumbers(start, jobs)
    ensures OwnContents(start, end, jobs)
  {
    SmallIdentify(start, jobs);
    CopiedExactly(start, end, cells, jobs);
  }

  lemma {:induction false} CopiesAre(start: State, end: State, cells: seq<Cell>, jobs: seq<Job>)
    requires Progress(start, end, cells, jobs, |jobs|)
    ensures OwnContents(start, end, jobs) <==> NumbersIdentify(start, jobs)
    ensures SmallNumbers(start, jobs) ==> OwnContents(start, end, jobs)
    ensures LinksShared(end, jobs)
  {
    CopiedExactly(start, end, cells, jobs);
    SharedLinks(start, end, cells, jobs);
    if SmallNumbers(start, jobs) { SmallNumbersFaithful(start, end, cells, jobs); }
  }

  /** Two unrelated sources whose inode numbers agree in the low 32 bits: the second destination
      becomes a link to the copy of the first. */
  lemma {:induction false} InodesConflated(s: State, one: Job, two: Job)
    requires one.links > 1 && two.links > 1 && two.ino == one.ino + 0x1_0000_0000
    requires Read(s, one.source) != Read(s, two.source)
    ensures First([one, two], 1) == 0
    ensures !KeysIdentify(s, [one, two])
  {
    var jobs := [one, two];
    assert CacheKey(two.ino) == CacheKey(one.ino);
    assert Registered(jobs, 1, CacheKey(one.ino)) == Some(0) by { assert Registered(jobs, 0, CacheKey(one.ino)) == None; }
    assert jobs[0].links > 1 && jobs[1].links > 1 && Read(s, jobs[0].source) != Read(s, jobs[1].source);
  }
}
