/** Saving an edited file (SaveAsFile of cf-agent/files_operators.c): follow the links, write the
    new content beside the file, keep a backup, and rename the new file into place. */
module SaveFile {
  import opened Common
  import opened FileSystem

  // ---------------------------------------------------------------- names

  const AFTER_EDIT: string := ".cf-after-edit"
  const BEFORE_EDIT: string := ".cf-before-edit"

  datatype BackupOption = NoBackup | Plain | Timestamp(stamp: string) | Rotate(number: nat) | RepositoryStore

  function NewName(d: string): string { d + AFTER_EDIT }

  function BackupName(d: string, option: BackupOption): string {
    d + (if option.Timestamp? then option.stamp else []) + BEFORE_EDIT
  }

  function Digits(n: nat): (r: string)
    ensures r != [] && '0' <= r[|r| - 1] <= '9'
  {
    var c := ('0' as int + n % 10) as char;
    if n < 10 then [c] else Digits(n / 10) + [c]
  }

  const COMPRESSIONS: seq<string> := [[], ['.', 'g', 'z'], ['.', 'Z'], ['.', 'b', 'z'], ['.', 'b', 'z', '2']]

  function RotatedName(backup: string, i: nat, compression: nat): string
    requires compression < 5
  {
    backup + (['.'] + Digits(i) + COMPRESSIONS[compression])
  }

  lemma {:induction false} NamesDistinct(d: string, option: BackupOption)
    ensures NewName(d) != d && BackupName(d, option) != d && NewName(d) != BackupName(d, option)
    ensures |BackupName(d, option)| > |d|
  {
    var n, b := NewName(d), BackupName(d, option);
    assert |n| == |d| + 14 && |b| >= |d| + 15;
    assert n[|n| - 6] == AFTER_EDIT[8] == 'r';
    assert b[|b| - 6] == BEFORE_EDIT[9] == 'e';
  }

  lemma {:induction false} RotatedDistinct(d: string, option: BackupOption, i: nat, compression: nat)
    requires compression < 5
    ensures var b := BackupName(d, option);
            var r := RotatedName(b, i, compression);
            r != d && r != NewName(d) && r != b && b <= r
  {
    var b := BackupName(d, option);
    var r := RotatedName(b, i, compression);
    NamesDistinct(d, option);
    var t := COMPRESSIONS[compression];
    assert NewName(d)[|NewName(d)| - 1] == AFTER_EDIT[13] == 't';
    LastOfRotated(b, i, compression);
  }

  lemma {:induction false} LastOfRotated(b: string, i: nat, compression: nat)
    requires compression < 5
    ensures var r := RotatedName(b, i, compression); r != [] && r[|r| - 1] != 't'
  {
    var t := COMPRESSIONS[compression];
    var r := RotatedName(b, i, compression);
    if t == [] {
      assert r[|r| - 1] == Digits(i)[|Digits(i)| - 1];
    } else {
      assert r[|r| - 1] == t[|t| - 1];
    }
  }

  lemma {:induction false} DigitsAreDigits(n: nat)
    ensures forall k | 0 <= k < |Digits(n)| :: '0' <= Digits(n)[k] <= '9'
  {
    if n >= 10 { DigitsAreDigits(n / 10); }
  }

  lemma {:induction false} DigitsInjective(m: nat, n: nat)
    requires Digits(m) == Digits(n)
    ensures m == n
  {
    var a, b := Digits(m), Digits(n);
    assert a[|a| - 1] == ('0' as int + m % 10) as char && b[|b| - 1] == ('0' as int + n % 10) as char;
    if m >= 10 && n >= 10 {
      assert Digits(m / 10) == a[..|a| - 1] == b[..|b| - 1] == Digits(n / 10);
      DigitsInjective(m / 10, n / 10);
    } else {
      assert m >= 10 ==> |a| > 1;
      assert n >= 10 ==> |b| > 1;
    }
  }

  /** Digits end where the rest is empty or begins with a dot. */
  lemma {:induction false} DigitsSplit(m: nat, x: string, n: nat, y: string)
    requires Digits(m) + x == Digits(n) + y
    requires (x == [] || x[0] == '.') && (y == [] || y[0] == '.')
    ensures m == n && x == y
  {
    var a, b := Digits(m), Digits(n);
    var whole := a + x;
    DigitsAreDigits(m);
    DigitsAreDigits(n);
    assert a == whole[..|a|] && b == whole[..|b|];
    assert x == whole[|a|..] && y == whole[|b|..];
    DigitsInjective(m, n);
  }

  lemma {:induction false} RotatedApart(backup: string, i: nat, c: nat, j: nat, e: nat)
    requires c < 5 && e < 5 && (i != j || c != e)
    ensures RotatedName(backup, i, c) != RotatedName(backup, j, e)
  {
    var r, q := RotatedName(backup, i, c), RotatedName(backup, j, e);
    if r == q {
      assert r == backup + ['.'] + (Digits(i) + COMPRESSIONS[c]) && q == backup + ['.'] + (Digits(j) + COMPRESSIONS[e]);
      assert r[|backup| + 1..] == Digits(i) + COMPRESSIONS[c] && q[|backup| + 1..] == Digits(j) + COMPRESSIONS[e];
      DigitsSplit(i, COMPRESSIONS[c], j, COMPRESSIONS[e]);
      CompressionsApart(c, e);
    }
  }

  lemma {:induction false} CompressionsApart(c: nat, e: nat)
    requires c < 5 && e < 5 && c != e
    ensures COMPRESSIONS[c] != COMPRESSIONS[e]
  {
    assert |COMPRESSIONS[0]| == 0 && |COMPRESSIONS[1]| == 3 && |COMPRESSIONS[2]| == 2 && |COMPRESSIONS[3]| == 3 && |COMPRESSIONS[4]| == 4;
    assert COMPRESSIONS[1][1] == 'g' && COMPRESSIONS[3][1] == 'b';
  }

  // ---------------------------------------------------------------- following links

  /** The chain of links from `name` ends within `n` steps. */
  predicate Ends(s: State, name: string, n: nat)
    decreases n
  {
    name in s.names && s.names[name].Symlink? ==> n > 0 && Ends(s, s.names[name].to, n - 1)
  }

  /** The name at the end of the chain, if something is there. */
  function Target(s: State, name: string, n: nat): Option<string>
    requires Ends(s, name, n)
    decreases n
  {
    if name !in s.names then None
    else match s.names[name]
         case Hard(_) => Some(name)
         case Symlink(to) => Target(s, to, n - 1)
  }

  /** The loop of lstat and readlink. On a cycle of links the original never leaves it. */
  method Dereference(s: State, file: string, ghost n: nat) returns (target: Option<string>)
    requires Ends(s, file, n)
    ensures target == Target(s, file, n)
  {
    var deref := file;
    ghost var left := n;
    while deref in s.names && s.names[deref].Symlink?
      invariant Ends(s, deref, left) && Target(s, file, n) == Target(s, deref, left)
      decreases left
    {
      deref, left := s.names[deref].to, left - 1;
    }
    target := if deref in s.names then Some(deref) else None;
  }

  /** `chain` leads from the name by symbolic links, each to the next. */
  ghost predicate Chain(s: State, name: string, chain: seq<string>) {
    && chain != [] && chain[0] == name
    && forall i | 0 <= i < |chain| - 1 :: At(s, chain[i]) == Some(Symlink(chain[i + 1]))
  }

  /** The target is where the chain of links from the name ends: a file, or no entry at all. */
  lemma {:induction false} TargetEndsChain(s: State, name: string, n: nat) returns (chain: seq<string>)
    requires Ends(s, name, n)
    ensures Chain(s, name, chain)
    ensures var end := chain[|chain| - 1];
            match Target(s, name, n)
            case Some(d) => d == end && At(s, end).Some? && At(s, end).value.Hard?
            case None => At(s, end) == None
    decreases n
  {
    chain := [name];
    if name in s.names && s.names[name].Symlink? {
      var rest := TargetEndsChain(s, s.names[name].to, n - 1);
      chain := [name] + rest;
    }
  }

  lemma {:induction false} TargetIsFile(s: State, file: string, n: nat)
    requires Sound(s) && Ends(s, file, n) && Target(s, file, n).Some?
    ensures Read(s, Target(s, file, n).value).Some?
    decreases n
  {
    if file in s.names && s.names[file].Symlink? {
      TargetIsFile(s, s.names[file].to, n - 1);
    }
  }

  // ---------------------------------------------------------------- the content written

  /** Every line followed by a newline. */
  function Joined(lines: seq<string>): Content
    decreases |lines|
  {
    if lines == [] then [] else Joined(lines[..|lines| - 1]) + lines[|lines| - 1] + ['\n']
  }

  // ---------------------------------------------------------------- reading it back

  /** A text is read line by line: each newline ends a line, and so does the end of the text unless
      nothing follows the last newline. `line` is what was read of the current line. */
  function LinesOf(text: Content, line: string): seq<string>
    decreases |text|
  {
    if text == [] then (if line == [] then [] else [line])
    else if text[0] == '\n' then [line] + LinesOf(text[1..], [])
    else LinesOf(text[1..], line + [text[0]])
  }

  predicate NoNewline(line: string) {
    forall k | 0 <= k < |line| :: line[k] != '\n'
  }

  function TotalLength(lines: seq<string>): nat {
    if lines == [] then 0 else |lines[0]| + TotalLength(lines[1..])
  }

  /** The lines a file is read as. */
  function LinesIn(s: State, name: string): Option<seq<string>> {
    match Read(s, name) case None => None case Some(text) => Some(LinesOf(text, []))
  }

  lemma {:induction false} JoinedFirst(lines: seq<string>)
    requires lines != []
    ensures Joined(lines) == lines[0] + (['\n'] + Joined(lines[1..]))
    decreases |lines|
  {
    var last := |lines| - 1;
    if last == 0 {
      assert lines[..0] == [] && lines[1..] == [];
    } else {
      JoinedFirst(lines[..last]);
      var middle := Joined(lines[1..last]);
      assert lines[..last][1..] == lines[1..last] == lines[1..][..last - 1];
      assert Joined(lines) == (lines[0] + (['\n'] + middle)) + lines[last] + ['\n'];
      assert Joined(lines[1..]) == middle + lines[last] + ['\n'];
    }
  }

  lemma {:induction false} LinesOfFirst(line: string, rest: Content, read: string)
    requires NoNewline(line)
    ensures LinesOf(line + (['\n'] + rest), read) == [read + line] + LinesOf(rest, [])
    decreases |line|
  {
    var text := line + (['\n'] + rest);
    if line == [] {
      assert text[1..] == rest && read + line == read;
    } else {
      assert text[1..] == line[1..] + (['\n'] + rest);
      LinesOfFirst(line[1..], rest, read + [line[0]]);
      assert read + [line[0]] + line[1..] == read + line;
    }
  }

  /** The written text is read back as the lines it was written from, empty ones included, and has
      one character more than each line. */
  lemma {:induction false} WrittenReadsBack(lines: seq<string>)
    requires forall i | 0 <= i < |lines| :: NoNewline(lines[i])
    ensures LinesOf(Joined(lines), []) == lines
    ensures |Joined(lines)| == TotalLength(lines) + |lines|
    decreases |lines|
  {
    if lines != [] {
      JoinedFirst(lines);
      LinesOfFirst(lines[0], Joined(lines[1..]), []);
      WrittenReadsBack(lines[1..]);
      assert [] + lines[0] == lines[0] && lines == [lines[0]] + lines[1..];
    }
  }

  /** Lines without newlines are read from the file again, and it has the length they ask for. */
  ghost predicate ReadAgain(s: State, name: string, lines: seq<string>) {
    (forall i | 0 <= i < |lines| :: NoNewline(lines[i])) ==>
      && LinesIn(s, name) == Some(lines)
      && |Read(s, name).value| == TotalLength(lines) + |lines|
  }

  lemma {:induction false} SavedIsReadAgain(s: State, name: string, lines: seq<string>)
    requires Read(s, name) == Some(Joined(lines))
    ensures ReadAgain(s, name, lines)
  {
    if forall i | 0 <= i < |lines| :: NoNewline(lines[i]) {
      WrittenReadsBack(lines);
    }
  }

  /** What the outside decides: which calls fail and where writing stops. */
  datatype Env = Env(openOk: bool, failAt: Option<nat>, closeOk: bool, permsOk: bool, linkOk: bool,
                     chunk: nat, copyStop: Option<nat>, backupPermsOk: bool,
                     rotated: bool, rotateWorks: (nat, nat) -> bool, rotateStop: Option<nat>, creatOk: bool,
                     archived: bool, renameOk: bool)

  /** No step before the final rename fails. */
  predicate Prepared(env: Env, lines: seq<string>) {
    && env.openOk && (env.failAt.Some? ==> env.failAt.value >= |lines|) && env.closeOk && env.permsOk
    && (env.linkOk || (env.copyStop.None? && env.backupPermsOk))
  }

  /** The backup is rotated, and number one gets its copy. */
  predicate Rotates(option: BackupOption, env: Env) {
    option.Rotate? && !env.rotated && env.rotateStop.None?
  }

  /** After rotation the backup is emptied through its name. When it is a hard link to the target, that
      empties the target. */
  predicate EmptiesTarget(option: BackupOption, env: Env) {
    Rotates(option, env) && env.creatOk && env.linkOk
  }

  // ---------------------------------------------------------------- safety of a stretch of the trace

  /** In every state from `from` on, `d` holds the complete content `c`. */
  ghost predicate Holds(trace: seq<State>, from: nat, d: string, c: Content) {
    forall i | from <= i < |trace| :: Read(trace[i], d) == Some(c)
  }

  /** Old or new, complete, in every state. */
  ghost predicate OldOrNew(trace: seq<State>, from: nat, d: string, old': Content, new': Content) {
    forall i | from <= i < |trace| :: Read(trace[i], d) == Some(old') || Read(trace[i], d) == Some(new')
  }

  lemma {:induction false} OtherNameKept(a: State, b: State, name: string, d: string)
    requires OnlyAt(a, b, name) && name != d && Read(a, d).Some?
    ensures Read(b, d) == Read(a, d)
  {
  }

  lemma {:induction false} StretchKept(a: State, trace: seq<State>, from: nat, name: string, d: string)
    requires name != d && Read(a, d).Some?
    requires forall i | from <= i < |trace| :: OnlyAt(a, trace[i], name)
    ensures Holds(trace, from, d, Read(a, d).value)
  {
    forall i | from <= i < |trace| ensures Read(trace[i], d) == Read(a, d) {
      OtherNameKept(a, trace[i], name, d);
    }
  }

  lemma {:induction false} OnlyAtChain(a: State, b: State, c: State, name: string)
    requires OnlyAt(a, b, name) && OnlyAt(b, c, name)
    ensures OnlyAt(a, c, name)
  {
  }

  /** SaveItemListCallback: creates the new file and writes the lines one by one. */
  method WriteLines(disk: Disk, new': string, lines: seq<string>, env: Env) returns (ok: bool)
    requires disk.Valid() && new' !in disk.now.names
    modifies disk
    ensures disk.Valid() && old(disk.trace) <= disk.trace
    ensures OnlyAt(old(disk.now), disk.now, new')
    ensures forall i | |old(disk.trace)| <= i < |disk.trace| :: OnlyAt(old(disk.now), disk.trace[i], new')
    ensures ok <==> env.openOk && (env.failAt.Some? ==> env.failAt.value >= |lines|) && env.closeOk
    ensures ok ==> Read(disk.now, new') == Some(Joined(lines)) && disk.now.names[new'].ino >= old(disk.now).next
  {
    if !env.openOk {
      return false;
    }
    ghost var start := disk.now;
    disk.Create(new');
    var content, i := [], 0;
    assert lines[..0] == [];
    while i < |lines|
      invariant i <= |lines| && disk.Valid() && old(disk.trace) <= disk.trace
      invariant env.failAt.Some? ==> env.failAt.value >= i
      invariant OnlyAt(start, disk.now, new')
      invariant forall k | |old(disk.trace)| <= k < |disk.trace| :: OnlyAt(start, disk.trace[k], new')
      invariant new' in disk.now.names && disk.now.names[new'] == Hard(start.next)
      invariant content == Joined(lines[..i]) && Read(disk.now, new') == Some(content)
    {
      if env.failAt == Some(i) {
        return false;
      }
      assert lines[..i + 1][..i] == lines[..i];
      content := content + lines[i] + ['\n'];
      disk.Write(new', content);
      i := i + 1;
    }
    assert lines[..i] == lines;
    return env.closeOk;
  }

  /** The backup: a hard link, or a copy when linking fails. */
  method MakeBackup(disk: Disk, d: string, backup: string, env: Env) returns (ok: bool)
    requires disk.Valid() && d != backup && Read(disk.now, d).Some? && env.chunk > 0
    modifies disk
    ensures disk.Valid() && old(disk.trace) <= disk.trace
    ensures OnlyAt(old(disk.now), disk.now, backup)
    ensures forall i | |old(disk.trace)| <= i < |disk.trace| :: OnlyAt(old(disk.now), disk.trace[i], backup)
    ensures ok <==> env.linkOk || (env.copyStop.None? && env.backupPermsOk)
    ensures ok ==> Read(disk.now, backup) == Read(old(disk.now), d)
    ensures ok ==> At(disk.now, backup) == if env.linkOk then At(old(disk.now), d) else Some(Hard(old(disk.now).next))
  {
    ghost var start := disk.now;
    disk.Unlink(backup);
    var linked := disk.Link(d, backup, env.linkOk);
    assert OnlyAt(start, disk.now, backup);
    if linked {
      return true;
    }
    ghost var before, mark := disk.now, |disk.trace|;
    var copied := disk.CopyFile(d, backup, env.chunk, env.copyStop);
    forall i | mark <= i < |disk.trace| ensures OnlyAt(start, disk.trace[i], backup) {
      OnlyAtChain(start, before, disk.trace[i], backup);
    }
    return copied && env.backupPermsOk;
  }

  /** Every name outside `backup` and its rotations is as before, and so are old inodes. */
  ghost predicate OnlyUnder(a: State, b: State, backup: string) {
    (forall n | !(backup <= n) :: At(b, n) == At(a, n)) && Grows(a, b)
  }

  /** No entry but the new file, the backup and its rotations has changed. */
  ghost predicate SameElsewhere(a: State, b: State, new': string, backup: string) {
    forall n | n != new' && !(backup <= n) :: At(b, n) == At(a, n)
  }

  lemma {:induction false} OnlyAtElsewhere(a: State, b: State, name: string, new': string, backup: string)
    requires OnlyAt(a, b, name) && (name == new' || backup <= name)
    ensures SameElsewhere(a, b, new', backup)
  {
  }

  lemma {:induction false} ElsewhereChain(a: State, b: State, c: State, new': string, backup: string)
    requires SameElsewhere(a, b, new', backup) && SameElsewhere(b, c, new', backup)
    ensures SameElsewhere(a, c, new', backup)
  {
  }

  lemma {:induction false} UnderKept(a: State, b: State, backup: string, d: string)
    requires OnlyUnder(a, b, backup) && !(backup <= d) && Read(a, d).Some?
    ensures Read(b, d) == Read(a, d)
  {
  }

  lemma {:induction false} OnlyAtIsUnder(a: State, b: State, backup: string, name: string)
    requires OnlyAt(a, b, name) && backup <= name
    ensures OnlyUnder(a, b, backup)
  {
  }

  lemma {:induction false} UnderChain(a: State, b: State, c: State, backup: string)
    requires OnlyUnder(a, b, backup) && OnlyUnder(b, c, backup)
    ensures OnlyUnder(a, c, backup)
  {
  }

  // ---------------------------------------------------------------- rotation

  /** The numbered backups up to `i` are where they were. */
  ghost predicate Untouched(start: State, s: State, backup: string, i: int) {
    forall j: nat, c: nat | 0 < j <= i && c < 5 :: At(s, RotatedName(backup, j, c)) == At(start, RotatedName(backup, j, c))
  }

  /** Each number above `i` whose rename works has moved to the next one. */
  ghost predicate Shifted(start: State, s: State, backup: string, i: int, number: nat, env: Env) {
    forall j: nat, c: nat | i < j < number && 0 < j && c < 5 && env.rotateWorks(j, c) && At(start, RotatedName(backup, j, c)).Some? ::
      At(s, RotatedName(backup, j + 1, c)) == At(start, RotatedName(backup, j, c))
  }

  /** Of number `i`, the first `c` compressions have been renamed. */
  ghost predicate Partly(start: State, s: State, backup: string, i: nat, c: nat, number: nat, env: Env) {
    && Untouched(start, s, backup, i - 1) && Shifted(start, s, backup, i, number, env)
    && (forall e: nat | c <= e < 5 :: At(s, RotatedName(backup, i, e)) == At(start, RotatedName(backup, i, e)))
    && (forall e: nat | e < c && e < 5 && env.rotateWorks(i, e) && At(start, RotatedName(backup, i, e)).Some? ::
          At(s, RotatedName(backup, i + 1, e)) == At(start, RotatedName(backup, i, e)))
  }

  /** Only these two entries differ. */
  ghost predicate OnlyTwo(a: State, b: State, from: string, to: string) {
    forall n | n != from && n != to :: At(b, n) == At(a, n)
  }

  lemma {:induction false} PartlyStep(start: State, a: State, b: State, backup: string, i: nat, c: nat, number: nat, env: Env)
    requires 0 < i && c < 5 && Partly(start, a, backup, i, c, number, env)
    requires OnlyTwo(a, b, RotatedName(backup, i, c), RotatedName(backup, i + 1, c))
    requires env.rotateWorks(i, c) && At(a, RotatedName(backup, i, c)).Some? ==>
               At(b, RotatedName(backup, i + 1, c)) == At(a, RotatedName(backup, i, c))
    ensures Partly(start, b, backup, i, c + 1, number, env)
  {
    forall j: nat, e: nat | e < 5 && (j != i || e != c) && (j != i + 1 || e != c)
      ensures At(b, RotatedName(backup, j, e)) == At(a, RotatedName(backup, j, e))
    {
      RotatedApart(backup, j, e, i, c);
      RotatedApart(backup, j, e, i + 1, c);
    }
  }

  lemma {:induction false} PartlyStart(start: State, s: State, backup: string, i: nat, number: nat, env: Env)
    requires 0 < i && Untouched(start, s, backup, i) && Shifted(start, s, backup, i, number, env)
    ensures Partly(start, s, backup, i, 0, number, env)
  {
  }

  lemma {:induction false} PartlyEnd(start: State, s: State, backup: string, i: nat, number: nat, env: Env)
    requires 0 < i && Partly(start, s, backup, i, 5, number, env)
    ensures Untouched(start, s, backup, i - 1) && Shifted(start, s, backup, i - 1, number, env)
  {
  }

  /** Copying to number one leaves the others alone. */
  lemma {:induction false} ShiftedCopied(start: State, a: State, b: State, backup: string, number: nat, env: Env)
    requires Shifted(start, a, backup, 0, number, env) && OnlyAt(a, b, RotatedName(backup, 1, 0))
    ensures Shifted(start, b, backup, 0, number, env)
  {
    forall j: nat, c: nat | 0 < j < number && c < 5 && env.rotateWorks(j, c) && At(start, RotatedName(backup, j, c)).Some?
      ensures At(b, RotatedName(backup, j + 1, c)) == At(start, RotatedName(backup, j, c))
    {
      RotatedApart(backup, j + 1, c, 1, 0);
    }
  }

  /** The backup is there, is copied to number one, and is then emptied. */
  predicate Empties(s: State, backup: string, env: Env) {
    !env.rotated && Read(s, backup).Some? && env.rotateStop.None? && env.creatOk
  }

  /** RotateFiles: shifts the numbered backups by one, copies the backup to number one, and then empties
      the backup with creat(2), which truncates the inode behind its name. `kept` is the state before
      that. */
  method RotateFiles(disk: Disk, d: string, option: BackupOption, number: nat, env: Env) returns (ghost kept: State)
    requires disk.Valid() && env.chunk > 0
    modifies disk
    ensures disk.Valid() && old(disk.trace) <= disk.trace && Sound(kept)
    ensures OnlyUnder(old(disk.now), kept, BackupName(d, option))
    ensures At(kept, BackupName(d, option)) == At(old(disk.now), BackupName(d, option))
    ensures if Empties(old(disk.now), BackupName(d, option), env)
            then && BackupName(d, option) in kept.names && kept.names[BackupName(d, option)].Hard?
                 && disk.now == Written(kept, BackupName(d, option), [])
                 && |disk.trace| > |old(disk.trace)| && disk.trace[|disk.trace| - 1] == disk.now
            else disk.now == kept
    ensures forall k | |old(disk.trace)| <= k < |disk.trace| ::
              OnlyUnder(old(disk.now), disk.trace[k], BackupName(d, option))
              || (Empties(old(disk.now), BackupName(d, option), env) && disk.trace[k] == disk.now)
    ensures !env.rotated && Read(old(disk.now), BackupName(d, option)).Some? ==>
              Shifted(old(disk.now), disk.now, BackupName(d, option), 0, number, env)
    ensures !env.rotated && Read(old(disk.now), BackupName(d, option)).Some? && env.rotateStop.None? ==>
              Read(disk.now, RotatedName(BackupName(d, option), 1, 0)) == Read(old(disk.now), BackupName(d, option))
  {
    var backup := BackupName(d, option);
    kept := disk.now;
    if env.rotated || Read(disk.now, backup) == None {
      return;
    }
    ghost var start := disk.now;
    ShiftAll(disk, d, option, number, env);
    RotatedDistinct(d, option, 1, 0);
    ghost var before, mark := disk.now, |disk.trace|;
    var copied := disk.CopyFile(backup, RotatedName(backup, 1, 0), env.chunk, env.rotateStop);
    forall k | mark <= k < |disk.trace| ensures OnlyUnder(start, disk.trace[k], backup) {
      OnlyAtIsUnder(before, disk.trace[k], backup, RotatedName(backup, 1, 0));
      UnderChain(start, before, disk.trace[k], backup);
    }
    OnlyAtIsUnder(before, disk.now, backup, RotatedName(backup, 1, 0));
    UnderChain(start, before, disk.now, backup);
    ShiftedCopied(start, before, disk.now, backup, number, env);
    kept := disk.now;
    assert At(kept, backup) == At(start, backup);
    assert Read(before, backup) == Read(start, backup);
    if copied && env.creatOk {
      disk.Write(backup, []);
    }
  }

  /** The renames for all numbers, from the last one down. */
  method ShiftAll(disk: Disk, d: string, option: BackupOption, number: nat, env: Env)
    requires disk.Valid()
    modifies disk
    ensures disk.Valid() && old(disk.trace) <= disk.trace
    ensures OnlyUnder(old(disk.now), disk.now, BackupName(d, option))
    ensures At(disk.now, BackupName(d, option)) == At(old(disk.now), BackupName(d, option))
    ensures forall k | |old(disk.trace)| <= k < |disk.trace| ::
              OnlyUnder(old(disk.now), disk.trace[k], BackupName(d, option))
    ensures Shifted(old(disk.now), disk.now, BackupName(d, option), 0, number, env)
  {
    var backup := BackupName(d, option);
    ghost var start := disk.now;
    var i := number - 1;
    while i > 0
      invariant -1 <= i < number || i == -1
      invariant disk.Valid() && old(disk.trace) <= disk.trace
      invariant OnlyUnder(start, disk.now, backup) && At(disk.now, backup) == At(start, backup)
      invariant Untouched(start, disk.now, backup, i) && Shifted(start, disk.now, backup, i, number, env)
      invariant forall k | |old(disk.trace)| <= k < |disk.trace| :: OnlyUnder(start, disk.trace[k], backup)
    {
      PartlyStart(start, disk.now, backup, i, number, env);
      ShiftBackups(disk, d, option, i, number, env, start);
      PartlyEnd(start, disk.now, backup, i, number, env);
      i := i - 1;
    }
  }

  /** The five renames for one number; failures are ignored. */
  method ShiftBackups(disk: Disk, d: string, option: BackupOption, i: nat, ghost number: nat, env: Env, ghost start: State)
    requires disk.Valid() && 0 < i && OnlyUnder(start, disk.now, BackupName(d, option))
    requires At(disk.now, BackupName(d, option)) == At(start, BackupName(d, option))
    requires Partly(start, disk.now, BackupName(d, option), i, 0, number, env)
    modifies disk
    ensures disk.Valid() && old(disk.trace) <= disk.trace
    ensures OnlyUnder(start, disk.now, BackupName(d, option))
    ensures At(disk.now, BackupName(d, option)) == At(start, BackupName(d, option))
    ensures Partly(start, disk.now, BackupName(d, option), i, 5, number, env)
    ensures forall k | |old(disk.trace)| <= k < |disk.trace| ::
              OnlyUnder(start, disk.trace[k], BackupName(d, option))
  {
    var backup := BackupName(d, option);
    var c := 0;
    while c < 5
      invariant c <= 5 && disk.Valid() && old(disk.trace) <= disk.trace
      invariant OnlyUnder(start, disk.now, backup) && At(disk.now, backup) == At(start, backup)
      invariant Partly(start, disk.now, backup, i, c, number, env)
      invariant forall k | |old(disk.trace)| <= k < |disk.trace| :: OnlyUnder(start, disk.trace[k], backup)
    {
      RotatedDistinct(d, option, i, c);
      RotatedDistinct(d, option, i + 1, c);
      ghost var before := disk.now;
      var ok := disk.Rename(RotatedName(backup, i, c), RotatedName(backup, i + 1, c), env.rotateWorks(i, c));
      RenamedUnder(before, disk.now, backup, RotatedName(backup, i, c), RotatedName(backup, i + 1, c));
      UnderChain(start, before, disk.now, backup);
      PartlyStep(start, before, disk.now, backup, i, c, number, env);
      c := c + 1;
    }
  }

  lemma {:induction false} RenamedUnder(a: State, b: State, backup: string, from: string, to: string)
    requires backup <= from && backup <= to
    requires b == a || (from in a.names && b == Renamed(a, from, to))
    ensures OnlyUnder(a, b, backup) && OnlyTwo(a, b, from, to)
  {
  }

  // ---------------------------------------------------------------- SaveAsFile

  /** In every state from `from` on, `d` holds the complete content `c`, or nothing once it is emptied. */
  ghost predicate HoldsOrEmpty(trace: seq<State>, from: nat, d: string, c: Content, emptied: bool) {
    && (forall i | from <= i < |trace| :: Read(trace[i], d) == Some(c) || (emptied && Read(trace[i], d) == Some([])))
    && (emptied ==> exists i :: from <= i < |trace| && Read(trace[i], d) == Some([]))
  }

  lemma {:induction false} HoldsThen(mid: seq<State>, trace: seq<State>, from: nat, d: string, c: Content, emptied: bool)
    requires from <= |mid| && mid <= trace && Holds(mid, from, d, c) && HoldsOrEmpty(trace, |mid|, d, c, emptied)
    ensures HoldsOrEmpty(trace, from, d, c, emptied)
  {
    if emptied {
      var i :| |mid| <= i < |trace| && Read(trace[i], d) == Some([]);
      assert from <= i < |trace| && Read(trace[i], d) == Some([]);
    }
  }

  lemma {:induction false} HoldsOn(mid: seq<State>, trace: seq<State>, from: nat, d: string, c: Content, emptied: bool)
    requires from <= |mid| && |trace| == |mid| + 1 && mid <= trace && HoldsOrEmpty(mid, from, d, c, emptied)
    requires Read(trace[|mid|], d) == Some(if emptied then [] else c)
    ensures HoldsOrEmpty(trace, from, d, c, emptied)
  {
    if emptied {
      var i :| from <= i < |mid| && Read(mid[i], d) == Some([]);
      assert Read(trace[i], d) == Some([]);
    }
  }

  /** The numbered backups are not touched before the rotation. */
  lemma {:induction false} NumbersKept(a: State, b: State, c: State, d: string, option: BackupOption)
    requires OnlyAt(a, b, NewName(d)) && OnlyAt(b, c, BackupName(d, option))
    ensures forall i: nat, k: nat | k < 5 ::
              At(c, RotatedName(BackupName(d, option), i, k)) == At(a, RotatedName(BackupName(d, option), i, k))
  {
    forall i: nat, k: nat | k < 5
      ensures At(c, RotatedName(BackupName(d, option), i, k)) == At(a, RotatedName(BackupName(d, option), i, k))
    {
      RotatedDistinct(d, option, i, k);
    }
  }

  lemma {:induction false} ShiftedFrom(a: State, b: State, c: State, backup: string, number: nat, env: Env)
    requires Shifted(b, c, backup, 0, number, env)
    requires forall i: nat, k: nat | k < 5 :: At(b, RotatedName(backup, i, k)) == At(a, RotatedName(backup, i, k))
    ensures Shifted(a, c, backup, 0, number, env)
  {
  }

  lemma {:induction false} ShiftedTo(a: State, b: State, c: State, backup: string, number: nat, env: Env)
    requires Shifted(a, b, backup, 0, number, env)
    requires forall i: nat, k: nat | k < 5 :: At(c, RotatedName(backup, i, k)) == At(b, RotatedName(backup, i, k))
    ensures Shifted(a, c, backup, 0, number, env)
  {
  }

  /** The backup is made while the new file stands beside the old one. */
  method BackUpBeside(disk: Disk, d: string, option: BackupOption, env: Env, ghost start: State) returns (ok: bool)
    requires disk.Valid() && Read(disk.now, d).Some? && env.chunk > 0 && OnlyAt(start, disk.now, NewName(d))
    requires Read(disk.now, NewName(d)).Some? && disk.now.names[NewName(d)] != disk.now.names[d]
    modifies disk
    ensures disk.Valid() && old(disk.trace) <= disk.trace
    ensures Holds(disk.trace, |old(disk.trace)|, d, Read(old(disk.now), d).value)
    ensures Read(disk.now, d) == Read(old(disk.now), d) && At(disk.now, d) == At(old(disk.now), d)
    ensures Read(disk.now, NewName(d)) == Read(old(disk.now), NewName(d)) && At(disk.now, NewName(d)) == At(old(disk.now), NewName(d))
    ensures SameElsewhere(start, disk.now, NewName(d), BackupName(d, option))
    ensures ok <==> env.linkOk || (env.copyStop.None? && env.backupPermsOk)
    ensures ok ==> Read(disk.now, BackupName(d, option)) == Read(old(disk.now), d)
    ensures ok ==> At(disk.now, BackupName(d, option)) != At(disk.now, NewName(d))
    ensures ok ==> (At(disk.now, BackupName(d, option)) == At(disk.now, d) <==> env.linkOk)
    ensures forall i: nat, k: nat | k < 5 ::
              At(disk.now, RotatedName(BackupName(d, option), i, k)) == At(start, RotatedName(BackupName(d, option), i, k))
  {
    var new', backup := NewName(d), BackupName(d, option);
    NamesDistinct(d, option);
    ghost var s2, m2 := disk.now, |disk.trace|;
    ok := MakeBackup(disk, d, backup, env);
    StretchKept(s2, disk.trace, m2, backup, d);
    OtherNameKept(s2, disk.now, backup, d);
    OtherNameKept(s2, disk.now, backup, new');
    assert At(disk.now, d) == At(s2, d) && At(disk.now, new') == At(s2, new');
    OnlyAtElsewhere(start, s2, new', new', backup);
    OnlyAtElsewhere(s2, disk.now, backup, new', backup);
    ElsewhereChain(start, s2, disk.now, new', backup);
    NumbersKept(start, s2, disk.now, d, option);
  }

  /** Everything up to the final rename: the new file is ready, and the old one untouched unless it is
      emptied through its rotated backup. */
  method Prepare(disk: Disk, d: string, lines: seq<string>, option: BackupOption, env: Env) returns (ok: bool)
    requires disk.Valid() && Read(disk.now, d).Some? && env.chunk > 0
    modifies disk
    ensures disk.Valid() && old(disk.trace) <= disk.trace
    ensures ok <==> Prepared(env, lines)
    ensures var original, emptied := Read(old(disk.now), d).value, ok && EmptiesTarget(option, env);
            && HoldsOrEmpty(disk.trace, |old(disk.trace)|, d, original, emptied)
            && Read(disk.now, d) == Some(if emptied then [] else original)
    ensures SameElsewhere(old(disk.now), disk.now, NewName(d), BackupName(d, option))
    ensures ok ==> Read(disk.now, NewName(d)) == Some(Joined(lines))
    ensures ok ==> disk.now.names[NewName(d)] != disk.now.names[d]
    ensures ok && (option.Plain? || option.Timestamp?) && !env.archived ==>
              Read(disk.now, BackupName(d, option)) == Read(old(disk.now), d)
    ensures ok && Rotates(option, env) ==>
              Read(disk.now, RotatedName(BackupName(d, option), 1, 0)) == Read(old(disk.now), d)
    ensures ok && option.Rotate? && !env.rotated ==>
              Shifted(old(disk.now), disk.now, BackupName(d, option), 0, option.number, env)
  {
    var new', backup := NewName(d), BackupName(d, option);
    NamesDistinct(d, option);
    ghost var start := disk.now;
    var written := WriteBeside(disk, d, lines, option, env);
    if !written {
      return false;
    }
    ghost var first, original := disk.trace, Read(start, d).value;
    ok := KeepBackup(disk, d, option, env, start);
    HoldsThen(first, disk.trace, |old(disk.trace)|, d, original, ok && EmptiesTarget(option, env));
  }

  /** The backup is made, and then rotated, kept or removed. */
  method KeepBackup(disk: Disk, d: string, option: BackupOption, env: Env, ghost start: State) returns (ok: bool)
    requires disk.Valid() && Read(disk.now, d).Some? && env.chunk > 0 && OnlyAt(start, disk.now, NewName(d))
    requires Read(disk.now, NewName(d)).Some? && disk.now.names[NewName(d)] != disk.now.names[d]
    modifies disk
    ensures disk.Valid() && old(disk.trace) <= disk.trace
    ensures ok <==> env.linkOk || (env.copyStop.None? && env.backupPermsOk)
    ensures var original, emptied := Read(old(disk.now), d).value, ok && EmptiesTarget(option, env);
            && HoldsOrEmpty(disk.trace, |old(disk.trace)|, d, original, emptied)
            && Read(disk.now, d) == Some(if emptied then [] else original)
    ensures SameElsewhere(start, disk.now, NewName(d), BackupName(d, option))
    ensures ok ==> Read(disk.now, NewName(d)) == Read(old(disk.now), NewName(d))
    ensures ok ==> disk.now.names[NewName(d)] != disk.now.names[d]
    ensures ok && (option.Plain? || option.Timestamp?) && !env.archived ==>
              Read(disk.now, BackupName(d, option)) == Read(old(disk.now), d)
    ensures ok && Rotates(option, env) ==>
              Read(disk.now, RotatedName(BackupName(d, option), 1, 0)) == Read(old(disk.now), d)
    ensures ok && option.Rotate? && !env.rotated ==>
              Shifted(start, disk.now, BackupName(d, option), 0, option.number, env)
  {
    ghost var from, original := |disk.trace|, Read(disk.now, d).value;
    ok := BackUpBeside(disk, d, option, env, start);
    if ok {
      ghost var s3, mid := disk.now, disk.trace;
      FinishBackup(disk, d, option, env);
      if option.Rotate? && !env.rotated { ShiftedFrom(start, s3, disk.now, BackupName(d, option), option.number, env); }
      ElsewhereChain(start, s3, disk.now, NewName(d), BackupName(d, option));
      HoldsThen(mid, disk.trace, from, d, original, EmptiesTarget(option, env));
    }
  }

  /** The new file with its content and permissions, beside the old one. */
  method WriteBeside(disk: Disk, d: string, lines: seq<string>, ghost option: BackupOption, env: Env)
    returns (ok: bool)
    requires disk.Valid() && Read(disk.now, d).Some?
    modifies disk
    ensures disk.Valid() && old(disk.trace) <= disk.trace
    ensures Holds(disk.trace, |old(disk.trace)|, d, Read(old(disk.now), d).value)
    ensures Read(disk.now, d) == Read(old(disk.now), d)
    ensures SameElsewhere(old(disk.now), disk.now, NewName(d), BackupName(d, option))
    ensures OnlyAt(old(disk.now), disk.now, NewName(d))
    ensures ok <==> env.openOk && (env.failAt.Some? ==> env.failAt.value >= |lines|) && env.closeOk && env.permsOk
    ensures ok ==> Read(disk.now, NewName(d)) == Some(Joined(lines))
    ensures ok ==> disk.now.names[NewName(d)] != disk.now.names[d]
  {
    var new' := NewName(d);
    ghost var backup := BackupName(d, option);
    NamesDistinct(d, option);
    ghost var start := disk.now;
    disk.Unlink(new');
    ghost var s1, m1 := disk.now, |disk.trace|;
    var written := WriteLines(disk, new', lines, env);
    StretchKept(s1, disk.trace, m1, new', d);
    OtherNameKept(s1, disk.now, new', d);
    OnlyAtElsewhere(start, s1, new', new', backup);
    OnlyAtElsewhere(s1, disk.now, new', new', backup);
    ElsewhereChain(start, s1, disk.now, new', backup);
    SameEntry(s1, disk.now, new', d);
    OnlyAtChain(start, s1, disk.now, new');
    return written && env.permsOk;
  }

  lemma {:induction false} SameEntry(a: State, b: State, name: string, d: string)
    requires OnlyAt(a, b, name) && name != d && d in a.names
    ensures d in b.names && b.names[d] == a.names[d]
  {
    assert At(b, d) == At(a, d);
  }

  /** The rotated backup is emptied, and removed. What its inode held is at number one. */
  method RotateBackup(disk: Disk, d: string, option: BackupOption, env: Env)
    requires disk.Valid() && env.chunk > 0 && option.Rotate?
    requires Read(disk.now, d).Some? && Read(disk.now, NewName(d)).Some?
    requires Read(disk.now, BackupName(d, option)) == Read(disk.now, d)
    requires At(disk.now, BackupName(d, option)) != At(disk.now, NewName(d))
    modifies disk
    ensures disk.Valid() && old(disk.trace) <= disk.trace
    ensures var linked := At(old(disk.now), BackupName(d, option)) == At(old(disk.now), d);
            var emptied := Rotates(option, env) && env.creatOk && linked;
            && HoldsOrEmpty(disk.trace, |old(disk.trace)|, d, Read(old(disk.now), d).value, emptied)
            && Read(disk.now, d) == if emptied then Some([]) else Read(old(disk.now), d)
    ensures Read(disk.now, NewName(d)) == Read(old(disk.now), NewName(d))
    ensures At(disk.now, d) == At(old(disk.now), d) && At(disk.now, NewName(d)) == At(old(disk.now), NewName(d))
    ensures SameElsewhere(old(disk.now), disk.now, NewName(d), BackupName(d, option))
    ensures Rotates(option, env) ==>
              Read(disk.now, RotatedName(BackupName(d, option), 1, 0)) == Read(old(disk.now), d)
    ensures !env.rotated ==> Shifted(old(disk.now), disk.now, BackupName(d, option), 0, option.number, env)
  {
    var backup := BackupName(d, option);
    NamesDistinct(d, option);
    BackupNotPrefix(d, option);
    RotatedDistinct(d, option, 1, 0);
    ghost var s, before := disk.now, disk.trace;
    ghost var kept := RotateFiles(disk, d, option, option.number, env);
    UnderKept(s, kept, backup, d);
    UnderKept(s, kept, backup, NewName(d));
    forall k | |before| <= k < |disk.trace| && OnlyUnder(s, disk.trace[k], backup) ensures Read(disk.trace[k], d) == Read(s, d) {
      UnderKept(s, disk.trace[k], backup, d);
    }
    ghost var mid := disk.now;
    disk.Unlink(backup);
    assert disk.trace[|disk.trace| - 1] == disk.now;
    NumbersUnlinked(mid, disk.now, d, option);
    if !env.rotated { ShiftedTo(s, mid, disk.now, backup, option.number, env); }
  }

  lemma {:induction false} NumbersUnlinked(a: State, b: State, d: string, option: BackupOption)
    requires b == Unlinked(a, BackupName(d, option))
    ensures forall i: nat, k: nat | k < 5 ::
              At(b, RotatedName(BackupName(d, option), i, k)) == At(a, RotatedName(BackupName(d, option), i, k))
  {
    forall i: nat, k: nat | k < 5
      ensures At(b, RotatedName(BackupName(d, option), i, k)) == At(a, RotatedName(BackupName(d, option), i, k))
    {
      RotatedDistinct(d, option, i, k);
    }
  }

  /** Rotation, the repository, or removal of the backup, as the option asks. */
  method FinishBackup(disk: Disk, d: string, option: BackupOption, env: Env)
    requires disk.Valid() && env.chunk > 0
    requires Read(disk.now, d).Some? && Read(disk.now, NewName(d)).Some?
    requires Read(disk.now, BackupName(d, option)) == Read(disk.now, d)
    requires At(disk.now, BackupName(d, option)) != At(disk.now, NewName(d))
    modifies disk
    ensures disk.Valid() && old(disk.trace) <= disk.trace
    ensures var linked := At(old(disk.now), BackupName(d, option)) == At(old(disk.now), d);
            var emptied := Rotates(option, env) && env.creatOk && linked;
            && HoldsOrEmpty(disk.trace, |old(disk.trace)|, d, Read(old(disk.now), d).value, emptied)
            && Read(disk.now, d) == if emptied then Some([]) else Read(old(disk.now), d)
    ensures Read(disk.now, NewName(d)) == Read(old(disk.now), NewName(d))
    ensures At(disk.now, d) == At(old(disk.now), d) && At(disk.now, NewName(d)) == At(old(disk.now), NewName(d))
    ensures SameElsewhere(old(disk.now), disk.now, NewName(d), BackupName(d, option))
    ensures (option.Plain? || option.Timestamp?) && !env.archived ==> disk.now == old(disk.now)
    ensures Rotates(option, env) ==>
              Read(disk.now, RotatedName(BackupName(d, option), 1, 0)) == Read(old(disk.now), d)
    ensures option.Rotate? && !env.rotated ==>
              Shifted(old(disk.now), disk.now, BackupName(d, option), 0, option.number, env)
  {
    var backup := BackupName(d, option);
    NamesDistinct(d, option);
    BackupNotPrefix(d, option);
    RotatedDistinct(d, option, 1, 0);
    ghost var s := disk.now;
    if option.Rotate? {
      RotateBackup(disk, d, option, env);
    }
    ghost var mid, before := disk.now, disk.trace;
    if option == NoBackup || env.archived {
      disk.Unlink(backup);
      if option.Rotate? {
        HoldsOn(before, disk.trace, |old(disk.trace)|, d, Read(s, d).value,
                Rotates(option, env) && env.creatOk && At(s, backup) == At(s, d));
      }
      NumbersUnlinked(mid, disk.now, d, option);
      if option.Rotate? && !env.rotated { ShiftedTo(s, mid, disk.now, backup, option.number, env); }
    }
  }

  lemma {:induction false} BackupNotPrefix(d: string, option: BackupOption)
    ensures !(BackupName(d, option) <= d)
    ensures !(BackupName(d, option) <= NewName(d))
  {
    assert |BackupName(d, option)| >= |d| + 15 > |NewName(d)|;
  }

  /** SaveAsFile. Every state from the call on holds at the resolved target the complete old or the
      complete new content, exactly unless the target is emptied through its rotated backup; then it is
      empty until the final rename. It is new exactly when the call returns true, which it does exactly
      when no step that it checks fails; lines without newlines can then be read from it again. A plain or timestamped backup that stays out of the repository
      holds the old content, and so does number one of a rotation, whatever becomes of the rename. No
      other entry changes but the new file's, the backup's and the backup's rotations. */
  method SaveAsFile(disk: Disk, file: string, lines: seq<string>, option: BackupOption, env: Env, ghost n: nat)
    returns (ret: bool)
    requires disk.Valid() && Ends(disk.now, file, n) && env.chunk > 0
    modifies disk
    ensures disk.Valid() && old(disk.trace) <= disk.trace
    ensures var target := Target(old(disk.now), file, n);
            match target
            case None => !ret && disk.now == old(disk.now) && disk.trace == old(disk.trace)
            case Some(d) =>
              && Read(old(disk.now), d).Some?
              && (ret <==> Prepared(env, lines) && env.renameOk)
              && Saved(old(disk.now), disk.now, disk.trace, |old(disk.trace)|, d, lines, option, env, ret)
              && (ret ==> ReadAgain(disk.now, d, lines))
  {
    var target := Dereference(disk.now, file, n);
    if target == None {
      return false;
    }
    var d := target.value;
    TargetIsFile(disk.now, file, n);
    NamesDistinct(d, option);
    ghost var start, from := disk.now, |disk.trace|;
    var ready := Prepare(disk, d, lines, option, env);
    ghost var original, emptied := Read(start, d).value, ready && EmptiesTarget(option, env);
    if !ready {
      ExactlySafe(disk.trace, from, d, original, Joined(lines), emptied);
      return false;
    }
    ghost var mid, before := disk.now, disk.trace;
    ret := disk.Rename(NewName(d), d, env.renameOk);
    RenameSaves(start, mid, disk.now, before, disk.trace, from, d, lines, option, env, ret);
    ExactlySafe(disk.trace, from, d, original, Joined(lines), emptied);
    if ret { SavedIsReadAgain(disk.now, d, lines); }
  }

  /** What has become of the target, its backups and everything else. */
  ghost predicate Saved(start: State, end: State, trace: seq<State>, from: nat, d: string, lines: seq<string>,
                        option: BackupOption, env: Env, ret: bool)
    requires Read(start, d).Some?
  {
    var original, emptied := Read(start, d).value, Prepared(env, lines) && EmptiesTarget(option, env);
    && (OldOrNew(trace, from, d, original, Joined(lines)) <==> !(emptied && original != [] && Joined(lines) != []))
    && (forall i | from <= i < |trace| ::
          Read(trace[i], d) == Some(original) || Read(trace[i], d) == Some(Joined(lines)) || (emptied && Read(trace[i], d) == Some([])))
    && Read(end, d) == Some(if ret then Joined(lines) else if emptied then [] else original)
    && (ret && (option.Plain? || option.Timestamp?) && !env.archived ==> Read(end, BackupName(d, option)) == Some(original))
    && (Prepared(env, lines) && Rotates(option, env) ==>
          Read(end, RotatedName(BackupName(d, option), 1, 0)) == Some(original))
    && (Prepared(env, lines) && option.Rotate? && !env.rotated ==>
          Shifted(start, end, BackupName(d, option), 0, option.number, env))
    && (forall name | name != d && name != NewName(d) && !(BackupName(d, option) <= name) :: At(end, name) == At(start, name))
  }

  /** In every state the target holds the old, the new, or nothing if it is emptied. */
  ghost predicate ThreeWays(trace: seq<State>, from: nat, d: string, old': Content, new': Content, emptied: bool) {
    && (forall i | from <= i < |trace| ::
          Read(trace[i], d) == Some(old') || Read(trace[i], d) == Some(new') || (emptied && Read(trace[i], d) == Some([])))
    && (emptied ==> exists i :: from <= i < |trace| && Read(trace[i], d) == Some([]))
  }

  /** Old-or-new safety fails exactly when the target is emptied and neither text is empty. */
  lemma {:induction false} ExactlySafe(trace: seq<State>, from: nat, d: string, old': Content, new': Content, emptied: bool)
    requires ThreeWays(trace, from, d, old', new', emptied) || HoldsOrEmpty(trace, from, d, old', emptied)
    ensures OldOrNew(trace, from, d, old', new') <==> !(emptied && old' != [] && new' != [])
    ensures ThreeWays(trace, from, d, old', new', emptied)
  {
    if emptied {
      var i :| from <= i < |trace| && Read(trace[i], d) == Some([]);
    }
  }

  lemma {:induction false} RenameSaves(start: State, mid: State, end: State, before: seq<State>, trace: seq<State>, from: nat, d: string,
                                       lines: seq<string>, option: BackupOption, env: Env, ret: bool)
    requires from <= |before| && trace == before + [end] && Read(start, d).Some?
    requires Read(mid, NewName(d)) == Some(Joined(lines)) && Read(mid, d).Some? && mid.names[NewName(d)] != mid.names[d]
    requires end == if ret then Renamed(mid, NewName(d), d) else mid
    requires var emptied := EmptiesTarget(option, env);
             HoldsOrEmpty(before, from, d, Read(start, d).value, emptied)
             && Read(mid, d) == Some(if emptied then [] else Read(start, d).value)
    ensures var original, emptied := Read(start, d).value, EmptiesTarget(option, env);
            && ThreeWays(trace, from, d, original, Joined(lines), emptied)
            && Read(end, d) == Some(if ret then Joined(lines) else if emptied then [] else original)
    ensures forall name | name != d && name != NewName(d) :: At(end, name) == At(mid, name) && Read(end, name) == Read(mid, name)
    ensures Shifted(start, mid, BackupName(d, option), 0, if option.Rotate? then option.number else 0, env) ==>
              Shifted(start, end, BackupName(d, option), 0, if option.Rotate? then option.number else 0, env)
    ensures RotatedName(BackupName(d, option), 1, 0) != d && RotatedName(BackupName(d, option), 1, 0) != NewName(d)
    ensures BackupName(d, option) != d && BackupName(d, option) != NewName(d)
  {
    NamesDistinct(d, option);
    RotatedDistinct(d, option, 1, 0);
    forall i: nat, k: nat | k < 5
      ensures At(end, RotatedName(BackupName(d, option), i, k)) == At(mid, RotatedName(BackupName(d, option), i, k))
    {
      RotatedDistinct(d, option, i, k);
    }
    if EmptiesTarget(option, env) {
      var i :| from <= i < |before| && Read(before[i], d) == Some([]);
      assert Read(trace[i], d) == Some([]);
    }
  }

  /** A rotated backup on a healthy system, where only the final rename fails. */
  const LAST_STEP_FAILS: Env := Env(true, None, true, true, true, 4096, None, true, false, (i, c) => true, None, true, false, false)

  /** An input: the target is empty in the end, and only number one holds its text. */
  method RotationEmptiesTarget(f: string, text: Content, line: string) returns (disk: Disk, ret: bool)
    requires text != []
    ensures fresh(disk) && !ret && Read(disk.now, f) == Some([])
    ensures Read(disk.now, RotatedName(BackupName(f, Rotate(3)), 1, 0)) == Some(text)
    ensures !OldOrNew(disk.trace, 0, f, text, Joined([line]))
  {
    var start := State(map[f := Hard(0)], map[0 := text], 1);
    disk := new Disk(start);
    assert Target(start, f, 0) == Some(f);
    assert [line][..0] == [] && Joined([line]) == Joined([]) + line + ['\n'];
    ret := SaveAsFile(disk, f, [line], Rotate(3), LAST_STEP_FAILS, 0);
  }
}
