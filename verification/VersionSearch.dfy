/** FindLargestVersionAvail of cf-agent/verify_packages.c: a running maximum over the files of
    several local repositories, with the built-in version order. */
module VersionSearch {
  import opened Common
  import opened Versions

  /** A directory entry; the version is there when the name matches the package pattern. */
  datatype FileEntry = FileEntry(name: string, version: Option<string>)

  /** The files of one repository, or nothing when it cannot be opened. */
  type Repository = Option<seq<FileEntry>>

  // ---------------------------------------------------------------- the candidates

  datatype Candidate = Candidate(name: string, version: string)

  function Matching(files: seq<FileEntry>): seq<Candidate> {
    if files == [] then []
    else
      var last := files[|files| - 1];
      Matching(files[..|files| - 1]) +
      (if last.version.Some? then [Candidate(last.name, last.version.value)] else [])
  }

  function Offered(r: Repository): seq<Candidate> {
    match r case None => [] case Some(files) => Matching(files)
  }

  function Candidates(repos: seq<Repository>): seq<Candidate> {
    if repos == [] then []
    else Candidates(repos[..|repos| - 1]) + Offered(repos[|repos| - 1])
  }

  /** A file is a candidate: some repository that opens has it, and its name matches. */
  ghost predicate OnOffer(repos: seq<Repository>, c: Candidate) {
    exists i, k :: 0 <= i < |repos| && HasFile(repos[i], k, c)
  }

  predicate HasFile(r: Repository, k: int, c: Candidate) {
    r.Some? && 0 <= k < |r.value| && r.value[k] == FileEntry(c.name, Some(c.version))
  }

  /** The candidates are the matching files of all repositories that open, and nothing else. */
  lemma {:induction false} CandidatesAre(repos: seq<Repository>, c: Candidate)
    ensures c in Candidates(repos) <==> OnOffer(repos, c)
    decreases |repos|
  {
    if repos != [] {
      var n := |repos| - 1;
      CandidatesAre(repos[..n], c);
      OfferedAre(repos[n], c);
      if OnOffer(repos[..n], c) {
        var i, k :| 0 <= i < n && HasFile(repos[..n][i], k, c);
        assert HasFile(repos[i], k, c);
      }
      if OnOffer(repos, c) {
        var i, k :| 0 <= i < |repos| && HasFile(repos[i], k, c);
        assert i < n ==> HasFile(repos[..n][i], k, c);
      }
      if c in Offered(repos[n]) {
        var k :| HasFile(repos[n], k, c);
      }
    }
  }

  lemma {:induction false} OfferedAre(r: Repository, c: Candidate)
    ensures c in Offered(r) <==> exists k :: HasFile(r, k, c)
  {
    if r.Some? { MatchingAre(r.value, c); }
  }

  lemma {:induction false} MatchingAre(files: seq<FileEntry>, c: Candidate)
    ensures c in Matching(files) <==> exists k :: HasFile(Some(files), k, c)
    decreases |files|
  {
    if files != [] {
      var n := |files| - 1;
      MatchingAre(files[..n], c);
      forall k | HasFile(Some(files[..n]), k, c) ensures HasFile(Some(files), k, c) {
        assert files[..n][k] == files[k];
      }
      forall k | HasFile(Some(files), k, c) && k < n ensures HasFile(Some(files[..n]), k, c) {
        assert files[..n][k] == files[k];
      }
      if files[n] == FileEntry(c.name, Some(c.version)) {
        assert HasFile(Some(files), n, c);
      }
    }
  }

  // ---------------------------------------------------------------- the start bound

  /** The last character raised by one, as a byte: 0xFF becomes the terminator. */
  function BumpLast(v: string): string
    requires v != []
  {
    var n := |v| - 1;
    if v[n] < 255 as char then v[..n] + [(v[n] as int + 1) as char] else v[..n]
  }

  function StartBound(ver: string, select: Comparator): string {
    if ver == [] || ver == ['*'] then []
    else if select == Gt then BumpLast(ver)
    else ver
  }

  // ---------------------------------------------------------------- the search

  /** All versions in play are compatible with one another. */
  ghost predicate OneModel(start: string, cands: seq<Candidate>) {
    && (forall c | c in cands :: SameModel(start, c.version))
    && (forall c, d | c in cands && d in cands :: SameModel(c.version, d.version))
  }

  ghost predicate NoneExceeds(vers: string, cands: seq<Candidate>) {
    forall c | c in cands :: !Below(vers, c.version)
  }

  /** What the search knows after it has seen some candidates. */
  ghost predicate Largest(start: string, seen: seq<Candidate>, found: bool, name: string, vers: string) {
    && (found ==> Candidate(name, vers) in seen)
    && (!found ==> vers == start)
    && (OneModel(start, seen) ==> (found ==> Below(start, vers)) && NoneExceeds(vers, seen))
  }

  lemma {:induction false} OneModelPrefix(start: string, seen: seq<Candidate>, c: Candidate)
    requires OneModel(start, seen + [c])
    ensures OneModel(start, seen) && SameModel(start, c.version)
    ensures forall d | d in seen :: SameModel(d.version, c.version) && SameModel(c.version, d.version)
  {
    assert c in seen + [c];
    assert forall d | d in seen :: d in seen + [c];
  }

  /** A larger candidate takes over as the largest of everything seen. */
  lemma {:induction false} TakesOver(start: string, seen: seq<Candidate>, c: Candidate, found: bool, name: string, vers: string)
    requires Largest(start, seen, found, name, vers) && Below(vers, c.version)
    ensures Largest(start, seen + [c], true, c.name, c.version)
  {
    if OneModel(start, seen + [c]) {
      OneModelPrefix(start, seen, c);
      if found {
        BelowTransitive(start, vers, c.version);
      }
      forall d | d in seen + [c] ensures !Below(c.version, d.version) {
        BelowIrreflexive(c.version);
        if d in seen && Below(c.version, d.version) {
          assert SameModel(vers, d.version);
          BelowTransitive(vers, c.version, d.version);
        }
      }
    }
  }

  lemma {:induction false} StaysLargest(start: string, seen: seq<Candidate>, c: Candidate, found: bool, name: string, vers: string)
    requires Largest(start, seen, found, name, vers) && !Below(vers, c.version)
    ensures Largest(start, seen + [c], found, name, vers)
  {
    if OneModel(start, seen + [c]) {
      OneModelPrefix(start, seen, c);
    }
  }

  /** FindLargestVersionAvail. When all versions are compatible it succeeds exactly when some
      candidate exceeds the start bound, and then returns a candidate that none exceeds. */
  method FindLargestVersionAvail(repos: seq<Repository>, ver: string, select: Comparator)
    returns (found: bool, name: string, vers: string)
    ensures found ==> Candidate(name, vers) in Candidates(repos)
    ensures var start, cands := StartBound(ver, select), Candidates(repos);
            OneModel(start, cands) ==>
              && (found <==> exists c :: c in cands && Below(start, c.version))
              && (found ==> Below(start, vers) && NoneExceeds(vers, cands))
  {
    var start := StartBound(ver, select);
    found, name, vers := false, [], start;
    var r := 0;
    while r < |repos|
      invariant r <= |repos|
      invariant Largest(start, Candidates(repos[..r]), found, name, vers)
    {
      assert repos[..r + 1][..r] == repos[..r];
      if repos[r].Some? {
        found, name, vers := ScanRepository(repos[r].value, start, Candidates(repos[..r]), found, name, vers);
      } else {
        assert Candidates(repos[..r + 1]) == Candidates(repos[..r]);
      }
      r := r + 1;
    }
    assert repos[..r] == repos;
  }

  method ScanRepository(files: seq<FileEntry>, start: string, ghost before: seq<Candidate>,
                        found0: bool, name0: string, vers0: string)
    returns (found: bool, name: string, vers: string)
    requires Largest(start, before, found0, name0, vers0)
    ensures Largest(start, before + Matching(files), found, name, vers)
  {
    found, name, vers := found0, name0, vers0;
    var i := 0;
    assert before + Matching(files[..0]) == before;
    while i < |files|
      invariant i <= |files|
      invariant Largest(start, before + Matching(files[..i]), found, name, vers)
    {
      MatchingStep(files, i, before);
      if files[i].version.Some? {
        var c := Candidate(files[i].name, files[i].version.value);
        found, name, vers := Consider(c, start, before + Matching(files[..i]), found, name, vers);
      }
      i := i + 1;
    }
    assert files[..i] == files;
  }

  /** One matching file: compared with "greater than" and kept when it is larger. */
  method Consider(c: Candidate, start: string, ghost seen: seq<Candidate>, found0: bool, name0: string, vers0: string)
    returns (found: bool, name: string, vers: string)
    requires Largest(start, seen, found0, name0, vers0)
    ensures Largest(start, seen + [c], found, name, vers)
  {
    if CompareVersions(c.version, vers0, Gt, None, None) == Match {
      TakesOver(start, seen, c, found0, name0, vers0);
      found, name, vers := true, c.name, c.version;
    } else {
      StaysLargest(start, seen, c, found0, name0, vers0);
      found, name, vers := found0, name0, vers0;
    }
  }

  lemma {:induction false} MatchingStep(files: seq<FileEntry>, i: nat, before: seq<Candidate>)
    requires i < |files|
    ensures before + Matching(files[..i + 1])
            == before + Matching(files[..i]) +
               (if files[i].version.Some? then [Candidate(files[i].name, files[i].version.value)] else [])
  {
    assert files[..i + 1][..i] == files[..i];
  }

  // ---------------------------------------------------------------- what the bound means

  /** With no version or "*" every non-empty candidate exceeds the bound. */
  lemma {:induction false} AnyVersionBound(ver: string, select: Comparator, c: string)
    requires ver == [] || ver == ['*']
    ensures Below(StartBound(ver, select), c) <==> c != []
  {
    TokensEmpty(c);
    assert Canonify([]) == [];
  }

  /** Some candidate exceeds the bound; when the versions are compatible, the search succeeds exactly
      then. */
  ghost predicate Exceeded(start: string, cands: seq<Candidate>) {
    exists c :: c in cands && Below(start, c.version)
  }

  /** Some candidate satisfies the comparison that was asked for. */
  ghost predicate Wanted(ver: string, select: Comparator, cands: seq<Candidate>) {
    exists c :: c in cands && Verdict(ver, c.version, select)
  }

  ghost predicate Offers(cands: seq<Candidate>, ver: string) {
    exists c :: c in cands && c.version == ver
  }

  /** A ">=" search answers wrongly exactly when the version asked for is on offer and none exceeds
      it: it never finds that version itself. */
  lemma {:induction false} AtLeastExactly(ver: string, cands: seq<Candidate>)
    requires ver != [] && ver != ['*']
    ensures (Exceeded(StartBound(ver, Ge), cands) <==> Wanted(ver, Ge, cands)) <==>
              !(Offers(cands, ver) && NoneExceeds(ver, cands))
  {
    if Offers(cands, ver) {
      var c :| c in cands && c.version == ver;
      assert Verdict(ver, c.version, Ge);
    }
    if Exceeded(ver, cands) {
      var c :| c in cands && Below(ver, c.version);
      assert Verdict(ver, c.version, Ge);
    }
    if Wanted(ver, Ge, cands) {
      var c :| c in cands && Verdict(ver, c.version, Ge);
    }
  }

  lemma {:induction false} SingleToken(c: char)
    requires IsAlnum(c)
    ensures Tokens([c]) == [[c]] && Separators([c]) == []
  {
    assert Canonify([c]) == [c];
    assert RunEnd([c], 1) == 1;
    assert [c][0..1] == [c];
  }

  /** A ">" search for "9" accepts "0": raising '9' gives ':', which is a separator. */
  lemma {:induction false} GreaterAcceptsSmaller()
    ensures Below(StartBound(['9'], Gt), ['0']) && !Below(['9'], ['0'])
  {
    var b := [':'];
    assert BumpLast(['9']) == b;
    assert Canonify(b) == b;
    assert b[0..0] == [] && Parse(b, 1) == Parts([], []);
    assert Tokens(b) == [[]];
    SingleToken('9');
    SingleToken('0');
  }

  // ---------------------------------------------------------------- when raising is sound

  lemma {:induction false} StrcmpLast(a: string, b: string)
    requires |a| == |b| > 0 && (forall k | 0 <= k < |a| - 1 :: a[k] == b[k]) && a[|a| - 1] <= b[|b| - 1]
    ensures Strcmp(a, b) <= 0
    decreases |a|
  {
    if |a| > 1 {
      StrcmpLast(a[1..], b[1..]);
    }
  }

  /** Equal but for the last character, which is alphanumeric in both and no smaller in `w`. */
  ghost predicate SameButLast(v: string, w: string) {
    && |v| == |w| > 0 && (forall k | 0 <= k < |v| - 1 :: v[k] == w[k])
    && IsAlnum(v[|v| - 1]) && IsAlnum(w[|w| - 1]) && v[|v| - 1] <= w[|w| - 1]
  }

  lemma {:induction false} SameRunEnd(v: string, w: string, i: nat)
    requires SameButLast(v, w) && i <= |v|
    ensures RunEnd(v, i) == RunEnd(w, i)
    decreases |v| - i
  {
    if i < |v| && IsAlnum(v[i]) {
      SameRunEnd(v, w, i + 1);
    }
  }

  /** From position `i` on, `w` has the same separators as `v` and tokens that are no smaller. */
  ghost predicate Raised(v: string, w: string, i: nat)
    requires i <= |v| == |w|
  {
    Parse(v, i).sep == Parse(w, i).sep && Lex(Parse(v, i).num, Parse(w, i).num) <= 0
  }

  lemma {:induction false} RaisedParse(v: string, w: string, i: nat)
    requires SameButLast(v, w) && i <= |v|
    ensures Raised(v, w, i)
    decreases |v| - i
  {
    if i < |v| {
      SameRunEnd(v, w, i);
      var j := NumeralEnd(v, i);
      if j == |v| {
        StrcmpLast(v[i..j], w[i..j]);
      } else {
        RaisedParse(v, w, j + 1);
        RaisedStep(v, w, i, j);
      }
    }
  }

  lemma {:induction false} RaisedStep(v: string, w: string, i: nat, j: nat)
    requires SameButLast(v, w) && i <= j < |v| && j == NumeralEnd(v, i) == NumeralEnd(w, i)
    requires Raised(v, w, j + 1)
    ensures Raised(v, w, i)
  {
    ParseTail(v, i, j);
    ParseTail(w, i, j);
    SameHead(v, w, i, j);
    LexHead(Parse(v, i).num, Parse(w, i).num);
  }

  lemma {:induction false} SameHead(v: string, w: string, i: nat, j: nat)
    requires SameButLast(v, w) && i <= j < |v|
    ensures v[i..j] == w[i..j] && SeparatorAt(v, j) == SeparatorAt(w, j)
  {
  }

  lemma {:induction false} LexHead(a: seq<string>, b: seq<string>)
    requires a != [] && b != [] && a[0] == b[0]
    ensures Lex(a, b) == Lex(a[1..], b[1..])
  {
    StrcmpZero(a[0], b[0]);
  }

  lemma {:induction false} ParseTail(v: string, i: nat, j: nat)
    requires i <= j < |v| && j == NumeralEnd(v, i)
    ensures var p, rest := Parse(v, i), Parse(v, j + 1);
            && p.num != [] && p.num[0] == v[i..j] && p.num[1..] == rest.num
            && p.sep == [SeparatorAt(v, j)] + rest.sep
  {
  }

  lemma {:induction false} LexAtMostThenBelow(a: seq<string>, b: seq<string>, c: seq<string>)
    requires Lex(a, b) <= 0 && Lex(b, c) < 0
    ensures Lex(a, c) < 0
  {
    if Lex(a, b) < 0 { LexTransitive(a, b, c); } else { LexZero(a, b); }
  }

  /** The last character, when raised, stays a letter or digit. */
  predicate Raisable(ver: string) {
    ver != [] && IsAlnum(ver[|ver| - 1]) && ver[|ver| - 1] !in {'9', 'Z', 'z'}
  }

  lemma {:induction false} RaisedTokens(ver: string)
    requires Raisable(ver)
    ensures Separators(ver) == Separators(BumpLast(ver)) && Lex(Tokens(ver), Tokens(BumpLast(ver))) <= 0
    ensures SameButLast(Canonify(ver), Canonify(BumpLast(ver)))
  {
    var v, w := Canonify(ver), Canonify(BumpLast(ver));
    assert forall k | 0 <= k < |ver| - 1 :: BumpLast(ver)[k] == ver[k];
    assert SameButLast(v, w);
    RaisedParse(v, w, 0);
  }

  // ---------------------------------------------------------------- versions that go on

  lemma {:induction false} ExtendRun(v: string, e: string, i: nat)
    requires i <= |v| && e != [] && !IsAlnum(e[0])
    ensures RunEnd(v + e, i) == RunEnd(v, i)
    decreases |v| - i
  {
    if i < |v| {
      assert (v + e)[i] == v[i];
      if IsAlnum(v[i]) { ExtendRun(v, e, i + 1); }
    } else {
      assert (v + e)[i] == e[0];
    }
  }

  /** Text that goes on with a separator keeps its tokens and separators as the first ones; a token
      after that separator is one more. */
  lemma {:induction false} ExtendParse(v: string, e: string, i: nat)
    requires i <= |v| && e != [] && !IsAlnum(e[0])
    ensures var p, q := Parse(v, i), Parse(v + e, i);
            p.num <= q.num && p.sep <= q.sep && (|e| == 2 && IsAlnum(e[1]) ==> |p.num| < |q.num|)
    decreases |v| - i
  {
    var w := v + e;
    ExtendRun(v, e, i);
    var j := NumeralEnd(v, i);
    assert j < |w| && w[i..j] == v[i..j];
    ParseTail(w, i, j);
    if j < |v| {
      assert w[j] == v[j];
      ParseTail(v, i, j);
      ExtendParse(v, e, j + 1);
      HeadsAndTails(Parse(v, i).num, Parse(w, i).num, Parse(v, j + 1).num, Parse(w, j + 1).num);
      assert Parse(v, i).sep == [SeparatorAt(v, j)] + Parse(v, j + 1).sep;
    } else if i < |v| {
      assert Parse(v, i) == Parts([v[i..j]], []);
      ExtendLast(v, e, i);
    } else {
      assert Parse(v, i) == Parts([], []);
    }
  }

  lemma {:induction false} HeadsAndTails(a: seq<string>, b: seq<string>, p: seq<string>, q: seq<string>)
    requires a != [] && b != [] && a[0] == b[0] && a[1..] == p && b[1..] == q && p <= q
    ensures a <= b
  {
    assert a == [a[0]] + p && b == [b[0]] + q;
  }

  lemma {:induction false} ExtendLast(v: string, e: string, i: nat)
    requires i < |v| && e != [] && !IsAlnum(e[0]) && NumeralEnd(v + e, i) == |v|
    ensures Parse(v + e, i).num != [] && Parse(v + e, i).num[0] == v[i..]
    ensures |e| == 2 && IsAlnum(e[1]) ==> |Parse(v + e, i).num| > 1
  {
    var w := v + e;
    ParseTail(w, i, |v|);
    assert w[i..|v|] == v[i..];
    if |e| == 2 && IsAlnum(e[1]) { assert Parse(w, |v| + 1).num != []; }
  }

  lemma {:induction false} PrefixOrder(a: seq<string>, b: seq<string>)
    requires a <= b
    ensures Compatible(a, b) && Lex(a, b) == if |a| < |b| then -1 else 0
  {
    if a != [] {
      StrcmpZero(a[0], b[0]);
      PrefixOrder(a[1..], b[1..]);
    } else if b == [] {
      LexZero(a, b);
    }
  }

  lemma {:induction false} PrefixCompatible(a: seq<string>, b: seq<string>, c: seq<string>)
    requires a <= b && Compatible(b, c)
    ensures Compatible(a, c)
  {
    if a != [] && c != [] { PrefixCompatible(a[1..], b[1..], c[1..]); }
  }

  const DOT_ZERO: string := ['.', '0']

  /** Every version is below itself with ".0" appended. */
  lemma {:induction false} DotZeroAbove(v: string)
    ensures Below(v, v + DOT_ZERO)
  {
    assert Canonify(v + DOT_ZERO) == Canonify(v) + DOT_ZERO;
    ExtendParse(Canonify(v), DOT_ZERO, 0);
    PrefixOrder(Tokens(v), Tokens(v + DOT_ZERO));
    PrefixOrder(Separators(v), Separators(v + DOT_ZERO));
  }

  // ---------------------------------------------------------------- versions that part

  /** `w` agrees with `v` up to the last character of `v`, and goes on below or beside it. */
  ghost predicate PartsAtLast(v: string, w: string) {
    var n := |v| - 1;
    && 0 <= n < |w| && (forall k | 0 <= k < n :: v[k] == w[k])
    && if IsAlnum(v[n]) then !IsAlnum(w[n])
       else w[n] != v[n] && (IsAlnum(w[n]) ==> n + 1 < |w| && !IsAlnum(w[n + 1]) && w[n + 1] != v[n])
  }

  lemma {:induction false} RunBefore(v: string, w: string, n: nat, i: nat)
    requires i <= n < |v| && n < |w| && forall k | 0 <= k < n :: v[k] == w[k]
    ensures RunEnd(v, i) < n || RunEnd(w, i) < n ==> RunEnd(v, i) == RunEnd(w, i)
    decreases n - i
  {
    if i < n && IsAlnum(v[i]) { RunBefore(v, w, n, i + 1); }
  }

  lemma {:induction false} RunAt(v: string, i: nat, n: nat)
    requires i <= n < |v| && RunEnd(v, i) >= n
    ensures RunEnd(v, i) == RunEnd(v, n)
    decreases n - i
  {
    if i < n { RunAt(v, i + 1, n); }
  }

  lemma {:induction false} StrcmpLonger(a: string, b: string)
    requires b <= a && |b| < |a|
    ensures Strcmp(a, b) == 1
  {
    if b != [] { StrcmpLonger(a[1..], b[1..]); }
  }

  /** Such a `w` is not above `v`. */
  lemma {:induction false} NotAbove(v: string, w: string, i: nat)
    requires PartsAtLast(v, w) && i < |v|
    ensures !(Compatible(Parse(v, i).sep, Parse(w, i).sep) && Lex(Parse(v, i).num, Parse(w, i).num) < 0)
    decreases |v| - i
  {
    var j := NumeralEnd(v, i);
    if j < |v| - 1 {
      SamePartHead(v, w, i, j);
      ParseTail(v, i, j);
      ParseTail(w, i, j);
      NotAbove(v, w, j + 1);
      NotAboveCons(v[i..j], SeparatorAt(v, j), Parse(v, j + 1), Parse(w, j + 1));
    } else {
      NotAboveLast(v, w, i);
    }
  }

  lemma {:induction false} SamePartHead(v: string, w: string, i: nat, j: nat)
    requires PartsAtLast(v, w) && i < |v| && j == NumeralEnd(v, i) < |v| - 1
    ensures j < |w| && NumeralEnd(w, i) == j && v[i..j] == w[i..j] && SeparatorAt(v, j) == SeparatorAt(w, j)
  {
    RunBefore(v, w, |v| - 1, i);
  }

  lemma {:induction false} NotAboveCons(num: string, sep: string, p: Parts, q: Parts)
    requires !(Compatible(p.sep, q.sep) && Lex(p.num, q.num) < 0)
    ensures !(Compatible([sep] + p.sep, [sep] + q.sep) && Lex([num] + p.num, [num] + q.num) < 0)
  {
    LexHead([num] + p.num, [num] + q.num);
    assert ([sep] + p.sep)[1..] == p.sep && ([sep] + q.sep)[1..] == q.sep;
    assert ([num] + p.num)[1..] == p.num && ([num] + q.num)[1..] == q.num;
  }

  lemma {:induction false} NotAboveLast(v: string, w: string, i: nat)
    requires PartsAtLast(v, w) && i < |v| && NumeralEnd(v, i) >= |v| - 1
    ensures !(Compatible(Parse(v, i).sep, Parse(w, i).sep) && Lex(Parse(v, i).num, Parse(w, i).num) < 0)
  {
    var n := |v| - 1;
    RunBefore(v, w, n, i);
    RunAt(v, i, n);
    RunAt(w, i, n);
    var j, k := NumeralEnd(v, i), NumeralEnd(w, i);
    ParseTail(w, i, k);
    if j == |v| {
      assert v[i..j] == w[i..n] + [v[n]];
      StrcmpLonger(v[i..j], w[i..n]);
    } else {
      ParseTail(v, i, n);
    }
  }

  // ---------------------------------------------------------------- what raising the bound does

  lemma {:induction false} CanonifyParts(ver: string, e: string)
    requires ver != [] && !Raisable(ver) && e == BumpLast(ver) + DOT_ZERO
    ensures PartsAtLast(Canonify(ver), Canonify(e))
  {
    var n := |ver| - 1;
    assert forall k | 0 <= k < n :: e[k] == ver[k];
    if ver[n] < 255 as char {
      assert e[n] == (ver[n] as int + 1) as char && e[n + 1] == '.';
    } else {
      assert e[n] == '.';
    }
  }

  lemma {:induction false} CanonifyBelow(ver: string, e: string)
    requires PartsAtLast(Canonify(ver), Canonify(e))
    ensures !Below(ver, e)
  {
    NotAbove(Canonify(ver), Canonify(e), 0);
  }

  /** A ">" search finds only greater versions, whatever is on offer, exactly when the raised last
      character is still a letter or digit: for versions that end in one, but not in '9', 'Z' or 'z'. */
  lemma {:induction false} GreaterSoundExactly(ver: string)
    requires ver != [] && ver != ['*']
    ensures (forall c :: Below(StartBound(ver, Gt), c) ==> Below(ver, c)) <==> Raisable(ver)
  {
    var b := BumpLast(ver);
    if Raisable(ver) {
      RaisedTokens(ver);
      forall c | Below(b, c) ensures Below(ver, c) {
        LexAtMostThenBelow(Tokens(ver), Tokens(b), Tokens(c));
      }
    } else {
      DotZeroAbove(b);
      CanonifyParts(ver, b + DOT_ZERO);
      CanonifyBelow(ver, b + DOT_ZERO);
    }
  }

  /** Raising the last character changed no token: it was lost behind an over-long run. */
  predicate RaisedInVain(ver: string)
    requires ver != []
  {
    Tokens(BumpLast(ver)) == Tokens(ver)
  }

  /** A ">" search misses no greater version, whatever is on offer, exactly when the bound was not
      really raised. */
  lemma {:induction false} GreaterCompleteExactly(ver: string)
    requires ver != [] && ver != ['*']
    ensures (forall c :: Below(ver, c) ==> Below(StartBound(ver, Gt), c)) <==>
              ver[|ver| - 1] >= 255 as char || (Raisable(ver) && RaisedInVain(ver))
  {
    var b := BumpLast(ver);
    if ver[|ver| - 1] >= 255 as char {
      forall c | Below(ver, c) ensures Below(b, c) { CutBelow(ver, c); }
    } else if Raisable(ver) {
      RaisedTokens(ver);
      LexZero(Tokens(ver), Tokens(b));
      CompatibleSelf(Separators(ver));
      BelowIrreflexive(b);
      if !RaisedInVain(ver) { assert Below(ver, b) && !Below(b, b); }
    } else {
      DotZeroAbove(ver);
      CanonifyMissed(ver);
      CanonifyBelow(b, ver + DOT_ZERO);
    }
  }

  lemma {:induction false} CanonifyMissed(ver: string)
    requires ver != [] && !Raisable(ver) && ver[|ver| - 1] < 255 as char
    ensures PartsAtLast(Canonify(BumpLast(ver)), Canonify(ver + DOT_ZERO))
  {
    var n, b := |ver| - 1, BumpLast(ver);
    assert b[n] == (ver[n] as int + 1) as char && forall k | 0 <= k < n :: b[k] == (ver + DOT_ZERO)[k];
    assert (ver + DOT_ZERO)[n] == ver[n] && (ver + DOT_ZERO)[n + 1] == '.';
  }

  /** Dropping a last character that is no letter or digit lowers the version, at most. */
  lemma {:induction false} CutBelow(ver: string, c: string)
    requires ver != [] && ver[|ver| - 1] >= 255 as char && Below(ver, c)
    ensures Below(BumpLast(ver), c)
  {
    var n, b := |ver| - 1, BumpLast(ver);
    assert b == ver[..n] && Canonify(ver) == Canonify(b) + [ver[n]];
    ExtendParse(Canonify(b), [ver[n]], 0);
    PrefixOrder(Tokens(b), Tokens(ver));
    PrefixCompatible(Separators(b), Separators(ver), Separators(c));
    LexAtMostThenBelow(Tokens(b), Tokens(ver), Tokens(c));
  }

  // ---------------------------------------------------------------- which greater versions are missed

  /** The second token is the first with its last character raised by one. */
  ghost predicate NextToken(a: string, b: string) {
    && |a| == |b| > 0 && (forall k | 0 <= k < |a| - 1 :: a[k] == b[k])
    && b[|a| - 1] as int == a[|a| - 1] as int + 1
  }

  /** Equal, or equal but for the last token, which is raised. */
  ghost predicate NextTokens(a: seq<string>, b: seq<string>) {
    a == b || (|a| == |b| > 0 && a[..|a| - 1] == b[..|a| - 1] && NextToken(a[|a| - 1], b[|a| - 1]))
  }

  lemma {:induction false} RaisedShape(v: string, w: string, i: nat)
    requires SameButLast(v, w) && w[|v| - 1] as int == v[|v| - 1] as int + 1 && i <= |v|
    ensures NextTokens(Parse(v, i).num, Parse(w, i).num)
    decreases |v| - i
  {
    if i < |v| {
      SameRunEnd(v, w, i);
      var j := NumeralEnd(v, i);
      if j == |v| {
        assert Parse(v, i).num == [v[i..j]] && Parse(w, i).num == [w[i..j]];
        if i < j { assert NextToken(v[i..j], w[i..j]); }
      } else {
        RaisedShape(v, w, j + 1);
        ParseTail(v, i, j);
        ParseTail(w, i, j);
        SameHead(v, w, i, j);
        NextTokensCons(v[i..j], Parse(v, j + 1).num, Parse(w, j + 1).num);
        assert Parse(v, i).num == [v[i..j]] + Parse(v, j + 1).num;
        assert Parse(w, i).num == [v[i..j]] + Parse(w, j + 1).num;
      }
    }
  }

  lemma {:induction false} NextTokensCons(h: string, a: seq<string>, b: seq<string>)
    requires NextTokens(a, b)
    ensures NextTokens([h] + a, [h] + b)
  {
    if a != b {
      var n := |a| - 1;
      assert ([h] + a)[..n + 1] == [h] + a[..n] && ([h] + b)[..n + 1] == [h] + b[..n];
      assert ([h] + a)[n + 1] == a[n] && ([h] + b)[n + 1] == b[n];
    }
  }

  lemma {:induction false} TokenBetween(a: string, b: string, u: string)
    requires NextToken(a, b)
    ensures a <= u ==> Strcmp(b, u) > 0
    ensures Strcmp(a, u) <= 0 && Strcmp(b, u) > 0 ==> a <= u
    decreases |a|
  {
    if |a| > 1 && u != [] && a[0] == u[0] {
      TokenBetween(a[1..], b[1..], u[1..]);
      assert a <= u <==> a[1..] <= u[1..] by {
        assert a == [a[0]] + a[1..] && u == [u[0]] + u[1..];
      }
    }
  }

  /** The tokens `c` begin with the tokens `a`, the last of which may go on. */
  ghost predicate Extends(a: seq<string>, c: seq<string>) {
    0 < |a| <= |c| && a[..|a| - 1] == c[..|a| - 1] && a[|a| - 1] <= c[|a| - 1]
  }

  lemma {:induction false} TokensBetween(a: seq<string>, b: seq<string>, c: seq<string>)
    requires a != b && NextTokens(a, b) && Lex(a, c) < 0
    ensures Lex(b, c) >= 0 <==> Extends(a, c) || c == b
    decreases |a|
  {
    LexZero(b, c);
    if |a| == 1 {
      TokenBetween(a[0], b[0], c[0]);
      StrcmpZero(a[0], c[0]);
      StrcmpZero(b[0], c[0]);
    } else {
      assert a[0] == a[..|a| - 1][0] == b[..|a| - 1][0] == b[0];
      StrcmpZero(a[0], c[0]);
      if a[0] == c[0] {
        assert NextTokens(a[1..], b[1..]) by {
          assert a[1..][..|a| - 2] == a[..|a| - 1][1..] && b[1..][..|a| - 2] == b[..|a| - 1][1..];
        }
        TokensBetween(a[1..], b[1..], c[1..]);
        ExtendsTail(a, c);
        assert c == b <==> c[1..] == b[1..] by { assert c == [c[0]] + c[1..] && b == [b[0]] + b[1..]; }
      } else {
        StrcmpZero(b[0], c[0]);
        assert |c| >= |a| ==> a[..|a| - 1][0] == a[0] && c[..|a| - 1][0] == c[0];
      }
    }
  }

  lemma {:induction false} ExtendsTail(a: seq<string>, c: seq<string>)
    requires |a| > 1 && c != [] && a[0] == c[0]
    ensures Extends(a, c) <==> Extends(a[1..], c[1..])
  {
    var n := |a| - 1;
    if n < |c| {
      assert a[..n] == [a[0]] + a[1..][..n - 1] && c[..n] == [c[0]] + c[1..][..n - 1];
      assert a[1..][..n - 1] == a[..n][1..] && c[1..][..n - 1] == c[..n][1..];
    }
  }

  /** A ">" search misses a greater version exactly when that version extends the one asked for
      ("3.1" or "30" for "3") or has the tokens of the raised one ("4"), unless the bound was not
      really raised. */
  lemma {:induction false} MissedExactly(ver: string, c: string)
    requires ver != ['*'] && Raisable(ver) && Below(ver, c)
    ensures !Below(StartBound(ver, Gt), c) <==>
              !RaisedInVain(ver) && (Extends(Tokens(ver), Tokens(c)) || Tokens(c) == Tokens(BumpLast(ver)))
  {
    var b := BumpLast(ver);
    RaisedTokens(ver);
    RaisedShape(Canonify(ver), Canonify(b), 0);
    if !RaisedInVain(ver) { TokensBetween(Tokens(ver), Tokens(b), Tokens(c)); }
  }
}
