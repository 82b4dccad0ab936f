/** What the walk of DepthSearch reaches, told on the tree and the promise alone: which paths below
    the base are verified, and which trees the walk fails on. */
module WalkCoverage {
  import opened Common
  import opened DepthSearch
  import opened WalkDiscipline
  import opened WalkOrder

  // ---------------------------------------------------------------- paths in the tree

  /** A listed node counts as `m`: itself, unless it is a link. A link is followed when links are, its
      owner is trusted and it leads somewhere; otherwise it counts as a link, or not at all when it
      leads nowhere and such links are removed. */
  predicate CountsAs(c: Config, n: Node, m: Node) {
    if !n.Link? then m == n
    else if c.travlinks then n.trusted && n.to == Some(m) && !m.Link?
    else m == n && !(c.rmdeadlinks && (n.to == None || n.to.value.Link?))
  }

  ghost predicate ListedAs(t: Tree, c: Config, d: nat, x: string, m: Node) {
    d in t.listing && exists i :: 0 <= i < |t.listing[d]| && t.listing[d][i].0 == x && CountsAs(c, t.listing[d][i].1, m)
  }

  /** Directory `d`, named `name`, has the entry `x`, the promise wants it, and it counts as `m`. */
  ghost predicate Shows(t: Tree, c: Config, name: Path, d: nat, x: string, m: Node) {
    && ListedAs(t, c, d, x, m) && x !in c.ignored
    && (m.Directory? ==> name + [x] !in c.skipped)
  }

  predicate Usable(t: Tree, d: nat) {
    d in t.enterable && d in t.openable && d in t.listing
  }

  /** The entry is a link that is not ignored, and not removed for leading nowhere. */
  ghost predicate ShowsLink(t: Tree, c: Config, d: nat, x: string) {
    && d in t.listing && x !in c.ignored
    && exists i :: 0 <= i < |t.listing[d]| && t.listing[d][i].0 == x && StaysLink(c, t.listing[d][i].1)
  }

  predicate StaysLink(c: Config, n: Node) {
    n.Link? && !(c.rmdeadlinks && (n.to == None || n.to.value.Link?))
  }

  /** `r` leads from directory `d` through usable directories to a wanted entry, or to a link. */
  ghost predicate Covered(t: Tree, c: Config, name: Path, d: nat, r: Path, asLink: bool)
    decreases |r|
  {
    && r != [] && Usable(t, d)
    && if |r| == 1 then (if asLink then ShowsLink(t, c, d, r[0]) else ShowsSome(t, c, name, d, r[0]))
       else exists m :: Shows(t, c, name, d, r[0], m) && m.Directory? && Covered(t, c, name + [r[0]], m.id, r[1..], asLink)
  }

  ghost predicate ShowsSome(t: Tree, c: Config, name: Path, d: nat, x: string) {
    exists m :: Shows(t, c, name, d, x, m)
  }

  /** `r` leads from directory `d` to a directory that can be changed into but not read. */
  ghost predicate MeetsClosed(t: Tree, c: Config, name: Path, d: nat, r: Path)
    decreases |r|
  {
    && d in t.enterable
    && if r == [] then d !in t.openable || d !in t.listing
       else
         && Usable(t, d)
         && exists m :: Shows(t, c, name, d, r[0], m) && m.Directory? && MeetsClosed(t, c, name + [r[0]], m.id, r[1..])
  }

  /** How many steps below a directory read at `level` are still verified, and entered. */
  predicate Verifies(c: Config, level: nat, steps: nat) {
    level + steps <= 101 && (steps == 1 || (c.depth > 1 && level + steps <= c.depth + 2))
  }

  predicate Reads(c: Config, level: nat, steps: nat) {
    level + steps <= 100 && (steps == 0 || (c.depth > 1 && level + steps <= c.depth + 1))
  }

  // ---------------------------------------------------------------- the entry of a directory

  lemma {:induction false} FindIs(entries: seq<(string, Node)>, i: nat)
    requires DistinctNames(entries) && i < |entries|
    ensures Find(entries, entries[i].0) == Some(entries[i].1)
  {
    if i > 0 {
      assert entries[0].0 != entries[i].0;
      FindIs(entries[1..], i - 1);
    }
  }

  lemma {:induction false} FindAt(entries: seq<(string, Node)>, x: string) returns (i: nat)
    requires DistinctNames(entries) && Find(entries, x).Some?
    ensures i < |entries| && entries[i].0 == x && Find(entries, x) == Some(entries[i].1)
  {
    FindListed(entries, x);
    i :| 0 <= i < |entries| && entries[i].0 == x;
    FindIs(entries, i);
  }

  lemma {:induction false} AdmitCounts(t: Tree, c: Config, id: nat, name: Path, x: string, n: Node, m: Node)
    requires Lstat(t, id, x) == Some(n)
    ensures Admit(t, c, id, name, x).0 == Some(m) <==> CountsAs(c, n, m)
  {
  }

  /** What the loop makes of an entry is what the tree shows. */
  lemma {:induction false} ShowsWanted(t: Tree, c: Config, name: Path, id: nat, x: string, m: Node)
    requires WellFormed(t)
    ensures Shows(t, c, name, id, x, m) <==> Wanted(t, c, name, id, x) && Admit(t, c, id, name, x).0 == Some(m)
  {
    if ListedAs(t, c, id, x, m) {
      var i :| 0 <= i < |t.listing[id]| && t.listing[id][i].0 == x && CountsAs(c, t.listing[id][i].1, m);
      FindIs(t.listing[id], i);
      AdmitCounts(t, c, id, name, x, t.listing[id][i].1, m);
    }
    if Admit(t, c, id, name, x).0 == Some(m) {
      var i := FindAt(t.listing[id], x);
      AdmitCounts(t, c, id, name, x, t.listing[id][i].1, m);
      assert ListedAs(t, c, id, x, m);
    }
  }

  // ---------------------------------------------------------------- coverage

  ghost predicate Verified(events: seq<Event>, p: Path, asLink: bool) {
    exists k :: 0 <= k < |events| && events[k].path == p && events[k].asLink == asLink
  }

  lemma {:induction false} VerifiedJoin(a: seq<Event>, b: seq<Event>, p: Path, asLink: bool)
    ensures Verified(a + b, p, asLink) <==> Verified(a, p, asLink) || Verified(b, p, asLink)
  {
    if Verified(a, p, asLink) {
      var k :| 0 <= k < |a| && a[k].path == p && a[k].asLink == asLink;
      assert (a + b)[k] == a[k];
    }
    if Verified(b, p, asLink) {
      var k :| 0 <= k < |b| && b[k].path == p && b[k].asLink == asLink;
      assert (a + b)[|a| + k] == b[k];
    }
    if Verified(a + b, p, asLink) {
      var k :| 0 <= k < |a + b| && (a + b)[k].path == p && (a + b)[k].asLink == asLink;
      assert k >= |a| ==> (a + b)[k] == b[k - |a|];
    }
  }

  lemma {:induction false} OtherEntry(events: seq<Event>, name: Path, x: string, r: Path, asLink: bool)
    requires Within(events, name, x) && r != [] && r[0] != x
    ensures !Verified(events, name + r, asLink)
  {
    assert (name + r)[|name|] == r[0];
  }

  lemma {:induction false} Deeper(name: Path, r: Path)
    requires |r| > 1
    ensures name + r == (name + [r[0]]) + r[1..] && name + r != name + [r[0]]
  {
  }

  lemma {:induction false} OneStep(name: Path, r: Path)
    requires |r| == 1
    ensures name + r == name + [r[0]]
  {
  }

  /** Which paths the walk verifies, at any level. */
  lemma {:induction false} DirCovers(t: Tree, c: Config, cwd: nat, name: Path, id: nat, rlevel: nat, r: Path, asLink: bool)
    requires WellFormed(t) && Resolve(t, name) == Some(id) && r != []
    requires !WalkDir(t, c, cwd, name, id, rlevel).failed
    ensures Verified(WalkDir(t, c, cwd, name, id, rlevel).events, name + r, asLink)
            <==> Covered(t, c, name, id, r, asLink) && Verifies(c, rlevel, |r|)
    decreases |r|, 2, 0
  {
    if rlevel <= RECURSION_LIMIT && id in t.enterable {
      EntriesCover(t, c, name, id, rlevel, t.listing[id], r, asLink);
      if Listed(t.listing[id], r[0]) {
        EntryNotFailed(t, c, name, id, rlevel, t.listing[id], r[0]);
        EntryCovers(t, c, name, id, rlevel, r, asLink);
      } else {
        assert !Covered(t, c, name, id, r, asLink);
      }
    }
  }

  ghost predicate Listed(entries: seq<(string, Node)>, x: string) {
    exists k :: 0 <= k < |entries| && entries[k].0 == x
  }

  lemma {:induction false} ListedSplits(entries: seq<(string, Node)>, x: string)
    requires entries != []
    ensures Listed(entries, x) <==> entries[0].0 == x || Listed(entries[1..], x)
  {
    if Listed(entries[1..], x) {
      var k :| 0 <= k < |entries[1..]| && entries[1..][k].0 == x;
      assert entries[k + 1].0 == x;
    }
    if Listed(entries, x) {
      var k :| 0 <= k < |entries| && entries[k].0 == x;
      assert k > 0 ==> entries[1..][k - 1].0 == x;
    }
  }

  /** One entry is reached from the directory the walk started in. */
  lemma {:induction false} EntriesStep(t: Tree, c: Config, name: Path, id: nat, rlevel: nat, rest: seq<(string, Node)>)
    requires WellFormed(t) && Chdir(t, name) == Some(id) && rlevel <= RECURSION_LIMIT && rest != []
    requires !WalkEntries(t, c, id, name, id, rlevel, rest).failed
    ensures var o, more := WalkEntry(t, c, id, name, id, rlevel, rest[0].0), WalkEntries(t, c, id, name, id, rlevel, rest[1..]);
            && !o.failed && !more.failed
            && WalkEntries(t, c, id, name, id, rlevel, rest).events == o.events + more.events
  {
    EntryDisciplined(t, c, name, id, rlevel, rest[0].0);
  }

  lemma {:induction false} EntryNotFailed(t: Tree, c: Config, name: Path, id: nat, rlevel: nat, rest: seq<(string, Node)>, x: string)
    requires WellFormed(t) && Chdir(t, name) == Some(id) && rlevel <= RECURSION_LIMIT
    requires !WalkEntries(t, c, id, name, id, rlevel, rest).failed && Listed(rest, x)
    ensures !WalkEntry(t, c, id, name, id, rlevel, x).failed
    decreases |rest|
  {
    EntriesStep(t, c, name, id, rlevel, rest);
    ListedSplits(rest, x);
    if rest[0].0 != x {
      EntryNotFailed(t, c, name, id, rlevel, rest[1..], x);
    }
  }

  lemma {:induction false} EntriesCover(t: Tree, c: Config, name: Path, id: nat, rlevel: nat, rest: seq<(string, Node)>, r: Path, asLink: bool)
    requires WellFormed(t) && Chdir(t, name) == Some(id) && rlevel <= RECURSION_LIMIT && r != []
    requires !WalkEntries(t, c, id, name, id, rlevel, rest).failed
    ensures Verified(WalkEntries(t, c, id, name, id, rlevel, rest).events, name + r, asLink)
            <==> Listed(rest, r[0]) && Verified(WalkEntry(t, c, id, name, id, rlevel, r[0]).events, name + r, asLink)
    decreases |rest|
  {
    if rest != [] {
      var o := WalkEntry(t, c, id, name, id, rlevel, rest[0].0);
      EntriesStep(t, c, name, id, rlevel, rest);
      ListedSplits(rest, r[0]);
      VerifiedJoin(o.events, WalkEntries(t, c, id, name, id, rlevel, rest[1..]).events, name + r, asLink);
      EntriesCover(t, c, name, id, rlevel, rest[1..], r, asLink);
      if rest[0].0 != r[0] {
        EntryWithin(t, c, id, name, id, rlevel, rest[0].0);
        OtherEntry(o.events, name, rest[0].0, r, asLink);
      }
    }
  }

  lemma {:induction false} EntryCovers(t: Tree, c: Config, name: Path, id: nat, rlevel: nat, r: Path, asLink: bool)
    requires WellFormed(t) && Chdir(t, name) == Some(id) && rlevel <= RECURSION_LIMIT && r != [] && Usable(t, id)
    requires !WalkEntry(t, c, id, name, id, rlevel, r[0]).failed
    ensures Verified(WalkEntry(t, c, id, name, id, rlevel, r[0]).events, name + r, asLink)
            <==> Covered(t, c, name, id, r, asLink) && Verifies(c, rlevel, |r|)
    decreases |r|, 1, 0
  {
    if |r| == 1 {
      EntryItself(t, c, name, id, rlevel, r, asLink);
    } else if Descends(t, c, id, name, rlevel, r[0]) {
      var d := Admit(t, c, id, name, r[0]).0.value.id;
      assert Resolve(t, name + [r[0]]) == Some(d) by { AdmitSound(t, c, name, id, r[0]); }
      DirCovers(t, c, id, name + [r[0]], d, rlevel + 1, r[1..], asLink);
      DescentCovers(t, c, name, id, rlevel, r, asLink, d);
    } else {
      NoDescent(t, c, name, id, rlevel, r, asLink);
    }
  }

  lemma {:induction false} EntryItself(t: Tree, c: Config, name: Path, id: nat, rlevel: nat, r: Path, asLink: bool)
    requires WellFormed(t) && Chdir(t, name) == Some(id) && rlevel <= RECURSION_LIMIT && |r| == 1 && Usable(t, id)
    requires !WalkEntry(t, c, id, name, id, rlevel, r[0]).failed
    ensures Verified(WalkEntry(t, c, id, name, id, rlevel, r[0]).events, name + r, asLink)
            <==> Covered(t, c, name, id, r, asLink) && Verifies(c, rlevel, |r|)
  {
    OneStep(name, r);
    if asLink {
      LinkItself(t, c, name, id, rlevel, r[0]);
    } else {
      CoveredOne(t, c, name, id, r);
      if Wanted(t, c, name, id, r[0]) {
        WantedEntry(t, c, name, id, rlevel, r[0]);
      } else {
        UnwantedEntry(t, c, name, id, rlevel, r[0]);
      }
    }
  }

  lemma {:induction false} UnwantedEntry(t: Tree, c: Config, name: Path, id: nat, rlevel: nat, x: string)
    requires rlevel <= RECURSION_LIMIT && !Wanted(t, c, name, id, x)
    ensures forall p :: !Verified(WalkEntry(t, c, id, name, id, rlevel, x).events, p, false)
  {
  }

  lemma {:induction false} CoveredOne(t: Tree, c: Config, name: Path, id: nat, r: Path)
    requires WellFormed(t) && |r| == 1 && Usable(t, id)
    ensures Covered(t, c, name, id, r, false) <==> Wanted(t, c, name, id, r[0])
  {
    if Wanted(t, c, name, id, r[0]) {
      ShowsWanted(t, c, name, id, r[0], Admit(t, c, id, name, r[0]).0.value);
    }
    if Covered(t, c, name, id, r, false) {
      var m :| Shows(t, c, name, id, r[0], m);
      ShowsWanted(t, c, name, id, r[0], m);
    }
  }

  /** A link is verified once more, before it is followed. */
  lemma {:induction false} LinkItself(t: Tree, c: Config, name: Path, id: nat, rlevel: nat, x: string)
    requires WellFormed(t) && rlevel <= RECURSION_LIMIT && Usable(t, id)
    ensures Verified(WalkEntry(t, c, id, name, id, rlevel, x).events, name + [x], true) <==> ShowsLink(t, c, id, x)
  {
    var path, early := name + [x], Admit(t, c, id, name, x).1;
    EarlyIs(t, c, name, id, x);
    if x !in c.ignored {
      var rest := AfterEarly(t, c, name, id, rlevel, x);
      VerifiedJoin(early, rest, path, true);
      assert early != [] ==> early[0] == Event(path, id, true);
    }
  }

  lemma {:induction false} EarlyIs(t: Tree, c: Config, name: Path, id: nat, x: string)
    requires WellFormed(t) && id in t.listing
    ensures var early := Admit(t, c, id, name, x).1;
            early == if Lstat(t, id, x).Some? && StaysLink(c, Lstat(t, id, x).value) then [Event(name + [x], id, true)] else []
    ensures x !in c.ignored ==>
              (ShowsLink(t, c, id, x) <==> Lstat(t, id, x).Some? && StaysLink(c, Lstat(t, id, x).value))
  {
    if ShowsLink(t, c, id, x) {
      var i :| 0 <= i < |t.listing[id]| && t.listing[id][i].0 == x && StaysLink(c, t.listing[id][i].1);
      FindIs(t.listing[id], i);
    }
    if Lstat(t, id, x).Some? {
      var i := FindAt(t.listing[id], x);
      assert t.listing[id][i].0 == x;
    }
  }

  /** What follows the early verification is no early verification of this entry. */
  lemma {:induction false} AfterEarly(t: Tree, c: Config, name: Path, id: nat, rlevel: nat, x: string) returns (rest: seq<Event>)
    requires rlevel <= RECURSION_LIMIT && x !in c.ignored
    ensures WalkEntry(t, c, id, name, id, rlevel, x).events == Admit(t, c, id, name, x).1 + rest
    ensures !Verified(rest, name + [x], true)
  {
    var path, early := name + [x], Admit(t, c, id, name, x).1;
    if Descends(t, c, id, name, rlevel, x) {
      var d := Admit(t, c, id, name, x).0.value.id;
      var o := WalkDir(t, c, id, path, d, rlevel + 1);
      var back := PopDir(t, c, o, name, id);
      DirBelow(t, c, id, path, d, rlevel + 1);
      rest := o.events + if back.Some? then [Event(path, back.value, false)] else [];
      assert back.Some? ==> early + o.events + [Event(path, back.value, false)] == early + rest;
      assert back.None? ==> early + o.events == early + rest;
      assert !Verified(o.events, path, true);
      VerifiedJoin(o.events, if back.Some? then [Event(path, back.value, false)] else [], path, true);
    } else {
      rest := if Wanted(t, c, name, id, x) then [Event(path, id, false)] else [];
      assert early + [] == early;
    }
  }

  lemma {:induction false} CoveredMore(t: Tree, c: Config, name: Path, id: nat, r: Path, asLink: bool, m: Node)
    requires WellFormed(t) && |r| > 1 && Usable(t, id)
    requires Admit(t, c, id, name, r[0]).0 == Some(m)
    ensures Covered(t, c, name, id, r, asLink)
            <==> Wanted(t, c, name, id, r[0]) && m.Directory? && Covered(t, c, name + [r[0]], m.id, r[1..], asLink)
  {
    ShowsWanted(t, c, name, id, r[0], m);
    if Covered(t, c, name, id, r, asLink) {
      var n :| Shows(t, c, name, id, r[0], n) && n.Directory? && Covered(t, c, name + [r[0]], n.id, r[1..], asLink);
      ShowsWanted(t, c, name, id, r[0], n);
    }
  }

  lemma {:induction false} DescentCovers(t: Tree, c: Config, name: Path, id: nat, rlevel: nat, r: Path, asLink: bool, d: nat)
    requires WellFormed(t) && Chdir(t, name) == Some(id) && rlevel <= RECURSION_LIMIT && |r| > 1 && Usable(t, id)
    requires Descends(t, c, id, name, rlevel, r[0]) && Admit(t, c, id, name, r[0]).0 == Some(Directory(d))
    requires Verified(WalkDir(t, c, id, name + [r[0]], d, rlevel + 1).events, (name + [r[0]]) + r[1..], asLink)
             <==> Covered(t, c, name + [r[0]], d, r[1..], asLink) && Verifies(c, rlevel + 1, |r| - 1)
    ensures Verified(WalkEntry(t, c, id, name, id, rlevel, r[0]).events, name + r, asLink)
            <==> Covered(t, c, name, id, r, asLink) && Verifies(c, rlevel, |r|)
  {
    Deeper(name, r);
    CoveredMore(t, c, name, id, r, asLink, Directory(d));
    DescentVerifies(t, c, name, id, rlevel, r[0], d, name + r, asLink);
  }

  lemma {:induction false} DescentVerifies(t: Tree, c: Config, name: Path, id: nat, rlevel: nat, x: string, d: nat, p: Path, asLink: bool)
    requires rlevel <= RECURSION_LIMIT && p != name + [x]
    requires Descends(t, c, id, name, rlevel, x) && Admit(t, c, id, name, x).0 == Some(Directory(d))
    ensures Verified(WalkEntry(t, c, id, name, id, rlevel, x).events, p, asLink)
            <==> Verified(WalkDir(t, c, id, name + [x], d, rlevel + 1).events, p, asLink)
  {
    var early, o := Admit(t, c, id, name, x).1, WalkDir(t, c, id, name + [x], d, rlevel + 1);
    var back := PopDir(t, c, o, name, id);
    VerifiedJoin(early, o.events, p, asLink);
    if back.Some? {
      VerifiedJoin(early + o.events, [Event(name + [x], back.value, false)], p, asLink);
    }
  }

  lemma {:induction false} NoDescent(t: Tree, c: Config, name: Path, id: nat, rlevel: nat, r: Path, asLink: bool)
    requires WellFormed(t) && rlevel <= RECURSION_LIMIT && |r| > 1 && Usable(t, id)
    requires !Descends(t, c, id, name, rlevel, r[0])
    ensures !Verified(WalkEntry(t, c, id, name, id, rlevel, r[0]).events, name + r, asLink)
    ensures !(Covered(t, c, name, id, r, asLink) && Verifies(c, rlevel, |r|))
  {
    Deeper(name, r);
    var node := Admit(t, c, id, name, r[0]).0;
    if node.Some? {
      CoveredMore(t, c, name, id, r, asLink, node.value);
    } else if Covered(t, c, name, id, r, asLink) {
      var m :| Shows(t, c, name, id, r[0], m);
      ShowsWanted(t, c, name, id, r[0], m);
    }
  }

  // ---------------------------------------------------------------- failure

  /** A walk is led to a closed directory along the paths of the tree that lie within its depth. */
  lemma {:induction false} ClosedOnTree(t: Tree, c: Config, name: Path, id: nat, rlevel: nat, r: Path)
    requires WellFormed(t)
    ensures LeadsToClosed(t, c, name, id, rlevel, r) <==> MeetsClosed(t, c, name, id, r) && Reads(c, rlevel, |r|)
    decreases |r|
  {
    if r != [] && id in t.enterable && Opens(t, id) && rlevel <= RECURSION_LIMIT {
      var node := Admit(t, c, id, name, r[0]).0;
      if node.Some? && node.value.Directory? {
        ClosedOnTree(t, c, name + [r[0]], node.value.id, rlevel + 1, r[1..]);
        ShowsWanted(t, c, name, id, r[0], node.value);
      }
      if MeetsClosed(t, c, name, id, r) {
        var m :| Shows(t, c, name, id, r[0], m) && m.Directory? && MeetsClosed(t, c, name + [r[0]], m.id, r[1..]);
        ShowsWanted(t, c, name, id, r[0], m);
      }
    }
  }

  /** The walk of the base fails exactly on the trees that have a closed directory in its reach. */
  lemma {:induction false} FailsOnTree(t: Tree, c: Config, cwd: nat, base: Path, id: nat)
    requires WellFormed(t) && Resolve(t, base) == Some(id)
    ensures WalkDir(t, c, cwd, base, id, 0).failed
            <==> exists r :: MeetsClosed(t, c, base, id, r) && Reads(c, 0, |r|)
  {
    DirFailsExactly(t, c, cwd, base, id, 0);
    if SomeClosed(t, c, base, id, 0) {
      var r :| LeadsToClosed(t, c, base, id, 0, r);
      ClosedOnTree(t, c, base, id, 0, r);
    }
    forall r | MeetsClosed(t, c, base, id, r) && Reads(c, 0, |r|) ensures SomeClosed(t, c, base, id, 0) {
      ClosedOnTree(t, c, base, id, 0, r);
      assert LeadsToClosed(t, c, base, id, 0, r);
    }
  }

  /** Coverage of the whole walk, exactly: on a tree without a closed directory in reach, the paths
      verified below the base are the ones that lead through usable directories to a wanted entry (or, for
      the extra verification of links, to a link that stays), and
      are one step long, or at most two steps longer than a promised depth above one; none is longer
      than 101 steps. */
  lemma {:induction false} CoverageExactly(t: Tree, c: Config, cwd: nat, base: Path, id: nat, r: Path, asLink: bool)
    requires WellFormed(t) && Resolve(t, base) == Some(id) && r != []
    requires forall q :: MeetsClosed(t, c, base, id, q) ==> !Reads(c, 0, |q|)
    ensures Verified(WalkDir(t, c, cwd, base, id, 0).events, base + r, asLink)
            <==> && Covered(t, c, base, id, r, asLink)
                 && |r| <= 101 && (|r| == 1 || (c.depth > 1 && |r| <= c.depth + 2))
  {
    FailsOnTree(t, c, cwd, base, id);
    DirCovers(t, c, cwd, base, id, 0, r, asLink);
  }
}
