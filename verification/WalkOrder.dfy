/** The order in which DepthSearch verifies: contents before their directory, every admitted entry,
    and nothing deeper than the recursion limit allows. */
module WalkOrder {
  import opened Common
  import opened DepthSearch
  import opened WalkDiscipline

  // ---------------------------------------------------------------- the shape of one entry's events

  /** The events of one entry: the early verification of a link, the events of the directory it is,
      and its own verification; any of them may be missing. */
  datatype Shape = Shape(early: seq<Event>, sub: seq<Event>, tail: seq<Event>, dir: nat)

  ghost predicate HasShape(t: Tree, c: Config, cwd: nat, name: Path, id: nat, rlevel: nat, x: string, s: Shape)
    requires rlevel <= RECURSION_LIMIT
  {
    var path := name + [x];
    var o := WalkEntry(t, c, cwd, name, id, rlevel, x);
    && o.events == s.early + s.sub + s.tail
    && (s.early == [] || s.early == [Event(path, cwd, true)])
    && (s.tail == [] || (|s.tail| == 1 && s.tail[0].path == path && !s.tail[0].asLink))
    && (s.sub != [] ==>
          && s.sub == WalkDir(t, c, cwd, path, s.dir, rlevel + 1).events
          && o.failed == WalkDir(t, c, cwd, path, s.dir, rlevel + 1).failed
          && Admit(t, c, cwd, name, x).0 == Some(Directory(s.dir))
          && (o.status != Fatal ==> s.tail != []))
  }

  lemma {:induction false} EntryShape(t: Tree, c: Config, cwd: nat, name: Path, id: nat, rlevel: nat, x: string)
    returns (s: Shape)
    requires rlevel <= RECURSION_LIMIT
    ensures HasShape(t, c, cwd, name, id, rlevel, x, s)
  {
    var path := name + [x];
    var (node, link) := Admit(t, c, cwd, name, x);
    if x in c.ignored {
      s := Shape([], [], [], 0);
    } else if node.None? || (node.value.Directory? && path in c.skipped) {
      s := Shape(link, [], [], 0);
      assert link + [] + [] == link;
    } else if !node.value.Directory? || !Enters(c, rlevel) {
      s := Shape(link, [], [Event(path, cwd, false)], 0);
      assert link + [] == link;
    } else {
      var o := WalkDir(t, c, cwd, path, node.value.id, rlevel + 1);
      var back := PopDir(t, c, o, name, id);
      s := Shape(link, o.events, if back.Some? then [Event(path, back.value, false)] else [], node.value.id);
      assert back.None? ==> link + o.events + [] == link + o.events;
    }
  }

  // ---------------------------------------------------------------- where events lie

  /** Every event lies strictly below `name`. */
  ghost predicate Below(events: seq<Event>, name: Path) {
    forall i | 0 <= i < |events| :: name < events[i].path
  }

  /** Every event concerns the entry `x` of `name` or something below it. */
  ghost predicate Within(events: seq<Event>, name: Path, x: string) {
    forall i | 0 <= i < |events| :: |name| < |events[i].path| && name < events[i].path && events[i].path[|name|] == x
  }

  /** No event concerns the entry `x` of `name`. */
  ghost predicate Avoids(events: seq<Event>, name: Path, x: string) {
    forall i | 0 <= i < |events| :: name < events[i].path && events[i].path[|name|] != x
  }

  lemma {:induction false} DirBelow(t: Tree, c: Config, cwd: nat, name: Path, id: nat, rlevel: nat)
    ensures Below(WalkDir(t, c, cwd, name, id, rlevel).events, name)
    decreases if rlevel <= RECURSION_LIMIT then RECURSION_LIMIT + 1 - rlevel else 0, 2, 0
  {
    if rlevel <= RECURSION_LIMIT && id in t.listing {
      EntriesBelow(t, c, id, name, id, rlevel, t.listing[id]);
    }
  }

  lemma {:induction false} EntriesBelow(t: Tree, c: Config, cwd: nat, name: Path, id: nat, rlevel: nat, rest: seq<(string, Node)>)
    requires rlevel <= RECURSION_LIMIT
    ensures Below(WalkEntries(t, c, cwd, name, id, rlevel, rest).events, name)
    decreases RECURSION_LIMIT + 1 - rlevel, 1, |rest|
  {
    if rest != [] {
      EntryWithin(t, c, cwd, name, id, rlevel, rest[0].0);
      EntriesBelow(t, c, WalkEntry(t, c, cwd, name, id, rlevel, rest[0].0).cwd, name, id, rlevel, rest[1..]);
    }
  }

  lemma {:induction false} EntryWithin(t: Tree, c: Config, cwd: nat, name: Path, id: nat, rlevel: nat, x: string)
    requires rlevel <= RECURSION_LIMIT
    ensures Within(WalkEntry(t, c, cwd, name, id, rlevel, x).events, name, x)
    decreases RECURSION_LIMIT + 1 - rlevel, 0, 1
  {
    var s := EntryShape(t, c, cwd, name, id, rlevel, x);
    if s.sub != [] {
      DirBelow(t, c, cwd, name + [x], s.dir, rlevel + 1);
    }
    BelowIsWithin(s.sub, name, x);
    assert Within(s.early, name, x) && Within(s.tail, name, x);
    WithinJoin(s.early, s.sub, s.tail, name, x);
  }

  lemma {:induction false} WithinJoin(a: seq<Event>, b: seq<Event>, c: seq<Event>, name: Path, x: string)
    requires Within(a, name, x) && Within(b, name, x) && Within(c, name, x)
    ensures Within(a + b + c, name, x)
  {
  }

  lemma {:induction false} BelowIsWithin(events: seq<Event>, name: Path, x: string)
    requires Below(events, name + [x])
    ensures Within(events, name, x)
  {
    forall i | 0 <= i < |events|
      ensures |name| < |events[i].path| && name < events[i].path && events[i].path[|name|] == x
    {
      assert (name + [x])[|name|] == x;
      assert events[i].path[..|name|] == (name + [x])[..|name|];
    }
  }

  lemma {:induction false} EntriesAvoid(t: Tree, c: Config, cwd: nat, name: Path, id: nat, rlevel: nat,
                                        rest: seq<(string, Node)>, x: string)
    requires rlevel <= RECURSION_LIMIT && forall k | 0 <= k < |rest| :: rest[k].0 != x
    ensures Avoids(WalkEntries(t, c, cwd, name, id, rlevel, rest).events, name, x)
    decreases |rest|
  {
    if rest != [] {
      EntryWithin(t, c, cwd, name, id, rlevel, rest[0].0);
      EntriesAvoid(t, c, WalkEntry(t, c, cwd, name, id, rlevel, rest[0].0).cwd, name, id, rlevel, rest[1..], x);
    }
  }

  // ---------------------------------------------------------------- contents first

  /** No entry is verified (other than as a link) before something below it. */
  ghost predicate ContentsFirst(events: seq<Event>) {
    forall i, j | 0 <= i < j < |events| :: events[i].path < events[j].path ==> events[i].asLink
  }

  /** Whatever is verified below `name`, every directory in between is verified afterwards. */
  ghost predicate ParentsFollow(events: seq<Event>, name: Path) {
    forall j, p | 0 <= j < |events| :: name < p < events[j].path ==> FollowedBy(events, j, p)
  }

  ghost predicate FollowedBy(events: seq<Event>, j: int, p: Path) {
    exists i :: 0 <= i < |events| && j < i && events[i].path == p && !events[i].asLink
  }

  lemma {:induction false} ContentsFirstConcat(a: seq<Event>, b: seq<Event>, name: Path, x: string)
    requires ContentsFirst(a) && ContentsFirst(b) && Within(a, name, x) && Avoids(b, name, x)
    ensures ContentsFirst(a + b)
  {
    var all := a + b;
    forall i, j | 0 <= i < j < |all| ensures all[i].path < all[j].path ==> all[i].asLink {
      if i < |a| && j >= |a| {
        assert all[j] == b[j - |a|];
        DifferentEntries(all[i].path, all[j].path, |name|);
      } else if i >= |a| {
        assert all[i] == b[i - |a|] && all[j] == b[j - |a|];
      }
    }
  }

  lemma {:induction false} DifferentEntries(p: Path, q: Path, k: nat)
    requires k < |p| && k < |q| && p[k] != q[k]
    ensures !(p < q)
  {
  }

  lemma {:induction false} ContentsFirstEntry(early: seq<Event>, sub: seq<Event>, path: Path, tail: seq<Event>)
    requires forall i | 0 <= i < |early| :: early[i].asLink
    requires ContentsFirst(sub) && Below(sub, path)
    requires tail == [] || (|tail| == 1 && tail[0].path == path)
    ensures ContentsFirst(early + sub + tail)
  {
    var all := early + sub + tail;
    forall i, j | 0 <= i < j < |all| ensures all[i].path < all[j].path ==> all[i].asLink {
      if |early| <= i {
        assert i < |early| + |sub| && all[i] == sub[i - |early|];
        if j < |early| + |sub| { assert all[j] == sub[j - |early|]; }
      }
    }
  }

  lemma {:induction false} DirContentsFirst(t: Tree, c: Config, cwd: nat, name: Path, id: nat, rlevel: nat)
    requires WellFormed(t)
    ensures ContentsFirst(WalkDir(t, c, cwd, name, id, rlevel).events)
    decreases if rlevel <= RECURSION_LIMIT then RECURSION_LIMIT + 1 - rlevel else 0, 2, 0
  {
    if rlevel <= RECURSION_LIMIT && id in t.listing {
      EntriesContentsFirst(t, c, id, name, id, rlevel, t.listing[id]);
    }
  }

  lemma {:induction false} EntriesContentsFirst(t: Tree, c: Config, cwd: nat, name: Path, id: nat, rlevel: nat, rest: seq<(string, Node)>)
    requires WellFormed(t) && rlevel <= RECURSION_LIMIT && DistinctNames(rest)
    ensures ContentsFirst(WalkEntries(t, c, cwd, name, id, rlevel, rest).events)
    decreases RECURSION_LIMIT + 1 - rlevel, 1, |rest|
  {
    if rest != [] {
      var x := rest[0].0;
      var o := WalkEntry(t, c, cwd, name, id, rlevel, x);
      EntryContentsFirst(t, c, cwd, name, id, rlevel, x);
      EntryWithin(t, c, cwd, name, id, rlevel, x);
      EntriesContentsFirst(t, c, o.cwd, name, id, rlevel, rest[1..]);
      EntriesAvoid(t, c, o.cwd, name, id, rlevel, rest[1..], x);
      ContentsFirstConcat(o.events, WalkEntries(t, c, o.cwd, name, id, rlevel, rest[1..]).events, name, x);
    }
  }

  lemma {:induction false} EntryContentsFirst(t: Tree, c: Config, cwd: nat, name: Path, id: nat, rlevel: nat, x: string)
    requires WellFormed(t) && rlevel <= RECURSION_LIMIT
    ensures ContentsFirst(WalkEntry(t, c, cwd, name, id, rlevel, x).events)
    decreases RECURSION_LIMIT + 1 - rlevel, 0, 1
  {
    var s := EntryShape(t, c, cwd, name, id, rlevel, x);
    if s.sub != [] {
      DirContentsFirst(t, c, cwd, name + [x], s.dir, rlevel + 1);
      DirBelow(t, c, cwd, name + [x], s.dir, rlevel + 1);
    }
    ContentsFirstEntry(s.early, s.sub, name + [x], s.tail);
  }

  // ---------------------------------------------------------------- parents follow

  lemma {:induction false} ParentsFollowConcat(a: seq<Event>, b: seq<Event>, name: Path)
    requires ParentsFollow(a, name) && ParentsFollow(b, name)
    ensures ParentsFollow(a + b, name)
  {
    var all := a + b;
    forall j, p | 0 <= j < |all| ensures name < p < all[j].path ==> FollowedBy(all, j, p) {
      if name < p < all[j].path {
        if j < |a| {
          assert all[j] == a[j];
          assert FollowedBy(a, j, p);
          var i :| 0 <= i < |a| && j < i && a[i].path == p && !a[i].asLink;
          assert all[i] == a[i];
        } else {
          assert all[j] == b[j - |a|];
          assert FollowedBy(b, j - |a|, p);
          var i :| 0 <= i < |b| && j - |a| < i && b[i].path == p && !b[i].asLink;
          assert all[|a| + i] == b[i];
        }
      }
    }
  }

  lemma {:induction false} BetweenPaths(name: Path, x: string, p: Path, q: Path)
    requires name < p < q && name + [x] < q && p != name + [x]
    ensures name + [x] < p
  {
    assert p[|name|] == q[|name|] == (name + [x])[|name|];
    assert |p| == |name| + 1 ==> p == name + [x];
  }

  lemma {:induction false} ParentsFollowEntry(early: seq<Event>, sub: seq<Event>, name: Path, x: string, tail: seq<Event>)
    requires forall i | 0 <= i < |early| :: early[i].path == name + [x]
    requires ParentsFollow(sub, name + [x]) && Below(sub, name + [x])
    requires forall i | 0 <= i < |tail| :: tail[i].path == name + [x] && !tail[i].asLink
    requires sub != [] ==> tail != []
    ensures ParentsFollow(early + sub + tail, name)
  {
    var path, all := name + [x], early + sub + tail;
    forall j, p | 0 <= j < |all| ensures name < p < all[j].path ==> FollowedBy(all, j, p) {
      if name < p < all[j].path && |early| <= j < |early| + |sub| {
        var e := sub[j - |early|];
        assert all[j] == e;
        if p == path {
          assert all[|all| - 1] == tail[|tail| - 1];
        } else {
          BetweenPaths(name, x, p, e.path);
          assert FollowedBy(sub, j - |early|, p);
          var i :| 0 <= i < |sub| && j - |early| < i && sub[i].path == p && !sub[i].asLink;
          assert all[|early| + i] == sub[i];
        }
      }
    }
  }

  lemma {:induction false} DirParentsFollow(t: Tree, c: Config, cwd: nat, name: Path, id: nat, rlevel: nat)
    requires WellFormed(t) && Resolve(t, name) == Some(id) && !WalkDir(t, c, cwd, name, id, rlevel).failed
    ensures ParentsFollow(WalkDir(t, c, cwd, name, id, rlevel).events, name)
    decreases if rlevel <= RECURSION_LIMIT then RECURSION_LIMIT + 1 - rlevel else 0, 2, 0
  {
    if rlevel <= RECURSION_LIMIT && id in t.enterable {
      EntriesParentsFollow(t, c, name, id, rlevel, t.listing[id]);
    }
  }

  lemma {:induction false} EntriesParentsFollow(t: Tree, c: Config, name: Path, id: nat, rlevel: nat, rest: seq<(string, Node)>)
    requires WellFormed(t) && Chdir(t, name) == Some(id) && rlevel <= RECURSION_LIMIT
    requires !WalkEntries(t, c, id, name, id, rlevel, rest).failed
    ensures ParentsFollow(WalkEntries(t, c, id, name, id, rlevel, rest).events, name)
    decreases RECURSION_LIMIT + 1 - rlevel, 1, |rest|
  {
    if rest != [] {
      var x := rest[0].0;
      EntryDisciplined(t, c, name, id, rlevel, x);
      EntryParentsFollow(t, c, name, id, rlevel, x);
      EntriesParentsFollow(t, c, name, id, rlevel, rest[1..]);
      ParentsFollowConcat(WalkEntry(t, c, id, name, id, rlevel, x).events,
                          WalkEntries(t, c, id, name, id, rlevel, rest[1..]).events, name);
    }
  }

  lemma {:induction false} EntryParentsFollow(t: Tree, c: Config, name: Path, id: nat, rlevel: nat, x: string)
    requires WellFormed(t) && Chdir(t, name) == Some(id) && rlevel <= RECURSION_LIMIT
    requires !WalkEntry(t, c, id, name, id, rlevel, x).failed
    ensures ParentsFollow(WalkEntry(t, c, id, name, id, rlevel, x).events, name)
    decreases RECURSION_LIMIT + 1 - rlevel, 0, 1
  {
    var s := EntryShape(t, c, id, name, id, rlevel, x);
    assert WalkEntry(t, c, id, name, id, rlevel, x).status != Fatal by {
      EntryDisciplined(t, c, name, id, rlevel, x);
    }
    if s.sub != [] {
      assert Resolve(t, name + [x]) == Some(s.dir) by { AdmitSound(t, c, name, id, x); }
      DirParentsFollow(t, c, id, name + [x], s.dir, rlevel + 1);
      DirBelow(t, c, id, name + [x], s.dir, rlevel + 1);
    }
    ParentsFollowEntry(s.early, s.sub, name, x, s.tail);
  }

  // ---------------------------------------------------------------- depth and completeness

  ghost predicate NoDeeper(events: seq<Event>, n: nat) {
    forall i | 0 <= i < |events| :: |events[i].path| <= n
  }

  /** How many levels down the walk may verify: the promised depth and the hard limit, whichever is
      reached first; one level when no directory is entered. */
  function Levels(c: Config, rlevel: nat): nat {
    var hard := if rlevel <= RECURSION_LIMIT then RECURSION_LIMIT + 1 - rlevel else 0;
    var promised := if c.depth > 1 && rlevel <= c.depth + 1 then c.depth + 2 - rlevel else 1;
    if promised < hard then promised else hard
  }

  lemma {:induction false} LevelsDown(c: Config, rlevel: nat)
    requires rlevel <= RECURSION_LIMIT
    ensures Levels(c, rlevel) >= 1 && (Enters(c, rlevel) ==> Levels(c, rlevel) == Levels(c, rlevel + 1) + 1)
  {
  }

  /** The level bound: with c.depth > 1 the walk goes no deeper than c.depth + 2 - rlevel levels, else it
      stays in its directory, and it never exceeds the hard limit. */
  lemma {:induction false} DirDepth(t: Tree, c: Config, cwd: nat, name: Path, id: nat, rlevel: nat)
    ensures NoDeeper(WalkDir(t, c, cwd, name, id, rlevel).events, |name| + Levels(c, rlevel))
    decreases if rlevel <= RECURSION_LIMIT then RECURSION_LIMIT + 1 - rlevel else 0, 2, 0
  {
    if rlevel <= RECURSION_LIMIT && id in t.listing {
      EntriesDepth(t, c, id, name, id, rlevel, t.listing[id]);
    }
  }

  lemma {:induction false} EntriesDepth(t: Tree, c: Config, cwd: nat, name: Path, id: nat, rlevel: nat, rest: seq<(string, Node)>)
    requires rlevel <= RECURSION_LIMIT
    ensures NoDeeper(WalkEntries(t, c, cwd, name, id, rlevel, rest).events, |name| + Levels(c, rlevel))
    decreases RECURSION_LIMIT + 1 - rlevel, 1, |rest|
  {
    if rest != [] {
      var x := rest[0].0;
      EntryDepth(t, c, cwd, name, id, rlevel, x);
      EntriesDepth(t, c, WalkEntry(t, c, cwd, name, id, rlevel, x).cwd, name, id, rlevel, rest[1..]);
    }
  }

  lemma {:induction false} EntryDepth(t: Tree, c: Config, cwd: nat, name: Path, id: nat, rlevel: nat, x: string)
    requires rlevel <= RECURSION_LIMIT
    ensures NoDeeper(WalkEntry(t, c, cwd, name, id, rlevel, x).events, |name| + Levels(c, rlevel))
    decreases RECURSION_LIMIT + 1 - rlevel, 0, 1
  {
    LevelsDown(c, rlevel);
    var s := EntryShape(t, c, cwd, name, id, rlevel, x);
    if s.sub != [] {
      DirDepth(t, c, cwd, name + [x], s.dir, rlevel + 1);
    }
  }

  /** The entry is neither ignored, nor gone as a ghost or untrusted link, nor a skipped directory. */
  predicate Wanted(t: Tree, c: Config, name: Path, id: nat, x: string) {
    var node := Admit(t, c, id, name, x).0;
    x !in c.ignored && node.Some? && (node.value.Directory? ==> name + [x] !in c.skipped)
  }

  /** Every wanted entry of the directory is verified, from that directory. */
  lemma {:induction false} WantedVerified(t: Tree, c: Config, name: Path, id: nat, rlevel: nat,
                                          rest: seq<(string, Node)>, k: nat)
    requires WellFormed(t) && Chdir(t, name) == Some(id) && rlevel <= RECURSION_LIMIT
    requires !WalkEntries(t, c, id, name, id, rlevel, rest).failed
    requires k < |rest| && Wanted(t, c, name, id, rest[k].0)
    ensures Event(name + [rest[k].0], id, false) in WalkEntries(t, c, id, name, id, rlevel, rest).events
    decreases |rest|
  {
    var x := rest[0].0;
    EntryDisciplined(t, c, name, id, rlevel, x);
    var o := WalkEntry(t, c, id, name, id, rlevel, x);
    var more := WalkEntries(t, c, id, name, id, rlevel, rest[1..]).events;
    if k == 0 {
      WantedEntry(t, c, name, id, rlevel, x);
      assert Event(name + [x], id, false) in o.events;
    } else {
      WantedVerified(t, c, name, id, rlevel, rest[1..], k - 1);
    }
  }

  lemma {:induction false} WantedEntry(t: Tree, c: Config, name: Path, id: nat, rlevel: nat, x: string)
    requires WellFormed(t) && Chdir(t, name) == Some(id) && rlevel <= RECURSION_LIMIT
    requires !WalkEntry(t, c, id, name, id, rlevel, x).failed && Wanted(t, c, name, id, x)
    ensures Event(name + [x], id, false) in WalkEntry(t, c, id, name, id, rlevel, x).events
  {
    EntryDisciplined(t, c, name, id, rlevel, x);
    var events := WalkEntry(t, c, id, name, id, rlevel, x).events;
    assert events != [] && events[|events| - 1] == Event(name + [x], id, false);
  }
}
