/** What the walk of DepthSearch guarantees: the working directory of every verification, the
    order of verifications, and how deep it goes. */
module WalkDiscipline {
  import opened Common
  import opened DepthSearch

  /** Names in a directory are distinct, and a real subdirectory has its directory as parent. */
  ghost predicate WellFormed(t: Tree) {
    && (forall d | d in t.listing :: DistinctNames(t.listing[d]))
    && (forall d, x | IsSubdirectory(t, d, x) ::
          var c := Lstat(t, d, x).value.id; c != d && c in t.parent && t.parent[c] == d)
  }

  ghost predicate DistinctNames(entries: seq<(string, Node)>) {
    forall i, j | 0 <= i < j < |entries| :: entries[i].0 != entries[j].0
  }

  predicate IsSubdirectory(t: Tree, d: nat, x: string) {
    Lstat(t, d, x).Some? && Lstat(t, d, x).value.Directory?
  }

  // ---------------------------------------------------------------- the working directory

  /** The verification runs in the directory its path's parent leads to. */
  ghost predicate InParent(t: Tree, e: Event) {
    e.path != [] && Resolve(t, e.path[..|e.path| - 1]) == Some(e.cwd)
  }

  ghost predicate AllInParent(t: Tree, events: seq<Event>) {
    forall i | 0 <= i < |events| :: InParent(t, events[i])
  }

  ghost predicate SomeElsewhere(t: Tree, events: seq<Event>) {
    exists i :: 0 <= i < |events| && !InParent(t, events[i])
  }

  lemma {:induction false} HereIsInParent(t: Tree, name: Path, x: string, cwd: nat, asLink: bool)
    ensures InParent(t, Event(name + [x], cwd, asLink)) <==> Resolve(t, name) == Some(cwd)
  {
    assert (name + [x])[..|name|] == name;
  }

  /** Path lookup takes one more step exactly as the walk does. */
  lemma {:induction false} ResolveStep(t: Tree, name: Path, x: string, id: nat)
    requires Resolve(t, name) == Some(id)
    ensures Resolve(t, name + [x]) ==
            match Lstat(t, id, x)
            case None => None
            case Some(n) => if Followed(n).Some? && Followed(n).value.Directory? then Some(Followed(n).value.id) else None
  {
    assert (name + [x])[..|name|] == name;
  }

  ghost predicate Disciplined(t: Tree, o: Outcome, cwd: nat, id: nat) {
    && o.status != Fatal
    && (o.status == Back ==> o.cwd == id)
    && (o.status == Stay ==> o.cwd == cwd)
    && AllInParent(t, o.events)
  }

  lemma {:induction false} DirDisciplined(t: Tree, c: Config, cwd: nat, name: Path, id: nat, rlevel: nat)
    requires WellFormed(t) && Resolve(t, name) == Some(id)
    ensures var o := WalkDir(t, c, cwd, name, id, rlevel); !o.failed ==> Disciplined(t, o, cwd, id)
    decreases if rlevel <= RECURSION_LIMIT then RECURSION_LIMIT + 1 - rlevel else 0, 2, 0
  {
    if rlevel <= RECURSION_LIMIT && id in t.enterable && id in t.openable && id in t.listing {
      EntriesDisciplined(t, c, name, id, rlevel, t.listing[id]);
    }
  }

  lemma {:induction false} EntriesDisciplined(t: Tree, c: Config, name: Path, id: nat, rlevel: nat, rest: seq<(string, Node)>)
    requires WellFormed(t) && Chdir(t, name) == Some(id) && rlevel <= RECURSION_LIMIT
    ensures var o := WalkEntries(t, c, id, name, id, rlevel, rest);
            !o.failed ==> o.status == Back && Disciplined(t, o, id, id)
    decreases RECURSION_LIMIT + 1 - rlevel, 1, |rest|
  {
    if rest != [] {
      EntryDisciplined(t, c, name, id, rlevel, rest[0].0);
      EntriesDisciplined(t, c, name, id, rlevel, rest[1..]);
    }
  }

  /** The early verification of a link, and what is left of the entry. */
  lemma {:induction false} AdmitSound(t: Tree, c: Config, name: Path, id: nat, x: string)
    requires Resolve(t, name) == Some(id)
    ensures var (node, early) := Admit(t, c, id, name, x);
            && (early == [] || early == [Event(name + [x], id, true)])
            && AllInParent(t, early)
            && (node.Some? && node.value.Directory? ==>
                  && Resolve(t, name + [x]) == Some(node.value.id)
                  && (!c.travlinks ==> IsSubdirectory(t, id, x) && Lstat(t, id, x) == node))
  {
    ResolveStep(t, name, x, id);
    HereIsInParent(t, name, x, id, true);
  }

  /** The entry is a directory that is entered. */
  predicate Descends(t: Tree, c: Config, cwd: nat, name: Path, rlevel: nat, x: string) {
    var node := Admit(t, c, cwd, name, x).0;
    && x !in c.ignored && node.Some? && node.value.Directory?
    && name + [x] !in c.skipped && Enters(c, rlevel)
  }

  lemma {:induction false} EntryDisciplined(t: Tree, c: Config, name: Path, id: nat, rlevel: nat, x: string)
    requires WellFormed(t) && Chdir(t, name) == Some(id) && rlevel <= RECURSION_LIMIT
    ensures var o := WalkEntry(t, c, id, name, id, rlevel, x);
            !o.failed ==> o.status == Back && Disciplined(t, o, id, id)
    decreases RECURSION_LIMIT + 1 - rlevel, 0, 1
  {
    if Descends(t, c, id, name, rlevel, x) {
      var d := Admit(t, c, id, name, x).0.value.id;
      assert Resolve(t, name + [x]) == Some(d) by { AdmitSound(t, c, name, id, x); }
      DirDisciplined(t, c, id, name + [x], d, rlevel + 1);
      EntryDescent(t, c, name, id, rlevel, x, d);
    } else {
      EntryWithoutDescent(t, c, name, id, rlevel, x);
    }
  }

  lemma {:induction false} EntryWithoutDescent(t: Tree, c: Config, name: Path, id: nat, rlevel: nat, x: string)
    requires Chdir(t, name) == Some(id) && rlevel <= RECURSION_LIMIT
    requires !Descends(t, c, id, name, rlevel, x)
    ensures var o := WalkEntry(t, c, id, name, id, rlevel, x);
            o.status == Back && Disciplined(t, o, id, id)
  {
    AdmitSound(t, c, name, id, x);
    HereIsInParent(t, name, x, id, false);
    InParentJoin(t, Admit(t, c, id, name, x).1, [], Event(name + [x], id, false));
  }

  lemma {:induction false} EntryDescent(t: Tree, c: Config, name: Path, id: nat, rlevel: nat, x: string, d: nat)
    requires WellFormed(t) && Chdir(t, name) == Some(id) && rlevel <= RECURSION_LIMIT
    requires Descends(t, c, id, name, rlevel, x) && Admit(t, c, id, name, x).0.value.id == d
    requires var o := WalkDir(t, c, id, name + [x], d, rlevel + 1); !o.failed ==> Disciplined(t, o, id, d)
    ensures var o := WalkEntry(t, c, id, name, id, rlevel, x);
            !o.failed ==> o.status == Back && Disciplined(t, o, id, id)
  {
    var o := WalkDir(t, c, id, name + [x], d, rlevel + 1);
    if !o.failed {
      AdmitSound(t, c, name, id, x);
      HereIsInParent(t, name, x, id, false);
      PopsBack(t, c, o, name, id, d, x);
      InParentJoin(t, Admit(t, c, id, name, x).1, o.events, Event(name + [x], id, false));
    }
  }

  /** Backing out of a directory that was entered properly leads to where the walk was. */
  lemma {:induction false} PopsBack(t: Tree, c: Config, o: Outcome, name: Path, id: nat, d: nat, x: string)
    requires WellFormed(t) && Chdir(t, name) == Some(id) && Disciplined(t, o, id, d)
    requires !c.travlinks ==> IsSubdirectory(t, id, x) && Lstat(t, id, x).value.id == d
    ensures PopDir(t, c, o, name, id) == Some(id)
  {
  }

  lemma {:induction false} InParentJoin(t: Tree, early: seq<Event>, sub: seq<Event>, last: Event)
    requires AllInParent(t, early) && AllInParent(t, sub) && InParent(t, last)
    ensures AllInParent(t, early + sub + [last])
    ensures sub == [] ==> early + sub == early
  {
  }

  // ---------------------------------------------------------------- when a directory cannot be opened

  predicate Opens(t: Tree, d: nat) {
    d in t.openable && d in t.listing
  }

  /** A directory that is entered but cannot be opened always leads to a verification in the wrong
      directory, beginning with its own. */
  lemma {:induction false} DirFlawed(t: Tree, c: Config, cwd: nat, name: Path, id: nat, rlevel: nat)
    requires WellFormed(t) && Resolve(t, name) == Some(id)
    requires WalkDir(t, c, cwd, name, id, rlevel).failed
    ensures var o := WalkDir(t, c, cwd, name, id, rlevel);
            (o.status == Stay && o.cwd == id && !Opens(t, id)) || SomeElsewhere(t, o.events)
    decreases if rlevel <= RECURSION_LIMIT then RECURSION_LIMIT + 1 - rlevel else 0, 2, 0
  {
    if id in t.openable && id in t.listing {
      EntriesFlawed(t, c, name, id, rlevel, t.listing[id]);
    }
  }

  lemma {:induction false} EntriesFlawed(t: Tree, c: Config, name: Path, id: nat, rlevel: nat, rest: seq<(string, Node)>)
    requires WellFormed(t) && Chdir(t, name) == Some(id) && rlevel <= RECURSION_LIMIT && Opens(t, id)
    requires WalkEntries(t, c, id, name, id, rlevel, rest).failed
    ensures SomeElsewhere(t, WalkEntries(t, c, id, name, id, rlevel, rest).events)
    decreases RECURSION_LIMIT + 1 - rlevel, 1, |rest|
  {
    var o := WalkEntry(t, c, id, name, id, rlevel, rest[0].0);
    EntryDisciplined(t, c, name, id, rlevel, rest[0].0);
    if o.failed {
      EntryFlawed(t, c, name, id, rlevel, rest[0].0);
      if o.status != Fatal {
        ElsewhereIn(t, [], o.events, WalkEntries(t, c, o.cwd, name, id, rlevel, rest[1..]).events);
        assert [] + o.events == o.events;
      }
    } else {
      EntriesFlawed(t, c, name, id, rlevel, rest[1..]);
      var more := WalkEntries(t, c, id, name, id, rlevel, rest[1..]).events;
      ElsewhereIn(t, o.events, more, []);
      assert o.events + more + [] == o.events + more;
    }
  }

  lemma {:induction false} ElsewhereIn(t: Tree, a: seq<Event>, b: seq<Event>, c: seq<Event>)
    requires SomeElsewhere(t, b)
    ensures SomeElsewhere(t, a + b + c)
  {
    var i :| 0 <= i < |b| && !InParent(t, b[i]);
    assert (a + b + c)[|a| + i] == b[i];
  }

  lemma {:induction false} EntryFlawed(t: Tree, c: Config, name: Path, id: nat, rlevel: nat, x: string)
    requires WellFormed(t) && Chdir(t, name) == Some(id) && rlevel <= RECURSION_LIMIT && Opens(t, id)
    requires WalkEntry(t, c, id, name, id, rlevel, x).failed
    ensures SomeElsewhere(t, WalkEntry(t, c, id, name, id, rlevel, x).events)
    decreases RECURSION_LIMIT + 1 - rlevel, 0, 1
  {
    AdmitSound(t, c, name, id, x);
    var d := Admit(t, c, id, name, x).0.value.id;
    DirFlawed(t, c, id, name + [x], d, rlevel + 1);
    DescentFlawed(t, c, name, id, rlevel, x, d);
  }

  /** A flawed walk below an entry is flawed at the entry: in what it did, or in the entry's own
      verification, which runs in the directory that did not open. */
  lemma {:induction false} DescentFlawed(t: Tree, c: Config, name: Path, id: nat, rlevel: nat, x: string, d: nat)
    requires Resolve(t, name) == Some(id) && rlevel <= RECURSION_LIMIT && Opens(t, id)
    requires Descends(t, c, id, name, rlevel, x) && Admit(t, c, id, name, x).0.value.id == d
    requires var o := WalkDir(t, c, id, name + [x], d, rlevel + 1);
             (o.status == Stay && o.cwd == d && !Opens(t, d)) || SomeElsewhere(t, o.events)
    ensures SomeElsewhere(t, WalkEntry(t, c, id, name, id, rlevel, x).events)
  {
    var path, early := name + [x], Admit(t, c, id, name, x).1;
    var o := WalkDir(t, c, id, path, d, rlevel + 1);
    var popped := PopDir(t, c, o, name, id);
    if SomeElsewhere(t, o.events) {
      var last := if popped.None? then [] else [Event(path, popped.value, false)];
      ElsewhereIn(t, early, o.events, last);
      assert popped.None? ==> early + o.events + last == early + o.events;
    } else {
      var own := Event(path, d, false);
      HereIsInParent(t, name, x, d, false);
      assert !InParent(t, own) && SomeElsewhere(t, [own]) by { assert [own][0] == own; }
      ElsewhereIn(t, early + o.events, [own], []);
      assert early + o.events + [own] + [] == early + o.events + [own];
    }
  }

  // ---------------------------------------------------------------- which walks meet such a directory

  /** Along `r` from directory `id`, named `name`, every directory is entered at its level and opened,
      but the last is entered and cannot be opened. This speaks of the tree and the promise only: an
      entry is listed, neither ignored nor skipped, is a directory (after its link, if links are
      followed), lies within the promised depth, and can be changed into. */
  predicate LeadsToClosed(t: Tree, c: Config, name: Path, id: nat, rlevel: nat, r: Path)
    decreases |r|
  {
    && rlevel <= RECURSION_LIMIT && id in t.enterable
    && if r == [] then !Opens(t, id)
       else
         && Opens(t, id) && Descends(t, c, id, name, rlevel, r[0])
         && LeadsToClosed(t, c, name + [r[0]], Admit(t, c, id, name, r[0]).0.value.id, rlevel + 1, r[1..])
  }

  ghost predicate SomeClosed(t: Tree, c: Config, name: Path, id: nat, rlevel: nat) {
    exists r :: LeadsToClosed(t, c, name, id, rlevel, r)
  }

  ghost predicate ClosedUnder(t: Tree, c: Config, name: Path, id: nat, rlevel: nat, x: string) {
    && Descends(t, c, id, name, rlevel, x)
    && SomeClosed(t, c, name + [x], Admit(t, c, id, name, x).0.value.id, rlevel + 1)
  }

  /** The walk fails exactly when it can be led to a directory that does not open. */
  lemma {:induction false} DirFailsExactly(t: Tree, c: Config, cwd: nat, name: Path, id: nat, rlevel: nat)
    requires WellFormed(t) && Resolve(t, name) == Some(id)
    ensures WalkDir(t, c, cwd, name, id, rlevel).failed <==> SomeClosed(t, c, name, id, rlevel)
    decreases if rlevel <= RECURSION_LIMIT then RECURSION_LIMIT + 1 - rlevel else 0, 2, 0
  {
    if rlevel <= RECURSION_LIMIT && id in t.enterable {
      if Opens(t, id) {
        var listing := t.listing[id];
        EntriesFailExactly(t, c, name, id, rlevel, listing);
        ClosedSplits(t, c, name, id, rlevel);
      } else {
        assert LeadsToClosed(t, c, name, id, rlevel, []);
      }
    }
  }

  lemma {:induction false} FindListed(entries: seq<(string, Node)>, x: string)
    requires Find(entries, x).Some?
    ensures exists k :: 0 <= k < |entries| && entries[k].0 == x
  {
    if entries[0].0 != x {
      FindListed(entries[1..], x);
      var k :| 0 <= k < |entries[1..]| && entries[1..][k].0 == x;
      assert entries[k + 1].0 == x;
    }
  }

  lemma {:induction false} ClosedSplits(t: Tree, c: Config, name: Path, id: nat, rlevel: nat)
    requires rlevel <= RECURSION_LIMIT && id in t.enterable && Opens(t, id)
    ensures SomeClosed(t, c, name, id, rlevel) <==>
              exists k :: 0 <= k < |t.listing[id]| && ClosedUnder(t, c, name, id, rlevel, t.listing[id][k].0)
  {
    if SomeClosed(t, c, name, id, rlevel) {
      var r :| LeadsToClosed(t, c, name, id, rlevel, r);
      var d := Admit(t, c, id, name, r[0]).0.value.id;
      assert LeadsToClosed(t, c, name + [r[0]], d, rlevel + 1, r[1..]);
      assert ClosedUnder(t, c, name, id, rlevel, r[0]);
      FindListed(t.listing[id], r[0]);
    }
    forall k | 0 <= k < |t.listing[id]| && ClosedUnder(t, c, name, id, rlevel, t.listing[id][k].0)
      ensures SomeClosed(t, c, name, id, rlevel)
    {
      var x := t.listing[id][k].0;
      var r :| LeadsToClosed(t, c, name + [x], Admit(t, c, id, name, x).0.value.id, rlevel + 1, r);
      assert ([x] + r)[1..] == r;
      assert LeadsToClosed(t, c, name, id, rlevel, [x] + r);
    }
  }

  lemma {:induction false} EntriesFailExactly(t: Tree, c: Config, name: Path, id: nat, rlevel: nat, rest: seq<(string, Node)>)
    requires WellFormed(t) && Chdir(t, name) == Some(id) && rlevel <= RECURSION_LIMIT
    ensures WalkEntries(t, c, id, name, id, rlevel, rest).failed <==>
              exists k :: 0 <= k < |rest| && ClosedUnder(t, c, name, id, rlevel, rest[k].0)
    decreases RECURSION_LIMIT + 1 - rlevel, 1, |rest|
  {
    if rest != [] {
      EntryFailsExactly(t, c, name, id, rlevel, rest[0].0);
      EntryDisciplined(t, c, name, id, rlevel, rest[0].0);
      EntriesFailExactly(t, c, name, id, rlevel, rest[1..]);
      forall k | 0 < k < |rest| && ClosedUnder(t, c, name, id, rlevel, rest[k].0)
        ensures ClosedUnder(t, c, name, id, rlevel, rest[1..][k - 1].0)
      {
      }
      forall k | 0 <= k < |rest| - 1 && ClosedUnder(t, c, name, id, rlevel, rest[1..][k].0)
        ensures ClosedUnder(t, c, name, id, rlevel, rest[k + 1].0)
      {
      }
    }
  }

  lemma {:induction false} EntryFailsExactly(t: Tree, c: Config, name: Path, id: nat, rlevel: nat, x: string)
    requires WellFormed(t) && Chdir(t, name) == Some(id) && rlevel <= RECURSION_LIMIT
    ensures WalkEntry(t, c, id, name, id, rlevel, x).failed <==> ClosedUnder(t, c, name, id, rlevel, x)
    decreases RECURSION_LIMIT + 1 - rlevel, 0, 1
  {
    if Descends(t, c, id, name, rlevel, x) {
      AdmitSound(t, c, name, id, x);
      DirFailsExactly(t, c, id, name + [x], Admit(t, c, id, name, x).0.value.id, rlevel + 1);
    }
  }

  /** The walk discipline, exactly, with or without link traversal: every verification runs in its parent
      directory if and only if the walk is led to no directory below the base that cannot be opened. */
  lemma {:induction false} DisciplineExactly(t: Tree, c: Config, cwd: nat, base: Path, id: nat)
    requires WellFormed(t) && Resolve(t, base) == Some(id) && Opens(t, id)
    ensures AllInParent(t, WalkDir(t, c, cwd, base, id, 0).events) <==> !SomeClosed(t, c, base, id, 0)
  {
    var o := WalkDir(t, c, cwd, base, id, 0);
    DirDisciplined(t, c, cwd, base, id, 0);
    DirFailsExactly(t, c, cwd, base, id, 0);
    if o.failed { DirFlawed(t, c, cwd, base, id, 0); }
  }

  /** When every directory that can be entered can be opened, the walk never fails, with or
      without link traversal. */
  lemma {:induction false} OpenableNeverFails(t: Tree, c: Config, cwd: nat, name: Path, id: nat, rlevel: nat)
    requires forall d | d in t.enterable :: d in t.openable && d in t.listing
    ensures !WalkDir(t, c, cwd, name, id, rlevel).failed
    decreases if rlevel <= RECURSION_LIMIT then RECURSION_LIMIT + 1 - rlevel else 0, 2, 0
  {
    if rlevel <= RECURSION_LIMIT && Chdir(t, name) == Some(id) {
      EntriesNeverFail(t, c, id, name, id, rlevel, t.listing[id]);
    }
  }

  lemma {:induction false} EntriesNeverFail(t: Tree, c: Config, cwd: nat, name: Path, id: nat, rlevel: nat, rest: seq<(string, Node)>)
    requires forall d | d in t.enterable :: d in t.openable && d in t.listing
    requires rlevel <= RECURSION_LIMIT
    ensures !WalkEntries(t, c, cwd, name, id, rlevel, rest).failed
    decreases RECURSION_LIMIT + 1 - rlevel, 1, |rest|
  {
    if rest != [] {
      var x := rest[0].0;
      var node := Admit(t, c, cwd, name, x).0;
      if node.Some? && node.value.Directory? {
        OpenableNeverFails(t, c, cwd, name + [x], node.value.id, rlevel + 1);
      }
      EntriesNeverFail(t, c, WalkEntry(t, c, cwd, name, id, rlevel, x).cwd, name, id, rlevel, rest[1..]);
    }
  }
}
