/** When the package schedule fails its promise: exactly when requests for different actions share a
    command under one policy. */
module PackageShared {
  import opened Packages
  import opened PackageOrder

  // ---------------------------------------------------------------- what every schedule keeps

  /** The item's own command for the queue's action is the queue's. */
  predicate Founded(pm: Manager, item: Item) {
    pm.action in item.promise.commands && item.promise.commands[pm.action] == pm.command
  }

  predicate Member(pm: Manager, item: Item) {
    !item.promise.repositories && item.promise.policy == pm.policy
  }

  /** The queue of the manager's action holds the item it was made for. */
  ghost predicate Kept(pm: Manager) {
    && pm.policy != NoPolicy
    && (exists z :: z in Queue(pm, pm.action) && Founded(pm, z))
    && (forall item | item in Queue(pm, pm.action) :: Member(pm, item))
  }

  predicate Serves(pm: Manager, r: Request) {
    pm.command == Command(r) && pm.policy == r.item.promise.policy
  }

  predicate Apart(a: Manager, b: Manager) {
    a.command != b.command || a.policy != b.policy
  }

  /** One manager for each command and policy that was requested. */
  ghost predicate Traced(s: seq<Manager>, part: seq<Request>) {
    && (forall pm | pm in s :: Kept(pm))
    && (forall i, j | 0 <= i < j < |s| :: Apart(s[i], s[j]))
    && (forall r | r in part :: exists pm :: pm in s && Serves(pm, r))
  }

  lemma {:induction false} PrependedKept(pm: Manager, r: Request)
    requires Defined(r) && Plain(r) && Serves(pm, r)
    requires Kept(pm) || pm == Manager(Command(r), r.action, r.item.promise.policy, [], [])
    ensures var pm' := Prepended(pm, r);
            Kept(pm') && pm'.command == pm.command && pm'.policy == pm.policy && pm'.action == pm.action
  {
    var pm' := Prepended(pm, r);
    var queue, queue' := Queue(pm, pm.action), Queue(pm', pm.action);
    assert queue' == queue || queue' == [r.item] + queue;
    if Kept(pm) {
      var z :| z in queue && Founded(pm, z);
      assert z in queue' && Founded(pm', z);
    } else {
      assert r.item in queue' && Founded(pm', r.item);
    }
    forall item | item in queue' ensures Member(pm', item) {
      assert item != r.item ==> item in queue && Member(pm, item);
    }
  }

  lemma {:induction false} TracedStep(s: seq<Manager>, part: seq<Request>, r: Request)
    requires Traced(s, part) && Defined(r) && Plain(r)
    ensures Traced(Enqueue(s, r), part + [r])
  {
    var command, policy := Command(r), r.item.promise.policy;
    var w := WithManager(s, command, r.action, policy);
    var i := Find(w, command, policy);
    var t := Enqueue(s, r);
    assert t == w[i := Prepended(w[i], r)];
    WithManagerApart(s, command, r.action, policy);
    assert w[i] in s ==> Kept(w[i]);
    PrependedKept(w[i], r);
    forall pm | pm in t ensures Kept(pm) {
      var k :| 0 <= k < |t| && t[k] == pm;
      if k != i { WithManagerElsewhere(s, command, r.action, policy, k); }
    }
    forall a, b | 0 <= a < b < |t| ensures Apart(t[a], t[b]) { assert Apart(w[a], w[b]); }
    forall q | q in part + [r] ensures exists pm :: pm in t && Serves(pm, q) {
      if q == r {
        assert t[i] in t && Serves(t[i], q);
      } else {
        assert q in part;
        var pm :| pm in s && Serves(pm, q);
        ServedStill(s, t, w, i, r, pm, q);
      }
    }
  }

  lemma {:induction false} FindNone(s: seq<Manager>, command: string, policy: Policy)
    requires Find(s, command, policy) == |s|
    ensures forall pm | pm in s :: pm.command != command || pm.policy != policy
  {
    if s != [] { FindNone(s[1..], command, policy); }
  }

  lemma {:induction false} WithManagerApart(s: seq<Manager>, command: string, action: Action, policy: Policy)
    requires forall i, j | 0 <= i < j < |s| :: Apart(s[i], s[j])
    ensures var w := WithManager(s, command, action, policy); forall i, j | 0 <= i < j < |w| :: Apart(w[i], w[j])
  {
    var w := WithManager(s, command, action, policy);
    if w != s {
      FindNone(s, command, policy);
      forall i, j | 0 <= i < j < |w| ensures Apart(w[i], w[j]) {
        assert w[j] == s[j - 1];
        assert i > 0 ==> w[i] == s[i - 1] && Apart(s[i - 1], s[j - 1]);
      }
    }
  }

  lemma {:induction false} WithManagerElsewhere(s: seq<Manager>, command: string, action: Action, policy: Policy, k: nat)
    requires var w := WithManager(s, command, action, policy); k < |w| && k != Find(w, command, policy)
    ensures WithManager(s, command, action, policy)[k] in s
  {
  }

  lemma {:induction false} ServedStill(s: seq<Manager>, t: seq<Manager>, w: seq<Manager>, i: nat, r: Request, pm: Manager, q: Request)
    requires pm in s && Serves(pm, q) && i < |w| && t == w[i := Prepended(w[i], r)]
    requires w == s || (|w| == |s| + 1 && w[1..] == s)
    ensures exists pm :: pm in t && Serves(pm, q)
  {
    assert pm in w by { assert w != s ==> pm in w[1..]; }
    var k :| 0 <= k < |w| && w[k] == pm;
    assert t[k] in t && Serves(t[k], q);
  }

  lemma {:induction false} ScheduleTraced(reqs: seq<Request>)
    requires forall r | r in reqs :: Defined(r) && Plain(r)
    ensures Traced(ScheduleAll(reqs), reqs)
  {
    if reqs != [] {
      var before, r := reqs[..|reqs| - 1], reqs[|reqs| - 1];
      assert reqs == before + [r] && r in reqs;
      forall q | q in before ensures Defined(q) && Plain(q) { assert q in reqs; }
      ScheduleTraced(before);
      TracedStep(ScheduleAll(before), before, r);
    }
  }

  // ---------------------------------------------------------------- where an issue comes from

  lemma {:induction false} EachSource(action: Action, items: seq<Item>, r: Request)
    requires r in Each(action, items)
    ensures r.action == action && r.item in items
  {
    if r != Request(action, items[0]) { EachSource(action, items[1..], r); }
  }

  lemma {:induction false} AskSource(issues: seq<Issue>, r: Request)
    requires r in Asks(issues)
    ensures exists x :: x in issues && x.phase == r.action && r.item in x.items
  {
    if r in Each(issues[0].phase, issues[0].items) {
      EachSource(issues[0].phase, issues[0].items, r);
      assert issues[0] in issues;
    } else {
      AskSource(issues[1..], r);
      var x :| x in issues[1..] && x.phase == r.action && r.item in x.items;
      assert x in issues;
    }
  }

  lemma {:induction false} PhasesKeep(issued: seq<Issue>, s: seq<Manager>, order: seq<Action>, x: Issue)
    requires x in issued
    ensures x in Phases(issued, s, order)
    decreases |order|
  {
    if order != [] {
      var log := Phase(s, order[0]);
      assert x in issued + log.issues;
      if log.complete { PhasesKeep(issued + log.issues, s, order[1..], x); }
    }
  }

  ghost predicate WholePhase(s: seq<Manager>, a: Action, issues: seq<Issue>) {
    forall y | y in Phase(s, a).issues :: y in issues
  }

  /** Whatever is issued belongs to a phase that is issued as a whole. */
  lemma {:induction false} IssuedPhase(issued: seq<Issue>, s: seq<Manager>, order: seq<Action>, x: Issue)
    requires x in Phases(issued, s, order) && x !in issued
    ensures exists a :: x in Phase(s, a).issues && WholePhase(s, a, Phases(issued, s, order))
    decreases |order|
  {
    var log := Phase(s, order[0]);
    var more := issued + log.issues;
    if x in log.issues {
      forall y | y in log.issues ensures y in Phases(issued, s, order) {
        assert y in more;
        if log.complete { PhasesKeep(more, s, order[1..], y); }
      }
      assert WholePhase(s, order[0], Phases(issued, s, order));
    } else {
      IssuedPhase(more, s, order[1..], x);
    }
  }

  lemma {:induction false} Cancel(a: string, b: string, t: string)
    requires a + t == b + t
    ensures a == b
  {
    assert |a| == |b|;
    assert (a + t)[..|a|] == a && (b + t)[..|b|] == b;
  }

  lemma {:induction false} SinglesHold(prefix: string, action: Action, items: seq<Item>)
    requires forall item | item in items :: !item.promise.repositories
    ensures forall item | item in items :: Issue(action, prefix + item.name, [item]) in Singles(prefix, action, items)
    ensures forall x, item | x in Singles(prefix, action, items) && item in x.items :: item in items
  {
    if items != [] {
      assert items[0] in items;
      SinglesHold(prefix, action, items[1..]);
      var rest := Singles(prefix, action, items[1..]);
      var all := Singles(prefix, action, items);
      assert all == [Issue(action, prefix + items[0].name, [items[0]])] + rest;
      forall item | item in items ensures Issue(action, prefix + item.name, [item]) in all {
        if item in items[1..] { assert Issue(action, prefix + item.name, [item]) in rest; }
      }
      forall x, item | x in all && item in x.items ensures item in items {
        if x in rest { assert item in items[1..]; } else { assert x == all[0]; }
      }
    }
  }

  /** An item whose own command issued it from a queue has that queue's command and policy. */
  lemma {:induction false} SinglesSource(pm: Manager, command: string, x: Issue, item: Item)
    requires Kept(pm) && !NoArguments(command) && pm.policy == Individual && Queue(pm, pm.action) != []
    requires forall y | y in Issues(pm, pm.action, command) :: OwnCommand(y)
    requires x in Issues(pm, pm.action, command) && item in x.items
    ensures Founded(pm, item) && Member(pm, item)
  {
    var items := Queue(pm, pm.action);
    var prefix := command + [' '];
    forall i | i in items ensures !i.promise.repositories { assert Member(pm, i); }
    SinglesHold(prefix, pm.action, items);
    var z :| z in items && Founded(pm, z);
    OwnSingle(pm, command, z);
    OwnSingle(pm, command, item);
  }

  lemma {:induction false} OwnSingle(pm: Manager, command: string, item: Item)
    requires Member(pm, item) && pm.policy == Individual
    requires OwnCommand(Issue(pm.action, command + [' '] + item.name, [item]))
    ensures pm.action in item.promise.commands && item.promise.commands[pm.action] == command
  {
    var own := item.promise.commands[pm.action];
    assert item in [item];
    Cancel(own + [' '], command + [' '], item.name);
    Cancel(own, command, [' ']);
  }

  lemma {:induction false} BulkSource(pm: Manager, command: string, x: Issue, item: Item)
    requires Kept(pm) && !NoArguments(command) && pm.policy == Bulk && Queue(pm, pm.action) != []
    requires x in Issues(pm, pm.action, command) && OwnCommand(x) && item in x.items
    ensures Founded(pm, item) && Member(pm, item)
  {
    var items := Queue(pm, pm.action);
    assert items[0] in items && Member(pm, items[0]);
    BulkNamesAll(command + [' '], pm.action, items[0].promise, items, 0);
    assert items[..0] == [] && command + [' '] + [] == command + [' '];
    assert x == Issue(pm.action, command + [' '] + Spaced(items), items);
    var z :| z in items && Founded(pm, z);
    assert Member(pm, z) && Member(pm, item);
    Cancel(pm.command + [' '], command + [' '], Spaced(items));
    Cancel(pm.command, command, [' ']);
    Cancel(item.promise.commands[pm.action] + [' '], command + [' '], Spaced(items));
    Cancel(item.promise.commands[pm.action], command, [' ']);
  }

  lemma {:induction false} ManagerSource(pm: Manager, command: string, x: Issue, item: Item)
    requires Kept(pm) && Queue(pm, pm.action) != []
    requires forall y | y in Issues(pm, pm.action, command) :: OwnCommand(y)
    requires x in Issues(pm, pm.action, command) && item in x.items
    ensures Founded(pm, item) && Member(pm, item)
  {
    if !NoArguments(command) {
      if pm.policy == Individual { SinglesSource(pm, command, x, item); } else { BulkSource(pm, command, x, item); }
    }
  }

  lemma {:induction false} PhaseSource(s: seq<Manager>, a: Action, x: Issue, item: Item)
    requires forall pm | pm in s :: Kept(pm)
    requires forall y | y in Phase(s, a).issues :: OwnCommand(y)
    requires x in Phase(s, a).issues && item in x.items
    ensures exists pm :: pm in s && pm.action == a && Founded(pm, item) && Member(pm, item)
  {
    var pm, rest := s[0], Phase(s[1..], a);
    assert pm in s;
    var skipped := pm.action != a || Queue(pm, a) == [];
    if !skipped && x in Issues(pm, a, Queue(pm, a)[0].promise.commands[a]) {
      ManagerSource(pm, Queue(pm, a)[0].promise.commands[a], x, item);
    } else {
      PhaseSource(s[1..], a, x, item);
      var m :| m in s[1..] && m.action == a && Founded(m, item) && Member(m, item);
      assert m in s;
    }
  }

  // ---------------------------------------------------------------- the converse

  /** A request that is named in its own phase, when every command is its packages' own, has a queue of
      its own action. */
  lemma {:induction false} NamedHasQueue(reqs: seq<Request>, r: Request)
    requires forall q | q in reqs :: Defined(q) && Plain(q)
    requires r in Asks(Phases([], ScheduleAll(reqs), ORDER)) && Defined(r)
    requires forall x | x in Phases([], ScheduleAll(reqs), ORDER) :: OwnCommand(x)
    ensures exists pm :: pm in ScheduleAll(reqs) && Serves(pm, r) && pm.action == r.action
  {
    var s := ScheduleAll(reqs);
    var issues := Phases([], s, ORDER);
    ScheduleTraced(reqs);
    AskSource(issues, r);
    var x :| x in issues && x.phase == r.action && r.item in x.items;
    IssuedPhase([], s, ORDER, x);
    var a :| x in Phase(s, a).issues && WholePhase(s, a, issues);
    PhaseIsPure(s, a);
    PhaseSource(s, a, x, r.item);
    var pm :| pm in s && pm.action == a && Founded(pm, r.item) && Member(pm, r.item);
    assert Serves(pm, r);
  }

  lemma {:induction false} SharedFails(reqs: seq<Request>)
    requires forall r | r in reqs :: Defined(r) && Plain(r)
    requires Asks(Phases([], ScheduleAll(reqs), ORDER)) == multiset(reqs)
    requires forall x | x in Phases([], ScheduleAll(reqs), ORDER) :: OwnCommand(x)
    ensures Unshared(reqs)
  {
    var s := ScheduleAll(reqs);
    ScheduleTraced(reqs);
    forall r, q | r in reqs && q in reqs && Command(r) == Command(q) && r.item.promise.policy == q.item.promise.policy
      ensures r.action == q.action
    {
      assert r in multiset(reqs) && q in multiset(reqs);
      NamedHasQueue(reqs, r);
      NamedHasQueue(reqs, q);
      var a :| a in s && Serves(a, r) && a.action == r.action;
      var b :| b in s && Serves(b, q) && b.action == q.action;
      SameManager(s, a, b);
    }
  }

  lemma {:induction false} SameManager(s: seq<Manager>, a: Manager, b: Manager)
    requires a in s && b in s && !Apart(a, b) && forall i, j | 0 <= i < j < |s| :: Apart(s[i], s[j])
    ensures a == b
  {
    var i :| 0 <= i < |s| && s[i] == a;
    var j :| 0 <= j < |s| && s[j] == b;
    assert i == j;
  }

  /** The promise of the schedule, exactly: each package is named as often as requested, in the phase of
      its action and by its own promise's command, if and only if no two requests for different actions
      share a command under one policy. */
  lemma {:induction false} EachOnceExactly(reqs: seq<Request>)
    requires forall r | r in reqs :: Defined(r) && Plain(r)
    ensures var issues := Phases([], ScheduleAll(reqs), ORDER);
            Asks(issues) == multiset(reqs) && (forall x | x in issues :: OwnCommand(x)) <==> Unshared(reqs)
  {
    var issues := Phases([], ScheduleAll(reqs), ORDER);
    if Unshared(reqs) { EachOnceInItsPhase(reqs); }
    if Asks(issues) == multiset(reqs) && forall x | x in issues :: OwnCommand(x) { SharedFails(reqs); }
  }

  // ---------------------------------------------------------------- two families of failures

  /** One promise whose commands are all the same. */
  predicate OneCommand(p: Promise, command: string) {
    command != [] && forall a | a in p.commands :: p.commands[a] == command
  }

  const X: string := ['x']
  const Y: string := ['y']

  function TwoRequests(a: Action, b: Action, command: string, p: Promise): seq<Request>
    requires a in p.commands && b in p.commands && OneCommand(p, command)
  {
    [Request(a, Item(X, p)), Request(b, Item(Y, p))]
  }

  function SharedManager(a: Action, b: Action, command: string, p: Promise): Manager
    requires OneCommand(p, command)
  {
    if a == Patch then Manager(command, a, p.policy, [Item(Y, p)], [Item(X, p)])
    else if b == Patch then Manager(command, a, p.policy, [Item(X, p)], [Item(Y, p)])
    else Manager(command, a, p.policy, [Item(Y, p), Item(X, p)], [])
  }

  /** Two requests for different actions with one command share the manager of the first. */
  lemma {:induction false} SharedQueue(a: Action, b: Action, command: string, p: Promise)
    requires a in p.commands && b in p.commands && OneCommand(p, command) && a != b
    ensures ScheduleAll(TwoRequests(a, b, command, p)) == [SharedManager(a, b, command, p)]
  {
    var reqs := TwoRequests(a, b, command, p);
    assert reqs[..1] == [reqs[0]] && reqs[..1][..0] == [];
    var pm := Manager(command, a, p.policy, [], []);
    assert WithManager([], command, a, p.policy) == [pm] && Find([pm], command, p.policy) == 0;
    assert [Item(X, p)] + [] == [Item(X, p)] && [Item(Y, p)] + [] == [Item(Y, p)];
    assert [Item(Y, p)] + [Item(X, p)] == [Item(Y, p), Item(X, p)];
    var first := Prepended(pm, reqs[0]);
    assert Enqueue([], reqs[0]) == [first];
    assert ScheduleAll(reqs[..1]) == [first];
    assert Find([first], command, p.policy) == 0 && WithManager([first], command, b, p.policy) == [first];
    assert Enqueue([first], reqs[1]) == [Prepended(first, reqs[1])];
  }

  /** A patch that shares its command with an earlier request for another action, or such a request
      that shares it with an earlier patch, is named in no phase. */
  lemma {:induction false} SharedPatchLost(a: Action, b: Action, command: string, p: Promise, phase: Action)
    requires a in p.commands && b in p.commands && OneCommand(p, command) && a != b && (a == Patch || b == Patch)
    ensures forall x | x in Phase(ScheduleAll(TwoRequests(a, b, command, p)), phase).issues :: Item(Y, p) !in x.items
  {
    SharedQueue(a, b, command, p);
    var pm := SharedManager(a, b, command, p);
    assert Phase([pm][1..], phase) == Log([], true);
    assert X[0] != Y[0];
    if phase == a {
      LoneItem(pm, a, command, Item(X, p));
      assert Phase([pm], a).issues == Issues(pm, a, command) + [];
    }
  }

  lemma {:induction false} LoneItem(pm: Manager, a: Action, command: string, item: Item)
    requires Queue(pm, a) == [item]
    ensures forall x, i | x in Issues(pm, a, command) && i in x.items :: i == item
  {
    var items := [item];
    assert items[1..] == [];
    assert Singles(command + [' '], a, []) == [];
    var start := command + [' '];
    if Argument(item, item.promise, a).Some? {
      var text := start + Argument(item, item.promise, a).value + [' '];
      assert BulkIssue(start, [], a, item.promise, items, 0) == BulkIssue(text, [] + [item], a, item.promise, items, 1);
    }
  }

  /** An update that shares its command with an earlier deletion is issued among the deletions. */
  lemma {:induction false} SharedUpdateEarly(command: string, p: Promise)
    requires Delete in p.commands && Update in p.commands && OneCommand(p, command)
    requires p.policy == Individual && !NoArguments(command)
    ensures var s := ScheduleAll(TwoRequests(Delete, Update, command, p));
            && Phase(s, Delete).issues == [Issue(Delete, command + [' '] + Y, [Item(Y, p)]),
                                           Issue(Delete, command + [' '] + X, [Item(X, p)])]
            && Phase(s, Update).issues == []
  {
    SharedQueue(Delete, Update, command, p);
    var s := ScheduleAll(TwoRequests(Delete, Update, command, p));
    var items := [Item(Y, p), Item(X, p)];
    assert Phase(s[1..], Delete) == Log([], true) && Phase(s[1..], Update) == Log([], true);
    assert items[1..] == [Item(X, p)] && [Item(X, p)][1..] == [];
    assert Singles(command + [' '], Delete, items[1..]) == [Issue(Delete, command + [' '] + X, [Item(X, p)])] + [];
  }
}
