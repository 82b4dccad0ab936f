/** What the package schedule guarantees: the order of the phases, and that every scheduled package is
    named exactly once, in its own phase and by its own command. */
module PackageOrder {
  import opened Packages

  /** The packages named in a phase. */
  ghost function Each(action: Action, items: seq<Item>): multiset<Request> {
    if items == [] then multiset{} else multiset{Request(action, items[0])} + Each(action, items[1..])
  }

  /** Everything that is named, with the phase it is named in. */
  ghost function Asks(issues: seq<Issue>): multiset<Request> {
    if issues == [] then multiset{} else Each(issues[0].phase, issues[0].items) + Asks(issues[1..])
  }

  lemma {:induction false} AsksConcat(a: seq<Issue>, b: seq<Issue>)
    ensures Asks(a + b) == Asks(a) + Asks(b)
  {
    if a == [] {
      assert [] + b == b;
    } else {
      assert (a + b)[1..] == a[1..] + b;
      AsksConcat(a[1..], b);
    }
  }

  // ---------------------------------------------------------------- the order of phases

  function Rank(a: Action): nat {
    match a
    case Delete => 0
    case Add => 1
    case Update => 2
    case Patch => 3
    case Verify => 4
  }

  predicate InOrder(issues: seq<Issue>) {
    forall i, j | 0 <= i < j < |issues| :: Rank(issues[i].phase) <= Rank(issues[j].phase)
  }

  lemma {:induction false} SinglesPhase(prefix: string, action: Action, items: seq<Item>)
    ensures forall x | x in Singles(prefix, action, items) :: x.phase == action
  {
    if items != [] { SinglesPhase(prefix, action, items[1..]); }
  }

  lemma {:induction false} BulkPhase(text: string, named: seq<Item>, action: Action, p: Promise, items: seq<Item>, i: nat)
    requires i <= |items|
    ensures BulkIssue(text, named, action, p, items, i).phase == action
    decreases |items| - i
  {
    if i < |items| && Argument(items[i], p, action).Some? {
      BulkPhase(text + Argument(items[i], p, action).value + [' '], named + [items[i]], action, p, items, i + 1);
    }
  }

  lemma {:induction false} IssuesPhase(pm: Manager, action: Action, command: string)
    requires Queue(pm, action) != []
    ensures forall x | x in Issues(pm, action, command) :: x.phase == action
  {
    var items := Queue(pm, action);
    SinglesPhase(command + [' '], action, items);
    BulkPhase(command + [' '], [], action, items[0].promise, items, 0);
  }

  lemma {:induction false} PhaseIsPure(schedule: seq<Manager>, action: Action)
    ensures forall x | x in Phase(schedule, action).issues :: x.phase == action
  {
    if schedule != [] {
      PhaseIsPure(schedule[1..], action);
      var queue := Queue(schedule[0], action);
      if schedule[0].action == action && queue != [] && action in queue[0].promise.commands {
        IssuesPhase(schedule[0], action, queue[0].promise.commands[action]);
      }
    }
  }

  /** Whatever is scheduled, deletions come first, then additions, updates, patches and
      verifications. */
  lemma {:induction false} PhasesInOrder(schedule: seq<Manager>)
    ensures InOrder(Phases([], schedule, ORDER))
  {
    assert ORDER[0..] == ORDER;
    PhasesFrom([], schedule, 0);
  }

  lemma {:induction false} PhasesFrom(issued: seq<Issue>, schedule: seq<Manager>, k: nat)
    requires k <= |ORDER| && InOrder(issued) && forall x | x in issued :: Rank(x.phase) < k
    ensures InOrder(Phases(issued, schedule, ORDER[k..]))
    decreases |ORDER| - k
  {
    if k < |ORDER| {
      var log := Phase(schedule, ORDER[k]);
      assert ORDER[k..][0] == ORDER[k] && ORDER[k..][1..] == ORDER[k + 1..];
      PhaseIsPure(schedule, ORDER[k]);
      assert Rank(ORDER[k]) == k;
      Appended(issued, log.issues, k);
      if log.complete { PhasesFrom(issued + log.issues, schedule, k + 1); }
    }
  }

  lemma {:induction false} Appended(a: seq<Issue>, b: seq<Issue>, k: nat)
    requires InOrder(a) && (forall x | x in a :: Rank(x.phase) < k) && forall x | x in b :: Rank(x.phase) == k
    ensures InOrder(a + b) && forall x | x in a + b :: Rank(x.phase) < k + 1
  {
    forall i, j | 0 <= i < j < |a + b| ensures Rank((a + b)[i].phase) <= Rank((a + b)[j].phase) {
      assert i >= |a| ==> (a + b)[i] in b;
      assert i < |a| ==> (a + b)[i] in a;
      assert j >= |a| ==> (a + b)[j] in b;
      assert j < |a| ==> (a + b)[i] == a[i] && (a + b)[j] == a[j];
    }
  }

  // ---------------------------------------------------------------- each request once, in its phase

  function Command(r: Request): string {
    if Defined(r) then r.item.promise.commands[r.action] else []
  }

  /** A named package whose command takes arguments, without file repositories. */
  predicate Plain(r: Request) {
    && r.item.name != [] && !NoArguments(Command(r))
    && !r.item.promise.repositories && r.item.promise.policy != NoPolicy
  }

  /** Requests for different actions do not share a command, at least not under one policy. */
  ghost predicate Unshared(reqs: seq<Request>) {
    forall r, q | r in reqs && q in reqs && Command(r) == Command(q) && r.item.promise.policy == q.item.promise.policy ::
      r.action == q.action
  }

  /** The item belongs in this manager's queue. */
  predicate Fits(pm: Manager, item: Item) {
    && pm.action in item.promise.commands && item.promise.commands[pm.action] == pm.command
    && item.promise.policy == pm.policy && !item.promise.repositories
  }

  ghost predicate Sound(pm: Manager) {
    && (pm.action == Patch ==> pm.packs == []) && (pm.action != Patch ==> pm.patches == [])
    && !NoArguments(pm.command) && pm.policy != NoPolicy
    && forall item | item in Queue(pm, pm.action) :: Fits(pm, item)
  }

  /** Requests with the manager's command and policy have its action. */
  predicate Agrees(pm: Manager, r: Request) {
    Command(r) == pm.command && r.item.promise.policy == pm.policy ==> r.action == pm.action
  }

  ghost predicate Consistent(schedule: seq<Manager>, all: seq<Request>) {
    forall pm | pm in schedule :: Sound(pm) && forall r | r in all :: Agrees(pm, r)
  }

  /** Everything that is queued, with the action of its manager. */
  ghost function Total(schedule: seq<Manager>): multiset<Request> {
    if schedule == [] then multiset{}
    else Each(schedule[0].action, Queue(schedule[0], schedule[0].action)) + Total(schedule[1..])
  }

  lemma {:induction false} TotalUpdate(s: seq<Manager>, i: nat, pm: Manager, r: Request)
    requires i < |s|
    requires Each(pm.action, Queue(pm, pm.action)) == Each(s[i].action, Queue(s[i], s[i].action)) + multiset{r}
    ensures Total(s[i := pm]) == Total(s) + multiset{r}
  {
    var first := Each(s[0].action, Queue(s[0], s[0].action));
    Regroup(first, Total(s[1..]), multiset{r});
    if i == 0 {
      assert s[0 := pm][1..] == s[1..];
    } else {
      assert s[i := pm][1..] == s[1..][i - 1 := pm];
      TotalUpdate(s[1..], i - 1, pm, r);
    }
  }

  lemma {:induction false} Regroup(a: multiset<Request>, b: multiset<Request>, c: multiset<Request>)
    ensures a + (b + c) == (a + b) + c == (a + c) + b
  {
  }

  lemma {:induction false} PrependedSound(pm: Manager, r: Request)
    requires Defined(r) && Plain(r) && Sound(pm) && pm.command == Command(r) && pm.policy == r.item.promise.policy && pm.action == r.action
    ensures var pm' := Prepended(pm, r);
            && Sound(pm') && pm'.action == pm.action && pm'.command == pm.command && pm'.policy == pm.policy
            && Each(pm'.action, Queue(pm', pm'.action)) == Each(pm.action, Queue(pm, pm.action)) + multiset{r}
  {
    var pm' := Prepended(pm, r);
    assert Queue(pm', pm.action) == [r.item] + Queue(pm, pm.action);
    assert Queue(pm', pm.action)[1..] == Queue(pm, pm.action);
  }

  lemma {:induction false} EnqueueConsistent(s: seq<Manager>, r: Request, all: seq<Request>)
    requires Consistent(s, all) && Unshared(all) && r in all && Defined(r) && Plain(r)
    ensures Consistent(Enqueue(s, r), all) && Total(Enqueue(s, r)) == Total(s) + multiset{r}
  {
    var command, policy := Command(r), r.item.promise.policy;
    var w := WithManager(s, command, r.action, policy);
    WithManagerConsistent(s, r, all);
    var i := Find(w, command, policy);
    assert w[i] in w && Agrees(w[i], r);
    PrependedSound(w[i], r);
    TotalUpdate(w, i, Prepended(w[i], r), r);
    forall pm | pm in Enqueue(s, r) ensures Sound(pm) && forall q | q in all :: Agrees(pm, q) {
      if pm == Prepended(w[i], r) {
        forall q | q in all ensures Agrees(pm, q) { assert Agrees(w[i], q); }
      } else {
        assert pm in w;
      }
    }
  }

  lemma {:induction false} WithManagerConsistent(s: seq<Manager>, r: Request, all: seq<Request>)
    requires Consistent(s, all) && Unshared(all) && r in all && Defined(r) && Plain(r)
    ensures var w := WithManager(s, Command(r), r.action, r.item.promise.policy);
            Consistent(w, all) && Total(w) == Total(s)
  {
    var w := WithManager(s, Command(r), r.action, r.item.promise.policy);
    if w != s {
      assert w[1..] == s;
      assert Sound(w[0]);
      forall q | q in all ensures Agrees(w[0], q) { }
      forall pm | pm in w ensures pm == w[0] || pm in s { }
    }
  }

  lemma {:induction false} Snoc(part: seq<Request>)
    requires part != []
    ensures var k := |part| - 1; part[k] in part && multiset(part) == multiset(part[..k]) + multiset{part[k]}
  {
    assert part == part[..|part| - 1] + [part[|part| - 1]];
  }

  lemma {:induction false} ScheduleConsistent(part: seq<Request>, all: seq<Request>)
    requires (forall r | r in all :: Defined(r) && Plain(r)) && Unshared(all)
    requires forall r | r in part :: r in all && Defined(r)
    ensures Consistent(ScheduleAll(part), all) && Total(ScheduleAll(part)) == multiset(part)
  {
    if part != [] {
      var before, r := part[..|part| - 1], part[|part| - 1];
      forall q | q in before ensures q in all && Defined(q) { assert q in part; }
      ScheduleConsistent(before, all);
      Snoc(part);
      EnqueueConsistent(ScheduleAll(before), r, all);
    }
  }

  // ---------------------------------------------------------------- what is issued

  lemma {:induction false} SinglesAsk(prefix: string, action: Action, items: seq<Item>)
    requires forall item | item in items :: !item.promise.repositories
    ensures Asks(Singles(prefix, action, items)) == Each(action, items)
  {
    if items != [] {
      assert items[0] in items;
      SinglesAsk(prefix, action, items[1..]);
      var first := Issue(action, prefix + items[0].name, [items[0]]);
      assert Singles(prefix, action, items) == [first] + Singles(prefix, action, items[1..]);
      assert ([first] + Singles(prefix, action, items[1..]))[1..] == Singles(prefix, action, items[1..]);
      assert Each(action, [items[0]]) == multiset{Request(action, items[0])} by { assert [items[0]][1..] == []; }
    }
  }

  /** The names, each with a blank after it. */
  function Spaced(items: seq<Item>): string {
    if items == [] then [] else Spaced(items[..|items| - 1]) + items[|items| - 1].name + [' ']
  }

  lemma {:induction false} BulkNamesAll(prefix: string, action: Action, p: Promise, items: seq<Item>, i: nat)
    requires i <= |items| && !p.repositories
    ensures BulkIssue(prefix + Spaced(items[..i]), items[..i], action, p, items, i) == Issue(action, prefix + Spaced(items), items)
    decreases |items| - i
  {
    if i == |items| {
      assert items[..i] == items;
    } else {
      var more := items[..i + 1];
      assert more == items[..i] + [items[i]] && more[..i] == items[..i];
      assert prefix + Spaced(items[..i]) + items[i].name + [' '] == prefix + Spaced(more);
      BulkNamesAll(prefix, action, p, items, i + 1);
    }
  }

  lemma {:induction false} ManagerAsks(pm: Manager)
    requires Sound(pm) && Queue(pm, pm.action) != []
    ensures Asks(Issues(pm, pm.action, pm.command)) == Each(pm.action, Queue(pm, pm.action))
  {
    var items := Queue(pm, pm.action);
    forall item | item in items ensures !item.promise.repositories { assert Fits(pm, item); }
    if pm.policy == Individual {
      SinglesAsk(pm.command + [' '], pm.action, items);
    } else {
      BulkNamesAll(pm.command + [' '], pm.action, items[0].promise, items, 0);
      assert items[..0] == [] && pm.command + [' '] + [] == pm.command + [' '];
      var issue := Issue(pm.action, pm.command + [' '] + Spaced(items), items);
      assert Issues(pm, pm.action, pm.command) == [issue];
      assert [issue][1..] == [];
    }
  }

  /** The part of the total that belongs to one action. */
  ghost function Share(schedule: seq<Manager>, action: Action): multiset<Request> {
    if schedule == [] then multiset{}
    else if schedule[0].action == action then Each(action, Queue(schedule[0], action)) + Share(schedule[1..], action)
    else Share(schedule[1..], action)
  }

  lemma {:induction false} PhaseAsks(schedule: seq<Manager>, action: Action)
    requires forall pm | pm in schedule :: Sound(pm)
    ensures Phase(schedule, action).complete && Asks(Phase(schedule, action).issues) == Share(schedule, action)
  {
    if schedule != [] {
      var pm := schedule[0];
      assert Sound(pm);
      PhaseAsks(schedule[1..], action);
      if pm.action == action && Queue(pm, action) != [] {
        assert Fits(pm, Queue(pm, action)[0]);
        ManagerAsks(pm);
        AsksConcat(Issues(pm, action, pm.command), Phase(schedule[1..], action).issues);
      }
    }
  }

  lemma {:induction false} Insert5(x: multiset<Request>, a: multiset<Request>, b: multiset<Request>,
                                   c: multiset<Request>, d: multiset<Request>, e: multiset<Request>)
    ensures x + (a + b + c + d + e) == (x + a) + b + c + d + e == a + (x + b) + c + d + e
              == a + b + (x + c) + d + e == a + b + c + (x + d) + e == a + b + c + d + (x + e)
  {
  }

  lemma {:induction false} SharesAddUp(schedule: seq<Manager>)
    ensures Total(schedule) ==
              Share(schedule, Delete) + Share(schedule, Add) + Share(schedule, Update) + Share(schedule, Patch) + Share(schedule, Verify)
  {
    if schedule != [] {
      SharesAddUp(schedule[1..]);
      var x, rest := Each(schedule[0].action, Queue(schedule[0], schedule[0].action)), schedule[1..];
      Insert5(x, Share(rest, Delete), Share(rest, Add), Share(rest, Update), Share(rest, Patch), Share(rest, Verify));
    }
  }

  lemma {:induction false} PhasesAsk(issued: seq<Issue>, schedule: seq<Manager>, k: nat)
    requires k <= |ORDER| && forall pm | pm in schedule :: Sound(pm)
    ensures Asks(Phases(issued, schedule, ORDER[k..])) == Asks(issued) + Shares(schedule, k)
    decreases |ORDER| - k
  {
    if k < |ORDER| {
      var log := Phase(schedule, ORDER[k]);
      assert ORDER[k..][0] == ORDER[k] && ORDER[k..][1..] == ORDER[k + 1..];
      PhaseAsks(schedule, ORDER[k]);
      AsksConcat(issued, log.issues);
      PhasesAsk(issued + log.issues, schedule, k + 1);
    }
  }

  ghost function Shares(schedule: seq<Manager>, k: nat): multiset<Request>
    requires k <= |ORDER|
    decreases |ORDER| - k
  {
    if k == |ORDER| then multiset{} else Share(schedule, ORDER[k]) + Shares(schedule, k + 1)
  }

  lemma {:induction false} SharesAre(schedule: seq<Manager>)
    ensures Shares(schedule, 0) == Total(schedule)
  {
    SharesAddUp(schedule);
    assert Shares(schedule, 5) == multiset{};
    assert Shares(schedule, 4) == Share(schedule, Verify);
    assert Shares(schedule, 3) == Share(schedule, Patch) + Shares(schedule, 4);
    assert Shares(schedule, 2) == Share(schedule, Update) + Shares(schedule, 3);
    assert Shares(schedule, 1) == Share(schedule, Add) + Shares(schedule, 2);
  }

  // ---------------------------------------------------------------- the commands

  /** The command of the item's own promise, followed by the one name or by all of them. */
  function CommandLine(item: Item, phase: Action, items: seq<Item>): string
    requires phase in item.promise.commands
  {
    item.promise.commands[phase] + [' '] + if item.promise.policy == Bulk then Spaced(items) else item.name
  }

  ghost predicate OwnCommand(x: Issue) {
    forall item | item in x.items ::
      && x.phase in item.promise.commands && x.text == CommandLine(item, x.phase, x.items)
      && (item.promise.policy != Bulk ==> x.items == [item])
  }

  lemma {:induction false} SinglesOwn(command: string, action: Action, items: seq<Item>, x: Issue)
    requires forall item | item in items ::
               && !item.promise.repositories && item.promise.policy == Individual
               && action in item.promise.commands && item.promise.commands[action] == command
    requires x in Singles(command + [' '], action, items)
    ensures OwnCommand(x)
  {
    assert items[0] in items;
    var rest := Singles(command + [' '], action, items[1..]);
    if x in rest { SinglesOwn(command, action, items[1..], x); }
  }

  lemma {:induction false} ManagerOwn(pm: Manager, x: Issue)
    requires Sound(pm) && Queue(pm, pm.action) != [] && x in Issues(pm, pm.action, pm.command)
    ensures OwnCommand(x)
  {
    var items := Queue(pm, pm.action);
    forall item | item in items ensures Fits(pm, item) { }
    if pm.policy == Individual {
      SinglesOwn(pm.command, pm.action, items, x);
    } else {
      assert items[0] in items;
      BulkNamesAll(pm.command + [' '], pm.action, items[0].promise, items, 0);
      assert items[..0] == [] && pm.command + [' '] + [] == pm.command + [' '];
    }
  }

  lemma {:induction false} PhaseOwn(schedule: seq<Manager>, action: Action, x: Issue)
    requires (forall pm | pm in schedule :: Sound(pm)) && x in Phase(schedule, action).issues
    ensures OwnCommand(x)
  {
    var pm := schedule[0];
    assert Sound(pm);
    if x in Phase(schedule[1..], action).issues {
      PhaseOwn(schedule[1..], action, x);
    } else {
      assert Fits(pm, Queue(pm, action)[0]);
      ManagerOwn(pm, x);
    }
  }

  lemma {:induction false} PhasesOwn(issued: seq<Issue>, schedule: seq<Manager>, order: seq<Action>, x: Issue)
    requires forall pm | pm in schedule :: Sound(pm)
    requires (forall y | y in issued :: OwnCommand(y)) && x in Phases(issued, schedule, order)
    ensures OwnCommand(x)
    decreases |order|
  {
    if order != [] {
      var log := Phase(schedule, order[0]);
      forall y | y in issued + log.issues ensures OwnCommand(y) {
        if y in log.issues { PhaseOwn(schedule, order[0], y); }
      }
      if log.complete { PhasesOwn(issued + log.issues, schedule, order[1..], x); }
    }
  }

  /** Whatever is requested, in whatever order: each package is named exactly as often as it was
      requested, in the phase of its action and by the command of its own promise, and the phases come
      in order. */
  lemma {:induction false} EachOnceInItsPhase(reqs: seq<Request>)
    requires (forall r | r in reqs :: Defined(r) && Plain(r)) && Unshared(reqs)
    ensures var issues := Phases([], ScheduleAll(reqs), ORDER);
            Asks(issues) == multiset(reqs) && InOrder(issues) && forall x | x in issues :: OwnCommand(x)
  {
    var schedule := ScheduleAll(reqs);
    ScheduleConsistent(reqs, reqs);
    PhasesInOrder(schedule);
    assert ORDER[0..] == ORDER;
    PhasesAsk([], schedule, 0);
    SharesAre(schedule);
    forall x | x in Phases([], schedule, ORDER) ensures OwnCommand(x) { PhasesOwn([], schedule, ORDER, x); }
  }

  /** A whole run: all promises are scheduled, then the schedule is executed. */
  method ExecuteScheduledPackages(reqs: seq<Request>) returns (issues: seq<Issue>)
    requires (forall r | r in reqs :: Defined(r) && Plain(r)) && Unshared(reqs)
    ensures Asks(issues) == multiset(reqs) && InOrder(issues) && forall x | x in issues :: OwnCommand(x)
  {
    var agent := new Scheduler();
    var i := 0;
    while i < |reqs|
      invariant 0 <= i <= |reqs| && agent.issued == []
      invariant agent.schedule == ScheduleAll(reqs[..i])
    {
      assert reqs[..i + 1][..i] == reqs[..i] && reqs[..i + 1][i] == reqs[i];
      agent.AddToSchedule(reqs[i]);
      i := i + 1;
    }
    assert reqs[..i] == reqs;
    agent.ExecutePackageSchedule();
    issues := agent.issued;
    EachOnceInItsPhase(reqs);
  }
}
