/** Scheduling package operations and issuing the commands (NewPackageManager, AddPackageToSchedule,
    AddPatchToSchedule, ExecuteSchedule, ExecutePatch and ExecutePackageSchedule of
    cf-agent/verify_packages.c). */
module Packages {
  import opened Common

  const CF_MAXVARSIZE: nat := 1024

  datatype Action = Add | Delete | Update | Patch | Verify

  datatype Policy = Individual | Bulk | NoPolicy

  /** The quoted path of a package in the local repositories; the buffer for it is limited. */
  type Quoter = q: string -> Option<string> | Short(q) witness (n => None)

  ghost predicate Short(q: string -> Option<string>) {
    forall n | q(n).Some? :: |q(n).value| < CF_MAXVARSIZE
  }

  /** A package promise: the commands it defines, its policy of change, and whether it has file
      repositories. */
  datatype Promise = Promise(commands: map<Action, string>, policy: Policy, repositories: bool, quoted: Quoter)

  /** Commands are not empty. */
  type SoundPromise = p: Promise | forall a | a in p.commands :: p.commands[a] != []
    witness Promise(map[], Individual, false, n => None)

  datatype Item = Item(name: string, promise: SoundPromise)

  datatype Manager = Manager(command: string, action: Action, policy: Policy, packs: seq<Item>, patches: seq<Item>)

  /** An operation that a promise asks for; its command is defined. */
  datatype Request = Request(action: Action, item: Item)

  predicate Defined(r: Request) {
    r.action in r.item.promise.commands
  }

  // ---------------------------------------------------------------- scheduling

  /** The first manager with the same command and policy; the action is not looked at. */
  function Find(schedule: seq<Manager>, command: string, policy: Policy): (i: nat)
    ensures i <= |schedule|
    ensures i < |schedule| ==> schedule[i].command == command && schedule[i].policy == policy
  {
    if schedule == [] then 0
    else if schedule[0].command == command && schedule[0].policy == policy then 0
    else Find(schedule[1..], command, policy) + 1
  }

  function WithManager(schedule: seq<Manager>, command: string, action: Action, policy: Policy): (s: seq<Manager>)
    ensures Find(s, command, policy) < |s|
  {
    if Find(schedule, command, policy) < |schedule| then schedule
    else [Manager(command, action, policy, [], [])] + schedule
  }

  /** The item goes to the front of its queue, unless it has no name. */
  function Prepended(pm: Manager, r: Request): Manager {
    if r.item.name == [] then pm
    else if r.action == Patch then pm.(patches := [r.item] + pm.patches) else pm.(packs := [r.item] + pm.packs)
  }

  function Enqueue(schedule: seq<Manager>, r: Request): seq<Manager>
    requires Defined(r)
  {
    var command, policy := r.item.promise.commands[r.action], r.item.promise.policy;
    var s := WithManager(schedule, command, r.action, policy);
    var i := Find(s, command, policy);
    s[i := Prepended(s[i], r)]
  }

  function ScheduleAll(reqs: seq<Request>): seq<Manager>
    requires forall r | r in reqs :: Defined(r)
  {
    if reqs == [] then [] else Enqueue(ScheduleAll(reqs[..|reqs| - 1]), reqs[|reqs| - 1])
  }

  // ---------------------------------------------------------------- issuing

  /** A command that was run, in which phase, and for which packages. */
  datatype Issue = Issue(phase: Action, text: string, items: seq<Item>)

  function Queue(pm: Manager, action: Action): seq<Item> {
    if action == Patch then pm.patches else pm.packs
  }

  /** How a package is named to the manager, by the repositories of `p`. */
  function Argument(item: Item, p: Promise, action: Action): Option<string> {
    if p.repositories && (action == Add || action == Update) then p.quoted(item.name) else Some(item.name)
  }

  /** One command for each package, up to the first that no repository holds. */
  function Singles(prefix: string, action: Action, items: seq<Item>): seq<Issue> {
    if items == [] then []
    else
      match Argument(items[0], items[0].promise, action)
      case None => []
      case Some(arg) => [Issue(action, prefix + arg, [items[0]])] + Singles(prefix, action, items[1..])
  }

  /** A bulk command names the packages up to the first that no repository holds. From package `i`
      on, with `text` already put together for `named`. */
  function BulkIssue(text: string, named: seq<Item>, action: Action, p: Promise, items: seq<Item>, i: nat): Issue
    requires i <= |items|
    decreases |items| - i
  {
    if i == |items| || Argument(items[i], p, action).None? then Issue(action, text, named)
    else BulkIssue(text + Argument(items[i], p, action).value + [' '], named + [items[i]], action, p, items, i + 1)
  }

  predicate NoArguments(command: string) {
    command != [] && command[|command| - 1] == '$'
  }

  function Issues(pm: Manager, action: Action, command: string): seq<Issue>
    requires Queue(pm, action) != []
  {
    var items := Queue(pm, action);
    if NoArguments(command) then [Issue(action, command[..|command| - 1], [])]
    else
      match pm.policy
      case Individual => Singles(command + [' '], action, items)
      case Bulk => [BulkIssue(command + [' '], [], action, items[0].promise, items, 0)]
      case NoPolicy => []
  }

  /** The commands of a phase, and whether it came to its end. */
  datatype Log = Log(issues: seq<Issue>, complete: bool)

  function Phase(schedule: seq<Manager>, action: Action): Log {
    if schedule == [] then Log([], true) else PhaseStep(schedule[0], action, Phase(schedule[1..], action))
  }

  /** One manager's part, given the rest: the phase ends at an undefined command. */
  function PhaseStep(pm: Manager, action: Action, rest: Log): Log {
    if pm.action != action || Queue(pm, action) == [] then rest
    else
      var promise := Queue(pm, action)[0].promise;
      if action !in promise.commands then Log([], false)
      else Log(Issues(pm, action, promise.commands[action]) + rest.issues, rest.complete)
  }

  /** The phases in their order, up to one that is not completed, after `issued`. */
  function Phases(issued: seq<Issue>, schedule: seq<Manager>, order: seq<Action>): seq<Issue>
    decreases |order|
  {
    if order == [] then issued
    else
      var log := Phase(schedule, order[0]);
      if log.complete then Phases(issued + log.issues, schedule, order[1..]) else issued + log.issues
  }

  const ORDER: seq<Action> := [Delete, Add, Update, Patch, Verify]

  // ---------------------------------------------------------------- the scheduler

  /** The command string with its allocation, which strcat never leaves. */
  class CommandBuffer {
    const size: nat
    var text: string

    constructor (size: nat, text: string)
      requires |text| + 1 <= size
      ensures this.size == size && this.text == text
    {
      this.size := size;
      this.text := text;
    }

    method Strcat(s: string)
      requires |text| + |s| + 1 <= size
      modifies this
      ensures text == old(text) + s
    {
      text := text + s;
    }

    /** Ending the string at an offset. */
    method Terminate(offset: nat)
      requires offset <= |text|
      modifies this
      ensures text == old(text)[..offset]
    {
      text := text[..offset];
    }
  }

  /** The room bulk commands are given for the first `k` packages. */
  function Room(items: seq<Item>, k: nat, slack: nat): nat
    requires k <= |items|
  {
    if k == 0 then 0 else Room(items, k - 1, slack) + |items[k - 1].name| + 2 + slack
  }

  lemma {:induction false} RoomGrows(items: seq<Item>, j: nat, k: nat, slack: nat)
    requires j <= k <= |items|
    ensures Room(items, j, slack) <= Room(items, k, slack)
    decreases k - j
  {
    if j < k { RoomGrows(items, j, k - 1, slack); }
  }

  method EstimateSize(items: seq<Item>, policy: Policy, slack: nat) returns (estimated: nat)
    ensures policy.Individual? ==>
              (items != [] ==> estimated >= slack + 2) && forall i | 0 <= i < |items| :: |items[i].name| + 2 <= estimated
    ensures policy.Bulk? ==> estimated == Room(items, |items|, slack)
  {
    estimated := 0;
    for k := 0 to |items|
      invariant k == 0 ==> estimated == 0
      invariant policy.Individual? ==>
                  (k > 0 ==> estimated >= slack + 2) && forall i | 0 <= i < k :: |items[i].name| + 2 <= estimated
      invariant policy.Bulk? ==> estimated == Room(items, k, slack)
    {
      var size := |items[k].name| + 2;
      match policy
      case Individual => if size > estimated { estimated := size + slack; }
      case Bulk => estimated := estimated + size + slack;
      case NoPolicy =>
    }
  }

  /** With enough room for each package alone, or for all of them. */
  predicate Roomy(items: seq<Item>, policy: Policy, slack: nat, room: int) {
    match policy
    case Individual => (items != [] ==> room >= slack + 2) && forall i | 0 <= i < |items| :: |items[i].name| + 2 <= room
    case Bulk => room >= Room(items, |items|, slack)
    case NoPolicy => true
  }

  /** A package's name or quoted path fits the room that was reckoned for its name. */
  lemma {:induction false} ArgumentFits(item: Item, p: Promise, action: Action, slack: nat)
    requires p.repositories && (action == Add || action == Update) ==> slack >= CF_MAXVARSIZE
    requires Argument(item, p, action).Some?
    ensures |Argument(item, p, action).value| + 1 <= |item.name| + 2 + slack
    ensures |Argument(item, p, action).value| <= |item.name| || |Argument(item, p, action).value| < slack
  {
    if p.repositories && (action == Add || action == Update) { assert p.quoted(item.name).Some?; }
  }

  lemma {:induction false} SinglesNext(prefix: string, action: Action, items: seq<Item>, i: nat)
    requires i < |items|
    ensures var arg := Argument(items[i], items[i].promise, action);
            Singles(prefix, action, items[i..]) ==
              if arg.None? then []
              else [Issue(action, prefix + arg.value, [items[i]])] + Singles(prefix, action, items[i + 1..])
  {
    assert items[i..][1..] == items[i + 1..];
  }

  /** Appending the names for a bulk command. */
  method AppendNames(action: Action, buffer: CommandBuffer, items: seq<Item>, p: Promise, slack: nat) returns (named: seq<Item>)
    requires action == Add || action == Update ==> slack >= CF_MAXVARSIZE
    requires buffer.size >= Room(items, |items|, slack) + |buffer.text| + 1
    modifies buffer
    ensures Issue(action, buffer.text, named) == BulkIssue(old(buffer.text), [], action, p, items, 0)
  {
    ghost var was := buffer.text;
    named := [];
    var i := 0;
    while i < |items|
      invariant 0 <= i <= |items|
      invariant BulkIssue(buffer.text, named, action, p, items, i) == BulkIssue(was, [], action, p, items, 0)
      invariant |buffer.text| <= |was| + Room(items, i, slack)
    {
      var arg := Argument(items[i], p, action);
      if arg.None? { return; }
      ArgumentFits(items[i], p, action, slack);
      RoomGrows(items, i + 1, |items|, slack);
      buffer.Strcat(arg.value);
      buffer.Strcat([' ']);
      named := named + [items[i]];
      i := i + 1;
    }
  }

  lemma {:induction false} FindNext(s: seq<Manager>, i: nat, command: string, policy: Policy)
    requires i < |s|
    ensures Find(s[i..], command, policy) ==
              if s[i].command == command && s[i].policy == policy then 0 else Find(s[i + 1..], command, policy) + 1
  {
    assert s[i..][1..] == s[i + 1..];
  }

  lemma {:induction false} PhaseNext(s: seq<Manager>, i: nat, action: Action)
    requires i < |s|
    ensures Phase(s[i..], action) == PhaseStep(s[i], action, Phase(s[i + 1..], action))
  {
    assert s[i..][1..] == s[i + 1..];
  }

  method FindManager(schedule: seq<Manager>, mgr: string, policy: Policy) returns (i: nat)
    ensures i == Find(schedule, mgr, policy)
  {
    i := 0;
    assert schedule[0..] == schedule;
    while i < |schedule|
      invariant 0 <= i <= |schedule|
      invariant Find(schedule, mgr, policy) == i + Find(schedule[i..], mgr, policy)
    {
      FindNext(schedule, i, mgr, policy);
      if schedule[i].command == mgr && schedule[i].policy == policy { return; }
      i := i + 1;
    }
    assert schedule[i..] == [];
  }

  class Scheduler {
    var schedule: seq<Manager>
    var issued: seq<Issue>

    constructor ()
      ensures schedule == [] && issued == []
    {
      schedule, issued := [], [];
    }

    /** A manager without a name is refused. */
    method NewPackageManager(mgr: string, pa: Action, policy: Policy) returns (i: Option<nat>)
      modifies this`schedule
      ensures mgr == [] ==> i == None && schedule == old(schedule)
      ensures mgr != [] ==> schedule == WithManager(old(schedule), mgr, pa, policy)
      ensures mgr != [] ==> i == Some(Find(schedule, mgr, policy)) && i.value < |schedule|
    {
      if mgr == [] { return None; }
      var k := FindManager(schedule, mgr, policy);
      if k == |schedule| {
        schedule := [Manager(mgr, pa, policy, [], [])] + schedule;
        k := 0;
      }
      i := Some(k);
    }

    /** AddPackageToSchedule, and for patches AddPatchToSchedule, in fix mode. */
    method AddToSchedule(r: Request)
      requires Defined(r)
      modifies this`schedule
      ensures schedule == Enqueue(old(schedule), r)
    {
      var i := NewPackageManager(r.item.promise.commands[r.action], r.action, r.item.promise.policy);
      schedule := schedule[i.value := Prepended(schedule[i.value], r)];
    }

    /** Running the command string. */
    method ExecPackageCommand(action: Action, buffer: CommandBuffer, items: seq<Item>)
      modifies this`issued
      ensures issued == old(issued) + [Issue(action, buffer.text, items)]
    {
      issued := issued + [Issue(action, buffer.text, items)];
    }

    method IssueSingles(action: Action, buffer: CommandBuffer, items: seq<Item>, slack: nat, ghost prefix: string)
      requires buffer.text == prefix
      requires action == Add || action == Update ==> slack >= CF_MAXVARSIZE
      requires Roomy(items, Individual, slack, buffer.size - |prefix| - 1)
      modifies buffer, this`issued
      ensures issued == old(issued) + Singles(prefix, action, items)
    {
      var offset := |buffer.text|;
      var i := 0;
      while i < |items|
        invariant 0 <= i <= |items| && buffer.text == prefix
        invariant old(issued) + Singles(prefix, action, items) == issued + Singles(prefix, action, items[i..])
      {
        var arg := Argument(items[i], items[i].promise, action);
        SinglesNext(prefix, action, items, i);
        if arg.None? { return; }
        ArgumentFits(items[i], items[i].promise, action, slack);
        buffer.Strcat(arg.value);
        ExecPackageCommand(action, buffer, [items[i]]);
        buffer.Terminate(offset);
        i := i + 1;
      }
    }

    method IssueBulk(action: Action, buffer: CommandBuffer, items: seq<Item>, p: Promise, slack: nat, ghost prefix: string)
      requires buffer.text == prefix
      requires action == Add || action == Update ==> slack >= CF_MAXVARSIZE
      requires buffer.size >= Room(items, |items|, slack) + |prefix| + 1
      modifies buffer, this`issued
      ensures issued == old(issued) + [BulkIssue(prefix, [], action, p, items, 0)]
    {
      var named := AppendNames(action, buffer, items, p, slack);
      ExecPackageCommand(action, buffer, named);
    }
  
    /** One manager's commands, in a buffer allocated for them. */
    method IssueFor(pm: Manager, action: Action, command: string, slack: nat)
      requires Queue(pm, action) != [] && command != []
      requires action == Add || action == Update ==> slack >= CF_MAXVARSIZE
      modifies this`issued
      ensures issued == old(issued) + Issues(pm, action, command)
    {
      var items := Queue(pm, action);
      var estimated := EstimateSize(items, pm.policy, slack);
      var buffer := new CommandBuffer(estimated + |command| + 2, command);
      if command[|command| - 1] == '$' {
        buffer.Terminate(|command| - 1);
        ExecPackageCommand(action, buffer, []);
      } else {
        buffer.Strcat([' ']);
        match pm.policy {
          case Individual => IssueSingles(action, buffer, items, slack, buffer.text);
          case Bulk => IssueBulk(action, buffer, items, items[0].promise, slack, buffer.text);
          case NoPolicy =>
        }
      }
    }

    /** ExecuteSchedule, which gives every name CF_MAXVARSIZE characters more, and for patches
        ExecutePatch, which does not. */
    method ExecuteSchedule(action: Action) returns (retval: bool)
      modifies this`issued
      ensures issued == old(issued) + Phase(schedule, action).issues && retval == Phase(schedule, action).complete
    {
      var slack := if action == Patch then 0 else CF_MAXVARSIZE;
      var i := 0;
      while i < |schedule|
        invariant 0 <= i <= |schedule|
        invariant old(issued) + Phase(schedule, action).issues == issued + Phase(schedule[i..], action).issues
        invariant Phase(schedule, action).complete == Phase(schedule[i..], action).complete
      {
        var pm := schedule[i];
        PhaseNext(schedule, i, action);
        if pm.action == action && Queue(pm, action) != [] {
          var promise := Queue(pm, action)[0].promise;
          if action !in promise.commands { return false; }
          IssueFor(pm, action, promise.commands[action], slack);
        }
        i := i + 1;
      }
      retval := true;
    }

    method ExecutePackageSchedule()
      modifies this`issued
      ensures issued == Phases(old(issued), schedule, ORDER)
    {
      assert ORDER[1..] == [Add, Update, Patch, Verify] && [Add, Update, Patch, Verify][1..] == [Update, Patch, Verify];
      assert [Update, Patch, Verify][1..] == [Patch, Verify] && [Patch, Verify][1..] == [Verify] && [Verify][1..] == [];
      var ok := ExecuteSchedule(Delete);
      if !ok { return; }
      assert Phases(issued, schedule, [Add, Update, Patch, Verify]) == Phases(old(issued), schedule, ORDER);
      ok := ExecuteSchedule(Add);
      if !ok { return; }
      assert Phases(issued, schedule, [Update, Patch, Verify]) == Phases(old(issued), schedule, ORDER);
      ok := ExecuteSchedule(Update);
      if !ok { return; }
      assert Phases(issued, schedule, [Patch, Verify]) == Phases(old(issued), schedule, ORDER);
      ok := ExecuteSchedule(Patch);
      if !ok { return; }
      assert Phases(issued, schedule, [Verify]) == Phases(old(issued), schedule, ORDER);
      ok := ExecuteSchedule(Verify);
    }
  }
}
