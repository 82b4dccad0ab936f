/** The commands a package manager is given, told on their text: which names or paths they carry, in
    which order, and where they stop. */
module PackageCommands {
  import opened Common
  import opened Packages

  // ---------------------------------------------------------------- names and paths

  /** With file repositories, additions and updates are given the quoted path of the package. */
  predicate ByPath(p: Promise, action: Action) {
    p.repositories && action in {Add, Update}
  }

  /** `word` is how the package is given to the command. */
  predicate Gives(item: Item, p: Promise, action: Action, word: string) {
    if ByPath(p, action) then p.quoted(item.name) == Some(word) else word == item.name
  }

  /** The package is to be given by path, and no repository holds it. */
  predicate Unheld(item: Item, p: Promise, action: Action) {
    ByPath(p, action) && p.quoted(item.name) == None
  }

  lemma {:induction false} ArgumentGives(item: Item, p: Promise, action: Action)
    ensures Argument(item, p, action).None? <==> Unheld(item, p, action)
    ensures Argument(item, p, action).Some? ==> Gives(item, p, action, Argument(item, p, action).value)
  {
  }

  // ---------------------------------------------------------------- one command for each package

  /** The `k`-th command is for the `k`-th package alone. */
  ghost predicate CommandFor(x: Issue, prefix: string, action: Action, item: Item) {
    && x.phase == action && x.items == [item]
    && |prefix| <= |x.text| && x.text[..|prefix|] == prefix && Gives(item, item.promise, action, x.text[|prefix|..])
  }

  /** Individual commands: one for each package in the order of the queue, up to the first package that
      no repository holds. */
  lemma {:induction false} SinglesAre(prefix: string, action: Action, items: seq<Item>)
    ensures var issues := Singles(prefix, action, items);
            && |issues| <= |items|
            && (forall k | 0 <= k < |issues| :: CommandFor(issues[k], prefix, action, items[k]))
            && (|issues| < |items| ==> Unheld(items[|issues|], items[|issues|].promise, action))
  {
    if items != [] {
      var arg := Argument(items[0], items[0].promise, action);
      ArgumentGives(items[0], items[0].promise, action);
      if arg.Some? {
        var rest := Singles(prefix, action, items[1..]);
        var first := Issue(action, prefix + arg.value, [items[0]]);
        SinglesAre(prefix, action, items[1..]);
        FirstCommand(prefix, action, items[0], arg.value);
        forall k | 0 <= k < |rest| + 1 ensures CommandFor(([first] + rest)[k], prefix, action, items[k]) {
          if k > 0 { assert CommandFor(rest[k - 1], prefix, action, items[1..][k - 1]); }
        }
      }
    }
  }

  lemma {:induction false} FirstCommand(prefix: string, action: Action, item: Item, word: string)
    requires Gives(item, item.promise, action, word)
    ensures CommandFor(Issue(action, prefix + word, [item]), prefix, action, item)
  {
    assert (prefix + word)[..|prefix|] == prefix && (prefix + word)[|prefix|..] == word;
  }

  // ---------------------------------------------------------------- one command for all packages

  /** Words, each with a blank after it. */
  function Words(words: seq<string>): string {
    if words == [] then [] else Words(words[..|words| - 1]) + words[|words| - 1] + [' ']
  }

  /** The command gives the first `|words|` packages, and the next one, if there is one, is unheld. */
  ghost predicate BulkCommand(x: Issue, prefix: string, action: Action, p: Promise, items: seq<Item>, words: seq<string>) {
    && |words| <= |items| && x.phase == action && x.items == items[..|words|] && x.text == prefix + Words(words)
    && (forall k | 0 <= k < |words| :: Gives(items[k], p, action, words[k]))
    && (|words| < |items| ==> Unheld(items[|words|], p, action))
  }

  /** A bulk command gives the packages in the order of the queue, up to the first that no repository
      holds. */
  lemma {:induction false} BulkIs(prefix: string, action: Action, p: Promise, items: seq<Item>) returns (words: seq<string>)
    ensures BulkCommand(BulkIssue(prefix, [], action, p, items, 0), prefix, action, p, items, words)
  {
    assert items[..0] == [] && prefix + Words([]) == prefix;
    words := BulkFrom(prefix, action, p, items, []);
  }

  lemma {:induction false} BulkFrom(prefix: string, action: Action, p: Promise, items: seq<Item>, done: seq<string>) returns (words: seq<string>)
    requires |done| <= |items| && forall k | 0 <= k < |done| :: Gives(items[k], p, action, done[k])
    ensures BulkCommand(BulkIssue(prefix + Words(done), items[..|done|], action, p, items, |done|), prefix, action, p, items, words)
    decreases |items| - |done|
  {
    var i := |done|;
    words := done;
    if i < |items| {
      ArgumentGives(items[i], p, action);
      var arg := Argument(items[i], p, action);
      if arg.Some? {
        var more := done + [arg.value];
        assert more[..i] == done && items[..i + 1] == items[..i] + [items[i]];
        assert prefix + Words(done) + arg.value + [' '] == prefix + Words(more);
        words := BulkFrom(prefix, action, p, items, more);
      }
    }
  }

  // ---------------------------------------------------------------- commands without arguments

  /** A command that ends in '$' is run once, without that sign and without naming a package. */
  lemma {:induction false} DollarRunsOnce(pm: Manager, action: Action, command: string)
    requires Queue(pm, action) != []
    ensures Issues(pm, action, command + ['$']) == [Issue(action, command, [])]
  {
    assert (command + ['$'])[..|command|] == command;
  }

  /** Any other command is followed by a blank and by names or paths. */
  lemma {:induction false} OthersAreGiven(pm: Manager, action: Action, command: string)
    requires Queue(pm, action) != [] && (command == [] || command[|command| - 1] != '$')
    ensures var items, issues := Queue(pm, action), Issues(pm, action, command);
            match pm.policy
            case Individual => issues == Singles(command + [' '], action, items)
            case Bulk =>
              && |issues| == 1
              && exists words :: BulkCommand(issues[0], command + [' '], action, items[0].promise, items, words)
            case NoPolicy => issues == []
  {
    if pm.policy == Bulk {
      var items := Queue(pm, action);
      var words := BulkIs(command + [' '], action, items[0].promise, items);
      assert BulkCommand(Issues(pm, action, command)[0], command + [' '], action, items[0].promise, items, words);
    }
  }

  // ---------------------------------------------------------------- the order of a queue

  ghost predicate OneQueue(reqs: seq<Request>, action: Action, command: string, policy: Policy) {
    forall r | r in reqs ::
      && r.action == action && Defined(r) && r.item.name != []
      && r.item.promise.commands[action] == command && r.item.promise.policy == policy
  }

  /** Requests for one command are queued in the reverse of the order they were made in. */
  ghost predicate NewestFirst(queue: seq<Item>, reqs: seq<Request>) {
    |queue| == |reqs| && forall k | 0 <= k < |reqs| :: queue[k] == reqs[|reqs| - 1 - k].item
  }

  lemma {:induction false} QueueIsReversed(reqs: seq<Request>, action: Action, command: string, policy: Policy)
    requires reqs != [] && OneQueue(reqs, action, command, policy)
    ensures var s := ScheduleAll(reqs);
            && |s| == 1 && s[0].command == command && s[0].action == action && s[0].policy == policy
            && NewestFirst(Queue(s[0], action), reqs)
            && Queue(s[0], if action == Patch then Add else Patch) == []
    decreases |reqs|
  {
    var n := |reqs| - 1;
    var r := reqs[n];
    assert r in reqs;
    if n > 0 {
      assert OneQueue(reqs[..n], action, command, policy);
      QueueIsReversed(reqs[..n], action, command, policy);
      var pm := ScheduleAll(reqs[..n])[0];
      assert ScheduleAll(reqs[..n]) == [pm];
      EnqueueSame(pm, r, command);
      NewestFirstStep(Queue(pm, action), reqs, r.item);
    } else {
      assert reqs[..0] == [];
      EnqueueFirst(r, command);
      assert NewestFirst([r.item], reqs);
    }
  }

  lemma {:induction false} NewestFirstStep(queue: seq<Item>, reqs: seq<Request>, item: Item)
    requires reqs != [] && NewestFirst(queue, reqs[..|reqs| - 1]) && reqs[|reqs| - 1].item == item
    ensures NewestFirst([item] + queue, reqs)
  {
  }

  lemma {:induction false} EnqueueFirst(r: Request, command: string)
    requires Defined(r) && r.item.name != [] && r.item.promise.commands[r.action] == command
    ensures var s := Enqueue([], r);
            && |s| == 1 && s[0].command == command && s[0].action == r.action && s[0].policy == r.item.promise.policy
            && Queue(s[0], r.action) == [r.item] && Queue(s[0], if r.action == Patch then Add else Patch) == []
  {
    var pm := Manager(command, r.action, r.item.promise.policy, [], []);
    assert WithManager([], command, r.action, r.item.promise.policy) == [pm];
    assert Find([pm], command, r.item.promise.policy) == 0;
    assert [r.item] + [] == [r.item];
  }

  lemma {:induction false} EnqueueSame(pm: Manager, r: Request, command: string)
    requires Defined(r) && r.item.name != [] && r.item.promise.commands[r.action] == command
    requires pm.command == command && pm.policy == r.item.promise.policy
    ensures var s := Enqueue([pm], r);
            && |s| == 1 && s[0].command == command && s[0].action == pm.action && s[0].policy == pm.policy
            && Queue(s[0], r.action) == [r.item] + Queue(pm, r.action)
            && Queue(s[0], if r.action == Patch then Add else Patch) == Queue(pm, if r.action == Patch then Add else Patch)
  {
    assert Find([pm], command, pm.policy) == 0;
  }
}
