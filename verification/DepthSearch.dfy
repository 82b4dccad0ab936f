/** The recursive walk of cf-agent/verify_files_utils.c (DepthSearch, PushDirState, PopDirState):
    which entries it verifies, in which order, and from which working directory. The directory
    structure does not change during the walk. */
module DepthSearch {
  import opened Common

  type Path = seq<string>

  /** What lstat(2) finds. A link knows what it leads to and whether its owner is trusted. */
  datatype Node = Leaf | Directory(id: nat) | Link(to: Option<Node>, trusted: bool)

  /** Directories by number: their listing in reading order, their parent, and what is permitted. */
  datatype Tree = Tree(listing: map<nat, seq<(string, Node)>>, parent: map<nat, nat>,
                       enterable: set<nat>, openable: set<nat>, root: nat)

  /** The recursion attributes of the promise. */
  datatype Config = Config(travlinks: bool, rmdeadlinks: bool, depth: int,
                           ignored: set<string>, skipped: set<Path>)

  const RECURSION_LIMIT := 100

  /** One call of VerifyFileLeaf; `asLink` marks the extra call a link gets before it is followed. */
  datatype Event = Event(path: Path, cwd: nat, asLink: bool)

  // ---------------------------------------------------------------- name lookup

  function Find(entries: seq<(string, Node)>, x: string): Option<Node> {
    if entries == [] then None
    else if entries[0].0 == x then Some(entries[0].1)
    else Find(entries[1..], x)
  }

  function Lstat(t: Tree, dir: nat, x: string): Option<Node> {
    if dir in t.listing then Find(t.listing[dir], x) else None
  }

  /** What a node is once its link is followed. */
  function Followed(n: Node): Option<Node> {
    if n.Link? then (if n.to.Some? && !n.to.value.Link? then n.to else None) else Some(n)
  }

  /** The directory an absolute path leads to, through links. */
  function Resolve(t: Tree, p: Path): Option<nat>
    decreases |p|
  {
    if p == [] then Some(t.root)
    else match Resolve(t, p[..|p| - 1])
         case None => None
         case Some(d) =>
           match Lstat(t, d, p[|p| - 1])
           case None => None
           case Some(n) =>
             match Followed(n)
             case Some(Directory(c)) => Some(c)
             case _ => None
  }

  function Chdir(t: Tree, p: Path): Option<nat> {
    match Resolve(t, p)
    case Some(d) => if d in t.enterable then Some(d) else None
    case None => None
  }

  // ---------------------------------------------------------------- the walk as a function

  /** Back: the caller must back out (true). Stay: nothing was entered (false). Fatal: the agent stops. */
  datatype Status = Back | Stay | Fatal

  /** `failed` records that a directory was entered but could not be opened. */
  datatype Outcome = Outcome(status: Status, cwd: nat, events: seq<Event>, failed: bool)

  function WalkDir(t: Tree, c: Config, cwd: nat, name: Path, id: nat, rlevel: nat): Outcome
    decreases if rlevel <= RECURSION_LIMIT then RECURSION_LIMIT + 1 - rlevel else 0, 2, 0
  {
    if rlevel > RECURSION_LIMIT then Outcome(Stay, cwd, [], false)
    else match Chdir(t, name)
         case None => Outcome(Stay, cwd, [], false)
         case Some(d) =>
           if d != id then Outcome(Fatal, d, [], false)
           else if d !in t.openable || d !in t.listing then Outcome(Stay, d, [], true)
           else WalkEntries(t, c, d, name, id, rlevel, t.listing[d])
  }

  function WalkEntries(t: Tree, c: Config, cwd: nat, name: Path, id: nat, rlevel: nat,
                       rest: seq<(string, Node)>): Outcome
    requires rlevel <= RECURSION_LIMIT
    decreases RECURSION_LIMIT + 1 - rlevel, 1, |rest|
  {
    if rest == [] then Outcome(Back, cwd, [], false)
    else
      var o := WalkEntry(t, c, cwd, name, id, rlevel, rest[0].0);
      if o.status == Fatal then o
      else
        var more := WalkEntries(t, c, o.cwd, name, id, rlevel, rest[1..]);
        Outcome(more.status, more.cwd, o.events + more.events, o.failed || more.failed)
  }

  /** Whether the directory is entered at this level. */
  predicate Enters(c: Config, rlevel: nat) {
    c.depth > 1 && rlevel <= c.depth
  }

  /** The entry after ghost links, link verification and following: what is left to handle, if
      anything, and the early verification of a link. */
  function Admit(t: Tree, c: Config, cwd: nat, name: Path, x: string): (r: (Option<Node>, seq<Event>))
  {
    var path := name + [x];
    match Lstat(t, cwd, x)
    case None => (None, [])
    case Some(n) =>
      if !n.Link? then (Some(n), [])
      else if Followed(n).None? && c.rmdeadlinks then (None, [])
      else
        var early := [Event(path, cwd, true)];
        if !c.travlinks then (Some(n), early)
        else if !n.trusted then (None, early)
        else (Followed(n), early)
  }

  function WalkEntry(t: Tree, c: Config, cwd: nat, name: Path, id: nat, rlevel: nat, x: string): Outcome
    requires rlevel <= RECURSION_LIMIT
    decreases RECURSION_LIMIT + 1 - rlevel, 0, 1
  {
    var path := name + [x];
    if x in c.ignored then Outcome(Back, cwd, [], false)
    else
      var (node, early) := Admit(t, c, cwd, name, x);
      match node
      case None => Outcome(Back, cwd, early, false)
      case Some(Directory(d)) =>
        if path in c.skipped then Outcome(Back, cwd, early, false)
        else if !Enters(c, rlevel) then Outcome(Back, cwd, early + [Event(path, cwd, false)], false)
        else
          var o := WalkDir(t, c, cwd, path, d, rlevel + 1);
          (match PopDir(t, c, o, name, id)
           case None => Outcome(Fatal, o.cwd, early + o.events, o.failed)
           case Some(back) => Outcome(Back, back, early + o.events + [Event(path, back, false)], o.failed))
      case _ => Outcome(Back, cwd, early + [Event(path, cwd, false)], false)
  }

  /** PopDirState: the directory the walk is in again, or nothing when it is not safe to go on. */
  function PopDir(t: Tree, c: Config, o: Outcome, name: Path, id: nat): Option<nat> {
    match o.status
    case Fatal => None
    case Stay => Some(o.cwd)
    case Back =>
      if c.travlinks then
        (match Chdir(t, name) case None => None case Some(d) => if d == id then Some(d) else None)
      else if o.cwd in t.parent && t.parent[o.cwd] in t.enterable then Some(t.parent[o.cwd])
      else None
  }

  // ---------------------------------------------------------------- the walk in place

  class Walker {
    const t: Tree
    const c: Config
    var cwd: nat
    var log: seq<Event>

    constructor (t: Tree, c: Config, cwd: nat)
      ensures this.t == t && this.c == c && this.cwd == cwd && log == []
    {
      this.t, this.c, this.cwd, log := t, c, cwd, [];
    }

    /** VerifyFileLeaf, which may assume it runs in the parent directory of the leaf. */
    method VerifyFileLeaf(path: Path, asLink: bool)
      modifies this
      ensures cwd == old(cwd) && log == old(log) + [Event(path, cwd, asLink)]
    {
      log := log + [Event(path, cwd, asLink)];
    }

    /** DepthSearch. The loop over the directory runs in whatever directory the process is in. */
    method Search(name: Path, id: nat, rlevel: nat) returns (status: Status)
      modifies this
      ensures var o := WalkDir(t, c, old(cwd), name, id, rlevel);
              status == o.status && cwd == o.cwd && log == old(log) + o.events
      decreases if rlevel <= RECURSION_LIMIT then RECURSION_LIMIT + 1 - rlevel else 0, 2
    {
      if rlevel > RECURSION_LIMIT {
        return Stay;
      }
      var d := Chdir(t, name);
      if d.None? {
        return Stay;
      }
      cwd := d.value;
      if cwd != id {
        return Fatal;
      }
      if cwd !in t.openable || cwd !in t.listing {
        return Stay;
      }
      var rest := t.listing[cwd];
      ghost var whole := WalkEntries(t, c, cwd, name, id, rlevel, rest);
      while rest != []
        invariant var more := WalkEntries(t, c, cwd, name, id, rlevel, rest);
                  whole.status == more.status && whole.cwd == more.cwd && old(log) + whole.events == log + more.events
        decreases |rest|
      {
        ghost var o := WalkEntry(t, c, cwd, name, id, rlevel, rest[0].0);
        ghost var before := log;
        var ok := Visit(name, id, rlevel, rest[0].0);
        if !ok {
          return Fatal;
        }
        ghost var more := WalkEntries(t, c, cwd, name, id, rlevel, rest[1..]);
        assert before + (o.events + more.events) == log + more.events;
        rest := rest[1..];
      }
      return Back;
    }

    /** PopDirState: after a directory was entered, the walk is back in the directory it is in, by its
        name when links are followed and by ".." otherwise; false when that is not possible or leads
        elsewhere, and the agent stops. */
    method PopDirState(status: Status, name: Path, id: nat) returns (ok: bool)
      modifies this
      ensures log == old(log)
      ensures status == Stay ==> ok && cwd == old(cwd)
      ensures status == Back && c.travlinks ==> (ok <==> Chdir(t, name) == Some(id)) && (ok ==> cwd == id)
      ensures status == Back && !c.travlinks && ok ==> old(cwd) in t.parent && cwd == t.parent[old(cwd)]
      ensures forall o: Outcome | o.status == status && o.cwd == old(cwd) ::
                PopDir(t, c, o, name, id) == if ok then Some(cwd) else None
      ensures !ok ==> cwd == old(cwd)
    {
      if status == Fatal { return false; }
      var goback := status == Back;
      if goback && c.travlinks {
        var d := Chdir(t, name);
        if d.None? { return false; }
        if d.value != id { return false; }
        cwd := d.value;
      } else if goback {
        if cwd !in t.parent || t.parent[cwd] !in t.enterable { return false; }
        cwd := t.parent[cwd];
      }
      ok := true;
    }

    /** Entering a directory and backing out of it again. */
    method Descend(path: Path, d: nat, rlevel: nat, name: Path, id: nat) returns (ok: bool)
      requires rlevel <= RECURSION_LIMIT
      modifies this
      ensures var o := WalkDir(t, c, old(cwd), path, d, rlevel + 1);
              && log == old(log) + o.events
              && PopDir(t, c, o, name, id) == (if ok then Some(cwd) else None)
              && (!ok ==> cwd == o.cwd)
      decreases RECURSION_LIMIT + 1 - rlevel, 0
    {
      var status := Search(path, d, rlevel + 1);
      ok := PopDirState(status, name, id);
    }

    /** The body of the loop. */
    method Visit(name: Path, id: nat, rlevel: nat, x: string) returns (ok: bool)
      requires rlevel <= RECURSION_LIMIT
      modifies this
      ensures var o := WalkEntry(t, c, old(cwd), name, id, rlevel, x);
              (ok <==> o.status != Fatal) && cwd == o.cwd && log == old(log) + o.events
      decreases RECURSION_LIMIT + 1 - rlevel, 1
    {
      if x in c.ignored {
        return true;
      }
      var path := name + [x];
      var (node, early) := Admit(t, c, cwd, name, x);
      if early != [] {
        VerifyFileLeaf(path, true);
      }
      ghost var logged := log;
      assert logged == old(log) + early;
      if node.None? {
        return true;
      }
      if node.value.Directory? {
        if path in c.skipped {
          return true;
        }
        if Enters(c, rlevel) {
          ghost var o := WalkDir(t, c, cwd, path, node.value.id, rlevel + 1);
          var back := Descend(path, node.value.id, rlevel, name, id);
          assert log == old(log) + (early + o.events);
          if !back {
            return false;
          }
        }
      }
      VerifyFileLeaf(path, false);
      return true;
    }
  }
}
