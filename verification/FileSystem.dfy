/** A file system as names to inodes and inodes to contents, changed one system call at a time.
    Every call appends the state it leaves to a ghost trace. */
module FileSystem {
  import opened Common

  type Content = string

  /** A directory entry: a hard link to an inode, or a symbolic link to another name. */
  datatype Entry = Hard(ino: nat) | Symlink(to: string)

  datatype State = State(names: map<string, Entry>, data: map<nat, Content>, next: nat)

  /** Every hard link has an inode, and inode numbers from `next` on are unused. */
  predicate Sound(s: State) {
    && (forall n | n in s.names && s.names[n].Hard? :: s.names[n].ino in s.data)
    && (forall i | i in s.data :: i < s.next)
  }

  function At(s: State, name: string): Option<Entry> {
    if name in s.names then Some(s.names[name]) else None
  }

  /** The content of a regular file. */
  function Read(s: State, name: string): Option<Content> {
    match At(s, name)
    case Some(Hard(i)) => if i in s.data then Some(s.data[i]) else None
    case _ => None
  }

  // ---------------------------------------------------------------- what the calls do

  function Unlinked(s: State, name: string): State {
    s.(names := s.names - {name})
  }

  function Created(s: State, name: string): State {
    s.(names := s.names[name := Hard(s.next)], data := s.data[s.next := []], next := s.next + 1)
  }

  function Written(s: State, name: string, c: Content): State
    requires name in s.names && s.names[name].Hard?
  {
    s.(data := s.data[s.names[name].ino := c])
  }

  function Linked(s: State, from: string, to: string): State
    requires from in s.names
  {
    s.(names := s.names[to := s.names[from]])
  }

  /** rename(2): replaces the target in one step; two links to one inode are left alone. */
  function Renamed(s: State, from: string, to: string): State
    requires from in s.names
  {
    if s.names[from].Hard? && to in s.names && s.names[to] == s.names[from] then s
    else s.(names := (s.names - {from})[to := s.names[from]])
  }

  // ---------------------------------------------------------------- the calls

  class Disk {
    var now: State
    ghost var trace: seq<State>

    ghost predicate Valid()
      reads this
    {
      Sound(now)
    }

    constructor (initial: State)
      requires Sound(initial)
      ensures Valid() && now == initial && trace == []
    {
      now := initial;
      trace := [];
    }

    /** unlink(2): afterwards the name is absent. */
    method Unlink(name: string)
      requires Valid()
      modifies this
      ensures Valid() && now == Unlinked(old(now), name) && trace == old(trace) + [now]
    {
      now := Unlinked(now, name);
      trace := trace + [now];
    }

    /** open(2) with O_CREAT on an absent name. */
    method Create(name: string)
      requires Valid() && name !in now.names
      modifies this
      ensures Valid() && now == Created(old(now), name) && trace == old(trace) + [now]
    {
      now := Created(now, name);
      trace := trace + [now];
    }

    method Write(name: string, c: Content)
      requires Valid() && name in now.names && now.names[name].Hard?
      modifies this
      ensures Valid() && now == Written(old(now), name, c) && trace == old(trace) + [now]
    {
      now := Written(now, name, c);
      trace := trace + [now];
    }

    /** link(2), which fails when the new name exists. */
    method Link(from: string, to: string, works: bool) returns (ok: bool)
      requires Valid()
      modifies this
      ensures Valid() && trace == old(trace) + [now]
      ensures ok <==> works && from in old(now).names && to !in old(now).names
      ensures now == if ok then Linked(old(now), from, to) else old(now)
    {
      ok := works && from in now.names && to !in now.names;
      if ok {
        now := Linked(now, from, to);
      }
      trace := trace + [now];
    }

    method Rename(from: string, to: string, works: bool) returns (ok: bool)
      requires Valid()
      modifies this
      ensures Valid() && trace == old(trace) + [now]
      ensures ok <==> works && from in old(now).names
      ensures now == if ok then Renamed(old(now), from, to) else old(now)
    {
      ok := works && from in now.names;
      if ok {
        now := Renamed(now, from, to);
      }
      trace := trace + [now];
    }

    /** Writes content into an existing file piece by piece, up to `limit` bytes. */
    method WritePieces(name: string, content: Content, chunk: nat, limit: nat)
      requires Valid() && At(now, name).Some? && At(now, name).value.Hard? && chunk > 0
      requires limit <= |content| && Read(now, name) == Some([])
      modifies this
      ensures Valid() && old(trace) <= trace
      ensures now == Written(old(now), name, content[..limit])
      ensures forall i | |old(trace)| <= i < |trace| :: OnlyData(old(now), trace[i], name)
    {
      ghost var start := now;
      assert now.data == now.data[now.names[name].ino := content[..0]];
      var pos := 0;
      while pos < limit
        invariant pos <= limit && Valid() && old(trace) <= trace
        invariant now == Written(start, name, content[..pos])
        invariant forall i | |old(trace)| <= i < |trace| :: OnlyData(start, trace[i], name)
      {
        pos := if pos + chunk <= limit then pos + chunk else limit;
        Write(name, content[..pos]);
      }
    }

    /** unlink(2) and open(2) with O_CREAT and O_EXCL. */
    method CreateAnew(name: string)
      requires Valid()
      modifies this
      ensures Valid() && old(trace) <= trace
      ensures now == Created(Unlinked(old(now), name), name)
      ensures forall i | |old(trace)| <= i < |trace| :: OnlyAt(old(now), trace[i], name)
    {
      Unlink(name);
      Create(name);
    }

    /** CopyRegularFileDisk: unlinks the destination, creates it and writes the source's content
        piece by piece; whatever fails, the destination is unlinked. `stop` is where writing fails, if
        it does. */
    method CopyFile(source: string, dest: string, chunk: nat, stop: Option<nat>) returns (ok: bool)
      requires Valid() && source != dest && chunk > 0
      modifies this
      ensures Valid() && old(trace) <= trace
      ensures forall i | |old(trace)| <= i < |trace| :: OnlyAt(old(now), trace[i], dest)
      ensures OnlyAt(old(now), now, dest)
      ensures ok ==> Read(old(now), source).Some? && Read(now, dest) == Read(old(now), source)
      ensures ok ==> At(now, dest) == Some(Hard(old(now).next))
      ensures ok <==> stop == None && Read(old(now), source).Some?
      ensures !ok ==> At(now, dest) == None
    {
      ghost var start := now;
      if Read(now, source) == None {
        Unlink(dest);
        return false;
      }
      CreateAnew(dest);
      var content := Read(now, source).value;
      ghost var created, mark := now, |trace|;
      var limit := if stop.Some? && stop.value < |content| then stop.value else |content|;
      WritePieces(dest, content, chunk, limit);
      forall i | mark <= i < |trace| ensures OnlyAt(start, trace[i], dest) {
        NewFileData(start, created, trace[i], dest);
      }
      NewFileData(start, created, now, dest);
      if stop.Some? {
        Unlink(dest);
        return false;
      }
      assert content[..limit] == content;
      return true;
    }
  }

  /** At most the content of one file differs. */
  ghost predicate OnlyData(a: State, b: State, name: string)
    requires At(a, name).Some? && At(a, name).value.Hard?
  {
    && b.names == a.names && b.next == a.next
    && (forall i | i in a.data && i != a.names[name].ino :: i in b.data && b.data[i] == a.data[i])
  }

  lemma {:induction false} NewFileData(a: State, created: State, b: State, name: string)
    requires Sound(a) && created == Created(Unlinked(a, name), name) && OnlyData(created, b, name)
    ensures OnlyAt(a, b, name)
  {
  }

  /** Only the entry `name` and inodes that did not exist before may have changed. */
  ghost predicate OnlyAt(a: State, b: State, name: string) {
    (forall n | n != name :: At(b, n) == At(a, n)) && Grows(a, b)
  }

  /** Existing inodes keep their content. */
  ghost predicate Grows(a: State, b: State) {
    a.next <= b.next && forall i | i in a.data :: i in b.data && b.data[i] == a.data[i]
  }
}
