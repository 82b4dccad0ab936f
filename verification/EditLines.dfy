/** The edited file as a linked list of lines, and the list operations of libpromises/item_lib.c that
    the line editor uses. Patterns are given by a match function on (pattern, line). */
module EditLines {

  class Item {
    var name: string
    var next: Item?

    constructor (name: string, next: Item?)
      ensures this.name == name && this.next == next
    {
      this.name := name;
      this.next := next;
    }
  }

  /** The node at position `i`, or null past the end. */
  function Node(items: seq<Item>, i: nat): Item? {
    if i < |items| then items[i] else null
  }

  predicate Differ(items: seq<Item>, i: nat, j: nat)
    requires i < |items| && j < |items|
  {
    items[i] != items[j]
  }

  ghost predicate Linked(items: seq<Item>)
    reads items
  {
    && (forall i {:trigger items[i].next} | 0 <= i < |items| :: items[i].next == Node(items, i + 1))
    && (forall i, j | 0 <= i < j < |items| :: Differ(items, i, j))
  }

  /** The text of the lines. */
  ghost predicate Spelled(items: seq<Item>, names: seq<string>)
    reads items
  {
    |names| == |items| && forall i {:trigger items[i].name} | 0 <= i < |items| :: names[i] == items[i].name
  }

  /** A list position as the editor passes it: CF_UNDEFINED_ITEM, or a node or NULL. */
  datatype Mark = Undefined | At(item: Item?)

  /** How many lines of `rest` the chunk matches from its start: all its lines or none. */
  function MatchLen(m: (string, string) -> bool, chunk: seq<string>, rest: seq<string>): (n: nat)
    ensures n <= |rest|
  {
    if |chunk| <= |rest| && forall i | 0 <= i < |chunk| :: m(chunk[i], rest[i]) then |chunk| else 0
  }

  /** MatchRegion: the end marker is seen in the list and excluded by hand. */
  method MatchRegion(m: (string, string) -> bool, chunk: seq<string>, begin: Item?, end: Item?,
                     ghost items: seq<Item>, ghost names: seq<string>, ghost b: nat, ghost t: nat)
    returns (lines: nat)
    requires chunk != [] && Linked(items) && Spelled(items, names) && b <= t <= |items|
    requires begin == Node(items, b) && end == Node(items, t)
    ensures lines == MatchLen(m, chunk, names[b..t])
  {
    ghost var rest := names[b..t];
    var ip := begin;
    var i := 0;
    lines := 0;
    while i < |chunk|
      invariant 0 <= i <= |chunk| && lines == i
      invariant i < |chunk| ==> b + i <= t && ip == Node(items, b + i)
      invariant b + i <= t && forall k | 0 <= k < i :: m(chunk[k], rest[k])
    {
      if ip == null { return 0; }
      if b + i < t { assert rest[i] == items[b + i].name; }
      if !m(chunk[i], ip.name) { return 0; }
      lines := lines + 1;
      assert b + i < t < |items| ==> Differ(items, b + i, t);
      if ip == end { return 0; }
      if ip.next != null {
        ip := ip.next;
      } else if i + 1 < |chunk| {
        return 0;
      }
      i := i + 1;
    }
  }

  /** Without the elements from `j` up to `k`. */
  function Cut<T>(s: seq<T>, j: nat, k: nat): seq<T>
    requires j <= k <= |s|
  {
    s[..j] + s[k..]
  }

  lemma {:induction false} CutAgain<T>(s: seq<T>, j: nat, k: nat)
    requires j <= k < |s|
    ensures Cut(Cut(s, j, k), j, j + 1) == Cut(s, j, k + 1)
  {
  }

  lemma {:induction false} SpelledCut(items: seq<Item>, names: seq<string>, j: nat, k: nat)
    requires j <= k <= |items| && Spelled(items, names)
    ensures Spelled(Cut(items, j, k), Cut(names, j, k))
  {
    var cut, text := Cut(items, j, k), Cut(names, j, k);
    forall i | 0 <= i < |cut| ensures text[i] == cut[i].name {
      var o := if i < j then i else i + k - j;
      assert cut[i] == items[o] && text[i] == names[o];
    }
  }

  /** A list in which the node before position `j` links past it is linked without it. */
  lemma {:induction false} LinkedCut(items: seq<Item>, j: nat)
    requires j < |items|
    requires forall i {:trigger items[i].next} | 0 <= i < |items| && i != j - 1 :: items[i].next == Node(items, i + 1)
    requires j > 0 ==> items[j - 1].next == Node(items, j + 1)
    requires forall i, k | 0 <= i < k < |items| :: Differ(items, i, k)
    ensures Linked(Cut(items, j, j + 1))
  {
    var cut := Cut(items, j, j + 1);
    forall i | 0 <= i < |cut| ensures cut[i].next == Node(cut, i + 1) {
      var o := if i < j then i else i + 1;
      assert cut[i] == items[o];
    }
    DistinctCut(items, j);
  }

  lemma {:induction false} DistinctCut(items: seq<Item>, j: nat)
    requires j < |items| && forall i, k | 0 <= i < k < |items| :: Differ(items, i, k)
    ensures var cut := Cut(items, j, j + 1); forall i, k | 0 <= i < k < |cut| :: Differ(cut, i, k)
  {
    var cut := Cut(items, j, j + 1);
    forall i, k | 0 <= i < k < |cut| ensures Differ(cut, i, k) {
      var o, p := if i < j then i else i + 1, if k < j then k else k + 1;
      assert Differ(items, o, p);
      assert cut[i] == items[o] && cut[k] == items[p];
    }
  }

  /** With `x` put in at position `p`. */
  function Ins<T>(s: seq<T>, p: nat, x: T): seq<T>
    requires p <= |s|
  {
    s[..p] + [x] + s[p..]
  }

  lemma {:induction false} SpelledIns(items: seq<Item>, lines: seq<string>, p: nat, node: Item)
    requires p <= |items| && Spelled(items, lines)
    ensures Spelled(Ins(items, p, node), Ins(lines, p, node.name))
  {
    var its, text := Ins(items, p, node), Ins(lines, p, node.name);
    forall i | 0 <= i < |its| ensures text[i] == its[i].name {
      if i != p {
        var o := if i < p then i else i - 1;
        assert its[i] == items[o] && text[i] == lines[o];
      }
    }
  }

  /** A list whose node before position `p` links to `node`, which links on, is linked with it. */
  lemma {:induction false} LinkedIns(items: seq<Item>, p: nat, node: Item)
    requires p <= |items| && node !in items && node.next == Node(items, p)
    requires forall i {:trigger items[i].next} | 0 <= i < |items| && i != p - 1 :: items[i].next == Node(items, i + 1)
    requires p > 0 ==> items[p - 1].next == node
    requires forall i, k | 0 <= i < k < |items| :: Differ(items, i, k)
    ensures Linked(Ins(items, p, node))
  {
    var its := Ins(items, p, node);
    forall i | 0 <= i < |its| ensures its[i].next == Node(its, i + 1) {
      if i != p {
        var o := if i < p then i else i - 1;
        assert its[i] == items[o];
      }
    }
    DistinctIns(items, p, node);
  }

  lemma {:induction false} DistinctIns(items: seq<Item>, p: nat, node: Item)
    requires p <= |items| && node !in items && forall i, k | 0 <= i < k < |items| :: Differ(items, i, k)
    ensures var its := Ins(items, p, node); forall i, k | 0 <= i < k < |its| :: Differ(its, i, k)
  {
    var its := Ins(items, p, node);
    forall i, k | 0 <= i < k < |its| ensures Differ(its, i, k) {
      var o, q := if i < p then i else i - 1, if k < p then k else k - 1;
      if i != p && k != p {
        assert Differ(items, o, q);
        assert its[i] == items[o] && its[k] == items[q];
      }
    }
  }

  /** Linking a new node in after `ptr`. */
  method LinkIn(ptr: Item, name: string, ghost items: seq<Item>, ghost lines: seq<string>, ghost j: nat) returns (ip: Item)
    requires Linked(items) && Spelled(items, lines) && j < |items| && ptr == items[j]
    modifies ptr`next
    ensures fresh(ip) && ip !in items
    ensures Linked(Ins(items, j + 1, ip)) && Spelled(Ins(items, j + 1, ip), Ins(lines, j + 1, name))
  {
    ip := new Item(name, ptr.next);
    ptr.next := ip;
    forall i | 0 <= i < |items| && i != j ensures items[i].next == Node(items, i + 1) {
      assert i < j ==> Differ(items, i, j);
      assert j < i ==> Differ(items, j, i);
    }
    LinkedIns(items, j + 1, ip);
    SpelledIns(items, lines, j + 1, ip);
  }

  /** The search for the node before `ip`. */
  method Predecessor(ip: Item, from: Item?, ghost items: seq<Item>, ghost j: nat, ghost f: nat) returns (lp: Item)
    requires Linked(items) && f < j < |items| && ip == items[j] && from == items[f]
    ensures lp == items[j - 1]
  {
    lp := from;
    ghost var i := f;
    while lp.next != ip
      invariant i < j && lp == items[i]
      decreases j - i
    {
      lp := lp.next;
      i := i + 1;
    }
    assert i + 1 < j ==> Differ(items, i + 1, j);
  }

  lemma {:induction false} Distinct(items: seq<Item>, i: nat, j: nat)
    requires Linked(items) && i < |items| && j < |items|
    ensures items[i] == items[j] <==> i == j
  {
    assert i < j ==> Differ(items, i, j);
    assert j < i ==> Differ(items, j, i);
  }

  /** Linking past position `j`. */
  method Relink(lp: Item, np: Item?, ghost items: seq<Item>, ghost j: nat)
    requires Linked(items) && 0 < j < |items| && lp == items[j - 1] && np == Node(items, j + 1)
    modifies lp`next
    ensures Linked(Cut(items, j, j + 1))
  {
    lp.next := np;
    forall i | 0 <= i < |items| && i != j - 1 ensures items[i].next == Node(items, i + 1) {
      assert i < j - 1 ==> Differ(items, i, j - 1);
      assert j - 1 < i ==> Differ(items, j - 1, i);
    }
    LinkedCut(items, j);
  }

  method LastNode(start: Item, ghost items: seq<Item>) returns (ip: Item)
    requires Linked(items) && items != [] && start == items[0]
    ensures ip == items[|items| - 1]
  {
    ip := start;
    ghost var i := 0;
    while ip.next != null
      invariant 0 <= i < |items| && ip == items[i]
      decreases |items| - i
    {
      ip := ip.next;
      i := i + 1;
    }
  }

  class LineFile {
    var start: Item?
    var num_edits: nat
    ghost var items: seq<Item>
    ghost var lines: seq<string>
    ghost var nodes: set<Item>

    ghost predicate Valid()
      reads this, items
    {
      start == Node(items, 0) && Linked(items) && Spelled(items, lines) && forall x | x in items :: x in nodes
    }

    constructor ()
      ensures Valid() && items == [] && lines == [] && nodes == {} && num_edits == 0
    {
      start := null;
      num_edits := 0;
      items := [];
      lines := [];
      nodes := {};
    }

    /** Relinking around the deleted node `ip` at position `j`; the search for its predecessor starts
        at `initiator`, which stays at or before the next node. */
    method DeleteNode(ip: Item, initiator: Item?, ghost j: nat, ghost f: nat)
      returns (np: Item?, initiator': Item?, ghost f': nat)
      requires Valid() && f <= j < |items| && ip == items[j] && initiator == items[f]
      modifies this, nodes`next
      ensures Valid() && items == Cut(old(items), j, j + 1) && nodes == old(nodes)
      ensures lines == Cut(old(lines), j, j + 1)
      ensures num_edits == old(num_edits) + 1
      ensures np == Node(items, j) && f' <= j && initiator' == Node(items, f')
    {
      ghost var cut, text := Cut(items, j, j + 1), Cut(lines, j, j + 1);
      np := ip.next;
      initiator' := initiator;
      f' := f;
      Distinct(items, 0, j);
      Distinct(items, f, j);
      if ip == start {
        LinkedCut(items, j);
        if initiator == start { initiator' := np; }
        start := np;
      } else {
        if ip == initiator {
          initiator' := start;
          f' := 0;
        }
        var lp := Predecessor(ip, initiator', items, j, f');
        Relink(lp, np, items, j);
      }
      SpelledCut(items, lines, j, j + 1);
      items, lines := cut, text;
      num_edits := num_edits + 1;
    }

    method PrependItem(name: string)
      requires Valid()
      modifies this
      ensures Valid() && |items| == |old(items)| + 1 && items == Ins(old(items), 0, items[0]) && lines == Ins(old(lines), 0, name)
      ensures num_edits == old(num_edits) && fresh(nodes - old(nodes)) && old(nodes) <= nodes
    {
      var ip := new Item(name, start);
      LinkedIns(items, 0, ip);
      SpelledIns(items, lines, 0, ip);
      start, items, lines, nodes := ip, Ins(items, 0, ip), Ins(lines, 0, name), nodes + {ip};
    }

    /** InsertAfter: an empty list or no node to insert after means the end of the list. */
    method InsertAfter(ptr: Item?, name: string, ghost j: nat)
      requires Valid() && j <= |items| && ptr == Node(items, j)
      modifies this, nodes`next
      ensures var p := if j < old(|items|) then j + 1 else j;
              && Valid() && |items| == old(|items|) + 1
              && items == Ins(old(items), p, items[p]) && lines == Ins(old(lines), p, name)
      ensures num_edits == old(num_edits) && fresh(nodes - old(nodes)) && old(nodes) <= nodes
    {
      if start == null {
        PrependItem(name);
      } else {
        var at := ptr;
        ghost var k := j;
        if ptr == null {
          at := LastNode(start, items);
          k := |items| - 1;
        }
        var ip := LinkIn(at, name, items, lines, k);
        items, lines, nodes := Ins(items, k + 1, ip), Ins(lines, k + 1, name), nodes + {ip};
      }
    }

    /** Giving the node at position `i` another text, and counting the edit. */
    method SetName(ip: Item, name: string, ghost i: nat)
      requires Valid() && i < |items| && ip == items[i]
      modifies this, nodes`name
      ensures Valid() && items == old(items) && nodes == old(nodes) && lines == old(lines)[i := name]
      ensures num_edits == old(num_edits) + 1
    {
      forall k | 0 <= k < |items| && k != i ensures items[k] != ip { Distinct(items, i, k); }
      ip.name := name;
      lines := lines[i := name];
      num_edits := num_edits + 1;
    }

    /** The inner loop of the deletion: `matches` nodes from position `k` on. */
    method DeleteChunk(ip: Item?, initiator: Item?, matches: nat, ghost k: nat, ghost f: nat)
      returns (np: Item?, initiator': Item?, ghost f': nat)
      requires Valid() && f <= k && k + matches <= |items| && ip == Node(items, k) && initiator == Node(items, f)
      modifies this, nodes`next
      ensures Valid() && items == Cut(old(items), k, k + matches) && nodes == old(nodes)
      ensures lines == Cut(old(lines), k, k + matches)
      ensures num_edits == old(num_edits) + matches
      ensures np == Node(items, k) && f' <= k && initiator' == Node(items, f')
    {
      ghost var all, text := items, lines;
      np, initiator', f' := ip, initiator, f;
      var i := 0;
      while i < matches
        invariant 0 <= i <= matches && Valid()
        invariant items == Cut(all, k, k + i) && lines == Cut(text, k, k + i) && nodes == old(nodes)
        invariant num_edits == old(num_edits) + i
        invariant np == Node(items, k) && f' <= k && initiator' == Node(items, f')
      {
        CutAgain(all, k, k + i);
        CutAgain(text, k, k + i);
        np, initiator', f' := DeleteNode(np, initiator', k, f');
        i := i + 1;
      }
    }
  }
}
