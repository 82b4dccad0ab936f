/** Inserting lines (InsertMultipleLinesToRegion, InsertCompoundLineAtLocation and
    InsertLineAtLocation of cf-agent/files_editline.c) into a whole file, with exact matching, in fix
    mode, and without keeping the chunk together as a block. */
module LineInsertion {
  import opened EditLines

  /** The promise: the lines of the chunk, the line selection, and the side of the insertion. */
  datatype Insertion = Insertion(chunk: seq<string>, select: string -> bool, before: bool)

  method IsItemInRegion(item: string, begin: Item?, ghost items: seq<Item>, ghost lines: seq<string>, ghost b: nat)
    returns (found: bool)
    requires Linked(items) && Spelled(items, lines) && b <= |items| && begin == Node(items, b)
    ensures found <==> item in lines[b..]
  {
    var ip := begin;
    ghost var i: nat := b;
    while ip != null
      invariant b <= i <= |items| && ip == Node(items, i)
      invariant item !in lines[b..i]
      decreases |items| - i
    {
      assert lines[i] == ip.name && lines[b..i + 1] == lines[b..i] + [ip.name];
      if item == ip.name {
        assert lines[b..][i - b] == item;
        return true;
      }
      ip := ip.next;
      i := i + 1;
    }
    assert lines[b..i] == lines[b..];
    found := false;
  }

  /** Whether the line on that side of position `l` is `item`. */
  predicate NeighbourIs(lines: seq<string>, l: nat, item: string, before: bool) {
    if before then 0 < l < |lines| && lines[l - 1] == item else l + 1 < |lines| && lines[l + 1] == item
  }

  method NeighbourItemMatches(start: Item?, location: Item?, item: string, before: bool,
                              ghost items: seq<Item>, ghost lines: seq<string>, ghost l: nat) returns (found: bool)
    requires Linked(items) && Spelled(items, lines) && start == Node(items, 0)
    requires l <= |items| && location == Node(items, l)
    ensures found <==> NeighbourIs(lines, l, item, before)
  {
    var ip := start;
    ghost var i: nat := 0;
    while ip != null
      invariant 0 <= i <= |items| && ip == Node(items, i)
      invariant before && l < |items| ==> i < l || l == 0
      invariant !before ==> i <= l
      decreases |items| - i
    {
      assert lines[i] == ip.name;
      if i + 1 < |items| {
        assert lines[i + 1] == items[i + 1].name;
        if l < |items| { Distinct(items, i + 1, l); }
      }
      if l < |items| { Distinct(items, i, l); }
      if before && ip.next != null && ip.next == location { return item == ip.name; }
      if !before && ip == location { return ip.next != null && item == ip.next.name; }
      ip := ip.next;
      i := i + 1;
    }
    found := false;
  }

  // ---------------------------------------------------------------- one line

  /** Where the position `i` is after an insertion at `p`. */
  function Shifted(i: nat, p: nat, inserted: bool): nat {
    if inserted && p <= i then i + 1 else i
  }

  /** The positions of the loop's pointers: the node before the insertion, the location, and the
      start of the region. */
  datatype Spots = Spots(prev: nat, location: nat, begin: nat)

  /** The list before one turn of the loop; `prevSet` says that the node before the insertion is no
      longer undefined. */
  datatype Text = Text(lines: seq<string>, prevSet: bool, at: Spots)

  /** Where a new line goes. */
  function SpotIn(t: Text, before: bool): (p: nat)
    ensures p <= |t.lines|
  {
    if before then
      if !t.prevSet then 0 else if t.at.prev < |t.lines| then t.at.prev + 1 else |t.lines|
    else if t.at.location < |t.lines| then t.at.location + 1 else |t.lines|
  }

  /** Whether the line is already beside that spot. */
  predicate BesideIn(t: Text, line: string, before: bool) {
    if before && !t.prevSet then t.lines != [] && t.lines[0] == line else NeighbourIs(t.lines, t.at.location, line, before)
  }

  /** The nodes stay in order around one that is put in at `p`. */
  ghost predicate Spliced(items: seq<Item>, its: seq<Item>, p: nat, inserted: bool)
    requires p <= |items|
  {
    if inserted then |its| == |items| + 1 && its == Ins(items, p, its[p]) else its == items
  }

  lemma {:induction false} SplicedAt(items: seq<Item>, its: seq<Item>, p: nat, inserted: bool, i: nat)
    requires p <= |items| && Spliced(items, its, p, inserted) && i <= |items|
    ensures Shifted(i, p, inserted) <= |its| && Node(its, Shifted(i, p, inserted)) == Node(items, i)
  {
  }

  ghost predicate MarkAt(file: LineFile, mark: Mark, i: nat)
    reads file
  {
    mark.At? ==> i <= |file.items| && mark.item == Node(file.items, i)
  }

  method InsertLineAtLocation(file: LineFile, newline: string, location: Item?, prev: Mark, before: bool, ghost at: Spots)
    returns (inserted: bool)
    requires file.Valid() && MarkAt(file, At(location), at.location) && MarkAt(file, prev, at.prev)
    modifies file, file.nodes`next
    ensures file.Valid() && fresh(file.nodes - old(file.nodes)) && old(file.nodes) <= file.nodes
    ensures var t := Text(old(file.lines), prev.At?, at);
            var p := SpotIn(t, before);
            && (inserted <==> !BesideIn(t, newline, before))
            && Spliced(old(file.items), file.items, p, inserted)
            && file.lines == (if inserted then Ins(old(file.lines), p, newline) else old(file.lines))
    ensures file.num_edits == old(file.num_edits) + if inserted then 1 else 0
  {
    if before && prev.Undefined? {
      if file.start != null {
        assert file.lines[0] == file.start.name;
        if file.start.name == newline { return false; }
      }
      file.PrependItem(newline);
    } else {
      var known := NeighbourItemMatches(file.start, location, newline, before, file.items, file.lines, at.location);
      if known { return false; }
      if before {
        file.InsertAfter(prev.item, newline, at.prev);
      } else {
        file.InsertAfter(location, newline, at.location);
      }
    }
    file.num_edits := file.num_edits + 1;
    inserted := true;
  }

  // ---------------------------------------------------------------- the chunk

  /** The loop's pointers: the node before the insertion, the location, and the region's start, which
      stays where it was when lines are put before it. */
  datatype Place = Place(prev: Mark, location: Item?, begin: Item?)

  ghost predicate Placed(file: LineFile, pl: Place, at: Spots)
    reads file, file.items
  {
    && file.Valid()
    && MarkAt(file, pl.prev, at.prev) && MarkAt(file, At(pl.location), at.location) && MarkAt(file, At(pl.begin), at.begin)
  }

  /** The position of the next node, or of the first one if there is none at `i`. */
  function Step(n: nat, i: nat, p: nat, inserted: bool): nat {
    if i < n then Shifted(i, p, inserted) + 1 else 0
  }

  /** One turn of the loop for a selected line. */
  function Turn(t: Text, line: string, before: bool): (t': Text)
    requires t.at.begin <= |t.lines|
    ensures t'.at.begin <= |t'.lines|
  {
    if line in t.lines[t.at.begin..] then t
    else
      var p := SpotIn(t, before);
      var inserted := !BesideIn(t, line, before);
      var n := |t.lines|;
      Text(if inserted then Ins(t.lines, p, line) else t.lines, true,
           Spots(if t.prevSet then Step(n, t.at.prev, p, inserted) else 0,
                 Step(n, t.at.location, p, inserted), Shifted(t.at.begin, p, inserted)))
  }

  /** Moving the pointers on after a line at `p`. */
  method NextPlace(file: LineFile, pl: Place, ghost items: seq<Item>, ghost p: nat, inserted: bool, ghost at: Spots)
    returns (pl': Place)
    requires file.Valid() && p <= |items| && Spliced(items, file.items, p, inserted)
    requires pl.prev.At? ==> at.prev <= |items| && pl.prev.item == Node(items, at.prev)
    requires at.location <= |items| && pl.location == Node(items, at.location)
    requires at.begin <= |items| && pl.begin == Node(items, at.begin)
    ensures pl'.prev.At?
    ensures Placed(file, pl', Spots(if pl.prev.At? then Step(|items|, at.prev, p, inserted) else 0,
                                    Step(|items|, at.location, p, inserted), Shifted(at.begin, p, inserted)))
  {
    if pl.prev.At? { SplicedAt(items, file.items, p, inserted, at.prev); }
    SplicedAt(items, file.items, p, inserted, at.location);
    SplicedAt(items, file.items, p, inserted, at.begin);
    var prev := if pl.prev.At? && pl.prev.item != null then pl.prev.item.next else file.start;
    var location := if pl.location != null then pl.location.next else file.start;
    pl' := Place(At(prev), location, pl.begin);
  }

  method InsertOne(file: LineFile, pl: Place, line: string, before: bool, ghost at: Spots)
    returns (inserted: bool, pl': Place, ghost t: Text)
    requires Placed(file, pl, at)
    modifies file, file.nodes`next
    ensures at.begin <= |old(file.lines)| && t == Turn(Text(old(file.lines), pl.prev.At?, at), line, before)
    ensures file.lines == t.lines && Placed(file, pl', t.at) && (pl'.prev.At? <==> t.prevSet)
    ensures fresh(file.nodes - old(file.nodes)) && old(file.nodes) <= file.nodes
    ensures inserted <==> |file.lines| == |old(file.lines)| + 1
    ensures file.num_edits == old(file.num_edits) + (|file.lines| - |old(file.lines)|)
  {
    t := Turn(Text(file.lines, pl.prev.At?, at), line, before);
    var known := IsItemInRegion(line, pl.begin, file.items, file.lines, at.begin);
    if known { return false, pl, t; }
    ghost var items, p := file.items, SpotIn(Text(file.lines, pl.prev.At?, at), before);
    inserted := InsertLineAtLocation(file, line, pl.location, pl.prev, before, at);
    pl' := NextPlace(file, pl, items, p, inserted, at);
  }

  /** The loop over the lines of the chunk. */
  function Fold(ins: Insertion, chunk: seq<string>, t: Text): Text
    requires t.at.begin <= |t.lines|
  {
    if chunk == [] then t
    else Fold(ins, chunk[1..], if ins.select(chunk[0]) then Turn(t, chunk[0], ins.before) else t)
  }

  function Equal(): (string, string) -> bool {
    (a, b) => a == b
  }

  method InsertCompoundLineAtLocation(file: LineFile, ins: Insertion, pl: Place, ghost at: Spots) returns (result: bool)
    requires Placed(file, pl, at) && ins.chunk != []
    modifies file, file.nodes`next
    ensures file.Valid() && at.begin <= |old(file.lines)| && at.location <= |old(file.lines)|
    ensures file.lines ==
              if MatchLen(Equal(), ins.chunk, old(file.lines)[at.location..]) > 0 then old(file.lines)
              else Fold(ins, ins.chunk, Text(old(file.lines), pl.prev.At?, at)).lines
    ensures |file.lines| >= |old(file.lines)| && file.num_edits == old(file.num_edits) + (|file.lines| - |old(file.lines)|)
    ensures result <==> |file.lines| > |old(file.lines)|
  {
    assert file.lines[at.location..|file.lines|] == file.lines[at.location..];
    var known := MatchRegion(Equal(), ins.chunk, pl.location, null, file.items, file.lines, at.location, |file.items|);
    if known > 0 { return false; }
    result := InsertLines(file, ins, pl, at);
  }

  method InsertLines(file: LineFile, ins: Insertion, first: Place, ghost at: Spots) returns (result: bool)
    requires Placed(file, first, at)
    modifies file, file.nodes`next
    ensures file.Valid() && at.begin <= |old(file.lines)|
    ensures file.lines == Fold(ins, ins.chunk, Text(old(file.lines), first.prev.At?, at)).lines
    ensures |file.lines| >= |old(file.lines)| && file.num_edits == old(file.num_edits) + (|file.lines| - |old(file.lines)|)
    ensures result <==> |file.lines| > |old(file.lines)|
  {
    var pl := first;
    var i := 0;
    result := false;
    ghost var t := Text(file.lines, pl.prev.At?, at);
    while i < |ins.chunk|
      invariant 0 <= i <= |ins.chunk|
      invariant Placed(file, pl, t.at) && file.lines == t.lines && (pl.prev.At? <==> t.prevSet)
      invariant fresh(file.nodes - old(file.nodes)) && old(file.nodes) <= file.nodes
      invariant t.at.begin <= |t.lines|
      invariant Fold(ins, ins.chunk[i..], t) == Fold(ins, ins.chunk, Text(old(file.lines), first.prev.At?, at))
      invariant |file.lines| >= |old(file.lines)| && file.num_edits == old(file.num_edits) + (|file.lines| - |old(file.lines)|)
      invariant result <==> |file.lines| > |old(file.lines)|
    {
      var buf := ins.chunk[i];
      assert ins.chunk[i..][0] == buf && ins.chunk[i..][1..] == ins.chunk[i + 1..];
      if ins.select(buf) {
        var inserted;
        inserted, pl, t := InsertOne(file, pl, buf, ins.before, t.at);
        result := result || inserted;
      }
      i := i + 1;
    }
  }

  /** Where the insertion into a whole file starts. */
  function StartText(ins: Insertion, lines: seq<string>): (t: Text)
    ensures t.at.begin <= |t.lines| && t.at.location <= |t.lines|
  {
    if lines == [] || ins.before then Text(lines, false, Spots(0, 0, 0))
    else Text(lines, |lines| > 1, Spots(if |lines| > 1 then |lines| - 2 else 0, |lines| - 1, 0))
  }

  /** The lines after the promise has been kept. */
  function Inserted(ins: Insertion, lines: seq<string>): seq<string> {
    var t := StartText(ins, lines);
    if MatchLen(Equal(), ins.chunk, lines[t.at.location..]) > 0 then lines else Fold(ins, ins.chunk, t).lines
  }

  /** With the whole file as the region and no locator. */
  method InsertMultipleLinesToRegion(file: LineFile, ins: Insertion) returns (result: bool)
    requires file.Valid() && ins.chunk != []
    modifies file, file.nodes`next
    ensures file.Valid() && file.lines == Inserted(ins, old(file.lines))
    ensures file.num_edits == old(file.num_edits) + (|file.lines| - |old(file.lines)|)
    ensures result <==> |file.lines| > |old(file.lines)|
  {
    var beginPtr := file.start;
    if file.start == null {
      result := InsertCompoundLineAtLocation(file, ins, Place(Undefined, file.start, beginPtr), Spots(0, 0, 0));
      return;
    }
    if ins.before {
      result := InsertCompoundLineAtLocation(file, ins, Place(Undefined, file.start, beginPtr), Spots(0, 0, 0));
      return;
    }
    var ip, prev := file.start, Undefined;
    ghost var i: nat := 0;
    while ip.next != null
      invariant 0 <= i < |file.items| && ip == file.items[i]
      invariant prev == if i == 0 then Undefined else At(Node(file.items, i - 1))
      decreases |file.items| - i
    {
      prev := At(ip);
      ip := ip.next;
      i := i + 1;
    }
    result := InsertCompoundLineAtLocation(file, ins, Place(prev, ip, beginPtr), StartText(ins, file.lines).at);
  }

  // ---------------------------------------------------------------- what holds of every insertion

  /** `a` is a subsequence of `b`. */
  predicate Sub(a: seq<string>, b: seq<string>) {
    a == [] || (b != [] && (if a[0] == b[0] then Sub(a[1..], b[1..]) else Sub(a, b[1..])))
  }

  lemma {:induction false} SubRefl(a: seq<string>)
    ensures Sub(a, a)
  {
    if a != [] { SubRefl(a[1..]); }
  }

  /** Leaving out the first line keeps a subsequence. */
  lemma {:induction false} SubTail(a: seq<string>, b: seq<string>)
    requires Sub(a, b) && a != []
    ensures Sub(a[1..], b)
    decreases |b|, 0
  {
    if a[0] == b[0] {
      SubCons(a[1..], b[1..], b[0]);
      assert b == [b[0]] + b[1..];
    } else {
      SubTail(a, b[1..]);
      SubCons(a[1..], b[1..], b[0]);
      assert b == [b[0]] + b[1..];
    }
  }

  lemma {:induction false} SubCons(a: seq<string>, b: seq<string>, x: string)
    requires Sub(a, b)
    ensures Sub(a, [x] + b)
    decreases |b|, 1
  {
    assert ([x] + b)[1..] == b;
    if a != [] && a[0] == x { SubTail(a, b); }
  }

  lemma {:induction false} SubIns(a: seq<string>, b: seq<string>, p: nat, x: string)
    requires Sub(a, b) && p <= |b|
    ensures Sub(a, Ins(b, p, x))
  {
    if p == 0 {
      SubCons(a, b, x);
      assert Ins(b, 0, x) == [x] + b;
    } else if a != [] {
      assert Ins(b, p, x)[1..] == Ins(b[1..], p - 1, x);
      SubIns(if a[0] == b[0] then a[1..] else a, b[1..], p - 1, x);
    }
  }

  lemma {:induction false} InsHas(b: seq<string>, p: nat, x: string)
    requires p <= |b|
    ensures x in Ins(b, p, x) && forall y | y in b :: y in Ins(b, p, x)
  {
    assert Ins(b, p, x)[p] == x;
    forall y | y in b ensures y in Ins(b, p, x) {
      var i :| 0 <= i < |b| && b[i] == y;
      assert Ins(b, p, x)[if i < p then i else i + 1] == y;
    }
  }

  lemma {:induction false} TurnKeeps(t: Text, line: string, before: bool, orig: seq<string>)
    requires t.at.begin <= |t.lines| && Sub(orig, t.lines)
    ensures var t' := Turn(t, line, before);
            line in t'.lines && Sub(orig, t'.lines) && forall y | y in t.lines :: y in t'.lines
  {
    SubIns(orig, t.lines, SpotIn(t, before), line);
    InsHas(t.lines, SpotIn(t, before), line);
  }

  lemma {:induction false} FoldKeeps(ins: Insertion, chunk: seq<string>, t: Text, orig: seq<string>)
    requires t.at.begin <= |t.lines| && Sub(orig, t.lines)
    ensures var t' := Fold(ins, chunk, t);
            && Sub(orig, t'.lines) && (forall y | y in t.lines :: y in t'.lines)
            && (forall y | y in chunk && ins.select(y) :: y in t'.lines)
  {
    if chunk != [] {
      var next := if ins.select(chunk[0]) then Turn(t, chunk[0], ins.before) else t;
      if ins.select(chunk[0]) { TurnKeeps(t, chunk[0], ins.before, orig); }
      FoldKeeps(ins, chunk[1..], next, orig);
      forall y | y in chunk && ins.select(y) ensures y in Fold(ins, chunk, t).lines {
        assert y == chunk[0] || y in chunk[1..];
      }
    }
  }

  /** After one run every selected line of the chunk is in the file, and the lines that were there are
      still there, in their order. */
  lemma {:induction false} InsertionKeeps(ins: Insertion, lines: seq<string>)
    requires ins.chunk != []
    ensures Sub(lines, Inserted(ins, lines))
    ensures forall y | y in ins.chunk && ins.select(y) :: y in Inserted(ins, lines)
  {
    var t := StartText(ins, lines);
    SubRefl(lines);
    FoldKeeps(ins, ins.chunk, t, lines);
    var rest := lines[t.at.location..];
    if MatchLen(Equal(), ins.chunk, rest) > 0 {
      forall y | y in ins.chunk ensures y in lines {
        var i :| 0 <= i < |ins.chunk| && ins.chunk[i] == y;
        assert Equal()(ins.chunk[i], rest[i]);
        assert rest[i] == lines[t.at.location + i];
      }
    }
  }

  lemma {:induction false} FoldIdle(ins: Insertion, chunk: seq<string>, t: Text)
    requires t.at.begin == 0 && forall y | y in chunk && ins.select(y) :: y in t.lines
    ensures Fold(ins, chunk, t) == t
  {
    if chunk != [] {
      assert t.lines[0..] == t.lines;
      FoldIdle(ins, chunk[1..], t);
    }
  }

  /** A second run changes nothing, before or after. */
  lemma {:induction false} SecondInsertionIdle(ins: Insertion, lines: seq<string>)
    requires ins.chunk != []
    ensures Inserted(ins, Inserted(ins, lines)) == Inserted(ins, lines)
  {
    InsertionKeeps(ins, lines);
    var once := Inserted(ins, lines);
    FoldIdle(ins, ins.chunk, StartText(ins, once));
  }

  // ---------------------------------------------------------------- where the lines go

  /** The selected lines of the chunk that the file lacks, in order. */
  function Missing(ins: Insertion, chunk: seq<string>, lines: seq<string>): seq<string> {
    if chunk == [] then []
    else (if ins.select(chunk[0]) && chunk[0] !in lines then [chunk[0]] else []) + Missing(ins, chunk[1..], lines)
  }

  /** Where the location is after `k` lines went in before `n` original ones: it runs through those, one
      for each line put in, then past the end, and then once more from the first line on. */
  function LocationAfter(n: nat, k: nat): nat {
    if k <= n then 2 * k else k - n - 1
  }

  /** The state after `added` lines have been put beside the original ones. */
  ghost predicate Aligned(t: Text, before: bool, orig: seq<string>, added: seq<string>) {
    if before then
      && t.lines == added + orig && t.at.begin == |added| && t.at.location == LocationAfter(|orig|, |added|)
      && (if added == [] then !t.prevSet else t.prevSet && t.at.prev == |added| - 1)
    else
      && t.lines == orig + added && t.at.begin == (if orig == [] then |added| else 0)
      && t.at.location == (if t.lines == [] then 0 else |t.lines| - 1)
  }

  /** The missing line `w[k]` is taken for one that is there already: before the text when it equals
      the line then found beside the location, after the text when it was put in before. */
  predicate Taken(before: bool, n: nat, w: seq<string>, k: nat)
    requires k < |w|
  {
    if before then k >= n + 2 && w[k - n - 2] == w[k] else n > 0 && w[k] in w[..k]
  }

  predicate NoneTaken(before: bool, n: nat, w: seq<string>, from: nat) {
    forall k | from <= k < |w| :: !Taken(before, n, w, k)
  }

  function Beside(before: bool, orig: seq<string>, w: seq<string>): seq<string> {
    if before then w + orig else orig + w
  }

  lemma {:induction false} AlignedRegion(t: Text, before: bool, orig: seq<string>, added: seq<string>, line: string)
    requires Aligned(t, before, orig, added)
    ensures t.at.begin <= |t.lines|
    ensures line in t.lines[t.at.begin..] <==> line in orig || (!before && orig != [] && line in added)
  {
    if before {
      assert t.lines[|added|..] == orig;
    } else if orig == [] {
      assert t.lines[|added|..] == [];
    } else {
      assert t.lines[0..] == t.lines;
    }
  }

  /** A missing line that is not taken for another goes in next to the others. */
  lemma {:induction false} AlignedTurn(t: Text, before: bool, orig: seq<string>, added: seq<string>, line: string)
    requires Aligned(t, before, orig, added) && line !in orig
    requires !Taken(before, |orig|, added + [line], |added|)
    ensures t.at.begin <= |t.lines| && Aligned(Turn(t, line, before), before, orig, added + [line])
  {
    var w := added + [line];
    assert w[..|added|] == added;
    AlignedRegion(t, before, orig, added, line);
    NotBeside(t, before, orig, added, line);
    var p := SpotIn(t, before);
    assert p == if before then |added| else |orig| + |added|;
    assert Ins(t.lines, p, line) == if before then w + orig else orig + w;
  }

  lemma {:induction false} NotBeside(t: Text, before: bool, orig: seq<string>, added: seq<string>, line: string)
    requires Aligned(t, before, orig, added) && line !in orig
    requires !Taken(before, |orig|, added + [line], |added|)
    ensures !BesideIn(t, line, before)
  {
    if before && added != [] {
      var n, k, l := |orig|, |added|, t.at.location;
      if 0 < l < |t.lines| {
        assert t.lines[l - 1] == if k <= n then orig[k - 1] else added[k - n - 2];
        assert k > n ==> (added + [line])[k - n - 2] == added[k - n - 2];
      }
    }
  }

  /** A missing line that is taken for another does not go in. */
  lemma {:induction false} TakenTurn(t: Text, before: bool, orig: seq<string>, added: seq<string>, line: string)
    requires Aligned(t, before, orig, added) && line !in orig
    requires Taken(before, |orig|, added + [line], |added|)
    ensures t.at.begin <= |t.lines| && |Turn(t, line, before).lines| == |t.lines|
  {
    assert (added + [line])[..|added|] == added;
    AlignedRegion(t, before, orig, added, line);
    if before {
      var l := t.at.location;
      assert l == |added| - |orig| - 1 && t.lines[l - 1] == added[l - 1] == line;
      assert BesideIn(t, line, before);
    }
  }

  // ---------------------------------------------------------------- how many lines go in at most

  /** The region still holds the original lines. */
  ghost predicate RegionHas(t: Text, orig: seq<string>) {
    t.at.begin <= |t.lines| && forall y | y in orig :: y in t.lines[t.at.begin..]
  }

  lemma {:induction false} TurnBound(t: Text, line: string, before: bool, orig: seq<string>)
    requires RegionHas(t, orig)
    ensures var t' := Turn(t, line, before);
            RegionHas(t', orig) && |t'.lines| <= |t.lines| + 1 && (line in orig ==> t' == t)
  {
    var t' := Turn(t, line, before);
    var p, b := SpotIn(t, before), t.at.begin;
    if t'.lines != t.lines {
      if p <= b {
        assert t'.lines[b + 1..] == t.lines[b..];
      } else {
        assert t'.lines[b..] == Ins(t.lines[b..], p - b, line);
        InsHas(t.lines[b..], p - b, line);
      }
    }
  }

  lemma {:induction false} FoldBound(ins: Insertion, chunk: seq<string>, t: Text, orig: seq<string>)
    requires RegionHas(t, orig)
    ensures |Fold(ins, chunk, t).lines| <= |t.lines| + |Missing(ins, chunk, orig)|
  {
    if chunk != [] {
      if ins.select(chunk[0]) {
        TurnBound(t, chunk[0], ins.before, orig);
        FoldBound(ins, chunk[1..], Turn(t, chunk[0], ins.before), orig);
      } else {
        FoldBound(ins, chunk[1..], t, orig);
      }
    }
  }

  lemma {:induction false} AlignedHas(t: Text, before: bool, orig: seq<string>, added: seq<string>)
    requires Aligned(t, before, orig, added)
    ensures RegionHas(t, orig)
  {
    forall y | y in orig ensures y in t.lines[t.at.begin..] { AlignedRegion(t, before, orig, added, y); }
    AlignedRegion(t, before, orig, added, []);
  }

  // ---------------------------------------------------------------- exactly what goes in

  lemma {:induction false} MissingHead(ins: Insertion, chunk: seq<string>, orig: seq<string>, added: seq<string>)
    requires chunk != []
    ensures added + Missing(ins, chunk, orig) ==
              if ins.select(chunk[0]) && chunk[0] !in orig then (added + [chunk[0]]) + Missing(ins, chunk[1..], orig)
              else added + Missing(ins, chunk[1..], orig)
  {
    var more := Missing(ins, chunk[1..], orig);
    assert added + ([chunk[0]] + more) == (added + [chunk[0]]) + more;
    assert [] + more == more;
  }

  /** As long as no missing line is taken for another, all go in; otherwise too few do. */
  lemma {:induction false} FoldExactly(ins: Insertion, chunk: seq<string>, t: Text, orig: seq<string>, added: seq<string>)
    requires Aligned(t, ins.before, orig, added)
    ensures t.at.begin <= |t.lines|
    ensures var w := added + Missing(ins, chunk, orig);
            if NoneTaken(ins.before, |orig|, w, |added|)
            then Fold(ins, chunk, t).lines == Beside(ins.before, orig, w)
            else |Fold(ins, chunk, t).lines| < |orig| + |w|
    decreases |chunk|
  {
    AlignedHas(t, ins.before, orig, added);
    if chunk == [] {
      assert added + [] == added;
    } else {
      MissingHead(ins, chunk, orig, added);
      if !ins.select(chunk[0]) || chunk[0] in orig {
        if ins.select(chunk[0]) { TurnBound(t, chunk[0], ins.before, orig); }
        FoldExactly(ins, chunk[1..], t, orig, added);
      } else {
        FoldNext(ins, chunk, t, orig, added);
      }
    }
  }

  lemma {:induction false} FoldNext(ins: Insertion, chunk: seq<string>, t: Text, orig: seq<string>, added: seq<string>)
    requires Aligned(t, ins.before, orig, added) && chunk != [] && ins.select(chunk[0]) && chunk[0] !in orig
    ensures t.at.begin <= |t.lines|
    ensures var w := added + Missing(ins, chunk, orig);
            if NoneTaken(ins.before, |orig|, w, |added|)
            then Fold(ins, chunk, t).lines == Beside(ins.before, orig, w)
            else |Fold(ins, chunk, t).lines| < |orig| + |w|
    decreases |chunk|, 0
  {
    var line, rest, k := chunk[0], chunk[1..], |added|;
    var w := added + Missing(ins, chunk, orig);
    AlignedHas(t, ins.before, orig, added);
    MissingHead(ins, chunk, orig, added);
    TakenPrefix(ins.before, |orig|, added + [line], Missing(ins, rest, orig), k);
    if Taken(ins.before, |orig|, w, k) {
      TakenTurn(t, ins.before, orig, added, line);
      TurnBound(t, line, ins.before, orig);
      FoldBound(ins, rest, Turn(t, line, ins.before), orig);
    } else {
      AlignedTurn(t, ins.before, orig, added, line);
      FoldExactly(ins, rest, Turn(t, line, ins.before), orig, added + [line]);
      assert NoneTaken(ins.before, |orig|, w, k) <==> NoneTaken(ins.before, |orig|, w, k + 1);
    }
  }

  lemma {:induction false} TakenPrefix(before: bool, n: nat, a: seq<string>, b: seq<string>, k: nat)
    requires k < |a|
    ensures Taken(before, n, a + b, k) <==> Taken(before, n, a, k)
  {
    assert (a + b)[..k] == a[..k];
  }

  lemma {:induction false} NothingMissing(ins: Insertion, chunk: seq<string>, lines: seq<string>)
    requires forall y | y in chunk && ins.select(y) :: y in lines
    ensures Missing(ins, chunk, lines) == []
  {
    if chunk != [] { NothingMissing(ins, chunk[1..], lines); }
  }

  /** The missing lines are put, in the chunk's order, before the first line or after the last one, and
      nothing else happens, if and only if none is taken for one that is there: before the text, no
      missing line equals the one that comes as many places earlier as the text has lines, and two
      more; after the text, no missing line repeats, unless the file was empty. */
  lemma {:induction false} InsertionExactly(ins: Insertion, lines: seq<string>)
    requires ins.chunk != []
    ensures var w := Missing(ins, ins.chunk, lines);
            Inserted(ins, lines) == Beside(ins.before, lines, w) <==> NoneTaken(ins.before, |lines|, w, 0)
  {
    var t, w := StartText(ins, lines), Missing(ins, ins.chunk, lines);
    assert Aligned(t, ins.before, lines, []);
    FoldExactly(ins, ins.chunk, t, lines, []);
    assert [] + w == w;
    if MatchLen(Equal(), ins.chunk, lines[t.at.location..]) > 0 {
      InsertionKeeps(ins, lines);
      NothingMissing(ins, ins.chunk, lines);
    }
  }

  /** No line occurs twice. */
  predicate Unrepeated(w: seq<string>) {
    forall i, j | 0 <= i < j < |w| :: w[i] != w[j]
  }

  /** Where no missing line repeats, that is always so. */
  lemma {:induction false} InsertionIs(ins: Insertion, lines: seq<string>)
    requires ins.chunk != [] && Unrepeated(Missing(ins, ins.chunk, lines))
    ensures Inserted(ins, lines) == Beside(ins.before, lines, Missing(ins, ins.chunk, lines))
  {
    InsertionExactly(ins, lines);
  }

  /** After a text that is not empty, a missing line that repeats goes in once. */
  lemma {:induction false} RepeatedAfterFails(ins: Insertion, lines: seq<string>)
    requires ins.chunk != [] && !ins.before && lines != [] && !Unrepeated(Missing(ins, ins.chunk, lines))
    ensures Inserted(ins, lines) != Beside(false, lines, Missing(ins, ins.chunk, lines))
  {
    var w := Missing(ins, ins.chunk, lines);
    var i, j :| 0 <= i < j < |w| && w[i] == w[j];
    assert w[..j][i] == w[j];
    assert Taken(false, |lines|, w, j);
    InsertionExactly(ins, lines);
  }
}
