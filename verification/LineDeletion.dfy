/** Deleting lines from a region (SelectRegion and DeletePromisedLinesMatching of
    cf-agent/files_editline.c) as a filter on the lines. */
module LineDeletion {
  import opened Common
  import opened EditLines

  /** The promise: the match function for patterns, the lines of the promiser, the line selection,
      not_matching, and whether only a warning is promised. */
  datatype Deletion = Deletion(m: (string, string) -> bool, chunk: seq<string>, select: string -> bool,
                               notMatching: bool, warn: bool)

  function BoolToInt(b: bool): nat {
    if b then 1 else 0
  }

  /** The number of lines a match at the head of `rest` stands for. */
  function Matches(d: Deletion, rest: seq<string>): nat {
    if d.notMatching then BoolToInt(MatchLen(d.m, d.chunk, rest) == 0) else MatchLen(d.m, d.chunk, rest)
  }

  /** How many lines go at the head of `rest`. */
  function Doomed(d: Deletion, rest: seq<string>): (n: nat)
    ensures n <= |rest|
  {
    if rest != [] && d.select(rest[0]) && !d.warn then Matches(d, rest) else 0
  }

  /** How many lines go at the head, as a function of the lines. */
  type Rule = seq<string> -> nat

  function RuleOf(d: Deletion): Rule {
    rest => Doomed(d, rest)
  }

  /** The lines that stay, read from the front. */
  function Survivors(g: Rule, rest: seq<string>): seq<string>
    decreases |rest|
  {
    if rest == [] then []
    else if 0 < g(rest) <= |rest| then Survivors(g, rest[g(rest)..])
    else [rest[0]] + Survivors(g, rest[1..])
  }

  // ---------------------------------------------------------------- the loop

  /** The lines when the loop ends, from position `k` with the terminator at `t`. */
  function Walk(g: Rule, lines: seq<string>, k: nat, t: nat): seq<string>
    requires k <= t <= |lines|
    decreases t - k
  {
    if k == t then lines
    else
      var n := g(lines[k..t]);
      if 0 < n <= t - k then Walk(g, Cut(lines, k, k + n), k, t - n) else Walk(g, lines, k + 1, t)
  }

  lemma {:induction false} CutSlices(lines: seq<string>, k: nat, n: nat, t: nat)
    requires k + n <= t <= |lines|
    ensures var after := Cut(lines, k, k + n);
            after[..k] == lines[..k] && after[k..t - n] == lines[k..t][n..] && after[t - n..] == lines[t..]
  {
    var after := Cut(lines, k, k + n);
    assert lines[k..t][n..] == lines[k + n..t];
    forall i | k <= i < t - n ensures after[i] == lines[i + n] { }
  }

  lemma {:induction false} NextSlices(lines: seq<string>, k: nat, t: nat)
    requires k < t <= |lines|
    ensures lines[k..t][1..] == lines[k + 1..t] && lines[..k + 1] == lines[..k] + [lines[k..t][0]]
  {
  }

  lemma {:induction false} Regroup(a: seq<string>, x: string, b: seq<string>, c: seq<string>)
    ensures (a + [x]) + b + c == a + ([x] + b) + c
  {
  }

  /** The walk replaces the region by its survivors and nothing else. */
  lemma {:induction false} WalkFilters(g: Rule, lines: seq<string>, k: nat, t: nat)
    requires k <= t <= |lines|
    ensures Walk(g, lines, k, t) == lines[..k] + Survivors(g, lines[k..t]) + lines[t..]
    decreases t - k
  {
    if k < t {
      var rest := lines[k..t];
      var n := g(rest);
      if 0 < n <= t - k {
        CutSlices(lines, k, n, t);
        WalkFilters(g, Cut(lines, k, k + n), k, t - n);
      } else {
        WalkFilters(g, lines, k + 1, t);
        NextSlices(lines, k, t);
        Regroup(lines[..k], rest[0], Survivors(g, rest[1..]), lines[t..]);
      }
    }
  }

  /** The first position of the region. */
  function First(begin: Mark, b: nat, includeStart: bool): nat {
    if begin.Undefined? then 0 else if includeStart then b else b + 1
  }

  /** The position after the last one of the region. */
  function Last(end: Mark, e: nat, includeEnd: bool, n: nat): nat {
    if end.Undefined? then n else if includeEnd then e + 1 else e
  }

  ghost predicate Ruled(d: Deletion, g: Rule) {
    forall rest {:trigger Doomed(d, rest)} :: g(rest) == Doomed(d, rest)
  }

  /** The loop's pointers are at the positions `k`, `t` and, somewhere before, `f`. */
  ghost predicate Pointers(file: LineFile, ip: Item?, initiator: Item?, terminator: Item?, k: nat, t: nat, f: nat)
    reads file, file.items
  {
    && file.Valid() && f <= k <= t <= |file.items|
    && ip == Node(file.items, k) && terminator == Node(file.items, t) && initiator == Node(file.items, f)
  }

  /** The pointers meet only at the end of the region. */
  lemma {:induction false} AtEnd(file: LineFile, ip: Item?, initiator: Item?, terminator: Item?, k: nat, t: nat, f: nat)
    requires Pointers(file, ip, initiator, terminator, k, t, f)
    ensures ip == terminator || ip == null <==> k == t
  {
    assert k < t < |file.items| ==> Differ(file.items, k, t);
  }

  /** One turn of the loop. */
  method DeleteOrPass(file: LineFile, ip: Item, initiator: Item?, terminator: Item?, d: Deletion, ghost g: Rule,
                      ghost k: nat, ghost t: nat, ghost f: nat)
    returns (np: Item?, initiator': Item?, removed: nat, ghost f': nat)
    requires Pointers(file, ip, initiator, terminator, k, t, f) && d.chunk != [] && k < t && Ruled(d, g)
    modifies file, file.nodes`next
    ensures file.nodes == old(file.nodes) && removed <= t - k && removed == g(old(file.lines)[k..t])
    ensures Pointers(file, np, initiator', terminator, if removed == 0 then k + 1 else k, t - removed, f')
    ensures |file.items| + removed == old(|file.items|) && file.num_edits == old(file.num_edits) + removed
    ensures file.lines == if removed == 0 then old(file.lines) else Cut(old(file.lines), k, k + removed)
  {
    var lines := MatchRegion(d.m, d.chunk, ip, terminator, file.items, file.lines, k, t);
    var matches := if d.notMatching then BoolToInt(lines == 0) else lines;
    assert file.lines[k..t][0] == ip.name;
    assert g(file.lines[k..t]) == Doomed(d, file.lines[k..t]);
    if !d.select(ip.name) || matches == 0 || d.warn {
      np, initiator', removed, f' := ip.next, initiator, 0, f;
    } else {
      removed := matches;
      np, initiator', f' := file.DeleteChunk(ip, initiator, matches, k, f);
    }
  }

  lemma {:induction false} WalkTurn(g: Rule, lines: seq<string>, after: seq<string>, k: nat, t: nat, n: nat, k': nat)
    requires k < t <= |lines| && n == g(lines[k..t]) <= t - k && k' == if n == 0 then k + 1 else k
    requires after == if n == 0 then lines else Cut(lines, k, k + n)
    ensures t - n <= |after| && Walk(g, after, k', t - n) == Walk(g, lines, k, t)
  {
  }

  /** The same, as a step of the walk. */
  method DeleteTurn(file: LineFile, ip: Item, initiator: Item?, terminator: Item?, d: Deletion, ghost g: Rule,
                    ghost k: nat, ghost t: nat, ghost f: nat)
    returns (np: Item?, initiator': Item?, removed: nat, ghost k': nat, ghost f': nat)
    requires Pointers(file, ip, initiator, terminator, k, t, f) && d.chunk != [] && k < t && Ruled(d, g)
    modifies file, file.nodes`next
    ensures file.nodes == old(file.nodes) && removed <= t - k
    ensures Pointers(file, np, initiator', terminator, k', t - removed, f') && t - removed - k' < t - k
    ensures |file.items| + removed == old(|file.items|) && file.num_edits == old(file.num_edits) + removed
    ensures Walk(g, file.lines, k', t - removed) == Walk(g, old(file.lines), k, t)
  {
    ghost var now := file.lines;
    np, initiator', removed, f' := DeleteOrPass(file, ip, initiator, terminator, d, g, k, t, f);
    k' := if removed == 0 then k + 1 else k;
    WalkTurn(g, now, file.lines, k, t, removed, k');
  }

  /** The end that is to be included is not there: its successor is read through a null pointer. */
  predicate Overruns(end: Mark, includeEnd: bool) {
    includeEnd && end == At(null)
  }

  datatype DeletionResult = NullDereference | Done(changed: bool)

  method DeletePromisedLinesMatching(file: LineFile, begin: Mark, end: Mark, d: Deletion, includeStart: bool, includeEnd: bool,
                                     ghost b: nat, ghost e: nat) returns (res: DeletionResult)
    requires file.Valid() && d.chunk != []
    requires begin.At? ==> b < |file.items| && begin.item == file.items[b]
    requires end.At? ==> e <= |file.items| && end.item == Node(file.items, e)
    requires !Overruns(end, includeEnd) ==> First(begin, b, includeStart) <= Last(end, e, includeEnd, |file.items|)
    modifies file, file.nodes`next
    ensures file.Valid() && |file.items| <= old(|file.items|)
    ensures res == NullDereference <==> Overruns(end, includeEnd)
    ensures res == NullDereference ==> file.lines == old(file.lines)
    ensures res.Done? ==>
              var f, t := First(begin, b, includeStart), Last(end, e, includeEnd, old(|file.items|));
              file.lines == old(file.lines)[..f] + Survivors(RuleOf(d), old(file.lines)[f..t]) + old(file.lines)[t..]
    ensures file.num_edits == old(file.num_edits) + (old(|file.items|) - |file.items|)
    ensures res.Done? ==> (res.changed <==> |file.items| < old(|file.items|))
  {
    var initiator: Item?, terminator: Item? := file.start, null;
    if begin.At? {
      if includeStart { initiator := begin.item; } else { initiator := begin.item.next; }
    }
    if end.At? {
      if includeEnd {
        if end.item == null { return NullDereference; }
        terminator := end.item.next;
      } else {
        terminator := end.item;
      }
    }
    ghost var k: nat, t: nat := First(begin, b, includeStart), Last(end, e, includeEnd, |file.items|);
    WalkFilters(RuleOf(d), file.lines, k, t);
    var changed := DeleteFrom(file, initiator, terminator, d, RuleOf(d), k, t);
    res := Done(changed);
  }

  method DeleteFrom(file: LineFile, first: Item?, terminator: Item?, d: Deletion, ghost g: Rule, ghost k0: nat, ghost t0: nat)
    returns (retval: bool)
    requires Pointers(file, first, first, terminator, k0, t0, k0) && d.chunk != [] && Ruled(d, g)
    modifies file, file.nodes`next
    ensures file.Valid() && |file.items| <= old(|file.items|)
    ensures file.lines == Walk(g, old(file.lines), k0, t0)
    ensures file.num_edits == old(file.num_edits) + (old(|file.items|) - |file.items|)
    ensures retval <==> |file.items| < old(|file.items|)
  {
    ghost var k: nat, t: nat, f: nat := k0, t0, k0;
    var ip, initiator := first, first;
    retval := false;
    while ip != terminator && ip != null
      invariant Pointers(file, ip, initiator, terminator, k, t, f) && |file.items| <= old(|file.items|)
      invariant file.nodes == old(file.nodes)
      invariant Walk(g, file.lines, k, t) == Walk(g, old(file.lines), k0, t0)
      invariant file.num_edits == old(file.num_edits) + (old(|file.items|) - |file.items|)
      invariant retval <==> |file.items| < old(|file.items|)
      decreases t - k
    {
      var removed: nat;
      ip, initiator, removed, k, f := DeleteTurn(file, ip, initiator, terminator, d, g, k, t, f);
      t := t - removed;
      retval := retval || removed > 0;
    }
    AtEnd(file, ip, initiator, terminator, k, t, f);
  }

  // ---------------------------------------------------------------- what stays

  /** Whether a single line goes. */
  predicate Goes(d: Deletion, line: string)
    requires |d.chunk| == 1
  {
    !d.warn && d.select(line) && d.m(d.chunk[0], line) != d.notMatching
  }

  /** The lines that do not go, in order. */
  function Others(d: Deletion, lines: seq<string>): seq<string>
    requires |d.chunk| == 1
  {
    if lines == [] then []
    else if Goes(d, lines[0]) then Others(d, lines[1..])
    else [lines[0]] + Others(d, lines[1..])
  }

  lemma {:induction false} SingleDoom(d: Deletion, rest: seq<string>)
    requires |d.chunk| == 1 && rest != []
    ensures RuleOf(d)(rest) == if Goes(d, rest[0]) then 1 else 0
  {
    assert d.m(d.chunk[0], rest[0]) == (forall i | 0 <= i < |d.chunk| :: d.m(d.chunk[i], rest[i]));
  }

  /** For a pattern of one line, deletion is a filter. */
  lemma {:induction false} DeletionIsFilter(d: Deletion, region: seq<string>)
    requires |d.chunk| == 1
    ensures Survivors(RuleOf(d), region) == Others(d, region)
  {
    if region != [] {
      SingleDoom(d, region);
      DeletionIsFilter(d, region[1..]);
    }
  }

  /** What stays is what should stay, with multiplicity, and a line stays if it should. */
  lemma {:induction false} OthersContents(d: Deletion, lines: seq<string>)
    requires |d.chunk| == 1
    ensures forall x :: multiset(Others(d, lines))[x] == if Goes(d, x) then 0 else multiset(lines)[x]
  {
    if lines != [] {
      OthersContents(d, lines[1..]);
      assert lines == [lines[0]] + lines[1..];
    }
  }

  /** A second run over the same region removes nothing. */
  lemma {:induction false} SecondDeletionIdle(d: Deletion, region: seq<string>)
    requires |d.chunk| == 1
    ensures Survivors(RuleOf(d), Survivors(RuleOf(d), region)) == Survivors(RuleOf(d), region)
  {
    DeletionIsFilter(d, region);
    DeletionIsFilter(d, Others(d, region));
    OthersIdle(d, region);
  }

  lemma {:induction false} OthersIdle(d: Deletion, lines: seq<string>)
    requires |d.chunk| == 1
    ensures Others(d, Others(d, lines)) == Others(d, lines)
  {
    if lines != [] {
      OthersIdle(d, lines[1..]);
      var rest := Others(d, lines[1..]);
      assert ([lines[0]] + rest)[1..] == rest;
    }
  }

  /** Deleting a block of two literal lines. */
  function BlockDeletion(a: string, b: string): Deletion {
    Deletion((p, l) => p == l, [a, b], l => true, false, false)
  }

  lemma {:induction false} BlockDoom(a: string, b: string, rest: seq<string>)
    ensures RuleOf(BlockDeletion(a, b))(rest) == if |rest| >= 2 && rest[0] == a && rest[1] == b then 2 else 0
  {
    var d := BlockDeletion(a, b);
    if |rest| >= 2 {
      assert rest[0] == a && rest[1] == b <==> forall i | 0 <= i < |d.chunk| :: d.m(d.chunk[i], rest[i]);
    }
  }

  /** A pattern of two lines can need a second run: removing a block makes a new one. */
  lemma {:induction false} BlocksReappear(a: string, b: string)
    requires a != b
    ensures Survivors(RuleOf(BlockDeletion(a, b)), [a, a, b, b]) == [a, b]
    ensures Survivors(RuleOf(BlockDeletion(a, b)), [a, b]) == []
  {
    var g := RuleOf(BlockDeletion(a, b));
    BlockDoom(a, b, [a, a, b, b]);
    BlockDoom(a, b, [a, b, b]);
    BlockDoom(a, b, [b]);
    BlockDoom(a, b, [a, b]);
    assert [a, a, b, b][1..] == [a, b, b] && [a, b, b][2..] == [b] && [b][1..] == [] && [a, b][2..] == [];
    assert Survivors(g, [b]) == [b] + Survivors(g, []);
    assert Survivors(g, [a, b, b]) == Survivors(g, [b]);
    assert Survivors(g, [a, b]) == Survivors(g, []);
  }

  // ---------------------------------------------------------------- regions

  datatype Region = Region(selectStart: Option<string>, selectEnd: Option<string>, includeStart: bool, includeEnd: bool)

  datatype Span = Span(first: nat, last: nat)

  /** The first line from `i` on that the pattern matches; past the end if there is none. */
  function IndexFrom(m: (string, string) -> bool, p: string, lines: seq<string>, i: nat): (j: nat)
    requires i <= |lines|
    ensures i <= j <= |lines|
    decreases |lines| - i
  {
    if i == |lines| || m(p, lines[i]) then i else IndexFrom(m, p, lines, i + 1)
  }

  lemma {:induction false} IndexIsFirst(m: (string, string) -> bool, p: string, lines: seq<string>, i: nat)
    requires i <= |lines|
    ensures var j := IndexFrom(m, p, lines, i);
            (j < |lines| ==> m(p, lines[j])) && forall k | i <= k < j :: !m(p, lines[k])
    decreases |lines| - i
  {
    if i < |lines| && !m(p, lines[i]) { IndexIsFirst(m, p, lines, i + 1); }
  }

  /** The positions of the delimiters: the first start, and the first end after it. */
  function Delimiters(m: (string, string) -> bool, r: Region, lines: seq<string>): (res: Option<Span>)
    ensures res.Some? ==> res.value.first <= res.value.last <= |lines|
    ensures res.Some? && r.selectStart.Some? ==> res.value.first < res.value.last
  {
    match r.selectStart
    case None => Some(Span(0, |lines|))
    case Some(p) =>
      var b := IndexFrom(m, p, lines, 0);
      if b == |lines| || (!r.includeStart && b + 1 == |lines|) then None
      else Some(Span(b, if r.selectEnd.None? then |lines| else IndexFrom(m, r.selectEnd.value, lines, b + 1)))
  }

  method SelectRegion(m: (string, string) -> bool, r: Region, file: LineFile)
    returns (ok: bool, begin: Mark, end: Mark)
    requires file.Valid()
    ensures ok <==> Delimiters(m, r, file.lines).Some?
    ensures ok ==> var s := Delimiters(m, r, file.lines).value;
              && begin == (if r.selectStart.None? then Undefined else At(Node(file.items, s.first)))
              && end == At(Node(file.items, s.last))
  {
    var ip := file.start;
    begin, end := Undefined, Undefined;
    ghost var i: nat, b: nat := 0, 0;
    ghost var lines, items := file.lines, file.items;
    while ip != null
      invariant 0 <= i <= |items| && ip == Node(items, i)
      invariant begin.Undefined? || (r.selectStart.Some? && begin == At(Node(items, b)) && b < i)
      invariant end.Undefined?
      invariant begin.Undefined? && r.selectStart.Some? ==>
                  IndexFrom(m, r.selectStart.value, lines, 0) == IndexFrom(m, r.selectStart.value, lines, i)
      invariant begin.At? ==> IndexFrom(m, r.selectStart.value, lines, 0) == b && (r.includeStart || b + 1 < |items|)
      invariant begin.At? && r.selectEnd.Some? ==>
                  IndexFrom(m, r.selectEnd.value, lines, b + 1) == IndexFrom(m, r.selectEnd.value, lines, i)
      decreases |items| - i
    {
      assert lines[i] == ip.name;
      if r.selectStart.Some? && begin.Undefined? && m(r.selectStart.value, ip.name) {
        if !r.includeStart && ip.next == null { return false, Undefined, Undefined; }
        begin := At(ip);
        b := i;
      } else if r.selectEnd.Some? && begin.At? && m(r.selectEnd.value, ip.name) {
        end := At(ip);
        break;
      }
      ip := ip.next;
      i := i + 1;
    }
    if begin.Undefined? && r.selectStart.Some? { return false, Undefined, Undefined; }
    if end.Undefined? { end := At(null); }
    ok := true;
  }

  /** The lines that may go: the delimiters only if they are included. */
  function Bounds(m: (string, string) -> bool, region: Option<Region>, lines: seq<string>): (res: Option<Span>) {
    match region
    case None => Some(Span(0, |lines|))
    case Some(r) =>
      match Delimiters(m, r, lines)
      case None => None
      case Some(s) =>
        Some(Span(if r.selectStart.None? || r.includeStart then s.first else s.first + 1,
                  if r.includeEnd then s.last + 1 else s.last))
  }

  /** A region is selected whose end is to be included, and no end delimiter was found. */
  predicate Overrun(m: (string, string) -> bool, region: Option<Region>, lines: seq<string>) {
    region.Some? && region.value.includeEnd && Delimiters(m, region.value, lines).Some?
    && Delimiters(m, region.value, lines).value.last == |lines|
  }

  /** The whole edit on the lines. */
  function Deleted(d: Deletion, region: Option<Region>, lines: seq<string>): seq<string>
    requires !Overrun(d.m, region, lines)
  {
    match Bounds(d.m, region, lines)
    case None => lines
    case Some(s) => lines[..s.first] + Survivors(RuleOf(d), lines[s.first..s.last]) + lines[s.last..]
  }

  method VerifyLineDeletions(file: LineFile, d: Deletion, region: Option<Region>) returns (res: DeletionResult)
    requires file.Valid() && d.chunk != []
    modifies file, file.nodes`next
    ensures file.Valid() && |file.lines| <= old(|file.lines|)
    ensures res == NullDereference <==> Overrun(d.m, region, old(file.lines))
    ensures res == NullDereference ==> file.lines == old(file.lines)
    ensures res.Done? ==> file.lines == Deleted(d, region, old(file.lines))
    ensures file.num_edits == old(file.num_edits) +
              if |file.lines| == old(|file.lines|) then 0 else old(|file.lines|) - |file.lines| + 1
  {
    var begin, end, includeStart, includeEnd := Undefined, Undefined, false, false;
    ghost var b: nat, e: nat := 0, 0;
    if region.Some? {
      var ok;
      ok, begin, end := SelectRegion(d.m, region.value, file);
      if !ok { return Done(false); }
      includeStart, includeEnd := region.value.includeStart, region.value.includeEnd;
      ghost var s := Delimiters(d.m, region.value, file.lines).value;
      b, e := s.first, s.last;
    }
    if !Overrun(d.m, region, file.lines) { MarksAre(d.m, region, file.lines, begin, end, b, e); }
    res := DeletePromisedLinesMatching(file, begin, end, d, includeStart, includeEnd, b, e);
    if res.Done? && res.changed { file.num_edits := file.num_edits + 1; }
  }

  /** The null pointer is followed exactly when a region is selected, its end is to be included, and no
      line after its start (or none at all, without a start pattern) is taken for its end. */
  lemma {:induction false} OverrunExactly(m: (string, string) -> bool, r: Region, lines: seq<string>)
    ensures Overrun(m, Some(r), lines) <==>
              && r.includeEnd
              && (r.selectStart.Some? ==>
                    var b := IndexFrom(m, r.selectStart.value, lines, 0);
                    && b < |lines| && (r.includeStart || b + 1 < |lines|)
                    && (r.selectEnd.Some? ==> forall k | b < k < |lines| :: !m(r.selectEnd.value, lines[k])))
  {
    if r.selectStart.Some? {
      var b := IndexFrom(m, r.selectStart.value, lines, 0);
      if b < |lines| && r.selectEnd.Some? {
        IndexIsFirst(m, r.selectEnd.value, lines, b + 1);
      }
    }
  }

  /** Marks at the delimiters stand for the bounds. */
  lemma {:induction false} MarksAre(m: (string, string) -> bool, region: Option<Region>, lines: seq<string>,
                                    begin: Mark, end: Mark, b: nat, e: nat)
    requires region.None? ==> begin.Undefined? && end.Undefined?
    requires region.Some? ==> Delimiters(m, region.value, lines) == Some(Span(b, e)) && end.At?
    requires region.Some? ==> (begin.Undefined? <==> region.value.selectStart.None?)
    requires !Overrun(m, region, lines)
    ensures var first := First(begin, b, region.Some? && region.value.includeStart);
            var last := Last(end, e, region.Some? && region.value.includeEnd, |lines|);
            first <= last <= |lines| && Bounds(m, region, lines) == Some(Span(first, last))
  {
  }

  // ---------------------------------------------------------------- the second run

  lemma {:induction false} IndexIs(m: (string, string) -> bool, p: string, lines: seq<string>, i: nat, j: nat)
    requires i <= j <= |lines| && (j < |lines| ==> m(p, lines[j])) && forall k | i <= k < j :: !m(p, lines[k])
    ensures IndexFrom(m, p, lines, i) == j
    decreases j - i
  {
    if i < j { IndexIs(m, p, lines, i + 1, j); }
  }

  lemma {:induction false} OthersFrom(d: Deletion, lines: seq<string>, x: string)
    requires |d.chunk| == 1 && x in Others(d, lines)
    ensures x in lines
  {
    if x !in Others(d, lines[1..]) { assert x == lines[0]; } else { OthersFrom(d, lines[1..], x); }
  }

  lemma {:induction false} OthersUnmatched(d: Deletion, q: string, lines: seq<string>, f: nat, l: nat, x: string)
    requires |d.chunk| == 1 && f <= l <= |lines| && x in Others(d, lines[f..l])
    requires forall k | f <= k < l :: !d.m(q, lines[k])
    ensures !d.m(q, x)
  {
    OthersFrom(d, lines[f..l], x);
    var o :| 0 <= o < |lines[f..l]| && lines[f..l][o] == x;
    assert lines[f + o] == x;
  }

  /** When the delimiters are not part of the region they are found again around what is left. */
  lemma {:induction false} DelimitersStay(d: Deletion, r: Region, lines: seq<string>, s: Span, left: seq<string>, after: seq<string>)
    requires |d.chunk| == 1 && r.selectStart.Some? && !r.includeStart
    requires Delimiters(d.m, r, lines) == Some(s)
    requires left == Others(d, lines[s.first + 1..s.last]) && after == lines[..s.first + 1] + left + lines[s.last..]
    ensures Delimiters(d.m, r, after) ==
              if |after| == s.first + 1 then None else Some(Span(s.first, s.first + 1 + |left|))
  {
    var b := s.first;
    IndexIsFirst(d.m, r.selectStart.value, lines, 0);
    if r.selectEnd.Some? { IndexIsFirst(d.m, r.selectEnd.value, lines, b + 1); }
    assert forall k | 0 <= k <= b :: after[k] == lines[k];
    IndexIs(d.m, r.selectStart.value, after, 0, b);
    if r.selectEnd.Some? && |after| > b + 1 {
      var q := r.selectEnd.value;
      var e := b + 1 + |left|;
      forall k | b + 1 <= k < e ensures !d.m(q, after[k]) {
        assert after[k] == left[k - (b + 1)];
        OthersUnmatched(d, q, lines, b + 1, s.last, after[k]);
      }
      if e < |after| { assert after[e] == lines[s.last]; }
      IndexIs(d.m, q, after, b + 1, e);
    }
  }

  lemma {:induction false} Refilter(g: Rule, pre: seq<string>, left: seq<string>, suf: seq<string>)
    requires Survivors(g, left) == left
    ensures var x := pre + left + suf;
            var n := |pre| + |left|;
            x[..|pre|] + Survivors(g, x[|pre|..n]) + x[n..] == x
  {
    var x := pre + left + suf;
    assert x[..|pre|] == pre && x[|pre|..|pre| + |left|] == left && x[|pre| + |left|..] == suf;
  }

  /** A second edit with the same promise changes nothing, whether or not a region is selected, as
      long as the delimiters themselves are not up for deletion. */
  lemma {:induction false} SecondEditIdle(d: Deletion, region: Option<Region>, lines: seq<string>)
    requires |d.chunk| == 1
    requires region.Some? ==> !region.value.includeStart && !region.value.includeEnd
    ensures !Overrun(d.m, region, lines) && !Overrun(d.m, region, Deleted(d, region, lines))
    ensures Deleted(d, region, Deleted(d, region, lines)) == Deleted(d, region, lines)
  {
    if Bounds(d.m, region, lines).Some? {
      var s := Bounds(d.m, region, lines).value;
      var left := Others(d, lines[s.first..s.last]);
      var after := Deleted(d, region, lines);
      DeletionIsFilter(d, lines[s.first..s.last]);
      SecondDeletionIdle(d, lines[s.first..s.last]);
      Refilter(RuleOf(d), lines[..s.first], left, lines[s.last..]);
      if region.Some? && region.value.selectStart.Some? {
        DelimitersStay(d, region.value, lines, Delimiters(d.m, region.value, lines).value, left, after);
      } else {
        assert lines[s.last..] == [];
      }
    }
  }

  // ---------------------------------------------------------------- when the delimiters are included

  /** Some line of `x` begins lines that go. */
  ghost predicate Dooms(g: Rule, x: seq<string>) {
    exists i: nat :: DoomsAt(g, x, i)
  }

  predicate DoomsAt(g: Rule, x: seq<string>, i: nat) {
    i < |x| && 0 < g(x[i..]) <= |x| - i
  }

  lemma {:induction false} DoomsTail(g: Rule, x: seq<string>)
    requires x != []
    ensures Dooms(g, x) <==> DoomsAt(g, x, 0) || Dooms(g, x[1..])
  {
    if Dooms(g, x) && !DoomsAt(g, x, 0) {
      var i: nat :| DoomsAt(g, x, i);
      assert x[1..][i - 1..] == x[i..];
      assert DoomsAt(g, x[1..], i - 1);
    }
    if Dooms(g, x[1..]) {
      var i: nat :| DoomsAt(g, x[1..], i);
      assert x[1..][i..] == x[i + 1..];
      assert DoomsAt(g, x, i + 1);
    }
  }

  /** A run over some lines leaves them as they are exactly when none begins lines that go. */
  lemma {:induction false} SurvivorsIdle(g: Rule, x: seq<string>)
    ensures |Survivors(g, x)| <= |x| && (|Survivors(g, x)| == |x| <==> !Dooms(g, x))
    ensures Survivors(g, x) == x <==> !Dooms(g, x)
    decreases |x|
  {
    if x != [] {
      DoomsTail(g, x);
      assert x[0..] == x && x == [x[0]] + x[1..];
      if 0 < g(x) <= |x| { SurvivorsIdle(g, x[g(x)..]); } else { SurvivorsIdle(g, x[1..]); }
    }
  }

  /** The lines of the region, if one is selected. */
  function RegionOf(m: (string, string) -> bool, region: Option<Region>, lines: seq<string>): seq<string>
    requires !Overrun(m, region, lines)
  {
    match Bounds(m, region, lines)
    case None => []
    case Some(s) => lines[s.first..s.last]
  }

  /** For patterns of any number of lines: an edit is idle exactly when nothing in the region it finds is
      to go. For a second edit this is to be read on what the first one left: the second is idle, with the
      delimiters included or not, if and only if nothing in the region found then is to go. */
  lemma {:induction false} EditIdleExactly(d: Deletion, region: Option<Region>, lines: seq<string>)
    requires !Overrun(d.m, region, lines)
    ensures Deleted(d, region, lines) == lines <==> !Dooms(RuleOf(d), RegionOf(d.m, region, lines))
  {
    if Bounds(d.m, region, lines).Some? {
      var s := Bounds(d.m, region, lines).value;
      var found := lines[s.first..s.last];
      assert RegionOf(d.m, region, lines) == found;
      SurvivorsIdle(RuleOf(d), found);
      SameSplice(lines, s.first, s.last, Survivors(RuleOf(d), found));
    }
  }

  lemma {:induction false} SameSplice(lines: seq<string>, f: nat, l: nat, part: seq<string>)
    requires f <= l <= |lines| && |part| <= l - f
    ensures lines[..f] + part + lines[l..] == lines <==> part == lines[f..l]
  {
    var whole := lines[..f] + part + lines[l..];
    if whole == lines {
      assert |whole| == |lines|;
      assert part == whole[f..f + |part|];
    }
    assert lines == lines[..f] + lines[f..l] + lines[l..];
  }

  // ---------------------------------------------------------------- the second edit, told by the first input

  lemma {:induction false} OthersConcat(d: Deletion, a: seq<string>, b: seq<string>)
    requires |d.chunk| == 1
    ensures Others(d, a + b) == Others(d, a) + Others(d, b)
  {
    if a == [] {
      assert [] + b == b;
    } else {
      assert (a + b)[1..] == a[1..] + b;
      OthersConcat(d, a[1..], b);
    }
  }

  /** The line that ended the region is deleted with it. */
  predicate EndGoes(d: Deletion, r: Region, lines: seq<string>, s: Span)
    requires |d.chunk| == 1
  {
    r.includeEnd && s.last < |lines| && Goes(d, lines[s.last])
  }

  predicate StartGoes(d: Deletion, r: Region, lines: seq<string>, s: Span)
    requires |d.chunk| == 1
  {
    r.includeStart && s.first < |lines| && Goes(d, lines[s.first])
  }

  /** What comes after the region's own lines: from the old end on, or from behind it if it is deleted. */
  function Tail(d: Deletion, r: Region, lines: seq<string>, s: Span): seq<string>
    requires |d.chunk| == 1
  {
    if EndGoes(d, r, lines, s) then lines[s.last + 1..] else if s.last <= |lines| then lines[s.last..] else []
  }

  /** What the first edit leaves from the region's start on. */
  lemma {:induction false} AfterFirst(d: Deletion, r: Region, lines: seq<string>, s: Span)
    requires |d.chunk| == 1 && r.selectStart.Some? && Delimiters(d.m, r, lines) == Some(s)
    requires !Overrun(d.m, Some(r), lines)
    ensures Deleted(d, Some(r), lines) ==
              lines[..s.first] + (if StartGoes(d, r, lines, s) then [] else [lines[s.first]])
              + Others(d, lines[s.first + 1..s.last]) + Tail(d, r, lines, s)
  {
    DeletedIs(d, r, lines, s);
    EditedShape(d, lines, s.first, s.last, r.includeStart, r.includeEnd);
  }

  lemma {:induction false} DeletedIs(d: Deletion, r: Region, lines: seq<string>, s: Span)
    requires |d.chunk| == 1 && r.selectStart.Some? && Delimiters(d.m, r, lines) == Some(s)
    requires !Overrun(d.m, Some(r), lines)
    ensures var first, last := if r.includeStart then s.first else s.first + 1, if r.includeEnd then s.last + 1 else s.last;
            Deleted(d, Some(r), lines) == lines[..first] + Others(d, lines[first..last]) + lines[last..]
  {
    var first, last := if r.includeStart then s.first else s.first + 1, if r.includeEnd then s.last + 1 else s.last;
    DeletionIsFilter(d, lines[first..last]);
  }

  lemma {:induction false} EditedShape(d: Deletion, lines: seq<string>, b: nat, e: nat, withStart: bool, withEnd: bool)
    requires |d.chunk| == 1 && b < e <= |lines| && (withEnd ==> e < |lines|)
    ensures var first, last := if withStart then b else b + 1, if withEnd then e + 1 else e;
            lines[..first] + Others(d, lines[first..last]) + lines[last..] ==
              lines[..b] + (if withStart && Goes(d, lines[b]) then [] else [lines[b]])
              + Others(d, lines[b + 1..e]) + (if withEnd && Goes(d, lines[e]) then lines[e + 1..] else lines[e..])
  {
    var first, last := if withStart then b else b + 1, if withEnd then e + 1 else e;
    var head, foot := if withStart then [lines[b]] else [], if withEnd then [lines[e]] else [];
    OthersOfRegion(d, lines, b, e, withStart, withEnd);
    HeadLeft(d, lines, b, withStart);
    assert Others(d, foot) + lines[last..] == if withEnd && Goes(d, lines[e]) then lines[e + 1..] else lines[e..] by {
      if withEnd { FootLeft(d, lines, e); } else { assert Others(d, []) == []; }
    }
    Glue(lines[..first], Others(d, head), Others(d, lines[b + 1..e]), Others(d, foot), lines[last..]);
  }

  lemma {:induction false} OthersOfRegion(d: Deletion, lines: seq<string>, b: nat, e: nat, withStart: bool, withEnd: bool)
    requires |d.chunk| == 1 && b < e <= |lines| && (withEnd ==> e < |lines|)
    ensures Others(d, lines[if withStart then b else b + 1..if withEnd then e + 1 else e]) ==
              Others(d, if withStart then [lines[b]] else []) + Others(d, lines[b + 1..e])
              + Others(d, if withEnd then [lines[e]] else [])
  {
    var head, foot := if withStart then [lines[b]] else [], if withEnd then [lines[e]] else [];
    RegionParts(lines, b, e, withStart, withEnd);
    OthersConcat(d, head + lines[b + 1..e], foot);
    OthersConcat(d, head, lines[b + 1..e]);
  }

  lemma {:induction false} RegionParts(lines: seq<string>, b: nat, e: nat, withStart: bool, withEnd: bool)
    requires b < e <= |lines| && (withEnd ==> e < |lines|)
    ensures lines[if withStart then b else b + 1..if withEnd then e + 1 else e] ==
              (if withStart then [lines[b]] else []) + lines[b + 1..e] + (if withEnd then [lines[e]] else [])
  {
  }

  lemma {:induction false} HeadLeft(d: Deletion, lines: seq<string>, b: nat, withStart: bool)
    requires |d.chunk| == 1 && b < |lines|
    ensures lines[..if withStart then b else b + 1] + Others(d, if withStart then [lines[b]] else []) ==
              lines[..b] + (if withStart && Goes(d, lines[b]) then [] else [lines[b]])
  {
    OthersOne(d, lines[b]);
    assert Others(d, []) == [] && lines[..b + 1] == lines[..b] + [lines[b]];
  }

  lemma {:induction false} FootLeft(d: Deletion, lines: seq<string>, e: nat)
    requires |d.chunk| == 1 && e < |lines|
    ensures Others(d, [lines[e]]) + lines[e + 1..] == if Goes(d, lines[e]) then lines[e + 1..] else lines[e..]
  {
    OthersOne(d, lines[e]);
    assert lines[e..] == [lines[e]] + lines[e + 1..];
  }

  lemma {:induction false} Glue(p: seq<string>, h: seq<string>, m: seq<string>, f: seq<string>, q: seq<string>)
    ensures p + (h + m + f) + q == (p + h) + m + (f + q)
  {
  }

  lemma {:induction false} OthersOne(d: Deletion, x: string)
    requires |d.chunk| == 1
    ensures Others(d, [x]) == if Goes(d, x) then [] else [x]
  {
    assert [x][1..] == [];
    assert Others(d, []) == [];
  }

  /** How far the second edit looks for an end in the tail. */
  function NextEnd(m: (string, string) -> bool, r: Region, tail: seq<string>): (j: nat)
    ensures j <= |tail|
  {
    if r.selectEnd.None? then |tail| else IndexFrom(m, r.selectEnd.value, tail, 0)
  }

  /** When the start stays, the second edit's delimiters are the old start and the next end. */
  lemma {:induction false} DelimitersKept(d: Deletion, r: Region, lines: seq<string>, s: Span, left: seq<string>, tail: seq<string>)
    requires |d.chunk| == 1 && r.selectStart.Some? && Delimiters(d.m, r, lines) == Some(s)
    requires left == Others(d, lines[s.first + 1..s.last])
    ensures var after := lines[..s.first] + [lines[s.first]] + left + tail;
            Delimiters(d.m, r, after) ==
              if !r.includeStart && left + tail == [] then None
              else Some(Span(s.first, s.first + 1 + |left| + NextEnd(d.m, r, tail)))
  {
    var b := s.first;
    var after := lines[..b] + [lines[b]] + left + tail;
    IndexIsFirst(d.m, r.selectStart.value, lines, 0);
    forall k | 0 <= k <= b ensures after[k] == lines[k] { }
    IndexIs(d.m, r.selectStart.value, after, 0, b);
    if r.selectEnd.Some? {
      IndexIsFirst(d.m, r.selectEnd.value, lines, b + 1);
      EndKept(d, r.selectEnd.value, lines[..b] + [lines[b]], left, tail, lines, b + 1, s.last);
    }
  }

  /** Neither what is before nor what is left of the region ends it: the next end is in the tail. */
  lemma {:induction false} EndKept(d: Deletion, q: string, before: seq<string>, left: seq<string>, tail: seq<string>,
                                   lines: seq<string>, f: nat, l: nat)
    requires |d.chunk| == 1 && f <= l <= |lines| && left == Others(d, lines[f..l]) && forall k | f <= k < l :: !d.m(q, lines[k])
    ensures IndexFrom(d.m, q, before + left + tail, |before|) == |before| + |left| + IndexFrom(d.m, q, tail, 0)
  {
    var after, e := before + left + tail, |before| + |left|;
    forall k | |before| <= k < e ensures !d.m(q, after[k]) {
      assert after[k] == left[k - |before|];
      OthersUnmatched(d, q, lines, f, l, after[k]);
    }
    IndexSkips(d.m, q, after, |before|, e);
    IndexBehind(d.m, q, before + left, tail, 0);
  }

  lemma {:induction false} OthersStay(d: Deletion, lines: seq<string>, k: nat)
    requires |d.chunk| == 1 && k < |Others(d, lines)|
    ensures !Goes(d, Others(d, lines)[k])
  {
    if Goes(d, lines[0]) { OthersStay(d, lines[1..], k); } else if k > 0 { OthersStay(d, lines[1..], k - 1); }
  }

  /** The second edit, when the start is not deleted: it follows the null pointer exactly when its end is to
      be included and the tail has none, unless no region is left; otherwise it is idle exactly when no
      line of the tail up to the next end, with that end if it is included, is to go. */
  lemma {:induction false} SecondEditExactly(d: Deletion, r: Region, lines: seq<string>, s: Span)
    requires |d.chunk| == 1 && r.selectStart.Some? && Delimiters(d.m, r, lines) == Some(s)
    requires !Overrun(d.m, Some(r), lines) && !StartGoes(d, r, lines, s)
    ensures var after, tail := Deleted(d, Some(r), lines), Tail(d, r, lines, s);
            var j := NextEnd(d.m, r, tail);
            && (Overrun(d.m, Some(r), after) <==>
                  r.includeEnd && j == |tail| && (r.includeStart || |after| > s.first + 1))
            && (!Overrun(d.m, Some(r), after) ==>
                  (Deleted(d, Some(r), after) == after <==>
                     forall k | 0 <= k < |tail| && (k < j || (r.includeEnd && k == j)) :: !Goes(d, tail[k])))
  {
    var after, tail := Deleted(d, Some(r), lines), Tail(d, r, lines, s);
    var left := Others(d, lines[s.first + 1..s.last]);
    AfterFirst(d, r, lines, s);
    DelimitersKept(d, r, lines, s, left, tail);
    assert after == lines[..s.first] + [lines[s.first]] + left + tail;
    if !Overrun(d.m, Some(r), after) {
      SecondRegion(d, r, lines, s, left, tail, after);
    }
  }

  lemma {:induction false} SecondRegion(d: Deletion, r: Region, lines: seq<string>, s: Span, left: seq<string>, tail: seq<string>, after: seq<string>)
    requires |d.chunk| == 1 && r.selectStart.Some? && s.first < s.last <= |lines| && !StartGoes(d, r, lines, s)
    requires left == Others(d, lines[s.first + 1..s.last]) && after == lines[..s.first] + [lines[s.first]] + left + tail
    requires !Overrun(d.m, Some(r), after)
    requires Delimiters(d.m, r, after) ==
               if !r.includeStart && left + tail == [] then None
               else Some(Span(s.first, s.first + 1 + |left| + NextEnd(d.m, r, tail)))
    ensures var j := NextEnd(d.m, r, tail);
            Deleted(d, Some(r), after) == after <==>
              forall k | 0 <= k < |tail| && (k < j || (r.includeEnd && k == j)) :: !Goes(d, tail[k])
  {
    EditIdleExactly(d, Some(r), after);
    if Delimiters(d.m, r, after).Some? {
      var j := NextEnd(d.m, r, tail);
      var upTo := if r.includeEnd then j + 1 else j;
      var head := if r.includeStart then [lines[s.first]] else [];
      RegionFound(d.m, r, lines[..s.first], lines[s.first], left, tail, upTo);
      RegionIdle(d, head, left, lines[s.first + 1..s.last], tail, upTo);
    } else {
      assert tail == [] && RegionOf(d.m, Some(r), after) == [];
    }
  }

  lemma {:induction false} RegionIdle(d: Deletion, head: seq<string>, left: seq<string>, mid: seq<string>, tail: seq<string>, upTo: nat)
    requires |d.chunk| == 1 && upTo <= |tail| && left == Others(d, mid) && forall k | 0 <= k < |head| :: !Goes(d, head[k])
    ensures Dooms(RuleOf(d), head + left + tail[..upTo]) <==> exists k :: 0 <= k < upTo && Goes(d, tail[k])
  {
    var part := tail[..upTo];
    SingleDooms(d, head + left + part);
    forall k | 0 <= k < |left| ensures !Goes(d, left[k]) { OthersStay(d, mid, k); }
    GoesInTail(d, head, left, part);
    assert forall k | 0 <= k < upTo :: part[k] == tail[k];
  }

  lemma {:induction false} RegionFound(m: (string, string) -> bool, r: Region, before: seq<string>, start: string,
                                       left: seq<string>, tail: seq<string>, upTo: nat)
    requires r.selectStart.Some? && upTo == if r.includeEnd then NextEnd(m, r, tail) + 1 else NextEnd(m, r, tail)
    requires var after := before + [start] + left + tail;
             && !Overrun(m, Some(r), after)
             && Delimiters(m, r, after) == Some(Span(|before|, |before| + 1 + |left| + NextEnd(m, r, tail)))
    ensures upTo <= |tail|
    ensures RegionOf(m, Some(r), before + [start] + left + tail) ==
              (if r.includeStart then [start] else []) + left + tail[..upTo]
  {
    FoundIs(before, start, left, tail, r.includeStart, upTo);
  }

  lemma {:induction false} FoundIs(before: seq<string>, start: string, left: seq<string>, tail: seq<string>, withStart: bool, upTo: nat)
    requires upTo <= |tail|
    ensures var after := before + [start] + left + tail;
            var first, last := if withStart then |before| else |before| + 1, |before| + 1 + |left| + upTo;
            after[first..last] == (if withStart then [start] else []) + left + tail[..upTo]
  {
  }

  lemma {:induction false} GoesInTail(d: Deletion, head: seq<string>, left: seq<string>, tail: seq<string>)
    requires |d.chunk| == 1 && (forall k | 0 <= k < |head| :: !Goes(d, head[k])) && (forall k | 0 <= k < |left| :: !Goes(d, left[k]))
    ensures var all := head + left + tail;
            (exists k :: 0 <= k < |all| && Goes(d, all[k])) <==> exists k :: 0 <= k < |tail| && Goes(d, tail[k])
  {
    var all := head + left + tail;
    forall k | 0 <= k < |tail| ensures all[|head| + |left| + k] == tail[k] { }
    if k :| 0 <= k < |tail| && Goes(d, tail[k]) {
      assert Goes(d, all[|head| + |left| + k]);
    }
    if k :| 0 <= k < |all| && Goes(d, all[k]) {
      assert k >= |head| + |left| && all[k] == tail[k - |head| - |left|];
    }
  }

  lemma {:induction false} SingleDooms(d: Deletion, x: seq<string>)
    requires |d.chunk| == 1
    ensures Dooms(RuleOf(d), x) <==> exists k :: 0 <= k < |x| && Goes(d, x[k])
  {
    forall i: nat | i < |x| ensures DoomsAt(RuleOf(d), x, i) <==> Goes(d, x[i]) {
      SingleDoom(d, x[i..]);
      assert x[i..][0] == x[i];
    }
  }

  /** When the start is deleted, the second edit is an edit of what is left behind it: the lines before are
      no part of it. */
  lemma {:induction false} SecondEditMovesOn(d: Deletion, r: Region, lines: seq<string>, s: Span)
    requires |d.chunk| == 1 && r.selectStart.Some? && Delimiters(d.m, r, lines) == Some(s)
    requires !Overrun(d.m, Some(r), lines) && StartGoes(d, r, lines, s)
    ensures var after := Deleted(d, Some(r), lines);
            var rest := Others(d, lines[s.first + 1..s.last]) + Tail(d, r, lines, s);
            && (Overrun(d.m, Some(r), after) <==> Overrun(d.m, Some(r), rest))
            && (!Overrun(d.m, Some(r), after) ==> (Deleted(d, Some(r), after) == after <==> Deleted(d, Some(r), rest) == rest))
  {
    var rest := Others(d, lines[s.first + 1..s.last]) + Tail(d, r, lines, s);
    AfterFirst(d, r, lines, s);
    assert Deleted(d, Some(r), lines) == lines[..s.first] + rest;
    IndexIsFirst(d.m, r.selectStart.value, lines, 0);
    EditBehind(d, r, lines[..s.first], rest);
  }

  lemma {:induction false} IndexBehind(m: (string, string) -> bool, p: string, a: seq<string>, t: seq<string>, i: nat)
    requires i <= |t|
    ensures IndexFrom(m, p, a + t, |a| + i) == |a| + IndexFrom(m, p, t, i)
    decreases |t| - i
  {
    if i < |t| {
      assert (a + t)[|a| + i] == t[i];
      IndexBehind(m, p, a, t, i + 1);
    }
  }

  lemma {:induction false} IndexSkips(m: (string, string) -> bool, p: string, lines: seq<string>, i: nat, j: nat)
    requires i <= j <= |lines| && forall k | i <= k < j :: !m(p, lines[k])
    ensures IndexFrom(m, p, lines, i) == IndexFrom(m, p, lines, j)
    decreases j - i
  {
    if i < j { IndexSkips(m, p, lines, i + 1, j); }
  }

  /** Lines without a start before the others do not matter. */
  lemma {:induction false} EditBehind(d: Deletion, r: Region, a: seq<string>, t: seq<string>)
    requires |d.chunk| == 1 && r.selectStart.Some? && forall k | 0 <= k < |a| :: !d.m(r.selectStart.value, a[k])
    ensures Overrun(d.m, Some(r), a + t) <==> Overrun(d.m, Some(r), t)
    ensures !Overrun(d.m, Some(r), t) ==> (Deleted(d, Some(r), a + t) == a + t <==> Deleted(d, Some(r), t) == t)
  {
    DelimitersBehind(d.m, r, a, t);
    if !Overrun(d.m, Some(r), t) {
      RegionBehind(d, r, a, t);
      EditIdleExactly(d, Some(r), a + t);
      EditIdleExactly(d, Some(r), t);
    }
  }

  lemma {:induction false} RegionBehind(d: Deletion, r: Region, a: seq<string>, t: seq<string>)
    requires r.selectStart.Some? && !Overrun(d.m, Some(r), t) && !Overrun(d.m, Some(r), a + t)
    requires Delimiters(d.m, r, a + t) ==
               match Delimiters(d.m, r, t)
               case None => None
               case Some(s) => Some(Span(|a| + s.first, |a| + s.last))
    ensures RegionOf(d.m, Some(r), a + t) == RegionOf(d.m, Some(r), t)
  {
    if Delimiters(d.m, r, t).Some? {
      var s := Bounds(d.m, Some(r), t).value;
      SliceBehind(a, t, s.first, s.last);
    }
  }

  lemma {:induction false} SliceBehind(a: seq<string>, t: seq<string>, f: nat, l: nat)
    requires f <= l <= |t|
    ensures (a + t)[|a| + f..|a| + l] == t[f..l]
  {
  }

  lemma {:induction false} DelimitersBehind(m: (string, string) -> bool, r: Region, a: seq<string>, t: seq<string>)
    requires r.selectStart.Some? && forall k | 0 <= k < |a| :: !m(r.selectStart.value, a[k])
    ensures Delimiters(m, r, a + t) ==
              match Delimiters(m, r, t)
              case None => None
              case Some(s) => Some(Span(|a| + s.first, |a| + s.last))
  {
    var w, p := a + t, r.selectStart.value;
    forall k | 0 <= k < |a| ensures !m(p, w[k]) { assert w[k] == a[k]; }
    IndexSkips(m, p, w, 0, |a|);
    IndexBehind(m, p, a, t, 0);
    var b := IndexFrom(m, p, t, 0);
    if r.selectEnd.Some? && b < |t| { IndexBehind(m, r.selectEnd.value, a, t, b + 1); }
  }

  /** Deleting every line after "s" up to and with the first "e". */
  function DeleteToEnd(): Deletion {
    Deletion((p, l) => p == l || p == ['*'], [['*']], l => true, false, false)
  }

  const S_TO_E: Region := Region(Some(['s']), Some(['e']), false, true)

  /** The first run deletes the end delimiter; the second finds the start again, but no end, and follows
      the null pointer. */
  lemma {:induction false} SecondEditOverruns(x: string)
    requires x != ['s'] && x != ['e']
    ensures var d, lines := DeleteToEnd(), [['s'], ['e'], x];
            && !Overrun(d.m, Some(S_TO_E), lines)
            && Deleted(d, Some(S_TO_E), lines) == [['s'], x]
            && Overrun(d.m, Some(S_TO_E), [['s'], x])
  {
    var d, lines := DeleteToEnd(), [['s'], ['e'], x];
    IndexIs(d.m, ['s'], lines, 0, 0);
    IndexIs(d.m, ['e'], lines, 1, 1);
    assert Delimiters(d.m, S_TO_E, lines) == Some(Span(0, 1));
    assert lines[1..2] == [['e']];
    DeletionIsFilter(d, [['e']]);
    assert Others(d, [['e']]) == [] by { assert [['e']][1..] == []; }
    assert lines[..1] == [['s']] && lines[2..] == [x];
    var after := [['s'], x];
    IndexIs(d.m, ['s'], after, 0, 0);
    IndexIs(d.m, ['e'], after, 1, 2);
  }
}
