/** Replacing patterns in lines (ReplacePatterns of cf-agent/files_editline.c). The pattern is given by
    the first match BlockTextMatch finds in a line, the replacement by the text it expands to there. */
module LineReplacement {
  import opened Common
  import opened EditLines

  const CF_MAX_REPLACE: nat := 20

  datatype Match = Match(startOff: nat, endOff: nat)

  /** Matches lie inside the line. */
  ghost predicate Proper(find: string -> Option<Match>) {
    forall s | find(s).Some? :: find(s).value.startOff <= find(s).value.endOff <= |s|
  }

  type Finder = find: string -> Option<Match> | Proper(find) witness (s => None)

  datatype Replacement = Replacement(find: Finder, value: string -> string, pattern: string, onceOnly: bool, warn: bool)

  predicate NotAnchored(p: string) {
    p == [] || p[0] != '^' || p[|p| - 1] != '$'
  }

  function Substituted(r: Replacement, line: string): string
    requires r.find(line).Some?
  {
    var m := r.find(line).value;
    line[..m.startOff] + r.value(line) + line[m.endOff..]
  }

  // ---------------------------------------------------------------- one line

  /** The buffer after the loop over one line, and the number of substitutions made. */
  datatype Outcome = Outcome(buf: string, count: nat)

  /** The loop over one line: `count` substitutions so far, the last match was `matchLen` long. */
  function Rewrite(r: Replacement, buf: string, count: nat, matchLen: nat): Outcome
    requires count <= CF_MAX_REPLACE
    decreases CF_MAX_REPLACE - count
  {
    match r.find(buf)
    case None => Outcome(buf, count)
    case Some(m) =>
      if matchLen == |buf| || count == CF_MAX_REPLACE then Outcome(buf, count)
      else if r.onceOnly then Outcome(Substituted(r, buf), count + 1)
      else Rewrite(r, Substituted(r, buf), count + 1, m.endOff - m.startOff)
  }

  method RewriteLine(r: Replacement, name: string) returns (buf: string, replaced: bool)
    ensures buf == Rewrite(r, name, 0, 0).buf && (replaced <==> Rewrite(r, name, 0, 0).count > 0)
  {
    ghost var out := Rewrite(r, name, 0, 0);
    buf, replaced := name, false;
    var cutoff: nat, matchLen: nat := 1, 0;
    while true
      invariant 1 <= cutoff <= CF_MAX_REPLACE + 1 && (replaced <==> cutoff > 1)
      invariant out == Rewrite(r, buf, cutoff - 1, matchLen)
      decreases CF_MAX_REPLACE + 1 - cutoff
    {
      var found := r.find(buf);
      if found.None? || matchLen == |buf| { break; }
      if cutoff > CF_MAX_REPLACE { break; }
      cutoff := cutoff + 1;
      matchLen := found.value.endOff - found.value.startOff;
      buf := Substituted(r, buf);
      replaced := true;
      if r.onceOnly { break; }
    }
  }

  /** The line after `n` substitutions. */
  ghost predicate Reaches(r: Replacement, line: string, n: nat, buf: string)
    decreases n
  {
    if n == 0 then buf == line
    else r.find(line).Some? && Reaches(r, Substituted(r, line), n - 1, buf)
  }

  /** At most 20 (CF_MAX_REPLACE) successive substitutions lead to the buffer. When it still matches, the
      limit was reached, the pattern had matched a whole text as long as the buffer, or only the first
      occurrence is replaced. */
  lemma {:induction false} RewriteBounded(r: Replacement, buf: string, count: nat, matchLen: nat)
    requires count <= CF_MAX_REPLACE
    ensures var o := Rewrite(r, buf, count, matchLen);
            && count <= o.count <= 20
            && Reaches(r, buf, o.count - count, o.buf)
            && (r.onceOnly ==> o.count <= count + 1)
    decreases CF_MAX_REPLACE - count
  {
    if r.find(buf).Some? && matchLen != |buf| && count < CF_MAX_REPLACE && !r.onceOnly {
      var m := r.find(buf).value;
      RewriteBounded(r, Substituted(r, buf), count + 1, m.endOff - m.startOff);
    }
  }

  /** One substitution, character by character: what is before and behind the match stays, in its place
      and shifted, and the value stands between. */
  lemma {:induction false} SubstitutionKeeps(r: Replacement, line: string, m: Match)
    requires r.find(line) == Some(m)
    ensures var out, v := Substituted(r, line), r.value(line);
            && |out| == |line| - (m.endOff - m.startOff) + |v|
            && (forall k | 0 <= k < m.startOff :: out[k] == line[k])
            && (forall k | 0 <= k < |v| :: out[m.startOff + k] == v[k])
            && (forall k | m.endOff <= k < |line| :: out[k - m.endOff + m.startOff + |v|] == line[k])
  {
  }

  // ---------------------------------------------------------------- the list

  /** What happens to a line: the run stops before it, because what comes out still matches; it
      stays; or it is rewritten. */
  datatype Change = Stuck | Same | New(text: string)

  function LineChange(r: Replacement, line: string): Change {
    var o := Rewrite(r, line, 0, 0);
    if NotAnchored(r.pattern) && r.find(o.buf).Some? then Stuck
    else if o.count > 0 && !r.warn then New(o.buf)
    else Same
  }

  type Rule = string -> Change

  function RuleOf(r: Replacement): Rule {
    line => LineChange(r, line)
  }

  /** The lines, and the edit counter. */
  datatype Run = Run(lines: seq<string>, edits: nat)

  /** The loop over the list, from position `i` up to `e`. */
  function Replaced(g: Rule, once: bool, lines: seq<string>, edits: nat, i: nat, e: nat): Run
    requires i <= e <= |lines|
    decreases e - i
  {
    if i == e then Run(lines, edits)
    else
      match g(lines[i])
      case Stuck => Run(lines, edits)
      case Same => Replaced(g, once, lines, edits, i + 1, e)
      case New(text) =>
        if once then Run(lines[i := text], edits + 1) else Replaced(g, once, lines[i := text], edits + 1, i + 1, e)
  }

  ghost predicate Ruled(r: Replacement, g: Rule) {
    forall line {:trigger LineChange(r, line)} :: g(line) == LineChange(r, line)
  }

  /** What one line becomes. */
  method ChangeOf(r: Replacement, name: string) returns (change: Change)
    ensures change == LineChange(r, name)
  {
    var buf, replaced := RewriteLine(r, name);
    if NotAnchored(r.pattern) && r.find(buf).Some? {
      change := Stuck;
    } else {
      change := if replaced && !r.warn then New(buf) else Same;
    }
  }

  /** One turn of the loop over the list, on the line at position `i`. */
  method ReplaceLine(file: LineFile, ip: Item, r: Replacement, ghost g: Rule, ghost i: nat, ghost e: nat)
    returns (stop: bool, changed: bool)
    requires file.Valid() && i < e <= |file.items| && ip == file.items[i] && Ruled(r, g)
    modifies file, file.nodes`name
    ensures file.Valid() && file.items == old(file.items) && file.nodes == old(file.nodes)
    ensures Replaced(g, r.onceOnly, old(file.lines), old(file.num_edits), i, e) ==
              if stop then Run(file.lines, file.num_edits) else Replaced(g, r.onceOnly, file.lines, file.num_edits, i + 1, e)
    ensures file.num_edits == old(file.num_edits) + if changed then 1 else 0
  {
    NameAt(file, i);
    var change := ChangeOf(r, ip.name);
    ReplacedStep(g, r.onceOnly, file.lines, file.num_edits, i, e, change);
    stop, changed := ApplyChange(file, ip, change, r.onceOnly, i);
  }

  lemma {:induction false} NameAt(file: LineFile, i: nat)
    requires file.Valid() && i < |file.items|
    ensures i < |file.lines| == |file.items| && file.lines[i] == file.items[i].name
  {
  }

  /** The new text is put in place, and whether the run ends there. */
  method ApplyChange(file: LineFile, ip: Item, change: Change, once: bool, ghost i: nat) returns (stop: bool, changed: bool)
    requires file.Valid() && i < |file.items| && ip == file.items[i] && |file.lines| == |file.items|
    modifies file, file.nodes`name
    ensures file.Valid() && file.items == old(file.items) && file.nodes == old(file.nodes)
    ensures file.lines == if change.New? then old(file.lines)[i := change.text] else old(file.lines)
    ensures changed == change.New? && stop == (change.Stuck? || (change.New? && once))
    ensures file.num_edits == old(file.num_edits) + if changed then 1 else 0
  {
    stop, changed := change.Stuck?, false;
    if change.New? {
      file.SetName(ip, change.text, i);
      changed := true;
      stop := once;
    }
  }

  lemma {:induction false} ReplacedStep(g: Rule, once: bool, lines: seq<string>, edits: nat, i: nat, e: nat, change: Change)
    requires i < e <= |lines| && g(lines[i]) == change
    ensures Replaced(g, once, lines, edits, i, e) ==
              match change
              case Stuck => Run(lines, edits)
              case Same => Replaced(g, once, lines, edits, i + 1, e)
              case New(text) =>
                if once then Run(lines[i := text], edits + 1) else Replaced(g, once, lines[i := text], edits + 1, i + 1, e)
  {
  }

  /** The loop starts at a marker that is no node, and reads it. */
  datatype ReplaceResult = WildPointer | Done(changed: bool)

  /** A region that was selected without a start pattern begins at CF_UNDEFINED_ITEM. */
  method ReplacePatterns(file: LineFile, begin: Mark, end: Item?, r: Replacement, ghost b: nat, ghost e: nat)
    returns (res: ReplaceResult)
    requires file.Valid() && b <= e <= |file.items|
    requires (begin.At? ==> begin.item == Node(file.items, b)) && end == Node(file.items, e)
    modifies file, file.nodes`name
    ensures file.Valid() && file.items == old(file.items)
    ensures res == WildPointer <==> begin.Undefined?
    ensures Run(file.lines, file.num_edits) ==
              if begin.Undefined? then Run(old(file.lines), old(file.num_edits))
              else Replaced(RuleOf(r), r.onceOnly, old(file.lines), old(file.num_edits), b, e)
    ensures res.Done? ==> (res.changed <==> file.num_edits > old(file.num_edits))
  {
    if begin.Undefined? { return WildPointer; }
    var changed := ReplaceFrom(file, begin.item, end, r, RuleOf(r), b, e);
    res := Done(changed);
  }

  /** The loop over the list. */
  method ReplaceFrom(file: LineFile, begin: Item?, end: Item?, r: Replacement, ghost g: Rule, ghost b: nat, ghost e: nat)
    returns (retval: bool)
    requires file.Valid() && b <= e <= |file.items| && Ruled(r, g)
    requires begin == Node(file.items, b) && end == Node(file.items, e)
    modifies file, file.nodes`name
    ensures file.Valid() && file.items == old(file.items)
    ensures Run(file.lines, file.num_edits) == Replaced(g, r.onceOnly, old(file.lines), old(file.num_edits), b, e)
    ensures retval <==> file.num_edits > old(file.num_edits)
  {
    var ip := begin;
    ghost var i: nat := b;
    retval := false;
    while ip != null && ip != end
      invariant file.Valid() && file.items == old(file.items) && file.nodes == old(file.nodes)
      invariant b <= i <= e && ip == Node(file.items, i)
      invariant Replaced(g, r.onceOnly, file.lines, file.num_edits, i, e) ==
                Replaced(g, r.onceOnly, old(file.lines), old(file.num_edits), b, e)
      invariant file.num_edits >= old(file.num_edits) && (retval <==> file.num_edits > old(file.num_edits))
      decreases e - i
    {
      var stop, changed := ReplaceLine(file, ip, r, g, i, e);
      retval := retval || changed;
      if stop { return; }
      ip := ip.next;
      i := i + 1;
    }
    assert i < e < |file.items| ==> Differ(file.items, i, e);
  }

  // ---------------------------------------------------------------- what a run achieves

  /** The position of the first line the run stops before. */
  function StopAt(g: Rule, lines: seq<string>, i: nat, e: nat): (k: nat)
    requires i <= e <= |lines|
    ensures i <= k <= e
    decreases e - i
  {
    if i == e || g(lines[i]).Stuck? then i else StopAt(g, lines, i + 1, e)
  }

  function Changed(g: Rule, line: string): string {
    if g(line).New? then g(line).text else line
  }

  /** The number of lines rewritten between two positions. */
  function Rewritten(g: Rule, lines: seq<string>, i: nat, e: nat): nat
    requires i <= e <= |lines|
    decreases e - i
  {
    if i == e then 0 else (if g(lines[i]).New? then 1 else 0) + Rewritten(g, lines, i + 1, e)
  }

  lemma {:induction false} StopAtFrame(g: Rule, s: seq<string>, t: seq<string>, i: nat, e: nat)
    requires i <= e <= |s| == |t| && s[i..] == t[i..]
    ensures StopAt(g, s, i, e) == StopAt(g, t, i, e) && forall k | i <= k <= e :: Rewritten(g, s, i, k) == Rewritten(g, t, i, k)
    decreases e - i
  {
    if i < e {
      assert s[i] == s[i..][0] == t[i..][0] == t[i];
      assert s[i + 1..] == s[i..][1..] == t[i..][1..] == t[i + 1..];
      StopAtFrame(g, s, t, i + 1, e);
      forall k | i <= k <= e ensures Rewritten(g, s, i, k) == Rewritten(g, t, i, k) {
        if i < k { assert Rewritten(g, s, i + 1, k) == Rewritten(g, t, i + 1, k); }
      }
    }
  }

  /** Every line up to the first one that does not converge gets its own rewriting, that line and all
      others stay, and the counter grows by the number of rewritten lines. */
  lemma {:induction false} EachLineAlone(g: Rule, lines: seq<string>, edits: nat, i: nat, e: nat)
    requires i <= e <= |lines|
    ensures var run := Replaced(g, false, lines, edits, i, e);
            var stop := StopAt(g, lines, i, e);
            && |run.lines| == |lines| && run.edits == edits + Rewritten(g, lines, i, stop)
            && forall k | 0 <= k < |lines| :: run.lines[k] == if i <= k < stop then Changed(g, lines[k]) else lines[k]
    decreases e - i
  {
    if i < e && !g(lines[i]).Stuck? {
      var next := lines[i := Changed(g, lines[i])];
      var n := edits + if g(lines[i]).New? then 1 else 0;
      assert next == if g(lines[i]).New? then lines[i := g(lines[i]).text] else lines;
      EachLineAlone(g, next, n, i + 1, e);
      StopAtFrame(g, next, lines, i + 1, e);
    }
  }

  /** A promise that only warns changes no line and counts no edit. */
  lemma {:induction false} WarningIdle(r: Replacement, once: bool, lines: seq<string>, edits: nat, i: nat, e: nat)
    requires r.warn && i <= e <= |lines|
    ensures Replaced(RuleOf(r), once, lines, edits, i, e) == Run(lines, edits)
    decreases e - i
  {
    if i < e {
      assert !LineChange(r, lines[i]).New?;
      WarningIdle(r, once, lines, edits, i + 1, e);
    }
  }

  /** A line that does not match is left alone. */
  lemma {:induction false} UnmatchedStays(r: Replacement, line: string)
    requires r.find(line).None?
    ensures LineChange(r, line) == Same
  {
  }

  lemma {:induction false} Stable(g: Rule, lines: seq<string>, edits: nat, i: nat, e: nat)
    requires i <= e <= |lines|
    requires forall k | i <= k < StopAt(g, lines, i, e) :: g(lines[k]) == Same
    ensures Replaced(g, false, lines, edits, i, e) == Run(lines, edits)
    decreases e - i
  {
    if i < e && !g(lines[i]).Stuck? {
      assert g(lines[i]) == Same;
      Stable(g, lines, edits, i + 1, e);
    }
  }

  lemma {:induction false} StopAtIs(g: Rule, lines: seq<string>, i: nat, e: nat, stop: nat)
    requires i <= stop <= e <= |lines|
    requires (stop < e ==> g(lines[stop]).Stuck?) && forall k | i <= k < stop :: !g(lines[k]).Stuck?
    ensures StopAt(g, lines, i, e) == stop
    decreases stop - i
  {
    if i < stop { StopAtIs(g, lines, i + 1, e, stop); }
  }

  lemma {:induction false} StopAtFirst(g: Rule, lines: seq<string>, i: nat, e: nat)
    requires i <= e <= |lines|
    ensures var stop := StopAt(g, lines, i, e);
            (stop < e ==> g(lines[stop]).Stuck?) && forall k | i <= k < stop :: !g(lines[k]).Stuck?
    decreases e - i
  {
    if i < e && !g(lines[i]).Stuck? { StopAtFirst(g, lines, i + 1, e); }
  }

  /** For an unanchored pattern in fix mode nothing before the stopping line matches any more. */
  lemma {:induction false} NothingLeftToMatch(r: Replacement, lines: seq<string>, edits: nat, i: nat, e: nat)
    requires i <= e <= |lines| && NotAnchored(r.pattern) && !r.warn
    ensures var run := Replaced(RuleOf(r), false, lines, edits, i, e);
            forall k | i <= k < StopAt(RuleOf(r), lines, i, e) :: k < |run.lines| && r.find(run.lines[k]).None?
  {
    var g := RuleOf(r);
    EachLineAlone(g, lines, edits, i, e);
    StopAtFirst(g, lines, i, e);
    forall k | i <= k < StopAt(g, lines, i, e) ensures r.find(Changed(g, lines[k])).None? {
      NotStuckUnmatched(r, lines[k]);
    }
  }

  lemma {:induction false} NotStuckUnmatched(r: Replacement, line: string)
    requires NotAnchored(r.pattern) && !r.warn && !LineChange(r, line).Stuck?
    ensures r.find(Changed(RuleOf(r), line)).None?
  {
    RewriteBounded(r, line, 0, 0);
  }

  /** For an unanchored pattern a second run changes nothing, even when the first was interrupted by
      a line that does not converge. */
  lemma {:induction false} SecondReplacementIdle(r: Replacement, lines: seq<string>, edits: nat, i: nat, e: nat)
    requires i <= e <= |lines| && NotAnchored(r.pattern) && !r.onceOnly
    ensures var run := Replaced(RuleOf(r), false, lines, edits, i, e);
            |run.lines| == |lines| && Replaced(RuleOf(r), false, run.lines, run.edits, i, e) == run
  {
    var g := RuleOf(r);
    var run := Replaced(g, false, lines, edits, i, e);
    var stop := StopAt(g, lines, i, e);
    EachLineAlone(g, lines, edits, i, e);
    StopAtFirst(g, lines, i, e);
    forall k | i <= k < stop ensures g(run.lines[k]) == Same {
      assert run.lines[k] == Changed(g, lines[k]);
      ChangedStays(r, lines[k]);
    }
    StopAtIs(g, run.lines, i, e, stop);
    Stable(g, run.lines, run.edits, i, e);
  }

  lemma {:induction false} ChangedStays(r: Replacement, line: string)
    requires NotAnchored(r.pattern) && !LineChange(r, line).Stuck?
    ensures LineChange(r, Changed(RuleOf(r), line)) == Same
  {
    if LineChange(r, line).New? { UnmatchedStays(r, LineChange(r, line).text); }
  }

  // ---------------------------------------------------------------- exactly when a second run is idle

  /** The text is left alone by a further run: it no longer matches, or is empty. */
  predicate Settled(r: Replacement, text: string) {
    r.find(text).None? || text == []
  }

  lemma {:induction false} SettledStays(r: Replacement, text: string)
    requires !r.warn
    ensures Settled(r, text) && !LineChange(r, text).Stuck? ==> LineChange(r, text) == Same
    ensures !Settled(r, text) ==> LineChange(r, text) != Same
  {
    if !Settled(r, text) {
      var m := r.find(text).value;
      var next := if r.onceOnly then Outcome(Substituted(r, text), 1)
                  else Rewrite(r, Substituted(r, text), 1, m.endOff - m.startOff);
      assert Rewrite(r, text, 0, 0) == next;
      if !r.onceOnly { RewriteBounded(r, Substituted(r, text), 1, m.endOff - m.startOff); }
    }
  }

  /** The text a line has after a run that did not stop at it. */
  lemma {:induction false} ChangedIsRewritten(r: Replacement, line: string)
    requires !r.warn && !LineChange(r, line).Stuck?
    ensures Changed(RuleOf(r), line) == Rewrite(r, line, 0, 0).buf
    ensures NotAnchored(r.pattern) ==> LineChange(r, Changed(RuleOf(r), line)) == Same
    ensures !NotAnchored(r.pattern) ==> !LineChange(r, Changed(RuleOf(r), line)).Stuck?
  {
    RewriteBounded(r, line, 0, 0);
    if NotAnchored(r.pattern) { ChangedStays(r, line); }
  }

  lemma {:induction false} NotStable(g: Rule, lines: seq<string>, edits: nat, i: nat, e: nat, k: nat)
    requires i <= k < e <= |lines| && g(lines[k]).New? && forall j | i <= j < k :: !g(lines[j]).Stuck?
    ensures Replaced(g, false, lines, edits, i, e).edits > edits
    decreases k - i
  {
    EachLineAlone(g, lines, edits, i, e);
    StopAtFirst(g, lines, i, e);
    assert k < StopAt(g, lines, i, e);
    RewrittenCounts(g, lines, i, StopAt(g, lines, i, e), k);
  }

  lemma {:induction false} RewrittenCounts(g: Rule, lines: seq<string>, i: nat, e: nat, k: nat)
    requires i <= k < e <= |lines| && g(lines[k]).New?
    ensures Rewritten(g, lines, i, e) > 0
    decreases k - i
  {
    if i < k { RewrittenCounts(g, lines, i + 1, e, k); }
  }

  /** For every pattern, with all occurrences replaced: a second run makes no edit if and only if every
      line before the stopping line is rewritten to a text that no longer matches, or to an empty one. */
  lemma {:induction false} SecondRunExactly(r: Replacement, lines: seq<string>, edits: nat, i: nat, e: nat)
    requires i <= e <= |lines| && !r.onceOnly && !r.warn
    ensures var run := Replaced(RuleOf(r), false, lines, edits, i, e);
            && |run.lines| == |lines|
            && (Replaced(RuleOf(r), false, run.lines, run.edits, i, e) == run <==>
                  forall k | i <= k < StopAt(RuleOf(r), lines, i, e) :: Settled(r, Rewrite(r, lines[k], 0, 0).buf))
  {
    var g := RuleOf(r);
    var run := Replaced(g, false, lines, edits, i, e);
    var stop := StopAt(g, lines, i, e);
    EachLineAlone(g, lines, edits, i, e);
    StopAtFirst(g, lines, i, e);
    forall k | i <= k < stop
      ensures run.lines[k] == Rewrite(r, lines[k], 0, 0).buf && !g(run.lines[k]).Stuck?
      ensures Settled(r, run.lines[k]) <==> g(run.lines[k]) == Same
    {
      ChangedIsRewritten(r, lines[k]);
      SettledStays(r, run.lines[k]);
    }
    StopAtIs(g, run.lines, i, e, stop);
    if forall k | i <= k < stop :: Settled(r, run.lines[k]) {
      Stable(g, run.lines, run.edits, i, e);
    } else {
      var k :| i <= k < stop && !Settled(r, run.lines[k]);
      NotStable(g, run.lines, run.edits, i, e, k);
    }
  }

  // ---------------------------------------------------------------- the first occurrence only

  /** The first line that does not stay. */
  function Active(g: Rule, lines: seq<string>, i: nat, e: nat): (k: nat)
    requires i <= e <= |lines|
    ensures i <= k <= e && (k < e ==> g(lines[k]) != Same)
    decreases e - i
  {
    if i == e || g(lines[i]) != Same then i else Active(g, lines, i + 1, e)
  }

  /** The run finds nothing to rewrite between two positions. */
  predicate Quiet(g: Rule, lines: seq<string>, i: nat, e: nat)
    requires i <= e <= |lines|
  {
    var k := Active(g, lines, i, e);
    k == e || g(lines[k]).Stuck?
  }

  lemma {:induction false} OnceIs(g: Rule, lines: seq<string>, edits: nat, i: nat, e: nat)
    requires i <= e <= |lines|
    ensures var k := Active(g, lines, i, e);
            Replaced(g, true, lines, edits, i, e) ==
              if Quiet(g, lines, i, e) then Run(lines, edits) else Run(lines[k := g(lines[k]).text], edits + 1)
    decreases e - i
  {
    if i < e && g(lines[i]) == Same { OnceIs(g, lines, edits, i + 1, e); }
  }

  /** Lines that stay do not decide what is active. */
  lemma {:induction false} ActiveSkips(g: Rule, lines: seq<string>, i: nat, k: nat, e: nat)
    requires i <= k <= e <= |lines| && forall j | i <= j < k :: g(lines[j]) == Same
    ensures Active(g, lines, i, e) == Active(g, lines, k, e)
    decreases k - i
  {
    if i < k { ActiveSkips(g, lines, i + 1, k, e); }
  }

  lemma {:induction false} ActiveFirst(g: Rule, lines: seq<string>, i: nat, e: nat)
    requires i <= e <= |lines|
    ensures forall j | i <= j < Active(g, lines, i, e) :: g(lines[j]) == Same
    decreases e - i
  {
    if i < e && g(lines[i]) == Same { ActiveFirst(g, lines, i + 1, e); }
  }

  lemma {:induction false} ActiveFrame(g: Rule, s: seq<string>, t: seq<string>, i: nat, e: nat)
    requires i <= e <= |s| == |t| && forall k | i <= k < e :: s[k] == t[k]
    ensures Active(g, s, i, e) == Active(g, t, i, e)
    decreases e - i
  {
    if i < e { ActiveFrame(g, s, t, i + 1, e); }
  }

  /** When only the first occurrence is replaced, a second run makes no edit if and only if the first
      made none, or the line it rewrote is settled and nothing is left to rewrite after it. */
  lemma {:induction false} SecondOnceExactly(r: Replacement, lines: seq<string>, edits: nat, i: nat, e: nat)
    requires i <= e <= |lines| && r.onceOnly && !r.warn
    ensures var g := RuleOf(r);
            var run := Replaced(g, true, lines, edits, i, e);
            var k := Active(g, lines, i, e);
            && |run.lines| == |lines|
            && (Replaced(g, true, run.lines, run.edits, i, e) == run <==>
                  Quiet(g, lines, i, e) || (Settled(r, Rewrite(r, lines[k], 0, 0).buf) && Quiet(g, lines, k + 1, e)))
  {
    var g := RuleOf(r);
    var k := Active(g, lines, i, e);
    OnceIs(g, lines, edits, i, e);
    if !Quiet(g, lines, i, e) {
      var text := g(lines[k]).text;
      ChangedIsRewritten(r, lines[k]);
      SettledStays(r, text);
      OnceIs(g, lines[k := text], edits + 1, i, e);
      OnceAgain(g, lines, i, e, text);
    }
  }

  /** After the first rewritten line the second run is quiet if that line stays and the rest is quiet. */
  lemma {:induction false} OnceAgain(g: Rule, lines: seq<string>, i: nat, e: nat, text: string)
    requires i <= e <= |lines| && Active(g, lines, i, e) < e && !g(text).Stuck?
    ensures var k := Active(g, lines, i, e);
            Quiet(g, lines[k := text], i, e) <==> g(text) == Same && Quiet(g, lines, k + 1, e)
  {
    var k := Active(g, lines, i, e);
    var next := lines[k := text];
    ActiveFirst(g, lines, i, e);
    ActiveSkips(g, next, i, k, e);
    ActiveFrame(g, lines, next, k + 1, e);
    assert Active(g, next, k, e) == if g(text) == Same then Active(g, next, k + 1, e) else k;
  }

  // ---------------------------------------------------------------- two promises that do not converge

  /** The first 'a' in a line. */
  function FindA(s: string, i: nat): (m: Option<Match>)
    requires i <= |s|
    ensures m.Some? ==> m.value.startOff <= m.value.endOff <= |s|
    decreases |s| - i
  {
    if i == |s| then None else if s[i] == 'a' then Some(Match(i, i + 1)) else FindA(s, i + 1)
  }

  /** Replacing every "a" by "b". */
  function EveryAByB(): Replacement {
    Replacement(s => FindA(s, 0), s => ['b'], ['a'], false, false)
  }

  /** The number of 'a's from position `i` on. */
  function CountA(s: string, i: nat): nat
    requires i <= |s|
    decreases |s| - i
  {
    if i == |s| then 0 else (if s[i] == 'a' then 1 else 0) + CountA(s, i + 1)
  }

  /** Every 'a' of the line is a 'b', and every other character is where it was. */
  ghost predicate TurnedToB(line: string, out: string) {
    |out| == |line| && forall k | 0 <= k < |line| :: out[k] == if line[k] == 'a' then 'b' else line[k]
  }

  lemma {:induction false} FindAIsFirst(s: string, i: nat)
    requires i <= |s|
    ensures match FindA(s, i)
            case None => CountA(s, i) == 0 && forall k | i <= k < |s| :: s[k] != 'a'
            case Some(m) => i <= m.startOff < |s| && m.endOff == m.startOff + 1 && s[m.startOff] == 'a'
    decreases |s| - i
  {
    if i < |s| && s[i] != 'a' { FindAIsFirst(s, i + 1); }
  }

  lemma {:induction false} OneLess(s: string, t: string, i: nat, j: nat)
    requires i <= j < |s| == |t| && s[j] == 'a' && t[j] == 'b' && forall k | 0 <= k < |s| && k != j :: t[k] == s[k]
    ensures CountA(t, i) + 1 == CountA(s, i)
    decreases j - i
  {
    if i < j { OneLess(s, t, i + 1, j); } else { SameCount(s, t, i + 1); }
  }

  lemma {:induction false} SameCount(s: string, t: string, i: nat)
    requires i <= |s| == |t| && forall k | i <= k < |s| :: t[k] == s[k]
    ensures CountA(t, i) == CountA(s, i)
    decreases |s| - i
  {
    if i < |s| { SameCount(s, t, i + 1); }
  }

  lemma {:induction false} SomeA(s: string, i: nat, j: nat)
    requires i <= j < |s| && s[j] == 'a'
    ensures CountA(s, i) > 0
    decreases j - i
  {
    if i < j { SomeA(s, i + 1, j); }
  }

  /** The loop over one line turns every 'a', as long as there are no more than CF_MAX_REPLACE. */
  lemma {:induction false} EveryATurned(line: string, count: nat, matchLen: nat)
    requires count + CountA(line, 0) <= CF_MAX_REPLACE && matchLen <= 1 && (matchLen == |line| ==> CountA(line, 0) == 0)
    ensures var o := Rewrite(EveryAByB(), line, count, matchLen);
            TurnedToB(line, o.buf) && o.count == count + CountA(line, 0)
    decreases CountA(line, 0)
  {
    var r := EveryAByB();
    FindAIsFirst(line, 0);
    if r.find(line).Some? {
      var m := r.find(line).value;
      var next := Substituted(r, line);
      SubstitutionKeeps(r, line, m);
      forall k | 0 <= k < |line| && k != m.startOff ensures next[k] == line[k] {
        if k > m.startOff { assert next[k - m.endOff + m.startOff + 1] == line[k]; }
      }
      assert next[m.startOff + 0] == 'b';
      OneLess(line, next, 0, m.startOff);
      SomeA(line, 0, m.startOff);
      if |line| == 1 { assert CountA(next, 1) == 0; }
      EveryATurned(next, count + 1, 1);
    }
  }

  /** The run over any lines, none of which has more 'a's than that, turns every 'a' in each line and
      leaves every other character where it was. */
  lemma {:induction false} EveryLineTurned(lines: seq<string>, edits: nat)
    requires forall k | 0 <= k < |lines| :: CountA(lines[k], 0) <= 20
    ensures var run := Replaced(RuleOf(EveryAByB()), false, lines, edits, 0, |lines|);
            |run.lines| == |lines| && forall k | 0 <= k < |lines| :: TurnedToB(lines[k], run.lines[k])
  {
    var g := RuleOf(EveryAByB());
    forall k | 0 <= k < |lines| ensures !g(lines[k]).Stuck? && TurnedToB(lines[k], Changed(g, lines[k])) {
      LineTurned(lines[k]);
    }
    EachLineAlone(g, lines, edits, 0, |lines|);
    StopAtIs(g, lines, 0, |lines|, |lines|);
  }

  lemma {:induction false} LineTurned(line: string)
    requires CountA(line, 0) <= 20
    ensures !LineChange(EveryAByB(), line).Stuck? && TurnedToB(line, Changed(RuleOf(EveryAByB()), line))
  {
    if line == [] { assert CountA(line, 0) == 0; }
    EveryATurned(line, 0, 0);
    NoALeft(line, Rewrite(EveryAByB(), line, 0, 0).buf);
  }

  /** A line with more than 20 of them still has one after the loop, so that the run stops before it. */
  lemma {:induction false} TooManyStop(line: string)
    requires CountA(line, 0) > 20
    ensures LineChange(EveryAByB(), line).Stuck?
  {
    var o := Rewrite(EveryAByB(), line, 0, 0);
    RewriteBounded(EveryAByB(), line, 0, 0);
    AccountA(line, 0, 0);
    FindAIsFirst(o.buf, 0);
  }

  lemma {:induction false} AccountA(line: string, count: nat, matchLen: nat)
    requires count <= CF_MAX_REPLACE
    ensures var o := Rewrite(EveryAByB(), line, count, matchLen);
            CountA(o.buf, 0) + o.count == CountA(line, 0) + count
    decreases CF_MAX_REPLACE - count
  {
    var r := EveryAByB();
    if r.find(line).Some? && matchLen != |line| && count < CF_MAX_REPLACE {
      var m := r.find(line).value;
      var next := Substituted(r, line);
      FindAIsFirst(line, 0);
      SubstitutionKeeps(r, line, m);
      forall k | 0 <= k < |line| && k != m.startOff ensures next[k] == line[k] {
        if k > m.startOff { assert next[k - m.endOff + m.startOff + 1] == line[k]; }
      }
      assert next[m.startOff + 0] == 'b';
      OneLess(line, next, 0, m.startOff);
      AccountA(next, count + 1, 1);
    }
  }

  lemma {:induction false} NoALeft(line: string, out: string)
    requires TurnedToB(line, out)
    ensures FindA(out, 0) == None
    ensures CountA(line, 0) == 0 ==> out == line
  {
    FindAIsFirst(out, 0);
    if CountA(line, 0) == 0 {
      forall k | 0 <= k < |line| ensures out[k] == line[k] {
        if line[k] == 'a' { SomeA(line, 0, k); }
      }
    }
  }

  /** Replacing only the first "a" by "b". */
  function FirstAByB(): Replacement {
    Replacement(s => FindA(s, 0), s => ['b'], ['a'], true, false)
  }

  /** The second run goes on with the next line. */
  lemma {:induction false} FirstOnlyGoesOn(edits: nat)
    ensures var g := RuleOf(FirstAByB());
            && Replaced(g, true, [['a'], ['a']], edits, 0, 2) == Run([['b'], ['a']], edits + 1)
            && Replaced(g, true, [['b'], ['a']], edits + 1, 0, 2) == Run([['b'], ['b']], edits + 2)
  {
    var r := FirstAByB();
    var g := RuleOf(r);
    assert FindA(['a'], 0) == Some(Match(0, 1)) && FindA(['b'], 0) == FindA(['b'], 1) == None;
    assert Substituted(r, ['a']) == ['b'];
    assert g(['a']) == New(['b']) && g(['b']) == Same;
    assert [['a'], ['a']][0 := ['b']] == [['b'], ['a']] && [['b'], ['a']][1 := ['b']] == [['b'], ['b']];
  }

  /** Appending a letter to the whole line, by a pattern that is anchored at both ends. */
  function Appending(): Replacement {
    Replacement(s => Some(Match(0, |s|)), s => s + ['x'], ['^', '.', '*', '$'], false, false)
  }

  /** It is not checked, and every run appends CF_MAX_REPLACE letters to a line that is not empty. */
  lemma {:induction false} AnchoredGrows(line: string, count: nat, matchLen: nat)
    requires count <= CF_MAX_REPLACE && matchLen < |line|
    ensures var o := Rewrite(Appending(), line, count, matchLen);
            o.count == CF_MAX_REPLACE && |o.buf| == |line| + (CF_MAX_REPLACE - count)
    decreases CF_MAX_REPLACE - count
  {
    if count < CF_MAX_REPLACE {
      assert Substituted(Appending(), line) == line + ['x'];
      AnchoredGrows(line + ['x'], count + 1, |line|);
    }
  }
}
