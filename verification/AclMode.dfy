/** The mode field of an access control entry: the language that
    cf-agent/verify_acl.c accepts and that cf-agent/acl_posix.c interprets.

    A C string is a `string`; its terminator is the position `|s|`. */
module AclMode {
  import opened Common

  const OPERATORS: set<char> := {'=', '+', '-'}
  const GENERIC_PERMS: set<char> := {'r', 'w', 'x'}
  const NATIVE_PERMS_POSIX: set<char> := {'r', 'w', 'x'}

  datatype Perm = Read | Write | Execute

  type Permset = set<Perm>

  const ALL_PERMS: Permset := {Read, Write, Execute}

  // ---------------------------------------------------------------- the language

  /** One comma-separated part of a mode: operators, generic flags, native flags in parentheses. */
  datatype ModeEntry = ModeEntry(ops: string, generic: string, native: Option<string>)

  predicate AllIn(s: string, chars: set<char>) {
    forall k | 0 <= k < |s| :: s[k] in chars
  }

  predicate WellFormed(e: ModeEntry, nperms: set<char>) {
    && AllIn(e.ops, OPERATORS)
    && AllIn(e.generic, GENERIC_PERMS)
    && (e.native.Some? ==> AllIn(e.native.value, nperms))
  }

  predicate AllWellFormed(es: seq<ModeEntry>, nperms: set<char>) {
    es == [] || (WellFormed(es[0], nperms) && AllWellFormed(es[1..], nperms))
  }

  function RenderNative(n: Option<string>): string {
    if n.Some? then ['('] + n.value + [')'] else []
  }

  function Render(e: ModeEntry): string {
    e.ops + (e.generic + RenderNative(e.native))
  }

  function RenderMode(es: seq<ModeEntry>): string
    requires es != []
  {
    if |es| == 1 then Render(es[0]) else Render(es[0]) + ([','] + RenderMode(es[1..]))
  }

  /** The mode field ends at the terminator or at the colon before the permission type. */
  predicate EndsField(s: string, i: nat) {
    i == |s| || (i < |s| && s[i] == ':')
  }

  predicate CharAt(s: string, i: nat, c: char) {
    i < |s| && s[i] == c
  }

  // ---------------------------------------------------------------- scanning

  /** The first position at or after `i` whose character is not in `chars`. */
  function ScanPast(chars: set<char>, s: string, i: nat): (j: nat)
    requires i <= |s|
    ensures i <= j <= |s|
    decreases |s| - i
  {
    if i < |s| && s[i] in chars then ScanPast(chars, s, i + 1) else i
  }

  /** A run of characters in the class, and not one more. */
  lemma {:induction false} ScanPastSpec(chars: set<char>, s: string, i: nat)
    requires i <= |s|
    ensures var j := ScanPast(chars, s, i);
            && AllIn(s[i..j], chars)
            && (j == |s| || s[j] !in chars)
    decreases |s| - i
  {
    if i < |s| && s[i] in chars {
      ScanPastSpec(chars, s, i + 1);
      var j := ScanPast(chars, s, i + 1);
      assert s[i..j] == [s[i]] + s[i + 1..j];
    }
  }

  lemma {:induction false} ScanPastUnique(chars: set<char>, s: string, i: nat, j: nat)
    requires i <= j <= |s|
    requires AllIn(s[i..j], chars)
    requires j == |s| || s[j] !in chars
    ensures ScanPast(chars, s, i) == j
    decreases j - i
  {
    if i < j {
      assert s[i] == s[i..j][0];
      assert s[i + 1..j] == s[i..j][1..];
      ScanPastUnique(chars, s, i + 1, j);
    }
  }

  method ScanPastChars(chars: set<char>, s: string, i: nat) returns (j: nat)
    requires i <= |s|
    ensures j == ScanPast(chars, s, i)
  {
    j := i;
    while j < |s| && s[j] in chars
      invariant i <= j <= |s|
      invariant ScanPast(chars, s, i) == ScanPast(chars, s, j)
    {
      j := j + 1;
    }
  }

  // ---------------------------------------------------------------- the checker

  /** Where the entry at `i` ends, if its native flags are closed. */
  function EntryEnd(s: string, i: nat, nperms: set<char>): (r: Option<nat>)
    requires i <= |s|
    ensures r.Some? ==> i <= r.value <= |s|
  {
    var g := ScanPast(GENERIC_PERMS, s, ScanPast(OPERATORS, s, i));
    if CharAt(s, g, '(') then
      var n := ScanPast(nperms, s, g + 1);
      if CharAt(s, n, ')') then Some(n + 1) else None
    else Some(g)
  }

  /** The positions of one entry: its operators, generic flags and native flags. */
  datatype Span = Span(start: nat, generic: nat, end: nat, native: Option<nat>)

  function SpanAt(s: string, i: nat, nperms: set<char>): Span
    requires i <= |s|
  {
    var o := ScanPast(OPERATORS, s, i);
    var g := ScanPast(GENERIC_PERMS, s, o);
    Span(i, o, g, if CharAt(s, g, '(') then Some(ScanPast(nperms, s, g + 1)) else None)
  }

  datatype ModeScan = BadMode | ModeScan(spans: seq<Span>, end: nat)

  function ScanMode(s: string, i: nat, nperms: set<char>): (r: ModeScan)
    requires i <= |s|
    ensures r.ModeScan? ==> i <= r.end <= |s| && r.spans != []
    decreases |s| - i
  {
    match EntryEnd(s, i, nperms)
    case None => BadMode
    case Some(next) =>
      if EndsField(s, next) then ModeScan([SpanAt(s, i, nperms)], next)
      else if s[next] == ',' then
        match ScanMode(s, next + 1, nperms)
        case BadMode => BadMode
        case ModeScan(spans, end) => ModeScan([SpanAt(s, i, nperms)] + spans, end)
      else BadMode
  }

  method CheckEntry(s: string, i: nat, nperms: set<char>) returns (valid: bool, next: nat)
    requires i <= |s|
    ensures valid == EntryEnd(s, i, nperms).Some?
    ensures valid ==> next == EntryEnd(s, i, nperms).value
  {
    next := ScanPastChars(OPERATORS, s, i);
    next := ScanPastChars(GENERIC_PERMS, s, next);
    if next < |s| && s[next] == '(' {
      next := ScanPastChars(nperms, s, next + 1);
      if next < |s| && s[next] == ')' {
        next := next + 1;
      } else {
        return false, next;
      }
    }
    valid := true;
  }

  /** CheckModeSyntax: accepts the mode field that starts at `start` and moves past it. */
  method CheckModeSyntax(s: string, start: nat, nperms: set<char>) returns (valid: bool, end: nat)
    requires start <= |s|
    ensures valid == ScanMode(s, start, nperms).ModeScan?
    ensures valid ==> end == ScanMode(s, start, nperms).end
  {
    var mode := start;
    if EndsField(s, mode) {
      return true, mode;
    }
    while true
      invariant start <= mode <= |s|
      invariant ScanMode(s, start, nperms).ModeScan? == ScanMode(s, mode, nperms).ModeScan?
      invariant ScanMode(s, start, nperms).ModeScan? ==>
                  ScanMode(s, start, nperms).end == ScanMode(s, mode, nperms).end
      decreases |s| - mode
    {
      var ok, m := CheckEntry(s, mode, nperms);
      if !ok {
        return false, m;
      }
      if EndsField(s, m) {
        return true, m;
      } else if s[m] == ',' {
        mode := m + 1;
      } else {
        return false, m;
      }
    }
  }

  predicate SpanIn(s: string, x: Span) {
    && x.start <= x.generic <= x.end <= |s|
    && (x.native.Some? ==> x.end + 1 <= x.native.value <= |s|)
  }

  function EntryOf(s: string, x: Span): ModeEntry
    requires SpanIn(s, x)
  {
    ModeEntry(s[x.start..x.generic], s[x.generic..x.end],
              if x.native.Some? then Some(s[x.end + 1..x.native.value]) else None)
  }

  ghost predicate SpansEntries(s: string, spans: seq<Span>, es: seq<ModeEntry>) {
    && |spans| == |es|
    && (es == [] || (&& SpanIn(s, spans[0]) && EntryOf(s, spans[0]) == es[0]
                     && SpansEntries(s, spans[1..], es[1..])))
  }

  lemma {:induction false} EntryIsRendered(s: string, i: nat, nperms: set<char>) returns (e: ModeEntry)
    requires i <= |s| && EntryEnd(s, i, nperms).Some?
    ensures SpanIn(s, SpanAt(s, i, nperms)) && e == EntryOf(s, SpanAt(s, i, nperms))
    ensures WellFormed(e, nperms)
    ensures s[i..EntryEnd(s, i, nperms).value] == Render(e)
  {
    var o := ScanPast(OPERATORS, s, i);
    var g := ScanPast(GENERIC_PERMS, s, o);
    ScanPastSpec(OPERATORS, s, i);
    ScanPastSpec(GENERIC_PERMS, s, o);
    e := EntryOf(s, SpanAt(s, i, nperms));
    if CharAt(s, g, '(') {
      ScanPastSpec(nperms, s, g + 1);
    }
    SpanIsRendered(s, i, o, g, EntryEnd(s, i, nperms).value, e);
  }

  lemma {:induction false} SpanIsRendered(s: string, i: nat, o: nat, g: nat, next: nat, e: ModeEntry)
    requires i <= o <= g <= next <= |s| && e.ops == s[i..o] && e.generic == s[o..g]
    requires match e.native
             case None => next == g
             case Some(v) => && CharAt(s, g, '(') && g + 2 <= next && s[next - 1] == ')'
                             && v == s[g + 1..next - 1]
    ensures s[i..next] == Render(e)
  {
    assert s[g..next] == RenderNative(e.native);
    assert s[i..next] == s[i..o] + (s[o..g] + s[g..next]);
  }

  /** Soundness of the checker: what it accepts is a rendered list of well-formed entries. */
  lemma {:induction false} AcceptedIsRendered(s: string, i: nat, nperms: set<char>)
    returns (es: seq<ModeEntry>)
    requires i <= |s| && ScanMode(s, i, nperms).ModeScan?
    ensures var r := ScanMode(s, i, nperms);
            && es != [] && AllWellFormed(es, nperms)
            && SpansEntries(s, r.spans, es)
            && s[i..r.end] == RenderMode(es)
            && EndsField(s, r.end)
    decreases |s| - i
  {
    var x, next := SpanAt(s, i, nperms), EntryEnd(s, i, nperms).value;
    var e := EntryIsRendered(s, i, nperms);
    if EndsField(s, next) {
      es := [e];
    } else {
      var r := ScanMode(s, next + 1, nperms);
      var rest := AcceptedIsRendered(s, next + 1, nperms);
      es := [e] + rest;
      SpansCons(s, x, r.spans, e, rest, nperms);
      RenderCons(e, rest, s, i, next, r.end);
    }
  }

  lemma {:induction false} SpansCons(s: string, x: Span, spans: seq<Span>, e: ModeEntry, es: seq<ModeEntry>, nperms: set<char>)
    requires SpanIn(s, x) && EntryOf(s, x) == e && WellFormed(e, nperms)
    requires SpansEntries(s, spans, es) && AllWellFormed(es, nperms)
    ensures SpansEntries(s, [x] + spans, [e] + es) && AllWellFormed([e] + es, nperms)
  {
    assert ([x] + spans)[1..] == spans && ([e] + es)[1..] == es;
  }

  lemma {:induction false} RenderCons(e: ModeEntry, es: seq<ModeEntry>, s: string, i: nat, next: nat, end: nat)
    requires i <= next < end <= |s| || i <= next < next + 1 == end <= |s|
    requires es != [] && s[next] == ','
    requires s[i..next] == Render(e) && s[next + 1..end] == RenderMode(es)
    ensures s[i..end] == RenderMode([e] + es)
  {
    assert ([e] + es)[1..] == es;
    assert s[i..end] == s[i..next] + ([','] + s[next + 1..end]);
  }

  lemma {:induction false} EntryBoundaries(s: string, i: nat, e: ModeEntry, tail: string, o: nat, g: nat)
    requires i <= |s| && s[i..] == Render(e) + tail
    requires o == i + |e.ops| && g == o + |e.generic|
    ensures g <= |s| && s[i..o] == e.ops && s[o..g] == e.generic
    ensures s[g..] == RenderNative(e.native) + tail
  {
    var t := s[i..];
    assert t == e.ops + e.generic + (RenderNative(e.native) + tail);
    assert s[i..o] == t[..o - i] && s[o..g] == t[o - i..g - i] && s[g..] == t[g - i..];
  }

  lemma {:induction false} NativeBoundaries(s: string, g: nat, v: string, tail: string)
    requires g <= |s| && s[g..] == RenderNative(Some(v)) + tail
    ensures CharAt(s, g, '(') && CharAt(s, g + 1 + |v|, ')')
    ensures s[g + 1..g + 1 + |v|] == v
  {
    var r := s[g..];
    assert r == ['('] + (v + ([')'] + tail));
    assert s[g] == r[0] && s[g + 1 + |v|] == r[1 + |v|];
    forall k | 0 <= k < |v| ensures s[g + 1 + k] == v[k] { assert s[g + 1 + k] == r[1 + k]; }
    assert |s[g + 1..g + 1 + |v|]| == |v|;
  }

  /** What can follow the generic flags of a rendered entry is no flag and no operator. */
  lemma {:induction false} AfterFlags(s: string, g: nat, e: ModeEntry, tail: string)
    requires g <= |s| && s[g..] == RenderNative(e.native) + tail
    requires EndsField(tail, 0) || tail[0] == ','
    ensures g == |s| || s[g] in {'(', ':', ','}
    ensures CharAt(s, g, '(') <==> e.native.Some?
  {
    if e.native.Some? {
      NativeBoundaries(s, g, e.native.value, tail);
    } else {
      assert s[g..] == tail;
      assert tail != "" ==> s[g] == tail[0];
    }
  }

  lemma {:induction false} ScansFromBoundaries(s: string, i: nat, o: nat, g: nat, e: ModeEntry, nperms: set<char>)
    requires i <= o <= g <= |s| && s[i..o] == e.ops && s[o..g] == e.generic
    requires WellFormed(e, nperms) && nperms <= NATIVE_PERMS_POSIX
    requires g == |s| || s[g] in {'(', ':', ','}
    requires CharAt(s, g, '(') <==> e.native.Some?
    requires e.native.Some? ==> var n := g + 1 + |e.native.value|;
                                CharAt(s, n, ')') && s[g + 1..n] == e.native.value
    ensures EntryEnd(s, i, nperms) == Some(g + if e.native.Some? then |e.native.value| + 2 else 0)
    ensures SpanIn(s, SpanAt(s, i, nperms)) && EntryOf(s, SpanAt(s, i, nperms)) == e
  {
    assert o < g ==> s[o] == e.generic[0];
    ScanPastUnique(OPERATORS, s, i, o);
    ScanPastUnique(GENERIC_PERMS, s, o, g);
    if e.native.Some? {
      ScanPastUnique(nperms, s, g + 1, g + 1 + |e.native.value|);
    }
  }

  lemma {:induction false} RenderedEntryScans(s: string, i: nat, e: ModeEntry, tail: string, nperms: set<char>)
    requires i <= |s| && s[i..] == Render(e) + tail
    requires WellFormed(e, nperms) && nperms <= NATIVE_PERMS_POSIX
    requires EndsField(tail, 0) || tail[0] == ','
    ensures EntryEnd(s, i, nperms) == Some(i + |Render(e)|)
    ensures SpanIn(s, SpanAt(s, i, nperms)) && EntryOf(s, SpanAt(s, i, nperms)) == e
  {
    var o, g := i + |e.ops|, i + |e.ops| + |e.generic|;
    EntryBoundaries(s, i, e, tail, o, g);
    AfterFlags(s, g, e, tail);
    if e.native.Some? {
      NativeBoundaries(s, g, e.native.value, tail);
    }
    ScansFromBoundaries(s, i, o, g, e, nperms);
  }

  /** Completeness of the checker: every rendered list of well-formed entries, wherever it
      stands, is accepted, read back as the same entries, and passed exactly. */
  lemma {:induction false} RenderedIsAccepted(s: string, i: nat, es: seq<ModeEntry>, tail: string, nperms: set<char>)
    requires es != [] && AllWellFormed(es, nperms)
    requires nperms <= NATIVE_PERMS_POSIX
    requires i <= |s| && s[i..] == RenderMode(es) + tail
    requires EndsField(tail, 0)
    ensures ReadsBack(s, i, es, nperms, i + |RenderMode(es)|)
    decreases |es|, 1
  {
    if |es| == 1 {
      RenderedLast(s, i, es, tail, nperms);
    } else {
      RenderedMore(s, i, es, es[1..], tail, nperms);
    }
  }

  lemma {:induction false} RenderedMore(s: string, i: nat, es: seq<ModeEntry>, rest: seq<ModeEntry>, tail: string, nperms: set<char>)
    requires |es| > 1 && rest == es[1..] && WellFormed(es[0], nperms) && AllWellFormed(rest, nperms)
    requires nperms <= NATIVE_PERMS_POSIX
    requires i <= |s| && s[i..] == RenderMode(es) + tail
    requires EndsField(tail, 0)
    ensures ReadsBack(s, i, es, nperms, i + |RenderMode(es)|)
    decreases |es|, 0
  {
    var next := RenderedHead(s, i, es, tail, nperms);
    RenderedIsAccepted(s, next + 1, rest, tail, nperms);
    ReadsBackCons(s, i, es, nperms, next, next + 1 + |RenderMode(rest)|);
  }

  /** The first of several rendered entries is read back, and the rest follows its comma. */
  lemma {:induction false} RenderedHead(s: string, i: nat, es: seq<ModeEntry>, tail: string, nperms: set<char>) returns (next: nat)
    requires |es| > 1 && WellFormed(es[0], nperms) && nperms <= NATIVE_PERMS_POSIX
    requires i <= |s| && s[i..] == RenderMode(es) + tail
    ensures i <= next < |s| && s[next] == ','
    ensures EntryEnd(s, i, nperms) == Some(next)
    ensures SpanIn(s, SpanAt(s, i, nperms)) && EntryOf(s, SpanAt(s, i, nperms)) == es[0]
    ensures s[next + 1..] == RenderMode(es[1..]) + tail
    ensures i + |RenderMode(es)| == next + 1 + |RenderMode(es[1..])|
  {
    next := i + |Render(es[0])|;
    RenderSplits(s, i, es, tail);
    RenderedEntryScans(s, i, es[0], [','] + (RenderMode(es[1..]) + tail), nperms);
  }

  lemma {:induction false} RenderedLast(s: string, i: nat, es: seq<ModeEntry>, tail: string, nperms: set<char>)
    requires |es| == 1 && WellFormed(es[0], nperms) && nperms <= NATIVE_PERMS_POSIX
    requires i <= |s| && s[i..] == Render(es[0]) + tail && EndsField(tail, 0)
    ensures ReadsBack(s, i, es, nperms, i + |Render(es[0])|)
  {
    RenderedEntryScans(s, i, es[0], tail, nperms);
    SuffixAfter(s, i, Render(es[0]), tail);
    assert EndsField(s, i + |Render(es[0])|);
    assert SpansEntries(s, [SpanAt(s, i, nperms)], es);
  }

  /** The checker reads the entries `es` from position `i` up to `end`. */
  ghost predicate ReadsBack(s: string, i: nat, es: seq<ModeEntry>, nperms: set<char>, end: nat)
    requires i <= |s|
  {
    var r := ScanMode(s, i, nperms);
    r.ModeScan? && r.end == end && SpansEntries(s, r.spans, es)
  }

  lemma {:induction false} ReadsBackCons(s: string, i: nat, es: seq<ModeEntry>, nperms: set<char>, next: nat, end: nat)
    requires i <= next < |s| && s[next] == ',' && |es| > 1 && AllWellFormed(es, nperms)
    requires EntryEnd(s, i, nperms) == Some(next)
    requires SpanIn(s, SpanAt(s, i, nperms)) && EntryOf(s, SpanAt(s, i, nperms)) == es[0]
    requires ReadsBack(s, next + 1, es[1..], nperms, end)
    ensures ReadsBack(s, i, es, nperms, end)
  {
    SpansCons(s, SpanAt(s, i, nperms), ScanMode(s, next + 1, nperms).spans, es[0], es[1..], nperms);
    assert [es[0]] + es[1..] == es;
  }

  lemma {:induction false} RenderSplits(s: string, i: nat, es: seq<ModeEntry>, tail: string)
    requires |es| > 1 && i <= |s| && s[i..] == RenderMode(es) + tail
    ensures var head, rest := Render(es[0]), RenderMode(es[1..]);
            && s[i..] == head + ([','] + (rest + tail))
            && CharAt(s, i + |head|, ',')
            && s[i + |head| + 1..] == rest + tail
            && |RenderMode(es)| == |head| + 1 + |rest|
  {
    var head, rest := Render(es[0]), RenderMode(es[1..]);
    assert s[i..] == head + ([','] + (rest + tail));
    SuffixAfter(s, i, head, [','] + (rest + tail));
    SuffixAfter(s, i + |head|, [','], rest + tail);
  }

  lemma {:induction false} SuffixAfter(s: string, i: nat, head: string, tail: string)
    requires i <= |s| && s[i..] == head + tail
    ensures i + |head| <= |s| && s[i + |head|..] == tail
    ensures tail != "" ==> i + |head| < |s| && s[i + |head|] == tail[0]
  {
    assert s[i + |head|..] == s[i..][|head|..];
    assert tail != "" ==> s[i + |head|..][0] == tail[0];
  }

  // ---------------------------------------------------------------- the interpreter

  /** What the interpreter leaves: the permissions and the position it stopped at,
      or a read beyond the terminator. */
  datatype ModeResult = Parsed(perms: Permset, end: nat) | Overrun

  /** Only characters of a flag class are ever looked up. */
  function PermOf(c: char): Perm {
    if c == 'r' then Read else if c == 'w' then Write else Execute
  }

  /** The permissions named by the flag characters between two positions. */
  function Flags(s: string, from: nat, to: nat): Permset
    requires to <= |s|
  {
    if to <= from then {} else Flags(s, from, to - 1) + {PermOf(s[to - 1])}
  }

  function AddOrDelete(add: bool, p: Permset, flags: Permset): Permset {
    if add then p + flags else p - flags
  }

  /** The interpreter takes one operator character; without '+' or '-' it first clears. */
  function FlagsStart(s: string, i: nat): (f: nat)
    requires i <= |s|
    ensures i <= f <= |s|
  {
    if i < |s| && s[i] in OPERATORS then i + 1 else i
  }

  function Kept(s: string, i: nat, p: Permset): Permset {
    if CharAt(s, i, '+') || CharAt(s, i, '-') then p else {}
  }

  /** Where the interpreter's view of the entry at `i` ends, unless it runs over the terminator. */
  function StepEnd(s: string, i: nat): (r: Option<nat>)
    requires i <= |s|
    ensures r.Some? ==> i <= r.value <= |s|
  {
    var g := ScanPast(GENERIC_PERMS, s, FlagsStart(s, i));
    if CharAt(s, g, '(') then
      var n := ScanPast(NATIVE_PERMS_POSIX, s, g + 1);
      if n == |s| then None else Some(n + 1)
    else Some(g)
  }

  function StepFlags(s: string, i: nat): Permset
    requires i <= |s|
  {
    var f := FlagsStart(s, i);
    var g := ScanPast(GENERIC_PERMS, s, f);
    Flags(s, f, g) +
    if CharAt(s, g, '(') then Flags(s, g + 1, ScanPast(NATIVE_PERMS_POSIX, s, g + 1)) else {}
  }

  function Step(s: string, i: nat, p: Permset): Permset
    requires i <= |s|
  {
    AddOrDelete(!CharAt(s, i, '-'), Kept(s, i, p), StepFlags(s, i))
  }

  function Interpret(s: string, i: nat, p: Permset): (r: ModeResult)
    requires i <= |s|
    ensures r.Parsed? ==> i <= r.end <= |s|
    decreases |s| - i
  {
    match StepEnd(s, i)
    case None => Overrun
    case Some(n) =>
      if CharAt(s, n, ',') then Interpret(s, n + 1, Step(s, i, p)) else Parsed(Step(s, i, p), n)
  }

  method ApplyFlags(s: string, start: nat, add: bool, perms: Permset, chars: set<char>)
    returns (mode: nat, p: Permset)
    requires start <= |s|
    ensures mode == ScanPast(chars, s, start)
    ensures p == AddOrDelete(add, perms, Flags(s, start, mode))
  {
    mode, p := start, perms;
    while mode < |s| && s[mode] in chars
      invariant start <= mode <= |s|
      invariant ScanPast(chars, s, start) == ScanPast(chars, s, mode)
      invariant p == AddOrDelete(add, perms, Flags(s, start, mode))
    {
      p := if add then p + {PermOf(s[mode])} else p - {PermOf(s[mode])};
      mode := mode + 1;
    }
  }

  lemma {:induction false} AddOrDeleteTwice(add: bool, p: Permset, f: Permset, g: Permset)
    ensures AddOrDelete(add, AddOrDelete(add, p, f), g) == AddOrDelete(add, p, f + g)
  {
  }

  /** One turn of the interpreter's loop. */
  method ParseEntry(s: string, i: nat, perms: Permset) returns (next: Option<nat>, p: Permset)
    requires i <= |s|
    ensures next == StepEnd(s, i)
    ensures next.Some? ==> p == Step(s, i, perms)
  {
    var op, m := true, i;
    p := perms;
    if m < |s| && s[m] == '+' {
      m := m + 1;
    } else if m < |s| && s[m] == '-' {
      op := false;
      m := m + 1;
    } else {
      if m < |s| && s[m] == '=' {
        m := m + 1;
      }
      p := {};
    }
    assert m == FlagsStart(s, i) && p == Kept(s, i, perms) && op == !CharAt(s, i, '-');
    m, p := ApplyFlags(s, m, op, p, GENERIC_PERMS);
    if m < |s| && s[m] == '(' {
      ghost var g := m;
      m, p := ApplyFlags(s, m + 1, op, p, NATIVE_PERMS_POSIX);
      AddOrDeleteTwice(op, Kept(s, i, perms), Flags(s, FlagsStart(s, i), g), Flags(s, g + 1, m));
      if m == |s| {
        return None, p;
      }
      m := m + 1;
    }
    next := Some(m);
  }

  /** ParseModePosixLinux: applies the mode at `start` to existing permissions. */
  method ParseMode(s: string, start: nat, perms: Permset) returns (r: ModeResult)
    requires start <= |s|
    ensures r == Interpret(s, start, perms)
  {
    var mode, p := start, perms;
    if EndsField(s, mode) {
      return Parsed({}, mode);
    }
    while true
      invariant start <= mode <= |s|
      invariant Interpret(s, start, perms) == Interpret(s, mode, p)
      decreases |s| - mode
    {
      var next, q := ParseEntry(s, mode, p);
      match next {
        case None =>
          return Overrun;
        case Some(m) =>
          if m < |s| && s[m] == ',' {
            mode, p := m + 1, q;
          } else {
            return Parsed(q, m);
          }
      }
    }
  }

  // ---------------------------------------------------------------- per-bit behaviour

  lemma {:induction false} PermsBounded(p: Permset)
    ensures p <= ALL_PERMS
  {
    forall x | x in p ensures x in ALL_PERMS {
      match x case Read => case Write => case Execute =>
    }
  }

  lemma {:induction false} StepBitwise(s: string, i: nat, p: Permset)
    requires i <= |s|
    ensures Step(s, i, p) == p * Step(s, i, ALL_PERMS) + Step(s, i, {})
  {
    PermsBounded(p);
  }

  /** Every mode string sets, clears or keeps each bit regardless of the other bits, and
      where it is read to does not depend on the permissions at all. */
  lemma {:induction false} BitwiseUniform(s: string, i: nat, p: Permset)
    requires i <= |s|
    ensures var r, none, all := Interpret(s, i, p), Interpret(s, i, {}), Interpret(s, i, ALL_PERMS);
            && (r.Parsed? <==> none.Parsed?) && (r.Parsed? <==> all.Parsed?)
            && (r.Parsed? ==> r.end == none.end == all.end && r.perms == p * all.perms + none.perms)
    decreases |s| - i
  {
    var next := StepEnd(s, i);
    if next.Some? && CharAt(s, next.value, ',') {
      BitwiseUniform(s, next.value + 1, Step(s, i, p));
      BitwiseUniform(s, next.value + 1, Step(s, i, {}));
      BitwiseUniform(s, next.value + 1, Step(s, i, ALL_PERMS));
      UniformMore(s, i, next.value, p, Interpret(s, next.value + 1, Step(s, i, p)), Interpret(s, next.value + 1, Step(s, i, {})),
                  Interpret(s, next.value + 1, Step(s, i, ALL_PERMS)), Interpret(s, next.value + 1, ALL_PERMS), Interpret(s, next.value + 1, {}));
    } else {
      StepBitwise(s, i, p);
    }
  }

  lemma {:induction false} InterpretNext(s: string, i: nat, next: nat, p: Permset)
    requires i <= |s| && StepEnd(s, i) == Some(next) && CharAt(s, next, ',')
    ensures Interpret(s, i, p) == Interpret(s, next + 1, Step(s, i, p))
  {
  }

  /** One step and the rest, from what the rest gives: `rp`, `r0`, `r1` after the step from `p`, from
      nothing and from everything, and `all`, `none` from everything and nothing. */
  lemma {:induction false} UniformMore(s: string, i: nat, next: nat, p: Permset, rp: ModeResult, r0: ModeResult, r1: ModeResult,
                                       all: ModeResult, none: ModeResult)
    requires i <= |s|
    requires UniformIn(Step(s, i, p), rp, all, none) && UniformIn(Step(s, i, {}), r0, all, none)
    requires UniformIn(Step(s, i, ALL_PERMS), r1, all, none)
    ensures UniformIn(p, rp, r1, r0)
  {
    StepBitwise(s, i, p);
    ComposeBitwise(p, Step(s, i, ALL_PERMS), Step(s, i, {}), all, none);
  }

  /** The result `r` from permissions `p`, told by those from everything and from nothing. */
  predicate UniformIn(p: Permset, r: ModeResult, all: ModeResult, none: ModeResult) {
    && (r.Parsed? <==> none.Parsed?) && (r.Parsed? <==> all.Parsed?)
    && (r.Parsed? ==> r.end == none.end == all.end && r.perms == p * all.perms + none.perms)
  }


  lemma {:induction false} ComposeBitwise(p: Permset, a: Permset, b: Permset, all: ModeResult, none: ModeResult)
    ensures all.Parsed? && none.Parsed? ==>
              (p * a + b) * all.perms + none.perms
              == p * (a * all.perms + none.perms) + (b * all.perms + none.perms)
  {
  }

  /** Applying a mode twice is applying it once. */
  lemma {:induction false} InterpretIdempotent(s: string, i: nat, p: Permset)
    requires i <= |s| && Interpret(s, i, p).Parsed?
    ensures Interpret(s, i, Interpret(s, i, p).perms) == Interpret(s, i, p)
  {
    BitwiseUniform(s, i, p);
    BitwiseUniform(s, i, Interpret(s, i, p).perms);
  }

  // ---------------------------------------------------------------- checker and interpreter agree

  /** The documented meaning of one entry that has at most one operator. */
  function Meaning(s: string, x: Span, p: Permset): Permset
    requires SpanIn(s, x)
  {
    var flags := Flags(s, x.generic, x.end)
               + (if x.native.Some? then Flags(s, x.end + 1, x.native.value) else {});
    if x.start == x.generic || s[x.start] == '=' then flags
    else if s[x.start] == '+' then p + flags
    else p - flags
  }

  predicate SpansIn(s: string, spans: seq<Span>) {
    spans == [] || (SpanIn(s, spans[0]) && SpansIn(s, spans[1..]))
  }

  /** The meaning of a list of entries; an entry with several operators loses its flags
      and everything after it. */
  function ModeMeaning(s: string, spans: seq<Span>, p: Permset): Permset
    requires SpansIn(s, spans)
  {
    if spans == [] then p
    else if spans[0].generic - spans[0].start <= 1 then ModeMeaning(s, spans[1..], Meaning(s, spans[0], p))
    else if s[spans[0].start] == '=' then {}
    else p
  }

  /** Every entry has at most one operator. */
  predicate SingleOperators(spans: seq<Span>) {
    spans == [] || (spans[0].generic - spans[0].start <= 1 && SingleOperators(spans[1..]))
  }

  lemma {:induction false} SameNativeScan(s: string, i: nat, nperms: set<char>)
    requires i <= |s| && nperms <= NATIVE_PERMS_POSIX
    requires CharAt(s, ScanPast(nperms, s, i), ')')
    ensures ScanPast(NATIVE_PERMS_POSIX, s, i) == ScanPast(nperms, s, i)
  {
    ScanPastSpec(nperms, s, i);
    ScanPastUnique(NATIVE_PERMS_POSIX, s, i, ScanPast(nperms, s, i));
  }

  lemma {:induction false} OperatorsRun(s: string, i: nat)
    requires i <= |s|
    ensures var o := ScanPast(OPERATORS, s, i);
            && (o == i <==> !(i < |s| && s[i] in OPERATORS))
            && (o >= i + 2 ==> s[i] in OPERATORS && s[i + 1] in OPERATORS)
  {
    ScanPastSpec(OPERATORS, s, i);
    var o := ScanPast(OPERATORS, s, i);
    assert o >= i + 2 ==> s[i..o][1] == s[i + 1];
  }

  lemma {:induction false} SpanAtIn(s: string, i: nat, nperms: set<char>)
    requires i <= |s|
    ensures SpanIn(s, SpanAt(s, i, nperms))
  {
  }

  /** Both readers see the same entry when it has at most one operator. */
  lemma {:induction false} SingleOperatorEntry(s: string, i: nat, nperms: set<char>, p: Permset)
    requires i <= |s| && nperms <= NATIVE_PERMS_POSIX
    requires EntryEnd(s, i, nperms).Some? && ScanPast(OPERATORS, s, i) <= i + 1
    ensures StepEnd(s, i) == EntryEnd(s, i, nperms)
    ensures SpanIn(s, SpanAt(s, i, nperms))
    ensures Step(s, i, p) == Meaning(s, SpanAt(s, i, nperms), p)
  {
    OperatorsRun(s, i);
    var o := ScanPast(OPERATORS, s, i);
    assert FlagsStart(s, i) == o;
    var g := ScanPast(GENERIC_PERMS, s, o);
    if CharAt(s, g, '(') {
      SameNativeScan(s, g + 1, nperms);
    }
  }

  /** With a second operator the interpreter stops on it at once. */
  lemma {:induction false} SeveralOperatorsEntry(s: string, i: nat, nperms: set<char>, p: Permset)
    requires i <= |s| && EntryEnd(s, i, nperms).Some? && ScanPast(OPERATORS, s, i) > i + 1
    ensures i + 1 < EntryEnd(s, i, nperms).value
    ensures Interpret(s, i, p) == Parsed(if s[i] == '=' then {} else p, i + 1)
  {
    OperatorsRun(s, i);
    assert ScanPast(GENERIC_PERMS, s, i + 1) == i + 1;
  }

  /** What agreement means for one accepted mode: the interpreter succeeds inside the string,
      gives the meaning of the entries the checker saw, and stops where the checker stopped
      exactly when every entry has at most one operator. */
  ghost predicate Agree(s: string, c: ModeScan, r: ModeResult, p: Permset) {
    && c.ModeScan? && SpansIn(s, c.spans)
    && r.Parsed? && r.end <= c.end
    && r.perms == ModeMeaning(s, c.spans, p)
    && (r.end == c.end <==> SingleOperators(c.spans))
  }

  lemma {:induction false} CheckerAgreesWithInterpreter(s: string, i: nat, nperms: set<char>, p: Permset)
    requires i <= |s| && nperms <= NATIVE_PERMS_POSIX
    requires ScanMode(s, i, nperms).ModeScan?
    ensures Agree(s, ScanMode(s, i, nperms), Interpret(s, i, p), p)
    decreases |s| - i
  {
    ScanModeSplits(s, i, nperms);
    var next := EntryEnd(s, i, nperms).value;
    if EndsField(s, next) {
      AgreeLast(s, i, nperms, p);
    } else {
      CheckerAgreesWithInterpreter(s, next + 1, nperms, Step(s, i, p));
      AgreeRest(s, i, nperms, p, next, ScanMode(s, next + 1, nperms));
    }
  }

  lemma {:induction false} AgreeRest(s: string, i: nat, nperms: set<char>, p: Permset, next: nat, rest: ModeScan)
    requires i <= next < |s| && s[next] == ',' && !EndsField(s, next) && nperms <= NATIVE_PERMS_POSIX
    requires EntryEnd(s, i, nperms) == Some(next) && ScanMode(s, i, nperms).ModeScan? && rest == ScanMode(s, next + 1, nperms)
    requires Agree(s, rest, Interpret(s, next + 1, Step(s, i, p)), Step(s, i, p))
    ensures Agree(s, ScanMode(s, i, nperms), Interpret(s, i, p), p)
  {
    ScanModeSplits(s, i, nperms);
    AgreeMore(s, i, nperms, p, next, rest);
  }

  lemma {:induction false} ScanModeSplits(s: string, i: nat, nperms: set<char>)
    requires i <= |s| && ScanMode(s, i, nperms).ModeScan?
    ensures EntryEnd(s, i, nperms).Some?
    ensures var next, x := EntryEnd(s, i, nperms).value, SpanAt(s, i, nperms);
            if EndsField(s, next) then ScanMode(s, i, nperms) == ModeScan([x], next)
            else && s[next] == ',' && ScanMode(s, next + 1, nperms).ModeScan?
                 && var rest := ScanMode(s, next + 1, nperms);
                    ScanMode(s, i, nperms) == ModeScan([x] + rest.spans, rest.end)
  {
  }

  lemma {:induction false} AgreeMore(s: string, i: nat, nperms: set<char>, p: Permset, next: nat, rest: ModeScan)
    requires i <= next < |s| && s[next] == ',' && nperms <= NATIVE_PERMS_POSIX
    requires EntryEnd(s, i, nperms) == Some(next)
    requires Agree(s, rest, Interpret(s, next + 1, Step(s, i, p)), Step(s, i, p)) && next < rest.end
    ensures Agree(s, ModeScan([SpanAt(s, i, nperms)] + rest.spans, rest.end), Interpret(s, i, p), p)
  {
    var x := SpanAt(s, i, nperms);
    SpanAtIn(s, i, nperms);
    if x.generic - x.start <= 1 {
      SingleOperatorEntry(s, i, nperms, p);
      AgreeCons(s, x, rest, Interpret(s, next + 1, Step(s, i, p)), p);
    } else {
      SeveralOperatorsEntry(s, i, nperms, p);
      AgreeCut(s, x, rest, p, i);
    }
  }

  lemma {:induction false} AgreeLast(s: string, i: nat, nperms: set<char>, p: Permset)
    requires i <= |s| && nperms <= NATIVE_PERMS_POSIX
    requires EntryEnd(s, i, nperms).Some? && EndsField(s, EntryEnd(s, i, nperms).value)
    ensures Agree(s, ModeScan([SpanAt(s, i, nperms)], EntryEnd(s, i, nperms).value), Interpret(s, i, p), p)
  {
    var x := SpanAt(s, i, nperms);
    SpanAtIn(s, i, nperms);
    assert [x][1..] == [];
    if x.generic - x.start <= 1 {
      SingleOperatorEntry(s, i, nperms, p);
    } else {
      SeveralOperatorsEntry(s, i, nperms, p);
    }
  }

  lemma {:induction false} AgreeCons(s: string, x: Span, rest: ModeScan, r: ModeResult, p: Permset)
    requires SpanIn(s, x) && x.generic - x.start <= 1
    requires Agree(s, rest, r, Meaning(s, x, p))
    ensures Agree(s, ModeScan([x] + rest.spans, rest.end), r, p)
  {
    assert ([x] + rest.spans)[1..] == rest.spans;
  }

  lemma {:induction false} AgreeCut(s: string, x: Span, rest: ModeScan, p: Permset, i: nat)
    requires SpanIn(s, x) && x.start == i && x.generic - x.start > 1
    requires rest.ModeScan? && SpansIn(s, rest.spans) && i + 1 < rest.end
    ensures Agree(s, ModeScan([x] + rest.spans, rest.end), Parsed(if s[i] == '=' then {} else p, i + 1), p)
  {
    assert ([x] + rest.spans)[1..] == rest.spans;
  }
}
