/** Relative symbolic links: the builder in VerifyRelativeLink and the resolver AbsLinkPath of
    cf-agent/files_links.c, with the path helpers they use. */
module RelativeLink {

  // ---------------------------------------------------------------- path helpers

  /** The last '/', or -1. */
  function LastSeparator(s: string): (k: int)
    ensures -1 <= k < |s|
    ensures k >= 0 ==> s[k] == '/'
  {
    if s == [] then -1
    else if s[|s| - 1] == '/' then |s| - 1
    else LastSeparator(s[..|s| - 1])
  }

  /** ChopLastNode: cuts at the last separator; an empty result becomes the root. */
  function ChopLastNode(s: string): string {
    var k := LastSeparator(s);
    var t := if k < 0 then s else s[..k];
    if t == [] then ['/'] else t
  }

  function AddSlash(s: string): string {
    if s == [] then ['/'] else if s[|s| - 1] == '/' then s else s + ['/']
  }

  /** IsAbsoluteFileName at position `i`: leading double quotes are skipped. */
  predicate IsAbsoluteAt(s: string, i: nat)
    decreases |s| - i
  {
    i < |s| && (s[i] == '/' || (s[i] == '"' && IsAbsoluteAt(s, i + 1)))
  }

  /** The number of separators at or after `from`. */
  function Count(s: string, from: nat): nat {
    if |s| <= from then 0
    else Count(s[..|s| - 1], from) + (if s[|s| - 1] == '/' then 1 else 0)
  }

  function ChopTimes(s: string, n: nat): string
    decreases n
  {
    if n == 0 then s else ChopTimes(ChopLastNode(s), n - 1)
  }

  /** "../" repeated. */
  function Ups(n: nat): string {
    if n == 0 then [] else ['.', '.', '/'] + Ups(n - 1)
  }

  // ---------------------------------------------------------------- normalised paths

  /** A component "." or ".." starts at `i`. */
  predicate DotComponentAt(s: string, i: nat) {
    && i < |s| && s[i] == '.'
    && (i + 1 == |s| || s[i + 1] == '/' || (s[i + 1] == '.' && (i + 2 == |s| || s[i + 2] == '/')))
  }

  predicate Normalised(s: string) {
    && s != [] && s[0] == '/'
    && (|s| > 1 ==> s[|s| - 1] != '/')
    && (forall i | 0 <= i < |s| - 1 && s[i] == '/' :: s[i + 1] != '/' && !DotComponentAt(s, i + 1))
  }

  predicate QuoteFree(s: string) {
    forall i | 0 <= i < |s| :: s[i] != '"'
  }

  // ---------------------------------------------------------------- the builder

  function FirstDifference(a: string, b: string, i: nat): (d: nat)
    requires i <= |a| && i <= |b|
    ensures i <= d <= |a| && d <= |b|
    ensures forall k | i <= k < d :: a[k] == b[k]
    ensures d < |a| && d < |b| ==> a[d] != b[d]
    decreases |a| - i
  {
    if i < |a| && i < |b| && a[i] == b[i] then FirstDifference(a, b, i + 1) else i
  }

  /** The largest position up to `p` at which both paths look absolute. */
  function CommonStop(a: string, b: string, p: nat): (q: nat)
    requires a != [] && b != [] && a[0] == '/' && b[0] == '/'
    ensures q <= p && IsAbsoluteAt(a, q) && IsAbsoluteAt(b, q)
  {
    if IsAbsoluteAt(a, p) && IsAbsoluteAt(b, p) then p else CommonStop(a, b, p - 1)
  }

  function Stop(source: string, dest: string): (q: nat)
    requires source != [] && dest != [] && source[0] == '/' && dest[0] == '/'
    ensures q < |source| && q < |dest|
  {
    CommonStop(source, dest, FirstDifference(source, dest, 0))
  }

  /** The link text: "./", one "../" fewer than there are separators in the rest of the
      destination, and the rest of the source. */
  function LinkText(source: string, dest: string): string
    requires source != [] && dest != [] && source[0] == '/' && dest[0] == '/'
  {
    var q := Stop(source, dest);
    var levels := Count(dest, q);
    ['.', '/'] + (Ups(if levels > 0 then levels - 1 else 0) + source[q + 1..])
  }

  lemma {:induction false} UpsAppend(n: nat)
    ensures Ups(n) + ['.', '.', '/'] == Ups(n + 1)
  {
    if n > 0 {
      UpsAppend(n - 1);
      assert Ups(n) + ['.', '.', '/'] == ['.', '.', '/'] + (Ups(n - 1) + ['.', '.', '/']);
    }
  }

  lemma {:induction false} CountFrom(s: string, from: nat, i: nat)
    requires from <= i < |s|
    ensures Count(s[..i + 1], from) == Count(s[..i], from) + (if s[i] == '/' then 1 else 0)
  {
    assert s[..i + 1][..i] == s[..i];
  }

  /** The path computation of VerifyRelativeLink on distinct paths. */
  method BuildRelativeLink(source: string, dest: string) returns (link: string)
    requires source != [] && dest != [] && source[0] == '/' && dest[0] == '/' && source != dest
    ensures link == LinkText(source, dest)
  {
    var p := 0;
    while p < |source| && p < |dest| && source[p] == dest[p]
      invariant p <= |source| && p <= |dest|
      invariant FirstDifference(source, dest, 0) == FirstDifference(source, dest, p)
    {
      p := p + 1;
    }
    while !(IsAbsoluteAt(source, p) && IsAbsoluteAt(dest, p))
      invariant 0 <= p
      invariant CommonStop(source, dest, p) == Stop(source, dest)
      decreases p
    {
      p := p - 1;
    }
    var levels := CountLevels(dest, p);
    link := UpLinks(levels);
    LinkParts(Ups(if levels > 0 then levels - 1 else 0), source[p + 1..]);
    link := AddSlash(link) + source[p + 1..];
  }

  lemma {:induction false} LinkParts(ups: string, rest: string)
    ensures (['.', '/'] + ups) + rest == ['.', '/'] + (ups + rest)
  {
  }

  method CountLevels(dest: string, p: nat) returns (levels: nat)
    requires p <= |dest|
    ensures levels == Count(dest, p)
  {
    levels := 0;
    var sp := p;
    while sp < |dest|
      invariant p <= sp <= |dest|
      invariant levels == Count(dest[..sp], p)
    {
      CountFrom(dest, p, sp);
      if dest[sp] == '/' {
        levels := levels + 1;
      }
      sp := sp + 1;
    }
    assert dest[..sp] == dest;
  }

  /** "./" and the loop `while (--levels > 0)` that joins "../". */
  method UpLinks(levels0: nat) returns (buff: string)
    ensures buff == ['.', '/'] + Ups(if levels0 > 0 then levels0 - 1 else 0)
    ensures buff[|buff| - 1] == '/'
  {
    buff := ['.', '/'];
    var levels := levels0 - 1;
    ghost var n := 0;
    while levels > 0
      invariant levels + n == levels0 - 1 && (levels >= 0 || n == 0)
      invariant buff == ['.', '/'] + Ups(n) && buff[|buff| - 1] == '/'
    {
      UpsAppend(n);
      assert buff + ['.', '.', '/'] == ['.', '/'] + (Ups(n) + ['.', '.', '/']);
      buff := AddSlash(buff) + ['.', '.', '/'];
      n := n + 1;
      levels := levels - 1;
    }
  }

  // ---------------------------------------------------------------- the resolver

  predicate StartsUp(s: string) {
    |s| >= 3 && s[0] == '.' && s[1] == '.' && s[2] == '/'
  }

  predicate StartsHere(s: string) {
    |s| >= 2 && s[0] == '.' && s[1] == '/'
  }

  /** How many "../" start the link, among "./", and what follows them. */
  function SkipDots(s: string): (r: (nat, string)) {
    if StartsUp(s) then var (n, t) := SkipDots(s[3..]); (n + 1, t)
    else if StartsHere(s) then SkipDots(s[2..])
    else (0, s)
  }

  function Resolve(from: string, link: string): string {
    var (n, rest) := SkipDots(link);
    AddSlash(ChopTimes(from, n + 1)) + rest
  }

  /** AbsLinkPath. */
  method AbsLinkPath(from: string, relto: string) returns (destination: string)
    ensures destination == Resolve(from, relto)
  {
    var pop, sp := 1, relto;
    while true
      invariant pop >= 1
      invariant SkipDots(relto).0 + 1 == pop + SkipDots(sp).0
      invariant SkipDots(relto).1 == SkipDots(sp).1
      decreases |sp|
    {
      if StartsUp(sp) {
        pop, sp := pop + 1, sp[3..];
      } else if StartsHere(sp) {
        sp := sp[2..];
      } else {
        break;
      }
    }
    destination := from;
    while pop > 0
      invariant pop >= 0
      invariant ChopTimes(destination, pop) == ChopTimes(from, SkipDots(relto).0 + 1)
    {
      destination := ChopLastNode(destination);
      pop := pop - 1;
    }
    destination := AddSlash(destination) + sp;
  }

  // ---------------------------------------------------------------- the round trip

  /** Popping as many nodes as there are separators from `q` on cuts exactly at `q`. */
  lemma {:induction false} PopsToSeparator(s: string, q: nat, n: nat)
    requires q < |s| && s[q] == '/' && n == Count(s, q)
    ensures ChopTimes(s, n) == if q == 0 then ['/'] else s[..q]
    decreases |s|
  {
    var t := s[..|s| - 1];
    if |s| - 1 == q {
      assert Count(t, q) == 0;
      assert ChopTimes(s, 1) == ChopLastNode(s);
    } else {
      PopsToSeparator(t, q, Count(t, q));
      assert t[..q] == s[..q];
      assert Count(t, q) > 0 by { CountAtLeastOne(t, q); }
      if s[|s| - 1] == '/' {
        assert ChopLastNode(s) == t;
      } else {
        CountAtLeastOne(s, q);
        ChopIgnoresTail(s);
      }
    }
  }

  lemma {:induction false} ChopIgnoresTail(s: string)
    requires s != [] && s[|s| - 1] != '/' && LastSeparator(s) >= 0
    ensures ChopLastNode(s) == ChopLastNode(s[..|s| - 1])
  {
    var k := LastSeparator(s);
    assert s[..k] == s[..|s| - 1][..k];
  }

  lemma {:induction false} CountAtLeastOne(s: string, q: nat)
    requires q < |s| && s[q] == '/'
    ensures Count(s, q) >= 1
    ensures LastSeparator(s) >= q
  {
    if q < |s| - 1 { CountAtLeastOne(s[..|s| - 1], q); }
  }

  lemma {:induction false} SkipUps(n: nat, rest: string)
    requires !StartsUp(rest) && !StartsHere(rest)
    ensures SkipDots(Ups(n) + rest) == (n, rest)
  {
    if n == 0 {
      assert Ups(0) + rest == rest;
    } else {
      SkipUps(n - 1, rest);
      var s := Ups(n) + rest;
      assert s == ['.', '.', '/'] + (Ups(n - 1) + rest);
      assert s[3..] == Ups(n - 1) + rest;
    }
  }

  lemma {:induction false} SkipLink(n: nat, rest: string)
    requires !StartsUp(rest) && !StartsHere(rest)
    ensures SkipDots(['.', '/'] + (Ups(n) + rest)) == (n, rest)
  {
    var s := ['.', '/'] + (Ups(n) + rest);
    assert s[2..] == Ups(n) + rest;
    assert !StartsUp(s) by { assert s[1] == '/'; }
    SkipUps(n, rest);
  }

  lemma {:induction false} FirstSeparator(s: string, q: nat) returns (f: nat)
    requires IsAbsoluteAt(s, q)
    ensures q <= f < |s| && s[f] == '/' && (forall k | q <= k < f :: s[k] == '"')
    decreases |s| - q
  {
    if s[q] == '/' { f := q; } else { f := FirstSeparator(s, q + 1); }
  }

  lemma {:induction false} CountSkips(s: string, q: nat, f: nat)
    requires q <= f <= |s| && forall k | q <= k < f :: s[k] != '/'
    ensures Count(s, q) == Count(s, f)
    decreases |s|
  {
    if |s| > f {
      CountSkips(s[..|s| - 1], q, f);
    } else if q < f {
      CountSkips(s[..|s| - 1], q, f - 1);
    }
  }

  /** What resolving the constructed link gives, wherever the builder stopped. */
  lemma {:induction false} ResolvesTo(source: string, dest: string) returns (f: nat)
    requires Normalised(source) && Normalised(dest)
    ensures var q := Stop(source, dest);
            && q <= f < |dest| && dest[f] == '/' && (forall k | q <= k < f :: dest[k] == '"')
            && Resolve(dest, LinkText(source, dest)) == dest[..f] + (['/'] + source[q + 1..])
  {
    var q := Stop(source, dest);
    f := FirstSeparator(dest, q);
    CountSkips(dest, q, f);
    CountAtLeastOne(dest, f);
    var n := Count(dest, f);
    PopsToSeparator(dest, f, n);
    RestStartsNoDots(source, q);
    SkipLink(n - 1, source[q + 1..]);
    SlashAfterPrefix(dest, f, source[q + 1..]);
  }

  lemma {:induction false} SlashAfterPrefix(dest: string, f: nat, rest: string)
    requires Normalised(dest) && f < |dest| && dest[f] == '/'
    ensures AddSlash(if f == 0 then ['/'] else dest[..f]) + rest == dest[..f] + (['/'] + rest)
  {
    if f > 0 {
      assert dest[f - 1] != '/';
      assert dest[..f][f - 1] == dest[f - 1];
    }
  }

  lemma {:induction false} RestStartsNoDots(source: string, q: nat)
    requires Normalised(source) && IsAbsoluteAt(source, q)
    ensures !StartsUp(source[q + 1..]) && !StartsHere(source[q + 1..])
  {
    var rest := source[q + 1..];
    if q + 1 < |source| && source[q] == '/' {
      assert !DotComponentAt(source, q + 1);
      assert rest[0] == source[q + 1];
    } else if q + 1 < |source| {
      assert source[q + 1] == '/' || source[q + 1] == '"';
      assert rest[0] == source[q + 1];
    }
  }

  lemma {:induction false} SamePrefix(source: string, dest: string)
    requires source != [] && dest != [] && source[0] == '/' && dest[0] == '/'
    ensures source[..Stop(source, dest)] == dest[..Stop(source, dest)]
  {
  }

  /** Resolving the constructed link against the destination gives the source exactly when the
      builder stopped on a separator of both paths. */
  lemma {:induction false} RoundTripAtStop(source: string, dest: string)
    requires Normalised(source) && Normalised(dest) && source != dest
    ensures var q := Stop(source, dest);
            Resolve(dest, LinkText(source, dest)) == source <==> source[q] == '/' && dest[q] == '/'
  {
    var q := Stop(source, dest);
    var f := ResolvesTo(source, dest);
    SamePrefix(source, dest);
    var r := dest[..f] + (['/'] + source[q + 1..]);
    if source[q] == '/' && dest[q] == '/' {
      assert f == q;
      assert source == source[..q] + (['/'] + source[q + 1..]);
    } else if f == q {
      assert r[q] == '/' && source[q] == '"';
    } else {
      assert |r| > |source|;
    }
  }

  lemma {:induction false} StopIsLast(a: string, b: string, p: nat)
    requires a != [] && b != [] && a[0] == '/' && b[0] == '/'
    ensures var q := CommonStop(a, b, p);
            q < p ==> !(IsAbsoluteAt(a, p) && IsAbsoluteAt(b, p)) && !(IsAbsoluteAt(a, q + 1) && IsAbsoluteAt(b, q + 1))
  {
    if !(IsAbsoluteAt(a, p) && IsAbsoluteAt(b, p)) { StopIsLast(a, b, p - 1); }
  }

  /** Where the paths part, one has a separator and the other double quotes and then a separator. */
  predicate PartAtQuotes(source: string, dest: string) {
    var d := FirstDifference(source, dest, 0);
    IsAbsoluteAt(source, d) && IsAbsoluteAt(dest, d)
  }

  /** The round trip of any two distinct normalised paths fails exactly when they part like that. */
  lemma {:induction false} RoundTripExactly(source: string, dest: string)
    requires Normalised(source) && Normalised(dest) && source != dest
    ensures Resolve(dest, LinkText(source, dest)) == source <==> !PartAtQuotes(source, dest)
    ensures PartAtQuotes(source, dest) ==>
              var d := FirstDifference(source, dest, 0);
              (source[d] == '/' && dest[d] == '"') || (source[d] == '"' && dest[d] == '/')
  {
    var d, q := FirstDifference(source, dest, 0), Stop(source, dest);
    RoundTripAtStop(source, dest);
    StopIsLast(source, dest, d);
    if q < d {
      assert source[q] == dest[q];
    }
  }

  /** Two paths without double quotes always round-trip, root and prefix cases included. */
  lemma {:induction false} RoundTrip(source: string, dest: string)
    requires Normalised(source) && Normalised(dest) && source != dest
    requires QuoteFree(source) && QuoteFree(dest)
    ensures Resolve(dest, LinkText(source, dest)) == source
  {
    RoundTripExactly(source, dest);
  }

  /** A path component ending in a double quote can break it: /a"/b seen from /a""/c. */
  lemma {:induction false} QuoteBreaksRoundTrip()
    ensures var source, dest := ['/', 'a', '"', '/', 'b'], ['/', 'a', '"', '"', '/', 'c'];
            && Normalised(source) && Normalised(dest)
            && Resolve(dest, LinkText(source, dest)) != source
  {
    var source, dest := ['/', 'a', '"', '/', 'b'], ['/', 'a', '"', '"', '/', 'c'];
    assert FirstDifference(source, dest, 3) == 3;
    assert FirstDifference(source, dest, 2) == 3;
    assert FirstDifference(source, dest, 1) == 3;
    assert IsAbsoluteAt(dest, 4);
    assert IsAbsoluteAt(dest, 3) && IsAbsoluteAt(source, 3);
    RoundTripExactly(source, dest);
  }
}
