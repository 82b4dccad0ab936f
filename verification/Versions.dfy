/** Version strings: the tokeniser and comparator of cf-agent/vercmp_internal.c, and the dispatch of
    cf-agent/vercmp.c. */
module Versions {
  import opened Common

  // ---------------------------------------------------------------- strcmp

  /** strcmp, reduced to its sign. */
  function Strcmp(a: string, b: string): (r: int)
    ensures -1 <= r <= 1
  {
    if a == [] then (if b == [] then 0 else -1)
    else if b == [] then 1
    else if a[0] < b[0] then -1
    else if a[0] > b[0] then 1
    else Strcmp(a[1..], b[1..])
  }

  lemma {:induction false} StrcmpZero(a: string, b: string)
    ensures Strcmp(a, b) == 0 <==> a == b
  {
    if a != [] && b != [] {
      StrcmpZero(a[1..], b[1..]);
      assert a == [a[0]] + a[1..] && b == [b[0]] + b[1..];
    }
  }

  lemma {:induction false} StrcmpMirror(a: string, b: string)
    ensures Strcmp(a, b) == -Strcmp(b, a)
  {
    if a != [] && b != [] {
      StrcmpMirror(a[1..], b[1..]);
    }
  }

  lemma {:induction false} StrcmpTransitive(a: string, b: string, c: string)
    requires Strcmp(a, b) < 0 && Strcmp(b, c) < 0
    ensures Strcmp(a, c) < 0
  {
    if a != [] && a[0] == b[0] && b[0] == c[0] {
      StrcmpTransitive(a[1..], b[1..], c[1..]);
    }
  }

  // ---------------------------------------------------------------- the order on token lists

  /** Lexicographic comparison of token lists; a proper prefix is smaller. */
  function Lex(a: seq<string>, b: seq<string>): (r: int)
    ensures -1 <= r <= 1
  {
    if a == [] then (if b == [] then 0 else -1)
    else if b == [] then 1
    else if Strcmp(a[0], b[0]) != 0 then Strcmp(a[0], b[0])
    else Lex(a[1..], b[1..])
  }

  lemma {:induction false} LexZero(a: seq<string>, b: seq<string>)
    ensures Lex(a, b) == 0 <==> a == b
  {
    if a != [] && b != [] {
      StrcmpZero(a[0], b[0]);
      LexZero(a[1..], b[1..]);
      assert a == [a[0]] + a[1..] && b == [b[0]] + b[1..];
    }
  }

  lemma {:induction false} LexMirror(a: seq<string>, b: seq<string>)
    ensures Lex(a, b) == -Lex(b, a)
  {
    if a != [] && b != [] {
      StrcmpMirror(a[0], b[0]);
      LexMirror(a[1..], b[1..]);
    }
  }

  lemma {:induction false} LexTransitive(a: seq<string>, b: seq<string>, c: seq<string>)
    requires Lex(a, b) < 0 && Lex(b, c) < 0
    ensures Lex(a, c) < 0
  {
    if a != [] {
      StrcmpZero(a[0], b[0]);
      StrcmpZero(b[0], c[0]);
      StrcmpZero(a[0], c[0]);
      if Strcmp(a[0], b[0]) == 0 && Strcmp(b[0], c[0]) == 0 {
        LexTransitive(a[1..], b[1..], c[1..]);
      } else if Strcmp(a[0], b[0]) < 0 && Strcmp(b[0], c[0]) < 0 {
        StrcmpTransitive(a[0], b[0], c[0]);
      }
    }
  }

  // ---------------------------------------------------------------- the tokeniser

  const MAX_NUMERAL := 29

  predicate IsAlnum(c: char) {
    '0' <= c <= '9' || 'a' <= c <= 'z' || 'A' <= c <= 'Z'
  }

  /** CanonifyChar(v, ','). */
  function Canonify(v: string): (r: string)
    ensures |r| == |v|
    ensures forall k | 0 <= k < |v| :: r[k] == if v[k] == ',' then '_' else v[k]
  {
    seq(|v|, k requires 0 <= k < |v| => if v[k] == ',' then '_' else v[k])
  }

  function RunEnd(v: string, i: nat): (j: nat)
    requires i <= |v|
    ensures i <= j <= |v|
    ensures j < |v| ==> !IsAlnum(v[j])
    decreases |v| - i
  {
    if i < |v| && IsAlnum(v[i]) then RunEnd(v, i + 1) else i
  }

  /** Where "%29[0-9a-zA-Z]" stops. */
  function NumeralEnd(v: string, i: nat): (j: nat)
    requires i <= |v|
    ensures i <= j <= |v|
  {
    if RunEnd(v, i) <= i + MAX_NUMERAL then RunEnd(v, i) else i + MAX_NUMERAL
  }

  /** What "%1[^0-9a-zA-Z]" reads at `j`: nothing when the numeral was cut short. */
  function SeparatorAt(v: string, j: nat): string
    requires j < |v|
  {
    if IsAlnum(v[j]) then [] else [v[j]]
  }

  datatype Parts = Parts(num: seq<string>, sep: seq<string>)

  function Parse(v: string, i: nat): Parts
    requires i <= |v|
    decreases |v| - i
  {
    if i == |v| then Parts([], [])
    else
      var j := NumeralEnd(v, i);
      if j == |v| then Parts([v[i..j]], [])
      else
        var rest := Parse(v, j + 1);
        Parts([v[i..j]] + rest.num, [SeparatorAt(v, j)] + rest.sep)
  }

  function Tokens(v: string): seq<string> { Parse(Canonify(v), 0).num }

  function Separators(v: string): seq<string> { Parse(Canonify(v), 0).sep }

  method ScanNumeral(v: string, i: nat) returns (j: nat)
    requires i <= |v|
    ensures j == NumeralEnd(v, i)
  {
    j := i;
    while j < |v| && IsAlnum(v[j]) && j < i + MAX_NUMERAL
      invariant i <= j <= |v| && j <= i + MAX_NUMERAL
      invariant RunEnd(v, i) == RunEnd(v, j)
    {
      j := j + 1;
    }
  }

  /** The parts `done` followed by the parts `more`. */
  function Append(done: Parts, more: Parts): Parts {
    Parts(done.num + more.num, done.sep + more.sep)
  }

  lemma {:induction false} AppendStep(done: Parts, num: string, sep: string, more: Parts)
    ensures Append(done, Parts([num] + more.num, [sep] + more.sep))
            == Append(Parts(done.num + [num], done.sep + [sep]), more)
  {
  }

  /** ParsePackageVersion: appends numerals and separators to two lists. */
  method ParsePackageVersion(v: string) returns (parts: Parts)
    ensures parts == Parse(v, 0)
  {
    parts := Parts([], []);
    var sp := 0;
    while sp < |v|
      invariant sp <= |v|
      invariant Parse(v, 0) == Append(parts, Parse(v, sp))
    {
      var j := ScanNumeral(v, sp);
      if j == |v| {
        return Parts(parts.num + [v[sp..j]], parts.sep);
      }
      AppendStep(parts, v[sp..j], SeparatorAt(v, j), Parse(v, j + 1));
      parts := Parts(parts.num + [v[sp..j]], parts.sep + [SeparatorAt(v, j)]);
      sp := j + 1;
    }
  }

  // ---------------------------------------------------------------- joining the parts again

  function Join(num: seq<string>, sep: seq<string>): string
    decreases |num|
  {
    if num == [] then []
    else if sep == [] then num[0]
    else num[0] + (sep[0] + Join(num[1..], sep[1..]))
  }

  /** Thirty alphanumeric characters in a row. */
  predicate LongRunAt(v: string, i: nat) {
    i + MAX_NUMERAL < |v| && forall k | i <= k <= i + MAX_NUMERAL :: IsAlnum(v[k])
  }

  ghost predicate NoLongRun(v: string, from: nat) {
    forall i :: from <= i ==> !LongRunAt(v, i)
  }

  lemma {:induction false} RunIsAlnum(v: string, i: nat)
    requires i <= |v|
    ensures forall k | i <= k < RunEnd(v, i) :: IsAlnum(v[k])
    decreases |v| - i
  {
    if i < |v| && IsAlnum(v[i]) {
      RunIsAlnum(v, i + 1);
    }
  }

  /** A long run at or after a token start is one at the start itself or after the separator. */
  lemma {:induction false} LongRunSplits(v: string, i: nat)
    requires i <= |v|
    ensures RunEnd(v, i) > i + MAX_NUMERAL ==> LongRunAt(v, i)
    ensures RunEnd(v, i) <= i + MAX_NUMERAL ==>
              (NoLongRun(v, i) <==> NoLongRun(v, RunEnd(v, i) + 1))
  {
    RunIsAlnum(v, i);
    var j := RunEnd(v, i);
    if j <= i + MAX_NUMERAL && NoLongRun(v, j + 1) {
      forall k | i <= k ensures !LongRunAt(v, k) {
        if k <= j && k + MAX_NUMERAL < |v| {
          assert !IsAlnum(v[j]);
        }
      }
    }
  }

  /** Joining the tokens and separators gives back the version text exactly when no
      alphanumeric run is longer than 29 characters; otherwise characters are lost. */
  lemma {:induction false} JoinParse(v: string, i: nat)
    requires i <= |v|
    ensures var p := Parse(v, i);
            && |Join(p.num, p.sep)| <= |v| - i
            && (|Join(p.num, p.sep)| == |v| - i <==> NoLongRun(v, i))
            && (NoLongRun(v, i) ==> Join(p.num, p.sep) == v[i..])
    decreases |v| - i
  {
    if i < |v| {
      LongRunSplits(v, i);
      var j := NumeralEnd(v, i);
      if j == |v| {
        assert NoLongRun(v, |v| + 1);
        assert v[i..j] == v[i..];
      } else {
        JoinParse(v, j + 1);
        JoinStep(v, i, j);
        assert SeparatorAt(v, j) == [] ==> !NoLongRun(v, i) by { assert SeparatorAt(v, j) == [] ==> LongRunAt(v, i); }
      }
    } else {
      assert v[i..] == [];
    }
  }

  lemma {:induction false} JoinStep(v: string, i: nat, j: nat)
    requires i <= j < |v| && i < |v| && j == NumeralEnd(v, i)
    ensures var p, rest := Parse(v, i), Parse(v, j + 1);
            && Join(p.num, p.sep) == v[i..j] + (SeparatorAt(v, j) + Join(rest.num, rest.sep))
            && (SeparatorAt(v, j) == [] <==> RunEnd(v, i) > i + MAX_NUMERAL)
    ensures v[i..j] + ([v[j]] + v[j + 1..]) == v[i..]
  {
    RunIsAlnum(v, i);
    var rest := Parse(v, j + 1);
    assert ([v[i..j]] + rest.num)[1..] == rest.num;
    assert ([SeparatorAt(v, j)] + rest.sep)[1..] == rest.sep;
  }

  lemma {:induction false} JoinsBackExactly(v: string)
    ensures Join(Tokens(v), Separators(v)) == Canonify(v) <==> NoLongRun(Canonify(v), 0)
  {
    JoinParse(Canonify(v), 0);
    assert Canonify(v)[0..] == Canonify(v);
  }

  // ---------------------------------------------------------------- the comparator

  datatype Comparator = Eq | Neq | Gt | Lt | Ge | Le

  /** The separators agree as far as both lists go. */
  predicate Compatible(a: seq<string>, b: seq<string>) {
    a == [] || b == [] || (a[0] == b[0] && Compatible(a[1..], b[1..]))
  }

  predicate SameModel(v1: string, v2: string) {
    Compatible(Separators(v1), Separators(v2))
  }

  /** v1 is below v2 in the built-in order. */
  predicate Below(v1: string, v2: string) {
    SameModel(v1, v2) && Lex(Tokens(v1), Tokens(v2)) < 0
  }

  predicate Same(v1: string, v2: string) {
    v1 == v2 && v1 != []
  }

  /** The verdict on `v1 cmp v2`, where "Gt" asks that v2 be greater than v1. */
  predicate Verdict(v1: string, v2: string, cmp: Comparator) {
    match cmp
    case Eq => Same(v1, v2)
    case Neq => v1 != v2 && v1 != [] && v2 != [] && SameModel(v1, v2)
    case Gt => Below(v1, v2)
    case Lt => Below(v2, v1)
    case Ge => Below(v1, v2) || Same(v1, v2)
    case Le => Below(v2, v1) || Same(v1, v2)
  }

  method SeparatorsAgree(a: seq<string>, b: seq<string>) returns (result: bool)
    ensures result == Compatible(a, b)
  {
    var pr, in' := a, b;
    while pr != [] && in' != []
      invariant Compatible(a, b) == Compatible(pr, in')
      decreases |pr|
    {
      if pr[0] != in'[0] {
        return false;
      }
      pr, in' := pr[1..], in'[1..];
    }
    return true;
  }

  /** One turn of the comparison loop: what it does to version_matched and break_loop. */
  function TokenStep(c: int, same: bool, cmp: Comparator): (r: (bool, bool)) {
    match cmp
    case Eq => (same, false)
    case Neq => (!same, false)
    case Gt => (c < 0, c > 0)
    case Lt => (c > 0, c < 0)
    case Ge => (c < 0 || same, !(c < 0 || same) && c > 0)
    case Le => (c > 0 || same, !(c > 0 || same) && c < 0)
  }

  /** What the loop and the two checks after it compute on token lists. */
  predicate ListVerdict(a: seq<string>, b: seq<string>, same: bool, cmp: Comparator) {
    match cmp
    case Eq => same && a != [] && b != []
    case Neq => !same && a != [] && b != []
    case Gt => Lex(a, b) < 0
    case Lt => Lex(a, b) > 0
    case Ge => Lex(a, b) < 0 || (same && a != [] && b != [])
    case Le => Lex(a, b) > 0 || (same && a != [] && b != [])
  }

  method CompareTokens(a: seq<string>, b: seq<string>, same: bool, cmp: Comparator) returns (versionMatched: bool)
    ensures versionMatched == ListVerdict(a, b, same, cmp)
  {
    var pr, in' := a, b;
    versionMatched := false;
    var breakLoop := false;
    while pr != [] && in' != []
      invariant !versionMatched && !breakLoop
      invariant cmp != Eq && cmp != Neq ==> Lex(a, b) == Lex(pr, in')
      invariant (pr == a && in' == b) || (a != [] && b != [] && !TokenStep(0, same, cmp).0)
      decreases |pr|
    {
      var c := Strcmp(pr[0], in'[0]);
      var step := TokenStep(c, same, cmp);
      versionMatched, breakLoop := step.0, step.1;
      if versionMatched || breakLoop {
        return;
      }
      pr, in' := pr[1..], in'[1..];
    }
    if pr != [] && (cmp == Lt || cmp == Le) {
      versionMatched := true;
    }
    if in' != [] && (cmp == Gt || cmp == Ge) {
      versionMatched := true;
    }
  }

  lemma {:induction false} TokensEmpty(v: string)
    ensures Tokens(v) == [] <==> v == []
  {
  }

  lemma {:induction false} CompatibleSelf(a: seq<string>)
    ensures Compatible(a, a)
  {
    if a != [] { CompatibleSelf(a[1..]); }
  }

  lemma {:induction false} CompatibleMirror(a: seq<string>, b: seq<string>)
    ensures Compatible(a, b) == Compatible(b, a)
  {
    if a != [] && b != [] { CompatibleMirror(a[1..], b[1..]); }
  }

  lemma {:induction false} ListVerdictIsVerdict(v1: string, v2: string, cmp: Comparator)
    ensures Verdict(v1, v2, cmp)
            <==> SameModel(v1, v2) && ListVerdict(Tokens(v1), Tokens(v2), v1 == v2, cmp)
  {
    TokensEmpty(v1);
    TokensEmpty(v2);
    CompatibleSelf(Separators(v1));
    CompatibleMirror(Separators(v1), Separators(v2));
    LexMirror(Tokens(v1), Tokens(v2));
  }

  /** ComparePackageVersionsInternal. */
  method ComparePackageVersionsInternal(v1: string, v2: string, cmp: Comparator) returns (versionMatched: bool)
    ensures versionMatched == Verdict(v1, v2, cmp)
  {
    var pr := ParsePackageVersion(Canonify(v1));
    var in' := ParsePackageVersion(Canonify(v2));
    var result := SeparatorsAgree(pr.sep, in'.sep);
    versionMatched := false;
    if result {
      versionMatched := CompareTokens(pr.num, in'.num, v1 == v2, cmp);
    }
    ListVerdictIsVerdict(v1, v2, cmp);
  }

  // ---------------------------------------------------------------- order laws

  predicate CommaFree(v: string) {
    forall k | 0 <= k < |v| :: v[k] != ','
  }

  lemma {:induction false} CanonifyCommaFree(v: string)
    requires CommaFree(v)
    ensures Canonify(v) == v
  {
  }

  /** Exactly one of less, greater and equal holds. */
  predicate ExactlyOne(v1: string, v2: string) {
    var gt, lt, eq := Verdict(v1, v2, Gt), Verdict(v1, v2, Lt), Verdict(v1, v2, Eq);
    (gt || lt || eq) && !(gt && lt) && !(gt && eq) && !(lt && eq)
  }

  /** The three-way choice, exactly, over all pairs of versions: the separators must agree, and
      versions that give the same tokens must be the same non-empty text. */
  lemma {:induction false} TrichotomyExactly(v1: string, v2: string)
    ensures ExactlyOne(v1, v2) <==> SameModel(v1, v2) && (Tokens(v1) == Tokens(v2) ==> Same(v1, v2))
  {
    CompatibleSelf(Separators(v1));
    CompatibleMirror(Separators(v1), Separators(v2));
    LexZero(Tokens(v1), Tokens(v2));
    LexMirror(Tokens(v1), Tokens(v2));
  }

  /** For non-empty versions with the same separators and no over-long run, the choice fails
      exactly for different texts that are canonified alike: those that differ by a comma. */
  lemma {:induction false} CommaExactly(v1: string, v2: string)
    requires v1 != [] && v2 != [] && Separators(v1) == Separators(v2)
    requires NoLongRun(Canonify(v1), 0) && NoLongRun(Canonify(v2), 0)
    ensures ExactlyOne(v1, v2) <==> (Canonify(v1) == Canonify(v2) ==> v1 == v2)
  {
    TrichotomyExactly(v1, v2);
    CompatibleSelf(Separators(v1));
    JoinsBackExactly(v1);
    JoinsBackExactly(v2);
  }

  /** In particular it never fails without commas and over-long runs. */
  lemma {:induction false} Trichotomy(v1: string, v2: string)
    requires v1 != [] && v2 != [] && CommaFree(v1) && CommaFree(v2)
    requires NoLongRun(v1, 0) && NoLongRun(v2, 0)
    requires Separators(v1) == Separators(v2)
    ensures ExactlyOne(v1, v2)
  {
    CanonifyCommaFree(v1);
    CanonifyCommaFree(v2);
    CommaExactly(v1, v2);
  }

  lemma {:induction false} BelowIrreflexive(v: string)
    ensures !Below(v, v)
  {
    LexZero(Tokens(v), Tokens(v));
  }

  lemma {:induction false} BelowTransitive(a: string, b: string, c: string)
    requires Below(a, b) && Below(b, c) && SameModel(a, c)
    ensures Below(a, c)
  {
    LexTransitive(Tokens(a), Tokens(b), Tokens(c));
  }

  // ---------------------------------------------------------------- CompareVersions

  datatype CmpResult = Error | NoMatch | Match

  function InvertResult(r: CmpResult): CmpResult {
    match r case Error => Error case NoMatch => Match case Match => NoMatch
  }

  function AndResults(l: CmpResult, r: CmpResult): CmpResult {
    if l == Error || r == Error then Error else if l == Match && r == Match then Match else NoMatch
  }

  function AsResult(b: bool): CmpResult { if b then Match else NoMatch }

  /** A configured comparison command: any outcome, including failure to run. */
  type Command = (string, string) -> CmpResult

  function CompareVersionsLess(v1: string, v2: string, less: Option<Command>): CmpResult {
    match less
    case Some(f) => f(v1, v2)
    case None => AsResult(Verdict(v1, v2, Gt))
  }

  function CompareVersionsEqual(v1: string, v2: string, less: Option<Command>, equal: Option<Command>): CmpResult {
    match equal
    case Some(f) => f(v1, v2)
    case None =>
      if less.Some? then
        AndResults(InvertResult(CompareVersionsLess(v1, v2, less)), InvertResult(CompareVersionsLess(v2, v1, less)))
      else AsResult(Verdict(v1, v2, Eq))
  }

  function CompareVersions(v1: string, v2: string, select: Comparator, less: Option<Command>, equal: Option<Command>): CmpResult {
    match select
    case Eq => CompareVersionsEqual(v1, v2, less, equal)
    case Neq => InvertResult(CompareVersionsEqual(v1, v2, less, equal))
    case Lt => CompareVersionsLess(v1, v2, less)
    case Gt => CompareVersionsLess(v2, v1, less)
    case Ge => InvertResult(CompareVersionsLess(v1, v2, less))
    case Le => InvertResult(CompareVersionsLess(v2, v1, less))
  }

  /** "At least" is computed as "not less". It is "greater or equal" exactly when the three-way choice
      holds. With incompatible separators both "at least" and "at most" match, although the versions
      are neither ordered nor equal. */
  lemma {:induction false} BuiltInAtLeast(v1: string, v2: string)
    ensures ExactlyOne(v1, v2) <==>
              (CompareVersions(v1, v2, Ge, None, None) == Match
               <==> CompareVersions(v1, v2, Gt, None, None) == Match
                    || CompareVersions(v1, v2, Eq, None, None) == Match)
    ensures !SameModel(v1, v2) ==>
              && CompareVersions(v1, v2, Ge, None, None) == Match
              && CompareVersions(v1, v2, Le, None, None) == Match
              && CompareVersions(v1, v2, Gt, None, None) == NoMatch
              && CompareVersions(v1, v2, Eq, None, None) == NoMatch
  {
    CompatibleMirror(Separators(v1), Separators(v2));
    CompatibleSelf(Separators(v1));
    LexZero(Tokens(v1), Tokens(v2));
    LexMirror(Tokens(v1), Tokens(v2));
  }

  /** The command always runs, and its answers are those of an order on the versions in which
      several versions may have the same rank. */
  ghost predicate Ranks(f: Command) {
    && (forall a, b :: f(a, b) != Error)
    && (forall a, b :: f(a, b) == Match ==> f(b, a) == NoMatch)
    && (forall a, b, c :: f(a, c) == Match ==> f(a, b) == Match || f(b, c) == Match)
  }

  ghost predicate Holds(a: string, b: string, select: Comparator, f: Command) {
    CompareVersions(a, b, select, Some(f), None) == Match
  }

  /** A configured "less" command that ranks all versions makes the six comparisons those of a total
      preorder: "at most" is total and transitive, "equal" is "at most" both ways, "less" is "at most"
      without "equal", and the other three are their mirrors and negation. */
  lemma {:induction false} CommandDispatch(f: Command)
    requires Ranks(f)
    ensures forall a, b :: Holds(a, b, Le, f) || Holds(b, a, Le, f)
    ensures forall a, b, c :: Holds(a, b, Le, f) && Holds(b, c, Le, f) ==> Holds(a, c, Le, f)
    ensures forall a, b :: Holds(a, b, Eq, f) <==> Holds(a, b, Le, f) && Holds(b, a, Le, f)
    ensures forall a, b :: Holds(a, b, Lt, f) <==> Holds(a, b, Le, f) && !Holds(a, b, Eq, f)
    ensures forall a, b :: Holds(a, b, Gt, f) <==> Holds(b, a, Lt, f)
    ensures forall a, b :: Holds(a, b, Ge, f) <==> Holds(b, a, Le, f)
    ensures forall a, b :: Holds(a, b, Neq, f) <==> !Holds(a, b, Eq, f)
  {
    forall a, b, c | Holds(a, b, Le, f) && Holds(b, c, Le, f) ensures Holds(a, c, Le, f) {
      assert f(c, a) == Match ==> f(c, b) == Match || f(b, a) == Match;
    }
  }
}
