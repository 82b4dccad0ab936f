/** The built-in version order, told on the characters of the versions: what the tokens are, and where
    two versions first differ. */
module VersionOrder {
  import opened Common
  import opened Versions

  // ---------------------------------------------------------------- the tokens

  /** An ASCII digit or letter, by its code. */
  predicate Alphanumeric(c: char) {
    48 <= c as int <= 57 || 65 <= c as int <= 90 || 97 <= c as int <= 122
  }

  /** A numeral has at most 29 characters, all alphanumeric; a separator is one other character, or
      missing behind a numeral that was cut at 29. */
  ghost predicate ProperParts(p: Parts) {
    && |p.sep| <= |p.num| <= |p.sep| + 1
    && (forall k | 0 <= k < |p.num| :: ProperNumeral(p.num[k]))
    && (forall k | 0 <= k < |p.sep| :: ProperSeparator(p.num[k], p.sep[k]))
  }

  predicate ProperNumeral(t: string) {
    |t| <= 29 && forall k | 0 <= k < |t| :: Alphanumeric(t[k])
  }

  predicate ProperSeparator(t: string, s: string) {
    if s == [] then |t| == 29 else |s| == 1 && !Alphanumeric(s[0])
  }

  /** What the tokeniser yields; joined again it is the text, by Versions.JoinsBackExactly, which
      leaves only one way to cut it. */
  lemma {:induction false} PartsAreProper(v: string, i: nat)
    requires i <= |v|
    ensures ProperParts(Parse(v, i))
    decreases |v| - i
  {
    if i < |v| {
      var j := NumeralEnd(v, i);
      NumeralIsProper(v, i);
      if j < |v| {
        PartsAreProper(v, j + 1);
        ProperCons(v[i..j], SeparatorAt(v, j), Parse(v, j + 1));
      }
    }
  }

  lemma {:induction false} NumeralIsProper(v: string, i: nat)
    requires i < |v|
    ensures var j := NumeralEnd(v, i);
            && ProperNumeral(v[i..j])
            && (j < |v| ==> ProperSeparator(v[i..j], SeparatorAt(v, j)))
  {
    RunIsAlnum(v, i);
  }

  lemma {:induction false} ProperCons(t: string, s: string, rest: Parts)
    requires ProperNumeral(t) && ProperSeparator(t, s) && ProperParts(rest)
    ensures ProperParts(Parts([t] + rest.num, [s] + rest.sep))
  {
  }

  // ---------------------------------------------------------------- where two texts first differ

  /** The texts agree up to `k`, where `a` ends first or has the smaller character. */
  predicate SmallerAt(a: string, b: string, k: nat) {
    && k <= |a| && k < |b| && a[..k] == b[..k]
    && (k == |a| || a[k] < b[k])
  }

  ghost predicate Smaller(a: string, b: string) {
    exists k: nat :: SmallerAt(a, b, k)
  }

  lemma {:induction false} StrcmpIs(a: string, b: string)
    ensures Strcmp(a, b) < 0 <==> Smaller(a, b)
  {
    if a != [] && b != [] && a[0] == b[0] {
      StrcmpIs(a[1..], b[1..]);
      if Smaller(a[1..], b[1..]) {
        var k: nat :| SmallerAt(a[1..], b[1..], k);
        SmallerShift(a, b, k);
      }
      if Smaller(a, b) {
        var k: nat :| SmallerAt(a, b, k);
        assert k > 0;
        SmallerShift(a, b, k - 1);
      }
    } else if b != [] && (a == [] || a[0] < b[0]) {
      assert SmallerAt(a, b, 0);
    } else {
      forall k: nat ensures !SmallerAt(a, b, k) {
        if 0 < k <= |a| && k < |b| { assert a[..k][0] == a[0] && b[..k][0] == b[0]; }
      }
    }
  }

  lemma {:induction false} SmallerShift(a: string, b: string, k: nat)
    requires a != [] && b != [] && a[0] == b[0]
    ensures SmallerAt(a[1..], b[1..], k) <==> SmallerAt(a, b, k + 1)
  {
    if k + 1 <= |a| && k + 1 <= |b| {
      assert a[..k + 1] == [a[0]] + a[1..][..k] && b[..k + 1] == [b[0]] + b[1..][..k];
      assert a[..k + 1] == b[..k + 1] ==> a[1..][..k] == a[..k + 1][1..] == b[..k + 1][1..] == b[1..][..k];
    }
  }

  /** The lists agree up to `k`, where `a` ends first or has the smaller token. */
  ghost predicate SmallerListAt(a: seq<string>, b: seq<string>, k: nat) {
    && k <= |a| && k < |b| && a[..k] == b[..k]
    && (k == |a| || Smaller(a[k], b[k]))
  }

  ghost predicate SmallerList(a: seq<string>, b: seq<string>) {
    exists k: nat :: SmallerListAt(a, b, k)
  }

  lemma {:induction false} LexIs(a: seq<string>, b: seq<string>)
    ensures Lex(a, b) < 0 <==> SmallerList(a, b)
  {
    if a == [] || b == [] {
      if b != [] { assert SmallerListAt(a, b, 0); }
    } else {
      StrcmpIs(a[0], b[0]);
      StrcmpZero(a[0], b[0]);
      if a[0] == b[0] {
        LexIs(a[1..], b[1..]);
        SmallerListShift(a, b);
      } else {
        assert Smaller(a[0], b[0]) ==> SmallerListAt(a, b, 0);
        forall k: nat ensures SmallerListAt(a, b, k) ==> k == 0 {
          if 0 < k <= |a| && k <= |b| { assert a[..k][0] == a[0] && b[..k][0] == b[0]; }
        }
      }
    }
  }

  lemma {:induction false} SmallerListShift(a: seq<string>, b: seq<string>)
    requires a != [] && b != [] && a[0] == b[0]
    ensures SmallerList(a[1..], b[1..]) <==> SmallerList(a, b)
  {
    if SmallerList(a[1..], b[1..]) {
      var k: nat :| SmallerListAt(a[1..], b[1..], k);
      assert a[..k + 1] == [a[0]] + a[1..][..k] && b[..k + 1] == [b[0]] + b[1..][..k];
      assert SmallerListAt(a, b, k + 1);
    }
    if SmallerList(a, b) {
      var k: nat :| SmallerListAt(a, b, k);
      NotSmallerThanItself(a[0]);
      assert k > 0;
      assert a[1..][..k - 1] == a[..k][1..] == b[..k][1..] == b[1..][..k - 1];
      assert SmallerListAt(a[1..], b[1..], k - 1);
    }
  }

  lemma {:induction false} NotSmallerThanItself(a: string)
    ensures !Smaller(a, a)
  {
  }

  /** The separators are the same as far as both lists go. */
  predicate SameSeparators(a: seq<string>, b: seq<string>) {
    forall k | 0 <= k < |a| && k < |b| :: a[k] == b[k]
  }

  lemma {:induction false} CompatibleIs(a: seq<string>, b: seq<string>)
    ensures Compatible(a, b) <==> SameSeparators(a, b)
  {
    if a != [] && b != [] {
      CompatibleIs(a[1..], b[1..]);
      if a[0] == b[0] && SameSeparators(a[1..], b[1..]) {
        forall k | 0 <= k < |a| && k < |b| ensures a[k] == b[k] {
          if k > 0 { assert a[k] == a[1..][k - 1] && b[k] == b[1..][k - 1]; }
        }
      }
      if SameSeparators(a, b) {
        assert a[0] == b[0];
        forall k | 0 <= k < |a[1..]| && k < |b[1..]| ensures a[1..][k] == b[1..][k] {
          assert a[k + 1] == b[k + 1];
        }
      }
    }
  }

  // ---------------------------------------------------------------- the six comparisons

  /** v1 comes first: same separators, and the first difference of the tokens decides. */
  ghost predicate First(v1: string, v2: string) {
    SameSeparators(Separators(v1), Separators(v2)) && SmallerList(Tokens(v1), Tokens(v2))
  }

  lemma {:induction false} BelowIsFirst(v1: string, v2: string)
    ensures Below(v1, v2) <==> First(v1, v2)
  {
    LexIs(Tokens(v1), Tokens(v2));
    CompatibleIs(Separators(v1), Separators(v2));
  }

  /** What the built-in comparator decides; its "greater" asks about the second version. */
  lemma {:induction false} VerdictIs(v1: string, v2: string)
    ensures Verdict(v1, v2, Gt) <==> First(v1, v2)
    ensures Verdict(v1, v2, Lt) <==> First(v2, v1)
    ensures Verdict(v1, v2, Ge) <==> First(v1, v2) || (v1 == v2 && v1 != [])
    ensures Verdict(v1, v2, Le) <==> First(v2, v1) || (v1 == v2 && v1 != [])
    ensures Verdict(v1, v2, Eq) <==> v1 == v2 && v1 != []
    ensures Verdict(v1, v2, Neq) <==>
              v1 != v2 && v1 != [] && v2 != [] && SameSeparators(Separators(v1), Separators(v2))
  {
    BelowIsFirst(v1, v2);
    BelowIsFirst(v2, v1);
    CompatibleIs(Separators(v1), Separators(v2));
  }

  /** What CompareVersions decides without configured commands. */
  lemma {:induction false} ComparisonsAre(v1: string, v2: string)
    ensures CompareVersions(v1, v2, Lt, None, None) == Match <==> First(v1, v2)
    ensures CompareVersions(v1, v2, Gt, None, None) == Match <==> First(v2, v1)
    ensures CompareVersions(v1, v2, Ge, None, None) == Match <==> !First(v1, v2)
    ensures CompareVersions(v1, v2, Le, None, None) == Match <==> !First(v2, v1)
    ensures CompareVersions(v1, v2, Eq, None, None) == Match <==> v1 == v2 && v1 != []
    ensures CompareVersions(v1, v2, Neq, None, None) == Match <==> v1 != v2 || v1 == []
  {
    VerdictIs(v1, v2);
    VerdictIs(v2, v1);
  }
}
