/** POSIX ACL objects, their comparison, and the repair of a file's ACL
    (cf-agent/acl_posix.c). An ACL is a sequence of entries in any order. */
module AclRepair {
  import opened Common
  import opened AclMode
  import opened AclEntry

  datatype Ace = Ace(key: AceKey, perms: Permset)

  datatype AclMethod = Append | Overwrite

  predicate NoDup(acl: seq<Ace>) {
    forall i, j | 0 <= i < j < |acl| :: acl[i].key != acl[j].key
  }

  // ---------------------------------------------------------------- lookup

  /** The index of the first entry with this key, or the length. */
  function FindIndex(acl: seq<Ace>, key: AceKey): (i: nat)
    ensures i <= |acl|
    ensures i < |acl| ==> acl[i].key == key
  {
    if acl == [] then 0
    else if acl[0].key == key then 0
    else 1 + FindIndex(acl[1..], key)
  }

  function Lookup(acl: seq<Ace>, key: AceKey): Option<Permset> {
    var i := FindIndex(acl, key);
    if i < |acl| then Some(acl[i].perms) else None
  }

  /** The two ACLs are the same finite map. */
  ghost predicate SameAcl(a: seq<Ace>, b: seq<Ace>) {
    forall k :: Lookup(a, k) == Lookup(b, k)
  }

  lemma {:induction false} FindIndexFirst(acl: seq<Ace>, key: AceKey, i: nat)
    requires i <= |acl|
    requires forall j | 0 <= j < i :: acl[j].key != key
    requires i < |acl| ==> acl[i].key == key
    ensures FindIndex(acl, key) == i
  {
    if i > 0 {
      assert acl[0].key != key;
      FindIndexFirst(acl[1..], key, i - 1);
    }
  }

  lemma {:induction false} FindIndexBefore(acl: seq<Ace>, key: AceKey)
    ensures forall j | 0 <= j < FindIndex(acl, key) :: acl[j].key != key
  {
    if acl != [] && acl[0].key != key {
      FindIndexBefore(acl[1..], key);
      assert forall j | 1 <= j < FindIndex(acl, key) :: acl[j] == acl[1..][j - 1];
    }
  }

  lemma {:induction false} LookupAt(acl: seq<Ace>, i: nat)
    requires NoDup(acl) && i < |acl|
    ensures FindIndex(acl, acl[i].key) == i
    ensures Lookup(acl, acl[i].key) == Some(acl[i].perms)
  {
    FindIndexFirst(acl, acl[i].key, i);
  }

  /** FindACE: walks the entries until tag and qualifier match. */
  method FindAce(acl: seq<Ace>, key: AceKey) returns (i: nat)
    ensures i == FindIndex(acl, key)
  {
    i := 0;
    while i < |acl| && acl[i].key != key
      invariant i <= |acl|
      invariant forall j | 0 <= j < i :: acl[j].key != key
    {
      i := i + 1;
    }
    FindIndexFirst(acl, key, i);
  }

  // ---------------------------------------------------------------- comparison

  ghost function Keys(acl: seq<Ace>): set<AceKey> {
    set i | 0 <= i < |acl| :: acl[i].key
  }

  lemma {:induction false} KeysCount(acl: seq<Ace>)
    requires NoDup(acl)
    ensures |Keys(acl)| == |acl|
  {
    if acl != [] {
      var rest := acl[..|acl| - 1];
      KeysCount(rest);
      var last := acl[|acl| - 1].key;
      assert Keys(acl) == Keys(rest) + {last};
      assert last !in Keys(rest);
    }
  }

  lemma {:induction false} LookupKeys(acl: seq<Ace>, key: AceKey)
    ensures key in Keys(acl) <==> Lookup(acl, key).Some?
  {
    FindIndexBefore(acl, key);
    var i := FindIndex(acl, key);
    if i < |acl| { assert acl[i].key in Keys(acl); }
  }

  /** Every entry of the first ACL is in the second with equal permissions. */
  ghost predicate Included(a: seq<Ace>, b: seq<Ace>) {
    forall i | 0 <= i < |a| :: Lookup(b, a[i].key) == Some(a[i].perms)
  }

  /** Equal count and one-sided inclusion make the two maps equal, by pigeonhole. */
  lemma {:induction false} InclusionSuffices(a: seq<Ace>, b: seq<Ace>)
    requires NoDup(a) && NoDup(b)
    ensures |a| == |b| && Included(a, b) <==> SameAcl(a, b)
  {
    if |a| == |b| && Included(a, b) {
      KeysIncluded(a, b);
      KeysCount(a);
      KeysCount(b);
      assert |Keys(b) - Keys(a)| == 0;
      forall k ensures Lookup(a, k) == Lookup(b, k) {
        LookupKeys(a, k);
        LookupKeys(b, k);
        if k in Keys(a) {
          var i :| 0 <= i < |a| && a[i].key == k;
          LookupAt(a, i);
        } else {
          assert k !in Keys(b);
        }
      }
    }
    if SameAcl(a, b) {
      SameKeys(a, b);
      KeysCount(a);
      KeysCount(b);
      forall i | 0 <= i < |a| ensures Lookup(b, a[i].key) == Some(a[i].perms) {
        LookupAt(a, i);
      }
    }
  }

  lemma {:induction false} KeysIncluded(a: seq<Ace>, b: seq<Ace>)
    requires Included(a, b)
    ensures Keys(a) <= Keys(b)
  {
    forall k | k in Keys(a) ensures k in Keys(b) {
      var i :| 0 <= i < |a| && a[i].key == k;
      assert Lookup(b, a[i].key).Some?;
      LookupKeys(b, k);
    }
  }

  lemma {:induction false} SameKeys(a: seq<Ace>, b: seq<Ace>)
    requires SameAcl(a, b)
    ensures Keys(a) == Keys(b)
  {
    forall k ensures k in Keys(a) <==> k in Keys(b) {
      LookupKeys(a, k);
      LookupKeys(b, k);
      assert Lookup(a, k) == Lookup(b, k);
    }
  }

  /** ACLEquals: counts the entries, then looks every entry of the first up in the second. */
  method AclEquals(first: seq<Ace>, second: seq<Ace>) returns (equal: bool)
    requires NoDup(first) && NoDup(second)
    ensures equal <==> SameAcl(first, second)
  {
    InclusionSuffices(first, second);
    if |first| != |second| {
      return false;
    }
    var n := 0;
    while n < |first|
      invariant n <= |first|
      invariant forall i | 0 <= i < n :: Lookup(second, first[i].key) == Some(first[i].perms)
    {
      var i := FindAce(second, first[n].key);
      if i == |second| {
        assert Lookup(second, first[n].key) == None;
        return false;
      }
      if first[n].perms != second[i].perms {
        assert Lookup(second, first[n].key) != Some(first[n].perms);
        return false;
      }
      n := n + 1;
    }
    return true;
  }

  // ---------------------------------------------------------------- applying entries

  /** The entry with this key, created with no permissions when it is missing. */
  function FindOrCreate(acl: seq<Ace>, key: AceKey): (r: seq<Ace>)
    ensures FindIndex(acl, key) < |r|
  {
    if FindIndex(acl, key) == |acl| then acl + [Ace(key, {})] else acl
  }

  function SetPerms(acl: seq<Ace>, key: AceKey, p: Permset): seq<Ace> {
    FindOrCreate(acl, key)[FindIndex(acl, key) := Ace(key, p)]
  }

  function Existing(acl: seq<Ace>, key: AceKey): Permset {
    match Lookup(acl, key) case None => {} case Some(p) => p
  }

  /** Setting one key changes that key only, and keeps the ACL free of duplicates. */
  lemma {:induction false} SetPermsLookup(acl: seq<Ace>, key: AceKey, p: Permset, k: AceKey)
    ensures Lookup(SetPerms(acl, key, p), k) == if k == key then Some(p) else Lookup(acl, k)
  {
    var i, r := FindIndex(acl, key), SetPerms(acl, key, p);
    FindIndexBefore(acl, key);
    FindIndexBefore(acl, k);
    if k == key {
      FindIndexFirst(r, key, i);
    } else if FindIndex(acl, k) < |acl| {
      FindIndexFirst(r, k, FindIndex(acl, k));
    } else {
      FindIndexFirst(r, k, |r|);
    }
  }

  lemma {:induction false} SetPermsNoDup(acl: seq<Ace>, key: AceKey, p: Permset)
    requires NoDup(acl)
    ensures NoDup(SetPerms(acl, key, p))
  {
    FindIndexBefore(acl, key);
  }

  /** One ACE applied to an ACL. A mode read past its terminator counts as a failure; the
      syntax check excludes it. */
  function ApplyAce(acl: seq<Ace>, ace: string, names: Names): Option<seq<Ace>> {
    match EntityOf(ace, names)
    case NoEntity => None
    case Entity(key, next) =>
      if !CharAt(ace, next, ':') then None
      else match Interpret(ace, next + 1, Existing(acl, key))
           case Overrun => None
           case Parsed(p, _) => Some(SetPerms(acl, key, p))
  }

  function ApplyAces(acl: seq<Ace>, aces: seq<string>, names: Names): Option<seq<Ace>>
    decreases |aces|
  {
    if aces == [] then Some(acl)
    else match ApplyAce(acl, aces[0], names)
         case None => None
         case Some(next) => ApplyAces(next, aces[1..], names)
  }

  predicate Mentions(aces: seq<string>, names: Names, k: AceKey) {
    aces != [] && (KeyOf(aces[0], names) == Some(k) || Mentions(aces[1..], names, k))
  }

  predicate HasMask(aces: seq<string>, names: Names) {
    Mentions(aces, names, Mask)
  }

  function KeyOf(ace: string, names: Names): Option<AceKey> {
    match EntityOf(ace, names) case NoEntity => None case Entity(key, _) => Some(key)
  }

  // ---------------------------------------------------------------- the mask

  predicate InGroupClass(k: AceKey) {
    k.User? || k.GroupObj? || k.Group?
  }

  /** The permissions acl_calc_mask computes: the union over the group class. */
  function GroupClassUnion(acl: seq<Ace>): Permset {
    set i, x | 0 <= i < |acl| && InGroupClass(acl[i].key) && x in acl[i].perms :: x
  }

  function CalcMask(acl: seq<Ace>): seq<Ace> {
    SetPerms(acl, Mask, GroupClassUnion(acl))
  }

  /** The union is a property of the map, not of the order or the mask entry. */
  lemma {:induction false} UnionOfSame(a: seq<Ace>, b: seq<Ace>)
    requires NoDup(a) && NoDup(b)
    requires forall k | k != Mask :: Lookup(a, k) == Lookup(b, k)
    ensures GroupClassUnion(a) == GroupClassUnion(b)
  {
    UnionIncluded(a, b);
    UnionIncluded(b, a);
  }

  lemma {:induction false} UnionIncluded(a: seq<Ace>, b: seq<Ace>)
    requires NoDup(a)
    requires forall k | k != Mask :: Lookup(a, k) == Lookup(b, k)
    ensures GroupClassUnion(a) <= GroupClassUnion(b)
  {
    forall x | x in GroupClassUnion(a) ensures x in GroupClassUnion(b) {
      var i :| 0 <= i < |a| && InGroupClass(a[i].key) && x in a[i].perms;
      LookupAt(a, i);
      var k := a[i].key;
      assert Lookup(b, k) == Some(a[i].perms);
      var j := FindIndex(b, k);
      assert InGroupClass(b[j].key) && x in b[j].perms;
    }
  }

  // ---------------------------------------------------------------- the promised ACL

  /** The ACL the promise asks for, given the existing one. */
  function Target(aces: seq<string>, how: AclMethod, existing: seq<Ace>, names: Names): Option<seq<Ace>> {
    match ApplyAces(if how == Append then existing else [], aces, names)
    case None => None
    case Some(acl) => Some(if HasMask(aces, names) then acl else CalcMask(acl))
  }

  lemma {:induction false} ApplyAcesNoDup(acl: seq<Ace>, aces: seq<string>, names: Names)
    requires NoDup(acl) && ApplyAces(acl, aces, names).Some?
    ensures NoDup(ApplyAces(acl, aces, names).value)
    decreases |aces|
  {
    if aces != [] {
      var next := ApplyAce(acl, aces[0], names).value;
      assert NoDup(next) by {
        var Entity(key, n) := EntityOf(aces[0], names);
        SetPermsNoDup(acl, key, Interpret(aces[0], n + 1, Existing(acl, key)).perms);
      }
      ApplyAcesNoDup(next, aces[1..], names);
    }
  }

  /** The promised ACL is free of duplicates whenever the existing one is. */
  lemma {:induction false} TargetNoDup(aces: seq<string>, how: AclMethod, existing: seq<Ace>, names: Names)
    requires NoDup(existing) && Target(aces, how, existing, names).Some?
    ensures NoDup(Target(aces, how, existing, names).value)
  {
    var start := if how == Append then existing else [];
    ApplyAcesNoDup(start, aces, names);
    var acl := ApplyAces(start, aces, names).value;
    SetPermsNoDup(acl, Mask, GroupClassUnion(acl));
  }

  // ---------------------------------------------------------------- what the fold does to one key

  /** The entry parses: entity known, colon in place, mode inside the string. */
  predicate Parses(ace: string, names: Names) {
    match EntityOf(ace, names)
    case NoEntity => false
    case Entity(_, next) => CharAt(ace, next, ':') && Interpret(ace, next + 1, {}).Parsed?
  }

  /** The effect of one entry on the permissions of key `k`. */
  function OnKey(ace: string, names: Names, k: AceKey, p: Permset): Permset
    requires Parses(ace, names)
  {
    var Entity(key, next) := EntityOf(ace, names);
    BitwiseUniform(ace, next + 1, p);
    if key == k then Interpret(ace, next + 1, p).perms else p
  }

  predicate AllParse(aces: seq<string>, names: Names) {
    aces == [] || (Parses(aces[0], names) && AllParse(aces[1..], names))
  }

  function FoldOnKey(aces: seq<string>, names: Names, k: AceKey, p: Permset): Permset
    requires AllParse(aces, names)
  {
    if aces == [] then p else FoldOnKey(aces[1..], names, k, OnKey(aces[0], names, k, p))
  }

  /** One entry succeeds or fails regardless of the ACL it is applied to. */
  lemma {:induction false} ApplyAceAt(acl: seq<Ace>, ace: string, names: Names, k: AceKey)
    ensures ApplyAce(acl, ace, names).Some? <==> Parses(ace, names)
    ensures Parses(ace, names) ==>
              Lookup(ApplyAce(acl, ace, names).value, k)
              == if KeyOf(ace, names) == Some(k) then Some(OnKey(ace, names, k, Existing(acl, k)))
                 else Lookup(acl, k)
  {
    if EntityOf(ace, names).Entity? {
      var Entity(key, next) := EntityOf(ace, names);
      if CharAt(ace, next, ':') {
        BitwiseUniform(ace, next + 1, Existing(acl, key));
        if Parses(ace, names) {
          SetPermsLookup(acl, key, Interpret(ace, next + 1, Existing(acl, key)).perms, k);
        }
      }
    }
  }

  /** The fold of a whole list, one key at a time. */
  lemma {:induction false} ApplyAcesAt(acl: seq<Ace>, aces: seq<string>, names: Names, k: AceKey)
    ensures ApplyAces(acl, aces, names).Some? <==> AllParse(aces, names)
    ensures AllParse(aces, names) ==>
              Lookup(ApplyAces(acl, aces, names).value, k)
              == if Mentions(aces, names, k) then Some(FoldOnKey(aces, names, k, Existing(acl, k)))
                 else Lookup(acl, k)
    decreases |aces|
  {
    if aces != [] {
      ApplyAceAt(acl, aces[0], names, k);
      if Parses(aces[0], names) {
        var next := ApplyAce(acl, aces[0], names).value;
        ApplyAcesAt(next, aces[1..], names, k);
        if AllParse(aces, names) && !Mentions(aces[1..], names, k) {
          UnmentionedFold(aces[1..], names, k, Existing(next, k));
        }
      }
    }
  }

  lemma {:induction false} UnmentionedFold(aces: seq<string>, names: Names, k: AceKey, p: Permset)
    requires AllParse(aces, names) && !Mentions(aces, names, k)
    ensures FoldOnKey(aces, names, k, p) == p
  {
    if aces != [] {
      assert KeyOf(aces[0], names) != Some(k);
      UnmentionedFold(aces[1..], names, k, p);
    }
  }

  lemma {:induction false} OnKeyBitwise(ace: string, names: Names, k: AceKey, p: Permset)
    requires Parses(ace, names)
    ensures OnKey(ace, names, k, p) == p * OnKey(ace, names, k, ALL_PERMS) + OnKey(ace, names, k, {})
  {
    BitwiseUniform(ace, EntityOf(ace, names).next + 1, p);
    PermsBounded(p);
  }

  /** Several entries for one key still set, clear or keep each bit on its own. */
  lemma {:induction false} FoldBitwise(aces: seq<string>, names: Names, k: AceKey, p: Permset)
    requires AllParse(aces, names)
    ensures FoldOnKey(aces, names, k, p)
            == p * FoldOnKey(aces, names, k, ALL_PERMS) + FoldOnKey(aces, names, k, {})
  {
    if aces == [] {
      PermsBounded(p);
    } else {
      var q, a, b := OnKey(aces[0], names, k, p), OnKey(aces[0], names, k, ALL_PERMS), OnKey(aces[0], names, k, {});
      OnKeyBitwise(aces[0], names, k, p);
      FoldBitwise(aces[1..], names, k, q);
      FoldBitwise(aces[1..], names, k, a);
      FoldBitwise(aces[1..], names, k, b);
      var all, none := FoldOnKey(aces[1..], names, k, ALL_PERMS), FoldOnKey(aces[1..], names, k, {});
      ComposeBitwise(p, a, b, Parsed(all, 0), Parsed(none, 0));
    }
  }

  lemma {:induction false} FoldIdempotent(aces: seq<string>, names: Names, k: AceKey, p: Permset)
    requires AllParse(aces, names)
    ensures FoldOnKey(aces, names, k, FoldOnKey(aces, names, k, p)) == FoldOnKey(aces, names, k, p)
  {
    FoldBitwise(aces, names, k, p);
    FoldBitwise(aces, names, k, FoldOnKey(aces, names, k, p));
  }

  // ---------------------------------------------------------------- convergence

  /** Applying the whole list to its own result changes no key. */
  lemma {:induction false} RefoldAt(acl: seq<Ace>, again: seq<Ace>, aces: seq<string>, names: Names, k: AceKey)
    requires AllParse(aces, names)
    requires ApplyAces(acl, aces, names).Some?
    requires Lookup(again, k) == Lookup(ApplyAces(acl, aces, names).value, k)
    ensures ApplyAces(again, aces, names).Some?
    ensures Lookup(ApplyAces(again, aces, names).value, k) == Lookup(again, k)
  {
    ApplyAcesAt(acl, aces, names, k);
    ApplyAcesAt(again, aces, names, k);
    if Mentions(aces, names, k) {
      FoldIdempotent(aces, names, k, Existing(acl, k));
    }
  }

  /** The second run starts from the first run's result, in the order the system returns it. */
  lemma {:induction false} Converges(aces: seq<string>, how: AclMethod, before: seq<Ace>, after: seq<Ace>, names: Names)
    requires NoDup(before) && NoDup(after)
    requires Target(aces, how, before, names).Some?
    requires SameAcl(after, Target(aces, how, before, names).value)
    ensures Target(aces, how, after, names).Some?
    ensures SameAcl(after, Target(aces, how, after, names).value)
  {
    if how == Append {
      AppendConverges(aces, before, after, names);
    }
  }

  lemma {:induction false} AppendConverges(aces: seq<string>, before: seq<Ace>, after: seq<Ace>, names: Names)
    requires NoDup(before) && NoDup(after)
    requires Target(aces, Append, before, names).Some?
    requires SameAcl(after, Target(aces, Append, before, names).value)
    ensures Target(aces, Append, after, names).Some?
    ensures SameAcl(after, Target(aces, Append, after, names).value)
  {
    var first := ApplyAces(before, aces, names).value;
    ApplyAcesAt(before, aces, names, Mask);
    ApplyAcesAt(after, aces, names, Mask);
    var second := ApplyAces(after, aces, names).value;
    if HasMask(aces, names) {
      forall k ensures Lookup(second, k) == Lookup(after, k) {
        RefoldAt(before, after, aces, names, k);
      }
    } else {
      MaskStable(aces, before, first, after, second, names);
    }
  }

  lemma {:induction false} MaskStable(aces: seq<string>, before: seq<Ace>, first: seq<Ace>, after: seq<Ace>, second: seq<Ace>, names: Names)
    requires NoDup(before) && NoDup(after) && AllParse(aces, names) && !HasMask(aces, names)
    requires ApplyAces(before, aces, names) == Some(first)
    requires ApplyAces(after, aces, names) == Some(second)
    requires SameAcl(after, CalcMask(first))
    ensures SameAcl(after, CalcMask(second))
  {
    forall k | k != Mask
      ensures Lookup(second, k) == Lookup(after, k) == Lookup(first, k)
    {
      SetPermsLookup(first, Mask, GroupClassUnion(first), k);
      assert Lookup(after, k) == Lookup(CalcMask(first), k);
      RefoldAt(before, after, aces, names, k);
    }
    ApplyAcesNoDup(before, aces, names);
    ApplyAcesNoDup(after, aces, names);
    UnionOfSame(first, second);
    forall k ensures Lookup(after, k) == Lookup(CalcMask(second), k) {
      SetPermsLookup(first, Mask, GroupClassUnion(first), k);
      SetPermsLookup(second, Mask, GroupClassUnion(second), k);
      assert Lookup(after, k) == Lookup(CalcMask(first), k);
    }
  }

  // ---------------------------------------------------------------- accepted lists never fail

  predicate AcceptedWithNames(ace: string, nperms: set<char>, deny: bool, mask: bool, names: Names) {
    && CheckAce(ace, nperms, deny, mask).Accepted?
    && (HasId(KindOf(ace)) ==> Resolve(KindOf(ace), IdOf(ace), names).Some?)
  }

  /** A list the syntax check accepts, with known names, always gives a promised ACL. */
  lemma {:induction false} AcceptedListApplies(aces: seq<string>, nperms: set<char>, deny: bool, mask: bool,
                                               how: AclMethod, existing: seq<Ace>, names: Names)
    requires nperms <= NATIVE_PERMS_POSIX
    requires forall i | 0 <= i < |aces| :: AcceptedWithNames(aces[i], nperms, deny, mask, names)
    ensures Target(aces, how, existing, names).Some?
  {
    AcceptedListParses(aces, nperms, deny, mask, names);
    ApplyAcesAt(if how == Append then existing else [], aces, names, Mask);
  }

  lemma {:induction false} AcceptedListParses(aces: seq<string>, nperms: set<char>, deny: bool, mask: bool, names: Names)
    requires nperms <= NATIVE_PERMS_POSIX
    requires forall i | 0 <= i < |aces| :: AcceptedWithNames(aces[i], nperms, deny, mask, names)
    ensures AllParse(aces, names)
  {
    if aces != [] {
      assert AcceptedWithNames(aces[0], nperms, deny, mask, names);
      EntityAgrees(aces[0], nperms, deny, mask, names);
      AcceptedEntryParses(aces[0], nperms, deny, mask, names, {});
      AcceptedListParses(aces[1..], nperms, deny, mask, names);
    }
  }

  /** The part of CheckPosixLinuxACEs that computes the new ACL: copy or start empty, apply every
      entry, and calculate a mask unless one was given. */
  method BuildTarget(aces: seq<string>, how: AclMethod, existing: seq<Ace>, names: Names)
    returns (r: Option<seq<Ace>>)
    ensures r == Target(aces, how, existing, names)
  {
    var start := if how == Append then existing else [];
    var new', hasMask, rest := start, false, aces;
    while rest != []
      invariant ApplyAces(start, aces, names) == ApplyAces(new', rest, names)
      invariant HasMask(aces, names) <==> hasMask || Mentions(rest, names, Mask)
      decreases |rest|
    {
      var next := ApplyOne(new', rest[0], names);
      if next.None? {
        return None;
      }
      new' := next.value;
      hasMask := hasMask || KeyOf(rest[0], names) == Some(Mask);
      rest := rest[1..];
    }
    r := Some(if hasMask then new' else CalcMask(new'));
  }

  // ---------------------------------------------------------------- the repair

  datatype AclOutcome = Failed | NotNeeded | Warned | Changed

  /** The ACL of one file, of one type (access or default). */
  class AclFile {
    var acl: seq<Ace>

    constructor (existing: seq<Ace>)
      ensures acl == existing
    {
      acl := existing;
    }

    /** CheckPosixLinuxACEs. `setOk` is what acl_set_file returns when it is called. */
    method CheckAces(aces: seq<string>, how: AclMethod, action: PromiseAction, dryRun: bool, setOk: bool, names: Names)
      returns (outcome: AclOutcome)
      requires NoDup(acl)
      modifies this
      ensures NoDup(acl)
      ensures outcome == Failed ==> acl == old(acl)
      ensures Target(aces, how, old(acl), names) == None ==> outcome == Failed
      ensures Target(aces, how, old(acl), names).Some? ==>
                var target := Target(aces, how, old(acl), names).value;
                if SameAcl(old(acl), target) then outcome == NotNeeded && acl == old(acl)
                else if action == Warn then outcome == Warned && acl == old(acl)
                else if dryRun then outcome == Changed && acl == old(acl)
                else if setOk then outcome == Changed && acl == target
                else outcome == Failed
    {
      var target := BuildTarget(aces, how, acl, names);
      if target.None? {
        return Failed;
      }
      var new' := target.value;
      TargetNoDup(aces, how, acl, names);
      var equal := AclEquals(acl, new');
      if equal {
        return NotNeeded;
      }
      if action == Warn {
        return Warned;
      }
      if !dryRun {
        if !setOk {
          return Failed;
        }
        acl := new';
      }
      return Changed;
    }
  }

  /** Two runs of the same promise. After a run that changed the ACL the system may return it in any
      order; the next run finds nothing to do and modifies nothing. */
  method RunTwice(file: AclFile, aces: seq<string>, how: AclMethod, setOk: bool, names: Names, reread: seq<Ace>)
    returns (first: AclOutcome, second: AclOutcome)
    requires NoDup(file.acl) && NoDup(reread)
    requires Target(aces, how, file.acl, names).Some? ==> SameAcl(reread, Target(aces, how, file.acl, names).value)
    modifies file
    ensures first == NotNeeded ==> second == NotNeeded && file.acl == old(file.acl)
    ensures first == Changed ==> second == NotNeeded && file.acl == reread
  {
    ghost var before := file.acl;
    first := file.CheckAces(aces, how, Fix, false, setOk, names);
    if first == Changed {
      file.acl := reread;
      Converges(aces, how, before, reread, names);
    }
    second := file.CheckAces(aces, how, Fix, false, setOk, names);
  }

  /** The loop body of CheckPosixLinuxACEs: parse, find or create, interpret. */
  method ApplyOne(acl: seq<Ace>, ace: string, names: Names) returns (r: Option<seq<Ace>>)
    ensures r == ApplyAce(acl, ace, names)
  {
    var entity := ParseEntity(ace, names);
    match entity {
      case NoEntity => r := None;
      case Entity(key, next) =>
        var new' := acl;
        var i := FindAce(acl, key);
        if i == |acl| {
          new' := acl + [Ace(key, {})];
        }
        if !CharAt(ace, next, ':') {
          return None;
        }
        var mode := ParseMode(ace, next + 1, new'[i].perms);
        match mode {
          case Overrun => r := None;
          case Parsed(p, _) => r := Some(new'[i := Ace(key, p)]);
        }
    }
  }
}
