/** A whole access control entry, "entity[:id]:mode[:perm_type]": the syntax check of
    cf-agent/verify_acl.c and the entity parser of cf-agent/acl_posix.c. */
module AclEntry {
  import opened Common
  import opened AclMode

  /** Tag type and, for named users and groups, the qualifier. */
  datatype AceKey = UserObj | User(uid: nat) | GroupObj | Group(gid: nat) | Mask | Other

  datatype EntityKind = UserKind | GroupKind | AllKind | MaskKind | UnknownKind

  /** The user and group databases. */
  datatype Names = Names(users: map<string, nat>, groups: map<string, nat>)

  predicate StartsWith(s: string, p: string) {
    |p| <= |s| && s[..|p|] == p
  }

  function KindOf(ace: string): EntityKind {
    if StartsWith(ace, "user:") then UserKind
    else if StartsWith(ace, "group:") then GroupKind
    else if StartsWith(ace, "all:") then AllKind
    else if StartsWith(ace, "mask:") then MaskKind
    else UnknownKind
  }

  /** The position after the entity name and its colon. */
  function AfterEntity(k: EntityKind): nat {
    match k
    case UserKind => 5
    case GroupKind => 6
    case AllKind => 4
    case MaskKind => 5
    case UnknownKind => 0
  }

  predicate HasId(k: EntityKind) {
    k == UserKind || k == GroupKind
  }

  lemma {:induction false} EntityFits(ace: string)
    ensures AfterEntity(KindOf(ace)) <= |ace|
    ensures KindOf(ace) in {AllKind, MaskKind} ==> ace[AfterEntity(KindOf(ace)) - 1] == ':'
  {
    match KindOf(ace)
    case AllKind => assert ace[..4][3] == ':';
    case MaskKind => assert ace[..5][4] == ':';
    case _ =>
  }

  /** The first colon at or after `i`, or the terminator. */
  function FindColon(s: string, i: nat): (c: nat)
    requires i <= |s|
    ensures i <= c <= |s|
    ensures c < |s| ==> s[c] == ':'
    decreases |s| - i
  {
    if i == |s| || s[i] == ':' then i else FindColon(s, i + 1)
  }

  // ---------------------------------------------------------------- CheckACESyntax

  datatype AceCheck = Rejected | Accepted(mode: nat) | ReadsPastEnd

  predicate PermTypeOk(t: string, deny: bool) {
    t == "allow" || (t == "deny" && deny)
  }

  /** What is decided once the mode field is known to start at `m`. */
  function CheckFields(ace: string, m: nat, nperms: set<char>, deny: bool): (r: AceCheck)
    requires m <= |ace|
    ensures r.Accepted? ==> r.mode == m && ScanMode(ace, m, nperms).ModeScan?
  {
    match ScanMode(ace, m, nperms)
    case BadMode => Rejected
    case ModeScan(_, end) =>
      if end == |ace| || PermTypeOk(ace[end + 1..], deny) then Accepted(m) else Rejected
  }

  function CheckAce(ace: string, nperms: set<char>, deny: bool, mask: bool): AceCheck {
    EntityFits(ace);
    var k := KindOf(ace);
    var i := AfterEntity(k);
    if k == UnknownKind || (k == MaskKind && !mask) then Rejected
    else if !HasId(k) then CheckFields(ace, i, nperms, deny)
    else if i == |ace| then ReadsPastEnd
    else if ace[i] == ':' then Rejected
    else
      var c := FindColon(ace, i + 1);
      if c == |ace| then Rejected else CheckFields(ace, c + 1, nperms, deny)
  }

  method CheckAceFields(ace: string, m: nat, nperms: set<char>, deny: bool) returns (r: AceCheck)
    requires m <= |ace|
    ensures r == CheckFields(ace, m, nperms, deny)
  {
    var valid, end := CheckModeSyntax(ace, m, nperms);
    if !valid {
      return Rejected;
    }
    if end == |ace| {
      return Accepted(m);
    }
    r := if PermTypeOk(ace[end + 1..], deny) then Accepted(m) else Rejected;
  }

  /** CheckACESyntax, with the loop that skips the id. */
  method CheckAceSyntax(ace: string, nperms: set<char>, deny: bool, mask: bool) returns (r: AceCheck)
    ensures r == CheckAce(ace, nperms, deny, mask)
  {
    EntityFits(ace);
    var kind := KindOf(ace);
    if kind == UnknownKind || (kind == MaskKind && !mask) {
      return Rejected;
    }
    var str := AfterEntity(kind);
    if HasId(kind) {
      if str == |ace| {
        return ReadsPastEnd;
      }
      if ace[str] == ':' {
        return Rejected;
      }
      ghost var first := str + 1;
      str := str + 1;
      while str < |ace| && ace[str] != ':'
        invariant first <= str <= |ace|
        invariant FindColon(ace, first) == FindColon(ace, str)
      {
        str := str + 1;
      }
      if str == |ace| {
        return Rejected;
      }
      str := str + 1;
    }
    r := CheckAceFields(ace, str, nperms, deny);
  }

  /** The checker leaves the string exactly on the two entries whose id is the empty rest. */
  lemma {:induction false} OverrunExactly(ace: string, nperms: set<char>, deny: bool, mask: bool)
    ensures CheckAce(ace, nperms, deny, mask) == ReadsPastEnd <==> ace == "user:" || ace == "group:"
  {
    EntityFits(ace);
    if KindOf(ace) == UserKind && |ace| == 5 { assert ace == ace[..5]; }
    if KindOf(ace) == GroupKind && |ace| == 6 { assert ace == ace[..6]; }
    assert ace == "user:" ==> ace[..5] == "user:";
    if ace == "group:" {
      assert ace[..6] == "group:";
      assert ace[..5][0] == 'g';
      assert !StartsWith(ace, "user:") by { assert "user:"[0] == 'u'; }
    }
  }

  // ---------------------------------------------------------------- ParseEntityPosixLinux

  datatype EntityResult = NoEntity | Entity(key: AceKey, next: nat)

  function Resolve(k: EntityKind, id: string, names: Names): Option<AceKey> {
    match k
    case UserKind =>
      if id == "*" then Some(UserObj)
      else if id in names.users then Some(User(names.users[id])) else None
    case GroupKind =>
      if id == "*" then Some(GroupObj)
      else if id in names.groups then Some(Group(names.groups[id])) else None
    case AllKind => Some(Other)
    case MaskKind => Some(Mask)
    case UnknownKind => None
  }

  function IdOf(ace: string): string {
    EntityFits(ace);
    var i := AfterEntity(KindOf(ace));
    ace[i..FindColon(ace, i)]
  }

  function EntityOf(ace: string, names: Names): (r: EntityResult)
    ensures r.Entity? ==> r.next <= |ace|
  {
    EntityFits(ace);
    var k := KindOf(ace);
    match Resolve(k, IdOf(ace), names)
    case None => NoEntity
    case Some(key) =>
      Entity(key, if HasId(k) then FindColon(ace, AfterEntity(k)) else AfterEntity(k) - 1)
  }

  method ParseEntity(ace: string, names: Names) returns (r: EntityResult)
    ensures r == EntityOf(ace, names)
  {
    EntityFits(ace);
    var kind := KindOf(ace);
    match kind {
      case UnknownKind => r := NoEntity;
      case AllKind => r := Entity(Other, 3);
      case MaskKind => r := Entity(Mask, 4);
      case _ =>
        var start := AfterEntity(kind);
        var end := start;
        while end < |ace| && ace[end] != ':'
          invariant start <= end <= |ace|
          invariant FindColon(ace, start) == FindColon(ace, end)
        {
          end := end + 1;
        }
        match Resolve(kind, ace[start..end], names) {
          case None => r := NoEntity;
          case Some(key) => r := Entity(key, end);
        }
    }
  }

  // ---------------------------------------------------------------- agreement

  /** An accepted entry fails to parse only when its name is unknown, and otherwise the entity
      parser stops on the colon before the mode field the checker found. */
  lemma {:induction false} EntityAgrees(ace: string, nperms: set<char>, deny: bool, mask: bool, names: Names)
    requires CheckAce(ace, nperms, deny, mask).Accepted?
    ensures var m := CheckAce(ace, nperms, deny, mask).mode;
            match EntityOf(ace, names)
            case NoEntity => HasId(KindOf(ace)) && Resolve(KindOf(ace), IdOf(ace), names) == None
            case Entity(_, next) => CharAt(ace, next, ':') && next + 1 == m <= |ace|
  {
    EntityFits(ace);
  }

  /** Checker and interpreter agree on whole entries. */
  lemma {:induction false} AcceptedEntryParses(ace: string, nperms: set<char>, deny: bool, mask: bool, names: Names, p: Permset)
    requires nperms <= NATIVE_PERMS_POSIX
    requires CheckAce(ace, nperms, deny, mask).Accepted? && EntityOf(ace, names).Entity?
    ensures var next := EntityOf(ace, names).next;
            && CharAt(ace, next, ':')
            && Agree(ace, ScanMode(ace, next + 1, nperms), Interpret(ace, next + 1, p), p)
  {
    EntityAgrees(ace, nperms, deny, mask, names);
    var m := CheckAce(ace, nperms, deny, mask).mode;
    AcceptedScans(ace, nperms, deny, mask);
    CheckerAgreesWithInterpreter(ace, m, nperms, p);
  }

  lemma {:induction false} AcceptedScans(ace: string, nperms: set<char>, deny: bool, mask: bool)
    requires CheckAce(ace, nperms, deny, mask).Accepted?
    ensures var m := CheckAce(ace, nperms, deny, mask).mode;
            m <= |ace| && ScanMode(ace, m, nperms).ModeScan?
  {
  }
}
