/** What a promised ACL grants, told on the characters of its entries: which letters give which
    permission, which operators keep what was there, and whose entry the text names. */
module AclMeaning {
  import opened Common
  import opened AclMode
  import opened AclEntry
  import opened AclRepair

  // ---------------------------------------------------------------- one mode

  predicate Lists(e: ModeEntry, c: char) {
    c in e.generic || (e.native.Some? && c in e.native.value)
  }

  /** Whether a permission is held after the entry, by the letter that names it. */
  predicate HeldAfter(e: ModeEntry, c: char, had: bool) {
    || (Lists(e, c) && e.ops != ['-'])
    || (had && (e.ops == ['+'] || (e.ops == ['-'] && !Lists(e, c))))
  }

  /** Whether it is held after a list of entries: an entry with several operators sets or adds
      nothing and ends the list. */
  predicate HeldAfterAll(es: seq<ModeEntry>, c: char, had: bool) {
    if es == [] then had
    else if |es[0].ops| > 1 then had && es[0].ops[0] != '='
    else HeldAfterAll(es[1..], c, HeldAfter(es[0], c, had))
  }

  predicate OneOperatorEach(es: seq<ModeEntry>) {
    forall i | 0 <= i < |es| :: |es[i].ops| <= 1
  }

  /** `q` is what `p` becomes under the entries: 'r' reads, 'w' writes, 'x' executes. */
  ghost predicate Means(es: seq<ModeEntry>, p: Permset, q: Permset) {
    && (Read in q <==> HeldAfterAll(es, 'r', Read in p))
    && (Write in q <==> HeldAfterAll(es, 'w', Write in p))
    && (Execute in q <==> HeldAfterAll(es, 'x', Execute in p))
  }

  lemma {:induction false} FlagsAre(s: string, from: nat, v: string)
    requires from + |v| <= |s| && s[from..from + |v|] == v && AllIn(v, GENERIC_PERMS)
    ensures Read in Flags(s, from, from + |v|) <==> 'r' in v
    ensures Write in Flags(s, from, from + |v|) <==> 'w' in v
    ensures Execute in Flags(s, from, from + |v|) <==> 'x' in v
    decreases |v|
  {
    if v != [] {
      var k := |v| - 1;
      assert v == v[..k] + [v[k]] && s[from + k] == v[k];
      assert s[from..from + k] == v[..k];
      FlagsAre(s, from, v[..k]);
    }
  }

  lemma {:induction false} NativeFlagsAre(s: string, x: Span, e: ModeEntry)
    requires SpanIn(s, x) && EntryOf(s, x) == e && WellFormed(e, NATIVE_PERMS_POSIX)
    ensures x.native.Some? <==> e.native.Some?
    ensures e.native.Some? ==>
              && (Read in Flags(s, x.end + 1, x.native.value) <==> 'r' in e.native.value)
              && (Write in Flags(s, x.end + 1, x.native.value) <==> 'w' in e.native.value)
              && (Execute in Flags(s, x.end + 1, x.native.value) <==> 'x' in e.native.value)
  {
    if e.native.Some? {
      FlagsAre(s, x.end + 1, e.native.value);
    }
  }

  lemma {:induction false} MeaningHeld(s: string, x: Span, e: ModeEntry, p: Permset)
    requires SpanIn(s, x) && EntryOf(s, x) == e && WellFormed(e, NATIVE_PERMS_POSIX) && |e.ops| <= 1
    ensures Read in Meaning(s, x, p) <==> HeldAfter(e, 'r', Read in p)
    ensures Write in Meaning(s, x, p) <==> HeldAfter(e, 'w', Write in p)
    ensures Execute in Meaning(s, x, p) <==> HeldAfter(e, 'x', Execute in p)
  {
    FlagsAre(s, x.generic, e.generic);
    NativeFlagsAre(s, x, e);
    assert x.start < x.generic ==> e.ops == [s[x.start]] && s[x.start] in OPERATORS;
  }

  /** One turn of the interpreter on a rendered entry. */
  lemma {:induction false} StepHeld(s: string, i: nat, e: ModeEntry, tail: string, p: Permset)
    requires i <= |s| && s[i..] == Render(e) + tail
    requires WellFormed(e, NATIVE_PERMS_POSIX) && |e.ops| <= 1
    requires EndsField(tail, 0) || tail[0] == ','
    ensures StepEnd(s, i) == Some(i + |Render(e)|)
    ensures Means([e], p, Step(s, i, p))
  {
    RenderedEntryScans(s, i, e, tail, NATIVE_PERMS_POSIX);
    SingleOperatorEntry(s, i, NATIVE_PERMS_POSIX, p);
    MeaningHeld(s, SpanAt(s, i, NATIVE_PERMS_POSIX), e, p);
    MeansOne(e, p, Step(s, i, p));
  }

  lemma {:induction false} MeansOne(e: ModeEntry, p: Permset, q: Permset)
    requires |e.ops| <= 1
    ensures Means([e], p, q) <==>
              && (Read in q <==> HeldAfter(e, 'r', Read in p))
              && (Write in q <==> HeldAfter(e, 'w', Write in p))
              && (Execute in q <==> HeldAfter(e, 'x', Execute in p))
  {
    HeldOne(e, 'r', Read in p);
    HeldOne(e, 'w', Write in p);
    HeldOne(e, 'x', Execute in p);
  }

  lemma {:induction false} HeldOne(e: ModeEntry, c: char, had: bool)
    requires |e.ops| <= 1
    ensures HeldAfterAll([e], c, had) == HeldAfter(e, c, had)
  {
    var rest := [e][1..];
    assert rest == [];
    assert HeldAfterAll(rest, c, HeldAfter(e, c, had)) == HeldAfter(e, c, had);
  }

  lemma {:induction false} MeansMore(es: seq<ModeEntry>, p: Permset, q: Permset, r: Permset)
    requires es != [] && |es[0].ops| <= 1 && Means([es[0]], p, q) && Means(es[1..], q, r)
    ensures Means(es, p, r)
  {
    MeansOne(es[0], p, q);
  }

  lemma {:induction false} HeldCut(s: string, i: nat, es: seq<ModeEntry>, tail: string, p: Permset)
    requires es != [] && WellFormed(es[0], NATIVE_PERMS_POSIX) && |es[0].ops| > 1
    requires i <= |s| && s[i..] == Render(es[0]) + tail && (EndsField(tail, 0) || tail[0] == ',')
    ensures Interpret(s, i, p).Parsed? && Means(es, p, Interpret(s, i, p).perms)
  {
    RenderedEntryScans(s, i, es[0], tail, NATIVE_PERMS_POSIX);
    assert es[0].ops[0] == s[i];
    SeveralOperatorsEntry(s, i, NATIVE_PERMS_POSIX, p);
  }

  lemma {:induction false} HeldCutLong(s: string, i: nat, es: seq<ModeEntry>, tail: string, p: Permset)
    requires |es| > 1 && WellFormed(es[0], NATIVE_PERMS_POSIX) && |es[0].ops| > 1
    requires i <= |s| && s[i..] == RenderMode(es) + tail
    ensures Interpret(s, i, p).Parsed? && Means(es, p, Interpret(s, i, p).perms)
  {
    RenderSplits(s, i, es, tail);
    HeldCut(s, i, es, [','] + (RenderMode(es[1..]) + tail), p);
  }

  /** The interpreter on any rendered mode; it reads the mode to its end when every entry has one
      operator at most. */
  lemma {:induction false} InterpretHeld(s: string, i: nat, es: seq<ModeEntry>, tail: string, p: Permset)
    requires es != [] && AllWellFormed(es, NATIVE_PERMS_POSIX)
    requires i <= |s| && s[i..] == RenderMode(es) + tail && EndsField(tail, 0)
    ensures Interpret(s, i, p).Parsed? && Means(es, p, Interpret(s, i, p).perms)
    ensures OneOperatorEach(es) ==> Interpret(s, i, p).end == i + |RenderMode(es)|
    decreases |es|
  {
    if |es[0].ops| > 1 {
      if |es| == 1 { HeldCut(s, i, es, tail, p); } else { HeldCutLong(s, i, es, tail, p); }
    } else if |es| == 1 {
      HeldLast(s, i, es, tail, p);
    } else {
      var next := HeldHead(s, i, es, tail, p);
      InterpretHeld(s, next + 1, es[1..], tail, Step(s, i, p));
      InterpretNext(s, i, next, p);
      MeansMore(es, p, Step(s, i, p), Interpret(s, next + 1, Step(s, i, p)).perms);
    }
  }

  lemma {:induction false} HeldLast(s: string, i: nat, es: seq<ModeEntry>, tail: string, p: Permset)
    requires |es| == 1 && WellFormed(es[0], NATIVE_PERMS_POSIX) && |es[0].ops| <= 1
    requires i <= |s| && s[i..] == Render(es[0]) + tail && EndsField(tail, 0)
    ensures var r := Interpret(s, i, p);
            r.Parsed? && r.end == i + |Render(es[0])| && Means(es, p, r.perms)
  {
    StepHeld(s, i, es[0], tail, p);
    SuffixAfter(s, i, Render(es[0]), tail);
    assert es == [es[0]];
    InterpretEnds(s, i, i + |Render(es[0])|, p);
  }

  lemma {:induction false} InterpretEnds(s: string, i: nat, next: nat, p: Permset)
    requires i <= |s| && StepEnd(s, i) == Some(next) && EndsField(s, next)
    ensures Interpret(s, i, p) == Parsed(Step(s, i, p), next)
  {
  }

  lemma {:induction false} HeldHead(s: string, i: nat, es: seq<ModeEntry>, tail: string, p: Permset) returns (next: nat)
    requires |es| > 1 && WellFormed(es[0], NATIVE_PERMS_POSIX) && |es[0].ops| <= 1
    requires i <= |s| && s[i..] == RenderMode(es) + tail
    ensures i <= next < |s| && CharAt(s, next, ',') && StepEnd(s, i) == Some(next)
    ensures s[next + 1..] == RenderMode(es[1..]) + tail
    ensures i + |RenderMode(es)| == next + 1 + |RenderMode(es[1..])|
    ensures Means([es[0]], p, Step(s, i, p))
  {
    next := i + |Render(es[0])|;
    RenderSplits(s, i, es, tail);
    StepHeld(s, i, es[0], [','] + (RenderMode(es[1..]) + tail), p);
  }

  // ---------------------------------------------------------------- whose entry

  /** The subject of an entry as it is written before the mode. */
  datatype Subject = Owner | NamedUser(id: string) | OwningGroup | NamedGroup(id: string) | Everyone | TheMask

  function Written(x: Subject): string {
    match x
    case Owner => "user:*"
    case NamedUser(id) => "user:" + id
    case OwningGroup => "group:*"
    case NamedGroup(id) => "group:" + id
    case Everyone => "all"
    case TheMask => "mask"
  }

  /** A name is one when it has no colon and is not the asterisk of the owner. */
  predicate Proper(x: Subject) {
    (x.NamedUser? || x.NamedGroup?) ==> x.id != "*" && forall k | 0 <= k < |x.id| :: x.id[k] != ':'
  }

  function KeyFor(x: Subject, names: Names): Option<AceKey> {
    match x
    case Owner => Some(UserObj)
    case NamedUser(id) => if id in names.users then Some(User(names.users[id])) else None
    case OwningGroup => Some(GroupObj)
    case NamedGroup(id) => if id in names.groups then Some(Group(names.groups[id])) else None
    case Everyone => Some(Other)
    case TheMask => Some(Mask)
  }

  lemma {:induction false} FindColonIs(s: string, i: nat, c: nat)
    requires i <= c < |s| && s[c] == ':'
    requires forall k | i <= k < c :: s[k] != ':'
    ensures FindColon(s, i) == c
    decreases c - i
  {
    if i < c {
      FindColonIs(s, i + 1, c);
    }
  }

  lemma {:induction false} NamedEntity(ace: string, k: EntityKind, id: string, rest: string, names: Names)
    requires HasId(k) && KindOf(ace) == k && |ace| >= AfterEntity(k)
    requires ace[AfterEntity(k)..] == id + ([':'] + rest)
    requires forall j | 0 <= j < |id| :: id[j] != ':'
    ensures EntityOf(ace, names) == match Resolve(k, id, names)
                                    case None => NoEntity
                                    case Some(key) => Entity(key, AfterEntity(k) + |id|)
  {
    var i := AfterEntity(k);
    var t := ace[i..];
    assert forall j | 0 <= j < |t| :: ace[i + j] == t[j];
    FindColonIs(ace, i, i + |id|);
    assert ace[i..i + |id|] == t[..|id|] == id;
  }

  lemma {:induction false} StartsUser(ace: string, id: string, rest: string)
    requires ace == ("user:" + id) + ([':'] + rest)
    ensures KindOf(ace) == UserKind && ace[5..] == id + ([':'] + rest)
  {
    assert ace == "user:" + (id + ([':'] + rest));
  }

  lemma {:induction false} StartsGroup(ace: string, id: string, rest: string)
    requires ace == ("group:" + id) + ([':'] + rest)
    ensures KindOf(ace) == GroupKind && ace[6..] == id + ([':'] + rest)
  {
    assert ace == "group:" + (id + ([':'] + rest));
    assert ace[..5][0] == 'g' && "user:"[0] == 'u';
  }

  lemma {:induction false} StartsAll(ace: string, rest: string)
    requires ace == "all" + ([':'] + rest)
    ensures KindOf(ace) == AllKind
  {
    assert ace == "all:" + rest;
    assert ace[0] == 'a';
    assert |ace| >= 5 ==> ace[..5][0] == 'a';
    assert |ace| >= 6 ==> ace[..6][0] == 'a';
    assert "user:"[0] == 'u' && "group:"[0] == 'g';
  }

  lemma {:induction false} StartsMask(ace: string, rest: string)
    requires ace == "mask" + ([':'] + rest)
    ensures KindOf(ace) == MaskKind
  {
    assert ace == "mask:" + rest;
    assert ace[0] == 'm';
    assert ace[..5][0] == 'm' && ace[..4][0] == 'm';
    assert |ace| >= 6 ==> ace[..6][0] == 'm';
    assert "user:"[0] == 'u' && "group:"[0] == 'g' && "all:"[0] == 'a';
  }

  /** The entity parser finds the subject that was written, and stops behind it. */
  lemma {:induction false} SubjectIsFound(ace: string, x: Subject, rest: string, names: Names)
    requires Proper(x) && ace == Written(x) + ([':'] + rest)
    ensures EntityOf(ace, names) == match KeyFor(x, names)
                                    case None => NoEntity
                                    case Some(key) => Entity(key, |Written(x)|)
  {
    match x
    case Owner =>
      assert "user:*" == "user:" + "*";
      StartsUser(ace, "*", rest);
      NamedEntity(ace, UserKind, "*", rest, names);
    case NamedUser(id) =>
      StartsUser(ace, id, rest);
      NamedEntity(ace, UserKind, id, rest, names);
    case OwningGroup =>
      assert "group:*" == "group:" + "*";
      StartsGroup(ace, "*", rest);
      NamedEntity(ace, GroupKind, "*", rest, names);
    case NamedGroup(id) =>
      StartsGroup(ace, id, rest);
      NamedEntity(ace, GroupKind, id, rest, names);
    case Everyone => StartsAll(ace, rest);
    case TheMask => StartsMask(ace, rest);
  }

  // ---------------------------------------------------------------- which entries are accepted

  /** An entry as it is written; `tail` is empty or the permission type behind a colon. */
  datatype AceText = AceText(subject: Subject, mode: seq<ModeEntry>, tail: string)

  function Text(e: AceText): string
    requires e.mode != []
  {
    Written(e.subject) + ([':'] + (RenderMode(e.mode) + e.tail))
  }

  /** An entry of the grammar: a mode with the native flags that are known, and any permission type. */
  ghost predicate Grammatical(e: AceText, nperms: set<char>) {
    && Proper(e.subject) && (e.subject.NamedUser? || e.subject.NamedGroup? ==> e.subject.id != [])
    && EndsField(e.tail, 0) && e.mode != [] && AllWellFormed(e.mode, nperms)
  }

  /** Permission type and mask, by what the promise type allows. */
  predicate Allowed(e: AceText, deny: bool, mask: bool) {
    && (e.tail == [] || e.tail == [':', 'a', 'l', 'l', 'o', 'w'] || (deny && e.tail == [':', 'd', 'e', 'n', 'y']))
    && (e.subject == TheMask ==> mask)
  }

  lemma {:induction false} TailType(tail: string, deny: bool)
    requires tail != [] && tail[0] == ':'
    ensures PermTypeOk(tail[1..], deny) <==>
              tail == [':', 'a', 'l', 'l', 'o', 'w'] || (deny && tail == [':', 'd', 'e', 'n', 'y'])
  {
    assert tail == [':'] + tail[1..];
    assert "allow" == ['a', 'l', 'l', 'o', 'w'] && "deny" == ['d', 'e', 'n', 'y'];
    assert [':', 'a', 'l', 'l', 'o', 'w'] == [':'] + ['a', 'l', 'l', 'o', 'w'];
    assert [':', 'd', 'e', 'n', 'y'] == [':'] + ['d', 'e', 'n', 'y'];
    assert [':', 'a', 'l', 'l', 'o', 'w'][1..] == ['a', 'l', 'l', 'o', 'w'];
    assert [':', 'd', 'e', 'n', 'y'][1..] == ['d', 'e', 'n', 'y'];
  }

  lemma {:induction false} FieldsChecked(ace: string, m: nat, es: seq<ModeEntry>, tail: string, nperms: set<char>, deny: bool)
    requires es != [] && AllWellFormed(es, nperms) && nperms <= NATIVE_PERMS_POSIX
    requires m <= |ace| && ace[m..] == RenderMode(es) + tail && EndsField(tail, 0)
    ensures CheckFields(ace, m, nperms, deny)
            == if tail == [] || PermTypeOk(tail[1..], deny) then Accepted(m) else Rejected
  {
    var end := m + |RenderMode(es)|;
    RenderedIsAccepted(ace, m, es, tail, nperms);
    SuffixAfter(ace, m, RenderMode(es), tail);
    assert tail != [] ==> ace[end + 1..] == ace[end..][1..] == tail[1..];
  }

  /** The checker goes on with the fields from `m`, which read `rest`. */
  ghost predicate ChecksFrom(ace: string, m: nat, rest: string, nperms: set<char>, deny: bool, mask: bool) {
    m <= |ace| && ace[m..] == rest && CheckAce(ace, nperms, deny, mask) == CheckFields(ace, m, nperms, deny)
  }

  lemma {:induction false} IdColon(ace: string, i: nat, id: string, rest: string)
    requires i <= |ace| && ace[i..] == id + ([':'] + rest)
    requires id != [] && forall j | 0 <= j < |id| :: id[j] != ':'
    ensures i + |id| < |ace| && ace[i] != ':' && FindColon(ace, i + 1) == i + |id| && ace[i + |id| + 1..] == rest
  {
    var t := ace[i..];
    assert forall j | 0 <= j < |t| :: ace[i + j] == t[j];
    FindColonIs(ace, i + 1, i + |id|);
    SuffixAfter(ace, i, id, [':'] + rest);
    SuffixAfter(ace, i + |id|, [':'], rest);
  }

  /** The entity is of kind `k`, and the fields behind it and its id begin at `m`. */
  ghost predicate FieldsAt(ace: string, k: EntityKind, m: nat, rest: string) {
    && m <= |ace| && ace[m..] == rest && k != UnknownKind && KindOf(ace) == k
    && if HasId(k)
       then AfterEntity(k) + 1 < m && ace[AfterEntity(k)] != ':' && FindColon(ace, AfterEntity(k) + 1) == m - 1
       else m == AfterEntity(k)
  }

  lemma {:induction false} ChecksFields(ace: string, k: EntityKind, m: nat, rest: string, nperms: set<char>, deny: bool, mask: bool)
    requires FieldsAt(ace, k, m, rest)
    ensures if k == MaskKind && !mask then CheckAce(ace, nperms, deny, mask) == Rejected
            else ChecksFrom(ace, m, rest, nperms, deny, mask)
  {
  }

  lemma {:induction false} UserFields(ace: string, text: string, id: string, rest: string)
    requires id != [] && forall j | 0 <= j < |id| :: id[j] != ':'
    requires text == "user:" + id && ace == text + ([':'] + rest)
    ensures FieldsAt(ace, UserKind, |text| + 1, rest)
  {
    StartsUser(ace, id, rest);
    IdColon(ace, 5, id, rest);
  }

  lemma {:induction false} GroupFields(ace: string, text: string, id: string, rest: string)
    requires id != [] && forall j | 0 <= j < |id| :: id[j] != ':'
    requires text == "group:" + id && ace == text + ([':'] + rest)
    ensures FieldsAt(ace, GroupKind, |text| + 1, rest)
  {
    StartsGroup(ace, id, rest);
    IdColon(ace, 6, id, rest);
  }

  lemma {:induction false} AllFields(ace: string, rest: string)
    requires ace == "all" + ([':'] + rest)
    ensures FieldsAt(ace, AllKind, 4, rest)
  {
    StartsAll(ace, rest);
    assert ace == "all:" + rest;
  }

  lemma {:induction false} MaskFields(ace: string, rest: string)
    requires ace == "mask" + ([':'] + rest)
    ensures FieldsAt(ace, MaskKind, 5, rest)
  {
    StartsMask(ace, rest);
    assert ace == "mask:" + rest;
  }

  function KindFor(x: Subject): EntityKind {
    match x
    case Owner => UserKind
    case NamedUser(_) => UserKind
    case OwningGroup => GroupKind
    case NamedGroup(_) => GroupKind
    case Everyone => AllKind
    case TheMask => MaskKind
  }

  lemma {:induction false} StarWritten()
    ensures Written(Owner) == "user:" + ['*'] && Written(OwningGroup) == "group:" + ['*']
  {
  }

  lemma {:induction false} SubjectFields(ace: string, x: Subject, text: string, rest: string)
    requires Proper(x) && (x.NamedUser? || x.NamedGroup? ==> x.id != [])
    requires text == Written(x) && ace == text + ([':'] + rest)
    ensures FieldsAt(ace, KindFor(x), |text| + 1, rest)
  {
    StarWritten();
    match x
    case Owner => UserFields(ace, text, ['*'], rest);
    case NamedUser(id) => UserFields(ace, text, id, rest);
    case OwningGroup => GroupFields(ace, text, ['*'], rest);
    case NamedGroup(id) => GroupFields(ace, text, id, rest);
    case Everyone => AllFields(ace, rest);
    case TheMask => MaskFields(ace, rest);
  }

  /** What the checker makes of the subject: it goes on behind the colon after it, unless a mask is
      not allowed. */
  lemma {:induction false} SubjectChecked(ace: string, x: Subject, text: string, rest: string, nperms: set<char>, deny: bool, mask: bool)
    requires Proper(x) && (x.NamedUser? || x.NamedGroup? ==> x.id != [])
    requires text == Written(x) && ace == text + ([':'] + rest)
    ensures if x == TheMask && !mask then CheckAce(ace, nperms, deny, mask) == Rejected
            else ChecksFrom(ace, |text| + 1, rest, nperms, deny, mask)
  {
    SubjectFields(ace, x, text, rest);
    ChecksFields(ace, KindFor(x), |text| + 1, rest, nperms, deny, mask);
  }

  /** Of the entries of the grammar the checker accepts exactly the allowed ones. */
  lemma {:induction false} GrammaticalChecked(e: AceText, nperms: set<char>, deny: bool, mask: bool)
    requires Grammatical(e, nperms) && nperms <= NATIVE_PERMS_POSIX
    ensures CheckAce(Text(e), nperms, deny, mask)
            == if Allowed(e, deny, mask) then Accepted(|Written(e.subject)| + 1) else Rejected
  {
    var rest := RenderMode(e.mode) + e.tail;
    SubjectChecked(Text(e), e.subject, Written(e.subject), rest, nperms, deny, mask);
    FieldsChecked(Text(e), |Written(e.subject)| + 1, e.mode, e.tail, nperms, deny);
    if e.tail != [] { TailType(e.tail, deny); }
  }

  lemma {:induction false} SubjectOf(ace: string, nperms: set<char>, deny: bool, mask: bool, m: nat) returns (x: Subject)
    requires CheckAce(ace, nperms, deny, mask) == Accepted(m)
    ensures m <= |ace| && ace == Written(x) + ([':'] + ace[m..])
    ensures Proper(x) && (x.NamedUser? || x.NamedGroup? ==> x.id != []) && (x == TheMask ==> mask)
  {
    AcceptedId(ace, nperms, deny, mask);
    x := SubjectAt(ace, KindOf(ace), m, mask);
  }

  lemma {:induction false} SubjectAt(ace: string, k: EntityKind, m: nat, mask: bool) returns (x: Subject)
    requires k == KindOf(ace) && IdEnds(ace, k, m, mask)
    ensures ace == Written(x) + ([':'] + ace[m..])
    ensures Proper(x) && (x.NamedUser? || x.NamedGroup? ==> x.id != []) && (x == TheMask ==> mask)
  {
    EntityFits(ace);
    var i := AfterEntity(k);
    if k == UserKind {
      var id := ace[i..m - 1];
      assert ace == ("user:" + id) + ([':'] + ace[m..]);
      assert "user:*" == "user:" + "*";
      x := if id == "*" then Owner else NamedUser(id);
    } else if k == GroupKind {
      var id := ace[i..m - 1];
      assert ace == ("group:" + id) + ([':'] + ace[m..]);
      assert "group:*" == "group:" + "*";
      x := if id == "*" then OwningGroup else NamedGroup(id);
    } else if k == AllKind {
      x := Everyone;
      assert ace == "all:" + ace[4..] && "all:" == "all" + [':'];
    } else {
      x := TheMask;
      assert ace == "mask:" + ace[5..] && "mask:" == "mask" + [':'];
    }
  }

  /** Behind the entity, and the id if there is one, the mode begins at `m`. */
  ghost predicate IdEnds(ace: string, k: EntityKind, m: nat, mask: bool) {
    var i := AfterEntity(k);
    && k != UnknownKind && (k == MaskKind ==> mask) && i <= m <= |ace|
    && (!HasId(k) ==> m == i)
    && (HasId(k) ==> i + 1 < m && ace[m - 1] == ':' && forall j | i <= j < m - 1 :: ace[j] != ':')
  }

  lemma {:induction false} AcceptedId(ace: string, nperms: set<char>, deny: bool, mask: bool)
    requires CheckAce(ace, nperms, deny, mask).Accepted?
    ensures IdEnds(ace, KindOf(ace), CheckAce(ace, nperms, deny, mask).mode, mask)
  {
    EntityFits(ace);
    var i := AfterEntity(KindOf(ace));
    if HasId(KindOf(ace)) { FindColonFirst(ace, i + 1); }
  }

  lemma {:induction false} FindColonFirst(s: string, i: nat)
    requires i <= |s|
    ensures forall j | i <= j < FindColon(s, i) :: s[j] != ':'
    decreases |s| - i
  {
    if i < |s| && s[i] != ':' { FindColonFirst(s, i + 1); }
  }

  /** What the checker accepts is an allowed entry of the grammar. */
  lemma {:induction false} AcceptedIsWritten(ace: string, nperms: set<char>, deny: bool, mask: bool) returns (e: AceText)
    requires CheckAce(ace, nperms, deny, mask).Accepted?
    ensures Grammatical(e, nperms) && Allowed(e, deny, mask) && ace == Text(e)
  {
    var m := CheckAce(ace, nperms, deny, mask).mode;
    AcceptedFields(ace, nperms, deny, mask, m);
    var end := AcceptedTail(ace, nperms, deny, m);
    var x := SubjectOf(ace, nperms, deny, mask, m);
    var es := AcceptedIsRendered(ace, m, nperms);
    e := AceText(x, es, ace[end..]);
    TextIs(ace, m, end, x, es);
    AllowedTail(ace, end, deny);
  }

  lemma {:induction false} TextIs(ace: string, m: nat, end: nat, x: Subject, es: seq<ModeEntry>)
    requires m <= end <= |ace| && ace == Written(x) + ([':'] + ace[m..]) && es != [] && ace[m..end] == RenderMode(es)
    ensures ace == Text(AceText(x, es, ace[end..]))
  {
    assert ace[m..] == ace[m..end] + ace[end..];
  }

  lemma {:induction false} AllowedTail(ace: string, end: nat, deny: bool)
    requires EndsField(ace, end) && (end < |ace| ==> PermTypeOk(ace[end + 1..], deny))
    ensures var tail := ace[end..];
            && EndsField(tail, 0)
            && (tail == [] || tail == [':', 'a', 'l', 'l', 'o', 'w'] || (deny && tail == [':', 'd', 'e', 'n', 'y']))
  {
    var tail := ace[end..];
    if end < |ace| {
      assert tail[0] == ':' && tail[1..] == ace[end + 1..];
      TailType(tail, deny);
    }
  }

  lemma {:induction false} AcceptedFields(ace: string, nperms: set<char>, deny: bool, mask: bool, m: nat)
    requires CheckAce(ace, nperms, deny, mask) == Accepted(m)
    ensures m <= |ace| && CheckFields(ace, m, nperms, deny) == Accepted(m)
  {
  }

  lemma {:induction false} AcceptedTail(ace: string, nperms: set<char>, deny: bool, m: nat) returns (end: nat)
    requires m <= |ace| && CheckFields(ace, m, nperms, deny) == Accepted(m)
    ensures m <= end <= |ace| && ScanMode(ace, m, nperms).ModeScan? && ScanMode(ace, m, nperms).end == end
    ensures end < |ace| ==> PermTypeOk(ace[end + 1..], deny)
  {
    end := ScanMode(ace, m, nperms).end;
  }

  // ---------------------------------------------------------------- the promised ACL

  /** The `j`-th entry of the list is written for `x` with mode `es`. */
  ghost predicate WrittenFor(aces: seq<string>, j: nat, x: Subject, es: seq<ModeEntry>, tail: string) {
    && j < |aces| && Proper(x) && EndsField(tail, 0)
    && es != [] && AllWellFormed(es, NATIVE_PERMS_POSIX)
    && aces[j] == Written(x) + ([':'] + (RenderMode(es) + tail))
  }

  lemma {:induction false} MeansBehind(ace: string, n: nat, es: seq<ModeEntry>, tail: string, p: Permset)
    requires es != [] && AllWellFormed(es, NATIVE_PERMS_POSIX) && EndsField(tail, 0)
    requires n <= |ace| && ace[n..] == [':'] + (RenderMode(es) + tail)
    ensures CharAt(ace, n, ':') && Interpret(ace, n + 1, p).Parsed? && Means(es, p, Interpret(ace, n + 1, p).perms)
  {
    SuffixAfter(ace, n, [], [':'] + (RenderMode(es) + tail));
    SuffixAfter(ace, n, [':'], RenderMode(es) + tail);
    InterpretHeld(ace, n + 1, es, tail, p);
  }

  lemma {:induction false} OnKeyIs(ace: string, names: Names, key: AceKey, n: nat, p: Permset)
    requires EntityOf(ace, names) == Entity(key, n) && CharAt(ace, n, ':') && Interpret(ace, n + 1, {}).Parsed?
    ensures KeyOf(ace, names) == Some(key) && Parses(ace, names)
    ensures Interpret(ace, n + 1, p).Parsed? ==> OnKey(ace, names, key, p) == Interpret(ace, n + 1, p).perms
  {
  }

  lemma {:induction false} OnKeyMeans(ace: string, x: Subject, es: seq<ModeEntry>, tail: string, names: Names, key: AceKey, p: Permset)
    requires WrittenFor([ace], 0, x, es, tail) && KeyFor(x, names) == Some(key)
    ensures KeyOf(ace, names) == Some(key) && Parses(ace, names)
    ensures Means(es, p, OnKey(ace, names, key, p))
  {
    var n := |Written(x)|;
    var rest := RenderMode(es) + tail;
    assert ace[n..] == [':'] + rest;
    MeansBehind(ace, n, es, tail, p);
    MeansBehind(ace, n, es, tail, {});
    SubjectIsFound(ace, x, rest, names);
    OnKeyIs(ace, names, key, n, p);
  }

  lemma {:induction false} FoldOfOne(aces: seq<string>, j: nat, names: Names, key: AceKey, p: Permset)
    requires AllParse(aces, names) && j < |aces| && KeyOf(aces[j], names) == Some(key)
    requires forall i | 0 <= i < |aces| && i != j :: KeyOf(aces[i], names) != Some(key)
    ensures Parses(aces[j], names) && Mentions(aces, names, key)
    ensures FoldOnKey(aces, names, key, p) == OnKey(aces[j], names, key, p)
    decreases |aces|
  {
    if j == 0 {
      assert forall i | 0 <= i < |aces[1..]| :: aces[1..][i] == aces[i + 1];
      NotMentioned(aces[1..], names, key);
      UnmentionedFold(aces[1..], names, key, OnKey(aces[0], names, key, p));
    } else {
      assert KeyOf(aces[0], names) != Some(key);
      FoldOfOne(aces[1..], j - 1, names, key, p);
    }
  }

  lemma {:induction false} NotMentioned(aces: seq<string>, names: Names, key: AceKey)
    requires forall i | 0 <= i < |aces| :: KeyOf(aces[i], names) != Some(key)
    ensures !Mentions(aces, names, key)
  {
    if aces != [] {
      NotMentioned(aces[1..], names, key);
    }
  }

  /** What the promise starts from for one key. */
  function Before(how: AclMethod, existing: seq<Ace>, key: AceKey): Option<Permset> {
    if how == Append then Lookup(existing, key) else None
  }

  lemma {:induction false} TargetAt(aces: seq<string>, how: AclMethod, existing: seq<Ace>, names: Names, key: AceKey)
    requires Target(aces, how, existing, names).Some?
    requires key != Mask || HasMask(aces, names)
    ensures AllParse(aces, names)
    ensures var start := if how == Append then existing else [];
            Lookup(Target(aces, how, existing, names).value, key)
            == if Mentions(aces, names, key) then Some(FoldOnKey(aces, names, key, Existing(start, key)))
               else Lookup(start, key)
  {
    var start := if how == Append then existing else [];
    ApplyAcesAt(start, aces, names, key);
    var acl := ApplyAces(start, aces, names).value;
    SetPermsLookup(acl, Mask, GroupClassUnion(acl), key);
  }

  /** A key that one entry names gets what the letters of that entry say. */
  lemma {:induction false} OneEntryDecides(aces: seq<string>, j: nat, x: Subject, es: seq<ModeEntry>, tail: string,
                                           how: AclMethod, existing: seq<Ace>, names: Names, key: AceKey)
    requires Target(aces, how, existing, names).Some?
    requires WrittenFor(aces, j, x, es, tail) && KeyFor(x, names) == Some(key)
    requires forall i | 0 <= i < |aces| && i != j :: KeyOf(aces[i], names) != Some(key)
    ensures var had := Before(how, existing, key);
            var got := Lookup(Target(aces, how, existing, names).value, key);
            got.Some? && Means(es, if had.Some? then had.value else {}, got.value)
  {
    var had := Before(how, existing, key);
    var p := if had.Some? then had.value else {};
    assert [aces[j]][0] == aces[j];
    OnKeyMeans(aces[j], x, es, tail, names, key, p);
    var start := if how == Append then existing else [];
    ApplyAcesAt(start, aces, names, key);
    FoldOfOne(aces, j, names, key, p);
    TargetAt(aces, how, existing, names, key);
    assert Existing(start, key) == p;
  }

  ghost predicate ProperText(e: AceText) {
    && Proper(e.subject) && EndsField(e.tail, 0)
    && e.mode != [] && AllWellFormed(e.mode, NATIVE_PERMS_POSIX)
  }

  ghost predicate ListWritten(list: seq<AceText>, aces: seq<string>) {
    && |list| == |aces|
    && (list == [] || (&& ProperText(list[0]) && aces[0] == Text(list[0])
                       && ListWritten(list[1..], aces[1..])))
  }

  predicate AllKnown(list: seq<AceText>, names: Names) {
    list == [] || (KeyFor(list[0].subject, names).Some? && AllKnown(list[1..], names))
  }

  predicate SomeFor(list: seq<AceText>, names: Names, key: AceKey) {
    list != [] && (KeyFor(list[0].subject, names) == Some(key) || SomeFor(list[1..], names, key))
  }

  /** Whether a key holds the permission with letter `c` after the whole list. */
  predicate HeldByList(list: seq<AceText>, names: Names, key: AceKey, c: char, had: bool) {
    if list == [] then had
    else HeldByList(list[1..], names, key, c,
                    if KeyFor(list[0].subject, names) == Some(key) then HeldAfterAll(list[0].mode, c, had) else had)
  }

  ghost predicate ListMeans(list: seq<AceText>, names: Names, key: AceKey, p: Permset, q: Permset) {
    && (Read in q <==> HeldByList(list, names, key, 'r', Read in p))
    && (Write in q <==> HeldByList(list, names, key, 'w', Write in p))
    && (Execute in q <==> HeldByList(list, names, key, 'x', Execute in p))
  }

  lemma {:induction false} HeadParses(e: AceText, ace: string, names: Names, key: AceKey, p: Permset)
    requires ProperText(e) && ace == Text(e)
    ensures KeyOf(ace, names) == KeyFor(e.subject, names)
    ensures Parses(ace, names) <==> KeyFor(e.subject, names).Some?
    ensures Parses(ace, names) ==>
              if KeyFor(e.subject, names) == Some(key) then Means(e.mode, p, OnKey(ace, names, key, p))
              else OnKey(ace, names, key, p) == p
  {
    SubjectIsFound(ace, e.subject, RenderMode(e.mode) + e.tail, names);
    var known := KeyFor(e.subject, names);
    if known.Some? {
      OnKeyMeans(ace, e.subject, e.mode, e.tail, names, known.value, p);
    }
  }

  lemma {:induction false} ListParses(list: seq<AceText>, aces: seq<string>, names: Names, key: AceKey)
    requires ListWritten(list, aces)
    ensures AllParse(aces, names) <==> AllKnown(list, names)
    ensures Mentions(aces, names, key) <==> SomeFor(list, names, key)
  {
    if list != [] {
      HeadParses(list[0], aces[0], names, key, {});
      ListParses(list[1..], aces[1..], names, key);
    }
  }

  lemma {:induction false} ListFolds(list: seq<AceText>, aces: seq<string>, names: Names, key: AceKey, p: Permset)
    requires ListWritten(list, aces) && AllParse(aces, names)
    ensures ListMeans(list, names, key, p, FoldOnKey(aces, names, key, p))
  {
    if list != [] {
      var q := OnKey(aces[0], names, key, p);
      HeadParses(list[0], aces[0], names, key, p);
      ListFolds(list[1..], aces[1..], names, key, q);
      ListMeansCons(list, names, key, p, q, FoldOnKey(aces[1..], names, key, q));
    }
  }

  lemma {:induction false} ListMeansCons(list: seq<AceText>, names: Names, key: AceKey, p: Permset, q: Permset, r: Permset)
    requires list != [] && ListMeans(list[1..], names, key, q, r)
    requires if KeyFor(list[0].subject, names) == Some(key) then Means(list[0].mode, p, q) else q == p
    ensures ListMeans(list, names, key, p, r)
  {
  }

  /** The promised ACL of any written list: there is one exactly when every name is known, and then
      each key is present when it was there or is named, with what the letters of the entries for it
      say one after the other. */
  lemma {:induction false} ListDecides(list: seq<AceText>, aces: seq<string>, how: AclMethod, existing: seq<Ace>, names: Names, key: AceKey)
    requires ListWritten(list, aces)
    requires key != Mask || SomeFor(list, names, Mask)
    ensures Target(aces, how, existing, names).Some? <==> AllKnown(list, names)
    ensures AllKnown(list, names) ==>
              var had, got := Before(how, existing, key), Lookup(Target(aces, how, existing, names).value, key);
              && (got.Some? <==> had.Some? || SomeFor(list, names, key))
              && (got.Some? ==> ListMeans(list, names, key, if had.Some? then had.value else {}, got.value))
  {
    var had := Before(how, existing, key);
    var start := if how == Append then existing else [];
    ListParses(list, aces, names, key);
    ApplyAcesAt(start, aces, names, key);
    if AllKnown(list, names) {
      TargetAt(aces, how, existing, names, key);
      ListFolds(list, aces, names, key, Existing(start, key));
      if !SomeFor(list, names, key) {
        UnmentionedFold(aces, names, key, Existing(start, key));
      }
    }
  }

  /** A key that no entry names keeps what it had under append, and is gone under overwrite; the
      mask is calculated instead. */
  lemma {:induction false} UnnamedKeys(aces: seq<string>, how: AclMethod, existing: seq<Ace>, names: Names, key: AceKey)
    requires Target(aces, how, existing, names).Some? && key != Mask
    requires forall i | 0 <= i < |aces| :: KeyOf(aces[i], names) != Some(key)
    ensures Lookup(Target(aces, how, existing, names).value, key) == Before(how, existing, key)
  {
    NotMentioned(aces, names, key);
    TargetAt(aces, how, existing, names, key);
  }

  ghost predicate HasPerm(acl: seq<Ace>, key: AceKey, perm: Perm) {
    Lookup(acl, key).Some? && perm in Lookup(acl, key).value
  }

  /** Without an entry for it, the mask is what users, groups and the owning group hold together. */
  lemma {:induction false} CalculatedMask(aces: seq<string>, how: AclMethod, existing: seq<Ace>, names: Names, perm: Perm)
    requires NoDup(existing) && Target(aces, how, existing, names).Some?
    requires forall i | 0 <= i < |aces| :: KeyOf(aces[i], names) != Some(Mask)
    ensures var acl := Target(aces, how, existing, names).value;
            HasPerm(acl, Mask, perm) <==>
              (|| HasPerm(acl, GroupObj, perm)
               || (exists uid: nat :: HasPerm(acl, User(uid), perm))
               || (exists gid: nat :: HasPerm(acl, Group(gid), perm)))
  {
    NotMentioned(aces, names, Mask);
    var start := if how == Append then existing else [];
    var acl := ApplyAces(start, aces, names).value;
    ApplyAcesNoDup(start, aces, names);
    UnionHolds(acl, perm);
    forall k ensures Lookup(CalcMask(acl), k) == if k == Mask then Some(GroupClassUnion(acl)) else Lookup(acl, k) {
      SetPermsLookup(acl, Mask, GroupClassUnion(acl), k);
    }
    SameHolders(acl, CalcMask(acl), perm);
  }

  ghost predicate ClassHolds(acl: seq<Ace>, perm: Perm) {
    || HasPerm(acl, GroupObj, perm)
    || (exists uid: nat :: HasPerm(acl, User(uid), perm))
    || (exists gid: nat :: HasPerm(acl, Group(gid), perm))
  }

  lemma {:induction false} SameHolders(a: seq<Ace>, b: seq<Ace>, perm: Perm)
    requires forall k | k != Mask :: Lookup(b, k) == Lookup(a, k)
    ensures ClassHolds(a, perm) <==> ClassHolds(b, perm)
  {
    forall k: AceKey | k != Mask ensures HasPerm(a, k, perm) <==> HasPerm(b, k, perm) {
      assert Lookup(b, k) == Lookup(a, k);
    }
  }

  lemma {:induction false} UnionHolds(acl: seq<Ace>, perm: Perm)
    requires NoDup(acl)
    ensures perm in GroupClassUnion(acl) <==> ClassHolds(acl, perm)
  {
    if perm in GroupClassUnion(acl) {
      var i :| 0 <= i < |acl| && InGroupClass(acl[i].key) && perm in acl[i].perms;
      LookupAt(acl, i);
      assert HasPerm(acl, acl[i].key, perm);
      HolderCounts(acl, acl[i].key, perm);
    }
    forall k: AceKey | InGroupClass(k) && HasPerm(acl, k, perm) ensures perm in GroupClassUnion(acl) {
      HolderIn(acl, k, FindIndex(acl, k), perm);
    }
  }

  lemma {:induction false} HolderCounts(acl: seq<Ace>, k: AceKey, perm: Perm)
    requires InGroupClass(k) && HasPerm(acl, k, perm)
    ensures ClassHolds(acl, perm)
  {
    match k
    case User(uid) => assert HasPerm(acl, User(uid), perm);
    case Group(gid) => assert HasPerm(acl, Group(gid), perm);
    case _ =>
  }

  lemma {:induction false} HolderIn(acl: seq<Ace>, k: AceKey, i: nat, perm: Perm)
    requires InGroupClass(k) && HasPerm(acl, k, perm) && i == FindIndex(acl, k)
    ensures perm in GroupClassUnion(acl)
  {
    assert acl[i].key == k && acl[i].perms == Lookup(acl, k).value;
  }
}
