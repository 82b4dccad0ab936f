/** The checksum database and the file comparison of cf-agent/verify_files_hashes.c, and the integrity
    check of cf-agent/verify_files_utils.c that uses the database. */
module ChecksumDb {
  import opened Common

  datatype HashMethod = Md5 | Sha224 | Sha256 | Sha384 | Sha512 | Sha1 | Sha | Best | Crypt

  function HashName(m: HashMethod): string {
    match m
    case Md5 => ['m', 'd', '5']
    case Sha224 => ['s', 'h', 'a', '2', '2', '4']
    case Sha256 => ['s', 'h', 'a', '2', '5', '6']
    case Sha384 => ['s', 'h', 'a', '3', '8', '4']
    case Sha512 => ['s', 'h', 'a', '5', '1', '2']
    case Sha1 => ['s', 'h', 'a', '1']
    case Sha => ['s', 'h', 'a']
    case Best => ['b', 'e', 's', 't']
    case Crypt => ['c', 'r', 'y', 'p', 't']
  }

  /** How many bytes of a digest are compared. */
  function HashSize(m: HashMethod): nat {
    match m
    case Md5 => 16
    case Sha224 => 28
    case Sha256 => 32
    case Sha384 => 48
    case Sha512 => 64
    case Sha1 => 20
    case Sha => 20
    case Best => 0
    case Crypt => 64
  }

  const DIGEST_BUFFER := 65

  /** A digest buffer of EVP_MAX_MD_SIZE + 1 bytes. */
  type Digest = d: seq<int> | |d| == DIGEST_BUFFER witness seq(DIGEST_BUFFER, _ => 0)

  // ---------------------------------------------------------------- keys

  const INDEX_FIELD_LEN := 7
  const INDEX_OFFSET := 8
  const NUL: char := '\0'

  /** The hash name padded to the offset of the file name. */
  function IndexField(m: HashMethod): (f: string)
    ensures |f| == INDEX_OFFSET
  {
    HashName(m) + seq(INDEX_OFFSET - |HashName(m)|, _ => NUL)
  }

  function IndexKey(m: HashMethod, name: string): string {
    IndexField(m) + (name + [NUL])
  }

  /** NewIndexKey: a zeroed buffer filled in at two offsets. */
  method NewIndexKey(m: HashMethod, name: string) returns (key: array<char>)
    ensures fresh(key) && key[..] == IndexKey(m, name)
  {
    var size := |name| + INDEX_OFFSET + 1;
    key := new char[size](_ => NUL);
    var field := HashName(m);
    var i := 0;
    while i < |field|
      invariant i <= |field|
      invariant forall k | 0 <= k < size :: key[k] == if k < i then field[k] else NUL
    {
      key[i] := field[i];
      i := i + 1;
    }
    i := 0;
    while i < |name|
      invariant i <= |name|
      invariant forall k | 0 <= k < INDEX_OFFSET :: key[k] == IndexField(m)[k]
      invariant forall k | 0 <= k < i :: key[INDEX_OFFSET + k] == name[k]
      invariant key[size - 1] == NUL
    {
      key[INDEX_OFFSET + i] := name[i];
      i := i + 1;
    }
    assert key[..INDEX_OFFSET] == IndexField(m);
    assert key[INDEX_OFFSET..] == name + [NUL];
    assert key[..] == key[..INDEX_OFFSET] + key[INDEX_OFFSET..];
  }

  /** The method whose name starts an index field. */
  function MethodOf(f: string): HashMethod
    requires |f| == INDEX_OFFSET
  {
    if f[0] == 'm' then Md5
    else if f[0] == 'b' then Best
    else if f[0] == 'c' then Crypt
    else if f[3] == NUL then Sha
    else if f[3] == '1' then Sha1
    else if f[3] == '3' then Sha384
    else if f[3] == '5' then Sha512
    else if f[4] == '2' then Sha224
    else Sha256
  }

  lemma {:induction false} FieldDecodes(m: HashMethod)
    ensures MethodOf(IndexField(m)) == m
  {
  }

  /** Different files or methods have different keys, whatever the file name contains. */
  lemma {:induction false} IndexKeyInjective(m1: HashMethod, n1: string, m2: HashMethod, n2: string)
    requires IndexKey(m1, n1) == IndexKey(m2, n2)
    ensures m1 == m2 && n1 == n2
  {
    var k1, k2 := IndexKey(m1, n1), IndexKey(m2, n2);
    assert k1[..INDEX_OFFSET] == IndexField(m1) && k2[..INDEX_OFFSET] == IndexField(m2);
    assert k1[INDEX_OFFSET..] == n1 + [NUL] && k2[INDEX_OFFSET..] == n2 + [NUL];
    FieldDecodes(m1);
    FieldDecodes(m2);
    assert n1 == (n1 + [NUL])[..|n1|] && n2 == (n2 + [NUL])[..|n2|];
  }

  // ---------------------------------------------------------------- one call

  /** The bytes that are compared differ. */
  predicate Differ(m: HashMethod, a: Digest, b: Digest) {
    a[..HashSize(m)] != b[..HashSize(m)]
  }

  /** The digests differ in one of the first `n` bytes. */
  predicate DifferWithin(n: nat, a: Digest, b: Digest) {
    exists k :: 0 <= k < n && k < DIGEST_BUFFER && a[k] != b[k]
  }

  lemma {:induction false} DifferIsWithin(m: HashMethod, a: Digest, b: Digest)
    ensures Differ(m, a, b) <==> DifferWithin(HashSize(m), a, b)
  {
    var n := HashSize(m);
    if DifferWithin(n, a, b) {
      var k :| 0 <= k < n && k < DIGEST_BUFFER && a[k] != b[k];
      assert a[..n][k] == a[k] && b[..n][k] == b[k];
    } else {
      forall k | 0 <= k < n ensures a[..n][k] == b[..n][k] {
        assert !(a[k] != b[k]);
      }
      assert a[..n] == b[..n];
    }
  }

  /** The bytes compared are those of the digest: 16 for MD5, 20 for SHA1, 28, 32, 48 and 64 for the
      members of SHA2. A call with the method "best" itself would compare none. */
  lemma {:induction false} WholeDigestCompared(a: Digest, b: Digest)
    ensures Differ(Md5, a, b) <==> DifferWithin(16, a, b)
    ensures Differ(Sha1, a, b) <==> DifferWithin(20, a, b)
    ensures Differ(Sha, a, b) <==> DifferWithin(20, a, b)
    ensures Differ(Sha224, a, b) <==> DifferWithin(28, a, b)
    ensures Differ(Sha256, a, b) <==> DifferWithin(32, a, b)
    ensures Differ(Sha384, a, b) <==> DifferWithin(48, a, b)
    ensures Differ(Sha512, a, b) <==> DifferWithin(64, a, b)
    ensures !Differ(Best, a, b)
  {
    DifferIsWithin(Md5, a, b);
    DifferIsWithin(Sha1, a, b);
    DifferIsWithin(Sha, a, b);
    DifferIsWithin(Sha224, a, b);
    DifferIsWithin(Sha256, a, b);
    DifferIsWithin(Sha384, a, b);
    DifferIsWithin(Sha512, a, b);
    DifferIsWithin(Best, a, b);
  }

  /** One call of FileHashChanged. */
  datatype Call = Call(file: string, hash: HashMethod, digest: Digest, update: bool)

  type Database = map<string, Digest>

  function KeyOf(c: Call): string { IndexKey(c.hash, c.file) }

  function Answer(db: Database, c: Call): bool {
    KeyOf(c) in db && Differ(c.hash, c.digest, db[KeyOf(c)])
  }

  function After(db: Database, c: Call): Database {
    if KeyOf(c) !in db || (Answer(db, c) && c.update) then db[KeyOf(c) := c.digest] else db
  }

  method DigestsDiffer(digest: Digest, stored: Digest, size: nat) returns (differ: bool)
    requires size <= DIGEST_BUFFER
    ensures differ <==> digest[..size] != stored[..size]
  {
    var i := 0;
    while i < size
      invariant i <= size
      invariant forall k | 0 <= k < i :: digest[k] == stored[k]
    {
      if digest[i] != stored[i] {
        assert digest[..size][i] != stored[..size][i];
        return true;
      }
      i := i + 1;
    }
    return false;
  }

  class HashDb {
    var entries: Database

    constructor (existing: Database)
      ensures entries == existing
    {
      entries := existing;
    }

    /** FileHashChanged. Without a database nothing is reported. */
    method FileHashChanged(c: Call, opens: bool) returns (changed: bool)
      modifies this
      ensures !opens ==> !changed && entries == old(entries)
      ensures opens ==> changed == Answer(old(entries), c) && entries == After(old(entries), c)
    {
      if !opens {
        return false;
      }
      var buffer := NewIndexKey(c.hash, c.file);
      var key := buffer[..];
      if key in entries {
        var differ := DigestsDiffer(c.digest, entries[key], HashSize(c.hash));
        if differ {
          if c.update {
            entries := entries - {key};
            entries := entries[key := c.digest];
            assert entries == old(entries)[key := c.digest];
          }
          return true;
        }
        return false;
      } else {
        entries := entries[key := c.digest];
        return false;
      }
    }
  }

  // ---------------------------------------------------------------- histories

  /** The database after a history of calls. */
  function Run(db: Database, calls: seq<Call>): Database
    decreases |calls|
  {
    if calls == [] then db else After(Run(db, calls[..|calls| - 1]), calls[|calls| - 1])
  }

  /** The calls of a history that are about one file and method. */
  function About(calls: seq<Call>, file: string, hash: HashMethod): seq<Call>
    decreases |calls|
  {
    if calls == [] then []
    else
      var last := calls[|calls| - 1];
      About(calls[..|calls| - 1], file, hash) +
      (if last.file == file && last.hash == hash then [last] else [])
  }

  /** What one call does to the digest on record for its own pair. */
  function Recorded(record: Option<Digest>, c: Call): Option<Digest> {
    match record
    case None => Some(c.digest)
    case Some(r) => Some(if Differ(c.hash, c.digest, r) && c.update then c.digest else r)
  }

  /** The digest on record for a pair, by its own history alone. */
  function Record(start: Option<Digest>, own: seq<Call>): Option<Digest>
    decreases |own|
  {
    if own == [] then start else Recorded(Record(start, own[..|own| - 1]), own[|own| - 1])
  }

  function Stored(db: Database, file: string, hash: HashMethod): Option<Digest> {
    var k := IndexKey(hash, file);
    if k in db then Some(db[k]) else None
  }

  lemma {:induction false} AfterStored(db: Database, c: Call, file: string, hash: HashMethod)
    ensures Stored(After(db, c), file, hash)
            == if c.file == file && c.hash == hash then Recorded(Stored(db, file, hash), c)
               else Stored(db, file, hash)
  {
    if KeyOf(c) == IndexKey(hash, file) {
      IndexKeyInjective(c.hash, c.file, hash, file);
    }
  }

  lemma {:induction false} RecordAppend(start: Option<Digest>, own: seq<Call>, c: Call)
    ensures Record(start, own + [c]) == Recorded(Record(start, own), c)
  {
    assert (own + [c])[..|own|] == own;
  }

  /** Over any interleaving of calls, what is on record for a pair depends only on that
      pair's own calls. */
  lemma {:induction false} RecordIsOwn(db: Database, calls: seq<Call>, file: string, hash: HashMethod)
    ensures Stored(Run(db, calls), file, hash)
            == Record(Stored(db, file, hash), About(calls, file, hash))
    decreases |calls|
  {
    if calls != [] {
      var n := |calls| - 1;
      RecordIsOwn(db, calls[..n], file, hash);
      AfterStored(Run(db, calls[..n]), calls[n], file, hash);
      var own := About(calls[..n], file, hash);
      if calls[n].file == file && calls[n].hash == hash {
        RecordAppend(Stored(db, file, hash), own, calls[n]);
      } else {
        assert About(calls, file, hash) == own;
      }
    }
  }

  /** The answer to a call after any history is decided by the pair's own earlier calls. */
  lemma {:induction false} AnswerIsOwn(db: Database, calls: seq<Call>, c: Call)
    ensures var r := Record(Stored(db, c.file, c.hash), About(calls, c.file, c.hash));
            Answer(Run(db, calls), c) <==> r.Some? && Differ(c.hash, c.digest, r.value)
  {
    RecordIsOwn(db, calls, c.file, c.hash);
  }

  predicate AllAre(own: seq<Call>, hash: HashMethod, update: bool) {
    forall i | 0 <= i < |own| :: own[i].hash == hash && own[i].update == update
  }

  lemma {:induction false} AboutHash(calls: seq<Call>, file: string, hash: HashMethod, update: bool)
    requires forall i | 0 <= i < |calls| :: calls[i].update == update
    ensures AllAre(About(calls, file, hash), hash, update)
    decreases |calls|
  {
    if calls != [] {
      var n := |calls| - 1;
      AboutHash(calls[..n], file, hash, update);
    }
  }

  /** With updates on, the record agrees with the last call's digest on every compared byte. */
  lemma {:induction false} UpdatingRecord(own: seq<Call>, hash: HashMethod)
    requires own != [] && AllAre(own, hash, true)
    ensures Record(None, own).Some? && !Differ(hash, own[|own| - 1].digest, Record(None, own).value)
    decreases |own|
  {
    if |own| > 1 {
      UpdatingRecord(own[..|own| - 1], hash);
    } else {
      assert own[..0] == [];
    }
  }

  /** With updates off, the record stays the first call's digest. */
  lemma {:induction false} FixedRecord(own: seq<Call>, hash: HashMethod)
    requires own != [] && AllAre(own, hash, false)
    ensures Record(None, own) == Some(own[0].digest)
    decreases |own|
  {
    if |own| > 1 {
      FixedRecord(own[..|own| - 1], hash);
    } else {
      assert own[..0] == [];
    }
  }

  /** From an empty database: with updates on the answer compares with the pair's previous
      digest, with updates off with its first one, and the first call never reports a change. */
  lemma {:induction false} AnswerByHistory(calls: seq<Call>, c: Call, update: bool)
    requires forall i | 0 <= i < |calls| :: calls[i].update == update
    ensures var own := About(calls, c.file, c.hash);
            Answer(Run(map[], calls), c) <==>
              own != [] && Differ(c.hash, c.digest, (if update then own[|own| - 1] else own[0]).digest)
  {
    var own := About(calls, c.file, c.hash);
    AboutHash(calls, c.file, c.hash, update);
    AnswerIsOwn(map[], calls, c);
    if own != [] {
      if update { UpdatingRecord(own, c.hash); } else { FixedRecord(own, c.hash); }
    }
  }

  // ---------------------------------------------------------------- the promise of integrity

  /** HashFile: the digest of some content. */
  type Hasher = (HashMethod, seq<int>) -> Digest

  /** One integrity check of a file with its current content. `reports` says that changes of content
      are to be reported. */
  datatype Check = Check(file: string, hash: HashMethod, content: seq<int>, update: bool, reports: bool, dryRun: bool)

  function CallFor(k: Check, m: HashMethod, h: Hasher): Call {
    Call(k.file, m, h(m, k.content), k.update)
  }

  /** The calls a check makes: the method "best" stands for MD5 and SHA1. */
  function CallsOf(k: Check, h: Hasher): seq<Call> {
    if !k.reports || k.dryRun then []
    else if k.hash == Best then [CallFor(k, Md5, h), CallFor(k, Sha1, h)]
    else [CallFor(k, k.hash, h)]
  }

  /** All calls of a history of checks. */
  function AllCalls(checks: seq<Check>, h: Hasher): seq<Call>
    decreases |checks|
  {
    if checks == [] then [] else AllCalls(checks[..|checks| - 1], h) + CallsOf(checks[|checks| - 1], h)
  }

  /** What a check reports, given the database. */
  function Reports(db: Database, k: Check, h: Hasher): bool {
    var calls := CallsOf(k, h);
    (|calls| > 0 && Answer(db, calls[0])) || (|calls| > 1 && Answer(After(db, calls[0]), calls[1]))
  }

  lemma {:induction false} RunTwo(db: Database, a: Call, b: Call)
    ensures Run(db, [a]) == After(db, a) && Run(db, [a, b]) == After(After(db, a), b) && Run(db, []) == db
  {
    assert [a, b][..1] == [a] && [a][..0] == [];
  }

  /** VerifyFileIntegrity: both digests of "best" are looked up, even when the first one differs. */
  method VerifyFileIntegrity(db: HashDb, k: Check, h: Hasher, opensFirst: bool, opensSecond: bool) returns (changed: bool)
    modifies db
    ensures opensFirst && opensSecond ==>
              changed == Reports(old(db.entries), k, h) && db.entries == Run(old(db.entries), CallsOf(k, h))
    ensures !opensFirst && !opensSecond ==> !changed && db.entries == old(db.entries)
  {
    changed := false;
    RunTwo(db.entries, CallFor(k, Md5, h), CallFor(k, Sha1, h));
    RunTwo(db.entries, CallFor(k, k.hash, h), CallFor(k, k.hash, h));
    if !k.reports || k.dryRun { return; }
    if k.hash == Best {
      var one := db.FileHashChanged(CallFor(k, Md5, h), opensFirst);
      var two := db.FileHashChanged(CallFor(k, Sha1, h), opensSecond);
      changed := one || two;
    } else {
      changed := db.FileHashChanged(CallFor(k, k.hash, h), opensFirst);
    }
  }

  /** The digest a check with updates on or off compares with: the pair's last or first one. */
  function Reference(own: seq<Call>, update: bool): Digest
    requires own != []
  {
    (if update then own[|own| - 1] else own[0]).digest
  }

  /** The content has a digest by this method that differs from the recorded one. */
  predicate Changed(checks: seq<Check>, k: Check, m: HashMethod, h: Hasher) {
    var own := About(AllCalls(checks, h), k.file, m);
    own != [] && Differ(m, h(m, k.content), Reference(own, k.update))
  }

  lemma {:induction false} AllCallsUpdate(checks: seq<Check>, h: Hasher, update: bool)
    requires forall i | 0 <= i < |checks| :: checks[i].update == update
    ensures forall i | 0 <= i < |AllCalls(checks, h)| :: AllCalls(checks, h)[i].update == update
    decreases |checks|
  {
    if checks != [] {
      var n := |checks| - 1;
      AllCallsUpdate(checks[..n], h, update);
      var before, last := AllCalls(checks[..n], h), CallsOf(checks[n], h);
      var all := before + last;
      forall i | 0 <= i < |all| ensures all[i].update == update {
        if i >= |before| { assert all[i] == last[i - |before|]; }
      }
    }
  }

  /** Over any history of checks with any methods, a check reports a change exactly when the digest by
      its method differs from the recorded one, and a check with "best" exactly when the MD5 or the
      SHA1 digest does. */
  lemma {:induction false} IntegrityByHistory(checks: seq<Check>, k: Check, h: Hasher)
    requires k.reports && !k.dryRun && forall i | 0 <= i < |checks| :: checks[i].update == k.update
    ensures var db := Run(map[], AllCalls(checks, h));
            Reports(db, k, h) <==>
              if k.hash == Best then Changed(checks, k, Md5, h) || Changed(checks, k, Sha1, h)
              else Changed(checks, k, k.hash, h)
  {
    var calls := AllCalls(checks, h);
    var db := Run(map[], calls);
    AllCallsUpdate(checks, h, k.update);
    if k.hash == Best {
      var one, two := CallFor(k, Md5, h), CallFor(k, Sha1, h);
      AnswerByHistory(calls, one, k.update);
      AnswerByHistory(calls, two, k.update);
      OtherAnswer(db, one, two);
    } else {
      AnswerByHistory(calls, CallFor(k, k.hash, h), k.update);
    }
  }

  /** A check that does not report content changes, or that only pretends, asks and records nothing;
      any other check records its digests. */
  lemma {:induction false} QuietExactly(db: Database, k: Check, h: Hasher)
    ensures !k.reports || k.dryRun ==> !Reports(db, k, h) && Run(db, CallsOf(k, h)) == db
    ensures k.reports && !k.dryRun ==>
              var after := Run(db, CallsOf(k, h));
              if k.hash == Best then Stored(after, k.file, Md5).Some? && Stored(after, k.file, Sha1).Some?
              else Stored(after, k.file, k.hash).Some?
  {
    RunTwo(db, CallFor(k, Md5, h), CallFor(k, Sha1, h));
    RunTwo(db, CallFor(k, k.hash, h), CallFor(k, k.hash, h));
  }

  /** A call about one pair does not change the answer to a call about another. */
  lemma {:induction false} OtherAnswer(db: Database, a: Call, b: Call)
    requires a.file != b.file || a.hash != b.hash
    ensures Answer(After(db, a), b) <==> Answer(db, b)
  {
    if KeyOf(a) == KeyOf(b) { IndexKeyInjective(a.hash, a.file, b.hash, b.file); }
  }

  /** The history of calls is that of the checks one after the other. */
  lemma {:induction false} HistoryOfChecks(checks: seq<Check>, k: Check, h: Hasher)
    ensures Run(map[], AllCalls(checks + [k], h)) == Run(Run(map[], AllCalls(checks, h)), CallsOf(k, h))
  {
    assert (checks + [k])[..|checks|] == checks;
    RunConcat(map[], AllCalls(checks, h), CallsOf(k, h));
  }

  lemma {:induction false} RunConcat(db: Database, a: seq<Call>, b: seq<Call>)
    ensures Run(db, a + b) == Run(Run(db, a), b)
    decreases |b|
  {
    if b == [] {
      assert a + b == a;
    } else {
      var front, last := b[..|b| - 1], b[|b| - 1];
      assert b == front + [last] && a + b == (a + front) + [last];
      RunConcat(db, a, front);
      RunSnoc(db, a + front, last);
      RunSnoc(Run(db, a), front, last);
    }
  }

  lemma {:induction false} RunSnoc(db: Database, a: seq<Call>, c: Call)
    ensures Run(db, a + [c]) == After(Run(db, a), c)
  {
    assert (a + [c])[..|a|] == a;
  }

  // ---------------------------------------------------------------- comparing two files

  function Min(a: nat, b: nat): nat { if a < b then a else b }

  /** CompareBinaryFiles on local files: sizes first, then block by block until a read gives
      nothing. Reads are full up to the end of the file. */
  method CompareBinaryFiles(a: seq<int>, b: seq<int>, block: nat) returns (differ: bool)
    requires block > 0
    ensures differ <==> a != b
  {
    if |a| != |b| {
      return true;
    }
    var pos := 0;
    while true
      invariant pos <= |a|
      invariant a[..pos] == b[..pos]
      decreases |a| - pos + (if pos < |a| then 1 else 0)
    {
      var bytes := Min(block, |a| - pos);
      if a[pos..pos + bytes] != b[pos..pos + bytes] {
        return true;
      }
      if bytes == 0 {
        break;
      }
      assert a[..pos + bytes] == a[..pos] + a[pos..pos + bytes];
      assert b[..pos + bytes] == b[..pos] + b[pos..pos + bytes];
      pos := pos + bytes;
    }
    assert a == a[..pos] && b == b[..pos];
    return false;
  }
}
