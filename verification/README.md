# A verified model of cf-agent's convergence engine

cf-agent keeps promises: it inspects a piece of state, works out the promised state, repairs the
difference, and must find nothing to do on the next run. This project models the parts of the agent
where that is hard to see from the code, and proves it, or proves exactly when it holds.

| files | part of the agent |
|---|---|
| `AclMode.dfy`, `AclEntry.dfy`, `AclRepair.dfy`, `AclMeaning.dfy` | the ACE language of POSIX ACLs, its checker and its interpreter, the repair of a file's ACL, and what the repaired ACL grants |
| `FileSystem.dfy`, `SaveFile.dfy`, `CopyFile.dfy` | replacing a file, state by state: saving an edited file and copying a file |
| `CompressedArray.dfy`, `HardLinks.dfy` | the inode cache, and copies that keep hard links |
| `TreeCopy.dfy`, `CopyOrder.dfy`, `CopyRefinement.dfy` | copying whole directory trees with purging, when the reading order loses a copy, and the tie to the steps of copying one file |
| `DepthSearch.dfy`, `WalkDiscipline.dfy`, `WalkOrder.dfy`, `WalkCoverage.dfy` | the recursive walk: working directory, order, coverage, depth |
| `EditLines.dfy`, `LineDeletion.dfy`, `LineReplacement.dfy`, `LineInsertion.dfy` | the line editor on its linked list |
| `Versions.dfy`, `VersionOrder.dfy`, `VersionSearch.dfy` | package version order and the search for the largest version |
| `Packages.dfy`, `PackageCommands.dfy`, `PackageOrder.dfy`, `PackageShared.dfy` | package queues, phases, commands and their buffers |
| `RelativeLink.dfy` | building and resolving relative links |
| `ChecksumDb.dfy` | the checksum database and the integrity check over their whole history |

Code that changes state is modelled by classes and methods with loops; each is proved against a
specification function, and the properties of whole runs are lemmas about those functions. System
calls that may fail are decided by a parameter (`Env`), and `FileSystem.Disk` records every
intermediate state of the file system, so that safety is stated for all of them. Regular expressions,
ACL names, configured commands and variable expansion are parameters: any function with the stated
bounds. Every lemma switches Dafny's automatic induction off, so the inductions are the written ones.

## Where the code does not do what it promises

- The checker accepts a mode entry with several operators (`+-r`); the interpreter applies the first
  and stops at the second (`AclMode.CheckerAgreesWithInterpreter`, `AclMode.SeveralOperatorsEntry`).
- The syntax check of exactly the entries `user:` and `group:` leaves the string
  (`AclEntry.OverrunExactly`).
- A version search with `>=` starts from the version asked for and compares with "greater", so it answers
  wrongly exactly when that version is on offer and none exceeds it (`VersionSearch.AtLeastExactly`). The
  comment above the function promises "gt/ge".
- A version search with `>` raises the last character first. What it finds is always greater exactly when
  the raised character is still a letter or digit (`VersionSearch.GreaterSoundExactly`; a search for `9`
  accepts `0`, `VersionSearch.GreaterAcceptsSmaller`), and it misses no greater version exactly when the
  bound was not really raised (`VersionSearch.GreaterCompleteExactly`, `VersionSearch.MissedExactly`).
- Versions are ordered after commas are canonified but compared for equality as they are, and runs of 30 or
  more letters and digits lose characters (`Versions.JoinsBackExactly`). The three-way choice between less,
  equal and greater fails exactly for incompatible separators and for different texts with the same tokens
  (`Versions.TrichotomyExactly`, `Versions.CommaExactly`).
- The inode cache keeps 32 bits of the inode number and no device, so a copy can become a link to an
  unrelated file (`HardLinks.SharedExactly`, `HardLinks.CopiedExactly`, `HardLinks.InodesConflated`).
- In the hard-link branch of a copy the old file is removed before linking, and success is reported
  whatever happens (`CopyFile.CopyRegularFile`). A new file that disappears before it is installed is the
  one failure after which the backup is not put back (`CopyFile.Install`).
- Copying a file uses up the names beside it. A source that contains such a name itself can lose that copy:
  exactly when the last file read after it that uses the name leaves something else there
  (`CopyOrder.MirrorLostExactly`, `CopyOrder.OrderDecides`).
- A rotated backup is emptied with creat(2) after it has been copied. It has just been made as a hard link to
  the file being saved, so the file itself is emptied: it is empty until the new one is renamed into place, and
  stays empty if that fails, with its text at number one only (`SaveFile.SaveAsFile`,
  `SaveFile.RotationEmptiesTarget`).
- A directory that can be entered but not opened leaves the walk in the wrong directory, and the next
  verification runs there (`WalkDiscipline.DisciplineExactly`, `WalkCoverage.FailsOnTree`).
- A path component that ends in a double quote can break the round trip of relative links
  (`RelativeLink.RoundTripExactly`, `RelativeLink.QuoteBreaksRoundTrip`).
- Package managers are looked up by command and policy only. Every package is named once, in its own phase
  and by its own command, exactly when requests for different actions share no command under one policy
  (`PackageShared.EachOnceExactly`). Otherwise an update can run among the deletions
  (`PackageShared.SharedUpdateEarly`), and a patch and a request for another action that share a command
  lose the later one (`PackageShared.SharedPatchLost`).
- Deletion: a second edit is idle exactly when nothing in the region it finds is to go
  (`LineDeletion.EditIdleExactly`), which can fail for patterns of several lines
  (`LineDeletion.BlocksReappear`). With `include_end`, a region whose end delimiter is missing makes the agent
  follow a null pointer (cf-agent/files_editline.c:795-805), exactly as `LineDeletion.OverrunExactly` says;
  the first edit can bring that about for the second (`LineDeletion.SecondEditOverruns`).
- Replacement: a second run makes no edit exactly when every rewritten line no longer matches or is empty
  (`LineReplacement.SecondRunExactly`), which is always so for unanchored patterns and can fail for anchored
  ones, which are not checked (`LineReplacement.AnchoredGrows`). Replacing only the first occurrence goes on
  in the next run exactly as `LineReplacement.SecondOnceExactly` says.
- Insertion: a missing line that the chunk repeats is inserted once after a text that is not empty, and before
  a text it can be taken for a line that is already beside the moving location
  (`LineInsertion.InsertionExactly`, `LineInsertion.RepeatedAfterFails`).

## Model

| member | source | states |
|---|---|---|
| AclMode.ScanPastSpec | cf-agent/verify_acl.c:375-387 | the checker passes a run of operator or flag characters completely and stops at the first other character |
| AclMode.CheckModeSyntax | cf-agent/verify_acl.c:355-421 | accepts exactly the mode fields the scanner accepts and ends where the mode ends; never looks past the terminator |
| AclMode.AcceptedIsRendered | cf-agent/verify_acl.c:355-421 | soundness: whatever is accepted is the rendering of a list of well-formed entries |
| AclMode.RenderedIsAccepted | cf-agent/verify_acl.c:355-421 | completeness: every rendered list of well-formed entries is accepted anywhere in a string, read back as the same entries and passed exactly |
| AclMode.ParseEntry | cf-agent/acl_posix.c:938-1095 | one turn of the interpreter computes the step specification, including a run past the terminator; what that grants, letter by letter, is AclMeaning.StepHeld |
| AclMode.ParseMode | cf-agent/acl_posix.c:938-1095 | the interpreter's loop computes `Interpret` from any existing permission set; what that grants, letter by letter, is AclMeaning.InterpretHeld |
| AclMode.BitwiseUniform | cf-agent/acl_posix.c:938-1095 | every mode string sets, clears or keeps each bit regardless of the other bits and of the starting permissions |
| AclMode.InterpretIdempotent | cf-agent/acl_posix.c:938-1095 | applying a mode twice is applying it once |
| AclMode.SingleOperatorEntry | cf-agent/acl_posix.c:938-1095 | for an entry with at most one operator, checker and interpreter see the same entry, and its flags are added, removed or set alone; which letter stands for which permission is AclMeaning.StepHeld |
| AclMode.SeveralOperatorsEntry | cf-agent/acl_posix.c:938-1095 | with a second operator the interpreter stops on it, before any flag |
| AclMode.CheckerAgreesWithInterpreter | cf-agent/verify_acl.c:355-421 | every accepted mode is interpreted successfully inside the string; both end at the same place exactly when every entry has at most one operator |
| AclEntry.CheckAceSyntax | cf-agent/verify_acl.c:250-353 | accepts, refuses or overruns exactly as the specification of a whole entry says |
| AclEntry.OverrunExactly | cf-agent/verify_acl.c:250-353 | the syntax check leaves the string for exactly two entries, `user:` and `group:` |
| AclEntry.ParseEntity | cf-agent/acl_posix.c:784-929 | the entity parser's tag, qualifier and stopping position |
| AclEntry.EntityAgrees | cf-agent/acl_posix.c:784-929 | an accepted entry fails to parse only when its name is unknown; otherwise parsing stops on the colon before the mode the checker found |
| AclEntry.AcceptedEntryParses | cf-agent/acl_posix.c:202-297 | entity and mode of every accepted entry with a known name parse inside the string |
| AclRepair.FindAce | cf-agent/acl_posix.c:543-631 | finds the first entry with that tag and qualifier, or says there is none |
| AclRepair.AclEquals | cf-agent/acl_posix.c:639-720 | for duplicate-free ACLs, decides equality as finite maps, in any order |
| AclRepair.InclusionSuffices | cf-agent/acl_posix.c:639-720 | equal count and one-sided inclusion give equality of the maps (pigeonhole) |
| AclRepair.SetPermsLookup | cf-agent/acl_posix.c:214-281 | find-or-create changes the permissions of one key only |
| AclRepair.SetPermsNoDup | cf-agent/acl_posix.c:214-281 | find-or-create keeps the ACL free of duplicates |
| AclRepair.ApplyOne | cf-agent/acl_posix.c:202-297 | the loop body applies one entry to the new ACL, or fails, as specified |
| AclRepair.ApplyAcesAt | cf-agent/acl_posix.c:202-297 | the fold of a list of entries acts on each key by itself, and fails independently of the ACL |
| AclRepair.FoldBitwise | cf-agent/acl_posix.c:202-297 | several entries for one key still set, clear or keep each bit on its own |
| AclRepair.UnionOfSame | cf-agent/acl_posix.c:299-310 | the mask is a property of the map without its mask entry, not of the order of entries |
| AclRepair.BuildTarget | cf-agent/acl_posix.c:132-310 | the loops compute the promised ACL: start from the old or an empty one, apply all entries, recompute the mask unless one was given |
| AclRepair.TargetNoDup | cf-agent/acl_posix.c:132-310 | the promised ACL has no duplicates |
| AclRepair.Converges | cf-agent/acl_posix.c:132-364 | convergence: for append and overwrite, the promise computed from the repaired ACL, in whatever order it is read back, is that ACL |
| AclRepair.RunTwice | cf-agent/acl_posix.c:312-364 | after a run that changed the ACL or found it right, the next run finds nothing to do and leaves it alone |
| AclRepair.MaskStable | cf-agent/acl_posix.c:299-310 | recomputing the mask from the repaired ACL gives the same mask |
| AclRepair.AcceptedListApplies | cf-agent/acl_posix.c:132-364 | a list of accepted entries with known names always yields a promised ACL |
| AclRepair.AclFile.CheckAces | cf-agent/acl_posix.c:132-364 | the file's ACL is unchanged when equal, warned about, simulated or failed, and becomes the promised one otherwise; which outcome is reported when. What the promised ACL grants is AclMeaning.ListDecides |
| AclMeaning.StepHeld | cf-agent/acl_posix.c:988-1080 | for a rendered entry with at most one operator, interpreted from any permissions: reading is held afterwards exactly when an 'r' is listed, generic or native, and the operator is not '-', or it was held and the operator is '+', or '-' without an 'r'; the same for writing and 'w' and for executing and 'x' |
| AclMeaning.InterpretHeld | cf-agent/acl_posix.c:938-1095 | the same for every rendered mode, entry by entry, with several operators ending the list; without them the mode is read to its end |
| AclMeaning.SubjectIsFound | cf-agent/acl_posix.c:784-929 | the owner, a named user, the owning group, a named group, everyone else and the mask, as they are written, give their tag and qualifier, and parsing stops behind them |
| AclMeaning.GrammaticalChecked | cf-agent/verify_acl.c:250-446 | of the entries of the grammar the checker accepts exactly those without a permission type, with "allow", or with "deny" where it is supported, and a mask only where it is allowed |
| AclMeaning.AcceptedIsWritten | cf-agent/verify_acl.c:250-446 | whatever the checker accepts is such an entry |
| AclMeaning.OneEntryDecides | cf-agent/acl_posix.c:202-297 | a key that exactly one entry of the list names holds in the promised ACL what the letters of that entry make of what it had (append) or of nothing (overwrite), whatever the other entries are |
| AclMeaning.ListDecides | cf-agent/acl_posix.c:132-310 | for every list of written entries: there is a promised ACL exactly when every name is known; a key is in it exactly when it was there or is named, and holds what the letters of the entries for it say one after the other |
| AclMeaning.UnnamedKeys | cf-agent/acl_posix.c:180-297 | a key that no entry names keeps what it had under append and is gone under overwrite |
| AclMeaning.CalculatedMask | cf-agent/acl_posix.c:299-310 | without an entry for it the mask holds exactly what the owning group, some named user or some named group holds |
| Versions.ParsePackageVersion | cf-agent/vercmp_internal.c:186-217 | the pointer loop produces the tokens and separators of the specification |
| Versions.JoinsBackExactly | cf-agent/vercmp_internal.c:186-217 | joining tokens and separators gives back the canonified version if and only if no run of letters and digits is longer than 29 |
| Versions.CompareTokens | cf-agent/vercmp_internal.c:79-167 | the loop with its flags decides the comparison of two token lists |
| Versions.ComparePackageVersionsInternal | cf-agent/vercmp_internal.c:33-184 | GT and LT hold exactly when separators agree and the tokens are strictly above or below in lexicographic strcmp order; GE and LE add equality; EQ is equality of non-empty strings, NEQ its opposite for compatible non-empty versions |
| Versions.TrichotomyExactly | cf-agent/vercmp_internal.c:33-184 | for all pairs of versions: exactly one of less, greater, equal holds if and only if the separators are compatible and equal tokens mean the same non-empty text |
| Versions.CommaExactly | cf-agent/vercmp_internal.c:33-184 | for non-empty versions with the same separators and without over-long runs the choice fails exactly for different texts that are canonified alike |
| Versions.Trichotomy | cf-agent/vercmp_internal.c:33-184 | for non-empty comma-free versions with the same separators and no run longer than 29 exactly one of less, greater, equal holds |
| Versions.BelowTransitive | cf-agent/vercmp_internal.c:33-184 | the built-in order is transitive on compatible versions |
| Versions.BelowIrreflexive | cf-agent/vercmp_internal.c:33-184 | and irreflexive |
| Versions.BuiltInAtLeast | cf-agent/vercmp.c:104-155 | "at least", computed as "not less", is "greater or equal" exactly when the three-way choice holds; with incompatible separators both "at least" and "at most" match although the versions are neither ordered nor equal |
| Versions.CommandDispatch | cf-agent/vercmp.c:104-155 | a configured "less" command that always runs and ranks all versions makes the six comparisons those of a total preorder on all versions |
| VersionOrder.PartsAreProper | cf-agent/vercmp_internal.c:186-217 | every token is a run of at most 29 ASCII letters and digits, every separator one other character, or missing behind a token that was cut at 29 |
| VersionOrder.StrcmpIs | cf-agent/vercmp_internal.c:79-167 | a text is smaller exactly when, at the first difference, it has ended or has the smaller character |
| VersionOrder.LexIs | cf-agent/vercmp_internal.c:79-184 | a token list is smaller exactly when, at the first difference, it has ended or has the smaller token |
| VersionOrder.CompatibleIs | cf-agent/vercmp_internal.c:46-77 | versions are comparable exactly when their separators are the same as far as both go |
| VersionOrder.VerdictIs | cf-agent/vercmp_internal.c:33-184 | all six verdicts of the comparator, told by the first difference of tokens and characters |
| VersionOrder.ComparisonsAre | cf-agent/vercmp.c:104-155 | all six comparisons without configured commands, told the same way |
| VersionSearch.FindLargestVersionAvail | cf-agent/verify_packages.c:736-809 | when all versions are compatible, true exactly when some candidate exceeds the start bound, and then the result is a candidate that none exceeds |
| VersionSearch.CandidatesAre | cf-agent/verify_packages.c:766-796 | the candidates are the matching files of all repositories that open, and nothing else |
| VersionSearch.Consider | cf-agent/verify_packages.c:777-792 | one matching file updates the running maximum |
| VersionSearch.AnyVersionBound | cf-agent/verify_packages.c:750-763 | with no version or "*" every non-empty candidate exceeds the bound |
| VersionSearch.AtLeastExactly | cf-agent/verify_packages.c:736-809 | the search succeeds exactly when some candidate is at least the version asked for, except exactly when that version is offered and none exceeds it |
| VersionSearch.GreaterSoundExactly | cf-agent/verify_packages.c:757-763 | everything above the raised bound is above the version asked for if and only if that version ends in a letter or digit other than 9, Z and z |
| VersionSearch.GreaterCompleteExactly | cf-agent/verify_packages.c:757-763 | everything above the version asked for is above the raised bound if and only if raising changed no token, or dropped a last byte 0xFF |
| VersionSearch.MissedExactly | cf-agent/verify_packages.c:757-763 | for a version ending in a letter or digit that can be raised: a greater version is missed if and only if its tokens extend those asked for or are the raised ones, unless raising changed no token |
| RelativeLink.BuildRelativeLink | cf-agent/files_links.c:243-302 | the path computation with its level counter produces the specified link text |
| RelativeLink.AbsLinkPath | cf-agent/files_links.c:653-704 | the resolver with its pop counter computes `Resolve` |
| RelativeLink.ResolvesTo | cf-agent/files_links.c:243-302 | what resolving the constructed link gives, wherever the builder stopped comparing |
| RelativeLink.RoundTripAtStop | cf-agent/files_links.c:653-704 | resolving the constructed link gives the source exactly when the builder stopped on a separator of both paths |
| RelativeLink.RoundTripExactly | cf-agent/files_links.c:243-302 | for any two distinct normalised absolute paths the round trip fails if and only if, where they part, one has a separator and the other double quotes and then a separator |
| RelativeLink.RoundTrip | cf-agent/files_links.c:243-302 | all distinct normalised absolute paths without double quotes round-trip, root and prefix cases included |
| RelativeLink.QuoteBreaksRoundTrip | libpromises/files_names.c:568-595 | a component ending in a double quote breaks the round trip |
| ChecksumDb.NewIndexKey | cf-agent/verify_files_hashes.c:43-58 | the zeroed buffer with two fields is the key of the specification |
| ChecksumDb.IndexKeyInjective | cf-agent/verify_files_hashes.c:43-58 | different files or methods have different keys |
| ChecksumDb.HashDb.FileHashChanged | cf-agent/verify_files_hashes.c:83-198 | the answer and the new database, for a new file, an equal, a changed and an updated digest, and for a database that cannot be opened |
| ChecksumDb.RecordIsOwn | cf-agent/verify_files_hashes.c:83-198 | over any interleaving of calls the record of a pair depends on that pair's own calls only |
| ChecksumDb.AnswerIsOwn | cf-agent/verify_files_hashes.c:134-198 | so does the answer to any further call |
| ChecksumDb.UpdatingRecord | cf-agent/verify_files_hashes.c:134-198 | with updates on, the record is the last digest on all compared bytes |
| ChecksumDb.FixedRecord | cf-agent/verify_files_hashes.c:134-198 | with updates off, it stays the first digest |
| ChecksumDb.AnswerByHistory | cf-agent/verify_files_hashes.c:134-198 | with updates on a change is reported exactly when the digest differs from the pair's previous one, with updates off from its first one, and never on the first call |
| ChecksumDb.WholeDigestCompared | libpromises/files_hashes.c:182-202 | digests differ exactly when one of their first bytes does: 16 for MD5, 20 for SHA1, 28, 32, 48 and 64 for SHA2 |
| ChecksumDb.VerifyFileIntegrity | cf-agent/verify_files_utils.c:2522-2571 | the report and the database after one check; "best" looks up both the MD5 and the SHA1 digest, even when the first differs |
| ChecksumDb.QuietExactly | cf-agent/verify_files_utils.c:2522-2571 | a check that reports no content changes, or only pretends, reports and records nothing; any other leaves its digests on record |
| ChecksumDb.IntegrityByHistory | cf-agent/verify_files_utils.c:2522-2571 | over any history of checks with any methods, a check reports exactly when its digest differs from the recorded one, and a check with "best" exactly when the MD5 or the SHA1 digest does |
| ChecksumDb.HistoryOfChecks | cf-agent/verify_files_utils.c:2522-2571 | the database after a history of checks is that of their calls one after the other |
| ChecksumDb.CompareBinaryFiles | cf-agent/verify_files_hashes.c:233-274 | sizes and block-wise contents: true exactly when the files differ |
| FileSystem.Disk.Rename | cf-agent/files_operators.c:266-271 | rename(2): replaces the target in one step, and leaves two links to one inode alone |
| FileSystem.Disk.CopyFile | libpromises/files_copy.c:113-168 | the destination is created anew and holds the source exactly on success; after any failure it is absent, also when the source cannot be opened; existing inodes keep their content in every state |
| SaveFile.Dereference | cf-agent/files_operators.c:153-195 | follows links to the name at the end of the chain, which SaveFile.TargetEndsChain describes |
| SaveFile.TargetEndsChain | cf-agent/files_operators.c:153-195 | a chain of symbolic links, each to the next, leads from the name to the target, which is a file; without a target it ends in no entry |
| SaveFile.WriteLines | cf-agent/files_operators.c:283-314 | the new file holds the lines, each with a newline, exactly when no write fails; nothing else changes in any state. That they can be read from it again is SaveFile.WrittenReadsBack |
| SaveFile.WrittenReadsBack | cf-agent/files_operators.c:296-304 | lines without newlines are read from the written text again, empty ones included, by a reader that splits after each newline; the text has one character more than each line |
| SaveFile.MakeBackup | cf-agent/files_operators.c:223-245 | the backup, as a link to the target or as a copy on its own inode, holds the old content, and the original is untouched in every state |
| SaveFile.ShiftAll | libpromises/files_lib.c:625-668 | each number whose rename works ends with its entry at the next number, for all five name endings; nothing else changes in any state |
| SaveFile.RotateFiles | libpromises/files_lib.c:606-697 | numbers move up, number one gets the old content when the copy works, and the inode behind the backup's name is then emptied exactly when the copy and creat work in the first rotation of the run; until then nothing outside the backup's names changes |
| SaveFile.SaveAsFile | cf-agent/files_operators.c:139-279 | every state holds the complete old or new content at the target if and only if not (every checked step but the last works, the backup is a rotated link, copied and emptied in this call, and neither text is empty); otherwise the target is empty until the final rename, and stays so if that fails; new exactly on true, and true exactly when no checked step fails; on true, lines without newlines are read from the target again; where the old content is; nothing else changes |
| SaveFile.ExactlySafe | cf-agent/files_operators.c:139-279 | a run that holds old, new or nothing at the target is old-or-new exactly unless it empties it between two texts that are not empty |
| SaveFile.RotationEmptiesTarget | libpromises/files_lib.c:676-694 | an input: with a rotated backup and a failing last rename the target ends empty and only number one holds its text |
| CompressedArray.Cache.Fix | cf-agent/comparray.c:35-57 | prepends unless the key is there, and says which |
| CompressedArray.Cache.ElementExists | cf-agent/comparray.c:77-92 | true exactly for fixed keys |
| CompressedArray.Cache.Value | cf-agent/comparray.c:94-107 | the value a key was fixed to |
| CompressedArray.FirstWriteWins | cf-agent/comparray.c:35-107 | after any history a key holds the value of its first write |
| CompressedArray.KeysDistinct | cf-agent/comparray.c:35-57 | no key is ever held twice |
| CopyFile.StageCopy | cf-agent/verify_files_utils.c:1124-1226 | the new file is complete beside the old one, which is at the destination or at the backup in every state |
| CopyFile.MoveAside | cf-agent/verify_files_utils.c:1177-1226 | the old file moves to the backup name, or stays when renaming fails; nothing else remains at the backup name |
| CopyFile.Install | cf-agent/verify_files_utils.c:1241-1400 | success exactly when the new file is there, has the right size, verifies and is renamed, after which no new name is left; otherwise where the old file ends up |
| CopyFile.CopyRegularFile | cf-agent/verify_files_utils.c:1055-1400 | no lost original in any state before the copy is installed; old content back at the destination after a failed check or install if the restoring rename works; backup content; what the hard-link branch does |
| HardLinks.RegisterAHardLink | cf-agent/verify_files_utils.c:2887-2909 | records the first destination for a key and unlinks later ones |
| HardLinks.CfCopyFile | cf-agent/verify_files_utils.c:170-521 | the destination holds the source, or is a link to the first copy; nothing else changes but its companions |
| HardLinks.VerifyCopy | cf-agent/verify_files_utils.c:831-940 | one job: register, then copy |
| HardLinks.CopyAll | cf-agent/verify_files_utils.c:831-940 | after any sequence of copies to distinct destinations, every destination is one inode with the first copy of its key and holds that copy's source, and sources are unchanged; every destination holds its own source if and only if multiply linked sources whose inode numbers agree in the low 32 bits agree in content, so always when the numbers are below 2^32 and identify the content; destinations of one source inode are one inode |
| HardLinks.SameKeySameFirst | cf-agent/verify_files_utils.c:1089-1099 | multiply-linked sources with the same key share one first copy |
| HardLinks.FaithfulExactly | cf-agent/verify_files_utils.c:1089-1099 | every destination holds its own source if and only if equal cache keys mean equal content; HardLinks.CopiedExactly says it by inode numbers |
| HardLinks.SharedExactly | cf-agent/comparray.c:35-45 | two multiply linked sources share their first copy if and only if their inode numbers agree in the low 32 bits |
| HardLinks.FirstIs | cf-agent/verify_files_utils.c:1089-1099 | the first copy of a multiply linked source is the earliest multiply linked one whose number agrees in the low 32 bits; a file with one link is its own |
| HardLinks.CopiedExactly | cf-agent/verify_files_utils.c:831-940 | after all copies every destination holds its own source if and only if multiply linked sources that agree in the low 32 bits of the number agree in content |
| HardLinks.SmallNumbersFaithful | cf-agent/verify_files_utils.c:831-940 | with numbers below 2^32 that identify the content, every destination holds its own source |
| HardLinks.InodesConflated | cf-agent/comparray.c:94-107 | unrelated sources whose inode numbers agree in 32 bits end up linked |
| TreeCopy.CopiedAt | cf-agent/verify_files_utils.c:1177-1400 | copying a file changes the file and the two names beside it only |
| TreeCopy.CopiedClosed | cf-agent/verify_files_utils.c:1177-1400 | every entry still lies in a directory |
| CopyOrder.MirrorLostExactly | cf-agent/verify_files_utils.c:707-820 | for every reading order of a directory of files and every backup policy: all copies are right in the end if and only if, for each file, the last file read after it that was really copied and used its name left that very copy there; which files are copied and what they leave is told from the start and the order |
| CopyOrder.NothingKeptExactly | cf-agent/verify_files_utils.c:707-820 | where no old file is kept, if and only if no file that is really copied is read after one with a name beside it |
| CopyOrder.RecopiedExactly | cf-agent/verify_files_utils.c:275-444 | there a file is really copied exactly when it was missing or different at the start, when updates are forced, or when a file before it used its name |
| CopyOrder.CopyInCompanion | cf-agent/verify_files_utils.c:1177-1400 | a really copied file leaves what it replaced at the backup's name, if backups stay, and nothing at the other names beside it |
| CopyOrder.OrderDecides | cf-agent/verify_files_utils.c:1177-1226 | with plain backups over an old destination, reading a file after the one that has its backup name loses that one's copy, and reading it before keeps both |
| CopyRefinement.CopyRefines | cf-agent/verify_files_utils.c:1055-1400 | a successful run of the steps on names and inodes shows, on the whole directory, exactly the one step the tree copy takes |
| CopyRefinement.CopyOne | cf-agent/verify_files_utils.c:1055-1400 | the steps themselves refine that step when every call succeeds |
| TreeCopy.TreeCopier.MakeParentDirectory | libpromises/files_lib.c:359-434 | makes exactly the missing directories on the way |
| TreeCopy.TreeCopier.PurgeLocalFiles | cf-agent/verify_files_utils.c:523-618 | removes the whole trees of exactly the visible names not listed, in whatever order they are read; never in the root directory |
| TreeCopy.PurgedListing | cf-agent/verify_files_utils.c:523-618 | afterwards only listed names are visible, and their trees and everything outside are untouched |
| TreeCopy.TreeCopier.CfCopyFile | cf-agent/verify_files_utils.c:234-521 | the destination file equals the source afterwards, only names beside it change with it, and nothing happens when it was equal before and updates are not forced |
| TreeCopy.TreeCopier.CopyEntry | cf-agent/verify_files_utils.c:709-820 | one entry is mirrored to the remaining depth, and no other entry of the source is affected |
| TreeCopy.TreeCopier.CopyEntries | cf-agent/verify_files_utils.c:707-820 | the loop mirrors the entries in any reading order |
| TreeCopy.TreeCopier.SourceSearchAndCopy | cf-agent/verify_files_utils.c:620-829 | the destination mirrors the source down to the depth limit; nothing outside it changes but missing directories above it; without purging nothing else in it is lost; an up-to-date destination is left alone |
| TreeCopy.DepthSuffices | cf-agent/verify_files_utils.c:629-633 | a depth limit above the tree's height gives the mirror at every depth |
| TreeCopy.Assemble | cf-agent/verify_files_utils.c:707-829 | the mirrors of the entries make the mirror of the directory, given purging or none |
| TreeCopy.KeptStep | cf-agent/verify_files_utils.c:709-820 | one entry does not touch what the source does not mention |
| TreeCopy.PurgeIdle | cf-agent/verify_files_utils.c:523-618 | there is nothing to purge in a mirror |
| TreeCopy.NoClashAgain | cf-agent/verify_files_utils.c:620-829 | after a purging copy the conditions for copying hold again |
| TreeCopy.TreeCopier.RunTwice | cf-agent/verify_files_utils.c:620-829 | the first run makes the destination equal to the source apart from ignored names, the second changes nothing |
| DepthSearch.Walker.Search | cf-agent/verify_files_utils.c:1996-2121 | the recursive walk with its real working directory produces the specified verifications; which paths these are is WalkCoverage.CoverageExactly |
| DepthSearch.Walker.Visit | cf-agent/verify_files_utils.c:2038-2117 | so does the body of its loop; what it makes of one entry is WalkCoverage.ShowsWanted |
| WalkDiscipline.PopsBack | cf-agent/verify_files_utils.c:2142-2169 | after a directory that was entered properly, backing out leads to the very directory the walk was in, by name or by ".." |
| WalkDiscipline.DirDisciplined | cf-agent/verify_files_utils.c:1996-2169 | unless an entered directory could not be opened, every verification runs in its parent directory and the walk returns to where it was, with or without link traversal |
| WalkDiscipline.DirFlawed | cf-agent/verify_files_utils.c:1996-2040 | a directory that is entered but cannot be opened leads to a verification in the wrong directory, with or without link traversal |
| WalkDiscipline.DirFailsExactly | cf-agent/verify_files_utils.c:1996-2169 | a walk fails to open a directory it entered if and only if the tree and the promise lead it to one that does not open, along listed, wanted, enterable directories within depth and level |
| WalkDiscipline.DisciplineExactly | cf-agent/verify_files_utils.c:1996-2169 | every verification runs in its parent directory if and only if the walk is led to no such directory below the base, with or without link traversal |
| WalkDiscipline.OpenableNeverFails | cf-agent/verify_files_utils.c:1996-2169 | when whatever can be entered can be opened, no walk fails, with or without link traversal |
| WalkOrder.DirContentsFirst | cf-agent/verify_files_utils.c:2075-2117 | no directory is verified before something below it |
| WalkOrder.DirParentsFollow | cf-agent/verify_files_utils.c:2075-2117 | whatever is verified, every directory in between is verified afterwards |
| WalkOrder.DirDepth | cf-agent/verify_files_utils.c:1996-2106 | the level bound: nothing is verified deeper than the promised depth allows, nor than the hard limit, on any tree |
| WalkOrder.WantedVerified | cf-agent/verify_files_utils.c:2038-2117 | every entry of a directory that is being read and that is not ignored or skipped is verified; coverage of the recursion is WalkCoverage.CoverageExactly |
| WalkCoverage.ShowsWanted | cf-agent/verify_files_utils.c:2038-2101 | what the loop makes of an entry, told on the tree: a link counts as what it leads to when links are followed and it is trusted, as a link when they are not, and not at all when it leads nowhere and such links are removed |
| WalkCoverage.FailsOnTree | cf-agent/verify_files_utils.c:1996-2169 | the walk of the base fails if and only if a path of wanted, usable directories within its depth leads to a directory that can be entered but not read |
| WalkCoverage.CoverageExactly | cf-agent/verify_files_utils.c:1996-2121 | on any other tree, exactly these paths below the base are verified: those that lead through usable, wanted directories to a wanted entry (or, for the extra verification, to a link that stays), one step long, or, with a promised depth above one, at most two steps longer than it, and never longer than 101 steps |
| EditLines.MatchRegion | libpromises/item_lib.c:499-557 | the number of chunk lines exactly when all of them match from the position on, before the end marker |
| EditLines.LineFile.DeleteNode | cf-agent/files_editline.c:859-895 | relinking removes exactly that node, the counter grows by one, and the search start stays before the next node |
| EditLines.LineFile.DeleteChunk | cf-agent/files_editline.c:851-897 | the inner loop removes exactly the matched lines |
| EditLines.LineFile.InsertAfter | libpromises/item_lib.c:563-584 | a new node follows the given one, or the last one |
| LineDeletion.DeletePromisedLinesMatching | cf-agent/files_editline.c:767-910 | prefix and suffix untouched, the region replaced by its survivors, the counter grown by the number removed, the result saying whether any was; a null pointer is followed, before any change, exactly when an end to be included is missing |
| LineDeletion.WalkFilters | cf-agent/files_editline.c:811-902 | the loop's relinking amounts to replacing the region by the lines that stay |
| LineDeletion.DeletionIsFilter | cf-agent/files_editline.c:767-910 | for a pattern of one line the survivors are the lines not both selected and matched, in order |
| LineDeletion.OthersContents | cf-agent/files_editline.c:767-910 | with multiplicity: all copies of a doomed line go and all copies of any other stay |
| LineDeletion.SecondDeletionIdle | cf-agent/files_editline.c:767-910 | a second run over the same region removes nothing |
| LineDeletion.SurvivorsIdle | cf-agent/files_editline.c:767-910 | for patterns of any number of lines, a run leaves a region alone if and only if no position in it begins lines that go |
| LineDeletion.BlocksReappear | cf-agent/files_editline.c:767-910 | a pattern of two lines can leave such a position |
| LineDeletion.IndexIsFirst | cf-agent/files_editline.c:636-673 | a delimiter is the first matching line from a position on |
| LineDeletion.SelectRegion | cf-agent/files_editline.c:625-692 | succeeds exactly when the start delimiter is found with a line after it or included, and marks the first start and the first end after it |
| LineDeletion.VerifyLineDeletions | cf-agent/files_editline.c:371-426 | the whole edit on the lines, with or without a region, the counter, and when it ends at the null pointer |
| LineDeletion.OverrunExactly | cf-agent/files_editline.c:625-805 | that happens if and only if a region is selected, its end is to be included, and no line after its start matches the end pattern |
| LineDeletion.SecondEditOverruns | cf-agent/files_editline.c:795-805 | a first edit that deletes the end delimiter makes the second follow the null pointer |
| LineDeletion.EditIdleExactly | cf-agent/files_editline.c:371-426 | for any pattern and any delimiters, an edit changes nothing if and only if nothing in the region it finds is to go |
| LineDeletion.SecondEditIdle | cf-agent/files_editline.c:371-426 | a second edit with a one-line pattern finds the same region again and changes nothing, as long as the delimiters are not up for deletion |
| LineDeletion.SecondEditExactly | cf-agent/files_editline.c:371-426 | with included delimiters and a start that stays, told by the first input: the second edit follows the null pointer exactly when its end is included and none follows; otherwise it is idle exactly when no line from the old end up to the next one is to go |
| LineDeletion.SecondEditMovesOn | cf-agent/files_editline.c:371-426 | when the start is deleted, the second edit is an edit of what is left behind it |
| LineReplacement.RewriteLine | cf-agent/files_editline.c:935-979 | the bounded loop over one line computes `Rewrite`, a sequence of substitutions; what one of them does is LineReplacement.SubstitutionKeeps |
| LineReplacement.SubstitutionKeeps | cf-agent/files_editline.c:957-972 | one substitution, character by character: everything before and behind the match stays, the value stands between, and the length is that of the line minus the match plus the value |
| LineReplacement.RewriteBounded | cf-agent/files_editline.c:935-979 | the result is reached by at most 20 (CF_MAX_REPLACE) successive substitutions of matches |
| LineReplacement.ReplacePatterns | cf-agent/files_editline.c:914-1035 | the lines and the counter after the loop over the list, with its ways of stopping early; nodes stay in place; a region without a start pattern makes it read a marker that is no node |
| LineReplacement.EachLineAlone | cf-agent/files_editline.c:914-1035 | each line before the first non-convergent one gets its own rewriting, that line and all later ones stay, and the counter grows by the number rewritten |
| LineReplacement.EveryLineTurned | cf-agent/files_editline.c:914-1035 | replacing every "a" by "b" in any lines with at most 20 of them turns every 'a' and leaves every other character where it was |
| LineReplacement.TooManyStop | cf-agent/files_editline.c:948-990 | the run stops before a line with more than 20 of them |
| LineReplacement.WarningIdle | cf-agent/files_editline.c:991-1000 | a promise that only warns changes no line and counts no edit |
| LineReplacement.NothingLeftToMatch | cf-agent/files_editline.c:981-990 | for an unanchored pattern no line before the stopping line matches any more |
| LineReplacement.SecondReplacementIdle | cf-agent/files_editline.c:914-1035 | for an unanchored pattern a second run changes nothing, even after an interrupted first run |
| LineReplacement.SecondRunExactly | cf-agent/files_editline.c:914-1035 | for every pattern in fix mode, all occurrences: a second run makes no edit if and only if every line before the stopping line is rewritten to a text that no longer matches or is empty |
| LineReplacement.SecondOnceExactly | cf-agent/files_editline.c:914-1035 | for the first occurrence only: a second run makes no edit if and only if the first made none, or the line it rewrote is settled and nothing is left to rewrite after it |
| LineReplacement.FirstOnlyGoesOn | cf-agent/files_editline.c:974-978 | replacing the first "a" by "b" takes two runs for two lines |
| LineReplacement.AnchoredGrows | cf-agent/files_editline.c:1812-1825 | appending to the whole line by an anchored pattern escapes the check and grows every line that is not empty by CF_MAX_REPLACE letters in every run |
| LineInsertion.IsItemInRegion | libpromises/item_lib.c:191-202 | whether the line is in the list from the region's start on |
| LineInsertion.NeighbourItemMatches | libpromises/item_lib.c:589-628 | whether the line before or after the location is the new line |
| LineInsertion.InsertLineAtLocation | cf-agent/files_editline.c:1375-1484 | inserts at the specified spot unless the line is beside it already, and counts |
| LineInsertion.InsertCompoundLineAtLocation | cf-agent/files_editline.c:1309-1371 | a chunk that stands at the location is left; otherwise the loop with its moving pointers computes `Fold` |
| LineInsertion.InsertMultipleLinesToRegion | cf-agent/files_editline.c:696-743 | the whole insertion on the lines, for both placements and an empty file; counter and result |
| LineInsertion.InsertionKeeps | cf-agent/files_editline.c:696-763 | every selected line of the chunk is in the file afterwards, and the old lines are a subsequence |
| LineInsertion.SecondInsertionIdle | cf-agent/files_editline.c:696-763 | a second run changes nothing, before or after |
| LineInsertion.InsertionExactly | cf-agent/files_editline.c:1309-1484 | for every chunk, file and placement: exactly the missing lines are put, in order, before the first line or after the last, if and only if no missing line is taken for one that is there |
| LineInsertion.InsertionIs | cf-agent/files_editline.c:1309-1484 | in particular when no missing line repeats |
| LineInsertion.RepeatedAfterFails | cf-agent/files_editline.c:1309-1371 | after a text that is not empty, a repeated missing line never goes in as often as it is promised |
| Packages.Scheduler.NewPackageManager | cf-agent/verify_packages.c:2171-2200 | the first queue with that command and policy, whatever its action, or a new one in front; none for an empty command |
| Packages.Scheduler.AddToSchedule | cf-agent/verify_packages.c:879-925 | the package goes to the front of the package or patch list of that queue |
| PackageCommands.QueueIsReversed | cf-agent/verify_packages.c:2367-2418 | requests for one command are queued in one queue, the newest first |
| Packages.EstimateSize | cf-agent/verify_packages.c:1698-1722 | the estimate covers each name alone, or all names together with their extra room |
| Packages.ArgumentFits | cf-agent/verify_packages.c:2226-2249 | a name or a quoted repository path fits the room reckoned for its name |
| Packages.Scheduler.IssueFor | cf-agent/verify_packages.c:1696-1910 | one queue's commands, individual or bulk, with or without arguments; every strcat stays inside the allocated buffer |
| PackageCommands.SinglesAre | cf-agent/verify_packages.c:1822-1866 | individual commands: one for each package in the order of the queue, with its name, or with its quoted path for additions and updates from file repositories, up to the first package that no repository holds |
| PackageCommands.BulkIs | cf-agent/verify_packages.c:1868-1910 | a bulk command carries these words in the order of the queue, each followed by a blank, up to the first package that no repository holds |
| PackageCommands.DollarRunsOnce | cf-agent/verify_packages.c:1799-1813 | a command that ends in '$' is run once, without that sign and without naming a package |
| PackageCommands.OthersAreGiven | cf-agent/verify_packages.c:1814-1910 | any other command is followed by a blank and by the words, as the policy says |
| Packages.Scheduler.ExecuteSchedule | cf-agent/verify_packages.c:1676-2096 | the commands of one phase, and whether an undefined command ended it |
| Packages.Scheduler.ExecutePackageSchedule | cf-agent/verify_packages.c:2098-2149 | the phases follow each other up to one that is not completed |
| PackageOrder.PhasesInOrder | cf-agent/verify_packages.c:2098-2149 | whatever is scheduled, deletions precede additions, updates, patches and verifications |
| PackageOrder.EnqueueConsistent | cf-agent/verify_packages.c:879-925 | with unshared commands a request joins a queue of its own action, and nothing else changes |
| PackageOrder.PhaseAsks | cf-agent/verify_packages.c:1676-1928 | a phase is completed and names exactly what is queued for its action |
| PackageOrder.EachOnceInItsPhase | cf-agent/verify_packages.c:1676-2149 | with unshared commands, each package is named exactly as often as requested, in its own phase, by its own promise's command with its name |
| PackageOrder.ExecuteScheduledPackages | cf-agent/verify_packages.c:2151-2157 | the same for a whole run of scheduling and executing |
| PackageShared.EachOnceExactly | cf-agent/verify_packages.c:1676-2200 | each package is named exactly as often as requested, in its own phase and by its own command, if and only if no two requests for different actions share a command under one policy |
| PackageShared.SharedPatchLost | cf-agent/verify_packages.c:2171-2200 | of a patch and a request for another action that share a command, the later is named in no phase |
| PackageShared.SharedUpdateEarly | cf-agent/verify_packages.c:2171-2200 | an update that shares its command with an earlier deletion is issued among the deletions |

## Left out

- Logging, promise status, locks, ownership and permissions of files (beyond success or failure), extended attributes, remote copies, encryption, and the Windows, Apple and BSD branches.
- Fixed-size buffers for paths and lines, and their truncation, except the package command buffer and its quoted paths.
- Regular expression engines: match functions are parameters; for replacement only that a match lies inside the line is assumed.
- SaveFile.Dereference: assumes that the chain of links ends; on a cycle of links the original loop does not end. Link targets are names, the path arithmetic on relative targets is not modelled here.
- SaveFile.SaveAsFile: unlink is taken to make a name absent. Emptying a rotated backup also empties any other hard link to the same inode; the contract speaks of entries, and of the content of the target and of number one. Archiving a backup writes a file into a repository; that file is not in the state, so "nothing else changes" speaks of names outside the repository.
- CopyFile.StageCopy: directories in the way of the backup or of the destination, which the original purges first, are left out, and so is the file that archiving writes.
- CopyFile.MoveAside: the same.
- CopyFile.CopyRegularFile: the same, and only local copies.
- HardLinks.CfCopyFile: for regular files, content comparison, and calls that succeed.
- HardLinks.VerifyCopy: the branch for directories is left out; TreeCopy.TreeCopier.SourceSearchAndCopy does the recursion.
- HardLinks.CopyAll: assumes that system calls succeed, that destinations are distinct, and that no new or backup name is another job's file.
- TreeCopy.TreeCopier.SourceSearchAndCopy: for regular files and directories, comparison by content, calls that succeed, and no clash of types or of names (`TreeCopy.NoClash`); symbolic links, device files, size limits, collapsing, the cache of single copies and hard links inside the tree are not part of it. That a name is ignored depends on the name alone; the exception for empty files whose name looks hidden is left out.
- TreeCopy.TreeCopier.PurgeLocalFiles: the change of working directory during purging, and deletions that fail, are left out.
- TreeCopy.TreeCopier.CfCopyFile: for regular local files, content comparison, and calls that succeed.
- TreeCopy.TreeCopier.CopyEntry: links, devices and collapsing are left out.
- TreeCopy.CopiedAt: speaks of the one step of the tree copy; CopyRefinement.CopyRefines ties it to the calls.
- CopyOrder.MirrorLostExactly: for one directory of files whose destination holds no directories.
- DepthSearch.Walker.Search: the directory structure does not change during the walk; device boundaries, and the race checks of stat information on the way back, are left out.
- DepthSearch.Walker.Visit: the same.
- LineDeletion.DeletePromisedLinesMatching: the lines of the promiser are given as a list; freeing of deleted nodes is not modelled, they only become unreachable. The caller's region has its end after its start, as SelectRegion delivers it.
- LineReplacement.ReplacePatterns: the replacement text is a function of the current line.
- LineInsertion.InsertMultipleLinesToRegion: the whole file as the region, exact matching, fix mode and no block preservation; insertion at a matched location and from files is left out.
- LineInsertion.IsItemInRegion: exact matching, for a region that reaches the end of the list.
- LineInsertion.NeighbourItemMatches: exact matching.
- LineInsertion.InsertLineAtLocation: warn mode and preserved blocks are left out.
- LineInsertion.InsertCompoundLineAtLocation: preserved blocks are left out.
- LineDeletion.SecondEditIdle: for one-line patterns and excluded delimiters; LineDeletion.SecondEditExactly and LineDeletion.SecondEditMovesOn take the included ones, LineDeletion.EditIdleExactly any pattern.
- LineDeletion.OthersContents: speaks of multiplicity only; the order is stated by LineDeletion.DeletionIsFilter.
- Packages.Scheduler.ExecuteSchedule: one method stands for ExecuteSchedule and ExecutePatch, which differ in the list and in the extra room; whether a command succeeds changes only messages and is left out.
- Packages.Scheduler.AddToSchedule: promises with an empty command, for which the original goes on with a null queue, are excluded by the type of promises.
- PackageOrder.EachOnceInItsPhase: without file repositories and for individual and bulk policy with commands that take arguments, as promised; the commands of the other cases are stated by PackageCommands.SinglesAre, PackageCommands.BulkIs and PackageCommands.DollarRunsOnce.
- Deciding which operation a package promise needs (SchedulePackageOp), and reading lists of installed packages.
- SetACLDefaults, CheckPermTypeSyntax and the default ACL options: they only fill in fields.
- ItemListsEqual, the template parser, column edits and XML edits: easy members, or dominated by libraries outside this repository.
- PurgeHashes, which deletes by bare path rather than by key; ExpandLinks, which has no clean path semantics; storage, database, process and network promises.
