# InkDrop in Dafny

InkDrop manages a library of comics and manga. This project models the parts
of it whose guarantees are unbounded and not obvious, and proves them:

- **Torrent payloads.** A strict bencode decoder that records the byte span of
  the `info` value, a lenient decoder, and a builder that flattens v1 file
  lists (BEP 3) and v2 file trees (BEP 52) and requires that they agree.
  `Bencode`, `BencodeDecoders`, `DecodedValues`, `LenientBencode`,
  `TorrentManifest`, `TorrentEntries`, `TorrentTree`, `TorrentPayload`,
  `TorrentAdmission`.
- **Authentication.** The generation protocol of the auth store over crashes,
  restarts and lost files, and of processes that open it at once, the login
  limiter, bounded cleanup, and the life of sessions. `AuthStore`, `AuthRace`,
  `LoginLimiter`, `OverlappingLogins`, `AuthCleanup`, `CleanupOverlap`,
  `AuthSessions`.
- **Backup, restore and merge.** Admission of an archive by its ZIP end records
  (PKWARE APPNOTE.TXT, sections 4.3.14 to 4.3.16), the restore of several
  databases with rollback, the chunked merge preview, and retention.
  `ZipAdmission`, `ZipRecords`, `RestoreFaults`, `RestoreDatabases`, `MergePreview`,
  `MergeReport`, `BackupRetention`.
- **Archive conversion.** The file operations of one conversion, and the order,
  names and bytes of its pages. `ArchiveConversion`, `NaturalOrder`,
  `PageArchive`.
- **Selection, sampling, caching and sweeping.** `RoundRobin`, `Strata`,
  `Cohorts`, `RecoveryCohort`, `ArtifactAcceptance`, `ClientStatus`,
  `FolderCleanup`; `Sorting` and `Outcomes` are shared.

`dafny verify dfyconfig.toml` checks everything.

## How the program is represented

Code that works step by step is a class or a method with loops, proved against
functions on values; the lemmas are about those functions. A database
transaction, a rename and a block under a lock are single steps. Failures,
clocks, random tokens, the commits of other connections and the choices of the
thread scheduler are arguments, so every statement holds for all of them.
Digests are injective functions where a statement needs that, and Unicode
normalisation, categories and case folding are an abstract record of functions.

## What the code does not promise

Some statements one would expect are false of the code. Each is proved in the
form that does hold, with an input where the rest fails:

- The auth store is safe only where its generation can be recorded and read.
  A state database without a settings table reports the write as done, and an
  unreadable generation counts as none; either reopens the legacy copy.
- Processes that first open the auth store at once may leave it with one's
  generation and the state database with another's. Nothing revoked comes back,
  but every later open is refused.
- The bound of nine wrong passwords per 900 seconds holds only while logins of
  one bucket do not overlap, and then depends on the length of the interval: a
  login checks its password before it writes, with no lock, so overlapping
  logins count as one failure, and a check whose write fails as none. Nine is
  the most failures ever counted only if logins do not overlap or read the row
  within 30 seconds of the clock.
- Auth cleanup shows when its login quiet time is 900 seconds or less, and, to
  a login under way, when it is not longer than that by the time logins take
  from the clock to the row, or by twice that time where they overlap.
- A failed restore leaves all targets as they were only if each was a readable
  database: one that SQLite called corrupt, or that did not exist, is not put
  back, and a copy that gives up once it has opened its target leaves an empty
  file there, which the next restore takes for an empty database.
- A ZIP end record may be outshone by one that begins inside it, not only in
  the comment.
- A mislabelled archive is its own destination. Moving it back after a failed
  publication can leave a part of it there; the original stays in its slot.
- The page validator counts members, so a name stored twice hides a lost page.
- The mixed recovery cohort exceeds a target under five when more stages than
  that have units.
- A refresh thread that fails to start leaves its client marked for good, and
  its entry is never refreshed again.
- A call that refreshes for itself may answer with an older entry, not marked
  stale, when a slower refresher stores after it.
- A page name can make the natural sort key raise: a stretch of digits that are
  not decimal, such as a raised two, cannot be converted to a number, nor can
  more than 4300 digits.

## Model

| member | source | states |
|---|---|---|
| Bencode.PrintThenParse | core/inkdrop_acquire.py:1786-1826 | Parsing a printed syntax tree returns that tree, consumes exactly its bytes and counts its nodes if and only if the tree is within the depth, node and number limits. |
| Bencode.AcceptedExactlyPrinted | core/inkdrop_acquire.py:1781-1829 | A payload is consumed whole if and only if it is the spelling of some tree within the limits, and the parsed tree spells the payload byte for byte. |
| Bencode.SpellingIsUnique | core/inkdrop_acquire.py:1792-1826 | Two trees within the limits with one spelling are the same tree. |
| Bencode.Sound | core/inkdrop_acquire.py:1786-1826 | At any depth and node count, what the parser accepts is the tree's spelling followed by the rest, within the limits that remain. |
| Bencode.Complete | core/inkdrop_acquire.py:1786-1826 | Every tree within the remaining limits is read back from its spelling, whatever follows it. |
| Bencode.CanonicalIntReprints | core/inkdrop_acquire.py:1792-1797 | An integer spelling the pattern allows is the only spelling of its value; the digit limit is a limit on the value. |
| Bencode.PrintIntRoundTrip | core/inkdrop_acquire.py:1792-1797 | Every integer's spelling is one the pattern allows, reads as that integer and holds no terminator. |
| Bencode.ParseStrComplete | core/inkdrop_acquire.py:1817-1826 | Every string short enough for the length search is read back from its spelling. |
| BencodeDecoders.StrictDecoder.ParseValue | core/inkdrop_acquire.py:1786-1826 | The recursive decoder, with its shared node counter and span, returns the value and end position the grammar gives or raises, and leaves in the span the place of the last root-level info value. |
| BencodeDecoders.StrictDecoder.ReadDict | core/inkdrop_acquire.py:1798-1816 | The dictionary loop: the value is the one `DecodedValues` is about, a key that is no string raises, and only at depth zero does the span follow info. |
| BencodeDecoders.StrictDecoder.ReadList | core/inkdrop_acquire.py:1798-1816 | The list loop returns all items in order or raises. |
| BencodeDecoders.StrictDecoder.ReadInt | core/inkdrop_acquire.py:1792-1797 | Integers: value and end position, or an error, exactly as the grammar has it. |
| BencodeDecoders.StrictDecoder.ReadStr | core/inkdrop_acquire.py:1817-1826 | Strings: bytes and end position, or an error, exactly as the grammar has it. |
| BencodeDecoders.InfoSpanText | core/inkdrop_acquire.py:1803-1811 | The recorded span exists exactly when info is bound, and the bytes at it are the spelling of the last value bound to info. |
| BencodeDecoders.LookupLastBound | core/inkdrop_acquire.py:1810 | A lookup in the built dictionary finds the value of the last entry with that key. |
| BencodeDecoders.LookupPut | core/inkdrop_acquire.py:1810 | Storing under a key changes the lookup of that key and of no other. |
| DecodedValues.KeysInReadingOrder | core/inkdrop_acquire.py:1798-1812 | A decoded dictionary has each key of its text once, in the order in which the keys are first read. |
| DecodedValues.PutKeys | core/inkdrop_acquire.py:1810 | A store leaves the keys as they are, or puts a new key behind all others; this holds for the keys of any kind that the lenient decoder takes. |
| DecodedValues.EntriesInOrder | core/inkdrop_acquire.py:1798-1812 | A dictionary text without a repeated key decodes to its entries one by one, in order. |
| DecodedValues.EncodeThenDecode | core/inkdrop_acquire.py:1786-1826 | Every value within the limits whose dictionaries have distinct string keys is decoded whole from its own text, with its items and fields in order. |
| DecodedValues.DecodedIsProper | core/inkdrop_acquire.py:1804-1812 | Every decoded value has distinct string keys at every level. |
| LenientBencode.LenientReads | core/inkdrop_bencode.py:18-52 | On the spelling of any tree within the limits the lenient decoder reads the same value and stops at the same place. |
| LenientBencode.LenientAgrees | core/inkdrop_bencode.py:13-57 | Every payload the strict decoder accepts is decoded to the same value by the lenient one. |
| LenientBencode.PyIntReadsCanonical | core/inkdrop_bencode.py:22-24 | Python's int() reads every canonical integer spelling as its value. |
| LenientBencode.PyIntReads | core/inkdrop_bencode.py:22-24 | Blanks, a sign or none, digits grouped by single underscores, and blanks: int() reads such a text as its digits say, unless there are more than 4300. |
| LenientBencode.PyIntSpelled | core/inkdrop_bencode.py:22-24 | int() takes no text of another form. |
| LenientBencode.Decode | core/inkdrop_bencode.py:13-57 | The lenient decoder returns what its grammar reads and ignores what follows, or raises. |
| LenientBencode.ParseValue | core/inkdrop_bencode.py:18-52 | Its recursive step follows the lenient grammar at every position. |
| LenientBencode.ReadDict | core/inkdrop_bencode.py:34-43 | Its dictionary loop, including the error for a key that cannot be hashed. |
| TorrentManifest.JoinInjective | core/inkdrop_acquire.py:1911-1913 | Slash-joining accepted components is injective: equal joined paths have equal components. |
| TorrentManifest.VisitFlattens | core/inkdrop_acquire.py:1965-2004 | In strict mode, walking a file tree appends exactly the tree's leaves in order when the tree is well formed, and fails otherwise. |
| TorrentManifest.AppendLeavesResult | core/inkdrop_acquire.py:1900-1924 | Appending leaves succeeds if and only if every path is valid, and all paths are new and pairwise distinct; then each leaf adds exactly one entry. |
| TorrentManifest.LengthsConserved | core/inkdrop_acquire.py:1970-1994 | The entries of a tree's leaves declare exactly the bytes the tree declares. |
| TorrentManifest.FlattenTree | core/inkdrop_acquire.py:1963-2004 | A v2 tree yields one entry per leaf with lengths conserved if and only if it is well formed and its paths are distinct; otherwise it is refused. |
| TorrentManifest.FlattenList | core/inkdrop_acquire.py:1926-1952 | A v1 list yields one entry per row if and only if every row is usable, every path valid and all paths distinct; otherwise it is refused. |
| TorrentManifest.CollisionsAreReal | core/inkdrop_acquire.py:1911-1918 | Two accepted paths collide if and only if their folded components are equal one by one, so no collision comes from the joining. |
| TorrentManifest.StrictManifest | core/inkdrop_acquire.py:1885-2029 | A strict success gives the v1 entries or else the v2 entries, non-empty, pairwise distinct in path, one per leaf with lengths conserved, and where both are present their non-padding path and length sequences are equal up to the single-file wrapping. |
| TorrentManifest.AcceptedPathStays | core/inkdrop_acquire.py:1863-1882 | A path of accepted components, read with either separator, has exactly those components as its names, and none of them is empty, made of dots or a drive, so no accepted path leads out of its directory. |
| TorrentEntries.EntryList.AppendEntry | core/inkdrop_acquire.py:1900-1924 | The nested append: validation, collision check, seen-path set and entry list, strict and lenient. |
| TorrentEntries.EntryList.VisitTree | core/inkdrop_acquire.py:1965-2002 | The recursive walk over the mutable entry list agrees with the tree's specification. |
| TorrentEntries.TorrentFileEntries | core/inkdrop_acquire.py:1885-2029 | The whole manifest builder, both modes, agrees with the specification the manifest lemmas are about. |
| TorrentPayload.SpanOfInfo | core/inkdrop_acquire.py:1808-1811 | For every accepted root dictionary, the span covers exactly the spelling of the info value that is bound last. |
| TorrentPayload.HashedBytesAreTheInfo | core/inkdrop_acquire.py:1828-1860 | The slice that is hashed is the spelling of the dictionary that was validated, and decoding the slice alone gives that same dictionary. |
| TorrentPayload.SameDigestSameInfo | core/inkdrop_acquire.py:2037-2048 | Under an injective digest, two admitted payloads whose slices hash alike have the same info dictionary. |
| TorrentAdmission.AdmittedExactly | core/inkdrop_acquire.py:1828-1860 | A payload is admitted if and only if it is the text of a tree within the limits whose info dictionary has a valid name, a piece length and digests or a tree, and a good manifest: every row usable, every path valid, no two the same once normalised and folded, every node of the tree good, and the same content in both versions. |
| TorrentAdmission.ManifestExactly | core/inkdrop_acquire.py:1885-2029 | The strict manifest of an info dictionary succeeds if and only if its name, its rows or length and its tree are good and agree. |
| TorrentAdmission.ManifestLists | core/inkdrop_acquire.py:1926-2029 | A good manifest lists its files in order, each with its length, under a path that read with either separator spells the torrent's name and then the normal forms of the file's components. |
| TorrentAdmission.SameKeyExactly | core/inkdrop_acquire.py:1911-1918 | Two files collide if and only if their paths have the same components once each is normalised and folded. |
| TorrentTree.ComponentExactly | core/inkdrop_acquire.py:1863-1882 | A component is accepted if and only if its normal form is harmless; it is shown in that form and compared by that form, folded. |
| TorrentTree.TreeExactly | core/inkdrop_acquire.py:1965-2002 | A decoded tree is accepted if and only if every path in it leads to a good node: not empty, at most 32 deep, a file with its length and pieces root, or a directory of valid names. |
| TorrentTree.LeavesAreTheFiles | core/inkdrop_acquire.py:1965-2002 | The walk over an accepted tree lists every path that leads to a file, once, with its length, in the order in which the keys were read. |
| TorrentAdmission.DecodeTorrentPayload | core/inkdrop_acquire.py:1828-1860 | Decoding, the usability checks and the strict manifest in the source's order; a payload is admitted if and only if it is the text of a good torrent in the sense of `AdmittedExactly`. |
| AuthStore.SafeRuns | core/inkdrop_auth.py:492-586 | Over every expected run nothing is authorised before its generation is recorded, every later authorised open uses that generation, no legacy row is copied again, and no revoked credential is accepted again. |
| AuthStore.StepHolds | core/inkdrop_auth.py:492-586 | Every single event keeps the protocol's invariant and a recorded generation. |
| AuthStore.EnsureHolds | core/inkdrop_auth.py:492-586 | An open leaves a recorded generation and its store alone, and one that succeeds leaves the store's generation recorded. |
| AuthStore.SafeExactlyWhenRecordable | core/inkdrop_auth.py:463-483 | From a fresh installation, no expected run revives a revoked credential if and only if the state database exists apart from the store and has a settings table to record in. |
| AuthStore.LegacyRowsComeBack | core/inkdrop_auth.py:472-474 | Where the settings table is missing the write reports success without recording, and a lost store brings a revoked legacy credential back. |
| AuthStore.UnreadableGenerationReopens | core/inkdrop_auth.py:451-460 | With the store lost, the legacy rows are copied again exactly when the recorded generation cannot be read, because an unreadable one counts as none. |
| AuthStore.HeldExactly | core/inkdrop_auth.py:512-544 | While a recorded generation is read and no recovery is asked for, an open changes nothing and succeeds if and only if the store is there and has that generation. |
| AuthStore.FreeExactly | core/inkdrop_auth.py:545-586 | Otherwise, with recovery too, an open that meets no failure takes the store it finds, keeps its rows, adds the legacy rows exactly to one that was neither migrated nor in use, keeps its generation or stamps the new one, and records it where it can. |
| AuthStore.FreeFails | core/inkdrop_auth.py:545-586 | Such an open fails exactly for a crash, a copy that raises or a generation that cannot be recorded. |
| AuthStore.AuthHost.EnsureAuthStore | core/inkdrop_auth.py:492-586 | The opening protocol step by step over the two databases, with its crash points and refusals. |
| AuthStore.AuthHost.WriteStateAuthGeneration | core/inkdrop_auth.py:463-483 | Recording succeeds when there is nowhere to record, and otherwise only if the generation is stored. |
| AuthRace.RacesAreSafe | core/inkdrop_auth.py:512-586 | Over every interleaving of any number of processes that open, act, stop or crash at any step, nothing is authorised before a generation is recorded, a copy into a store that is already migrated changes nothing, and no revoked credential is accepted again. |
| AuthRace.StepGuarded | core/inkdrop_auth.py:512-586 | Every step of every process keeps the invariant behind this. |
| AuthRace.AlwaysAgreesExactly | core/inkdrop_auth.py:560-585 | From a new installation, with no store lost or replaced, the store always has the recorded generation, in every interleaving with at most c opens under way, if and only if c is one. |
| AuthRace.CrossedRecords | core/inkdrop_auth.py:560-585 | Two first opens that both find no generation, one stamping last and the other recording last: both go on, and the store is not the recorded one. |
| AuthRace.OpensAgainExactly | core/inkdrop_auth.py:519-544 | Once a generation is recorded and no open is under way, some later open can succeed if and only if the store has that generation; otherwise every later open is refused in every continuation. |
| AuthRace.LastWins | core/inkdrop_auth.py:560-585 | In every interleaving the store has the generation stamped last, and the state database the one recorded last. |
| AuthRace.AloneIsEnsure | core/inkdrop_auth.py:492-586 | A process that opens alone, step by step, does exactly what the one-step open does, for every course of faults and crashes. |
| OverlappingLogins.AtMostNineExactly | core/inkdrop_auth.py:995-1042 | With at most c logins of a bucket under way and at most lag seconds between a login's reading of the clock and of the row, no run ever counts a tenth failure, and no exponent above four is used, if and only if c is one or lag is under 30 seconds, whatever writes are lost. |
| OverlappingLogins.NinePerWindowExactly | core/inkdrop_auth.py:995-1042 | In every run with at most c logins under way, T seconds without a success allow at most 9*(floor(T/900)+1) checks of a wrong password if and only if c is one, no record of a check is lost to a failing write, and T < 930*floor(T/900)+60. |
| OverlappingLogins.NinePerWindow | core/inkdrop_auth.py:1004-1042 | After any run of single logins, from a moment at which none is under way and no window is open, T seconds of any length without a success allow at most 9*(floor(T/900)+1) wrong-password checks beside those whose record is lost. |
| OverlappingLogins.UnrecordedRun | core/inkdrop_auth.py:1016-1038 | Single logins whose write raises are checked any number of times and leave no trace. |
| OverlappingLogins.BurstCountsOnce | core/inkdrop_auth.py:997-1037 | However many logins read the row before any writes it, all their passwords are checked and one failure is counted. |
| OverlappingLogins.TenFailures | core/inkdrop_auth.py:1028-1037 | A run in which a login that reads the row thirty seconds after the clock lets a tenth failure be counted. |
| OverlappingLogins.FivePairs | core/inkdrop_auth.py:1028-1037 | Five rounds of two overlapping logins are ten checks at one moment. |
| OverlappingLogins.SerialLog | core/inkdrop_auth.py:1026-1042 | While logins do not overlap, any interleaving records a run of whole attempts in the order of their clocks. |
| OverlappingLogins.OverlappingStep | core/inkdrop_auth.py:1004-1023 | Every step of overlapping logins keeps what bounds the count when rows are read within 30 seconds of the clock. |
| LoginLimiter.WorstRunCounts | core/inkdrop_auth.py:1004-1023 | The attacking run that reaches nine checks in the old window's tail, and nine in each 930 seconds after. |
| LoginLimiter.LoginAttempts.RecordLoginFailure | core/inkdrop_auth.py:1004-1023 | The new row of a failure, in the table and nowhere else. |
| LoginLimiter.LoginAttempts.FinishLogin | core/inkdrop_auth.py:1036-1042 | A wrong password is counted from the row read before, whatever the bucket holds by then; a right one deletes the row; no other bucket changes. |
| AuthCleanup.CleanupUnobservableInRuns | core/inkdrop_auth.py:1320-1383 | After every history of requests and cleanups from an empty attempt table, every later sequence of logins, session checks and recovery resets gets the same replies with and without one more cleanup step. |
| AuthCleanup.CleanupUnobservable | core/inkdrop_auth.py:1320-1383 | The same from any tables whose attempt rows the limiter wrote. |
| AuthCleanup.UnobservableExactly | core/inkdrop_auth.py:1326-1349 | Cleanup is unobservable in this sense if and only if the login quiet time is over 900 seconds; the default is. |
| AuthCleanup.ShortQuietShows | core/inkdrop_auth.py:1345-1349 | A quiet time of 900 seconds or less lets a cleanup drop a count that a later login would have used. |
| AuthCleanup.SameReplies | core/inkdrop_auth.py:1026-1091 | Two states that differ only in dead rows answer every later sequence alike. |
| AuthCleanup.SameReply | core/inkdrop_auth.py:1026-1091 | One request gets one reply from both and keeps them alike. |
| AuthCleanup.ReachableRun | core/inkdrop_auth.py:995-1042 | Every history of requests and cleanups keeps the attempt rows as the limiter writes them. |
| AuthCleanup.PassShrinks | core/inkdrop_auth.py:1356-1370 | A bounded pass deletes only eligible rows, of each kind as many as the batch allows. |
| AuthCleanup.PassesReachZero | core/inkdrop_auth.py:1356-1370 | After n passes each remaining count is the first less n batches, so repeated passes reach zero. |
| AuthCleanup.AuthDatabase.CleanupAuthState | core/inkdrop_auth.py:1320-1383 | One pass over the three tables: a batch of eligible rows goes, and the remaining counts are exact. |
| AuthCleanup.SelectUpTo | core/inkdrop_auth.py:1357-1360 | The selected ids are eligible and as many as the batch limit and the eligible rows allow. |
| AuthSessions.SessionLifeExactly | core/inkdrop_auth.py:1036-1091 | From the login that began it, through every run of requests and cleanups, a session is answered for if and only if it has not expired and no reset or change of its user's password has ended it. |
| AuthSessions.RecoveryWorksOnce | core/inkdrop_auth.py:1404-1418 | After a reset with a recovery token no later run of requests and cleanups brings a second one. |
| AuthSessions.ResetExactly | core/inkdrop_auth.py:1404-1418 | A recovery token resets its user's password if and only if it is unspent and unexpired; then it is spent, every session of the user is revoked and nothing else changes. |
| AuthSessions.ChangeExactly | core/inkdrop_auth.py:1120-1148 | A password changes if and only if an enabled user gives the current one; the user's sessions end but for the one that is kept. |
| AuthSessions.LoginExactly | core/inkdrop_auth.py:1026-1065 | A login is refused while its bucket is locked and succeeds exactly with the enabled account's password, with a new session and the bucket cleared. |
| AuthSessions.CheckExactly | core/inkdrop_auth.py:1068-1091 | A session check answers exactly for a live session of an enabled user, and changes at most when it was last seen. |
| CleanupOverlap.UnnoticedExactly | core/inkdrop_auth.py:1004-1042 | In every interleaving of login steps and cleanups of one bucket, with at most c logins under way and at most lag seconds between a login's readings of the clock and of the row, one more cleanup changes no login's answer if and only if its quiet time is over 900 seconds plus lag, or plus twice the lag where logins may overlap. |
| CleanupOverlap.SaneAfter | core/inkdrop_auth.py:1004-1023 | Every login step and cleanup keeps how far back a row's last update can lie behind its window. |
| CleanupOverlap.AlikeAfter | core/inkdrop_auth.py:997-1001 | One step gives the same answer with a dead row and without it, also to a login that has read it, and keeps the buckets alike. |
| CleanupOverlap.FourMissed | core/inkdrop_auth.py:1345-1349 | A run of single logins in which a cleanup at the bound spares a slow fifth login its lock. |
| CleanupOverlap.DatedBack | core/inkdrop_auth.py:1028-1037 | A run of two overlapping logins in which a row is dated back by the lag, so that a cleanup a lag earlier than that is noticed. |
| RestoreDatabases.Restore.Apply | core/inkdrop_backup_restore.py:2726-2807 | The report as the faults decide it: refused if and only if a probe or a snapshot fails, with nothing changed; failed if and only if a copy does, with the exact outcome and state of every target; otherwise every target last took the archive's content, and dropping the state database's claim changed nothing else. Without other writers every target then holds the archive's rows, and its generation except where the claim was dropped; and a failure whose rollback copies succeed leaves the live files from before if and only if the faults leave every target as it was. |
| RestoreDatabases.FailureKeepsReadable | core/inkdrop_backup_restore.py:2777-2803 | After a failure a readable database was either changed by other writers only, or last set back to what it held at one moment before this restore reached it, unless its rollback copy failed. |
| RestoreFaults.AllOrNothingExactly | core/inkdrop_backup_restore.py:2761-2803 | Without other writers, every failed restore whose rollback copies succeed leaves all targets as they were, for every schedule of faults, if and only if every target was a readable database before. |
| RestoreFaults.CorruptAndMissingLost | core/inkdrop_backup_restore.py:2784-2795 | One corrupt and one missing target with a schedule each: the copy gives up after opening its target, every rollback succeeds, and an empty database is left. |
| RestoreFaults.LeavesChanged | core/inkdrop_backup_restore.py:2763-2795 | For every restore with a corrupt or missing target some single fault leaves it changed although nothing of the rollback fails. |
| RestoreFaults.DatabasesLeft | core/inkdrop_backup_restore.py:2784-2800 | A readable database is left as it was, or put back, by every failure whose rollback copies succeed. |
| RestoreDatabases.QuietFailure | core/inkdrop_backup_restore.py:2777-2803 | Without other writers, a target of a failed restore holds exactly what its place and outcome say. |
| RestoreDatabases.QuietlyFailed | core/inkdrop_backup_restore.py:2777-2803 | Without other writers, the live files a cleanly failed restore leaves are those from before if and only if each target's place and outcome leave it as it was. |
| RestoreDatabases.SuccessHoldsArchive | core/inkdrop_backup_restore.py:2761-2807 | Without other writers, success leaves the archive's rows, with its generation or, exactly where the claim was dropped, none. |
| RestoreDatabases.Restore.Put | core/inkdrop_backup_restore.py:2753-2761 | A live file is replaced or unlinked only when every existing target has its snapshot. |
| RestoreDatabases.Restore.CopyInto | core/inkdrop_backup_restore.py:886-927 | A copy commits the whole content or none of it, and one that gives up leaves at most an empty database where no file was; committed is reported exactly when the target changed, also when a later step fails. |
| RestoreDatabases.Restore.RequireDatabasesIdle | core/inkdrop_backup_restore.py:845-878 | The probe changes nothing; it refuses if and only if the probe of a database fails, and else names exactly the targets SQLite calls corrupt. |
| RestoreDatabases.Restore.SnapshotOne | core/inkdrop_backup_restore.py:797-835 | A snapshot holds what its target held at that moment; it fails if and only if there is a file and the step fails. |
| RestoreDatabases.Restore.SnapshotTargets | core/inkdrop_backup_restore.py:2754-2760 | All targets that exist get a snapshot before any is changed, or, exactly when the snapshot of one fails, the restore stops with none changed. |
| RestoreDatabases.Restore.CopyOne | core/inkdrop_backup_restore.py:2763-2776 | Unlink if unreadable, then copy: success, the lists it joins, its ticks and where it leaves the target, exactly as the faults of its steps decide. |
| RestoreDatabases.Restore.CopyAll | core/inkdrop_backup_restore.py:2761-2776 | The loop stops at exactly the first copy that fails; the attempted and the committed targets are prefixes of the list, and each target stands accordingly. |
| RestoreDatabases.Restore.RollBackOne | core/inkdrop_backup_restore.py:2784-2800 | Which of the five outcomes a target gets and what it then holds; a rollback fails if and only if its own copy does. |
| RestoreDatabases.Restore.RollBack | core/inkdrop_backup_restore.py:2783-2803 | Every attempted target gets its outcome, and one failing copy does not stop the others. |
| RestoreDatabases.Restore.ClearGeneration | core/inkdrop_backup_restore.py:2237-2247 | Where the step takes effect the live state database keeps the rows it had by then, whoever wrote them, and loses its generation; on an error, which is swallowed, nothing changes. |
| RestoreDatabases.UntouchedExactly | core/inkdrop_backup_restore.py:2768-2772 | A file's history holds only other connections' commits if and only if this restore never changed it. |
| ZipAdmission.FindEndOfCentralDirectory | core/inkdrop_backup_restore.py:1895-1920 | The backward search returns the greatest offset in the file whose record's comment reaches exactly to the end, and fails if and only if there is none. |
| ZipAdmission.EndInTail | core/inkdrop_backup_restore.py:1906-1909 | Such a record always lies in the last 22+65535 bytes, so nothing is missed by reading only those. |
| ZipAdmission.NoOverlap | core/inkdrop_backup_restore.py:1920 | The signature cannot overlap itself, so resuming the search where it last matched loses no occurrence. |
| ZipAdmission.AdmitZipCentralDirectory | core/inkdrop_backup_restore.py:1923-1981 | Admission returns the total of the one governing record of the last end record when that record is coherent, and refuses if and only if there is none. |
| ZipAdmission.AdmittedOnce | core/inkdrop_backup_restore.py:1937-1967 | A file has at most one last end record and one governing directory. |
| ZipRecords.AdmitsExactly | core/inkdrop_backup_restore.py:1895-1983 | A member count is admitted if and only if, byte by byte, the last end record, or the ZIP64 record its locator names, says so: no other disk, that count twice and at most 16, no sentinel, and a directory that ends before the record and can hold that many headers. |
| ZipAdmission.AdmittedOnItsOwnRecord | core/inkdrop_backup_restore.py:1923-1981 | A well-formed plain or ZIP64 archive is admitted on its own record if and only if no genuine-looking end record begins after its own, no stray locator stands before a plain one, and it has at most 16 members. |
| ZipAdmission.TrueCountAdmitted | core/inkdrop_backup_restore.py:1975-1981 | Without strays, the count admitted is the true member count if that is at most 16, and otherwise none is. |
| ZipAdmission.Governing | core/inkdrop_backup_restore.py:1948-1967 | A written archive's own record governs if and only if no stray locator stands before its plain end record. |
| ZipAdmission.MisleadingRefused | core/inkdrop_backup_restore.py:1906-1920 | A well-formed archive whose comment holds no signature byte is still refused when its directory offset spells the signature: strays may begin inside the end record. |
| ZipAdmission.PackThenUnpack | core/inkdrop_backup_restore.py:1879-1888 | Fields that fit their widths survive packing and unpacking. |
| ZipAdmission.UnpackThenPack | core/inkdrop_backup_restore.py:1879-1888 | Unpacked bytes pack again to the same bytes. |
| MergePreview.ClassifySeries | core/inkdrop_backup_restore.py:2943-3006 | Chunked classification with capped lookups reports the counts, samples, matches and ambiguous ids that a full scan per row would. |
| MergePreview.ClassifyIssues | core/inkdrop_backup_restore.py:3044-3142 | The issue pass reports, chunk by chunk, what full scans of the given series' verdicts would. |
| MergePreview.ClassifyChunk | core/inkdrop_backup_restore.py:2954-2970 | One chunk adds to each bucket exactly what scans of its rows add, in stream order. |
| MergePreview.ChunkLookup | core/inkdrop_backup_restore.py:2915-2940 | Grouped queries give every key of the chunk the first five matches of a scan of the whole table. |
| MergePreview.QueryGroup | core/inkdrop_backup_restore.py:2931-2939 | One group's query fills exactly its own keys. |
| MergePreview.CapKeepsVerdict | core/inkdrop_backup_restore.py:2937-2939 | Five looked-up rows give the verdict all matches would. |
| MergePreview.BucketByCount | core/inkdrop_backup_restore.py:2954-2970 | A row is new, matched or for review as no, one or several live rows carry its identity. |
| MergePreview.MatchNamesTheRow | core/inkdrop_backup_restore.py:2961-2963 | A match names the one live row with the identity. |
| MergePreview.BucketsPartition | core/inkdrop_backup_restore.py:2954-2970 | Every row lands in exactly one bucket, so the three counts sum to the total. |
| MergePreview.OnlyInOrder | core/inkdrop_backup_restore.py:2885-2888 | A row stands in its bucket after exactly that bucket's earlier rows, so a sample is the bucket's first rows in stream order. |
| MergePreview.IssueFollowsItsSeries | core/inkdrop_backup_restore.py:3119-3131 | What an issue is looked up in, or settled as, follows from its own series' verdict, whatever chunks the two fell in. |
| MergeReport.PreviewBackupMerge | core/inkdrop_backup_restore.py:2920-3142 | Both passes, said of the tables: each bucket of the report counts exactly the rows that belong there and shows the first of them in order, a series by the number of live series with its identity, an issue by its series and the issues of the one live series that matched. |
| MergeReport.IssueBucket | core/inkdrop_backup_restore.py:3054-3089 | An issue is to be reviewed if several live series have its series' identity, or several issues of the one that has; matched if one issue has; new in every other case, with a blank identity or without a series too. |
| MergeReport.IssueTold | core/inkdrop_backup_restore.py:3054-3089 | The verdict shown with an issue: doubt about its series, a new series, no rival, the one live issue that matches, or the first five that might. |
| MergeReport.SeriesVerdict | core/inkdrop_backup_restore.py:2932-2948 | A series is new, matched or to be reviewed as none, one or several live series have its trimmed identity, and its sample names them. |
| MergePreview.OrphanIsNew | core/inkdrop_backup_restore.py:3123-3126 | An issue whose series the backup does not hold is new. |
| MergePreview.IdentityIsTrimmed | core/inkdrop_backup_restore.py:2856-2870 | A blank provider or id is no identity, and surrounding blanks never change one. |
| MergePreview.StripTrims | core/inkdrop_backup_restore.py:2866-2867 | Stripping removes blanks from both ends and nothing else. |
| MergePreview.MergeBucket.Add | core/inkdrop_backup_restore.py:2885-2888 | The count stays exact and the sample stays the first rows up to the limit. |
| ArchiveConversion.Converter.ConvertArchive | core/inkdrop_archive_conversion.py:1209-1325 | With the original kept its bytes are at the source or in its slot in every state; every state's destination is honest if and only if the call is not exposed; no other file ever changes. A plan with something wrong is refused for the first such thing, with nothing changed; an accepted one ends with the reason of the first step that failed, every file where that step left it, and no temporary file unless removing it raised. |
| ArchiveConversion.OneReason | core/inkdrop_archive_conversion.py:1216-1313 | One reason at most is right for a plan that is refused, and one for a plan that fails. |
| ArchiveConversion.AcceptedExactly | core/inkdrop_archive_conversion.py:1216-1244 | A plan is accepted if and only if none of the reasons to refuse it holds. |
| ArchiveConversion.ExposedExactly | core/inkdrop_archive_conversion.py:1300-1310 | Some course of events leaves a broken destination if and only if the source is its own destination and is kept; a destination of its own never shows anything bad. |
| ArchiveConversion.Retiring | core/inkdrop_archive_conversion.py:1286-1292 | Through every state of moving the original aside, failing or not, it is whole at one of the two places. |
| ArchiveConversion.MovingBack | core/inkdrop_archive_conversion.py:1302-1309 | Moving it back never loses it; a bad state can show only where the source is the destination and the move had to copy. |
| ArchiveConversion.Converter.Retire | core/inkdrop_archive_conversion.py:1286-1298 | The original is at its slot or gone exactly when retiring succeeded, and untouched otherwise. |
| ArchiveConversion.Converter.Publish | core/inkdrop_archive_conversion.py:1300-1310 | Publishing leaves the archive at the destination, or puts the original back and cleans up. |
| ArchiveConversion.Converter.Prepare | core/inkdrop_archive_conversion.py:1254-1282 | Building and checking touch only the temporary file, and pass exactly on a complete validated archive. |
| ArchiveConversion.Disk.MoveFile | core/inkdrop_archive_conversion.py:1289 | The states of a rename, or of a copy followed by an unlink, each of which may fail. |
| NaturalOrder.SortKeyExactly | core/inkdrop_archive_conversion.py:111-116 | For any alphabet, a name has a sort key if and only if no whole stretch between its decimal digits consists of characters that are digits and not decimal, and no 4301 decimal digits stand in a row, as the conversion to a number refuses both. |
| NaturalOrder.AsciiExactly | core/inkdrop_archive_conversion.py:111-116 | An ASCII name has a sort key if and only if no 4301 digits stand in a row. |
| NaturalOrder.SortKeysCompare | core/inkdrop_archive_conversion.py:111-116 | Any two names that have sort keys compare without ever comparing text with a number. |
| NaturalOrder.NeverMixes | core/inkdrop_archive_conversion.py:111-116 | In any alphabet the keys of two names are ordered, equal or one before the other. |
| NaturalOrder.RaisedDigitRaises | core/inkdrop_archive_conversion.py:113-114 | A page named by a digit that is not decimal, such as a raised two, has no sort key: the conversion to a number raises. |
| NaturalOrder.KeyAlternates | core/inkdrop_archive_conversion.py:111-116 | A natural key alternates text and numbers and begins and ends with text. |
| NaturalOrder.SmallerNumberFirst | core/inkdrop_archive_conversion.py:111-116 | Of two names with a common beginning the one whose next number is smaller comes first, however many digits either uses. |
| NaturalOrder.NamesTransitive | core/inkdrop_archive_conversion.py:111-116 | The order of names is transitive. |
| NaturalOrder.TextExactly | core/inkdrop_archive_conversion.py:111-116 | Text is ordered by its first differing code point, a beginning before what goes on. |
| NaturalOrder.PartsExactly | core/inkdrop_archive_conversion.py:113-115 | A name is split into texts without a digit and runs of digits, in turn, that make it up again. |
| NaturalOrder.SameKeyExactly | core/inkdrop_archive_conversion.py:111-116 | Two names have one key if and only if their texts agree but for case and their numbers in value. |
| PageArchive.SortedStably | core/inkdrop_archive_conversion.py:904 | Sorting keeps every page, orders the pages by natural key and leaves pages with equal keys in place. |
| PageArchive.OneStableOrder | core/inkdrop_archive_conversion.py:904 | Only one order of the pages is stable and ordered, so the sort's result does not depend on how it is computed. |
| PageArchive.StoredOrder | core/inkdrop_archive_conversion.py:905-926 | In an archive of any size, stored names sort by code point exactly as the pages are numbered. |
| PageArchive.WidthFits | core/inkdrop_archive_conversion.py:906 | Every number up to the page count is padded to one width. |
| PageArchive.PaddedReads | core/inkdrop_archive_conversion.py:926 | A padded numeral reads back as its number and is never cut short. |
| PageArchive.WidthExactly | core/inkdrop_archive_conversion.py:906 | Numerals are four digits wide, or exactly as many as the page count has. |
| PageArchive.SuffixExactly | core/inkdrop_archive_conversion.py:925 | The suffix kept is the part of the last path component from its last dot on, which is neither its first character nor its last. |
| PageArchive.StoredIsImage | core/inkdrop_archive_conversion.py:926 | A page keeps its kind under its stored name. |
| PageArchive.WritePageArchive | core/inkdrop_archive_conversion.py:885-940 | Members and manifest line by line: leading pages, then the pages in natural order, then everything else. |
| PageArchive.ValidateCbz | core/inkdrop_archive_conversion.py:962-1020 | No fault is reported exactly when counts agree, every member reads, and every page is expected, not empty and of the expected digest. |
| PageArchive.ConversionConservesPages | core/inkdrop_archive_conversion.py:885-1020 | The validated output of a conversion, read in the order of its stored names, is the leading pages and then the source pages in natural order, none lost, repeated or altered. |
| PageArchive.ValidatedReadsPages | core/inkdrop_archive_conversion.py:962-1020 | Reading a validated archive's pages in the order of their names gives exactly the pages written, in their order, byte for byte. |
| PageArchive.NoPageMissingExactly | core/inkdrop_archive_conversion.py:968-976 | A validated archive has every page if and only if it stores no name twice. |
| PageArchive.TwiceHidesMissing | core/inkdrop_archive_conversion.py:968-976 | One page stored twice passes validation while the other is missing. |
| PageArchive.WrittenValidates | core/inkdrop_archive_conversion.py:885-1020 | What the converter itself wrote validates if and only if no page is empty and no extra member is an image. |
| RoundRobin.Select | core/inkdrop_acquisition_funnel.py:414-428 | The selection loop terminates with the target or with every row, and what it chose is some number of full rounds and part of the next. |
| RoundRobin.FairShares | core/inkdrop_acquisition_funnel.py:414-428 | Every group gave its first rows: for one k, groups before some position gave k+1 or all, the rest k or all; together they are the clamped target. |
| RoundRobin.TurnsAreShares | core/inkdrop_acquisition_funnel.py:414-428 | Taking turns and taking a prefix of every group give the same rows. |
| RoundRobin.Exhausted | core/inkdrop_acquisition_funnel.py:425-426 | A round that takes nothing means every row is taken, so the early exit never cuts a selection short. |
| Strata.GroupsPartition | core/inkdrop_acquisition_funnel.py:401-413 | The groups share out the units: each stands in exactly one. |
| Strata.GroupIsRanked | core/inkdrop_acquisition_funnel.py:411-413 | A group holds all units of one key and no others in rank order, and larger groups come first. |
| Strata.Stratify | core/inkdrop_acquisition_funnel.py:401-413 | Grouping, ranking and ordering the groups as the selection uses them. |
| Cohorts.StratifiedCohort | core/inkdrop_acquisition_funnel.py:397-428 | The cohort has exactly the clamped target number of units, taken fairly: of units alike in medium, unit type, divergence, pack evidence and age the older are chosen first, and a kind with a unit left out is at most one behind any other, and only behind a larger one or one as large that comes earlier. |
| Strata.FairToUnits | core/inkdrop_acquisition_funnel.py:397-428 | Whatever the keys and ranks, a fair selection of the ranked groups is fair to the units themselves. |
| Cohorts.StratifiedSample | core/inkdrop_candidate_replay.py:497-529 | The replay sample, in order of id: every item when none or all are asked for, else exactly as many as asked for, of one code those of smallest rank, and no code with an item left out more than one behind another. |
| RecoveryCohort.MixedRecoveryCohort | core/inkdrop_acquisition_funnel.py:466-515 | Every stage draws its own quota whatever the others drew, the rest is a fair fill, no unit is drawn twice, and the size is the clamped target or the sum of the draws if that is larger; each draw is fair to the stage's units. |
| RecoveryCohort.DrawFair | core/inkdrop_acquisition_funnel.py:488-505 | A unit of a stage is left out only for older ones: if its series is not covered, every chosen unit is older and alone of its series; otherwise an older unit of its series is chosen, and every chosen unit that is not the first of its series is older. |
| RecoveryCohort.QuotasFitExactly | core/inkdrop_acquisition_funnel.py:485-512 | The draws fit the clamped target, so the size is exact, if and only if it is at least five or at least the number of occupied stages. |
| RecoveryCohort.SpreadCoversSeries | core/inkdrop_acquisition_funnel.py:494-504 | Within a stage as many series as possible are covered before any gets a second unit. |
| RecoveryCohort.DrawStages | core/inkdrop_acquisition_funnel.py:490-510 | The draws stage by stage with the exact shortfalls. |
| RecoveryCohort.NextStage | core/inkdrop_acquisition_funnel.py:490-510 | A stage's draw keeps ids distinct and takes exactly its quota or its pool. |
| ClientStatus.AlwaysTendedExactly | core/inkdrop_client_status.py:120-153 | In a run, every marked id always has a live refresher if and only if no step marks an id whose thread then fails to start while nobody else refreshes it. |
| ClientStatus.HealthyExactly | core/inkdrop_client_status.py:120-153 | The same for each single step. |
| ClientStatus.OrphanedInEveryRun | core/inkdrop_client_status.py:140-153 | An id orphaned that way is never refreshed again in any continuation, forced calls included. |
| ClientStatus.RefresherCanClear | core/inkdrop_client_status.py:120-130 | From every state a live refresher's own next steps, at most three, clear its mark, however its fetch ends. |
| ClientStatus.RefresherPersists | core/inkdrop_client_status.py:120-130 | Whatever others do, a refresher goes on until its id's mark is cleared. |
| ClientStatus.OwnAnswerExactly | core/inkdrop_client_status.py:153-156 | In every interleaving a call that refreshed for itself finds an entry, after a step of its own stored what it fetched, no older than the call; its answer is older than that if and only if an older entry of the same id was stored last in between. |
| ClientStatus.OvertakenAnswer | core/inkdrop_client_status.py:125-127 | A run in which a slow store overtakes: a call that fetched at 100 answers, unmarked, with an entry fetched at 0. |
| ClientStatus.EntryIsLastStore | core/inkdrop_client_status.py:125-127 | An id's entry is always the one the run stored last. |
| ClientStatus.FreshIsInTime | core/inkdrop_client_status.py:134-139 | In every run, an answer given as fresh was fetched within the time limit of the clock its call had read. |
| ClientStatus.OneRefresherEach | core/inkdrop_client_status.py:140-147 | Starting warm and without forced calls, at most one refresher per client is in flight in every interleaving. |
| ClientStatus.WarmCallsNeverWait | core/inkdrop_client_status.py:138-147 | In such runs no call ever refreshes for itself or answers from its own refresh. |
| ClientStatus.ColdCallsBothFetch | core/inkdrop_client_status.py:148-154 | On a cold cache two calls may refresh one client at once. |
| ClientStatus.ClientStatusCache.Enter | core/inkdrop_client_status.py:132-153 | The locked part of get: which of the four decisions is taken and whether the id is marked. |
| ClientStatus.DecideExactly | core/inkdrop_client_status.py:132-153 | Which of the four answers a call gets, by its entry's age, by force and by whether someone refreshes, and the age that is stated with a stale one. |
| ArtifactAcceptance.SampledImageMembers | core/inkdrop_artifact_acceptance.py:49-86 | The sampled positions are strictly increasing, at most 24, include the first and last page, stay within the larger of the ceiling and those two pages, and leave out no pick that would still fit. |
| ArtifactAcceptance.PicksSpan | core/inkdrop_artifact_acceptance.py:62-67 | The evenly spread picks run strictly upward from the first page to the last. |
| ArtifactAcceptance.SpreadNearest | core/inkdrop_artifact_acceptance.py:66-67 | However the arithmetic rounds on the way, while it is off by less than a forty-sixth of a page the nearest page is this one and never tied, so neither rounding nor its rule for ties can matter. |
| ArtifactAcceptance.ArchiveMemberSemantics | core/inkdrop_artifact_acceptance.py:959-1219 | What is read and what is reported of it: integrity, counts and errors, for every way a file or page can fail. |
| ArtifactAcceptance.ReadPages | core/inkdrop_artifact_acceptance.py:1048-1080 | The verification loop: sound, bad on some page's own account, or no verdict. |
| ArtifactAcceptance.AcceptedEndsRead | core/inkdrop_artifact_acceptance.py:1428-1497 | Every accepted .cbz, of whatever size, had its first and last page in name order read and judged valid, and all its pages unless oversized. |
| ArtifactAcceptance.OurFaultIsNoVerdict | core/inkdrop_artifact_acceptance.py:849-877 | The archive is called bad exactly when some page read was bad on its own account, and undetermined exactly when the only faults are ours or nothing was read; with any faulty page it is not accepted. |
| ArtifactAcceptance.IntegrityExactly | core/inkdrop_artifact_acceptance.py:849-877 | An archive is found sound if and only if every page that was read is an image of at most sixteen mebibytes, bad if and only if the examination ended on its own account or a page read is broken, and undetermined in every other case; all pages are read up to two thousand of them and half a gibibyte. |
| ArtifactAcceptance.DecideAcceptance | core/inkdrop_artifact_acceptance.py:1466-1572 | Each decision is taken exactly when the cascade's first fault is the one it names, and acceptance when there is none; completion only then; an unfinished read or a review never quarantines. |
| ArtifactAcceptance.OneDecision | core/inkdrop_artifact_acceptance.py:1466-1572 | For every evidence at most one decision is right. |
| ArtifactAcceptance.AcceptableExactly | core/inkdrop_artifact_acceptance.py:1466-1548 | What can be accepted is what no fault of archive, pages, source, metadata, kind, number or completeness speaks against. |
| ArtifactAcceptance.ArchiveDecision | core/inkdrop_artifact_acceptance.py:1474-1504 | The archive's part of the cascade and exactly when its read counts as undetermined. |
| BackupRetention.ScheduleKeeps | core/inkdrop_backup_restore.py:1760-1868 | Over every run of passes with a fixed policy and a monotone clock the live archives are a newest part of all that ever were, at least an interval apart, and after the first pass neither none nor more than a set count. |
| BackupRetention.SurvivorsNewest | core/inkdrop_backup_restore.py:1785-1812 | Pruning keeps a newest part, never empties the directory and keeps the count. |
| BackupRetention.SurvivesExactly | core/inkdrop_backup_restore.py:1796-1804 | An archive survives if and only if it is the newest, or is neither older than the retention days nor behind as many newer ones as are to be kept. |
| BackupRetention.ScheduleForgets | core/inkdrop_backup_restore.py:1760-1868 | After every run of passes the live archives are the ones that pruning all there ever were, once and now, would leave. |
| BackupRetention.DueExactly | core/inkdrop_backup_restore.py:1844-1845 | A scheduled archive is due if and only if none is younger than the interval, which is a day at least. |
| BackupRetention.PruneTwice | core/inkdrop_backup_restore.py:1785-1812 | Pruning again at the same moment deletes nothing. |
| BackupRetention.MadeSpaced | core/inkdrop_backup_restore.py:1844-1853 | A new archive is the newest and an interval after the last although its stamp drops the fraction of a second. |
| BackupRetention.PassKeeps | core/inkdrop_backup_restore.py:1815-1868 | One pass keeps all of this. |
| BackupRetention.BackupDirectory.Prune | core/inkdrop_backup_restore.py:1760-1812 | Exactly the archives of the label that do not survive are deleted, save those whose unlink fails. |
| BackupRetention.BackupDirectory.RunScheduled | core/inkdrop_backup_restore.py:1815-1868 | A pass creates when due, then prunes; a failed creation prunes nothing; archives of other labels never change. |
| BackupRetention.ListNewestFirst | core/inkdrop_backup_restore.py:1478-1496 | The listing holds each archive once, newest first, whatever order the directory gave. |
| FolderCleanup.RemovedExactly | core/inkdrop_folder_cleanup.py:51-86 | A folder is removed if and only if it lies on the path strictly below the root and nothing lies beneath it but the path's own folders, all of them readable and removable. |
| FolderCleanup.ChainMaximal | core/inkdrop_folder_cleanup.py:70-85 | Each removed folder is empty once the ones before it are gone, and the next one up is not removable. |
| FolderCleanup.ChainClimbs | core/inkdrop_folder_cleanup.py:69-83 | The removed folders are the file's own, from its parent upward without a gap, each below the root. |
| FolderCleanup.SweepKeepsTree | core/inkdrop_folder_cleanup.py:51-86 | Neither the root nor a file is ever taken, and everything left still lies in a directory. |
| FolderCleanup.DryRunForetells | core/inkdrop_folder_cleanup.py:76-82 | A live run removes a beginning of what a dry run lists, and all of it if and only if none of the listed folders resists removal. |
| FolderCleanup.Folders.RemoveEmptyParents | core/inkdrop_folder_cleanup.py:51-86 | The walk with its early exits, removing exactly the chain and reporting it; a dry run changes nothing. |
| FolderCleanup.ContainingRoot | core/inkdrop_folder_cleanup.py:27-48 | The deepest configured root strictly above the path, or none if there is none. |

## Left out

- Network code, redirects, indexer and download-client calls: behaviour that lives outside the files.
- Regular expressions for titles, languages and releases, and URL mapping: heuristics without a simple specification.
- Password hashing, rehashing on login, token generation and encryption: a password check is a predicate and a new token is a fresh value.
- SQL text: a table is a map, a set or a sequence, and a transaction is one step.
- The restored configuration files, the free-space checks, the quiescence gate and the staging of archive members before a restore; the classification deadline of the merge preview.
- Extraction of ZIP, RAR and 7z members, image decoding, permissions: each is a step that succeeds or fails.
- `core/inkdrop_acquisition_policy.py`, `core/inkdrop_comicinfo_identity.py`, `core/inkdrop_bounded_read.py`, `core/inkdrop_auth_contracts.py`, the health check and the web files: they would add only easy members.
- The directive cohort and the page-directory conversion: they repeat the cohort and the conversion modelled here.
- Unicode tables: normalisation, folding and digit classes are arbitrary functions with the few stated properties; the pages of `PageArchive` and sorting by lower-case file name are ASCII.
- PageArchive.WritePageArchive: every page has a sort key, as its path consists of names of at most 255 bytes and so holds no 4301 digits in a row.
- AuthRace.RacesAreSafe: the state database can record and be read and no recovery is asked for, which `AuthStore` varies for one process; cleanup, which removes revoked sessions after a day, does not run while a process opens.
- AuthCleanup.CleanupUnobservable: requests and cleanups follow one another here, and logins that are under way across a cleanup are in `CleanupOverlap`, bucket by bucket; the count `revoke_session` returns, which does change with cleanup, is not among the requests.
- RestoreDatabases.Restore.Apply: a file changes between missing, readable and corrupt only by the restore itself; other connections commit into databases that exist.
- ArchiveConversion.Converter.ConvertArchive: paths that reach one file by a symbolic link, and errors raised by the checks themselves, are not modelled; validation is a predicate on the written bytes here and is modelled in `PageArchive`.
- MergePreview.ClassifySeries: the live table is scanned in one fixed order, so which five candidates an ambiguous row lists is that order's choice.
- ArtifactAcceptance.AcceptedEndsRead: a verdict cached for an unchanged file counts as the reading it came from.
- BackupRetention.ScheduleKeeps: unlinks succeed and the clock is monotone, as in the statement; a single prune with failing unlinks is `BackupDirectory.Prune`.
