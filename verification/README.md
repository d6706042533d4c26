# Librarr: verified models of its file-moving, downloading and bookkeeping logic

Librarr is a self-hosted book library server written in Go. This project models the parts of it in which a mistake
loses a file, serves a wrong one, or corrupts the bookkeeping, and proves what those parts are for. A module of pure
functions states what an operation does; where the program updates something in place, a class or a loop does the same
step by step and is proved equal to that function; the laws are lemmas about the functions.
Every lemma carries `{:induction false}`, so each inductive step is written out and none depends on the verifier's own
induction.

| module | what it models |
|---|---|
| `Text`, `Wrappers` | the string helpers of Go's `strings` package that are used, `Option` and `Result` |
| `Paths`, `PathLaws` | Go's lexical `filepath.Clean`, `Join`, `Rel`, the three containment tests built on them, and what each kind of path element does |
| `RemotePath` | translating a path reported by a download client into a local path |
| `Disk` | a Unix file tree with `Lstat`, `MkdirAll`, `Rename`, `Remove` and their error cases |
| `RepairPlan`, `RepairStatus`, `RepairRun`, `RepairForecast`, `RepairServer` | repair of the nested ebook directory: planning, what each planned status says, moving with rollback, telling the outcome beforehand, sweeping |
| `BookDelete`, `BookRetry` | deleting a book together with its files; when a request succeeds and when it can be retried |
| `Digest`, `DigestAuth`, `DigestChallenge` | reading HTTP authentication parameters, accepting a Digest challenge, writing the answer; what a written challenge is read as |
| `RateLimit` | the sliding-window request limiter |
| `Download`, `DownloadSuccess` | downloading from servers that may answer anything, under a checksum; exactly when that succeeds |
| `LibraryItems` | the identity of library items: insertion, deletion, two backfills |
| `ImportJobs`, `ImportManager` | the import job manager: as interleaved atomic sections, and as shared objects |
| `WantedKeys`, `WantedTitles`, `WantedBooks` | matching an import against the wanted books |
| `Migrations` | ordered schema migrations across failures |

## What was found

Each of these is a place where the code and what its documentation or comments promise part ways. The model follows the
code, a lemma shows the case, and the exact condition for the promise is proved.

- `ResolveRemotePath`: mapping a path and mapping the answer back through the chosen mapping gives the cleaned path again
  if and only if the cleaned local prefix does not begin with a blank and what the answer ends with (the reported path,
  or the local prefix if nothing is below it) does not end with one. Cleaning can expose such a blank (`"/x /."`),
  because blanks are trimmed before the path is cleaned (`SwappedMappingInverts`, `CleaningExposesBlank`).
- `digestAuthorization`: the replacer escapes backslashes only in pairs, so a value with a run of backslashes of odd
  length does not read back (`ScanEscaped`, `HeaderReadsBack`).
- `RateLimiter.Check`: the retry hint is rounded down, so a client that waits exactly that long is admitted if and only
  if less than one second was left; one second more always suffices (`HintIsEarly`, `RetrySucceedsOneSecondLater`).
- Nested repair: when two catalog records name one file, the file moves with one of them and the other is left pointing
  at nothing. The outcome of every entry can be told from the plan and the faults before anything is moved
  (`OutcomeIsForecast`), and from it: a record keeps its file if and only if the ready entry for that file, if there is
  one, is forecast to take this record along or to leave the file in place; without faults, if and only if that entry is
  the record's own; with unique paths, if and only if no entry of its own is forecast to fail its rollback
  (`RecordKeepsItsFileForecast`, `RecordKeepsItsFileWithoutFaults`, `UniqueRecordsForecast`, `SharedRecordIsStranded`).
- Library items: the metadata backfill can turn two rows into records of one file when an extension has blanks around
  it; it keeps the effective format if and only if the extension is stable (`BlankExtensionRun`,
  `BlankExtensionMakesDuplicates`, `FormatFillIsStable`).
- `titlesEquivalent`: a title with a delimiter and no letter or digit after it, such as `"Dune: !"`, is equivalent to
  every title (`UnrelatedTitlesMatch`, `MatchesAnything`, `TitlesEquivalentMeaning`).
- Book deletion: a configured root that is empty and itself attached to a book is removed. Deleting one attached path
  removes only directories strictly below its root if and only if the path is not such a root (`OnlyAnEmptyRootIsRemoved`);
  a whole request does so if and only if it removes no attached path that is the root it is matched with, and a request
  that names such a root is shown (`RemovedDirsAreBelowTheirRoots`, `EmptyRootRequestRemovesRoot`). Strictly below means
  below the first configured root that contains the path: a configured root nested in it may be swept though it was
  never attached (`NestedRootIsSwept`).
- Retrying a refused deletion: the conflict message promises that deletion can be retried. When nothing is refused any
  more, the retry succeeds only if whatever lies in an attached directory is attached before it or leads to such a path;
  this suffices unless a configured root with attached paths lies strictly inside an attached directory
  (`DeletionCanBeRetried`); with attached files only it always succeeds (`AttachedFilesCanBeRetried`).
- Import jobs: the order of the retained jobs stays free of repeats if and only if a new identifier is none of the jobs
  that stay: of all retained jobs while there are fewer than eight, of all but the oldest when the history is full,
  because the oldest place is pruned and the new, active job is kept (`RepeatedIdBreaksOrder`, `OldestComesBack`).
- `pathUnderRoot`: below the root `/` it accepts only `/`; everywhere else the three containment tests agree
  (`ContainmentTestsAgree`).

- Downloading: a body is saved in the incoming directory only if the directory's path, trimmed and cleaned once more,
  still contains the new file. Cleaning can expose a blank at its end (`"/books /."`), and then nothing is ever saved
  there (`ValidatedFileExactly`, `SaveSucceedsExactly`); the same holds for a title with a line break in its middle,
  which the file name keeps and the path check refuses.

## Assumptions

- The limiter's clock does not go backwards in the order in which requests take the lock. `Check` reads the clock before
  it takes the lock (internal/api/ratelimit.go:78), so this is a statement about the environment.
- Nothing outside the program changes the modelled directories, and there are no symbolic links in them.
- MD5 and SHA-256 are uninterpreted functions. No claim needs them to be free of collisions.
- A rename or a catalog update that reports an error has changed nothing; database transactions are atomic, but a commit
  that reports an error, or is followed by a crash, may have reached the file.
- A Go string is a sequence of bytes; a `char` stands for a byte. Lower-casing, case-insensitive comparison and blank
  trimming are those of ASCII.
- `sort.Slice` leaves some ordered rearrangement. The claims about the repair plan hold for each of them; migrations of
  one version keep their order.
- Catalog paths of the repair planner are taken as already trimmed and cleaned. The disk reconciliation report enters
  only as entries that are never ready.
- New import job identifiers are different from those of the jobs that stay, and integers do not overflow, except the 32-bit
  Digest request counter, whose wrap-around is modelled.
- What servers answer, which calls fail, what a search returns, title matching of search results, EPUB checks, the
  random client nonce and the new temporary file's name are parameters over which every claim is quantified.

## Model

| member | source | states |
|---|---|---|
| Paths.ParseShow | internal/download/remotepath.go:116-126 | printing a clean path and reading it back gives that path |
| Paths.CleanIdempotent | internal/download/remotepath.go:116-126 | cleaning a cleaned path changes nothing |
| Paths.CleanNeverLonger | internal/api/library_repairs_v1.go:793-795 | cleaning never lengthens a non-empty path |
| Paths.JoinExtends | internal/download/remotepath.go:102-103 | joining ordinary names to a clean path extends it by exactly those names |
| Paths.EscapesByFirstElement | internal/download/remotepath.go:128-134 | a relative path escapes if and only if its first element is "..": a child named "..x" does not |
| Paths.PathWithinMeaning | internal/api/library_repairs_v1.go:769-780 | both Rel-based tests hold if and only if the path is the root or lies below it, element by element |
| Paths.PathUnderRootMeaning | internal/api/pathvalidate.go:57-63 | the string-prefix test is containment on cleaned absolute paths, with the exception of the root "/" |
| Paths.ContainmentTestsAgree | internal/download/remotepath.go:128-134 | the three containment tests agree on cleaned absolute paths if and only if the root is not "/" or the path is "/" |
| PathLaws.UpTakesNameBack | internal/download/remotepath.go:121 | below a clean path, a name followed by ".." cleans to what is left without both, whatever follows |
| PathLaws.UpsTakeNamesBack | internal/download/remotepath.go:121 | a row of names followed by as many ".." likewise |
| PathLaws.RootDropsUp | internal/download/remotepath.go:121 | a rooted path drops a leading ".." |
| PathLaws.RelativeKeepsUp | internal/download/remotepath.go:121 | a relative path keeps a leading "..", before whatever the rest amounts to |
| PathLaws.DotAndEmptyAreDropped | internal/download/remotepath.go:121 | "." and empty elements count for nothing |
| PathLaws.NameIsKept | internal/download/remotepath.go:121 | a name that is not taken back is the next element |
| RemotePath.ResolveRemotePath | internal/download/remotepath.go:66-114 | the loop over the mappings computes the resolution that the following rows characterise |
| RemotePath.BestIsLongest | internal/download/remotepath.go:75-87 | the loop keeps an applicable mapping with the longest remote prefix, if there is one |
| RemotePath.BestIsEarliest | internal/download/remotepath.go:80-86 | of several mappings with the longest prefix the first is taken |
| RemotePath.CandidateMeaning | internal/download/remotepath.go:75-83 | a mapping applies if and only if it is enabled, its client is the same but for case and blanks, both prefixes are usable and the remote one contains the path |
| RemotePath.NestedPrefixes | internal/download/remotepath.go:80-86 | of two remote prefixes containing the path the longer string is the deeper directory |
| RemotePath.TranslateKeepsRemainder | internal/download/remotepath.go:96-113 | the translation never takes a rejecting branch: it keeps the part below the remote prefix and stays inside the local one |
| RemotePath.ResolveOutcome | internal/download/remotepath.go:66-114 | rejected if and only if the reported path is unusable, mapped if and only if some mapping applies |
| RemotePath.UnmappedNamesNothing | internal/download/remotepath.go:66-114 | an answer repeats client and reported path; only a mapped one names prefixes and a path, the other two say why not |
| RemotePath.ResolveTakesNameBack | internal/download/remotepath.go:66-126 | a path that enters a directory and leaves it by ".." resolves as without the detour, whatever mappings name that directory |
| RemotePath.NeighbourIsNotMapped | internal/download/remotepath.go:66-134 | remote + "/../" + x is cleaned to what lies beside the remote prefix, and this mapping leaves it unmapped |
| RemotePath.MappedAnswer | internal/download/remotepath.go:75-113 | a mapped answer comes from the deepest applicable mapping, lies inside its local prefix and keeps the same remainder |
| RemotePath.SwappedMappingInverts | internal/download/remotepath.go:66-126 | for any list, resolving the answer through the chosen mapping with its sides swapped gives the cleaned path again if and only if there is no blank where the local prefix begins and where the answer ends |
| RemotePath.SwappedSingleInverts | internal/download/remotepath.go:66-126 | for a single mapping the same, in terms of the answer itself |
| RemotePath.ChosenAlone | internal/download/remotepath.go:75-94 | a mapped answer is the one the chosen mapping alone gives |
| RemotePath.CleanPathFixed | internal/download/remotepath.go:116-126 | cleaning a clean path again changes it exactly when there is a blank at an end |
| RemotePath.CleaningExposesBlank | internal/download/remotepath.go:116-126 | a family of inputs whose cleaned form is changed by cleaning again |
| Disk.MkdirAllSucceeds | internal/api/library_repairs_v1.go:643-647 | without a fault, creating directories succeeds exactly when no file is in the way |
| Disk.RenameKeepsBag | internal/api/library_repairs_v1.go:648-652 | a rename onto a free path keeps every file's content, with multiplicity |
| Disk.RenameOntoFileLoses | internal/api/library_repairs_v1.go:648-652 | a rename onto another file loses exactly that file's content |
| RepairPlan.BuildPlan | internal/api/library_repairs_v1.go:116-188 | the loop over the catalog computes the plan whose entries and statuses `RepairStatus` characterises |
| RepairPlan.ValidateDestination | internal/api/library_repairs_v1.go:555-583 | the upward loop accepts exactly if the nearest existing ancestor is a directory inside the root |
| RepairPlan.ReadyExactly | internal/api/library_repairs_v1.go:460-524 | an entry is ready if and only if its source is a file and its destination is outside the legacy root, free and unobstructed |
| RepairStatus.StatusExactly | internal/api/library_repairs_v1.go:460-524 | exactly when an entry is ready, already repaired, a collision, missing or unsafe, in terms of the disk and the catalogued hash |
| RepairStatus.EntryMirrors | internal/api/library_repairs_v1.go:460-485 | a record has an entry if and only if its path is absolute and in the legacy root; the destination is the same place below the root |
| RepairStatus.PrintedMirror | internal/api/library_repairs_v1.go:480-485 | on strings, the destination is the root joined with the path relative to the root joined with its own name |
| RepairStatus.DestinationParentMeaning | internal/api/library_repairs_v1.go:555-583 | a parent is usable if and only if one of its ancestors, or itself, is a directory in the root and nothing exists below that on the way |
| RepairStatus.PlanHasEachEntry | internal/api/library_repairs_v1.go:138-168 | the plan lists the records that have an entry in order, each with its status, or unsafe if an earlier record names the same source |
| RepairStatus.PlanFailsExactly | internal/api/library_repairs_v1.go:116-137 | there is no plan exactly without a nested root, without the root on disk, or with a file in its place |
| RepairPlan.MirroredFilesAreApart | internal/api/library_repairs_v1.go:480-485 | entries of different files never meet: different sources, and no destination at or above another |
| RepairPlan.MovableIsPlanned | internal/api/library_repairs_v1.go:145-167 | every listed record whose file is movable has a ready entry that takes this file |
| RepairPlan.PlanIsSound | internal/api/library_repairs_v1.go:145-188 | in every order, all ready entries are safe to execute and pairwise apart |
| RepairPlan.InsideIsPathWithin | internal/api/library_repairs_v1.go:769-780 | containment of element sequences is what pathWithin decides on the printed paths |
| RepairRun.StepEffect | internal/api/library_repairs_v1.go:639-667 | under any faults an entry ends moved or failed, with its file at the source or at the destination and nothing else changed |
| RepairRun.MoveFileMeaning | internal/api/library_repairs_v1.go:653 | a catalog update changes the path of one record and nothing else |
| RepairRun.StepConserves | internal/api/library_repairs_v1.go:639-667 | every intermediate state of one entry, rollback included, holds the same file contents |
| RepairRun.StepKeepsPending | internal/api/library_repairs_v1.go:639-667 | executing one entry leaves every entry apart from it safe to execute |
| RepairRun.RunKeepsSound | internal/api/library_repairs_v1.go:637-667 | what the planner established for the remaining entries holds after each entry |
| RepairRun.NothingIsLost | internal/api/library_repairs_v1.go:635-667 | in every state a run passes through, under any faults, the disk holds the same file contents with multiplicity |
| RepairRun.RecordKeepsItsFile | internal/api/library_repairs_v1.go:635-667 | after a run a record points at its own content if and only if no entry took its file without leading it along |
| RepairForecast.StepIsForecast | internal/api/library_repairs_v1.go:643-663 | one entry ends with the status forecast from its faults and from whether its directory could be prepared |
| RepairForecast.OutcomeIsForecast | internal/api/library_repairs_v1.go:635-667 | every entry of a sound plan ends with the status forecast from the plan, the initial directories and the faults |
| RepairForecast.RecordKeepsItsFileForecast | internal/api/library_repairs_v1.go:635-667 | for any faults, a record keeps its content if and only if the ready entry for its file is forecast to take it along or to leave the file |
| RepairForecast.RecordKeepsItsFileWithoutFaults | internal/api/library_repairs_v1.go:149-156 | without faults, a record keeps its content if and only if the ready entry for its file, if any, is its own |
| RepairForecast.UniqueRecordsForecast | internal/api/library_repairs_v1.go:653-663 | with unique paths, if and only if no ready entry of its own is forecast to fail its rollback |
| RepairRun.UniqueRecordsKeepTheirFiles | internal/api/library_repairs_v1.go:653-663 | with unique catalog paths a record loses its file if and only if its entry reports that the rollback failed too |
| RepairRun.SharedRecordIsStranded | internal/api/library_repairs_v1.go:149-156 | a second record of a moved file no longer points at its content |
| RepairRun.ReadyIsMovedPlusFailed | internal/api/library_repairs_v1.go:637-713 | entries ready before are exactly those moved or failed after; the others are unchanged |
| RepairRun.FaultlessRunMovesAll | internal/api/library_repairs_v1.go:637-667 | without faults every ready entry is moved |
| RepairServer.RepairServer.MoveOne | internal/api/library_repairs_v1.go:639-667 | one turn of the loop rewrites one plan entry and the stores as specified |
| RepairServer.RepairServer.MoveReadyEntries | internal/api/library_repairs_v1.go:635-667 | the loop leaves stores, statuses and emptied directories as the specified run does |
| RepairServer.MovedRootsExactly | internal/api/library_repairs_v1.go:664-667 | the sweep starts at exactly the directories a moved file came from |
| RepairServer.RepairServer.RemoveEmptyDirs | internal/api/library_repairs_v1.go:745-767 | the sweep removes only directories below the stop root, and every surviving directory on the way up from a path is non-empty or refused, despite the early stop at a directory seen before |
| RepairServer.RepairServer.Execute | internal/api/library_repairs_v1.go:635-697 | run and sweep together, and when the legacy root itself is gone |
| RepairServer.RemovedHeldNoFile | internal/api/library_repairs_v1.go:745-767 | a removed directory held no file at any depth |
| RepairServer.SecondPlanHasNothingReady | internal/api/library_repairs_v1.go:116-167 | after a run without faults and its sweep, a fresh plan succeeds and has no ready entry |
| RepairServer.WalkUp | internal/api/library_repairs_v1.go:750-765 | removing one directory keeps the account of what an upward walk has cleared |
| RepairServer.StopAtSeen | internal/api/library_repairs_v1.go:752-755 | stopping at a directory already removed loses nothing: the earlier walk cleared the rest |
| BookDelete.ResolveBookFiles | internal/api/books_v1_delete.go:158-197 | the loop computes the distinct resolved paths and counts the failures |
| BookDelete.ItemsMeaning | internal/api/books_v1_delete.go:158-197 | validation reports no problem if and only if every path resolves; then every path is among the items |
| BookDelete.UnderRootIsPrefixTest | internal/api/books_v1_delete.go:284-291 | element-wise containment is what the string test decides on the printed paths |
| BookDelete.SweepTouches | internal/api/books_v1_delete.go:344-355 | the sweep removes no file and only empty directories strictly between the path and its root |
| BookDelete.DeleteOneTouches | internal/api/books_v1_delete.go:293-322 | deleting an item removes its path unless refused, and nothing but emptied directories above it |
| BookDelete.RemovalTouches | internal/api/books_v1_delete.go:293-322 | the removal phase takes away only attached paths and directories between them and their roots; without a hard failure all attached paths are gone |
| BookDelete.InvalidPathChangesNothing | internal/api/books_v1_delete.go:82-90 | a request is rejected if and only if there is no root or some path fails validation, and then neither disk nor catalog changes |
| BookDelete.RequestIsAnswered | internal/api/books_v1_delete.go:45-130 | the answer to any request, with or without file deletion, and whether the row goes, in terms of validation, refusals and the catalog |
| BookDelete.RefusedExactly | internal/api/books_v1_delete.go:293-322 | the removal phase fails exactly if a path that is there at its turn is refused, or is a directory that still holds something or the root of the file system |
| BookDelete.ResolvesExactly | internal/api/books_v1_delete.go:241-282 | each way in which a stored path fails to resolve, exactly; otherwise what it resolves to |
| BookDelete.MatchedIsFirst | internal/api/books_v1_delete.go:284-291 | the matched root is the first configured one that contains the path |
| BookDelete.ItemsAreDistinct | internal/api/books_v1_delete.go:158-197 | no path stands twice among the items |
| BookDelete.DroppedRowLeavesNoFile | internal/api/books_v1_delete.go:82-111 | if the catalog row was dropped, no attached path exists any more |
| BookDelete.RemovedIsContained | internal/api/books_v1_delete.go:293-355 | every removed file is attached and inside its matched root; every removed directory held no remaining file and lies between an attached path and its matched root, strictly below it, or is an attached root itself |
| BookDelete.RemovedDirsAreBelowTheirRoots | internal/api/books_v1_delete.go:158-355 | all removed directories lie strictly below matched roots if and only if no attached path that is its own root is removed; so always if no attached path is a root |
| BookDelete.OnlyAnEmptyRootIsRemoved | internal/api/books_v1_delete.go:293-355 | deleting one item removes only directories strictly below its root if and only if the item is not an empty, removable root itself |
| BookDelete.EmptyRootItselfIsRemoved | internal/api/books_v1_delete.go:293-322 | an attached empty root is removed itself, and nothing else |
| BookDelete.EmptyRootRequestRemovesRoot | internal/api/books_v1_delete.go:45-130 | a request whose one stored path is an empty configured root validates, succeeds and removes it |
| BookDelete.NestedRootIsSwept | internal/api/books_v1_delete.go:284-355 | a configured root directly inside another is swept when its only file is deleted under the outer one |
| BookDelete.PrintedPathResolves | internal/api/books_v1_delete.go:241-282 | the stored text of an existing clean path inside a root resolves to that path and its matched root |
| BookRetry.NeverRefused | internal/api/books_v1_delete.go:293-322 | the removal phase is refused nothing only if whatever lies in each attached directory goes first, and this suffices unless a root lies strictly inside such a directory |
| BookRetry.GoneIsLedAway | internal/api/books_v1_delete.go:293-355 | whatever disappears lies at or above an attached path that existed |
| BookRetry.SweepLeavesNoneIdle | internal/api/books_v1_delete.go:344-355 | below its root the sweep stops only at a directory that is not empty |
| BookRetry.RequestSucceedsExactly | internal/api/books_v1_delete.go:82-111 | a request succeeds only if all paths validate and the contents of attached directories go first; this suffices unless a root lies strictly inside an attached directory |
| BookRetry.DeletionCanBeRetried | internal/api/books_v1_delete.go:96-100 | the same for a second attempt on whatever disk a partly refused first one left |
| BookRetry.AttachedFilesCanBeRetried | internal/api/books_v1_delete.go:96-100 | when no attached path is a directory, an attempt that is refused nothing succeeds and drops the row |
| BookDelete.Library.RemoveEmptyParents | internal/api/books_v1_delete.go:344-355 | the upward loop computes the specified sweep |
| BookDelete.Library.DeleteResolved | internal/api/books_v1_delete.go:293-322 | the loop leaves the disk of the specified removal and reports a hard failure exactly when an item was refused |
| BookDelete.Library.DeleteBook | internal/api/books_v1_delete.go:45-130 | on `books` and `old(books)`: without file deletion the disk stays as it is and the row goes exactly if the catalog does not fail; with it, exactly if also every path validates, there is a root and nothing is refused; success exactly if it went, each other answer exactly for its cause; no other row changes |
| Digest.ParseAuthParams | internal/download/digest.go:66-126 | the index-based scanner computes the grammar's parameters, later ones replacing earlier ones of the same name |
| Digest.ReadParameter | internal/download/digest.go:68-124 | one turn reads exactly the next parameter, moves on, or fails as the grammar does |
| Digest.QuotedAt | internal/download/digest.go:91-112 | the quoted scan by index computes the unescaped value and where it ends |
| Digest.ScanEscaped | internal/download/digest.go:171-173 | an escaped value reads back if and only if every run of backslashes in it has even length |
| Digest.ReadParams | internal/download/digest.go:66-126 | a written parameter list reads back in order if and only if every escaped value is non-empty with even runs |
| DigestAuth.HexIsInjective | internal/download/digest.go:138 | different numbers have different fixed-width hexadecimal texts |
| DigestAuth.CountersDiffer | internal/download/digest.go:137-138 | the counters sent with one nonce are pairwise different until the 32-bit counter wraps |
| DigestAuth.JoinIsPrint | internal/download/digest.go:146-159 | joining the header's parts writes the parameter list |
| DigestAuth.DigestSession.Authorization | internal/download/digest.go:136-160 | counts the request modulo 2^32 and writes the header of the given values |
| DigestAuth.HeaderReadsBack | internal/download/digest.go:136-173 | the written header reads back parameter by parameter if and only if the sent values are non-empty with even runs of backslashes |
| DigestAuth.AnswerReadsBack | internal/download/digest.go:136-160 | reading the answer as a challenge is read gives back every value and nothing else (section 3.4 of RFC 7616) |
| DigestAuth.AcceptedChallengeIsAnswered | internal/download/digest.go:22-64 | for every accepted challenge with even runs, whose fields are those of `ChallengeIsRead`, the answer reads back as written |
| DigestChallenge.ChallengeIsRead | internal/download/digest.go:22-64 | a written parameter list is read with each field the value of its own name, in any order and any case of the names and of the scheme; malformed exactly without realm or nonce, unsupported exactly with another algorithm than MD5 or without an "auth" option |
| DigestChallenge.ValueOfDistinct | internal/download/digest.go:66-126 | in a list of different names a value is that of the parameter of that name, wherever it stands |
| DigestChallenge.NoChallengeExactly | internal/download/digest.go:22-28 | "no challenge" is answered exactly for a header without the word "digest" in any case |
| DigestChallenge.UnreadableIsMalformed | internal/download/digest.go:28-32 | text that is no parameter list behind the first "digest" is malformed |
| DigestChallenge.WrongParameters | internal/download/digest.go:66-126 | a name without "=", without a value or with a closing quote missing, a value without a name and an empty value are refused, each with its own error |
| DigestChallenge.BlanksBefore | internal/download/digest.go:68-70 | blanks and commas before a parameter make no difference |
| DigestChallenge.BlanksAroundEquals | internal/download/digest.go:82-86 | nor do blanks around "=" |
| DigestChallenge.BlanksAfterValue | internal/download/digest.go:113-119 | nor do blanks after an unquoted value |
| DigestChallenge.ResponseIsKeyedDigest | internal/download/digest.go:136-160 | the response is the keyed digest of section 3.4.1 of RFC 7616, with and without a quality of protection |
| DigestAuth.HexReadsBack | internal/download/digest.go:138 | the digits written for a number stand for that number |
| RateLimit.PruneBucket | internal/api/ratelimit.go:99-105 | the index loop drops exactly the leading entries older than the cutoff |
| RateLimit.RuleMeaning | internal/api/ratelimit.go:60-75 | which rule each path falls under, exactly |
| RateLimit.LimitMeaning | internal/api/ratelimit.go:82-95 | a configured rule has its own limit, any other the default rule's, or 600 |
| RateLimit.CountIsPruned | internal/api/ratelimit.go:99-107 | in a sorted log the pruned length is the number of entries in the window |
| RateLimit.CheckAbbreviates | internal/api/ratelimit.go:96-119 | on a pruned log a request is admitted if and only if fewer than the limit lie in the window of the full history |
| RateLimit.CleanupAbbreviates | internal/api/ratelimit.go:46-58 | the background clean-up keeps every bucket an abbreviation of its full history |
| RateLimit.ApplyRefines | internal/api/ratelimit.go:77-120 | one event is answered as by the full history, and the buckets go on abbreviating it |
| RateLimit.LimiterRefinesHistory | internal/api/ratelimit.go:46-120 | over any run, with any clean-ups in between, all answers are those of a limiter that forgets nothing |
| RateLimit.AdmissionIsWindowBound | internal/api/ratelimit.go:107-119 | admitting below the limit is equivalent to no closed window holding more than the limit |
| RateLimit.NoWindowOverflows | internal/api/ratelimit.go:77-120 | in any run no closed interval as long as the window holds more than the limit of admissions of one rule and identity |
| RateLimit.RunIsAdmissions | internal/api/ratelimit.go:77-120 | the full history's log is the list of the admitted requests' times |
| RateLimit.BucketsStayWithinLimit | internal/api/ratelimit.go:77-120 | a bucket never holds more entries than the limit |
| RateLimit.RefusalInRun | internal/api/ratelimit.go:107-115 | every refusal in a run leaves a full bucket whose entries all lie in the window |
| RateLimit.NothingWithoutLimit | internal/api/ratelimit.go:107-115 | under a limit that is not positive every request of a run is refused with the whole window as hint |
| RateLimit.RetryHintIsBounded | internal/api/ratelimit.go:107-115 | the hint lies between one second and the window |
| RateLimit.RetrySucceedsOneSecondLater | internal/api/ratelimit.go:107-115 | one second after the hinted time the bucket admits again, also after clean-ups |
| RateLimit.RetryInRunSucceeds | internal/api/ratelimit.go:46-120 | in any run, after a refusal and whatever other keys and clean-ups do, the next request under the key one second past the hint is admitted |
| RateLimit.HintIsEarly | internal/api/ratelimit.go:107-115 | at the hinted time itself the bucket admits if and only if less than one second was left |
| RateLimit.RateLimiter.Check | internal/api/ratelimit.go:77-120 | rule, limit, answer, hint and the new buckets |
| RateLimit.RateLimiter.CleanUp | internal/api/ratelimit.go:46-58 | the walk over the buckets, in any order, leaves the specified buckets |
| Download.ValidatedFileStaysInRoot | internal/download/direct.go:663-685 | a sanitised name joined to the root is rejected or names a file directly in the root |
| DownloadSuccess.ValidatedFileExactly | internal/download/direct.go:663-685 | a name in the incoming directory is accepted if and only if it has no control character and lies in the directory as its path is trimmed and cleaned again |
| Download.NormalizedIsFixed | internal/download/direct.go:652-661 | normalising a normalised checksum changes nothing |
| Download.Md5Meaning | internal/download/direct.go:652-661 | a checksum is kept, in lower case, if and only if it is 32 hexadecimal digits between blanks |
| Download.WantedMd5 | internal/download/direct.go:75-85 | the wanted checksum in normal form, or the given text if it is none |
| Download.SanitizedChars | internal/download/direct.go:1142-1152 | a sanitised name is not empty, at most 80 long, and has only kept characters |
| Download.NameChars | internal/download/direct.go:1140 | the characters that are kept: letters, digits, underscore, hyphen and blanks |
| Download.PlainTitleIsKept | internal/download/direct.go:1142-1152 | a title that is short enough and has only kept characters is used as it is |
| Download.OtherTitles | internal/download/direct.go:1142-1152 | a longer one is cut after 80, and nothing becomes "book" |
| Download.CommitTemp | internal/download/direct.go:615-650 | the commit with its deferred removal of the temporary file computes the specified commit |
| Download.CommitDelivers | internal/download/direct.go:615-650 | a commit never replaces a file; success adds only the named file with the expected checksum, failure nothing, apart from a temporary file that could not be removed |
| Download.SaveInDirectory | internal/download/direct.go:551-650 | the sequence of checks with its early exits computes the save that `SaveSucceedsExactly` characterises |
| Download.SaveMeaning | internal/download/direct.go:536-650 | saving any body under any faults touches no existing file and either adds just the delivered file or nothing, apart from a `.librarr-download-*.part` file in the incoming directory whose removal failed |
| DownloadSuccess.SaveSucceedsExactly | internal/download/direct.go:536-650 | saving succeeds exactly with a usable root, a directory that exists or can be made, a new and valid temporary file without write error, at least 1000 bytes, the expected checksum if there is one, the EPUB check, and a destination that is free and renamed onto or holds the checksum already; then the named file holds these bytes and every other file is as it was |
| DownloadSuccess.CommitExactly | internal/download/direct.go:615-650 | the commit succeeds exactly onto a free destination without a rename error, or onto a file with the expected checksum |
| Download.AttemptMeaning | internal/download/direct.go:468-534 | one download makes at most one checked request per remaining hop, and delivers or restores |
| DownloadSuccess.AttemptSucceedsExactly | internal/download/direct.go:468-534 | a download succeeds exactly if the answers lead along allowed URLs, over at most five links or challenges and never two challenges in a row, to a body that is saved |
| DownloadSuccess.AttemptSaves | internal/download/direct.go:468-534 | then exactly these requests were made, and exactly this body is saved under the name that is returned |
| Download.MirrorsMeaning | internal/download/direct.go:278-358 | at most one download per distinct mirror, each from a URL never started before |
| DownloadSuccess.MirrorsSucceedExactly | internal/download/direct.go:278-358 | the mirrors succeed exactly if one that is not blank or repeated gives, at its turn, a link not started before from which a download succeeds |
| Download.MirrorsFailWith | internal/download/direct.go:278-358 | they fail with "not matched" exactly if nothing was looked up or the last lookup found no match |
| Download.MirrorNameMeaning | internal/download/direct.go:285-292 | blanks around a mirror and slashes at its end make no difference |
| Download.AlternativesMeaning | internal/download/direct.go:116-140 | at most five alternatives, with new and pairwise different checksums |
| Download.RunMeaning | internal/download/direct.go:75-149 | for all server behaviours a run adds just a file with the expected checksum in the incoming directory, or nothing, apart from temporary files there whose removal failed; at most 6 starts a mirror, all different, and 6 checked requests a start |
| DownloadSuccess.RunSucceedsExactly | internal/download/direct.go:75-149 | a run succeeds exactly if the fast path gives a successful download, or else a mirror does, or else the search succeeds and a mirror does for one of the first five matching alternatives |
| Download.CleanRunAddsOnlyTheFile | internal/download/direct.go:75-149 | when every temporary file could be removed, a failed run leaves exactly the files there were, a successful one these and the delivered file |
| Download.DirectDownloader.DownloadAttempt | internal/download/direct.go:468-534 | the recursive attempt computes the specified one |
| Download.DirectDownloader.SaveBody | internal/download/direct.go:536-650 | saving a body on the live disk is that save |
| Download.DirectDownloader.DownloadFromMirrors | internal/download/direct.go:278-358 | the loop over mirrors computes the specified run |
| Download.DirectDownloader.DownloadFromAnnas | internal/download/direct.go:75-149 | the nested loops over candidates compute the run that `RunSucceedsExactly` and `RunMeaning` characterise |
| LibraryItems.DuplicateIsSameFile | internal/db/library.go:111-140 | the duplicate search finds exactly the rows that record the same file |
| LibraryItems.AddKeepsSound | internal/db/library.go:47-104 | no file is recorded twice after an insertion, which happens if and only if the file was not recorded |
| LibraryItems.AddedRowMeaning | internal/db/library.go:47-104 | the added row has a new number and is the item as given, but for its hash: lower-cased, or that of the file |
| LibraryItems.DuplicateReason | internal/db/library.go:111-140 | a duplicate has the same path, or else the same content in the same media type and format |
| LibraryItems.AddingAgainChangesNothing | internal/db/library.go:41-76 | adding an item with a path or hash again inserts nothing and returns the same row |
| LibraryItems.WithoutKeepsSound | internal/db/library.go:383-404 | deletion removes exactly the matching rows and keeps files recorded once |
| LibraryItems.DeleteRemovesExactly | internal/db/library.go:383-404 | deletion by number, or by source, removes exactly the rows of that number, or that source |
| LibraryItems.FillKeepsSound | internal/db/library.go:181-284 | a backfill that keeps each row's identity keeps the table sound, also when it stops early |
| LibraryItems.HashFillKeepsIdentity | internal/db/library.go:181-218 | storing a computed hash changes nothing a file is identified by |
| LibraryItems.HashFillMeaning | internal/db/library.go:181-218 | the backfill fills in the file's hash where there was none and changes nothing else |
| LibraryItems.MetadataFillMeaning | internal/db/library.go:223-284 | which rows the metadata backfill changes and how: extracted title and author taken over, a format where there was none, nothing else |
| LibraryItems.DerivedFromEither | internal/db/library.go:286-300 | the present and the original path count alike when a title is compared with directory names |
| LibraryItems.FormatFillIsStable | internal/db/library.go:265-307 | storing the extension as format keeps the effective format if and only if the extension is stable |
| LibraryItems.MetadataFillKeepsIdentity | internal/db/library.go:223-284 | with a stable extension the metadata backfill keeps a row's identity |
| LibraryItems.ReachableIsSound | internal/db/library.go:47-284 | in every table reached by insertions, deletions and backfills with stable extensions no file is recorded twice |
| LibraryItems.BlankExtensionMakesDuplicates | internal/db/library.go:265-307 | without a stable extension the backfill can make two rows record one file |
| LibraryItems.BlankExtensionRun | internal/db/library.go:223-307 | two insertions and one metadata backfill, of books titled like their directories, that end with one file recorded twice |
| LibraryItems.DB.FindDuplicate | internal/db/library.go:111-140 | the scan returns the first duplicate row and why it is one |
| LibraryItems.DB.AddItem | internal/db/library.go:47-104 | inserts as specified and keeps files recorded once |
| LibraryItems.DB.DeleteItem | internal/db/library.go:383-397 | removes the row and reports whether there was one |
| LibraryItems.DB.BackfillContentHashes | internal/db/library.go:181-218 | fills a first part of the rows, as far as it gets, and keeps files recorded once |
| LibraryItems.DirNameOf | internal/db/library.go:286-300 | the directory name a title is compared with is the last element of the file's clean directory |
| LibraryItems.FillRow | internal/db/library.go:262-284 | the branches on one row compute the specified fill and write nothing when the row stays as it is |
| LibraryItems.DB.BackfillMetadata | internal/db/library.go:223-284 | fills a first part of the rows, as far as it gets, and keeps files recorded once |
| ImportJobs.PruneKeepsNewest | internal/api/library_import_v1.go:303-312 | pruning keeps exactly the newest eight jobs, unchanged, among them the active one |
| ImportJobs.StartKeepsSound | internal/api/library_import_v1.go:103-145 | a start keeps the manager's invariant, whether it is accepted or refused |
| ImportJobs.StartIsAnswered | internal/api/library_import_v1.go:103-145 | nothing selected, already running with the running job, or started with a new pending job that is active and last in the order, each exactly for its cause |
| ImportJobs.RunnerStepIsSound | internal/api/library_import_v1.go:167-284 | each section of a goroutine keeps the counters equal to what was processed and touches no other job; the last one settles the job |
| ImportJobs.RunnerKeepsSound | internal/api/library_import_v1.go:167-284 | a goroutine's section keeps the manager's invariant |
| ImportJobs.ReachableIsSound | internal/api/library_import_v1.go:103-312 | the invariant holds in every state of every interleaving of requests and goroutines |
| ImportJobs.OneUnfinishedJob | internal/api/library_import_v1.go:103-312 | in every reachable state at most one job is unfinished, it is last in the order and active; the order lists exactly the retained jobs, at most eight; finished counters equal the summary and the number of candidates |
| ImportJobs.RepeatedIdBreaksOrder | internal/api/library_import_v1.go:110-141 | a start keeps the order free of repeats if and only if its identifier is none of the jobs that stay: all retained ones, or all but the oldest of a full history |
| ImportJobs.OldestComesBack | internal/api/library_import_v1.go:303-312 | with a full history the oldest job's identifier may come back: its old place is pruned and the active job kept |
| ImportJobs.SummarizeCounts | internal/api/library_import_v1.go:341-362 | the summary is the number of items with each status |
| ImportJobs.SummarizeTotal | internal/api/library_import_v1.go:341-362 | the summary's numbers add up to the number of items |
| ImportJobs.GoroutineAdvances | internal/api/library_import_v1.go:167-284 | each section brings a goroutine exactly one nearer its end |
| ImportJobs.RunAloneCompletes | internal/api/library_import_v1.go:167-284 | a job left to run completes, frees the manager and reports for every candidate in order the status that fits what the engine reported |
| ImportManager.ImportJob.Clone | internal/api/library_import_v1.go:316-328 | the copy has the job's value and shares no object with it |
| ImportManager.JobManager.PruneJobs | internal/api/library_import_v1.go:303-312 | the loop over the order computes the specified pruning |
| ImportManager.JobManager.StartJob | internal/api/library_import_v1.go:103-145 | the manager's state and the answer are as specified, and the returned job is a copy |
| ImportManager.JobManager.Get | internal/api/library_import_v1.go:147-152 | a copy of the retained job, outside everything later updates may touch |
| ImportManager.JobManager.CountJobItem | internal/api/library_import_v1.go:232-243 | counts one item in this job and changes no other |
| ImportManager.JobManager.FinishJob | internal/api/library_import_v1.go:246-275 | completes the job with its items and summary and frees the manager |
| ImportManager.JobManager.Run | internal/api/library_import_v1.go:167-275 | the goroutine's loop, undisturbed, leaves the specified state |
| ImportManager.JobManager.TakeTurn | internal/api/library_import_v1.go:167-284 | each single section of a goroutine, from any local state, does the specified step on the shared objects |
| ImportManager.JobManager.HandleEvent | internal/api/library_import_v1.go:103-284 | any one request or section does the specified step |
| ImportManager.Serve | internal/api/library_import_v1.go:103-328 | every interleaving leaves the specified state, and a copy handed out at any moment holds at the end what the job was at that moment |
| ImportManager.CountItems | internal/api/library_import_v1.go:341-362 | the counting loop computes the summary |
| ImportManager.PollAroundRun | internal/api/library_import_v1.go:103-165 | a copy taken before a run is unchanged after it, and one taken afterwards is settled with every answer |
| WantedKeys.WriteWords | internal/db/wanted_books.go:403-415 | the loop with its flag has written the words so far, and a blank once a word has ended |
| WantedKeys.WantedIdentityKey | internal/db/wanted_books.go:401-417 | computes the value's lower-case words with single blanks between them |
| WantedKeys.KeyIsIdempotent | internal/db/wanted_books.go:401-417 | the key of a key is that key |
| WantedKeys.KeyIsEmptyExactly | internal/db/wanted_books.go:401-417 | a key is empty exactly for a value without letters and digits |
| WantedKeys.KeyDeterminesWords | internal/db/wanted_books.go:401-417 | keys are equal if and only if the words are |
| WantedKeys.KeyOfParts | internal/db/wanted_books.go:401-417 | across a separator without letters or digits the key is the two keys with a blank between them |
| WantedTitles.CompareTitles | internal/db/wanted_books.go:419-438 | the nested loops compute title equivalence |
| WantedTitles.TitlesEquivalentMeaning | internal/db/wanted_books.go:419-438 | equivalent if and only if both have words and one is the other up to a subtitle, or one has a delimiter with nothing after it |
| WantedTitles.TitlesAreSymmetric | internal/db/wanted_books.go:419-438 | equivalence is symmetric |
| WantedTitles.EquivalentTitlesStartAlike | internal/db/wanted_books.go:419-438 | without such a delimiter, all words of one title begin the other |
| WantedTitles.MatchesAnything | internal/db/wanted_books.go:419-438 | a title is equivalent to every title if and only if it has a delimiter with no letter or digit after it |
| WantedTitles.UnrelatedTitlesMatch | internal/db/wanted_books.go:419-438 | "Dune: !" and "Emma" are equivalent |
| WantedTitles.AuthorsCompatibleMeaning | internal/db/wanted_books.go:440-446 | only two known authors with different words are kept apart |
| WantedBooks.MatchesAreRows | internal/db/wanted_books.go:333-357 | the collected matches are exactly the open rows the import identifies, each once |
| WantedBooks.TargetIsCompleted | internal/db/wanted_books.go:311-386 | the named or uniquely matched open row is completed and reported, and no other row changes |
| WantedBooks.CompletesExactlyTheMeant | internal/db/wanted_books.go:311-399 | the table changes exactly if there is a row the request means, by number or else by download hash or title and author, and exactly that row is completed, field by field; a failed update changes nothing |
| WantedBooks.AnswerShowsTheRow | internal/db/wanted_books.go:311-332 | a request by number is told that there is no such row, or the row as it is afterwards |
| WantedBooks.ChangesExactlyItsTarget | internal/db/wanted_books.go:311-386 | the table changes, and the answer says so, if and only if there is a named open row or a unique match |
| WantedBooks.AtMostOneRowChanges | internal/db/wanted_books.go:311-386 | at most one row changes, never one whose status is closed, and it keeps its identity |
| WantedBooks.SecondCallChangesNothing | internal/db/wanted_books.go:311-386 | the same call again leaves the table as once |
| WantedBooks.StatusListsAgree | internal/db/wanted_books.go:392-399 | on normalised statuses the two lists of finished statuses differ only in "ignored" |
| WantedBooks.WantedTable.MarkCompleted | internal/db/wanted_books.go:366-386 | the guarded update and the read that follows it |
| WantedBooks.WantedTable.CompleteForImport | internal/db/wanted_books.go:311-364 | the scan that collects matches and the update compute the specified completion |
| Migrations.ApplyKeepsSound | internal/db/migrations.go:144-175 | under any fault a migration's change and its row commit together or not at all, and never a second time |
| Migrations.ApplyExactly | internal/db/migrations.go:144-175 | change and row are there afterwards exactly if the transaction got through and the version was new; which outcome is reported for which fault |
| Migrations.LoopKeepsSound | internal/db/migrations.go:93-126 | a run only adds changes of new versions, in strictly rising order, whatever fails |
| Migrations.AtMostOnceOverAnyStarts | internal/db/migrations.go:93-175 | over any starts with any lists and failures each version commits at most once, and the recorded rows are the committed changes |
| Migrations.AlwaysAPrefix | internal/db/migrations.go:93-175 | over upgrades, downgrades, errors and crashes the file holds exactly a first part of the published list |
| Migrations.FaultlessStartCompletes | internal/db/migrations.go:93-126 | a start without faults applies all that is missing, and the next start changes nothing |
| Migrations.UpMeansDone | internal/db/migrations.go:93-126 | a start that succeeded has recorded every version of its list, and starting again changes nothing |
| Migrations.FaultlessLoop | internal/db/migrations.go:112-125 | without faults a start succeeds if and only if the list has no duplicate version |
| Migrations.Database.ApplySchemaMigration | internal/db/migrations.go:144-175 | the transaction on a private copy, with every way it can fail, does what is specified |
| Migrations.Database.AppliedSchemaMigrations | internal/db/migrations.go:128-142 | the loaded set is exactly the recorded versions |
| Migrations.SortKeepsMigrations | internal/db/migrations.go:107-110 | the sorted copy is ordered by version and holds the same migrations with multiplicity |
| Migrations.Database.RunSortedMigrations | internal/db/migrations.go:112-126 | the loop with its sets of seen and applied versions computes the specified start |
| Migrations.Database.RunVersionedMigrations | internal/db/migrations.go:93-126 | a start on any list is the specified start on the list sorted by version |

## Left out

- HTTP handlers, JSON, authentication, settings, OPDS, webhooks and diagnostics: plumbing around the modelled logic.
- SQL text and drivers: tables are sequences of rows and transactions are atomic steps.
- Network transport, HTML scraping and the bodies of server pages: a response is an arbitrary file, link, challenge or
  error, and whether a challenge was solved is a parameter.
- Z-Library downloads and the membership API's own request: the latter enters only as the URL it gives, if any.
- MD5, SHA-256 and random numbers, and EPUB verification, which is a parameter of each exchange.
- Unicode: case folding and blank trimming beyond ASCII, and runes of more than one byte.
- Symbolic links, permissions and other processes writing to the same directories.
- The disk reconciliation report of the nested repair (internal/api/library_repairs_v1.go:358-436): only its entries
  are mixed into the plan, and they are never ready.
- `LibraryService.MoveFile` is not part of this model beyond one step that updates a record or fails and changes nothing.
- Renaming a directory: the modelled operations rename only regular files.
- The cover cache that is cleaned up after a book is deleted, and the counts in the response.
- The scanner update and the cover attachment of an import job: callbacks that do not touch the manager.
- Loading mappings from a file and validating them one by one (internal/download/remotepath.go:13-64, 137 onward).
- Statements inside the migrations: a migration is one change that happens as a whole or not at all.
- Wrap-around of 64-bit times and identifiers: integers are unbounded, apart from the 32-bit Digest counter.
- `internal/api/requests.go`, export, quality profiles, format ordering and merge choice: easier than the above.
- ImportManager.JobManager.Run: states the goroutine's effect when no request comes between its sections; arbitrary
  interleavings are those of `ImportManager.Serve`.
- ImportManager.PollAroundRun: shows one copy before and one after an undisturbed run; `ImportManager.Serve` takes a
  copy at any moment of any interleaving.
- RepairPlan.BuildPlan: takes the catalog's paths already trimmed and cleaned, does not model an error while books are
  listed, and leaves the reconciliation report's entries to be added by `PlanIsSound`.
- BookRetry.DeletionCanBeRetried: does not decide the case of a configured root with attached paths strictly inside an
  attached directory, where success depends on the order in which the roots are configured.
- DigestAuth.AnswerReadsBack: the response is an opaque hexadecimal token; that a server would accept it is not claimed.
- Migrations.Database.RunVersionedMigrations: stands for one of the rearrangements `sort.Slice` may leave; the loop's
  own claims hold for every ordered list.
