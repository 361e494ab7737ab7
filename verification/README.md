# Verified model of dropper's storage engine and its state machines

dropper is a small file-drop server: it keeps uploads under one root directory
behind a login. This Dafny project models the parts of it where something can
go wrong silently, and proves what they guarantee. `dafny verify dfyconfig.toml`
checks everything.

The file system is a tree of directories, files and symbolic links
(`FileTree.dfy`). Paths are resolved component by component, as in section 4.13
of POSIX.1-2017 (Pathname Resolution), with a budget of 255 links for
`filepath.EvalSymlinks` and 40 for the kernel. A Go string is a sequence of
bytes, written as a Dafny `string` whose characters stand for the bytes.

| file | what it models |
|---|---|
| `Paths.dfy` | the lexical operations of `path/filepath` and the prefix test |
| `FileTree.dfy` | inodes, resolution of links, growth of the tree |
| `Links.dfy` | what a path leads to by replacing its links one by one |
| `Jail.dfy` | `SafePath` and the ancestor walk |
| `Names.dfy` | sanitising, extensions, collision names |
| `Disk.dfy` | the mutable disk and its operations |
| `Write.dfy` | `SafeWriteFile`, `atomicPlace`, `atomicPlaceRename` |
| `Directories.dfy` | `SafeWriteFileWithRelPath`, `CreateDirectory` |
| `ConcurrentUploads.dfy` | any number of writers in one directory, interleaved at every step |
| `RateLimiter.dfy` | the sliding-window limiter over shared backing arrays |
| `Sessions.dfy` | the session store and its cleanup |
| `Auth.dfy` | login, session check and logout as interleaved steps of many requests |
| `Audit.dfy` | `Log`, `Reopen` and `Close` as interleaved steps around one mutex, with outside rotation |
| `Batch.dfy` | the upload handler's loop |
| `Folder.dfy` | flattening a dropped folder in the browser and rebuilding it on the server |
| `Sorting.dfy`, `StableSort.dfy` | insertion sort, and the library's stable sort in place |
| `Listing.dfy` | directory listings and their order |
| `Pages.dfy` | child links and breadcrumbs |
| `Errors.dfy` | error kinds, `Option`, `Result` |
| `Sequences.dfy` | a fact about sequences that several modules use |

A method that follows the source step by step is proved against a function on
values (`SafePath` against `SafeTarget`, `Allow` against `Decide`, the session
store against `Created`, `Got` and `Expired`), and the results about whole runs
are lemmas about those functions. What the operating system and the clock
contribute to a call is a parameter: for one write it is the record `Env`, for
the audit logger the `ok` of each step. A run is any sequence of allowed steps.

## Where the code does less than it promises

Each of these is proved, with the exact condition under which it happens.

- Under the root directory `/` the prefix test compares with `//`, so every path
  but the root itself is refused (`Paths.WithinRootIsComponentPrefix`,
  `Paths.RootSlashRefusesItsFiles`).
- With `max_upload_bytes` at the largest 64-bit integer, `maxBytes+1` wraps
  around and every upload is stored as an empty file
  (`WritePipeline.WholePayloadCopied`, `WritePipeline.LargestLimitStoresNothing`,
  `ConcurrentUploads.PlacedForGood`).
- The rename fallback does not check the name it renames onto. An entry is lost
  exactly when the rename does not fail and either the desired name is a dangling
  link, or the desired name is taken and the stamped one holds something else
  that is no directory (`WritePipeline.FallbackReplacesExactly`,
  `WritePipeline.FallbackDestroysLink`, `WritePipeline.FallbackDestroysUpload`).
- Among concurrent uploads the rename destroys whatever has got the name since the
  fallback looked (`ConcurrentUploads.RenameDestroysExactly`,
  `ConcurrentUploads.RenameKeepsInvExactly`, `ConcurrentUploads.LaterRenameWins`,
  `ConcurrentUploads.FallbackRaceDestroys`).
- The size in an upload's result is read back through `SafePath` on the file's
  own path, which may be longer than 4096 bytes although its directory's path
  is not; the size is then reported as 0 (`UploadBatch.ReportedSize`,
  `UploadBatch.SizeIsLost`).
- The comment on `Close` says that later `Log` calls are no-ops. They are not if
  `Close` lands between a `Reopen`'s two critical sections, nor after a `Reopen`
  that failed to close the old file (`Audit.CloseStopsNewLogs`,
  `Audit.CloseInsideReopen`, `Audit.GapNeedsReopen`, `Audit.CloseIsFinal`,
  `Audit.CloseBeforeLateLog`).
- Two `Reopen` calls that overlap may both install a file; no call then closes the
  handle of the first (`Audit.LossIsExact`, `Audit.LostForever`,
  `Audit.OverlappingReopensLose`). Without such an overlap no handle is lost
  (`Audit.OneAtATimeLosesNone`).
- The rate limiter bounds the requests that are let past in a window, not the
  secrets compared in it: a request may take its time between the two
  (`Auth.LimitedExactlyWhenPrompt`).
- Descending listings use a comparison that holds of entries with equal keys, so
  the stable sort reverses them (`Listing.ListingIsSorted`).

Breadcrumbs of an absolute path would not fold (`Pages.BreadcrumbsFoldExactly`);
the handlers build none, since `SafePath` refuses absolute paths first.

The comment on `SafeWriteFile` speaks of `O_CREATE|O_EXCL` and an atomic rename;
the code, and so the model, places the file with a hard link and renames only as
a fallback.

## Model

| member | source | states |
|---|---|---|
| `Paths.CleanIdempotent` | internal/dropper.fs.go:126 | cleaning a path twice is cleaning it once, for absolute and relative paths alike |
| `Paths.NormalizeRequest` | internal/dropper.fs.go:126 | walking a request lexically from a directory climbs as often as its cleaned form has leading `..` and then descends by its names |
| `Paths.LexicalStep` | internal/dropper.fs.go:126 | read one component at a time from a directory: `.` and the empty name stay, `..` goes to the parent, any other name goes down |
| `Paths.JoinRoot` | internal/dropper.fs.go:125-132 | joining the resolved root with the cleaned request gives the canonical path of walking the request from the root |
| `Paths.JoinNames` | internal/dropper.fs.go:522 | joining several names to a relative path leads to those names below wherever the path leads |
| `Paths.DirOfRender` | internal/dropper.fs.go:178-181 | Dir and Base split a canonical path into its parent and its last name |
| `Paths.WithinRootIsComponentPrefix` | internal/dropper.fs.go:155-157 | on canonical paths the string prefix test holds exactly when the root's components are a prefix of the path's, except that the root `/` contains only itself |
| `Paths.RootSlashRefusesItsFiles` | internal/dropper.fs.go:155-157 | concrete failure: under the root `/` the test refuses `/etc` |
| `Paths.LexicalAcceptance` | internal/dropper.fs.go:125-138 | the lexical check lets a request through exactly when its cleaned form climbs k levels and comes back down through the last k names of the root |
| `FileTree.WalkConcat` | internal/dropper.fs.go:165 | compositionality: resolving `a/b` is resolving `b` from where `a` leads, with what is left of the link budget |
| `FileTree.WalkFindsCanonical` | internal/dropper.fs.go:165 | whatever links it follows, resolution ends at an existing path with no link on it |
| `FileTree.WalkCanonical` | internal/dropper.fs.go:165 | a path with no link on it resolves to itself and uses up no links |
| `FileTree.ResolveIdempotent` | internal/dropper.fs.go:120 | resolving a resolved path changes nothing |
| `FileTree.WalkMoreLinks` | internal/dropper.fs.go:165 | a larger link budget changes no answer but "too many links" |
| `FileTree.WalkExtends` | internal/dropper.fs.go:525-542 | what resolves keeps resolving to the same path when files and directories are added |
| `Links.ResolvesExactly` | internal/dropper.fs.go:120-165 | resolution finds a path exactly when the path is reached by replacing first links one by one, an absolute target read from `/` and a relative one from the directory of its link, until none is left; the links used up are the number of replacements |
| `Jail.SafePath` | internal/dropper.fs.go:98-151 | the five checks on strings compute the component specification SafeTarget, errors included, for every tree, working directory, root and request; too long a request, one with a NUL, an absolute one and a root that does not resolve are refused by name |
| `Jail.ResolveWithAncestorWalk` | internal/dropper.fs.go:163-208 | the function answers with the deepest existing ancestor, resolved, and the names below it; it fails with the first error that is not "not exist" |
| `Jail.Climb` | internal/dropper.fs.go:175-207 | for a target that does not exist, the loop ends and answers with the located target; its invariants keep current joined with remaining equal to the target and never let it climb above the root; it falls through to the fallback only when the root itself does not exist, and then the fallback fails |
| `Jail.AnchorIsBoundary` | internal/dropper.fs.go:183-195 | "not exist" is inherited downwards, so the levels that do not exist are exactly those below the deepest existing ancestor |
| `Jail.LocateShape` | internal/dropper.fs.go:163-208 | an answer is a canonical existing path, or a canonical existing directory followed by the target's last names, none of which exists |
| `Jail.JailSound` | internal/dropper.fs.go:98-208 | jail soundness: the answer lies under the resolved root; if it resolves it resolves to itself, and if not its deepest existing ancestor is a canonical directory under the root, followed by the unresolved names in order |
| `Jail.SafeTargetStat` | internal/dropper.fs.go:343 | os.Stat of an answer, with the kernel's own link limit, finds exactly the canonical answers |
| `Jail.ChildTarget` | internal/dropper.fs.go:575-579 | a name below a found directory leads to that entry; a link leads to its own name if it dangles, to what it resolves to if that is in the jail, and is refused otherwise; a server rooted at `/` refuses every name |
| `Jail.BelowTarget` | internal/dropper.fs.go:522-529 | several names below a found directory, with only directories in the way, lead to exactly those names |
| `Jail.RevalidationAgrees` | internal/dropper.fs.go:525-542 | once the directory of an answer has been made, SafePath gives the same answer again |
| `Jail.AnswersByLinks` | internal/dropper.fs.go:98-151 | SafePath answers with an existing path exactly when the request, read lexically below the resolved root, leads there by replacing at most 255 links and both that reading and that place are below the root |
| `Jail.LinkedTarget` | internal/dropper.fs.go:143-165 | what a link in a served directory leads to, if its target has no further link on it: the target is read from `/` if absolute and from the link's directory if not; the answer is that place, or a traversal if it is not below the root |
| `Jail.AbsoluteLink` | internal/dropper.fs.go:143-165 | a link to the absolute path of an existing place is answered with that place if it is below the root and refused as a traversal if not |
| `Jail.RelativeLink` | internal/dropper.fs.go:143-165 | the same for a link that climbs any number of levels from its directory and then goes down |
| `Jail.RootMeans` | internal/dropper.fs.go:115-120 | the root is the configured path; a relative one that climbs some levels and goes down again is read from the working directory |
| `Jail.ServesOwnPaths` | internal/dropper.fs.go:98-151 | under a root other than `/` with no link on it, names with only directories on the way and no link at the end, whether something is there or not, are the answer to their own request, within 4096 bytes; the root is the answer to `.` |
| `Names.SanitizeFilename` | internal/dropper.fs.go:50-68 | every result is a safe name: 1 to 255 allowed characters, not `.` or `..` |
| `Names.SanitizeAscii` | internal/dropper.fs.go:50-68 | an ASCII name keeps its length (up to 255) and each character outside the allowed set becomes `_` |
| `Names.SanitizeUtf8` | internal/dropper.fs.go:50-68 | a name in UTF-8 keeps one character for each of its runes, up to 255: the rune itself if it is allowed and `_` if not |
| `Names.SanitizeReserved` | internal/dropper.fs.go:60-66 | the empty name, `.` and `..` become `_` |
| `Names.SanitizeFixpoint` | internal/dropper.fs.go:50-68 | sanitising leaves a name alone exactly when it is safe, and sanitising twice is sanitising once |
| `Names.ExtMeans` | internal/dropper.fs.go:77 | the extension is the name from its last dot on, and is empty exactly when no dot follows the last slash |
| `Names.ValidateExtension` | internal/dropper.fs.go:72-84 | for an ASCII name and list, true exactly when the list is empty or one of its entries agrees with the name from its last dot on, letter by letter but for the case of `A` to `Z` |
| `Names.AllowedIfListed` | internal/dropper.fs.go:72-84 | the folded comparison of extensions is that agreement, for every ASCII name and list |
| `Names.EqualFoldMeans` | internal/dropper.fs.go:79 | folding compares ASCII strings character by character; an ASCII string matches one outside ASCII only if that is longer, by a Kelvin sign or a long s |
| `Names.StampedKeepsExtension` | internal/dropper.fs.go:409-413 | a timestamp prefix keeps a safe name an ordinary name with the same extension |
| `Disks.Disk.Link` | internal/dropper.fs.go:417 | os.Link adds a name only if it is free, and changes nothing else |
| `Disks.Disk.Rename` | internal/dropper.fs.go:444 | os.Rename moves an entry over whatever is there, unless that is a directory |
| `Disks.Disk.Mkdir` | internal/dropper.fs.go:581-586 | os.Mkdir makes one empty directory in the directory its parent leads to, links followed, exactly when there is one and the name is free in it; a taken name is reported as such |
| `Disks.Disk.MkdirAll` | internal/dropper.fs.go:532 | on an answer of SafePath, makes a prefix of the missing directories and nothing else; it succeeds exactly when only directories are in the way and no mkdir of a missing one fails |
| `Disks.MakeDirsLookup` | internal/dropper.fs.go:532 | making the directories of a path adds exactly those directories and changes no file and no link |
| `Disks.ReplaceLookup` | internal/dropper.fs.go:351-400 | changing one directory's entries leaves every path outside it as it was |
| `WritePipeline.WholePayloadCopied` | internal/dropper.fs.go:366-375 | a copy that passes the size test has the whole payload exactly when maxBytes is below the largest 64-bit integer or the payload is empty; below it the payload is within the limit |
| `WritePipeline.LargestLimitStoresNothing` | internal/dropper.fs.go:367 | concrete failure: at the largest 64-bit limit a one-byte upload passes as an empty file |
| `WritePipeline.AtomicPlaceRename` | internal/dropper.fs.go:440-463 | the fallback moves the temp file to the desired name if that seems free, else to the stamped one; it fails exactly on a rename error or a directory there, changing nothing |
| `WritePipeline.SameStampPlaces` | internal/dropper.fs.go:406-436 | with collision names from one second, the desired name is used if it is free, else the stamped one if that is free, else the write fails |
| `WritePipeline.ExistsExactly` | internal/dropper.fs.go:406-436 | without link faults, "exists" is the answer exactly when the desired name and all ten stamped names are taken |
| `WritePipeline.QuietWriteSucceedsExactly` | internal/dropper.fs.go:351-400 | with no faults a write succeeds exactly when the temp name is free, the reader delivers a payload within the limit, and one of the names to try is free |
| `WritePipeline.TooLargeExactly` | internal/dropper.fs.go:366-375 | past the temp file and the copy, "too large" is the answer exactly when the payload exceeds the limit |
| `WritePipeline.FallbackReplacesExactly` | internal/dropper.fs.go:443-456 | the fallback succeeds and another entry is lost exactly when the rename does not fail and either the desired name is a dangling link, or it is taken and the stamped name holds something else that is no directory |
| `WritePipeline.FallbackDestroysLink` | internal/dropper.fs.go:418-456 | concrete failure: an upload named like a dangling link, placed by the fallback, destroys the link |
| `WritePipeline.FallbackDestroysUpload` | internal/dropper.fs.go:418-456 | concrete failure: the fallback takes its timestamp a second later and destroys an older upload stamped with that second |
| `WritePipeline.AtomicPlace` | internal/dropper.fs.go:406-436 | takes the first free candidate and moves the temp file there; fails with "exists" when all are taken; only another link error leads to the fallback |
| `WritePipeline.OpenDir` | internal/dropper.fs.go:337-349 | SafePath, Stat and the directory test together find exactly the jailed directories, with the error of each other case |
| `WritePipeline.SafeWriteFile` | internal/dropper.fs.go:323-400 | exact effect of a write: success adds one file holding what was copied, within maxBytes, under the sanitised or a stamped name with an allowed extension, and with links only under a name that was free; every error leaves the tree identical; readonly mode and, with an ASCII list, an extension that is not listed are refused exactly when they hold; every other outcome follows from the directory, the payload and the faults, in the order in which the code checks |
| `WritePipeline.WriteInto` | internal/dropper.fs.go:351-399 | inside the target directory, success leaves exactly one new file with the copied content and every error leaves the tree as it was; a taken temp name and a failing reader are answered with their own errors |
| `WritePipeline.TempRemoved` | internal/dropper.fs.go:358-364 | creating, filling and removing the temp file gives the tree back |
| `WritePipeline.TempMoved` | internal/dropper.fs.go:388-399 | creating, filling and moving the temp file adds exactly one file |
| `DirectoryWrites.SanitizeParts` | internal/dropper.fs.go:496-508 | drops the components that are empty or sanitise to `_` and sanitises the others, in order: a strictly increasing map leads from the results onto exactly those components |
| `DirectoryWrites.PickedIsUnique` | internal/dropper.fs.go:496-508 | that map and the result are the only ones of their kind |
| `DirectoryWrites.RelTargetMeans` | internal/dropper.fs.go:488-529 | the target is SafePath of the picked components joined below the base directory, and an invalid relpath exactly when there are none or more than 32 |
| `DirectoryWrites.OneDirectory` | internal/dropper.fs.go:496-529 | a relpath of one component is the directory of its sanitised name, with or without `../` before it |
| `DirectoryWrites.BlankBecomesUnderscore` | internal/dropper.fs.go:496-529 | for instance, the relpath `a b` is the directory `a_b` |
| `DirectoryWrites.SanitizedPartsFixed` | internal/dropper.fs.go:496-508 | a directory path passes unchanged exactly when every component is a safe name other than `_` |
| `DirectoryWrites.SafeWriteFileWithRelPath` | internal/dropper.fs.go:479-548 | success makes the missing directories of the target and adds one file in it; an error adds at most directories on the way to the target; errors before MkdirAll change nothing; which outcome it is follows from the tree, the payload and the faults |
| `DirectoryWrites.OnlyMadeTouchesNoFile` | internal/dropper.fs.go:531-534 | after a failed directory upload every file and link is as before and every new path is a directory on the way to the target |
| `DirectoryWrites.CreateDirectory` | internal/dropper.fs.go:553-593 | success adds one empty directory, the sanitised name below SafePath of the parent; every error leaves the tree identical; it succeeds exactly when the name is free, up to path length and faults; a taken name is refused as taken, or as a traversal exactly if it is a link out of the jail or to where resolution fails |
| `ConcurrentUploads.InvStep` | internal/dropper.fs.go:351-436 | every step of every writer keeps the invariant: what was there is unchanged, and each new name belongs to one writer whose file is a prefix of, or once linked equal to, what its copy takes under the limit |
| `ConcurrentUploads.RunKeepsInv` | internal/dropper.fs.go:351-436 | the invariant holds at every moment of every interleaving of any number of writers |
| `ConcurrentUploads.NothingOverwritten` | internal/dropper.fs.go:406-436 | at every moment nothing from before is changed, and every other name is a running writer's temp file or a placed file holding what its copy takes, for every limit |
| `ConcurrentUploads.PlacedForGood` | internal/dropper.fs.go:417-426 | from the moment a file has its final name, it keeps that name and its content to the end of the run; the content is the whole payload exactly when the limit is below the largest 64-bit integer or the payload is empty |
| `ConcurrentUploads.DistinctNames` | internal/dropper.fs.go:415-433 | two writers never get the same name |
| `ConcurrentUploads.AllEnded` | internal/dropper.fs.go:357-364 | once all calls ended the directory is what it was plus exactly one name for each success; no temp file is left |
| `ConcurrentUploads.SoloRunEndsAsWritten` | internal/dropper.fs.go:351-436 | a run of one writer in which nothing fails but for the upload and what is there ends where the outcome of the whole call says, with that name and content or with that error and the directory as before |
| `ConcurrentUploads.NeverStuck` | internal/dropper.fs.go:351-436 | a writer that has its temp file can always take a further step without a fault until it has ended |
| `ConcurrentUploads.RenameDestroysExactly` | internal/dropper.fs.go:440-463 | among other writers, a fallback rename destroys exactly what has its name: an entry from the start, a placed upload or a temp file; everything else stays with its content |
| `ConcurrentUploads.RenameKeepsInvExactly` | internal/dropper.fs.go:440-463 | a fallback rename keeps the invariant of all writers exactly when its name is free or its own temp name |
| `ConcurrentUploads.LaterRenameWins` | internal/dropper.fs.go:440-463 | of two writers that rename onto one name, the earlier one has succeeded and no name leads to its file any more |
| `ConcurrentUploads.FallbackRaceDestroys` | internal/dropper.fs.go:443-449 | concrete failure: a run in which the name is free when the fallback looks, another upload is placed there, and the rename destroys it |
| `RateLimiting.RateLimiter.Allow` | internal/dropper.ratelimit.go:28-61 | the in-place implementation over shared backing arrays does what the pure decision does on the visible windows |
| `RateLimiting.FilterInPlace` | internal/dropper.ratelimit.go:37-43 | filtering a slice into its own array leaves exactly the timestamps after the cutoff, in order |
| `RateLimiting.Append` | internal/dropper.ratelimit.go:59 | append gives the extended slice, in the same array or a fresh one |
| `RateLimiting.WindowsHoldHistory` | internal/dropper.ratelimit.go:37-60 | as far back as the window reaches, the kept timestamps count what the whole history counts |
| `RateLimiting.DecideDropsOld` | internal/dropper.ratelimit.go:37-60 | after a call the window of its IP has exactly the earlier timestamps younger than the window, and the new one if it was allowed |
| `RateLimiting.RefinesFullHistory` | internal/dropper.ratelimit.go:28-61 | the limiter gives the verdicts of one that never forgets: a call is allowed exactly when fewer than `limit` allowed calls of its IP lie in (now-window, now] |
| `RateLimiting.NeverOverLimit` | internal/dropper.ratelimit.go:26-27 | in any run with a non-decreasing clock, no interval (a, a+window] has more than `limit` allowed calls of one IP |
| `RateLimiting.OtherIpsUntouched` | internal/dropper.ratelimit.go:28-61 | a call changes nothing for other IPs |
| `Sessions.SessionStore.Create` | internal/dropper.session.go:66-89 | adds a session that expires ttl after the clock was read |
| `Sessions.SessionStore.Get` | internal/dropper.session.go:94-115 | answers exactly the sessions that are stored and not expired; touches a live one and deletes an expired one |
| `Sessions.SessionStore.Delete` | internal/dropper.session.go:119-123 | removes exactly the token's session |
| `Sessions.SessionStore.CleanupExpired` | internal/dropper.session.go:127-141 | removes exactly the expired sessions and returns their number |
| `Sessions.SessionStore.RemoveAll` | internal/dropper.session.go:132-137 | the loop, in whatever order it visits the sessions, removes exactly the expired ones and counts them |
| `Sessions.CleanupIsUnobservable` | internal/dropper.session.go:94-141 | in every run each Get is answered as by a ledger that never cleans up, never deletes on access and never extends a session |
| `Sessions.GetMeans` | internal/dropper.session.go:94-115 | Get succeeds exactly when the token's last Create was at most ttl ago and no Delete came after it |
| `Sessions.DeadStaysDead` | internal/dropper.session.go:94-115 | with fresh tokens, an issued token that once got no answer never gets one again |
| `Sessions.CleanupTakesOnlyTheDead` | internal/dropper.session.go:127-141 | the sessions a cleanup removes are exactly those no later Get could answer |
| `Auth.HandleLogin` | internal/dropper.handlers.auth.go:77-131 | one login: refused exactly when the limiter refuses; then the outcome follows from the form, the secret and the token in that order, and a session is made exactly on success |
| `Auth.CheckSession` | internal/dropper.handlers.auth.go:154-176 | the request goes on exactly when its cookie names a live session |
| `Auth.HandleLogout` | internal/dropper.handlers.auth.go:135-149 | removes exactly the session the cookie names |
| `Auth.PhasesAreEarned` | internal/dropper.handlers.auth.go:77-176 | in every interleaved run each phase of a request goes back to the steps that earn it |
| `Auth.IssueNeedsSecret` | internal/dropper.handlers.auth.go:104-114 | every session was issued to a request that gave the right secret after the limiter let it past |
| `Auth.LogoutNeedsSession` | internal/dropper.server.go:86-88 | only a request let in with a session logs that session out |
| `Auth.ServedOnlyAfterLogin` | internal/dropper.handlers.auth.go:154-176 | in every run a request passes the session check exactly when its token was issued at most ttl ago and not logged out since |
| `Auth.EnteredIsServed` | internal/dropper.handlers.auth.go:154-176 | passing the session check is being dispatched with that session |
| `Auth.LoginIsServed` | internal/dropper.handlers.auth.go:77-176 | after any run, a request with the right secret from an IP with fewer than `limit` admissions in the last window can log in; within ttl its token is let in and can be logged out |
| `Auth.AdmitsByHistory` | internal/dropper.handlers.auth.go:81-92 | the limiter lets a request past exactly when it has let fewer than `limit` requests of its IP past in the last window of the run |
| `Auth.ServedTracesBackToSecret` | internal/dropper.handlers.auth.go:77-176 | every request that passes goes back to a login with the right secret |
| `Auth.GuessesAreLimited` | internal/dropper.handlers.auth.go:81-105 | of the requests of one IP admitted in any (a, a+window], at most `limit` compare a secret |
| `Auth.PromptGuessesAreLimited` | internal/dropper.handlers.auth.go:81-105 | counted when they are made, comparisons keep to the limit in any window shortened by the longest delay between admission and comparison |
| `Auth.DelayedGuessesExceed` | internal/dropper.handlers.auth.go:94-105 | for every limit and every delay d >= 1, a run with delays up to d that compares limit+1 secrets within one window |
| `Auth.LimitedExactlyWhenPrompt` | internal/dropper.handlers.auth.go:81-105 | the comparisons themselves are bounded by the limit in every window of every run exactly when the delay is 0 |
| `Audit.AuditLogger.Log` | internal/dropper.audit.go:61-89 | an enabled logger with an open file appends the entry and a newline; otherwise nothing is written |
| `Audit.AuditLogger.ReopenTake` | internal/dropper.audit.go:107-114 | takes the handle away, unless disabled |
| `Audit.AuditLogger.CloseTake` | internal/dropper.audit.go:146-154 | takes the handle and disables, unless disabled or without a file |
| `Audit.AuditLogger.Reopen` | internal/dropper.audit.go:106-140 | Reopen undisturbed: the old file is closed; a failed close leaves the logger enabled without a file; a failed open disables it |
| `Audit.InvStep` | internal/dropper.audit.go:61-163 | every step of every call keeps each open handle with at most one owner: the logger or one call |
| `Audit.HandlesAreSafe` | internal/dropper.audit.go:61-163 | in every interleaving the handle a Log writes to and the handle a Reopen or Close closes are open, and no handle is closed twice |
| `Audit.LossIsExact` | internal/dropper.audit.go:106-140 | a step leaves an open handle without an owner exactly when a Reopen installs its file over one that is already installed |
| `Audit.LostForever` | internal/dropper.audit.go:106-163 | in every run from there on no call closes an open handle that has no owner, and it gets none |
| `Audit.OneAtATimeLosesNone` | internal/dropper.audit.go:106-140 | in every run from the start in which no two Reopens are under way at once, every open handle has an owner at every moment |
| `Audit.OverlappingReopensLose` | internal/dropper.audit.go:106-140 | concrete failure: a run of two overlapping Reopens that gets there, after which no call closes the handle of the first |
| `Audit.TextIsWholeLines` | internal/dropper.audit.go:76-84 | whatever handles it is written through and whenever it is moved away, a file's text is the entries written to it, each with its newline, in the order of the critical sections |
| `Audit.LinesAreLogCalls` | internal/dropper.audit.go:61-84 | every line, in whatever file, is the entry of a Log call that found the logger enabled, and no call writes two |
| `Audit.LinesReadBack` | internal/dropper.audit.go:70-76 | entries without newlines are read back from each file one by one, in order |
| `Audit.ReopenFollowsPath` | internal/dropper.audit.go:106-140 | after a Reopen a Log goes to the file at the path, which is a new one if the old was moved away; the text of every other file stays |
| `Audit.SilenceIsExact` | internal/dropper.audit.go:61-163 | nothing is ever written from a state on exactly when the logger is disabled and no Log past its check has, or can be given, a file |
| `Audit.CloseStopsNewLogs` | internal/dropper.audit.go:142-154 | the Log calls that begin after Close returned are no-ops exactly unless Close found an enabled logger without a file |
| `Audit.CloseInsideReopen` | internal/dropper.audit.go:106-154 | concrete failure: from the start, a Close inside a Reopen returns, the Reopen installs its file, and a Log that begins after that writes |
| `Audit.GapNeedsReopen` | internal/dropper.audit.go:106-140 | an enabled logger has no file only while a Reopen is under way or after one failed to close the old file |
| `Audit.CloseIsFinal` | internal/dropper.audit.go:142-163 | with no Reopen under way or given up, nothing is written after Close, exactly unless the logger was already disabled with its file open and a Log is past its check |
| `Audit.CloseBeforeLateLog` | internal/dropper.audit.go:61-154 | concrete failure: a run in which two overlapping Reopens leave the logger disabled with a file, so that Close does nothing and a Log past its check writes |
| `UploadBatch.HandleUpload` | internal/dropper.handlers.files.go:295-463 | results are in file order, one per file; uploaded counts the successes and uploaded + failed is the number of files; the counters grow by the successes and their sizes; each file that opened is audited, in order, with its result and size, under the path it was stored at or, failing, the one it was meant for if that directory was made, else its name in the browsed directory; every file is named and placed as the request asks, the first of a pasted upload by the clipboard name |
| `UploadBatch.ChainAsAsked` | internal/dropper.handlers.files.go:343-411 | each result of a request, clipboard or not: the original name is the one sent; a success has the clipboard name for the first file of a pasted upload and the name sent for every other, sanitised or stamped, and lies in the browsed directory or in the directories of its relpath below it |
| `UploadBatch.AuditAsAsked` | internal/dropper.handlers.files.go:380-449 | the audit entry of each file that opened, found at its place in the log: the path and size of a success; of a failure, the name it was sent under, in the directory it was meant for if the write got there and in the browsed one if not |
| `UploadBatch.SuccessesMean` | internal/dropper.handlers.files.go:452-461 | the reported count is the number of results without an error |
| `UploadBatch.TotalSizeAdds` | internal/dropper.handlers.files.go:452-461 | the counted bytes add up over results without an error |
| `UploadBatch.UploadOne` | internal/dropper.handlers.files.go:354-449 | one file of the loop: the outcome of the relpath or flat write, its effect, the size read back, and an audit entry that agrees with the result and has the exact path |
| `UploadBatch.AuditCounts` | internal/dropper.handlers.files.go:343-449 | the audit entries are as many as the files that could be opened |
| `UploadBatch.BatchGrows` | internal/dropper.handlers.files.go:343-450 | with links, a batch does to the tree what its results report: each success stores its file under its final name in the directory its path and relpath name, where nothing was; the rest adds at most directories |
| `UploadBatch.FilesArriveWhole` | internal/dropper.handlers.files.go:343-450 | each successful file goes to a place that was free before the batch, and is there whole when the batch is over |
| `UploadBatch.DestinationsAreDistinct` | internal/dropper.handlers.files.go:343-450 | no two successful files of a batch go to the same place |
| `UploadBatch.BatchKeepsAll` | internal/dropper.handlers.files.go:343-450 | a batch changes nothing that was there |
| `UploadBatch.NothingElseAppears` | internal/dropper.handlers.files.go:343-450 | whatever else is new after a batch is a directory |
| `UploadBatch.SizeOfStored` | internal/dropper.handlers.files.go:413-419 | reading a stored file back through the jail gives its size exactly when its path is within 4096 bytes and the root is not `/`, and 0 otherwise |
| `UploadBatch.ReportedSize` | internal/dropper.handlers.files.go:413-419 | the reported size is the stored size exactly when the path of the file itself is within 4096 bytes and the root is not `/`; otherwise it is 0 |
| `UploadBatch.SizeIsLost` | internal/dropper.handlers.files.go:413-419 | concrete failure: under a root with a link to itself, a one-byte upload through a path of 4096 bytes is stored whole and its size is reported as 0 |
| `FolderUpload.UploadFilesWithPaths` | static/dropper.js:319-335 | the form has one file field and one relpath field per file, in the same order |
| `FolderUpload.TraverseGivesItems` | static/dropper.js:274-316 | traversing a drop lists each readable file once, under the path of its directories |
| `FolderUpload.DirPartOfItem` | static/dropper.js:325-328 | cutting the name off a relpath gives back its directories |
| `FolderUpload.TreeIsEmpty` | static/dropper.js:274-316 | a drop stands for an empty tree exactly when it flattens to no files |
| `FolderUpload.TreeMeans` | static/dropper.js:274-316 | the tree of a drop has a name exactly if a readable entry of that name holds a file: a file with its content, a directory with the tree of its children |
| `FolderUpload.PutAllRebuilds` | static/dropper.js:274-335 | putting the flattened files one by one into a directory adds exactly the tree they come from |
| `FolderUpload.BatchPutsAll` | internal/dropper.handlers.files.go:343-450 | a batch that carries the files of a drop stores each of them |
| `FolderUpload.FolderRoundTrip` | static/dropper.js:274-335 | a dropped folder is rebuilt in the browsed directory, empty directories left out, and every file keeps its name; an empty directory becomes exactly the drop |
| `Listing.ListDirectory` | internal/dropper.fs.go:232-278 | the listing of the jailed directory: each entry shows whether it is a directory, the length of a file or of a link target, and its time; every readable name appears once; the order is the one the query asks for, by directories first and then by time, size or name; the error of each other case, a failing read of the directory included |
| `Listing.SortedIsComplete` | internal/dropper.fs.go:254-278 | in whatever order, the read entries show what is there, each readable name once |
| `Listing.SortedAsAsked` | internal/dropper.fs.go:281-312 | sorting puts directories first and then compares times for `date`, sizes for `size` and lowered names for all else, downwards exactly for `desc` |
| `Listing.LexMeans` | internal/dropper.fs.go:299-311 | the comparison of names is that of strings: a proper beginning, or the smaller character where they first differ |
| `Listing.ListedEntriesExist` | internal/dropper.fs.go:254-273 | an entry is listed exactly when the directory has it and its Info can be read |
| `Listing.SortFileEntries` | internal/dropper.fs.go:281-312 | sorts the array in place, by the stable sort of the library: the result is that of inserting the entries one by one, for either direction and any number of entries |
| `Listing.ListingIsSorted` | internal/dropper.fs.go:281-312 | a listing is a permutation of the entries, directories first, keys in the requested direction; entries that tie keep their order ascending and are reversed descending |
| `Listing.AscendingListingIsUnique` | internal/dropper.fs.go:291 | in ascending order every stable sort gives this listing |
| `Listing.OrderRanks` | internal/dropper.fs.go:291-311 | the comparison ranks all entries; descending it also holds of entries that tie |
| `StableSort.SortInPlace` | internal/dropper.fs.go:291 | the library's stable sort, blocks of 20 sorted by insertion and then merged in place in rounds: for every ranking and every comparison that holds on all ties or on none, the result is that of one insertion sort |
| `StableSort.SymMerge` | internal/dropper.fs.go:291 | two sorted neighbouring runs become their merge in place, by a binary search for a cut, a rotation and two recursive calls |
| `StableSort.Rotate` | internal/dropper.fs.go:291 | two neighbouring parts of the array change places by swapping ranges of one length |
| `Sorting.MergeSplits` | internal/dropper.fs.go:291 | a merge falls apart at a cut before which the left run stays and after which the right run comes first |
| `Sorting.MergeOfSorts` | internal/dropper.fs.go:291 | sorting two parts by insertion and merging them is sorting the whole by insertion, even if the comparison holds on ties |
| `Sorting.SortSorts` | internal/dropper.fs.go:291 | for any ranking the result is a sorted permutation |
| `Sorting.SortTreatsTies` | internal/dropper.fs.go:307-310 | ties keep their order if the comparison fails on ties and are reversed if it holds on them |
| `Sorting.StableSortIsUnique` | internal/dropper.fs.go:291 | sorted sequences whose ties are in the same order are equal |
| `Pages.ChildPathIsJoin` | internal/dropper.templates.go:42-47 | the special case for the root directory changes nothing |
| `Pages.LinkIsFaithful` | internal/dropper.templates.go:42-47 | the link of an entry that is no symbolic link leads to that entry, however the listed directory was reached |
| `Pages.FollowedLinksArrive` | internal/dropper.templates.go:42-47 | following links down through directories arrives where the names lead |
| `Pages.BuildBreadcrumbs` | internal/dropper.templates.go:200-223 | after Home there is one segment for each name of the cleaned path, labelled with it; the loop skips empty components and links each segment to the path up to it |
| `Pages.BreadcrumbsFold` | internal/dropper.templates.go:200-223 | for every relative path, following the labels as child links from Home gives each breadcrumb's path, and the last one's is the cleaned input |
| `Pages.BreadcrumbsFoldExactly` | internal/dropper.templates.go:200-223 | the breadcrumbs fold exactly for relative paths and `/` |

## Left out

- Other processes that change the tree, the directories or the links while a call runs (ADR-005 accepts this): the tree changes only by dropper's own steps.
- Interleavings of directory uploads and directory creation with other calls: the concurrent model covers the plain write into one directory; the other operations are proved as whole calls.
- ConcurrentUploads.AllEnded: a success counts the calls that have placed and cleaned up; when a call is scheduled is not part of the model, only that it can go on (`ConcurrentUploads.NeverStuck`).
- Runs of the concurrent model with fallback renames as steps: what one such rename does to all writers is proved, but a run of the model places files by links only.
- The finalizer of `os.File`, which may close a handle nobody refers to: only the closes of dropper's calls are steps of the audit model.
- UploadBatch.BatchGrows: stated for batches in which links fail only because the name exists, since the rename fallback may replace a file.
- UploadBatch.ReportedSize: stated for the same batches.
- ConcurrentUploads.SoloRunEndsAsWritten: stated for runs without faults; with them the run may stop at each step with the error of the step.
- Audit.SilenceIsExact: stated for states in which every handle and file in play has been opened, as they have in all runs from the start.
- Audit.CloseStopsNewLogs: stated for the same states.
- What becomes of a rotated audit file: it is moved away whole and not written by others.
- FolderUpload.FolderRoundTrip: stated for requests around which nothing fails, temp names that are not names of the drop, paths within 4096 bytes, a root other than `/` and a size limit below the largest 64-bit integer. It limits each file and starts after the form is parsed; dropper limits the whole request body to the same number of bytes (internal/dropper.handlers.files.go:303), and Go's multipart reader limits the number of parts.
- StableSort.SortInPlace: `sort.SliceStable` belongs to the Go library; it is modelled after the library's stable sort, with unbounded indices, for comparisons that hold on all ties or on none, as both of dropper's do.
- Names.ValidateExtension: the exact condition is stated for ASCII names, which every sanitised name is, and ASCII lists; an entry outside ASCII matches only as `Names.EqualFoldMeans` says.
- Names.SanitizeUtf8: stated for valid UTF-8; how the regular expression counts invalid bytes is modelled by `RuneWidth`, and such names are covered by the bounds and fixpoint results.
- Jail.LinkedTarget: a target with further links on it, or a link met after 255 others, is covered by `Links.ResolvesExactly` and `Jail.AnswersByLinks`.
- Disks.Disk.MkdirAll: stated for the paths SafePath answers with, every level of which is canonical or does not resolve.
- Path and name limits of the kernel (a stamped name may exceed 255 bytes, which shows as a link fault), permissions, disk space, modification times and directory sizes.
- Failing best-effort removal of temp files: `os.Remove` is taken to succeed.
- Partial writes to the audit file: a write appends the whole line or nothing; JSON encoding and timestamps make up an opaque entry.
- Errors of `os.Getwd` in `filepath.Abs`.
- Randomness of tokens: a token is a parameter, and tokens are fresh only where a lemma says so.
- Data races in the memory model of Go: the unlocked look at `enabled` in `Log` is one atomic step.
- HTTP routing, cookies, headers, templates, CSRF, multipart parsing, metrics export, configuration, logging and health checks; of the metrics only the two upload counters, as whole numbers.
- `ResolveCollision`, which the write pipeline does not use, and `FormatFileSize`.
- The rest of `static/dropper.js`, and drops without directories, which are sent as a plain list of files.
