# fastagent, verified

fastagent is a persistent Go agent that speeds up Ansible runs, together with the Python plugins
that drive it. This project models the four parts whose correctness is hardest to see by reading
and proves, for all inputs and all runs, what they are meant to guarantee.

* **The filesystem engine** (`fileops.go`) and the **copy action** on top of it
  (`plugins/action/copy.py`). The host is an inode table (directories, files, symlinks) with a
  separate attribute table, resolved the way the kernel does it: symlinks are followed within a
  budget of 40, `.` and `..` in link targets work, and a missing last component is where a create
  would happen. Any mutating system call may fail: a run takes a set of failing (call, path) pairs.
  Umask, account databases, timestamps, random names and the length of a short write are parameters.
* **The apt package cache** (`package.go`): the status-file scanner, the freshness test, the index
  as a refinement of always asking apt-get, and the handlers as interleaved steps around their mutex.
* **The RPC session** (`fastagent_client.py`, `server.go`): numbered calls that may be abandoned
  anywhere, over two pipes.
* **The idle shutdown** (`daemon.go`): counter, timestamp, accept loop and idle goroutine as
  interleaved atomic steps.

Code that changes things in place is modelled by classes whose methods do the same steps (`Agent`,
`CopyTask`, `AptServer`, `FastAgentClient`) and by loops. Each method is proved equal to a
specification function, and the statements about one request or a sequence of them are lemmas about
those functions. The statements about interleavings (`RpcSession`, `AptInterleaving`,
`IdleShutdown`) are about systems of atomic steps; `CallTakesSteps` and `ServeTakesSteps` show that
the client's and the agent's steps do what the methods `Call` and `Serve` do.

## How the files fit together

| files | contents |
|---|---|
| `wrappers`, `text`, `numerals`, `modes` | options, substrings, printed numbers, octal modes |
| `filesystem`, `resolution`, `replacement`, `listings` | inode table, path resolution and its laws, what creating or replacing an entry does to it, sorted listings |
| `spelled_requests` | what the texts of a request ask for, and one call of the setter decided by it |
| `attributes`, `attribute_walk`, `walk_theorems`, `walk_repeat` | the attribute setter, the two recursive passes, their exact effect, agreement and repetition |
| `directories`, `directory_theorems` | segment-by-segment creation, the directory handler, idempotence |
| `write_file`, `write_theorems`, `write_handler_theorems`, `write_atomicity`, `write_summary`, `file_states` | writing, atomicity under failures, backups; state=file and state=absent |
| `directory_outcome`, `write_outcome`, `copy_outcome` | when directory requests, writes and copies succeed, what they answer, and exactly what they leave different |
| `agent`, `copy_run` | the agent and the copy task as they run |
| `copy_action`, `copy_theorems`, `copy_example` | the copy decision, convergence, and the one destination it can lose |
| `dpkg_status`, `apt_output`, `apt_freshness`, `apt_cache`, `apt_interleaving` | the package cache |
| `rpc_session`, `idle_shutdown` | the two protocols |

## Where the code and its purpose part

These are results, each with its exact condition:

* A mode above 0777, or an id of 2^32-1 or more, can be asked for but never be held, so the agent
  reports a change on every run (`DirectoryTwice`, `TouchedAsRequested`).
* The mode `0` given as an integer, and an empty mode string, are not noticed by the copy action
  when the content is already right, although the agent would be sent mode 0
  (`UnnoticedModeIsNotApplied`, `FalsyModeIsZero`).
* A destination that lies on its own way, because the path to its directory goes through the very
  directory symlink that the rename replaces, is lost although success is reported
  (`CopyDigestExact`, `ReplaceSucceeds`; `LoopCopyIsLost` is a concrete one).
* A backup whose name is another name of the destination empties the destination before it is read.
  That breaks atomicity exactly if the backup can be opened and both the old and the new bytes are
  some (`ReplaceAtomicIff`), and then the backup does not hold the old bytes (`BackupHoldsOld`);
  `AliasedBackupLosesOld` is a concrete host.
* The change detector takes ten installed packages for none, and then the index is wrong
  (`DetectorExact`, `CoherentUnlessTens`, `TenRemovedAreThoughtPresent`). Over whole runs, the index
  stays right exactly if every run made while it was valid changed nothing, or succeeded and was
  detected (`CoherentAlongIff`).
* A failing apt-get that changed something leaves a valid index wrong (`FailingRunCoherentIff`).
* `format_octal_mode` lets through what Python's `int` reads, such as `0o644`, `+644` or `6_44`, and
  the agent then takes only plain octal digits in range (`OctalTextExact`,
  `PrefixedModeIsLetThroughAndRefused`).
* An owner below -1 is not compared but is written, cut to 32 bits, when the group differs
  (`UnaskedStays`, `NegativeOwnerIsWritten`), and likewise for a group.
* A validity of more than 9223372036 seconds wraps around when it becomes a duration, and then no
  refresh is ever skipped (`HugeValidityNeverSkips`); otherwise a skip is decided by its witness
  (`SkipExactly`).
* A call abandoned in the middle of writing its line makes the next call fail although nothing is
  owed to anybody (`FragmentSpoilsNext`, `ReadsItsOwnIff`).
* A connection between its counter update and its timestamp can be cut by the idle shutdown, and
  any connection if the idle goroutine is held up for the timeout (`FreshConnectionCanBeCut`,
  `StampedConnectionCanBeCut`).

## Model

| member | source | states |
|---|---|---|
| Numerals.RenderValue | fileops.go:89 | a number printed in octal or decimal and read back is the same number |
| Numerals.AtoiReads | fileops.go:697-698 | a decimal number with either sign is read as itself within 64 bits and refused beyond |
| Modes.IntModeArrives | plugins/action/copy.py:361-371 | every integer mode below 2^32 arrives in the agent as itself, whichever formatter sent it |
| Modes.NegativeModeIsRefused | plugins/action/copy.py:365-366 | a negative integer mode is formatted but always refused |
| Modes.TextModeArrives | plugins/action/copy.py:367-371 | for every text: accepted iff it is octal digits in range, and then with the value they spell |
| Modes.OctalTextExact | plugins/module_utils/file_state.py:4-19 | for every text the second formatter lets through: it agrees with the first, and the agent accepts it iff it is octal digits in range, with the value they spell |
| Modes.OctalDigitsArrive | plugins/module_utils/file_state.py:11-19 | every non-empty octal-digit string is let through, and arrives if in range |
| Modes.PrefixedModeIsLetThroughAndRefused | plugins/module_utils/file_state.py:11-19 | a concrete string that is let through and refused |
| Modes.PythonIntReads | plugins/module_utils/file_state.py:11-15 | texts that Python's int takes in base 8: digits, single underscores, signs, an 0o prefix |
| Modes.PythonIntRefuses | plugins/module_utils/file_state.py:11-15 | and texts that it does not |
| Modes.PrintedPermIsReadBack | fileops.go:89 | handleStat's printed mode parses back to the permission bits |
| Attributes.StatModeRoundTrip | fileops.go:661-686 | the printed mode fed to the setter on the same node reports no change and changes nothing, whatever calls would fail |
| Attributes.ApplyExact | fileops.go:658-745 | a successful call sets exactly the reached inode to the touched attributes and reports a change iff it was not as requested |
| Attributes.TouchedAsRequested | fileops.go:681-742 | what the setter compares is as requested after one call if an inode can hold it; otherwise every repetition reports a change |
| Attributes.UnaskedStays | fileops.go:689-738 | an attribute that is not asked for keeps its value: the mode always, an id exactly unless chown is made for the other id and makes something of it |
| Attributes.NegativeOwnerIsWritten | fileops.go:722-737 | owner "-5" with a differing group sets the owner to 4294967291 |
| Attributes.ApplySucceeds | fileops.go:658-745 | an understood request succeeds when nothing has to change, whatever calls would fail |
| Attributes.ApplyFrame | fileops.go:658-745 | even a failing call changes at most the inode its path leads to, which for lchown is the link itself |
| SpelledRequests.PlanSpelled | fileops.go:661-717 | a request that spells a mode in octal and ids by number or account name is understood as exactly that |
| SpelledRequests.ApplyGrants | fileops.go:658-745 | one call, decided by what the request spells and which calls fail: mode, owner and group become the spelled ones, a named account's id included, with a change reported iff one differed; a failing chmod changes nothing, a failing chown leaves the mode set |
| SpelledRequests.BadModeRefused | fileops.go:661-665 | a mode that is no octal number is refused and changes nothing |
| SpelledRequests.UnknownRefused | fileops.go:692-716 | an owner or group that is neither a number nor an account is refused after the mode was set |
| SpelledRequests.NowhereRefused | fileops.go:677-723 | where the path leads nowhere, any request but the empty one fails for that reason |
| Resolution.WalkAppend | fileops.go:426-434 | resolving a joined path is resolving its directory and then the rest with what is left of the symlink budget |
| Resolution.MoreHops | fileops.go:434-446 | a larger symlink budget changes no outcome but "too many links" |
| Resolution.GrowsKeepsFound | fileops.go:345-360 | creating things never takes a resolved path away or moves it |
| Resolution.LinkIsItsText | fileops.go:434 | following a symlink is following its text, from the directory it lies in or from the root, within the budget |
| Resolution.SelfLinkLoops | fileops.go:434-436 | a symlink to itself runs out of the budget |
| DirectoryOutcome.DotDotReturns | fileops.go:434 | ".." in a symlink's text leads to the directory that lists the one it is in |
| Listings.Sorted | fileops.go:419 | a listing has every name once, in ascending order |
| AttributeWalk.FollowDir | fileops.go:418-459 | the following walk terminates on every finite filesystem, cycles included, and never forgets a seen directory |
| WalkTheorems.FollowExact | fileops.go:393-459 | a successful following walk: `seen` is exactly the reachable directories, each listed once, every entry of each settled and nothing else touched, `changed` iff some entry was not as requested |
| WalkTheorems.FollowDirReaches | fileops.go:442-456 | everything newly seen is reachable from the walk's directory, also when the walk fails |
| WalkTheorems.FollowDirCovers | fileops.go:425-457 | everything newly seen has been processed completely |
| WalkTheorems.FollowDirSettles | fileops.go:425-457 | the interleaved visits have the closed form "settle this set of inodes" |
| WalkTheorems.FollowDirListsOnce | fileops.go:447-450 | no directory is listed twice |
| WalkTheorems.TreeExact | fileops.go:366-390 | the other walk touches exactly the non-symlink entries of directories reachable through subdirectories, so nothing behind a symlink |
| WalkTheorems.SettleTwice | fileops.go:432 | settling two sets one after the other is settling their union, and the change flags add up |
| WalkRepeat.SymlinkFreeAgree | fileops.go:364-402 | without symlinks below the root both walks succeed or fail together, with the same attributes everywhere and the same `changed` |
| WalkRepeat.AgreeOnSuccess | fileops.go:364-402 | the same under arbitrary failing calls, whenever both succeed |
| WalkRepeat.FollowDirAgain | fileops.go:418-459 | a walk that succeeded succeeds again, visiting the same directories |
| DirectoryOutcome.DirectoryGrants | fileops.go:295-308 | after a successful request on an existing directory exactly the covered inodes have the owner, group and mode that were spelled, and a change was reported iff anything differs |
| DirectoryOutcome.DirectorySucceeds | fileops.go:295-402 | such a request succeeds when no call fails and, if it follows symlinks, none dangles |
| DirectoryOutcome.FollowDirSucceeds | fileops.go:418-459 | the same for the following walk on its own |
| DirectoryOutcome.DanglingFails | fileops.go:434-436 | one entry of a reachable directory that cannot be followed makes the walk fail |
| DirectoryOutcome.FollowDirIsCalls | fileops.go:418-459 | whatever happens to it, the following walk is a series of calls of the setter, each complete, up to the first that fails or to an entry that cannot be followed |
| DirectoryOutcome.TreeDirIsCalls | fileops.go:366-390 | the same for the walk that skips symlinks |
| DirectoryOutcome.NoDirectoryRefused | fileops.go:325-328 | a request on something else than a directory is refused and changes nothing |
| AgentProcess.Agent.ApplyOwnershipAndMode | fileops.go:658-745 | the setter in place has the specified effect on every branch |
| AgentProcess.Agent.SetAttributesFollow | fileops.go:418-459 | the recursive loop over a shared `seen` set has the specified effect |
| AgentProcess.Agent.WalkDirBelow | fileops.go:366-390 | the walk that skips symlinks has the specified effect |
| AgentProcess.Agent.RecursivelySetAttributes | fileops.go:364-402 | both walks from their root |
| AgentProcess.Agent.EnsureDirectoryAnsible | fileops.go:323-362 | the creation loop has the specified effect on success and on every failure |
| AgentProcess.Agent.MkdirAllOwned | fileops.go:467-500 | the parents' creation loop has the specified effect |
| AgentProcess.Agent.HandleFileDirectory | fileops.go:295-308 | the directory handler |
| FileSystem.MaskedBit | fileops.go:353 | a new node has exactly the mode bits that the umask does not clear |
| Directories.AddDirKeeps | fileops.go:353 | a new directory keeps the inode table well formed and the hierarchy acyclic |
| DirectoryTheorems.CreateExact | fileops.go:323-362 | whatever fails: the new inodes are a contiguous run of prefixes from the first missing one, every older inode keeps its attributes and place, `changed` iff something was made |
| DirectoryTheorems.CreateSucceeds | fileops.go:323-362 | on success every prefix is a directory and each new one carries the requested owner, group and mode |
| DirectoryOutcome.CreateDecided | fileops.go:334-361 | creating a missing path, decided: EEXIST and nothing made if the first missing segment is a dangling symlink; otherwise the directories are made up to the first failing call, and the request succeeds iff there is none |
| DirectoryOutcome.ParentsDecided | fileops.go:467-500 | the same for a file's parents, where an existing directory is left alone |
| DirectoryOutcome.CreateGrants | fileops.go:353-358 | each new directory has what was spelled, and otherwise 0755 without the umask and the agent's ids |
| DirectoryOutcome.CreateFrame | fileops.go:341-360 | whatever goes wrong, nothing that was there differs but the directory of the first missing segment, which gains at most that name |
| DirectoryOutcome.CreateKeepsParents | fileops.go:353 | every ".." stays right |
| DirectoryTheorems.MkdirAllIsEnsure | fileops.go:461-500 | for a missing directory the two creators are the same with an empty mode |
| DirectoryTheorems.DirectoryExact | fileops.go:295-308 | on an existing directory: no structure changes, exactly the directory and the covered entries are settled, `changed` iff one was not as requested |
| DirectoryTheorems.ChangedIsDifference | fileops.go:295-308 | `changed` iff the filesystem differs afterwards, for attributes an inode can hold |
| DirectoryTheorems.DirectoryTwice | fileops.go:295-459 | repeating a successful request succeeds, leaves the filesystem identical, and reports no change exactly if the attributes can be held |
| DirectoryTheorems.HandlerKeeps | fileops.go:295-308 | the representation invariant survives every directory request |
| Replacement.ReplaceKeeps | fileops.go:255 | a rename disturbs no path that does not use the replaced entry |
| Replacement.ReplaceBreaks | fileops.go:255 | a path that used the replaced entry leads to the new file or nowhere |
| Replacement.NotThroughItself | fileops.go:231-255 | a destination that is not a directory is never on the way to its own directory |
| AgentProcess.Agent.WriteViaTemp | fileops.go:241-258 | temp file, write, close, rename with clean-up on every failure branch |
| AgentProcess.Agent.CopyTheFile | fileops.go:630-650 | the backup copy, including a copy cut short |
| AgentProcess.Agent.HandleWriteFile | fileops.go:175-271 | the write handler, with the filesystem after each call |
| WriteTheorems.WriteByRenameTrace | fileops.go:241-258 | everything that can be seen of the temp-file write, on every failure branch |
| WriteTheorems.BeforeRename | fileops.go:241-258 | until the rename and after every failure no file on the host differs and the only new name is the temporary one |
| WriteTheorems.AfterRename | fileops.go:255-261 | the data is under the destination exactly if its directory is not reached through the replaced entry |
| WriteAtomicity.ReplaceAtomic | fileops.go:210-270 | for a destination that is a file and a backup that is not about to empty it: under any failures the old bytes in every state up to the rename, exactly the new ones from it on, and the old ones throughout if it is not reached |
| WriteAtomicity.ReplaceAtomicIff | fileops.go:210-270 | old bytes and then new ones at every moment iff the backup does not empty the destination first with both the old and the new bytes being some |
| WriteAtomicity.AliasedBackupLosesOld | fileops.go:210-219 | a concrete host on which a requested backup loses the only copy |
| WriteAtomicity.AbsentUntilRename | fileops.go:241-258 | a missing destination stays missing until the rename |
| WriteAtomicity.NoTemporaryLeft | fileops.go:246-258 | every exit leaves the directory's names as they were, plus the destination after a success, if the clean-up unlink works |
| WriteAtomicity.BackupHoldsOld | fileops.go:210-219 | after a success by either way of writing, a requested backup holds the bytes from just before the write iff it is not the destination under another name (or those bytes are none, or the new ones) |
| WriteAtomicity.FreeNameIsAnother | fileops.go:214 | an untaken backup name is not the destination's |
| Replacement.UsesEndsThere | fileops.go:214-255 | a path that looks up a file's name ends at that file or fails, so a backup that is another file is not on the way of the rename |
| WriteHandlerTheorems.ReplaceSucceeds | fileops.go:210-270 | after a success the data and the requested attributes are under the destination iff it was written directly or did not lie on its own way; for destinations that are missing, files, or symlinks that dangle, loop or lead to a directory, and with missing parents |
| WriteHandlerTheorems.CopyKeeps | fileops.go:630-650 | copying keeps its source at every moment and whatever fails iff it does not empty it: the target is another file, or cannot be opened, or there is nothing to lose |
| WriteOutcomes.OpenDecided | fileops.go:641-644 | when opening for writing succeeds, and which inode and attributes it yields |
| WriteOutcomes.WriteByRenameDecided | fileops.go:241-258 | the temp-file write succeeds iff its name is free, none of its calls fails, and the destination is no directory itself |
| WriteOutcomes.WriteInPlaceDecided | fileops.go:236-240 | the direct write, and that a failing one leaves the beginning of the data |
| WriteOutcomes.BackupDecided | fileops.go:210-219 | when the backup succeeds |
| WriteOutcomes.BackupGrants | fileops.go:630-650 | a new backup has the original's permissions without the umask, and one cut short the beginning of the bytes |
| WriteOutcomes.BackupOfDirectory | fileops.go:630-650 | backing up a directory fails and leaves an empty file |
| WriteOutcomes.RenameErrors | fileops.go:241-258 | which error the temp-file write ends with |
| WriteOutcomes.ParentsStop | fileops.go:232-234 | a request whose parents cannot all be made stops there and keeps those that were made |
| WriteOutcomes.ChecksumIsBelieved | fileops.go:190-208 | a checksum the caller passes along is believed without looking at the destination |
| WriteOutcomes.RenameGrants | fileops.go:241-263 | after a rename the destination is a new inode with the data and what was spelled, otherwise 0600 without the umask and the agent's ids; every other file keeps its bytes and attributes, except one that had the backup's name |
| WriteOutcomes.InPlaceGrants | fileops.go:236-263 | after a direct write an existing file keeps its inode and what was not spelled, a new one has 0644 without the umask |
| WriteOutcomes.ReplaceWorks | fileops.go:210-270 | a request whose way is free succeeds when no call fails, parents and backup included |
| WriteOutcomes.WriteFileAnswers | fileops.go:175-271 | what is answered: bad content refused; right content left, with a change iff an attribute differed; anything else a change; a backup named iff one was made |
| WriteSummary.WriteFileSucceeds | fileops.go:175-271 | the same as ReplaceSucceeds for the whole request, including the branch that skips the write, with a checksum that describes the existing file |
| WriteSummary.WriteFileAtomic | fileops.go:175-271 | the same as ReplaceAtomic for the whole request; a request that finds the right digest leaves the old bytes throughout |
| WriteSummary.WriteFileKeeps | fileops.go:175-271 | the representation invariant survives every exit |
| AgentProcess.Agent.HandleFileFile | fileops.go:502-519 | state=file |
| WriteOutcomes.FileFileDecided | fileops.go:502-519 | state=file refuses what is missing or a directory, and gives anything else what was spelled |
| AgentProcess.Agent.HandleFileAbsent | fileops.go:572-590 | state=absent, including what a recursive removal that fails half-way leaves |
| FileStates.AbsentIsGone | fileops.go:572-590 | after success the path is gone, whatever led to it, no bytes or attributes changed, and asking again changes nothing |
| FileStates.AbsentDecided | fileops.go:572-590 | what is missing is fine, what is there is removed unless the removal fails, "/" and "." cannot be removed |
| FileStates.AbsentTakesOneName | fileops.go:579-589 | a removal takes exactly one name out of exactly one directory |
| FileStates.AbsentFailing | fileops.go:580-587 | a failing request, even half-way through a directory, changed no attributes, no bytes, and no directory but those below the path; no path leads elsewhere than before |
| CopyRun.CopyTask.FastagentCopyData | plugins/action/copy.py:230-359 | the action step by step against the agent |
| CopyTheorems.CopyConverges | plugins/action/copy.py:230-359 | a successful active run leaves the digest of the data and the requested attributes at the effective destination, also where it was a symlink to a directory; unless it lay on its own way, and then nothing is found there |
| CopyTheorems.CopyTwice | plugins/action/copy.py:230-359 | a second run after one that converged changes nothing on the host, and reports a change iff it asks for attributes no inode can hold; also when the basename was appended |
| CopyTheorems.CheckModeIsReadOnly | plugins/action/copy.py:295-333 | check mode never changes the host |
| CopyTheorems.ForceFalseLeavesAlone | plugins/action/copy.py:276-279 | force=false leaves an existing destination alone |
| CopyTheorems.CheckModeIsHonest | plugins/action/copy.py:281-353 | an announced change is reported by the real run, if it does not fail |
| CopyTheorems.CopyDigestExact | plugins/action/copy.py:259-359 | the digest is right iff the destination did not lie on its own way, as only what leads to a directory ever does |
| CopyOutcomes.CopyWorks | plugins/action/copy.py:230-359 | a live task succeeds when no call fails, its destination can be looked up and the way for the write is free; it reports a change iff the bytes or an attribute differed |
| CopyOutcomes.CopyRefused | plugins/action/copy.py:251-274 | a destination that cannot be looked up, or a directory for `content`, is refused before anything changes |
| CopyOutcomes.CopyOverFile | plugins/action/copy.py:335-357 | over an existing file with other content: with `backup` the old bytes are under the backup's name and without it nothing is; with `unsafe_writes` the inode stays and without it the old inode is untouched and the destination a new one |
| CopyOutcomes.CopyWriteGrants | plugins/action/copy.py:338-347 | a task that writes gives the file exactly the owner, group and mode its arguments spell |
| CopyOutcomes.CopyKeepsGrants | plugins/action/copy.py:287-311 | a task that finds the content right sets what its arguments spell, unless that is at most a falsy mode, and reports a change iff it made one |
| CopyOutcomes.CheckModeExact | plugins/action/copy.py:276-333 | a check announces a change exactly if the digest differs, and with force=false exactly if nothing is there |
| CopyOutcomes.ForceFalseExact | plugins/action/copy.py:276-279 | force=false on an existing destination finishes unchanged |
| CopyTheorems.UnnoticedModeIsNotApplied | plugins/action/copy.py:294-303 | the falsy modes are not applied to right content |
| CopyExample.LoopCopyIsLost | plugins/action/copy.py:259-359 | a concrete run that reports success and loses the data |
| DpkgStatus.LoadInstalledPackages | package.go:115-141 | the scanner lists exactly the packages whose stanza's last Package line is followed by a last Status line saying installed |
| DpkgStatus.InstalledInLists | package.go:115-141 | the set the scanner computes is what the specification lists |
| DpkgStatus.StanzaState | package.go:119-134 | the two scanner variables decide a stanza |
| DpkgStatus.PrintReadBack | package.go:119-138 | printing well-formed stanzas and reading them back gives the same installed set |
| DpkgStatus.StatusLineSays | package.go:122-124 | a status line of three words says "installed" iff one of them begins like that, so "not-installed" does not |
| DpkgStatus.DatabaseLists | package.go:119-138 | a printed stanza lists its package iff its state begins with "installed" |
| DpkgStatus.TrailingBlank | package.go:135-138 | a blank line at the end makes no difference |
| AptOutput.DetectorExact | package.go:280-282 | no change is reported iff both counts are multiples of ten |
| AptOutput.SummaryInstalled | package.go:281 | which summaries mention "0 newly installed" |
| AptOutput.SummaryRemoved | package.go:282 | which summaries mention "0 to remove" |
| AptFreshness.LatestAptSourcesMTime | package.go:55-82 | the running maximum is the latest of the times that count, or zero |
| AptFreshness.SkipHasWitness | package.go:89-100 | a skipped refresh has a witness time within the requested validity and not older than any source, even if the duration overflows |
| AptFreshness.SkipExactly | package.go:167-205 | without overflow a witness is exactly what skipping takes |
| AptFreshness.HugeValidityNeverSkips | package.go:174-177 | one second more than fits a duration and nothing is ever fresh |
| AptFreshness.ExecutedRefreshesAreApart | package.go:167-221 | two executed refreshes are the second one's window apart unless a source became newer |
| AptCache.AptServer.HandlePackageApt | package.go:164-296 | the handler in place, filling its index with the scanner from the status file |
| AptCache.IndexIsInvisible | package.go:164-296 | over any sequence of requests whose runs of apt-get are faithful: the same packages end up installed as without the index, and the answers are the same if redundant installs are quiet |
| AptCache.HandleCoherent | package.go:232-289 | one request whose run is faithful keeps the index equal to the installed set |
| AptCache.CoherentAlongIff | package.go:232-289 | for any apt-get: the index is right after every request iff each run made while it was valid changed nothing, or succeeded and was detected |
| AptCache.CoherentIffDetected | package.go:280-289 | a successful run, for whatever state, keeps the index right iff the index was not valid, nothing changed or the change was detected |
| AptCache.CoherentUnlessTens | package.go:280-289 | with apt's own summary: a changing run keeps a valid index right iff the counts are not both multiples of ten |
| AptCache.FailingRunCoherentIff | package.go:276-278 | a failing run keeps a valid index right iff it changed nothing |
| AptCache.AsksIff | package.go:232-273 | which requests get to apt-get: with state=present exactly those that name a missing package |
| AptCache.HandleAnswers | package.go:164-296 | the answer, decided: refused iff the refresh failed, the state is unknown or apt-get failed; otherwise a change iff the lists were refreshed or the output lacks one of the two phrases; dpkg's file is what the run for the requested state left |
| AptCache.SummaryAnswered | package.go:280-294 | with apt's own summary: a change iff the lists were refreshed or a count is no multiple of ten |
| AptCache.TenRemovedAreThoughtPresent | package.go:234-256 | a removed package is answered "already installed" |
| AptInterleaving.StepKeepsInv | package.go:215-289 | every atomic step of every handler keeps the invariant |
| AptInterleaving.IndexCoherent | package.go:15-22 | over every interleaving: a valid index with nobody between a change and its invalidation is the installed set |
| AptInterleaving.SkipIsRight | package.go:239-256 | then "already installed" is true |
| AptInterleaving.UpdateDropsIndex | package.go:210-219 | after an update no index published before it is used |
| AptInterleaving.SkipDuringRemoval | package.go:239-289 | and otherwise it can be false: a concrete interleaving |
| RpcSession.Serve | server.go:19-55 | one reply per non-blank line, in order, with its id or 0 |
| RpcSession.FastAgentClient.Call | plugins/module_utils/fastagent_client.py:98-148 | what one call writes, reads and concludes |
| RpcSession.CallTakesSteps | plugins/module_utils/fastagent_client.py:112-148 | taking the lock, writing and reading in the step system do what the method Call does |
| RpcSession.ServeTakesSteps | server.go:25-49 | the agent's steps in the step system write what the method Serve writes |
| RpcSession.NoCrossMatch | plugins/module_utils/fastagent_client.py:112-148 | over every run with any threads and abandoned calls, a returned value is the agent's result for that very request |
| RpcSession.ReadsItsOwnIff | plugins/module_utils/fastagent_client.py:127-142 | a call gets its own answer iff nothing is owed to an earlier call, its line was not garbled and the agent did not die over it |
| RpcSession.OwnAnswerArrives | plugins/module_utils/fastagent_client.py:130-148 | such a call ends with exactly what the agent said: a result is returned, an error raised with its code and message |
| RpcSession.CallIsServed | server.go:25-97 | on quiet pipes a call ends with what the agent makes of its request |
| RpcSession.CallDecided | plugins/module_utils/fastagent_client.py:124-148 | what a call ends with for whatever it reads: nothing, half a line, another call's reply, its own |
| RpcSession.FragmentSpoilsNext | plugins/module_utils/fastagent_client.py:121-142 | a concrete run in which a call abandoned in the middle of its line makes the next one fail |
| RpcSession.RepliesByLine | server.go:25-49 | blank lines are not answered, other lines are, in order, and one that does not parse with id 0 and code -32700 |
| RpcSession.DesyncIsPermanent | plugins/module_utils/fastagent_client.py:138-142 | after a call was abandoned between write and read every later whole reply is rejected as a mismatch |
| IdleShutdown.CounterIsExact | daemon.go:123-137 | the counter is the number of connections between add and subtract |
| IdleShutdown.StampsAreCounted | daemon.go:123-137 | the timestamp is written once for every accepted connection and once for every finished one, and by nothing else |
| IdleShutdown.IdleCloseIsSafe | daemon.go:92-109 | the listener is closed only after a timeout without timestamps, and cuts no stamped connection if the two reads are less than the timeout apart |
| IdleShutdown.ClosedForGood | daemon.go:114-121 | once the listener is closed nobody is accepted any more |
| IdleShutdown.StopsOnlyByClosing | daemon.go:92-109 | the idle goroutine goes on looking until it has closed the listener |
| IdleShutdown.ZeroMeansNobody | daemon.go:96 | a loaded zero means no counted connection at that moment |
| IdleShutdown.FreshConnectionCanBeCut | daemon.go:96-126 | a counted but unstamped connection can be live at the close |
| IdleShutdown.StampedConnectionCanBeCut | daemon.go:95-101 | without the bound on the two reads a served connection can be cut |

## Left out

* Paths with `..` or redundant separators: a request path is its list of clean segments, as `filepath.Join` would leave it; a trailing slash in `dest` is not represented, and a source's base name is neither `.` nor `..`, as no file's is. Symlink targets may contain `.` and `..`.
* setuid, setgid and sticky bits, device nodes, fifos, sockets, mount boundaries, ACLs, SELinux, permission checks (the agent runs as root) and access(2).
* Link counts and the reclaiming of unlinked inodes: an inode without a name stays in the table.
* `handleFileLink`, `handleFileTouch` and the remaining fields of `handleStat`: short case analyses.
* FileStates.AbsentFailing: which names a failing recursive removal has taken away by then is a parameter, as the order in which it goes is the Go library's.
* WriteSummary.WriteFileSucceeds: a caller-supplied checksum must describe the existing file, as the field is documented.
* AptCache.IndexIsInvisible: what apt-get does depends on which packages are installed, not on their versions; each run that would be made without the index changes nothing when it fails, reports what it changes, and does not change the set when everything asked for is installed. CoherentAlongIff says what happens to the index otherwise.
* SHA-256 and base64: a digest is any function that is never empty (not assumed injective), and decoding undoes encoding.
* JSON, `bufio.Scanner` and its size limit, user and group databases beyond lookup by name, Unicode digits and blanks in Python's `int`, logging and tracing.
* `hello` and its version check, the dnf path, `exec.go`, `service.go`, the connection plugin and the other action plugins: external processes or argument routing.
* System calls that fail differently when made twice on the same path within one request, and other processes changing the filesystem during a request.
* The environment's clock is a number that does not run backwards.
