# SigardaPanel: verified kernels

SigardaPanel is a hosting panel: an API server and a root agent that runs commands, moves files and edits
configuration on its behalf. Most of it is plumbing. This project models the parts that hold state or
compute something intricate, and proves what they promise:

- **Restoring a backup** (`FileTree`, `CopyTree`, `Disk`, `CopyRun`, `MovePath`, `Sanitize`, `Restore`,
  `RestoreOutcomes`; about losses `OpenedLink`, `CopyCompletes`, `CopyAlike`, `CopySpares`, `RestoreLoss`, `LinkClash`, `Leftovers`, `OpenClash`,
  `LinkExample`, `LaterLink`, `RestoreLimits`, `LiveInstall`). The filesystem is a map
  from component paths to directories, files, symlinks and special files, and opening a path follows symlinks as the
  kernel does. What goes wrong is an explicit schedule: whether each rename works, after how many system calls each
  copy stops and how much of the last write is stored, and which nodes each removal leaves. A request is a function of
  the disk and the schedule; the methods compute it step by step and append each state of the disk to a ghost
  `history`, so that the theorems about it are about a crash at any moment.
- **Throttling** (`Clock`, `TokenBucket`, `SlidingWindow`, `ConcurrentLogin`, `LoginFlow`, `Decimal`): the token
  bucket and its background cleaner, the pruning login limiter, the failure tracker under concurrent logins,
  the replay guard for one-time codes, and the order in which `login` uses them.
- **Path containment and batch moves** (`Strings`, `CleanPath`, `SafePath`, `BatchMove`): `filepath.Clean` and
  `Join` as component lists, the two tests of `safePath`, the symlink walk, and conservation over a loop of
  renames that may stop early.
- **Terminal sessions** (`PtyPool`, `ReplayBuffer`): eviction with the hand-written exchange sort on an array,
  and the replay buffer between the reader and a reattaching client as an interleaving of their steps.
- **Printers, parsers, editors** (`UnitFile`, `UnitContent`, `SqlEscape`, `BotBlocker`, `Lsblk`): round trips over all strings
  through a systemd decoder, a shell reader, an SQL literal reader and the `lsblk` parser, and an injection
  into nginx files that can be taken back.

`dafny verify dfyconfig.toml` checks everything.

## What the proofs show about the code

- Restoring keeps the site whole under its own path or under the staged name in every state, or the restored
  tree whole under the site's path, for every schedule of failures in which no copy opens a symlink that lies where it
  has to make a file or directory (`Restore.RestoreBackup`). Each outcome promises exactly where the site is.
- With such a symlink the site can be lost, because copying follows it. `LinkExample.RequestLosesAFile` is a whole
  request, from an initial disk, whose outcome is that of a completed rollback and after which a file's content is
  nowhere on the disk. `Leftovers.LeftoverLosesIff` says exactly when, by a condition that finitely many trial copies
  decide before the restore: some part of the archive, left at the site's path while another part is still where it was
  extracted, lets an undisturbed copy of the site over it open a symlink and complete. It speaks of links to anywhere,
  into the site included, but asks that no symlink on the disk and no path of the site has the name of the staged
  directory in it; `Leftovers.LosesOverIff` does without that and adds the copies that spoil what they copy.
- What a link does before the restore decides less. It need not open then to lose the site: in `LaterLink` it opens only
  once another part of the archive is in place. If the links that lie where the site has a file or directory lead out
  of the three places, opening decides over files and empty directories (`OpenClash.PlainLosesIff`), and where none of
  them opens, or each is blocked by a directory behind it where the site has a file, nothing is lost
  (`RestoreLimits.ClosedLinksAreHarmless`, `OpenClash.BlockedLinksAreHarmless`). The links of `LinkExample` and
  `LaterLink` lead into the site, so those three say nothing about them.
- The copy that stands in for a rename between filesystems is exact only for trees that belong to the agent and
  carry permission bits only (`CopyTree.CopyIsExactIff`), although the comment on `copyPath` speaks of
  preserving file modes. After such an install the owner that `sanitizeRestoredTree` had just set is lost again.
- The "rollback failed" message says the original is at the staged path. It is there exactly when the rollback's copy
  failed, or when the final removal could remove nothing of it (`RestoreLimits.MessageIsTrueIff`). When only the final
  removal failed the original is at the site's own path (`Restore.Promised`, which `Restore.RestoreBackup` ensures);
  for every site of more than one node some schedule makes the message false (`RestoreLimits.MessageCanBeFalse`).
- A second run starts by deleting the staged copy. Every schedule of it keeps the site exactly when the live root
  holds all of it or is absent (`RestoreLimits.SecondRunKeepsIff`), and then in every state (`RestoreLimits.SwapAgain`).
  A staging that failed in its copy, a completed rollback and a rollback that failed in its last removal leave it so
  (`RestoreLimits.SafeToTryAgain`); a staging that failed in its last removal does not
  (`RestoreLimits.FailedStagingIsNotSafe`).
- `Stat`'s error is dropped. If it hides a live root the archive is copied over the site; where the two trees are
  compatible, that can lose a file exactly when both have it and it is not empty in both
  (`LiveInstall.LiveSiteLosesIff`).
- Clearing setuid or setgid also clears the sticky bit, because the mode is replaced by its permission bits.
- The token bucket's cleaner is invisible exactly for rates of at least one (`TokenBucket.CleanupUnobservableIff`).
- With `n` logins of one account in flight, `limit + n - 1` failures fit in a window, and that many do occur
  (`ConcurrentLogin.FailureBoundIsReached`). The bound is about stretches shorter than the window; an event
  exactly one window old no longer counts.
- The second test of `safePath` never fires, except for a root that cleans to `/` or `.`, where it refuses every
  path below the root (`SafePath.SecondTestIff`). The first test also refuses names that merely begin with two dots.
- The output of a terminal is accounted for byte by byte. It is in order all along exactly when no write is ever made
  while older bytes wait (`ReplayBuffer.OutputInOrderIff`); the code does not see to that, and a later byte can overtake
  a buffered one (`ReplayBuffer.LaterByteOvertakes`).
- Refused requests move the token bucket's clock on too, so a visitor once refused stays refused for as long as it never
  pauses for a token's worth of time (`TokenBucket.RefusedWhileHurried`).
- systemd interprets exactly the lines meant in a unit file exactly when the command has no NUL and no other field ends a
  line or ends in a backslash that makes the line go on in the next (`UnitContent.UnitHasNoExtraLines`); what it then reads in each of them is `UnitContent.UnitSays`.
- A failed `enableBotBlocker` strips the block from every listed file that already carried one, the `default` site
  included, which the injecting loop had skipped (`BotBlocker.FailedEnableRestoresIff`).

## Model

| member | source | states |
|---|---|---|
| CopyTree.CopyIsExactIff | internal/agenthttp/validate.go:154-197 | a copy equals the original exactly when every node belongs to the agent and has permission bits only |
| CopyTree.CopyImageIsStable | internal/agenthttp/validate.go:154-197 | a copy of a copy is that copy: staging and rolling back by copying degrade the tree once, not twice |
| CopyTree.MergeCovers | internal/agenthttp/validate.go:154-197 | whatever was at the destination, a completed copy holds every path of the source with its content and link target |
| CopyTree.MergeOntoNothing | internal/agenthttp/validate.go:154-197 | onto an absent destination the copy has the source's paths and nothing more, and all its data |
| CopyTree.MergeChild | internal/agenthttp/validate.go:175-179 | copying one more directory entry extends the merged tree by exactly that branch |
| CopyTree.PartialChild | internal/agenthttp/validate.go:175-179 | a copy interrupted inside one entry is an interrupted copy of the whole directory |
| CopyTree.MergeComplete | internal/agenthttp/validate.go:171-180 | once all entries are copied, nothing of the directory is missing |
| DiskState.Disk.Rename | internal/agenthttp/validate.go:145 | all or nothing: the tree is at the destination and gone from the source, or nothing changed; it fails exactly when the schedule says so, the source is missing or a directory is in the way |
| DiskState.Disk.RemoveAll | internal/agenthttp/router.go:1588 | removes every node but those that cannot be removed and the directories they are in, whatever the order; at every moment only that tree has shrunk |
| DiskState.RenameKeepsShape | internal/agenthttp/validate.go:145 | a rename between disjoint places leaves every node's parent a directory |
| DiskState.RenameEffect | internal/agenthttp/validate.go:145-147 | the renamed tree is at the destination unchanged, and nothing outside the two places changed |
| DiskState.OpenTargetLocates | internal/agenthttp/validate.go:168-187 | what opening a path in the copy leads to is the resolution of the whole path, symlinks followed |
| DiskState.LocatedParent | internal/agenthttp/validate.go:168-187 | a path resolves to no symlink, and to a place whose parent is a directory |
| DiskState.LocateDir | internal/agenthttp/validate.go:168 | an existing directory resolves to itself |
| DiskState.LocateWithin | internal/agenthttp/validate.go:168-187 | a path that resolves to something resolves to the same when more is on the disk |
| DiskState.ExistsUnlessLink | internal/executor/executor.go:212-221 | Stat finds whatever is there unless it is a symlink, and nothing where nothing is |
| DiskState.ExistsThroughLink | internal/executor/executor.go:212-221 | Stat sees a symlink exactly when it sees what the symlink leads to |
| DiskState.LinkSubstitutes | internal/agenthttp/validate.go:168-187 | a symlink stands for its target, at the end of a path as well as on the way |
| CopyRun.CopyGrows | internal/agenthttp/validate.go:155-197 | whatever links are followed, a copy removes nothing and changes nothing that was there but the content of files |
| CopyRun.CopyResult | internal/agenthttp/validate.go:155-197 | a copy that opened no link in its way changes the destination only: success is exactly the source over it, failure leaves a part of that |
| CopyRun.CopyOutcome | internal/agenthttp/validate.go:155-197 | node by node: after a completed copy that opened no link every new node has its source's content or link target and permission bits, none of the three special bits, and the agent as owner; a node that was there keeps owner and mode and has the source's data; all else is as it was |
| CopyRun.NothingSpecialCopied | internal/agenthttp/validate.go:155-197 | a tree with a special file in it is never copied to the end |
| CopyRun.ListResult | internal/agenthttp/validate.go:175-180 | the same for the entries of a directory, in any order of the listing and from any of them on |
| CopyRun.EntryCopied | internal/agenthttp/validate.go:176-178 | one entry adds exactly its own branch, or a part of it |
| CopyRun.MkdirEffect | internal/agenthttp/validate.go:168-170 | making the directory is the merge of the top alone; an existing one keeps owner and mode |
| MovePath.CopyPath | internal/agenthttp/validate.go:155-197 | the recursive copy for every schedule, links in the way followed; in every state nothing outside the destination has changed unless such a link was opened; it does what `CopyRun.CopyOutcome` says node by node |
| MovePath.CopyEntries | internal/agenthttp/validate.go:175-180 | the loop over the entries stops at the first that fails and computes what the recursion over the list says |
| MovePath.CopyContent | internal/agenthttp/validate.go:182-195 | the target is opened, or created with permission bits, and emptied before the source is read; a failing write stores a prefix |
| MovePath.MkdirAll | internal/agenthttp/validate.go:168-170 | an existing directory, perhaps behind a link, is left as it is; a missing one is made; anything else in the way fails |
| MovePath.MovePath | internal/agenthttp/validate.go:144-152 | the rename-or-copy move for every schedule; unless a link was opened, in every state the tree is whole at the source or its data is whole at the destination, nothing else has changed, and a success has brought every node with its permission bits |
| MovePath.MoveResult | internal/agenthttp/validate.go:144-152 | a move that opened no link leaves its tree moved, or whole at the source after a failed copy, or complete at the destination after a failed removal |
| MovePath.MoveOutcome | internal/agenthttp/validate.go:144-152 | a completed move that opened no link has brought the tree as it is if the rename worked, and node by node as a copy does if not |
| MovePath.KeptAtSource | internal/agenthttp/validate.go:148-150 | while copying, the source is whole |
| MovePath.KeptAtTarget | internal/agenthttp/validate.go:151 | while the source is being removed, the destination holds all its data |
| Sanitize.SanitizeNode | internal/agenthttp/validate.go:268-285 | one visit drops a special file or makes one node safe, and changes nothing else; it fails exactly when the visit or a needed chmod does |
| Sanitize.SanitizeTree | internal/agenthttp/validate.go:266-287 | the walk succeeds exactly when no visit and no needed chmod fails; then all special files are gone, every other node is there with its data and permission bits, belongs to the owner and has no set-id bits, and the sticky bit is left only where no set-id bit was; nothing else is touched |
| Sanitize.SanitizedIsSafe | internal/agenthttp/validate.go:262-265 | nothing special is left, all nodes belong to the owner, no set-id bits; all other data is kept; a second pass changes nothing |
| Sanitize.SanitizedNodes | internal/agenthttp/validate.go:266-287 | the sanitized form node by node: no special file, the owner set, permission bits kept, set-id bits gone |
| Restore.SwapKeepsPromises | internal/agenthttp/router.go:1582-1613 | for every schedule that opens no link: where the site is after each outcome; after a failed rollback it is at its own path if only the final removal failed and staged otherwise |
| Restore.RootSeen | internal/agenthttp/router.go:1585-1586 | Stat finds the root exactly when it is there, a symlink to something included |
| Restore.SweptMove | internal/agenthttp/router.go:1588-1598 | clearing a place, perhaps not quite, and moving a tree there: the tree lies over leftovers at most, and exactly if nothing was left |
| Restore.Installed | internal/agenthttp/router.go:1594 | the install does not touch the staged site; success puts exactly the archive, or its copy, at the site's path; failure leaves parts of the archive only |
| Restore.Staged | internal/agenthttp/router.go:1587-1591 | the disk as the install finds it: the root is gone and the site, its copy or its copy over leftovers is aside |
| Restore.RollbackPromises | internal/agenthttp/router.go:1595-1607 | the rollback brings the site back and empties the staged path, or says which of the two places holds it |
| Restore.DiscardPromises | internal/agenthttp/router.go:1608-1613 | discarding the staged copy touches nothing at the root |
| Restore.SweepAndMove | internal/agenthttp/router.go:1588-1598 | in every state of a clearing and a move between the site's two places the site is whole at one of them |
| Restore.StageSite | internal/agenthttp/router.go:1585-1592 | the same for staging; afterwards the site is aside and the archive is as it was |
| Restore.InstallAlone | internal/agenthttp/router.go:1594 | without a live root the install leaves what is staged whole in every state |
| Restore.InstallOrRollBack | internal/agenthttp/router.go:1594-1613 | install, then discard or roll back: nothing is lost in any state, and the site is kept in every state unless the outcome is success |
| Restore.SwapSite | internal/agenthttp/router.go:1582-1613 | the same for the whole swap, with or without a live root; without one, what is staged is whole in every state |
| Restore.SanitizeAndSwap | internal/agenthttp/router.go:1564-1613 | the same with the archive replaced by its sanitized form first; it answers that sanitizing failed exactly when the owner is known and the walk fails |
| Restore.RestoreBackup | internal/agenthttp/router.go:1552-1613 | the whole request from the extracted archive on, for every schedule: unless a link was opened, nothing is lost in any state, the site is kept in every state unless the outcome is success, and each outcome leaves the disk as promised; after a success with a known owner the root has exactly the archive's nodes that are not special, none set-id, each with its data and permission bits, of that owner after a rename and of the agent after a copy; the temporary directory is gone unless something in it is stuck |
| Restore.Ready | internal/agenthttp/router.go:1564-1581 | sanitizing the extracted archive if the owner is known: the site is untouched in every state, and what is ready is safe node by node |
| Restore.SwapInstalls | internal/agenthttp/router.go:1582-1613 | after a success that opened no link the root is the extracted tree after a rename, and its copy node by node if not |
| Restore.InstalledNodes | internal/agenthttp/router.go:1564-1594 | sanitizing and then renaming or copying, node by node |
| Restore.RestoredIsSafe | internal/agenthttp/router.go:1564-1594 | what is restored with a known owner has no special file and no set-id bit anywhere |
| RestoreOutcomes.FaultlessRestores | internal/agenthttp/router.go:1582-1613 | with renames that work and nothing stuck the restore succeeds: the archive is at the root, and nothing is left aside or where it was extracted |
| RestoreOutcomes.CopyingRestores | internal/agenthttp/router.go:1582-1613 | between filesystems it succeeds as well, given enough calls for the two copies |
| RestoreOutcomes.FailedInstallRollsBack | internal/agenthttp/router.go:1594-1607 | if the install fails in whatever way and the renames around it work, the site is back exactly as it was and nothing is left aside |
| RestoreOutcomes.NothingStuckIsClean | internal/agenthttp/router.go:1582-1613 | if everything can be removed no removal fails and every promise made for clean runs holds |
| Restore.ElsewhereKeeps | internal/agenthttp/router.go:1588 | work confined to another place keeps a site that is whole at one of its two |
| Restore.MoveKeeps | internal/agenthttp/router.go:1589-1598 | while a tree moves between the site's two places, its data is never absent from both |
| Restore.InstallKeeps | internal/agenthttp/router.go:1594 | while the archive is being installed the staged site is whole |
| OpenedLink.FirstOpened | internal/agenthttp/validate.go:155-197 | a copy that opened a link in its way first did so at a path where the source has a file or directory and the destination a link that can be opened, with nothing else changed by then |
| OpenedLink.NoClashOpensNothing | internal/agenthttp/validate.go:155-197 | without a link where the source has a file or directory none is opened |
| OpenedLink.FreshOpensNothing | internal/agenthttp/validate.go:155-197 | a copy onto nothing opens none |
| OpenedLink.OpenedNeverCovers | internal/agenthttp/validate.go:155-197 | after a copy that opened a link the destination does not hold the source |
| OpenedLink.SameLocation | internal/agenthttp/validate.go:168-187 | a target that stays out of the three places resolves to the same place whatever happens in them |
| CopyCompletes.MoreSteps | internal/agenthttp/validate.go:155-197 | a copy that completes also does with calls to spare |
| CopyCompletes.FreshCopy | internal/agenthttp/validate.go:155-197 | a copy of a tree without special files onto nothing completes, given enough calls |
| CopyCompletes.CompatibleCopy | internal/agenthttp/validate.go:155-197 | so does a copy over a tree that has directories for directories and files for files, and it opens no link |
| CopyCompletes.SpineCopy | internal/agenthttp/validate.go:155-197 | a copy over one leftover link that opens completes too, and writes at the destination and behind the link only |
| CopyAlike.CopyAlikeRuns | internal/agenthttp/validate.go:155-197 | whether a copy completes and whether it opens a link depends on the kinds and link targets on the disk only; what it does to the data it copies, on that data too |
| CopySpares.CopySparesSource | internal/agenthttp/validate.go:155-197 | where no link and no name leads back to the place that is copied, a copy of it leaves it as it is, whatever links it opens |
| CopySpares.CallsUsed | internal/agenthttp/validate.go:155-197 | such a copy completes with at most two calls for each node |
| CopySpares.EnoughCalls | internal/agenthttp/validate.go:155-197 | so if it completes at all, it does with two calls for each node, and with the same result |
| RestoreLoss.RestoreLosesIff | internal/agenthttp/router.go:1582-1613 | for every request, stale leftovers and special files included: some schedule loses the site exactly when some schedule makes the staging or the rollback copy go wrong (the step from runs to copies; `Leftovers` states when that is without schedules) |
| RestoreLoss.LossNeedsOpening | internal/agenthttp/router.go:1582-1613 | without an opened link nothing is lost |
| RestoreLoss.LostGoesWrong | internal/agenthttp/router.go:1582-1613 | every losing schedule has such a copy |
| RestoreLoss.GoneWrongLoses | internal/agenthttp/router.go:1582-1613 | every such copy extends to a losing schedule |
| LinkClash.RollbackDisk | internal/agenthttp/router.go:1594-1597 | the disk when the rollback begins: the site aside, parts of the archive in its place, the rest as at the start |
| LinkClash.LossHasOpenClash | internal/agenthttp/router.go:1582-1607 | if nothing stale was aside, a loss goes back to a link of the archive where the site has a file or directory, and that link can be seen to open before the restore if its target stays out of the three places |
| Leftovers.TrialReached | internal/agenthttp/router.go:1585-1597 | whatever part of the archive is to be left at the root, and whatever part of it where it was, some schedule gets there with the site aside and rolls back from there |
| Leftovers.RollbackIsTrial | internal/agenthttp/router.go:1585-1597 | and every disk a rollback begins with is like one of those, in kinds, link targets and the site's data |
| Leftovers.LosesOverIff | internal/agenthttp/router.go:1582-1607 | wherever links lead: some schedule loses the site exactly when one copy of the site over a part of the archive opens a link and completes, or opens a link and spoils the site aside before it stops |
| Leftovers.LeftoverLosesIff | internal/agenthttp/router.go:1582-1607 | where nothing names the staged directory, a condition to check before the restore: some schedule loses the site exactly when the undisturbed copy of the site over some part of the archive, with two calls for each node, opens a link and completes |
| OpenClash.OpenClashLoses | internal/agenthttp/router.go:1582-1607 | a link of the archive over a file or an empty directory of the site that leads out of the three places and opens makes some schedule lose the site |
| OpenClash.PlainLosesIff | internal/agenthttp/router.go:1582-1607 | if the clashing links lead out of the three places and none that opens lies over a directory with entries, a restore can lose the site exactly when one of them opens |
| OpenClash.BlockedCopy | internal/agenthttp/validate.go:168-187 | a link to a directory that has a directory where the source has a file stops every copy over it |
| OpenClash.BlockedLinksAreHarmless | internal/agenthttp/router.go:1582-1607 | if the clashing links lead out of the three places and each that opens is blocked so, no schedule loses the site: over directories with entries opening does not decide |
| LaterLink.LosesThoughNothingOpens | internal/agenthttp/router.go:1582-1607 | for a whole family of requests no clashing link opens before the restore and yet some schedule loses the site: the link opens once another part of the archive is in place |
| LaterLink.ThereIsOne | internal/agenthttp/router.go:1582-1607 | a concrete request of that family, for every listing order |
| LinkExample.RequestLosesAFile | internal/agenthttp/router.go:1552-1613 | a whole request on a concrete disk whose answer is that of a completed rollback and after which one file's content is nowhere |
| RestoreLimits.ClosedLinksAreHarmless | internal/agenthttp/router.go:1582-1613 | when the clashing links lead out of the three places and none of them opens, no schedule opens one and every promise holds |
| RestoreLimits.MessageIsTrueIff | internal/agenthttp/router.go:1599-1604 | after a failed rollback the original is at the staged path, as the message says, exactly when the copy failed or every node of it is held there |
| RestoreLimits.MessageCanBeFalse | internal/agenthttp/router.go:1599-1604 | for every site of more than one node a schedule makes the message false: the original is whole at its own path and not at the staged one |
| RestoreLimits.SecondRunKeepsIff | internal/agenthttp/router.go:1587-1592 | every schedule of a second run that opens no link ends with the site kept, unless it succeeds, exactly when the live root holds all of it or is absent |
| RestoreLimits.SwapAgain | internal/agenthttp/router.go:1585-1613 | and then a second run keeps the site, or has the archive installed, in every state of its history |
| RestoreLimits.SafeToTryAgain | internal/agenthttp/router.go:1587-1613 | the outcomes of a first run that leave the site at the root |
| RestoreLimits.FailedStagingIsNotSafe | internal/agenthttp/router.go:1587-1592 | a first run whose staging failed in its last removal, after which some second run loses the site |
| LiveInstall.InstallOverLiveSiteIff | internal/agenthttp/router.go:1586-1594 | an install over a live root that completed its copy has kept the site exactly when both trees agree wherever both have something |
| LiveInstall.KeptUnlessContended | internal/agenthttp/router.go:1586-1594 | completed or interrupted, it keeps the site if no file is in both trees and not empty in both |
| LiveInstall.ReachFile | internal/agenthttp/validate.go:175-195 | a copy over a compatible tree can be interrupted in any file of it, with any part of the new content stored |
| LiveInstall.LiveSiteLosesIff | internal/agenthttp/router.go:1586-1594 | over a compatible live site some failures lose some of it exactly when a file is in both trees and not empty in both |
| TokenBucket.IdleRefillsToCap | internal/apihttp/ratelimit.go:45-79 | a bucket idle for longer than two intervals refills to the cap |
| TokenBucket.RequestKeepsHiding | internal/apihttp/ratelimit.go:64-87 | a visitor the cleaner forgot and one it did not get the same answer and end in the same state |
| TokenBucket.ServedAlone | internal/apihttp/ratelimit.go:45-88 | every visitor is answered as if it were alone and never cleaned up, whatever the others and the cleaner do |
| TokenBucket.CleanupUnobservable | internal/apihttp/ratelimit.go:44-54 | for rates of at least one, dropping all cleanup steps from any trace changes no answer to anyone |
| TokenBucket.CleanupObservableBelowOne | internal/apihttp/ratelimit.go:44-54 | for any smaller rate a concrete trace tells the difference |
| TokenBucket.CleanupUnobservableIff | internal/apihttp/ratelimit.go:44-88 | cleanup is invisible on all traces exactly for rates of at least one |
| TokenBucket.FlowsAdd | internal/apihttp/ratelimit.go:74-80 | rounding down twice and reading the clock twice never lets more flow in than once over the whole time |
| TokenBucket.SpendOne | internal/apihttp/ratelimit.go:73-87 | 0 <= tokens <= rate is kept, and a request never gains tokens beyond what flowed in |
| TokenBucket.SpendBound | internal/apihttp/ratelimit.go:73-87 | from a known bucket: no more is granted than its tokens plus the inflow up to now |
| TokenBucket.BurstBound | internal/apihttp/ratelimit.go:56-88 | from any state between s and t: at most rate + floor(rate*(t-s)/interval) |
| TokenBucket.WindowBound | internal/apihttp/ratelimit.go:44-88 | the same for any stretch of any visitor's requests inside any run of the whole limiter with its cleaner |
| TokenBucket.HurriedVisitorStarves | internal/apihttp/ratelimit.go:44-88 | in any run of the limiter, request k of a visitor that never pauses for a token's worth of time is granted exactly for k < rate: refused requests also move lastSeen |
| TokenBucket.RefusedWhileHurried | internal/apihttp/ratelimit.go:73-87 | at any time in any run: a visitor once refused stays refused for as long as it does not pause |
| TokenBucket.PausedIsGranted | internal/apihttp/ratelimit.go:57-87 | in any run: a first request is granted, and so is every one that comes a token's worth of time after the visitor's last |
| TokenBucket.PauseRefills | internal/apihttp/ratelimit.go:73-87 | in any run: the k-th request after a refusal, a pause p and then no more pauses is granted exactly for k <= rate and k <= floor(p * rate / interval) |
| TokenBucket.PauseCount | internal/apihttp/ratelimit.go:73-87 | so exactly min(rate, floor(p * rate / interval)) are granted, if as many are made |
| TokenBucket.PauseTopsUp | internal/apihttp/ratelimit.go:57-87 | the same for a visitor that has used j of its burst: what it left of it and what flowed in, up to the rate |
| TokenBucket.HurriedCount | internal/apihttp/ratelimit.go:44-88 | of n such requests in any run exactly min(n, rate) are granted |
| TokenBucket.AnswersAppend | internal/apihttp/ratelimit.go:57-88 | the answers of a trace are those the limiter gives step by step |
| TokenBucket.RateLimiter.Allow | internal/apihttp/ratelimit.go:56-88 | one call is one request event of the trace, answered and applied as the model says, with two ordered clock readings |
| TokenBucket.RateLimiter.Cleanup | internal/apihttp/ratelimit.go:44-54 | one pass is a series of probe events; it deletes idle visitors only and leaves the others as they are |
| SlidingWindow.KeepRecent | internal/apihttp/auth.go:54-60 | the filtering loop keeps exactly the entries later than the cutoff, in order |
| SlidingWindow.RecentCounts | internal/apihttp/auth.go:54-60 | an entry later than the cutoff is kept as often as it is there, any other is not |
| SlidingWindow.FullIff | internal/apihttp/auth.go:54-71 | an ordered history is full exactly when the limit-th last of its entries lies less than a window ago |
| SlidingWindow.RecentOfRecent | internal/apihttp/auth.go:54-60 | filtering by an older cutoff first makes no difference later |
| SlidingWindow.PruneRemembers | internal/apihttp/auth.go:51-67 | after pruning, no cutoff from now on can tell the stored list from the full history |
| SlidingWindow.AllowRefines | internal/apihttp/auth.go:44-74 | one call on the pruned list answers as "fewer than limit accepted attempts later than now - window" over the full history, and keeps the invariant: sorted, at most limit long, accepted attempts spaced out |
| SlidingWindow.PruningRefinesSpec | internal/apihttp/auth.go:44-74 | over any sequence of attempts the pruning code and the unpruned specification give the same answers |
| SlidingWindow.LimiterMeetsSpec | internal/apihttp/auth.go:44-74 | from an empty limiter; and accepted attempts that are limit positions apart are at least a window apart |
| SlidingWindow.AllowKeepsAll | internal/apihttp/auth.go:56-73 | a call for one address keeps the invariant of every address |
| SlidingWindow.LoginLimiter.Allow | internal/apihttp/auth.go:44-74 | answers by the full history of that address, records accepted attempts only, and leaves the map as specified |
| SlidingWindow.FailureTracker.Prune | internal/apihttp/auth.go:90-104 | returns the recent failures and drops the key when there are none |
| SlidingWindow.FailureTracker.Blocked | internal/apihttp/auth.go:106-110 | blocked exactly when limit failures since the last reset lie in the window, over the unpruned history |
| SlidingWindow.FailureTracker.Fail | internal/apihttp/auth.go:112-117 | adds one failure now to that account's history and to no other |
| SlidingWindow.FailureTracker.Reset | internal/apihttp/auth.go:119-123 | forgets that account's failures and no other's |
| ConcurrentLogin.StepContained | internal/apihttp/auth.go:239-303 | every step of any login keeps: recent failures and logins in flight together stay below limit + n |
| ConcurrentLogin.RunContained | internal/apihttp/auth.go:239-303 | so does every interleaving |
| ConcurrentLogin.FailuresAreRecent | internal/apihttp/auth.go:112-123 | in a stretch without a reset, all its failures later than a cutoff are still counted |
| ConcurrentLogin.FailureBound | internal/apihttp/auth.go:106-123 | whatever the interleaving, a stretch shorter than the window and without a reset has at most limit + n - 1 failures |
| ConcurrentLogin.SequentialFailureBound | internal/apihttp/auth.go:106-123 | one login at a time: at most limit |
| ConcurrentLogin.FailureBoundIsReached | internal/apihttp/auth.go:239-303 | for every limit and n a run attains limit + n - 1 |
| ConcurrentLogin.Logins.constructor | internal/apihttp/auth.go:82-88 | an account without failures starts where the bound's runs start |
| ConcurrentLogin.Logins.Begin | internal/apihttp/auth.go:106-110 | the tracker's answer to a login that begins is that of the run, which it extends |
| ConcurrentLogin.Logins.Failed | internal/apihttp/auth.go:112-117 | what the tracker remembers after a failure is what the run says |
| ConcurrentLogin.Logins.Succeeded | internal/apihttp/auth.go:119-123 | and after a reset |
| ConcurrentLogin.Logins.Abandoned | internal/apihttp/auth.go:244-303 | and when a login ends without either |
| LoginFlow.KeyInjective | internal/apihttp/auth.go:141 | different users or codes never share a key of the used-code map |
| Decimals.DecimalInjective | internal/apihttp/auth.go:141 | different integers print differently |
| Decimals.DigitsSay | internal/apihttp/auth.go:141 | the digits are read back as the number, without a leading zero |
| Decimals.DecimalSays | internal/apihttp/auth.go:141 | so is the decimal form, with a sign exactly for negative numbers |
| LoginFlow.UsedCodes.Expire | internal/apihttp/auth.go:136-140 | drops exactly the entries older than two minutes |
| LoginFlow.UsedCodes.MarkUsed | internal/apihttp/auth.go:132-150 | accepts exactly when every accepted use of that user's code is more than 120 000 000 000 nanoseconds old, by the full history, and records acceptances only |
| LoginFlow.MarkKeepsGuards | internal/apihttp/auth.go:136-149 | pruning never forgets a use that still matters, and accepted uses of one key stay more than two minutes apart |
| LoginFlow.Login | internal/apihttp/auth.go:221-303 | the exact answer to every attempt: each refusal and success if and only if its cause, with the throttles and the replay guard read from the full histories at the times of the clock; and exactly what is recorded for the address, the account and the code |
| LoginFlow.Authenticate | internal/apihttp/auth.go:244-303 | the same behind the throttles |
| LoginFlow.CheckFactor | internal/apihttp/auth.go:276-289 | a recovery code goes before a one-time code; a right one-time code counts once in two minutes and is used up |
| CleanPath.PartsNormal | internal/apihttp/filemanager.go:81 | in a cleaned path ".." occurs only as a leading run of a relative path, and no component is empty or "." |
| CleanPath.PartsOfRender | internal/apihttp/filemanager.go:81-88 | reading a rendered normal form gives back its components |
| CleanPath.CleanIdempotent | internal/apihttp/filemanager.go:81-88 | cleaning twice is cleaning once |
| CleanPath.NameUpCancels | internal/apihttp/filemanager.go:81-85 | a name and ".." behind it cancel in any path, wherever they stand |
| CleanPath.NameUpAtEnd | internal/apihttp/filemanager.go:81-85 | also at the end |
| CleanPath.NameUpAtStart | internal/apihttp/filemanager.go:81-85 | and at the beginning of a relative path |
| CleanPath.UpAtRoot | internal/apihttp/filemanager.go:81-85 | at the root ".." goes nowhere |
| CleanPath.UpStaysInFront | internal/apihttp/filemanager.go:81-82 | behind leading ".." of a relative path, or behind ".", another ".." stays |
| CleanPath.DotVanishes | internal/apihttp/filemanager.go:81-85 | doubled and trailing slashes and "." change nothing |
| CleanPath.JoinNames | internal/apihttp/filemanager.go:85 | joining a relative path without ".." appends its components |
| CleanPath.DotsStay | internal/apihttp/filemanager.go:81-82 | a leading ".." of a relative path can never be popped again |
| CleanPath.PrefixIsComponentPrefix | internal/apihttp/filemanager.go:89 | "has root plus separator as a string prefix" is "root's components are a proper prefix" |
| CleanPath.RenderInjective | internal/apihttp/filemanager.go:89-110 | equal cleaned paths have equal components |
| CleanPath.DirOfRender | internal/apihttp/filemanager.go:118 | filepath.Dir of a cleaned absolute path drops the last component and stays at "/" |
| SafePath.CleanedIsClean | internal/apihttp/filemanager.go:77-81 | what the tests see is a non-empty clean path with the components of the trimmed input |
| SafePath.Trimmed | internal/apihttp/filemanager.go:77 | trimming takes white space at both ends, all of it, and nothing else |
| SafePath.NameUpIsIgnored | internal/apihttp/filemanager.go:77-81 | for all texts x and y and names c, x/c/../y is taken as x/y |
| SafePath.LooksOutsideIff | internal/apihttp/filemanager.go:82 | the first test refuses exactly rooted paths and paths whose first name begins with two dots |
| SafePath.JoinedBelowRoot | internal/apihttp/filemanager.go:85 | past the first test, the joined path is root's components followed by plain names |
| SafePath.SecondTestIff | internal/apihttp/filemanager.go:88-91 | past the first test, the second fires exactly for a root that cleans to "/" or "." and a path other than the root |
| SafePath.InsideIff | internal/apihttp/filemanager.go:110 | the test of the symlink walk means the same place or below, except that below "/" it admits nothing but "/" |
| SafePath.EnsureNoSymlinkEscape | internal/apihttp/filemanager.go:101-124 | terminates, never probes above root, and judges by the first probe from the path upwards that is not simply absent: inside or outside the real root if it resolves, an invalid path if it fails; unless one fails, that is the deepest existing ancestor |
| SafePath.SafePath | internal/apihttp/filemanager.go:73-97 | exactly which paths are allowed, and exactly when each refusal is given: no root, a path that looks outside, a bare root, an unresolvable root, a failing probe, an ancestor that resolves outside the real root |
| SafePath.OneVerdict | internal/apihttp/filemanager.go:73-124 | there is one answer to every request, and it depends on the cleaned path only |
| SafePath.NameUpSameVerdict | internal/apihttp/filemanager.go:73-124 | x/c/../y gets the answer of x/y, whatever c is and whether it exists |
| BatchMove.RenameRelocates | internal/apihttp/filemanager.go:557-560 | a rename onto a free name is a one-to-one relocation of nodes |
| BatchMove.RelocatedTrans | internal/apihttp/filemanager.go:540-564 | relocations compose |
| BatchMove.ContentsWithout | internal/apihttp/filemanager.go:560 | the multiset of nodes does not depend on the order of counting |
| BatchMove.RelocatedContents | internal/apihttp/filemanager.go:560 | a relocation conserves the multiset of all nodes |
| BatchMove.OntoIff | internal/apihttp/filemanager.go:551 | the string test "into itself" is "source is an ancestor-or-self of the destination" |
| BatchMove.EntryPaths | internal/apihttp/filemanager.go:548-554 | what Base, Join and the three comparisons say in components |
| BatchMove.TargetIsApart | internal/apihttp/filemanager.go:551-560 | past the checks, source and target are disjoint, so no directory can come to lie inside itself |
| BatchMove.SafePathOnPlainTree | internal/apihttp/filemanager.go:73-124 | on a tree without links safePath allows exactly the paths that pass its text tests and have no file above them |
| BatchMove.GoIsSafe | internal/apihttp/filemanager.go:541-559 | a move that is to be made goes onto a free name, apart from its source, and does not take the destination along |
| BatchMove.CheckEntry | internal/apihttp/filemanager.go:545-559 | the string comparisons decide each entry exactly as the components say: the site root, an ancestor of the destination, in place already, a name that is taken, or a move |
| BatchMove.PlanIff | internal/apihttp/filemanager.go:545-559 | each verdict on an entry below the site root in terms of paths: the root itself, an ancestor-or-self of the destination, its own place, a name that is taken, or a move |
| BatchMove.NameUpSamePlan | internal/apihttp/filemanager.go:541-559 | an entry named x/c/../y is treated as x/y |
| BatchMove.PlanEntry | internal/apihttp/filemanager.go:541-559 | the same with safePath in front, on the disk as it is at that moment: each of the verdicts exactly when it is due |
| BatchMove.MoveOne | internal/apihttp/filemanager.go:560-563 | one rename, legal at that moment, or nothing; it fails exactly when the source is missing or the system refuses |
| BatchMove.AskedOne | internal/apihttp/filemanager.go:539-564 | one more turn of the loop asks for one more rename, or for none |
| BatchMove.MoveBrings | internal/apihttp/filemanager.go:560-563 | a legal move brings its entry into the destination and takes it from where it was |
| BatchMove.BroughtStays | internal/apihttp/filemanager.go:539-564 | an entry that was brought is not brought away, nor brought back, by a later move |
| BatchMove.MoveKeepsEntries | internal/apihttp/filemanager.go:560-563 | a legal move leaves every entry of the destination there |
| BatchMove.MoveAll | internal/apihttp/filemanager.go:539-564 | on every way out the disk is the replay of legal renames, in order those that the first `handled` paths ask for; each of those entries is in the destination under a name that was free, and gone from where it was, unless it lay there; success means all paths, and any other answer is that of the first path not handled |
| BatchMove.ReplayConserves | internal/apihttp/filemanager.go:539-564 | a run of legal renames relocates the tree, keeps it well-formed and touches nothing outside the site |
| BatchMove.ReplayArrives | internal/apihttp/filemanager.go:539-564 | every moved name is now in the destination and was not before; what the destination held is still there; the destination itself never moved |
| BatchMove.MoveEntries | internal/apihttp/filemanager.go:526-564 | the exact answer to every request, and on success and on every error part-way: exactly the asked renames done, every handled entry brought, contents conserved copy for copy, nothing overwritten, the tree well-formed |
| PtyPool.Swap | internal/agenthttp/terminal.go:145 | exchanges two elements |
| PtyPool.SelectOldest | internal/agenthttp/terminal.go:143-147 | the inner loop puts the oldest of the rest at its place and only permutes |
| PtyPool.SortByAge | internal/agenthttp/terminal.go:141-148 | the exchange sort sorts by last activity and only permutes |
| PtyPool.ListsReordered | internal/agenthttp/terminal.go:130-148 | a sorted complete list is a complete list |
| PtyPool.IdleIdsAreTheIdle | internal/agenthttp/terminal.go:113-126 | removing the idle ones of a complete list leaves exactly the live sessions, each removed once |
| PtyPool.Pool.Collect | internal/agenthttp/terminal.go:99-111 | lists every session once with its last activity, in whatever order the map is walked |
| PtyPool.Pool.KillIdle | internal/agenthttp/terminal.go:113-126 | exactly the sessions that are not idle are left |
| PtyPool.Pool.CollectByAge | internal/agenthttp/terminal.go:130-148 | lists the remaining sessions, oldest first |
| PtyPool.Pool.KillFirst | internal/agenthttp/terminal.go:150-161 | kills the first n of the list, each still there when its turn comes |
| PtyPool.FirstEvicted | internal/agenthttp/terminal.go:149-161 | dropping the first entries of a sorted list leaves nobody older than anyone dropped |
| PtyPool.Pool.EvictOldest | internal/agenthttp/terminal.go:128-162 | exactly 50 are left, and every evicted session is at least as old as every survivor |
| PtyPool.Pool.CleanIdleSessions | internal/agenthttp/terminal.go:88-163 | one pass kills as idle exactly the sessions last active more than 1800 seconds ago, then exactly as many of the rest as exceed 50, and none while one that was active longer ago survives; a session without activity counts as active now |
| PtyPool.PassPartitions | internal/agenthttp/terminal.go:88-163 | over the whole pass killed and surviving sessions partition the pool, each killed once, and no survivor is idle |
| PtyPool.PassKills | internal/agenthttp/terminal.go:88-163 | who is killed for what, in terms of the sessions' own times |
| ReplayBuffer.LastOfLast | internal/agenthttp/terminal.go:237-240 | trimming after each append is trimming once at the end |
| ReplayBuffer.Session.Buffer | internal/agenthttp/terminal.go:236-241 | pending is the last 65536 bytes, or all, of everything buffered since the last flush |
| ReplayBuffer.Session.Take | internal/agenthttp/terminal.go:327-336 | a reattach takes exactly those bytes and leaves none |
| ReplayBuffer.StepAccounted | internal/agenthttp/terminal.go:218-336 | every step of the reader or a reattach keeps each byte read accounted for once |
| ReplayBuffer.StepBounded | internal/agenthttp/terminal.go:218-336 | every step keeps pending the last 65536 bytes buffered since the last flush |
| ReplayBuffer.RunKeeps | internal/agenthttp/terminal.go:218-336 | so does every interleaving |
| ReplayBuffer.ReplayConservation | internal/agenthttp/terminal.go:218-336 | from the start, each byte read is in exactly one place, once: in the reader's hand, pending, taken for a flush, handed to a write, or trimmed |
| ReplayBuffer.TrimsOnlyWhenFull | internal/agenthttp/terminal.go:238-240 | bytes are trimmed exactly when the cap is exceeded, and then the buffer is full |
| ReplayBuffer.AimsAtLastAttached | internal/agenthttp/terminal.go:218-336 | whatever happens in between, the reader writes to the websocket attached last |
| ReplayBuffer.ReattachReplays | internal/agenthttp/terminal.go:318-336 | a reattach hands the new client everything buffered since the last flush, up to the last 65536 bytes, and leaves nothing |
| ReplayBuffer.StepOrdered | internal/agenthttp/terminal.go:218-336 | no step reorders what waits |
| ReplayBuffer.BacklogInOrder | internal/agenthttp/terminal.go:218-336 | in every interleaving from the start of a session the bytes taken for flushes, pending and in the reader's hand follow each other in the order of the output |
| ReplayBuffer.AheadIff | internal/agenthttp/terminal.go:226-336 | writing one piece before an older one keeps the order exactly when one of them is empty |
| ReplayBuffer.StepOrderIff | internal/agenthttp/terminal.go:218-336 | a step keeps what was sent and what waits in order exactly when it writes nothing, or when nothing older waits: for the reader, nothing pending and nothing taken for a flush; for a flush, no bytes taken earlier |
| ReplayBuffer.RunOrderIff | internal/agenthttp/terminal.go:218-336 | over every run: in order after every step exactly when every step is in turn |
| ReplayBuffer.OutputInOrderIff | internal/agenthttp/terminal.go:218-336 | the same from the start of a session, and then what was sent is in order |
| ReplayBuffer.LaterByteOvertakes | internal/agenthttp/terminal.go:226-242 | not every run is in turn: a concrete one whose last step writes a later byte while an earlier one waits |
| UnitFile.SystemdRoundTrip | internal/agenthttp/app_process.go:71-77 | systemd reads the quoted text as exactly one word equal to s, exactly when s has no NUL |
| UnitFile.WordsQuoted | internal/agenthttp/app_process.go:74-77 | inside a longer line the quoted text ends where its closing quote is |
| UnitFile.QuotedStaysOnLine | internal/agenthttp/app_process.go:74-77 | the quoted text has no raw line break |
| UnitContent.QuotedLineIff | internal/agenthttp/app_process.go:74-77 | the quoted text stays on its line exactly when the text has no NUL |
| UnitContent.ReadBackIff | internal/agenthttp/app_process.go:20-65 | joined lines are interpreted as themselves exactly when each is one line and none goes on |
| UnitFile.ExecStartArguments | internal/agenthttp/app_process.go:45-64 | the ExecStart line starts /bin/sh -lc with "exec " plus the command as its one argument, byte for byte |
| UnitContent.UnitHasNoExtraLines | internal/agenthttp/app_process.go:20-65 | systemd, which ends a line at a newline, a carriage return or a NUL and joins a line that ends in an odd number of backslashes with the next, interprets exactly the lines meant if and only if the command has no NUL and no other field has one of the three or ends so |
| UnitContent.UnitSays | internal/agenthttp/app_process.go:20-65 | then what systemd reads is, section by section, each setting with its value: description, directory, command, user if there is one, environment, and the memory limits, the higher for MemoryMax and three quarters of it for MemoryHigh |
| UnitContent.UnitStarts | internal/agenthttp/app_process.go:20-65 | in particular it starts /bin/sh -lc with "exec " plus the command as its one argument, and the limits are decimal forms of the numbers set |
| UnitFile.ShellRoundTrip | internal/agenthttp/app_process.go:67-69 | the shell reads the quoted text as one word equal to s (section 2.2.2 Single-Quotes, Shell Command Language, POSIX.1-2017) |
| SqlEscape.SequenceIsSimultaneous | internal/agenthttp/sqlinject.go:75-86 | the five replacements in sequence are one simultaneous substitution |
| SqlEscape.SanitizedRoundTrip | internal/agenthttp/sqlinject.go:74-86 | between quotes the text is one literal that ends at the closing quote and denotes the input without NULs |
| SqlEscape.SanitizedInjectiveIff | internal/agenthttp/sqlinject.go:74-86 | two inputs are confused exactly when they differ in NULs only |
| SqlEscape.OrderMatters | internal/agenthttp/sqlinject.go:76-84 | with line breaks replaced before backslashes the round trip fails |
| BotBlocker.Injected | internal/agenthttp/bot_blocker.go:306-329 | the block goes in front of the last closing brace; content with the text, or without a brace, stays as it is |
| BotBlocker.RemoveBlock | internal/agenthttp/bot_blocker.go:332-361 | the scanning loop removes from the marker past the first brace and all newlines after it |
| BotBlocker.MarkerIsBorderless | internal/agenthttp/bot_blocker.go:340-341 | no end of the marker is the beginning of another, so an injected marker cannot be found early |
| BotBlocker.RemoveUndoesInjectIff | internal/agenthttp/bot_blocker.go:306-361 | removing undoes injecting, byte for byte, exactly for contents that did not carry a block |
| BotBlocker.InjectIsIdempotent | internal/agenthttp/bot_blocker.go:314-317 | a second injection changes nothing |
| BotBlocker.RemovesIff | internal/agenthttp/bot_blocker.go:340-361 | removing takes something away exactly from contents that carry a block |
| BotBlocker.InjectedIntoLastBlock | internal/agenthttp/bot_blocker.go:319-328 | in a balanced file the block lands directly inside the last top-level block and leaves the braces balanced |
| BotBlocker.FailedEnableRestoresIff | internal/agenthttp/bot_blocker.go:67-88 | a failed enable leaves a file as it was exactly when it is not listed or did not carry a block; otherwise the block is gone |
| BotBlocker.Sites.Inject | internal/agenthttp/bot_blocker.go:306-329 | one file is injected, or nothing happens if it cannot be read |
| BotBlocker.Sites.Remove | internal/agenthttp/bot_blocker.go:332-361 | one file loses its block, or nothing happens if it cannot be read |
| BotBlocker.Sites.InjectEach | internal/agenthttp/bot_blocker.go:70-76 | the loop injects every listed file but the unnamed and the default one |
| BotBlocker.Sites.RemoveEach | internal/agenthttp/bot_blocker.go:82-86 | the rollback loop removes from every listed file but the unnamed one |
| BotBlocker.Sites.Enable | internal/agenthttp/bot_blocker.go:49-97 | success injects all, a failed test injects and then removes all and takes the map file away, a failed write changes nothing |
| Lsblk.Parse | internal/agenthttp/system_spec.go:430-460 | the loop terminates on every input and returns the last-wins map of the fields of the line |
| Lsblk.LastPairWins | internal/agenthttp/system_spec.go:430-460 | a key has the value of its last pair |
| Lsblk.FieldsIgnoreEnds | internal/agenthttp/system_spec.go:432-433 | white space at either end of a line does not matter |
| Lsblk.LineReadBack | internal/agenthttp/system_spec.go:430-460 | a printed line of quoted or bare values with any white space between them is read back as its pairs, in order, followed by what its tail gives |
| Lsblk.RoundTrip | internal/agenthttp/system_spec.go:430-460 | KEY="value" pairs followed by any white space are read back as their last-wins map |
| Lsblk.StrayTailIsDropped | internal/agenthttp/system_spec.go:434-437 | a tail without an equals sign, or with one in front, is dropped and disturbs nothing |
| Lsblk.UnclosedQuote | internal/agenthttp/system_spec.go:441-446 | a last value with no closing quote is read to the end of the line, less its trailing white space |

## Left out

- HTTP, JSON, permissions, audit, notifications, the SQL store, S3 download, `tar` extraction, and everything behind `store`, `executor` and `siteinput`: their outcomes are parameters or nondeterministic choices.
- `SIGARDAPANEL_DEV`: the bypass that switches both limiters off is not modelled.
- The clock is a nondecreasing integer in nanoseconds (seconds for terminal sessions).
- TokenBucket.RateLimiter.Allow: the floating-point refill is the exact quotient `elapsed * rate / interval`, rounded towards zero; what rounding of doubles adds is not modelled.
- TokenBucket.RateLimiter.Cleanup: that the cleaner wakes once a minute is not used; it may run at any time.
- Restore.RestoreBackup: requires that the site root, the staged path and the temporary directory lie apart (so the root has no trailing slash), that the parents exist, and that a root that is a symlink leads to something, and not into the archive: one that leads nowhere is not seen by `Stat`, so that nothing would be staged. `Stat` fails only where nothing is found; `LiveInstall` is about the other case. With an unknown owner the archive is installed as it is. Which visits and calls of the sanitizing walk fail is a parameter. Parents of the three places are not links, and link targets are taken as absolute paths.
- MovePath.CopyPath: a device or a pipe in the copied tree makes the copy fail when it is opened, which holds for sockets; reading the others, hard links, umask and denied permissions are not modelled. The order of a directory listing is a parameter; the calls of a copy are counted two to a directory and two to a file, finer interruptions are those of its last write.
- Leftovers.LosesOverIff: requires a live root, an extracted archive without special files and nothing stale under the staged name; with stale leftovers there `RestoreLoss.RestoreLosesIff` is what is proved.
- Leftovers.LeftoverLosesIff: requires what `Leftovers.LosesOverIff` does, and that no symlink on the disk and no path of the site names the staged directory.
- OpenClash.PlainLosesIff: requires what `Leftovers.LosesOverIff` does, and that the clashing links lead out of the three places, that the site has no special files, and that none that opens lies over a directory with entries; it says nothing about links into the site, such as those of `LinkExample` and `LaterLink`.
- OpenClash.BlockedLinksAreHarmless: requires what `Leftovers.LeftoverLosesIff` does, and that the clashing links lead out of the three places.
- RestoreLimits.ClosedLinksAreHarmless: requires that nothing stale is staged and that the clashing links lead out of the three places; without the latter it is false (`LaterLink.ThereIsOne`).
- LiveInstall.LiveSiteLosesIff: about a site root that is a directory and trees that are compatible; elsewhere a node of another kind stops the copy, at a point that depends on the listing order, and `LiveInstall.KeptUnlessContended` is what is proved.
- RestoreLimits.SecondRunKeepsIff: about second runs that open no link; runs that do are the subject of `RestoreLoss`.
- RestoreLimits.MessageIsTrueIff: about runs that opened no link.
- Sanitize.SanitizeTree: the walk visits the nodes in any order, not in lexical order.
- LoginFlow.Login: password, code and recovery checks are inputs; the account key arrives already trimmed and lower-cased; session creation after the reset is one outcome.
- ConcurrentLogin.FailureBound: about stretches strictly shorter than the window.
- SlidingWindow.LoginLimiter.Allow: that the attempts map stays small is not claimed; an emptied key goes away only when its address returns.
- SafePath.SafePath: symlink resolution is a fixed partial function during the call; roots are absolute, as the panel stores them. That a path could change between the check and its use is not modelled.
- BatchMove.MoveEntries: the tree has directories and files only, no symlinks; whether the system lets each rename through is a parameter; concurrent changes during the loop are not modelled.
- PtyPool.Pool.CleanIdleSessions: activity does not change during the pass, sessions are values in the map, and killing always succeeds; a session without any activity is never idle.
- ReplayBuffer.Session.Take: the result of the flush's websocket write is ignored by the code, so handed-over bytes count as sent; read errors end the reader and are not modelled.
- UnitFile.SystemdRoundTrip: the decoder handles quotes, one-character C escapes, `%%` and `$$`; numeric escapes, other specifiers and variables depend on the environment and are refused, which the quoted text never needs.
- UnitContent.UnitHasNoExtraLines: the 64-bit overflow of `memoryMaxMB * 3` is not modelled. A carriage return and a newline in a row count as two line ends here and as one for systemd, which makes no difference where there are none; that systemd drops the blanks in front of a line and, after a line that goes on, skips comments, makes none where no line goes on.
- UnitContent.UnitSays: about the text of each setting; that systemd drops blanks around it, and expands `%` in the description and the directories, is not modelled.
- SqlEscape.SanitizedRoundTrip: the reader is that of MySQL-style literals, with backslash escapes and doubled quotes.
- BotBlocker.Sites.Enable: writing a file and removing the map file always succeed; a file that cannot be read is a missing one; the `nginx` reload is left out.
- Lsblk.RoundTrip: strings are sequences of characters; invalid UTF-8 in the printed line is not modelled.
- Roles, tiers, port suggestion, metrics, baseline diffs, tickets, virtual host writing, `sanitizePHPIni` and the mail manager's stubs would add easy members only.
