# kdive, verified in Dafny

A model of four parts of kdive, each with what its code keeps true for every input or every run.

**The remote module appliance** (`Protocol.dfy`, `Appliance.dfy`, over `ModuleTree.dfy` and `Checkpoint.dfy`).
The appliance replaces a kernel module tree on a guest disk and can put the old one back. All its
progress is in five durable places: the destination, the staging directory, the displaced tree, the
captured copy and one checkpoint record. `Appliance` runs `capture_install` and `restore` one durable
step at a time. A `Fate` cuts a run off inside any step, by a crash or an I/O error, and says what the
step leaves behind: part of a copy, or a tree removal torn in half. Every disk state there ever is goes
into `history`, and `Valid` says that each of them satisfies the invariant `Inv` and each step `Step`.
The operations make no assumption about the disk they start from; their promises hold for every disk
that earlier runs can have left.

**The streaming upload validator** (`RangedReader.dfy`, `TarGuard.dfy`, `BannerScan.dfy`, `MagicScan.dfy`,
`KernelDecode.dfy`, `IntervalMeter.dfy`, `ElfNotes.dfy`, `ArchiveScan.dfy`). Each chunked or buffered
form is proved to give what one look at the whole object would give.

**Module manifests** (`TreeWalk.dfy`). The worklist walk of the appliance is proved against an order-free
meaning of a manifest, and `ArchiveScan.dfy` shows that the validator computes the same manifest from tar
members.

**The initramfs writer and the heading anchors** (`Newc.dfy`, `Anchors.dfy`).

`Bytes.dfy`, `Limits.dfy`, `Order.dfy` and `Wrappers.dfy` hold what several of them share.

## What does not hold

Some things one would expect of the code are false; each is stated with the condition under which it
does hold.

- A rerun with the same inputs completes an interrupted operation exactly when no tree removal was
  torn (`Torn`) and, for a restore, no run stopped between making the staging directory and recording `restore-ready`
  (`RestoreStaging`). In those windows the operation fails; nothing is lost, but nothing
  moves on: `TornStrands`, `Strand`, `ReturningCompletes`, and the if-and-only-if clauses of
  `TransitionReplacement`, `FinishInstalled`, `CaptureInstall`, `Restore` and `RestoreConverges`.
  `TornInstall`, `TornRestore` and `CutRestore` lead into the windows.
- A restore document that says `capture_absent` is believed without looking at the checkpoint. The
  original comes back exactly when the document names the capture the install reported:
  `RestoreExactIff`, with an instance in `AbsentIsBelieved`.
- `copytree` does not keep ownership, so a tree within the limits can be captured exactly when root owns
  all of it:
  `CopyIsFaithful`, `CaptureOriginal`.
- A boot member of exactly the byte bound is searched without the closing NUL. It gets its release
  exactly when it holds a complete banner or does not end in one: `EndMatters`, `BootRelease`, with
  members that lose theirs in `UnterminatedMember`.
- A boot that cannot read its operation document replaces the record by one without identity. From then
  on no operation is accepted for the disk, whatever phase it had reached: `Boot`, `SealedInstall`,
  and the `Sealed` clause of `RunKeepsProgress`.
- An initramfs file or directory called `TRAILER!!!` ends the archive for every reader: `CompleteIff`,
  `TrailerFreeIff`. The runtime collector takes only `init` and files below `usr/bin`, `sbin`, `lib`,
  `lib64`, `usr/lib` and `usr/lib64`, so it never makes one.

## Model

| member | source | states |
|---|---|---|
| ModuleTree.NormalizedKeepsSource | deploy/remote_module_appliance/appliance.py:353-397 | normalising a staged copy keeps its entry count, its bytes and everything its source manifest records |
| ModuleTree.AsRootFixed | deploy/remote_module_appliance/appliance.py:400-423 | the copy of a tree made by root equals it if and only if root owns every entry |
| ModuleTree.CopyIsFaithful | deploy/remote_module_appliance/appliance.py:410-423 | the closing manifest comparison passes for every source copy, and for any other copy if and only if root owns the tree, which is then copied exactly |
| Checkpoint.IdentityInjective | deploy/remote_module_appliance/appliance.py:525-539 | two operations with equal identity members are the same operation |
| Checkpoint.RecordRoundTrip | deploy/remote_module_appliance/appliance.py:542-629 | every record written is accepted for its own identity and refused with IDENTITY_MISMATCH for every other one |
| Checkpoint.EncodeInjective | deploy/remote_module_appliance/appliance.py:542-551 | the members of the file determine the record: nothing is lost in it |
| Checkpoint.FailureKeepsRecord | deploy/remote_module_appliance/appliance.py:1126-1147 | a failure record changes only status and error code, is accepted again for the same identity, and is not written over a foreign record |
| Protocol.InvIsSafe | deploy/remote_module_appliance/appliance.py:762-997 | a disk in the invariant is safe: the destination is the original, the installed tree or absent; untouched through staging-intent; the capture is the original from the captured record on; the installed tree is whole until the restored record |
| Protocol.RunKeepsProgress | deploy/remote_module_appliance/appliance.py:877-997 | over any run with any crashes and restarts the phase never goes back, the capture never changes once recorded, the recorded installed tree stays the same, and a sealed record stays sealed with the trees untouched |
| Protocol.NothingLost | deploy/remote_module_appliance/appliance.py:746-997 | at every instant of every run the trees on the disk are those of a safe disk of that run, the same instant unless a boot without a document sealed the record |
| Protocol.SafeThroughout | deploy/remote_module_appliance/appliance.py:746-997 | every instant of a run before sealing is safe |
| Protocol.SwapPlanned | deploy/remote_module_appliance/appliance.py:762-791 | from every replacement-ready disk the manifests single out the right place to go on: the original is moved aside only while it stands untouched |
| Protocol.RestorePlanned | deploy/remote_module_appliance/appliance.py:960-977 | the same for every restore-ready disk and every document, and the branch that moves the installed tree aside is taken only when the staged tree is the one asked for |
| Protocol.InstallReports | deploy/remote_module_appliance/appliance.py:804-813 | a finished install records the manifests a truthful restore document needs |
| Protocol.ReturningCompletes | deploy/remote_module_appliance/appliance.py:933-997 | a truthful restore completes if and only if no removal was torn and no run stopped in the staging window |
| Protocol.TornStrands | deploy/remote_module_appliance/appliance.py:732-743 | after a torn removal neither an install nor a restore that names the recorded installed tree completes |
| Protocol.RestoreExactIff | deploy/remote_module_appliance/appliance.py:942-950 | a completed restore put the original back if and only if its document names the capture the install reported |
| ApplianceRuns.Appliance.RemoveEmptyStage | deploy/remote_module_appliance/appliance.py:732-743 | only a staging directory that holds just lib/modules goes; a torn removal leaves part of it; anything else is a conflict that changes nothing |
| ApplianceRuns.Appliance.RemoveDisplaced | deploy/remote_module_appliance/appliance.py:338-350 | the displaced tree goes, or a torn removal leaves exactly its surviving entries; nothing else changes, and an untorn cut changes nothing |
| ApplianceRuns.Appliance.SwapTrees | deploy/remote_module_appliance/appliance.py:762-803 | from wherever the last run stopped the replacement ends up in place with the original beside it; undisturbed, this succeeds if and only if no removal was torn |
| ApplianceRuns.Appliance.TransitionReplacement | deploy/remote_module_appliance/appliance.py:762-813 | completes the install of every replacement-ready disk an undisturbed run finds, if and only if it is not torn; a torn disk stays as it was; from the moment nothing has moved it ends torn exactly for the cuts TearsSwap names |
| ApplianceRuns.Appliance.FinishInstalled | deploy/remote_module_appliance/appliance.py:816-841 | a rerun after the installed record clears what is left, completes if and only if nothing is torn and the staging directory holds no tree, and changes no tree of a finished install |
| ApplianceRuns.Appliance.CaptureOriginal | deploy/remote_module_appliance/appliance.py:886-900 | the captured record is written only with an exact copy in place; an undisturbed run gets there if and only if the original fits the limits and root owns it |
| ApplianceRuns.Appliance.BuildStage | deploy/remote_module_appliance/appliance.py:915-920 | staging touches nothing but the staging directory and ends with the indexed tree in a clean one |
| ApplianceRuns.Appliance.StageReplacement | deploy/remote_module_appliance/appliance.py:908-929 | replacement-ready records exactly the tree that was staged; a failure leaves the phase at captured or staging-intent |
| ApplianceRuns.Appliance.CaptureInstall | deploy/remote_module_appliance/appliance.py:877-930 | from every reachable disk: keeps the protocol at every step, touches nothing under a foreign record or on a torn disk, completes undisturbed if and only if InstallCompletes, puts the indexed tree in place, never tears what it does not tear itself, and leaves a finished install alone |
| ApplianceRuns.Appliance.StageRestore | deploy/remote_module_appliance/appliance.py:951-959 | restore-ready is recorded only with the captured tree staged and the installed tree still in place; from a finished install the run stops in the staging window exactly when it is cut off in one of its first three steps, unless that is the first and nothing was made yet |
| ApplianceRuns.Appliance.MoveBack | deploy/remote_module_appliance/appliance.py:960-984 | from wherever the last run stopped the target ends up in place with the installed tree beside it; undisturbed, this succeeds if and only if the document agrees with the record and nothing is torn |
| ApplianceRuns.Appliance.FinishRestore | deploy/remote_module_appliance/appliance.py:990-997 | the installed tree is dropped only under a restored record, the result is recorded, and the disk ends torn exactly when the removal of the installed tree was torn |
| ApplianceRuns.Appliance.Restore | deploy/remote_module_appliance/appliance.py:933-997 | for every document and every reachable disk: keeps the protocol at every step, completes undisturbed if and only if RestoreCompletes, ends with exactly the tree the document asks for, and from a finished install enters the staging window or ends torn exactly for the cuts CutsStaging and TearsReturn name |
| ApplianceRuns.Appliance.WriteFailure | deploy/remote_module_appliance/appliance.py:1126-1147 | changes nothing but the failure of the record, and nothing at all under a foreign one |
| ApplianceRuns.Appliance.Boot | deploy/remote_module_appliance/appliance.py:1126-1207 | one boot and any late failure reports: without a document it seals the record and moves nothing; with one it keeps the protocol, fails and changes nothing under a foreign record, succeeds undisturbed if and only if InstallCompletes or RestoreCompletes held before, and a torn disk keeps its trees and stays torn under every truthful document |
| ApplianceRuns.Appliance.Serve | deploy/remote_module_appliance/appliance.py:1182-1207 | any number of boots with any documents and fates: the history only grows, every instant of it is safe, and nothing is torn unless a boot tears it |
| ApplianceRuns.InstallConverges | deploy/remote_module_appliance/appliance.py:877-930 | for a tree that can be captured: after any boots of one install, cut off anywhere without tearing a removal and reporting any failures, one undisturbed boot ends in phase installed with the recorded tree in place and staging and displaced gone |
| ApplianceRuns.RestoreConverges | deploy/remote_module_appliance/appliance.py:933-997 | install then restore is the identity: after any restore boots with the reported manifests that tear no removal, one undisturbed boot puts the original back, absent included, except exactly when there is a captured tree and the first boot that begins to stage it is cut off before restore-ready is on record; then the installed tree stays |
| ApplianceRuns.InstallThenRestore | deploy/remote_module_appliance/appliance.py:877-997 | the whole life of an operation: any interrupted installs, a smooth one, any interrupted restores and an undisturbed one, none tearing a removal, bring the original back, except exactly when the restores cut off the staging of a captured tree |
| ApplianceRuns.Strand | deploy/remote_module_appliance/appliance.py:732-997 | a torn disk keeps all its trees, its record up to failure reports, and stays torn through any boots with truthful documents |
| ApplianceRuns.TornInstall | deploy/remote_module_appliance/appliance.py:732-803 | after a first install with any fate and any reruns that tear nothing, a smooth boot fails, on a torn disk, if and only if the first run tore the removal of the staging directory or left part of the original |
| ApplianceRuns.TornRestore | deploy/remote_module_appliance/appliance.py:933-997 | after a restore with any fate, an undisturbed one fails if and only if the first tore the removal of the staging directory, left part of the installed tree, or was cut off while staging a captured tree; otherwise the original is back |
| ApplianceRuns.CutRestore | deploy/remote_module_appliance/appliance.py:951-959 | every restore of a captured tree has steps in which a cut strands it: the next undisturbed restore fails and the installed tree stays |
| ApplianceRuns.SealedInstall | deploy/remote_module_appliance/appliance.py:1126-1147 | a boot without a document after a finished install leaves its trees in place, and from then on every boot with a document fails |
| ApplianceRuns.AbsentIsBelieved | deploy/remote_module_appliance/appliance.py:942-997 | after an install over any tree that can be captured a restore that says absent succeeds and leaves nothing at the destination |
| TreeWalk.BelowPlaced | deploy/remote_module_appliance/appliance.py:284-327 | in a real directory tree no two entries share a path and each is there once |
| TreeWalk.JoinInjective | deploy/remote_module_appliance/appliance.py:214-218 | a relative path text determines its components |
| TreeWalk.ListingOrder | deploy/remote_module_appliance/appliance.py:297-303 | the order in which a directory lists its children makes no difference |
| TreeWalk.ManifestIsUnique | deploy/remote_module_appliance/appliance.py:327-335 | a tree has one manifest |
| TreeWalk.VisitKeeps | deploy/remote_module_appliance/appliance.py:306-326 | one step of the walk keeps the tally exact, or proves the whole tree unacceptable, with LIMIT_EXCEEDED the only answer for a tree that can be listed |
| TreeWalk.ScanDirectory | deploy/remote_module_appliance/appliance.py:293-326 | scanning a directory visits each child once and leaves exactly the subtrees on the worklist |
| TreeWalk.WalkTree | deploy/remote_module_appliance/appliance.py:284-335 | terminates, accepts exactly the acceptable trees, refuses a tree that can be listed only for its size, lists every entry once in path order, and reports the exact entry count and content bytes |
| TreeWalk.RecoveryIsInstalled | deploy/remote_module_appliance/appliance.py:221-222 | a recovery manifest lists what an installed manifest lists |
| TreeWalk.SourceOfInstalled | deploy/remote_module_appliance/appliance.py:221-281 | the source manifest of a tree is determined by its installed manifest: modes normalised, owners and attributes dropped, back references skipped |
| TreeWalk.ManifestMeasures | deploy/remote_module_appliance/appliance.py:284-335 | an installed manifest has one entry for every item below the root, and its content and attribute bytes are those of the tree |
| TreeWalk.ProtocolManifest | deploy/remote_module_appliance/appliance.py:211-335 | for a tree that can be listed the walk of any kind answers exactly what the protocol computes from its installed manifest: digest, counts, and the refusal of a tree over the limits |
| ArchiveScan.BytesConserved | src/kdive/build_artifacts/validation.py:759-786 | archive bytes are the sizes of all regular members, and kernel bytes plus module bytes, within the limit |
| ArchiveScan.PathsDiffer | src/kdive/build_artifacts/validation.py:755-758 | every member has a canonical path and no two have the same |
| ArchiveScan.MembersPlaced | src/kdive/build_artifacts/validation.py:766-790 | the kernel is a regular file of the recorded size; everything else is a module ancestor or belongs to a recorded release and can be listed |
| ArchiveScan.EntriesContributed | src/kdive/build_artifacts/validation.py:778-790 | the entries are those of the module members, no more and no less |
| ArchiveScan.EntriesDiffer | src/kdive/build_artifacts/validation.py:799-810 | below one release no two entries have the same path |
| ArchiveScan.BelongingIsScanned | src/kdive/build_artifacts/validation.py:748-790 | no member that belongs to a bundle of one release stops the scan, in whatever order they come |
| ArchiveScan.ScanArchive | src/kdive/build_artifacts/validation.py:725-830 | accepts exactly the bundles with distinct canonical paths within the limits, one kernel, one release shared by kernel and modules, at least one listed module and directories above every listed path; the summary has the exact sizes and the module entries in path order |
| ArchiveScan.AncestorIsDir | src/kdive/build_artifacts/validation.py:944-957 | a listed ancestor of a listed module path is a directory |
| ArchiveScan.RootedIsTopology | src/kdive/build_artifacts/validation.py:944-957 | the topology check passes when every listed ancestor of a listed path is a directory |
| ArchiveScan.EntriesAgree | src/kdive/build_artifacts/validation.py:902-941 | where validator and appliance both accept a file, directory or link they record the same entry |
| ArchiveScan.ManifestsAgree | src/kdive/build_artifacts/validation.py:833-838 | for a bundle that packs a tree, members in any order, wherever both sides accept the validator's source manifest is the one the appliance computes |
| ArchiveScan.BundleMatchesTree | src/kdive/build_artifacts/validation.py:725-838 | for a bundle that packs a tree, when the bundle scan and the tree walk both accept, the two source digests are equal |
| RangedReader.Store.GetRange | src/kdive/build_artifacts/validation.py:305-307 | the store returns bytes of the object from the start asked for; a faithful one as many as asked |
| RangedReader.ObjectDigest.Observe | src/kdive/build_artifacts/validation.py:541-550 | whatever range of the object arrives, the hashed bytes stay a prefix of the object, extended exactly by what continues it |
| RangedReader.ObjectDigest.Drain | src/kdive/build_artifacts/validation.py:552-561 | terminates; on success everything up to the size is hashed, and a faithful store that holds it all always succeeds |
| RangedReader.ObjectDigest.Value | src/kdive/build_artifacts/validation.py:563-566 | the digest of all bytes, or a failure exactly when some are missing |
| RangedReader.Reader.Read | src/kdive/build_artifacts/validation.py:586-623 | always a prefix of what a plain file would return, all of it over a faithful store; an overlong reply is refused with the position unchanged |
| RangedReader.Reader.Seek | src/kdive/build_artifacts/validation.py:631-646 | the position of a plain file, or an error exactly where that would be negative or the origin unsupported |
| RangedReader.Reader.Drive | src/kdive/build_artifacts/validation.py:569-646 | any sequence of reads, seeks and tells keeps buffer and observer exact; over any store each answer is the plain one at its position, a read perhaps cut short; over a faithful store all answers are those of a plain file |
| RangedReader.BundleDigest | src/kdive/build_artifacts/validation.py:437-473 | whatever reads come in between, the bundle digest is that of the whole object |
| TarGuard.WalkIsFramed | src/kdive/build_artifacts/validation.py:686-722 | what may be released is whole members within every limit, then the end or one zero block; a stream that ends inside a member is released whole exactly when that member and all before it are within every limit; any other refusal comes before a header that is cut short, does not parse or breaks the limit it is refused for |
| TarGuard.FramedIsWalked | src/kdive/build_artifacts/validation.py:686-722 | a stream of whole members within the limits is released whole, a zero block ends it, and every fault is reported where it stands and as what it is |
| TarGuard.Guard.NextHeader | src/kdive/build_artifacts/validation.py:686-721 | a header is accepted or refused exactly as the walk over the whole stream says |
| TarGuard.Guard.Read | src/kdive/build_artifacts/validation.py:667-722 | bytes come out in order and never past the extent; end and failures come exactly where the extent ends |
| TarGuard.Guard.ReadAll | src/kdive/build_artifacts/validation.py:649-722 | whatever read sizes drive it, the concatenated output and the final verdict are the same |
| BannerScan.ReleaseMeans | src/kdive/build_artifacts/validation.py:1321-1332 | a scan returns the token of the leftmost complete banner, and None exactly when there is none |
| BannerScan.BannersNest | src/kdive/build_artifacts/validation.py:83-93 | a banner that starts later also ends later |
| BannerScan.PrefixSettles | src/kdive/build_artifacts/validation.py:1029-1032 | a release found in a prefix is the release of the whole |
| BannerScan.WindowSuffices | src/kdive/build_artifacts/validation.py:91-93 | an overlap of marker, longest token and terminator is enough to miss no banner |
| BannerScan.EndMatters | src/kdive/build_artifacts/validation.py:1021-1026 | a closing NUL changes the result exactly for data without a complete banner that ends in a marker and an unterminated release |
| BannerScan.BootRelease | src/kdive/build_artifacts/validation.py:1013-1035 | for every split into chunks a member below the bound gets the release of one search over it and a NUL; at or past the bound, of the part read; at the bound that is the same exactly when the member holds a complete banner or does not end in one |
| BannerScan.UnterminatedMember | src/kdive/build_artifacts/validation.py:1013-1035 | a member of zeros, a marker and one release byte at its end yields that release below the byte bound and none from the bound on |
| MagicScan.OccurrencesAreExact | src/kdive/build_artifacts/validation.py:1082-1103 | the reference list is exactly the set of occurrences, strictly ascending |
| MagicScan.SearchWindow | src/kdive/build_artifacts/validation.py:1091-1101 | a hit in the data in hand is the next offset in the list; a miss leaves none that ends there |
| MagicScan.ScanOn | src/kdive/build_artifacts/validation.py:1102-1103 | carrying on the last bytes short of a magic loses and repeats nothing |
| MagicScan.Offsets.Next | src/kdive/build_artifacts/validation.py:1082-1103 | yields the occurrences one by one, overlapping and straddling ones included, wherever the consumer leaves the file; stops at the end, and refuses at the 65th |
| KernelDecode.VerdictMeans | src/kdive/build_artifacts/validation.py:1047-1079 | an image is the output of the first candidate that is an ELF; at most 64 are tried, all within one budget; each other verdict has its exact cause; a decoder may answer differently for different budgets |
| KernelDecode.CopyKernelBounded | src/kdive/build_artifacts/validation.py:1111-1124 | all output within the budget is written and charged; output beyond it is always refused |
| KernelDecode.CopyFrameBounded | src/kdive/build_artifacts/validation.py:1137-1186 | the same for a decoder that reports its own end and may answer with nothing in between |
| KernelDecode.TryCandidate | src/kdive/build_artifacts/validation.py:1063-1075 | a failed candidate leaves the output file empty and the budget charged with exactly what it produced |
| KernelDecode.TryFormat | src/kdive/build_artifacts/validation.py:1055-1075 | all occurrences of one magic are tried in offset order |
| KernelDecode.DecodedKernel | src/kdive/build_artifacts/validation.py:1038-1079 | for x86_64 the verdict is that of trying all candidates, in format then offset order, under one budget; for ppc64le the image is the member itself, refused exactly over the budget |
| IntervalMeter.CoveredIff | src/kdive/build_artifacts/validation.py:1217-1225 | an offset is covered if and only if some interval holds it |
| IntervalMeter.SweepNext | src/kdive/build_artifacts/validation.py:1220-1224 | one step of the sweep adds exactly the offsets not covered before |
| IntervalMeter.IntervalBytes | src/kdive/build_artifacts/validation.py:1217-1225 | for intervals in any order the result is the number of distinct covered offsets |
| IntervalMeter.BoundedReader.Read | src/kdive/build_artifacts/validation.py:1195-1210 | returns exactly the bytes asked for, never lets the distinct bytes read pass the limit, and fails exactly past the end, over the limit or where the source is short, without changing the meter |
| IntervalMeter.BoundedReader.MeasuredBytes | src/kdive/build_artifacts/validation.py:1212-1214 | the distinct bytes read so far, at most the limit |
| ElfNotes.ParseGnuBuildId | src/kdive/build_artifacts/validation.py:336-357 | terminates with the first build ID among the notes that fit |
| ElfNotes.GnuBuildIds | src/kdive/build_artifacts/validation.py:1345-1359 | terminates with all build IDs, or refuses exactly when a note does not fit |
| ElfNotes.ParsersAgree | src/kdive/build_artifacts/validation.py:336-357 | the first build ID is in the set, and is missing exactly when the set is empty |
| ElfNotes.BuildIdsAre | src/kdive/build_artifacts/validation.py:1356-1357 | the set holds exactly the descriptors of GNU build-ID notes |
| ElfNotes.EncodingRoundTrip | src/kdive/build_artifacts/validation.py:1348-1358 | reading back any encoded list of notes gives that list |
| ElfNotes.BothParsers | src/kdive/build_artifacts/validation.py:1345-1359 | side by side on any segment the parsers agree wherever the strict one accepts, and both invert the encoding |
| Newc.HexRoundTrip | deploy/remote_module_appliance/build_image.py:86 | a header field is read back as the number it was written for |
| Newc.EntryLength | deploy/remote_module_appliance/build_image.py:86-89 | every entry is a multiple of four bytes long |
| Newc.EntryReadBack | deploy/remote_module_appliance/build_image.py:69-89 | an entry at an aligned place is read back whole |
| Newc.ArchiveRoundTrip | deploy/remote_module_appliance/build_image.py:99-131 | reading an archive gives its entries up to the first called like the trailer |
| Newc.CompleteIff | deploy/remote_module_appliance/build_image.py:122-129 | nothing is lost if and only if no entry is called TRAILER!!! |
| Newc.TrailerFreeIff | deploy/remote_module_appliance/build_image.py:122-129 | the reader gets every entry back if and only if no file and no directory of the input is called TRAILER!!! |
| Newc.CollectDirectories | deploy/remote_module_appliance/build_image.py:93-98 | the directories are exactly the ancestors of the files |
| Newc.SortedNames | deploy/remote_module_appliance/build_image.py:101 | all directories, each once, in strict name order |
| Newc.SortFiles | deploy/remote_module_appliance/build_image.py:112 | a permutation of the files in order of name, data and mode |
| Newc.NormalIsFixed | deploy/remote_module_appliance/build_image.py:95 | the normal form of a name, as pathlib reads it, is its own normal form |
| Newc.DirectoriesClosed | deploy/remote_module_appliance/build_image.py:94-98 | the parent of every directory and file is a directory of the archive |
| Newc.Initramfs | deploy/remote_module_appliance/build_image.py:92-131 | for any relative names and any modes the output is a multiple of 512 bytes and the reader recovers directories and files with modes, data and consecutive inode numbers: all of them if and only if nothing in the input is called like the trailer |
| Newc.ParentsFirst | deploy/remote_module_appliance/build_image.py:101-121 | the parent of the path of every entry is a directory entry before it with a smaller inode number |
| Anchors.DecimalInjective | scripts/check_doc_anchors.py:56 | different numbers have different suffixes |
| Anchors.PickIsUnique | scripts/check_doc_anchors.py:52-58 | which name a heading gets is determined by the names taken, and is none of them |
| Anchors.AheadShrinks | scripts/check_doc_anchors.py:54-56 | counting up passes finitely many taken names, so the loop ends |
| Anchors.Slugger.Unique | scripts/check_doc_anchors.py:52-58 | terminates with the base or the base with the least free number, and takes exactly that name |
| Anchors.PickedDiffer | scripts/check_doc_anchors.py:71-88 | no two headings of a document get the same anchor |
| Anchors.PickedOnce | scripts/check_doc_anchors.py:71-88 | the anchors depend on the slugs alone |
| Anchors.UniqueAll | scripts/check_doc_anchors.py:71-88 | successive calls give pairwise different names, each the pick among those before it |

## Left out

- Mounting, root discovery, module path lookup through `lib`, console progress, fsync, power-off and the depmod process: a step succeeds, fails or is cut off; what depmod makes of the staged copy is an input.
- A rename, a checkpoint replacement and a completed copy are durable once done; the temporary file of the checkpoint writer and the empty `capture-absent` marker, which nothing reads, are not modelled.
- JSON text, canonical bytes and the 16 KiB document limit: a checkpoint file is the object it holds.
- `_validate_operation`: documents come already validated; their digests may be those of any tree.
- Special files in the protocol: a tree on the disk is what its manifests record; `TreeWalk` models the refusal of special files, bad names and escaping links.
- Unicode: the text test of a manifest is a parameter, and the attribute limit counts the characters of attribute names, where the appliance counts their UTF-8 bytes.
- SHA-256: a digest is a constructor over what it covers, so it has no collisions.
- gzip, bzip2, xz, zstd and tar header parsing: a decoder is what it returns for a candidate and a budget, a header parser yields an extension flag and a natural number; negative sizes in base-256 headers are not modelled.
- TarGuard.Guard.Read: the source returns as many bytes as asked for unless it ends, as a gzip file does.
- BannerScan.BootRelease: the x86 boot header branch is not modelled.
- Newc.Initramfs: names are relative, because the loop over the parents of an absolute name never ends, and all header fields fit 32 bits, because a wider number does not fit the format.
- ELF program and section headers, `extract_build_id_ranged`, the bounded first scan of the bundle and the staged debuginfo manifest: single-pass checks.
- Fences, front matter, slugs and explicit anchors of the document checker: regular expressions over lines.
- Coverage contracts, evidence schemas, host driving, the database, the command line and the live-stack scripts.
