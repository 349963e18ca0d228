# Verified models of the ChromiumOS Bazel build tools

These Dafny modules model the parts of the repository in which state, order or
arithmetic is intricate, and prove what those parts are relied on for.
`dafny verify dfyconfig.toml` checks all of them.

**File trees and overlays.** `FileTree.dfy` defines a tree as a map from path to node
(file, directory, symlink, whiteout or other special file, with mode and extended
attributes). `Overlay.dfy` has the overlay merge of one tree onto another and, as an
independent reference, the kernel's lookup of one path through a list of layers;
`OverlayLayers.dfy` says from the layers alone what a mounted chunk makes of a path.
`Mounts.dfy` is `mount_overlayfs` with its two levels of mounts. `DurableTree.dfy`,
`DurableTreeDisk.dfy` and `DurableTreeRuns.dfy` are durable trees: the pure account of
what conversion strips and expansion restores, the class whose methods work on the
directory in place, and runs in which Bazel forgets metadata in between and several
processes expand at once. `Container.dfy` is the layer list of a container, built by
pushing archives, directories and durable trees.

**Name resolution.** `CleanPath.dfy` models pathname resolution with symlinks
(POSIX.1-2017 Base Definitions, section 4.13) and the cleaning of paths against it.
`RepositoryLookup.dfy` is the depth-first search over overlay repositories, and the
graph its order is measured against.

**fakefs.** `Ownership.dfy` models the fake owner of files: the operations of the
tracer, the preloaded library that answers some calls without it, and whole runs of
both. `Tracer.dfy` has the ptrace event loop as a step machine (`TracerModel`), with the
kernel's promises about stop events as its environment, and as classes (`Tracer`) that
refine it.

**Compact algorithms.** `BashWords.dfy` and `BashVars.dfy` (the output of `set` in
bash, as the parser reads it), `BashMeaning.dfy` (what quoting means there),
`ElfAnalyzer.dfy` (dependency closure in place), `ParamFile.dfy` (parameter files),
`Xpak.dfy` (the trailer of binary packages, writer and reader), `AuditLog.dfy` (the access
log of auditfuse, writer and reader), `CrosWorkon.dfy` (tree hashes of cros-workon
packages) and `SimpleVersion.dfy` (version tokens, Package Manager Specification, section
12.3.14). `NulList.dfy`, `Decimal.dfy`, `StringOrder.dfy`, `Utf8.dfy` and `Wrappers.dfy`
are shared.

Code that works in place is a class or a method with loops, whose contract ties the new
state to a function of the old one; the lemmas are about those functions.

## Where the code and what is expected of it part

The model follows the code. Each case comes with inputs that show it and with the exact
condition, for all inputs, under which the code does what is expected.

- Stacking one overlay mount on others is not the same as one flat mount. It never loses
  a path, but it brings back each path that a chunk of layers forgets about
  (`Overlay.StackedEqualsFlatExactly`). When that is can be read off the layers: the
  uppermost layer of a chunk that has to do with the path hides it by a whiteout, or by a
  non-directory that a directory above it in the chunk makes up for
  (`OverlayLayers.StackedEqualsFlatByLayers`, with `Overlay.WhiteoutAcrossChunks` and
  `Overlay.DirOverFileOverDir` as the two kinds of input).
- Two archives unpacked into one directory are not the same as two layers when the second
  has no entry for a directory that the first gave another mode; otherwise they are
  (`Container.SharedLooksLikeTwoExactly`, `Container.ImpliedDirDiffers`).
- `clean_path` drops a trailing `.` or slash, which POSIX resolves only on a directory.
  The cleaned path means the same unless it names something that is no directory and
  such a tail was dropped (`CleanPath.CleanedMeansTheSame`, `CleanPath.TrailingDotIsLost`).
- `create_repository_set` unwraps the position of the requested name. It panics exactly
  when a private repository is requested that does not exist but that its public part
  reaches as a companion (`RepositoryLookup.RepositoryLookup.CreateRepositorySet`,
  `RepositoryLookup.SelfMasterPanics`).
- `Fchown` of fakefs compares the wanted pair with what stat shows, override included.
  Repeating a chown takes the override away and shows the owner on disk again
  (`Ownership.FakeFs.Fchown`, `Ownership.ChownTwiceShowsDisk`).
- The preloaded library and the tracer disagree exactly as `Ownership.Diverges` says
  (`Ownership.StepExactly`, and `Ownership.InvisibleExactly` for whole runs). Where the
  tracer reaches the file that the process means, these are all the cases
  (`Ownership.DivergesExactlyWhen`). The library binds `lremovexattr` to `removexattr`
  (`fakefs_preload.c`, line 31), so an `lchown` by path of a symlink clears the override of
  the file it points to (`Ownership.LchownClearsTarget`). An id of 2^31 or more reads as
  "keep" in the tracer only (`Ownership.LargeIdMeansKeep`). For `AT_FDCWD` with an empty
  path the library looks for the override of descriptor -100, finds none, and shows the
  owner on disk of the working directory (`Ownership.WorkingDirectoryShowsDisk`). A chown
  to the owner on disk succeeds in the library and fails in the tracer for an own file that
  cannot keep or show an override, be it on a file system without user xattrs or without
  read permission (`Ownership.NoXattrsFailsInTracer`), and the other way round for somebody
  else's file that everybody may write (`Ownership.ForeignFileFailsInLibrary`). And the
  tracer resolves a path like `/proc/self/fd/5` in a chown, or `/dev/fd/5`, in its own
  process (`Ownership.TracerChownsItsOwn`).
- A backslash in double quotes stands for itself in POSIX unless one of `$`, backquote,
  `"`, backslash and newline follows, and an escaped newline disappears. The parser always
  drops the backslash and keeps the newline. And an octal escape in `$'...'` is a byte to
  bash, but a character to the parser, so text that is not ASCII comes out wrong where bash
  prints it in octal. A word is read as it is meant exactly if it has no such escape and no
  octal escape above 0177 (`BashMeaning.WordReadsItsMeaning`,
  `BashMeaning.BackslashInDoubleIsLost`, `BashMeaning.EscapedNewlineIsKept`,
  `BashMeaning.OctalBytesAreNoChars`).
- An associative array of bash whose keys are all integers below 1000, or that is empty,
  is read as an indexed array (`BashVars.AssociativeExactly`,
  `BashVars.NumericKeysCollapse`).
- Two concurrent reports of one path can be written twice (`AuditLog.WrittenTwice`). It
  happens exactly if some report checks for the entry while another one that found it
  missing has not yet appended it (`AuditLog.RepeatedExactly`).

## Model

| member | source | states |
|---|---|---|
| Overlay.StackIsLookup | portage/common/container/src/mounts.rs:196-201 | merging layers bottom to top gives at each path exactly what a kernel that walks the layers from the top finds: the uppermost entry not hidden by a whiteout or a non-directory |
| Overlay.StackAppend | portage/common/container/src/mounts.rs:173-222 | stacking a concatenation is stacking its parts one after the other |
| Overlay.StackDecomposes | portage/common/container/src/mounts.rs:173-222 | layers on a base: what they show by themselves wins, what they forget about is gone, everything else is the base's |
| Overlay.StackedAtPath | portage/common/container/src/mounts.rs:173-222 | path by path, the stacked mount shows what the flat one shows, and besides that exactly the resurrected paths |
| Overlay.StackedEqualsFlatExactly | portage/common/container/src/mounts.rs:173-222 | for any chunks, merging the merged chunks equals merging all layers in order if and only if no path is resurrected |
| Overlay.NothingHiddenStacks | portage/common/container/src/mounts.rs:173-222 | if, in no chunk of several layers, something on the way to a path shown by the chunks below is a whiteout, or a non-directory that a later layer of the chunk turns into a directory, the stacked mount equals the flat one |
| Overlay.ConservativeChunksStack | portage/common/container/src/mounts.rs:173-222 | in particular this holds if no mounted chunk has a whiteout or has a path that is a directory in one of its layers and something else in another |
| Overlay.WhiteoutAcrossChunks | portage/common/container/src/mounts.rs:173-222 | a whiteout whose target lies in an earlier chunk: the stacked mount shows a file that the flat one has deleted |
| Overlay.DirOverFileOverDir | portage/common/container/src/mounts.rs:173-222 | a directory over a file over a directory: the stacked mount shows old contents again |
| OverlayLayers.FateIsRight | portage/common/container/src/mounts.rs:173-222 | the walk from the uppermost layer of a chunk down tells of every path whether the mounted chunk shows it, cuts it off (and at which depth), has forgotten that it hides it, or has nothing to do with it |
| OverlayLayers.StackedEqualsFlatByLayers | portage/common/container/src/mounts.rs:173-222 | stacked and flat agree if and only if no path of the lower chunks is lost in a chunk and met by none of the chunks above, all of it read off the layers |
| Mounts.ChunksPartition | portage/common/container/src/mounts.rs:183-191 | chunks concatenate to the list, all but the last have n members and the last 1 to n, and there are at most `most` of them for a list of up to n * most |
| Mounts.ShortNamesDistinct | portage/common/container/src/mounts.rs:134-146 | layer names are distinct, chunk names are distinct, and no chunk name is a layer name |
| Mounts.MountChunk | portage/common/container/src/mounts.rs:184-219 | a chunk of one member is passed through unmounted; otherwise the chunk's name is bound to the merge of its members |
| Mounts.MountChunks | portage/common/container/src/mounts.rs:181-222 | after the loop the new names denote the views of the chunks, in order, and no mount fails |
| Mounts.MountOverlayfs | portage/common/container/src/mounts.rs:105-250 | succeeds exactly for an empty scratch directory and 1 to 499 * 499 lower directories, and then shows the upper directory over the (one- or two-level) view of the lower ones |
| Mounts.TwoLevelMountIsFlat | portage/common/container/src/mounts.rs:173-222 | for 500 to 499 * 499 layers the two-level mount equals the flat merge if and only if no path is resurrected |
| Mounts.TwoLevelMountIsFlatByLayers | portage/common/container/src/mounts.rs:173-222 | the same for the condition on the layers |
| DurableTree.RestoreEntryExactly | portage/common/durabletree/src/expand.rs:46-104 | on a raw directory that Bazel may have damaged, restoring one entry yields exactly the original node |
| DurableTree.RestoreStep | portage/common/durabletree/src/expand.rs:69-104 | each entry in turn can be restored, and leaves all entries so far restored and the rest recoverable |
| DurableTree.RestoreRecovers | portage/common/durabletree/src/expand.rs:69-104 | from any recoverable raw directory the loop over the manifest reaches exactly the original raw tree |
| DurableTree.InterruptedRestoreRecovers | portage/common/durabletree/src/expand.rs:46-104 | stopping in the middle of any entry, or behind the last one, and starting over reaches the same tree as an uninterrupted pass |
| DurableTree.StringOrderVisitsParentsFirst | portage/common/durabletree/src/expand.rs:69-104 | the string order of manifest keys lists every directory before what is in it |
| StringOrder.LessExactly | portage/common/durabletree/src/expand.rs:69-104 | the order is by the first character that differs, a prefix first |
| DurableTree.ExtraIsLayer | portage/common/durabletree/src/expand.rs:108-146 | both halves of an expanded tree are well-formed layers |
| DurableTree.ExtraAndRawMakeTheOriginal | portage/common/durabletree/src/expand.rs:108-146 | raw above extra above any base shows exactly the original over that base: contents, modes, attributes, symlinks and whiteouts |
| DurableTree.ExpandedLayersShowTheOriginal | portage/common/durabletree/src/lib.rs:140-163 | the layers that `expand` returns, which leave out empty directories, show the original; of an empty tree only the root's own metadata is lost |
| DurableTree.EmptyDirsAreLeftOut | portage/common/durabletree/src/lib.rs:143-156 | which of the two directories are layers: none that is empty, but raw always above extra |
| DurableTree.ExpandRestores | portage/common/durabletree/src/expand.rs:148-182 | expanding a safe directory fails and changes nothing while hot, and otherwise leaves it restored, equal to the original, and safe |
| DurableTreeDisk.DurableRoot.ProcessFile | portage/common/durabletree/src/convert.rs:53-90 | the manifest entry of one file; a special file is removed from the tree, a plain one keeps its attributes and gets mode 0755 |
| DurableTreeDisk.DurableRoot.BuildManifest | portage/common/durabletree/src/convert.rs:92-124 | the recursive walk records and strips exactly the files under a directory, and fails exactly on a file type that is not supported |
| DurableTreeDisk.DurableRoot.Convert | portage/common/durabletree/src/convert.rs:126-166 | when conversion succeeds, and that it then leaves a hot root with the full manifest over the stripped tree |
| DurableTreeDisk.DurableRoot.CoolDownForTesting | portage/common/durabletree/src/lib.rs:184-202 | all user attributes and the restored marker go and every mode becomes 0555, and the directory stays safe and is no longer hot: one of the things Bazel may do to it |
| DurableTreeDisk.DurableRoot.RestoreUserXattrsAndPermissions | portage/common/durabletree/src/expand.rs:46-67 | attributes first, then the mode, ending in exactly the recorded metadata although the file may start unwritable |
| DurableTreeDisk.DurableRoot.RestoreOne | portage/common/durabletree/src/expand.rs:80-98 | one manifest entry, in place, refines the pure restore step and fails exactly when it does |
| DurableTreeDisk.DurableRoot.MaybeRestoreRawDirectory | portage/common/durabletree/src/expand.rs:69-104 | a restored marker implies raw equals the original, so skipping is right; otherwise the loop restores all of it and sets the marker |
| DurableTreeDisk.DurableRoot.CreateExtraDir | portage/common/durabletree/src/expand.rs:108-146 | the extra directory holds exactly the special files and the directories above them |
| DurableTreeDisk.DurableRoot.Expand | portage/common/durabletree/src/lib.rs:140-163 | succeeds exactly on a durable tree that is not hot, restores it, and returns the non-empty ones of extra and raw, in this order |
| DurableTreeDisk.CreateDirAll | portage/common/durabletree/src/expand.rs:108-146 | creates the missing directories above a path, and fails exactly if something above is no directory |
| DurableTreeRuns.RunIsSafe | portage/common/durabletree/src/lib.rs:27-100 | in every state reachable by sealing, cooling down, remote round trips, full expands, and expands killed in an entry, behind the last one or while the marker is set, the tree can be recovered and a restored marker implies that raw equals the manifest |
| DurableTreeRuns.EveryExpandReproduces | portage/common/durabletree/src/lib.rs:140-163 | at any point of any such run an expand succeeds if and only if the tree is not hot, and its layers show the original tree over any base |
| DurableTreeRuns.SealedTreeExpands | portage/common/durabletree/src/lib.rs:27-100 | every fresh tree has such a run: sealed, it can be expanded and is restored |
| DurableTreeRuns.InterleavingKeepsInv | portage/common/durabletree/src/expand.rs:148-182 | under any interleaving of expanders that take the exclusive lock, at most one restores, and the marker is set only over a restored tree |
| DurableTreeRuns.WhoeverReturnsSeesTheOriginal | portage/common/durabletree/src/expand.rs:148-182 | whichever expander returns, the raw directory equals the original then, and no step of an expander can fail |
| DurableTreeRuns.FinishesAlone | portage/common/durabletree/src/expand.rs:148-182 | from whatever state others have left, also killed ones, an expander that gets the lock and is not killed restores the tree, sets the marker and returns |
| Container.SharedDirectoryIsTwoLayers | portage/common/container/src/container.rs:233-262 | unpacking an archive with all its directories into a directory that holds another one shows, below the root, what two layers would |
| Container.SharedLooksLikeTwoExactly | portage/common/container/src/container.rs:233-262 | for any archive, also one without entries for parent directories, this is so if and only if no directory it has no entry for exists with another mode |
| Container.TopRootDecides | portage/common/container/src/container.rs:449-539 | views that differ only in their root agree entirely below a top layer that has a root, as the stage does |
| Container.ReplaceLast | portage/common/container/src/container.rs:233-262 | unpacking over the last lower directory keeps the layer list a representation of the pushed trees |
| Container.PushDurable | portage/common/container/src/container.rs:233-262 | the layers of an expanded durable tree represent the one tree that was pushed |
| Container.ContainerSettings.RequestArchiveDir | portage/common/container/src/container.rs:356-369 | reuses the archive directory when set, and else makes a new one, which is then the last lower directory |
| Container.ContainerSettings.PushArchive | portage/common/container/src/container.rs:233-262 | fails exactly if the shared directory has a directory where the archive needs something else, or the other way round; else adds the archive's tree, parent directories included, to the represented view; adjacent archives share one directory, others never do |
| Container.UnpacksExactly | portage/common/container/src/container.rs:371-381 | unpacking over existing files succeeds if and only if the result is a layer in which every path that existed is a directory or none as before |
| Container.UnpackedExactly | portage/common/container/src/container.rs:371-381 | path by path: an entry of the archive replaces what was there, a missing directory above an entry is made, and everything else stays |
| Container.ContainerSettings.PushDir | portage/common/container/src/container.rs:233-262 | a directory becomes the last lower directory and ends sharing; one on overlayfs is refused with nothing added |
| Container.ContainerSettings.PushDurableTree | portage/common/container/src/container.rs:233-262 | pushes the expanded tree; refused exactly while hot, or on overlayfs with something in the tree |
| Container.ContainerSettings.PushLayer | portage/common/container/src/container.rs:233-262 | for each kind of layer when it is pushed and when refused, and that the lower directories then represent all pushed trees in order |
| Container.ContainerSettings.ApplyCommonArgs | portage/common/container/src/container.rs:270-286 | succeeds exactly if each layer of the command line can be pushed when its turn comes, which is read off the layers and the archive directory at the start; then all are represented, in order, over what was pushed before; only modes of directories that an archive has no entry for may come from the archive before it |
| Container.ContainerSettings.Prepare | portage/common/container/src/container.rs:449-539 | the container shows the upper directory over the stage over the fold of the pushed trees, if the layers fit one mount or no chunk of them loses a path; it fails exactly when there are too many layers |
| CleanPath.CleanPath | portage/bin/alchemist/src/path.rs:22-57 | for an absolute path, succeeds exactly if what stands before each `..` behind a name exists; the loop over components, with its buffer, then yields a clean path that walks to the same place; when it fails, resolving the path fails with the same error |
| CleanPath.SucceedsExactly | portage/bin/alchemist/src/path.rs:39-52 | cleaning fails exactly if some `..` follows a prefix of the input, as given, that cannot be looked up |
| CleanPath.CleanedIsClean | portage/bin/alchemist/src/path.rs:22-57 | the result has no `.`, and each `..` in it follows another one or a prefix that is no real directory; it walks to where the input walks |
| CleanPath.CleanedMeansTheSame | portage/bin/alchemist/src/path.rs:22-57 | in every file system the result resolves like the input, or fails like it, if and only if no directory-only tail of a non-directory was dropped |
| CleanPath.TrailingDotIsLost | portage/bin/alchemist/src/path.rs:22-57 | `file/.` fails and its cleaned form does not |
| CleanPath.CleanedTwice | portage/bin/alchemist/src/path.rs:22-57 | a clean path is returned unchanged |
| CleanPath.PopIsUp | portage/bin/alchemist/src/path.rs:36-50 | behind a real directory, popping a component is resolving `..` |
| RepositoryLookup.RepositoryLookup.LoadFromCache | portage/bin/alchemist/src/repository.rs:707-736 | cached or read, the layout found is the one on disk; missing exactly if there is none |
| RepositoryLookup.RepositoryLookup.ToVisit | portage/bin/alchemist/src/repository.rs:738-817 | the masters to visit, with their private companions in private mode, that were not seen; a private master of a public repository is an error |
| RepositoryLookup.RepositoryLookup.AddRepo | portage/bin/alchemist/src/repository.rs:738-817 | ends on every graph, cyclic ones included; lists nothing twice, sees everything reached and only that, and keeps the order topological as far as the graph is acyclic; of what its dependencies reach, what an earlier one is needed for stands before what only later ones reach |
| RepositoryGraph.SeenIsClosed | portage/bin/alchemist/src/repository.rs:738-817 | with nothing on the stack, all that is reachable from a seen name was seen |
| RepositoryGraph.ReachedComesBefore | portage/bin/alchemist/src/repository.rs:738-817 | in a topological order everything a repository reaches, not only its masters, precedes it |
| RepositoryLookup.RepositoryLookup.CreateRepositorySet | portage/bin/alchemist/src/repository.rs:819-852 | exact conditions for success, error and panic; on success no duplicates, exactly the reachable repositories that exist, in topological order if the graph is acyclic, the requested one at the returned position, and its public part first; dependencies stand in overlay priority: if no dependency up to the i-th reaches a repository, the i-th stands before it |
| RepositoryGraph.NamesOf | portage/bin/alchemist/src/repository.rs:738-817 | the dependencies of a repository are its masters in order, in private mode each public one with its companion behind it |
| RepositoryGraph.SoundExactly | portage/bin/alchemist/src/repository.rs:738-817 | what a request fails on: an unreadable or misnamed layout, a master that does not exist, a private master in public mode |
| RepositoryLookup.SelfMasterPanics | portage/bin/alchemist/src/repository.rs:843-846 | a public repository that is its own master makes the request for its missing private part panic |
| Ownership.StepExactly | portage/bin/fakefs/preload/fakefs_preload.c:64-275 | of a run with the library and one without, one call gets the same answer and leaves the same visible owners if and only if it does not diverge: the library and the tracer take it for different files, permissions or requests |
| Ownership.DivergesExactlyWhen | portage/bin/fakefs/preload/fakefs_preload.c:64-275 | for a call that names the same file to the tracer, the cases in which it diverges: a stat of the working directory by an empty path; a chown that clears a link's target, that means "keep", of an own file that cannot show an override, or of a foreign one that can |
| Ownership.SlowChownKeepsRelated | portage/bin/fakefs/hooks/hooks_amd64.go:271-281 | in a chown the tracer does not tell "override equals the owner on disk" from "no override" |
| Ownership.PreloadIsInvisible | portage/bin/fakefs/preload/fakefs_preload.c:64-275 | over any run of stat and chown calls, some by programs that bypass the library, every reply with the library is the reply without it, as long as no call diverges |
| Ownership.InvisibleExactly | portage/bin/fakefs/preload/fakefs_preload.c:64-275 | and no call diverges if and only if the two runs cannot be told apart, also by a look at any file after any call |
| Ownership.DivergenceShows | portage/bin/fakefs/preload/fakefs_preload.c:64-275 | a call that diverges shows at once or in a stat of some file behind it |
| Ownership.LchownClearsTarget | portage/bin/fakefs/preload/fakefs_preload.c:114-158 | `lchown` of a symlink to its own owner removes the fake owner of the file behind it |
| Ownership.WorkingDirectoryShowsDisk | portage/bin/fakefs/preload/fakefs_preload.c:86-110 | a stat through `AT_FDCWD` and an empty path shows the owner on disk although the working directory has an override |
| Ownership.LargeIdMeansKeep | portage/bin/fakefs/hooks/hooks_amd64.go:165-281 | a chown to the owner on disk with an id of 2^31 clears the override in the library and keeps that id in the tracer |
| Ownership.NoXattrsFailsInTracer | portage/bin/fakefs/fsop/fsop.go:36-42 | a chown to the owner on disk where user xattrs are not supported, or of an own file without read permission, succeeds in the library and fails in the tracer |
| Ownership.ForeignFileFailsInLibrary | portage/bin/fakefs/preload/fakefs_preload.c:249-268 | a chown to the owner on disk of somebody else's file that everybody may write fails in the library and succeeds in the tracer |
| Ownership.TracerChownsItsOwn | portage/bin/fakefs/hooks/hooks_amd64.go:105-156 | a chown of a path below `/proc/self` fails in the tracer or gives away another file |
| Ownership.ChownTwiceShowsDisk | portage/bin/fakefs/fsop/fsop.go:203-246 | the same successful chown twice shows the owner on disk |
| Ownership.FakeFs.Fstat | portage/bin/fakefs/fsop/fsop.go:73-103 | stat shows the override if there is one, else the owner on disk, and fails exactly on a regular file or directory that may not be read |
| Ownership.FakeFs.Fchown | portage/bin/fakefs/fsop/fsop.go:203-246 | when it succeeds, by kind of file, permissions and support for user xattrs, and that stat then shows the wanted pair except exactly when that pair was shown before and differs from the owner on disk |
| Ownership.FakeFs.Simulate | portage/bin/fakefs/hooks/hooks_amd64.go:165-281 | the simulated call as a whole, on the file that the tracer's open reaches, ids read as signed 32-bit numbers; when a stat is passed on |
| Ownership.FakeFs.WrapFstatat | portage/bin/fakefs/preload/fakefs_preload.c:202-223 | the library's answer to a stat, by path, descriptor or working directory, changing nothing |
| Ownership.FakeFs.WrapFchownat | portage/bin/fakefs/preload/fakefs_preload.c:249-275 | what the library answers to a chown, and which override it clears, also when the kernel then refuses |
| Ownership.StatShowsFile | portage/bin/fakefs/preload/fakefs_preload.c:86-275 | a stat by path, answered by the library or the tracer, shows the fake owner of the entry itself with NOFOLLOW and of the file behind it without |
| Ownership.SymlinkDoesNotMatter | portage/bin/fakefs/preload/fakefs_preload.c:86-275 | replies to and effects of a call that follows symlinks do not depend on the symlink |
| Ownership.ChownGivesFile | portage/bin/fakefs/hooks/hooks_amd64.go:271-281 | a chown by path of an own file succeeds both ways and gives exactly the file meant the wanted owner, or takes back one that it had already |
| Ownership.FilterKeys | portage/bin/fakefs/fsop/fsop.go:149-181 | the attribute list loses exactly the keys that are the override's, in place; fails exactly on a list that does not end in a NUL |
| Ownership.WithoutKeepsTheRest | portage/bin/fakefs/fsop/fsop.go:149-181 | all other keys stay, as often as before, and the secret one is gone |
| NulList.ReadTerminated | portage/bin/fakefs/fsop/fsop.go:149-181 | NUL-terminated lists are read back, and so is what is cut off behind them |
| NulList.ReadIsInverse | portage/bin/fakefs/fsop/fsop.go:149-181 | nothing else reads as these items |
| TracerModel.StepKeepsInv | portage/bin/fakefs/tracer/tracer.go:89-268 | each round keeps the tracer's threads and the kernel's in agreement: a thread resumed to the next syscall stop holds the very hook that was installed for it, no two threads hold the same one, and none that is held has run |
| TracerModel.NoUnexpectedStop | portage/bin/fakefs/tracer/tracer.go:146-224 | in no run is the "unexpected syscall-exit-stop" error reached, and a thread is resumed to the next syscall stop only with a hook installed |
| TracerModel.HooksRunAtMostOnce | portage/bin/fakefs/tracer/tracer.go:146-224 | over a whole run no installed hook runs twice |
| TracerModel.HookBelongsToLastStop | portage/bin/fakefs/tracer/tracer.go:146-224 | a hook that runs is the one installed at the last stop of that thread, across exec taking over the leader's id as well |
| TracerModel.RootStaysIndexed | portage/bin/fakefs/tracer/tracer.go:97-125 | from the first stop of the root process until exit, some thread of it is indexed |
| TracerModel.ExitsWithRoot | portage/bin/fakefs/tracer/tracer.go:97-125 | the tracer exits exactly when the last thread of the root process ends, with its exit code |
| TracerModel.AnsweredExactly | portage/bin/fakefs/tracer/tracer.go:146-267 | over runs: each stop of a known thread is resumed, with the signal exactly if one is to be delivered, with LISTEN exactly at group stops, up to the end of the system call exactly if it is simulated |
| TracerModel.SignalsAreDelivered | portage/bin/fakefs/tracer/tracer.go:221-253 | over runs: the signals injected are, in order, those of the signal-delivery stops of known threads |
| TracerModel.IndexedExactly | portage/bin/fakefs/tracer/tracer.go:89-205 | over runs: which threads the index gains and loses, from the events alone |
| TracerModel.HookRunsExactly | portage/bin/fakefs/tracer/tracer.go:149-163 | over runs: a hook runs at exactly the syscall-exit stops with readable registers |
| TracerModel.FailsExactly | portage/bin/fakefs/tracer/tracer.go:127-217 | when a round is an error: an odd wait status, a syscall-exit stop without a hook, an unknown event, an exec of a thread that is not the leader |
| Tracer.ThreadStateIndex.Put | portage/bin/fakefs/tracer/state.go:46-52 | both maps keep describing the same threads, none of the inner maps empty |
| Tracer.ThreadStateIndex.Remove | portage/bin/fakefs/tracer/state.go:54-60 | removes the thread from both maps and drops an inner map that becomes empty |
| Tracer.ThreadStateIndex.GetByPid | portage/bin/fakefs/tracer/state.go:35-44 | exactly the threads of the process, each once, by increasing id |
| Tracer.Tracer.WaitNextStop | portage/bin/fakefs/tracer/tracer.go:89-134 | refines the first half of the step: unknown threads are indexed, ended ones removed, and the loop is left with the root process |
| Tracer.Tracer.RemoveSiblings | portage/bin/fakefs/tracer/tracer.go:191-205 | after exec the thread is the only one of its process |
| Tracer.Tracer.ProcessStop | portage/bin/fakefs/tracer/tracer.go:146-224 | refines the second half of the step: hooks installed, run and cleared as the model says |
| Tracer.Tracer.Round | portage/bin/fakefs/tracer/tracer.go:240-267 | one round of the event loop, on the heap, is one step of the machine |
| BashWords.WordReadsAs | portage/bin/alchemist/src/bash/vars.rs:158-226 | a word of unquoted, escaped, single-, double- and dollar-quoted parts in any mixture is read part by part, each by its own rule, up to where the word stops |
| BashMeaning.WordReadsItsMeaning | portage/bin/alchemist/src/bash/vars.rs:158-226 | the text read is the one whose UTF-8 the quoting means, by POSIX and for dollar quotes by bash, if and only if no backslash in double quotes stands before an ordinary character, no newline is escaped and no octal escape is above 0177 |
| BashMeaning.BackslashInDoubleIsLost | portage/bin/alchemist/src/bash/vars.rs:177-186 | the word `"\a"` is read without its backslash |
| BashMeaning.EscapedNewlineIsKept | portage/bin/alchemist/src/bash/vars.rs:158-165 | a backslash and a newline are read as a newline instead of nothing |
| BashMeaning.OctalBytesAreNoChars | portage/bin/alchemist/src/bash/vars.rs:188-213 | the word `$'\303\251'`, one letter in UTF-8, is read as two |
| BashMeaning.HexEscapeIsKept | portage/bin/alchemist/src/bash/vars.rs:188-219 | `$'\x41'` is read with its escape as it stands |
| BashMeaning.NamedExactly | portage/bin/alchemist/src/bash/vars.rs:188-205 | the thirteen named escapes and the byte each of them is to bash; no other character makes one |
| BashWords.OctalExactly | portage/bin/alchemist/src/bash/vars.rs:206-217 | three octal digits are their number up to 0377; above, the backslash stands for itself; a plus sign counts as no digit |
| BashMeaning.UnquotedExactly | portage/bin/alchemist/src/bash/vars.rs:158-170 | an unquoted character belongs to a word exactly if the shell gives it no meaning and it is no bracket |
| BashWords.JoinedChar | portage/bin/alchemist/src/bash/vars.rs:158-170 | where an unquoted stretch is cut does not matter to the word |
| BashWords.QuotedReadsBack | portage/bin/build_package/src/main.rs:214 | any text, quotes included, that is rendered in single quotes is read back |
| BashVars.ToValue | portage/bin/alchemist/src/bash/vars.rs:123-149 | the vector that is resized and assigned in place ends as the array that the entries describe |
| BashVars.SparseArray | portage/bin/alchemist/src/bash/vars.rs:123-149 | the array is as long as the highest index needs, holds the last value given for each index, and empty strings elsewhere |
| BashVars.DenseArray | portage/bin/alchemist/src/bash/vars.rs:123-149 | up to 1000 values printed with their positions are read back |
| BashVars.AssociativeExactly | portage/bin/alchemist/src/bash/vars.rs:123-149 | entries become an associative array exactly if some key is no integer below 1000, and then exactly the last value for each key |
| BashVars.NumericKeysCollapse | portage/bin/alchemist/src/bash/vars.rs:123-149 | the keys `5` and `05` of an associative array become one index, and one value is lost |
| BashVars.NumberIsIndex | portage/bin/alchemist/src/bash/vars.rs:126-136 | a number is an index exactly below 1000, also behind a plus sign |
| BashVars.OnlyNumbersAreIndices | portage/bin/alchemist/src/bash/vars.rs:126-136 | any other character makes a key no index |
| BashVars.OutputReadsAs | portage/bin/alchemist/src/bash/vars.rs:152-266 | the output of `set`, with scalars, array keys and array values quoted in any way, is read as its words read |
| BashVars.LeftoverIsRefused | portage/bin/alchemist/src/bash/vars.rs:260-266 | output with something behind its assignments is refused as a whole |
| BashVars.NameCharsAre | portage/bin/alchemist/src/bash/vars.rs:152-156 | names are as in the shell in ASCII; beyond it, the low byte of a character decides |
| BashVars.OutputReadsItsMeaning | portage/bin/alchemist/src/bash/vars.rs:152-266 | output whose words are plainly quoted in this sense, as `set` prints values in ASCII, is read as the values it means |
| BashVars.QuotedOutputReadsBack | portage/bin/alchemist/src/bash/vars.rs:152-266 | every list of assignments rendered in the single-quote style parses to the same values |
| BashVars.LastAssignmentCounts | portage/bin/alchemist/src/bash/vars.rs:260-266 | of several assignments to a name the last one is kept |
| BashVars.OnlyAssignedNames | portage/bin/alchemist/src/bash/vars.rs:260-266 | no other names appear |
| ElfAnalyzer.Transitive | module_extensions/toolchains/hermetic_launcher/elf_analyzer.py:54-68 | returns exactly what is reachable; fails exactly if that needs a missing library or a deeper recursion |
| ElfAnalyzer.SameReach | module_extensions/toolchains/hermetic_launcher/elf_analyzer.py:91-92 | overwriting some sets with their closures does not change what is reachable from any library |
| ElfAnalyzer.SameFits | module_extensions/toolchains/hermetic_launcher/elf_analyzer.py:91-92 | nor how deep the recursion goes, so success does not depend on the order |
| ElfAnalyzer.CloseInPlace | module_extensions/toolchains/hermetic_launcher/elf_analyzer.py:91-92 | sets closed in place, in any order, end as the closures of the original graph |
| ElfAnalyzer.GetDependencyMap | module_extensions/toolchains/hermetic_launcher/elf_analyzer.py:71-102 | for each soname the files of the libraries reachable from it, itself included, in string order and each as often as sonames share it; fails exactly if a dependency is missing or the recursion is too deep |
| ElfAnalyzer.LastLibraryCounts | module_extensions/toolchains/hermetic_launcher/elf_analyzer.py:83-89 | of several libraries with one soname, the last one gives the file and the direct dependencies, without the interpreter |
| ElfAnalyzer.SonameIs | module_extensions/toolchains/hermetic_launcher/elf_analyzer.py:83-89 | a library without a soname goes by its file name |
| ElfAnalyzer.OnlyLibraries | module_extensions/toolchains/hermetic_launcher/elf_analyzer.py:83-89 | no other names are in the graph |
| ElfAnalyzer.AcyclicFits | module_extensions/toolchains/hermetic_launcher/elf_analyzer.py:54-68 | for every closed graph without cycles a recursion limit of the number of libraries is enough |
| ElfAnalyzer.CycleNeverFits | module_extensions/toolchains/hermetic_launcher/elf_analyzer.py:54-68 | on a cycle no recursion limit is |
| ParamFile.LinesOfWritten | portage/common/cliutil/src/param_file.rs:31-36 | arguments written one to a line are read back |
| ParamFile.LinesOfText | portage/common/cliutil/src/param_file.rs:31-36 | LF and CRLF end a line and are no part of it; the last line needs no end, and a carriage return without a newline behind it stays |
| ParamFile.ReferenceExactly | portage/common/cliutil/src/param_file.rs:38-52 | an argument refers to a file exactly if it is the prefix and a path, which may be empty |
| ParamFile.ExpansionIsUnique | portage/common/cliutil/src/param_file.rs:38-52 | an argument list has at most one expansion |
| ParamFile.Expansion.ReadParamFile | portage/common/cliutil/src/param_file.rs:21-36 | succeeds exactly for a readable file not visited before whose lines expand, and appends their arguments in order |
| ParamFile.Expansion.ExpandSingleParam | portage/common/cliutil/src/param_file.rs:38-52 | one argument: itself, or the expansion of the file it refers to |
| ParamFile.ExpandParams | portage/common/cliutil/src/param_file.rs:65-79 | ends on every file system; succeeds exactly when there is a reference tree with all files readable and none referenced twice, and yields its leaves in order |
| Xpak.LenBytes | cros_pkg/private/gen_tbz2.rs:113-118 | four bytes that read as the length, exactly for lengths below 2^32 |
| Xpak.BigEndian | cros_pkg/private/gen_tbz2.rs:113-118 | a 32-bit number stands with its most significant byte first |
| Xpak.WhereItStands | cros_pkg/private/gen_tbz2.rs:134-141 | in a package the index stands 16 bytes behind the tarball, the data behind the index, and the data ends 16 bytes before the end |
| Xpak.ValuesTileTheData | cros_pkg/private/gen_tbz2.rs:123-132 | the offset and length in each index record select that entry's value; the values tile the data section without gap or overlap |
| Xpak.GenTbz2 | cros_pkg/private/gen_tbz2.rs:121-148 | succeeds exactly if the whole section is shorter than 2^32, and then the file has the documented layout: each index record with its name and the offset and length that select its value |
| Xpak.FindPackage | portage/common/portage/binarypackage/src/binarypackage.rs:39-58 | going back from the end, the reader finds where the tarball ends, whatever it holds |
| Xpak.StartsExactly | portage/common/portage/binarypackage/src/binarypackage.rs:39-58 | a section is found exactly if the three magic words and the length stand where they belong |
| Xpak.ReadPackage | portage/common/portage/binarypackage/src/binarypackage.rs:254-321 | the reader gets from a package exactly the names in order and the values it was written with |
| Xpak.ContentsAreTheEntries | portage/common/portage/binarypackage/src/binarypackage.rs:275-321 | with distinct names, the map read has exactly the entries |
| Xpak.ReadRecordAt | portage/common/portage/binarypackage/src/binarypackage.rs:292-315 | one record is read exactly if it and its value lie in the file |
| Xpak.Open | portage/common/portage/binarypackage/src/binarypackage.rs:39-77 | the reader as a whole, with its loop, and where the tarball ends; succeeds exactly if the section can be read and CATEGORY, PF and SLOT are in it as text |
| AuditLog.ParseWritten | portage/bin/extract_package/src/audit.rs:216-238 | what is written of entries with NUL-free paths parses to these entries |
| AuditLog.ParseEntryExactly | portage/bin/extract_package/src/audit.rs:216-225 | a line is read exactly if it is one of the two type names, a tab and the path |
| AuditLog.ParsesExactly | portage/bin/extract_package/src/audit.rs:227-238 | a file reads as a list if and only if it is what is written of that list |
| AuditLog.ReportAll | portage/bin/auditfuse/reporter/reporter.go:34-56 | reports made one after another write each entry once, in the order of first occurrence |
| AuditLog.SequentialLogParses | portage/bin/extract_package/src/audit.rs:227-238 | and the log parses to that list |
| AuditLog.LogAlwaysParses | portage/bin/auditfuse/reporter/reporter.go:44-54 | under any interleaving, whenever no lock is held: the log parses, its entries are the seen ones, every returned report is there, none more often than reported |
| AuditLog.FinishedLogIsComplete | portage/bin/auditfuse/reporter/reporter.go:44-54 | once all reports have returned, the log has exactly what was reported |
| AuditLog.WrittenTwice | portage/bin/auditfuse/reporter/reporter.go:44-54 | two reports that both check before either appends write their entry twice |
| AuditLog.RepeatedExactly | portage/bin/auditfuse/reporter/reporter.go:34-56 | in a finished log an entry is repeated if and only if one report checked for it while another was about to append it |
| CrosWorkon.ArrayVariable | portage/bin/alchemist/src/analyze/source.rs:119-151 | one value for each project: each its own, or a single one for all; an error exactly for a missing or associative variable and for another number of values |
| CrosWorkon.SplitOfSpaced | portage/bin/alchemist/src/analyze/source.rs:231-235 | words with a space, tab, newline, form feed or carriage return behind each, and any of these in front, are split into these words |
| CrosWorkon.LocalPathIs | portage/bin/alchemist/src/analyze/source.rs:208-221 | where a project is checked out: the four cases |
| CrosWorkon.SourcePathIs | portage/bin/alchemist/src/analyze/source.rs:243-249 | slashes in front of a subtree do not count, and no subtree is the project itself |
| CrosWorkon.WholeProject | portage/bin/alchemist/src/analyze/source.rs:204-289 | a project without a subtree and an expression is one local path, or one source with its tree and no subtree |
| CrosWorkon.PartOfProject | portage/bin/alchemist/src/analyze/source.rs:204-289 | with a subtree and an expression, exactly if the expression is true |
| CrosWorkon.SlotOfSubtree | portage/bin/alchemist/src/analyze/source.rs:204-259 | the j-th subtree of a project belongs to the tree at the number of all earlier subtrees plus j |
| CrosWorkon.RequiredDoesNotShift | portage/bin/alchemist/src/analyze/source.rs:261-265 | which projects are required does not change which tree belongs to which subtree |
| CrosWorkon.PickedExactly | portage/bin/alchemist/src/analyze/source.rs:261-287 | sources come in order, exactly where a tree occurs first among the required ones |
| CrosWorkon.TreesAreDistinct | portage/bin/alchemist/src/analyze/source.rs:266-275 | no tree is fetched twice |
| CrosWorkon.Pinned | portage/bin/alchemist/src/analyze/source.rs:204-289 | too few trees is the error exactly when the subtrees met before a bad expression outnumber them; else the picked sources |
| CrosWorkon.ExtractCrosWorkonSources | portage/bin/alchemist/src/analyze/source.rs:172-289 | the whole extraction: for each kind of package exactly when it succeeds and when which error is met first, and the sources found |
| SimpleVersion.Parse | portage/bin/alchemist/src/simpleversion.rs:45-84 | never fails |
| SimpleVersion.ClassesAre | portage/bin/alchemist/src/simpleversion.rs:45-84 | ASCII digits and ASCII letters make components; underscore, dot and dash separate |
| SimpleVersion.PrintAfterParse | portage/bin/alchemist/src/simpleversion.rs:45-97 | printing the tokens of a string gives the string |
| SimpleVersion.ParseIsCanonical | portage/bin/alchemist/src/simpleversion.rs:45-84 | tokens alternate, are maximal runs, and a separator is empty only between digits and letters |
| SimpleVersion.ParseAfterPrint | portage/bin/alchemist/src/simpleversion.rs:45-97 | a token list is the parse of its own printing if and only if it is canonical |
| SimpleVersion.Display | portage/bin/alchemist/src/simpleversion.rs:86-97 | the loop that prints gives back what was parsed, and prints what parses back exactly for canonical lists |

## Left out

- System calls are steps on the state: mount, ptrace, seccomp, xattr, flock, exec and FUSE
  are assumed to succeed where the model does not say otherwise, with the privileges that the
  callers have in a mount namespace; `FILESYSTEM_MAX_STACK_DEPTH` and the encoding of
  mount options are not modelled.
- Inode numbers, timestamps, hashes, `trusted.*` attributes and opaque-directory markers. So a
  file has one name: of two hard links to a file, `process_file` records the mode of the first
  and, having set it, 0755 for the second, and the original mode is lost.
- File and member names that are not valid UTF-8; texts are sequences of characters, except
  for `Xpak`, which is about bytes and does not check that names are UTF-8.
- The mode that the umask gives to directories of the extra directory, and the iteration
  order of the manifest's sorted map, are parameters (the order must satisfy `ManifestOrder`).
- Container.ContainerSettings.PushArchive: what a failing extraction leaves behind and the mode
  that the umask gives to directories without an entry are parameters; the tar format, whiteouts
  in archives, and writing through a symlink of an earlier archive are not modelled.
- Container.ContainerSettings.PushDurableTree: the raw directory is copied by value into the
  layer list, so later changes through an alias are not captured.
- CleanPath.CleanPath: the bound on symlink hops is a parameter; `join_absolute` is left out.
- RepositoryLookup.RepositoryLookup.LoadFromCache: parsing `layout.conf` and the directory
  candidates for a name are abstracted to a map from names to layouts.
- Ownership.FakeFs.Fchown: the text encoding of the override and a corrupt override; modes and
  owners on disk do not change during a run, and one user runs everything.
- Ownership.FilterKeys: the size query, for which the kernel returns no keys to filter.
- Ownership.FakeFs.Simulate: a reference is given as the files it resolves to in the process and
  in the tracer, and a path that leads nowhere fails with ENOENT or ENOTDIR; error numbers, statx
  masks and writing the result into the tracee's memory are left out.
- Tracer.Tracer.Round: a register-read failure only resumes the thread; logging and the exit
  status are left out, and the trap cause of a stop is given with the event.
- The system call name table, register parsing and BPF assembly.
- BashVars.OutputReadsItsMeaning: words with a tilde that is expanded, a bare `$` or backquote in double
  quotes or a NUL escape, which mean more than quoting or nothing, and escapes of dollar quotes
  that the parser does not know, such as `\xHH`. `set` prints none of these.
- ElfAnalyzer.GetDependencyMap: ELF parsing.
- Xpak.GenTbz2: the compressed tarball is an arbitrary prefix; what was already written to the
  output when a length does not fit is not modelled.
- Xpak.Open: the trimming of CATEGORY, PF and SLOT, and rewriting the section in place. Which
  values are UTF-8 is a parameter. An offset that would underflow counts as a corrupted file.
- AuditLog.LogAlwaysParses: write failures, and the filter applied to the parsed entries.
- CrosWorkon.ExtractCrosWorkonSources: expressions are evaluated by a function parameter, and
  the look at the local file system that follows is left out.
- `merge_directories` of extract_package, which depends on a library that is not in the
  repository; JSON, zstd, bzip2, ELF and protobuf encodings; command lines, logging, daemons,
  container scripts and other plumbing; repository digests, ebuild loading and dependency
  simplification.
