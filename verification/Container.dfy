/** `ContainerSettings`: turning pushed layers into lower directories. */
module Container {
  import opened FileTree
  import opened Overlay
  import opened DurableTree
  import opened DurableTreeDisk
  import opened Wrappers
  import Mounts
  import OverlayLayers

  type DirId = nat

  /** What `LayerType::detect` tells apart. An archive is its entries, last one
      winning; `partial` is what a failing extraction leaves behind, `dirMode` the mode
      of directories that the archive has no entry for. */
  datatype LayerPath =
    | ArchivePath(entries: Tree, partial: Tree, dirMode: Mode)
    | DirPath(dir: DirId, onOverlayfs: bool)
    | DurablePath(root: DurableRoot, order: seq<Path>, dirMode: Mode, onOverlayfs: bool)
    | OtherFile

  datatype Kind = ArchiveKind | DirKind | DurableKind

  /** The durable trees a list of paths refers to. */
  function RootOf(path: LayerPath): set<DurableRoot> {
    if path.DurablePath? then {path.root} else {}
  }

  function Roots(paths: seq<LayerPath>): set<DurableRoot> {
    set i, r | 0 <= i < |paths| && r in RootOf(paths[i]) :: r
  }

  ghost predicate Sound(root: DurableRoot, order: seq<Path>, t: Tree)
    reads root
  {
    root.marked && Safe(root.State(), t) && ManifestOrder(order, root.manifest.Keys)
  }

  /** The mode of a fresh temporary directory. */
  const TEMP_ROOT := Dir(MODE_700, map[])

  /** What entries of an archive may be: nothing sits below a non-directory. */
  ghost predicate Archive(a: Tree) {
    && ([] in a ==> a[[]].Dir?)
    && (forall p :: p in a ==> !a[p].Whiteout?)
    && forall p, k :: p in a && 0 <= k < |p| && p[..k] in a ==> a[p[..k]].Dir?
  }

  /** The directories that an archive needs but has no entry for. */
  function Implied(a: Tree): set<Path> {
    set p, k | p in a && 0 < k < |p| && p[..k] !in a :: p[..k]
  }

  /** What unpacking puts on top of `existing`: the entries, and the directories above
      them, which stay as they are where they exist. */
  function Written(existing: Tree, a: Tree, dirMode: Mode): Tree {
    (map q | q in Implied(a) :: if q in existing then existing[q] else Dir(dirMode, map[])) + a
  }

  /** Written entries with every directory above them are a layer but for the root. */
  function AsLayer(a: Tree): Tree {
    if [] in a then a else a[[] := TEMP_ROOT]
  }

  /** An archive as a layer of its own. */
  function ArchiveLayer(a: Tree, dirMode: Mode): Tree {
    AsLayer(Written(map[], a, dirMode))
  }

  ghost predicate ArchiveTree(a: Tree) {
    Layer(AsLayer(a)) && forall p :: p in a ==> !a[p].Whiteout?
  }

  /** No entry would have to turn a directory into something else or back. */
  predicate Compatible(existing: Tree, a: Tree) {
    forall p :: p in existing && p in a ==> existing[p].Dir? == a[p].Dir?
  }

  predicate Fits(existing: Tree, a: Tree) {
    Compatible(existing, a) && forall q :: q in Implied(a) && q in existing ==> existing[q].Dir?
  }

  /** Unpacking over a directory that may already have contents. */
  function Extract(existing: Tree, a: Tree, dirMode: Mode): Result<Tree> {
    if Fits(existing, a) then Ok(existing + Written(existing, a, dirMode)) else Err
  }

  lemma WrittenIsComplete(existing: Tree, a: Tree, dirMode: Mode)
    requires Archive(a) && Fits(existing, a)
    ensures ArchiveTree(Written(existing, a, dirMode)) && Compatible(existing, Written(existing, a, dirMode))
  {
    var w := Written(existing, a, dirMode);
    forall p {:trigger Parent(p)} | p in AsLayer(w) && p != [] ensures IsDir(AsLayer(w), Parent(p)) {
      if p in a {
        DirAbove(existing, a, dirMode, p, |p| - 1);
      } else {
        var r, k :| r in a && 0 < k < |r| && p == r[..k];
        assert Parent(p) == r[..k - 1];
        DirAbove(existing, a, dirMode, r, k - 1);
      }
    }
  }

  lemma DirAbove(existing: Tree, a: Tree, dirMode: Mode, p: Path, k: nat)
    requires Archive(a) && Fits(existing, a) && p in a && k < |p|
    ensures IsDir(AsLayer(Written(existing, a, dirMode)), p[..k])
  {
    if p[..k] !in a && 0 < k {
      assert p[..k] in Implied(a);
    }
  }

  /** Something that the archive holds is below `p`. */
  ghost predicate AboveEntry(a: Tree, p: Path) {
    p != [] && exists r :: r in a && p <= r && p != r
  }

  lemma AboveEntryExactly(a: Tree, p: Path)
    ensures AboveEntry(a, p) && p !in a <==> p in Implied(a)
  {
    if AboveEntry(a, p) && p !in a {
      var r :| r in a && p <= r && p != r;
      assert p == r[..|p|] && 0 < |p| < |r|;
    }
  }

  /** Path by path: an entry of the archive wins, whatever else was there stays, and a
      directory is made above each entry that lacks one; nothing else appears. */
  lemma UnpackedExactly(existing: Tree, a: Tree, dirMode: Mode, p: Path)
    requires Extract(existing, a, dirMode).Ok?
    ensures var unpacked := Extract(existing, a, dirMode).value;
            && (p in unpacked <==> p in a || p in existing || AboveEntry(a, p))
            && (p in unpacked ==>
                  unpacked[p] == if p in a then a[p] else if p in existing then existing[p] else Dir(dirMode, map[]))
  {
    AboveEntryExactly(a, p);
  }

  /** Unpacking succeeds exactly if it leaves a layer in which everything that was a
      directory still is one, and nothing else has become one. */
  lemma UnpacksExactly(existing: Tree, a: Tree, dirMode: Mode)
    requires Layer(existing) && Archive(a)
    ensures var unpacked := existing + Written(existing, a, dirMode);
            Extract(existing, a, dirMode).Ok? <==>
            Layer(unpacked) && forall p :: p in existing ==> existing[p].Dir? == unpacked[p].Dir?
  {
    var unpacked := existing + Written(existing, a, dirMode);
    if Fits(existing, a) {
      WrittenIsComplete(existing, a, dirMode);
      SharedDirectoryIsTwoLayers(map[], existing, Written(existing, a, dirMode));
    } else if Compatible(existing, a) {
      var q :| q in Implied(a) && q in existing && !existing[q].Dir?;
      var r, k :| r in a && 0 < k < |r| && q == r[..k];
      if Layer(unpacked) {
        AncestorsAreDirs(unpacked, r, k);
      }
    } else {
      var p :| p in existing && p in a && existing[p].Dir? != a[p].Dir?;
      assert unpacked[p] == a[p];
    }
  }

  /** Equal but for the metadata, or the presence, of the root directory. */
  ghost predicate SameBelowRoot(x: Tree, y: Tree) {
    && ([] in x ==> x[[]].Dir?)
    && ([] in y ==> y[[]].Dir?)
    && forall p :: p != [] ==> (p in x <==> p in y) && (p in x ==> x[p] == y[p])
  }

  lemma MergeSameBelowRoot(x: Tree, y: Tree, u: Tree)
    requires SameBelowRoot(x, y) && ([] in u ==> u[[]].Dir?)
    ensures SameBelowRoot(Merge(x, u), Merge(y, u))
  {
  }

  /** A top layer with a root of its own settles the difference. */
  lemma TopRootDecides(x: Tree, y: Tree, u: Tree)
    requires SameBelowRoot(x, y) && IsDir(u, [])
    ensures Merge(x, u) == Merge(y, u)
  {
  }

  /** Two archives unpacked into one directory look like two layers. */
  lemma SharedDirectoryIsTwoLayers(base: Tree, existing: Tree, a: Tree)
    requires Layer(existing) && ArchiveTree(a) && Compatible(existing, a) && ([] in base ==> base[[]].Dir?)
    ensures SameBelowRoot(Merge(base, existing + a), Merge(Merge(base, existing), AsLayer(a)))
    ensures Layer(existing + a)
  {
    var both := existing + a;
    forall p | p != []
      ensures var l, r := Merge(base, both), Merge(Merge(base, existing), AsLayer(a));
              (p in l <==> p in r) && (p in l ==> l[p] == r[p])
    {
      SharedCover(existing, a, p);
      if p in existing && Covered(AsLayer(a), p) {
        var k :| 0 <= k < |p| && p[..k] in AsLayer(a) && !AsLayer(a)[p[..k]].Dir?;
        AncestorsAreDirs(existing, p, k);
        assert false;
      }
    }
    forall p {:trigger Parent(p)} | p in both && p != [] ensures IsDir(both, Parent(p)) {
      if p in a {
        assert IsDir(AsLayer(a), Parent(p));
      } else {
        assert IsDir(existing, Parent(p));
      }
    }
  }

  /** The directories that an archive implies are as it would make them itself. */
  ghost predicate Settled(existing: Tree, a: Tree, dirMode: Mode) {
    forall q :: q in Implied(a) && q in existing ==> existing[q] == Dir(dirMode, map[])
  }

  /** Two archives in one directory look like two layers if and only if no directory
      that the second has no entry for was given another mode by the first. */
  lemma SharedLooksLikeTwoExactly(base: Tree, existing: Tree, a: Tree, dirMode: Mode)
    requires Layer(existing) && Archive(a) && Fits(existing, a) && ([] in base ==> base[[]].Dir?)
    ensures SameBelowRoot(Merge(base, existing + Written(existing, a, dirMode)),
                          Merge(Merge(base, existing), ArchiveLayer(a, dirMode)))
            <==> Settled(existing, a, dirMode)
  {
    if Settled(existing, a, dirMode) {
      WrittenIsComplete(existing, a, dirMode);
      assert Written(map[], a, dirMode) == Written(existing, a, dirMode);
      SharedDirectoryIsTwoLayers(base, existing, Written(existing, a, dirMode));
    } else {
      var q :| q in Implied(a) && q in existing && existing[q] != Dir(dirMode, map[]);
      ImpliedDirDiffers(base, existing, a, dirMode, q);
    }
  }

  lemma ImpliedDirDiffers(base: Tree, existing: Tree, a: Tree, dirMode: Mode, q: Path)
    requires Archive(a) && Fits(existing, a)
    requires q in Implied(a) && q in existing && existing[q] != Dir(dirMode, map[])
    ensures !SameBelowRoot(Merge(base, existing + Written(existing, a, dirMode)),
                           Merge(Merge(base, existing), ArchiveLayer(a, dirMode)))
  {
    assert Merge(base, existing + Written(existing, a, dirMode))[q] == existing[q];
    assert ArchiveLayer(a, dirMode)[q] == Dir(dirMode, map[]);
  }

  /** Up to the modes of directories that the archive has no entry for. */
  ghost predicate SameButImplied(entries: Tree, t: Tree, shown: Tree) {
    && t.Keys == shown.Keys
    && forall p :: p in t ==> if p in Implied(entries) then t[p].Dir? && shown[p].Dir? else shown[p] == t[p]
  }

  lemma WrittenShowsArchive(existing: Tree, a: Tree, dirMode: Mode)
    requires Archive(a) && Fits(existing, a)
    ensures SameButImplied(a, ArchiveLayer(a, dirMode), AsLayer(Written(existing, a, dirMode)))
  {
  }

  lemma FreshDirTakesAll(a: Tree)
    requires Archive(a)
    ensures Fits(map[[] := TEMP_ROOT], a)
  {
    assert [] !in Implied(a);
  }

  lemma SharedCover(existing: Tree, a: Tree, p: Path)
    requires Layer(existing) && ArchiveTree(a) && Compatible(existing, a)
    ensures Covered(existing + a, p) <==> Covered(existing, p) || Covered(AsLayer(a), p)
  {
  }

  /** The number of maximal runs of archives. */
  function ArchiveRuns(log: seq<Kind>): nat {
    if log == [] then 0
    else
      var front, last := log[..|log| - 1], log[|log| - 1];
      ArchiveRuns(front) + if last.ArchiveKind? && !EndsWithArchive(front) then 1 else 0
  }

  predicate EndsWithArchive(log: seq<Kind>) {
    log != [] && log[|log| - 1].ArchiveKind?
  }

  function ContentsOf(dirs: seq<DirId>, disk: map<DirId, Tree>): seq<Tree>
    requires AllIn(dirs, disk)
  {
    seq(|dirs|, i requires 0 <= i < |dirs| => assert dirs[i] in dirs; disk[dirs[i]])
  }

  ghost predicate GoodDisk(disk: map<DirId, Tree>, next: DirId) {
    forall d :: d in disk ==> Layer(disk[d]) && d < next
  }

  ghost predicate AllIn(dirs: seq<DirId>, disk: map<DirId, Tree>) {
    forall d :: d in dirs ==> d in disk
  }

  /** The lower directories show what the pushed trees show. */
  ghost predicate Represents(lower: seq<Tree>, trees: seq<Tree>) {
    Layers(trees) && SameBelowRoot(Stack(map[], lower), Stack(map[], trees))
  }

  predicate OnlyLast(dirs: seq<DirId>, d: DirId) {
    dirs != [] && d == dirs[|dirs| - 1] && d !in dirs[..|dirs| - 1]
  }

  lemma OnlyLastPush(dirs: seq<DirId>, d: DirId)
    requires d !in dirs
    ensures OnlyLast(dirs + [d], d) && (dirs + [d])[..|dirs + [d]| - 1] == dirs
  {
  }

  lemma ContentsPush(dirs: seq<DirId>, d: DirId, disk: map<DirId, Tree>)
    requires AllIn(dirs, disk) && d in disk
    ensures AllIn(dirs + [d], disk)
    ensures ContentsOf(dirs + [d], disk) == ContentsOf(dirs, disk) + [disk[d]]
  {
  }

  lemma ContentsFrame(dirs: seq<DirId>, d: DirId, disk: map<DirId, Tree>, t: Tree)
    requires AllIn(dirs, disk) && d !in dirs
    ensures AllIn(dirs, disk[d := t])
    ensures ContentsOf(dirs, disk[d := t]) == ContentsOf(dirs, disk)
  {
  }

  class ContainerSettings {
    /** Contents of every directory that matters. */
    var disk: map<DirId, Tree>
    /** Directory names from here on are unused. */
    var next: DirId
    var lowerDirs: seq<DirId>
    var archiveDirs: seq<DirId>
    var durableTrees: nat
    var reusableArchiveDir: Option<DirId>
    ghost var log: seq<Kind>

    constructor (disk: map<DirId, Tree>, next: DirId)
      requires GoodDisk(disk, next)
      ensures Valid() && Lower() == [] && Shows([]) && log == [] && durableTrees == 0
      ensures this.disk == disk
    {
      this.disk, this.next := disk, next;
      lowerDirs, archiveDirs, durableTrees, reusableArchiveDir := [], [], 0, None;
      log := [];
    }

    /** In particular: the directory for further archives, when there is one, is the
        last lower directory and no other; there is one archive directory per run of
        archives. */
    ghost predicate Valid()
      reads this
    {
      && GoodDisk(disk, next)
      && AllIn(lowerDirs, disk)
      && AllIn(archiveDirs, disk)
      && (reusableArchiveDir.Some? <==> EndsWithArchive(log))
      && (reusableArchiveDir.Some? ==>
            && OnlyLast(lowerDirs, reusableArchiveDir.value)
            && reusableArchiveDir.value in archiveDirs)
      && |archiveDirs| == ArchiveRuns(log)
    }

    function Lower(): seq<Tree>
      reads this
      requires AllIn(lowerDirs, disk)
    {
      ContentsOf(lowerDirs, disk)
    }

    /** Nothing but archive directories changes or becomes an archive directory. */
    ghost predicate KeepsDirs(disk0: map<DirId, Tree>, archiveDirs0: seq<DirId>)
      reads this
    {
      forall d :: d in disk0 && d !in archiveDirs0 ==> d in disk && disk[d] == disk0[d] && d !in archiveDirs
    }

    /** The lower directories stand for `trees`, pushed in this order. */
    ghost predicate Shows(trees: seq<Tree>)
      reads this
      requires Valid()
    {
      Represents(Lower(), trees)
    }

    method RequestArchiveDir() returns (dir: DirId)
      requires Valid()
      modifies this`disk, this`next, this`lowerDirs, this`archiveDirs, this`reusableArchiveDir, this`log
      ensures Valid() && log == old(log) + [ArchiveKind] && reusableArchiveDir == Some(dir)
      ensures forall d :: d in old(disk) ==> d in disk && disk[d] == old(disk)[d]
      ensures if old(reusableArchiveDir).Some?
              then dir == old(reusableArchiveDir).value && disk == old(disk)
                   && lowerDirs == old(lowerDirs) && archiveDirs == old(archiveDirs)
              else dir !in old(disk) && disk == old(disk)[dir := map[[] := TEMP_ROOT]]
                   && lowerDirs == old(lowerDirs) + [dir] && archiveDirs == old(archiveDirs) + [dir]
                   && Lower() == old(Lower()) + [map[[] := TEMP_ROOT]]
    {
      LogStep(log, ArchiveKind);
      log := log + [ArchiveKind];
      if reusableArchiveDir.Some? {
        return reusableArchiveDir.value;
      }
      dir := next;
      next := next + 1;
      ContentsFrame(lowerDirs, dir, disk, map[[] := TEMP_ROOT]);
      disk := disk[dir := map[[] := TEMP_ROOT]];
      ContentsPush(lowerDirs, dir, disk);
      archiveDirs := archiveDirs + [dir];
      reusableArchiveDir := Some(dir);
      lowerDirs := lowerDirs + [dir];
      OnlyLastPush(old(lowerDirs), dir);
    }

    /** The directory that the next archive goes to: the shared one, or a new one. */
    ghost function ArchiveContents(): Tree
      reads this
      requires Valid()
    {
      if reusableArchiveDir.Some? then disk[reusableArchiveDir.value] else map[[] := TEMP_ROOT]
    }

    /** Extracting works in a directory of its own, and in a shared one unless the
        archive turns a directory of an earlier one into something else, or back. */
    method PushArchive(entries: Tree, partial: Tree, dirMode: Mode, ghost trees: seq<Tree>) returns (ok: bool)
      requires Valid() && Shows(trees) && Archive(entries) && Layer(partial)
      modifies this`disk, this`next, this`lowerDirs, this`archiveDirs, this`reusableArchiveDir, this`log
      ensures KeepsDirs(old(disk), old(archiveDirs))
      ensures Valid() && reusableArchiveDir.Some?
      ensures ok <==> Fits(old(ArchiveContents()), entries)
      ensures old(reusableArchiveDir).None? ==> ok
      ensures ok ==> Shows(trees + [AsLayer(Written(old(ArchiveContents()), entries, dirMode))])
      ensures ok ==> log == old(log) + [ArchiveKind]
      ensures ok ==> ArchiveContents() == old(ArchiveContents()) + Written(old(ArchiveContents()), entries, dirMode)
      ensures old(reusableArchiveDir).Some? ==> lowerDirs == old(lowerDirs)
      ensures old(reusableArchiveDir).None? ==> lowerDirs == old(lowerDirs) + [reusableArchiveDir.value]
      ensures old(reusableArchiveDir).None? ==> reusableArchiveDir.value !in old(lowerDirs)
    {
      FreshDirTakesAll(entries);
      PushFresh(Lower(), trees);
      var dir := RequestArchiveDir();
      ok := Unpack(dir, entries, partial, dirMode, trees);
    }

    /** Extracts an archive into the reusable directory. */
    method Unpack(dir: DirId, entries: Tree, partial: Tree, dirMode: Mode, ghost trees: seq<Tree>)
      returns (ok: bool)
      requires Valid() && reusableArchiveDir == Some(dir) && Archive(entries) && Layer(partial)
      requires Shows(trees)
      modifies this`disk
      ensures Valid() && (ok ==> Shows(trees + [AsLayer(Written(old(disk)[dir], entries, dirMode))]))
      ensures ok <==> Fits(old(disk)[dir], entries)
      ensures ok ==> dir in disk && disk[dir] == old(disk)[dir] + Written(old(disk)[dir], entries, dirMode)
      ensures dir in disk && disk == old(disk)[dir := disk[dir]]
    {
      var existing := disk[dir];
      LastOfLower();
      ghost var front := ContentsOf(lowerDirs[..|lowerDirs| - 1], disk);
      var unpacked := Extract(existing, entries, dirMode);
      ok := unpacked.Ok?;
      if ok {
        UnpackLast(trees, front, existing, entries, dirMode);
      }
      FillArchiveDir(dir, if ok then unpacked.value else partial);
    }

    lemma LastOfLower()
      requires Valid() && lowerDirs != []
      ensures Lower() == ContentsOf(lowerDirs[..|lowerDirs| - 1], disk) + [disk[lowerDirs[|lowerDirs| - 1]]]
      ensures Layers(ContentsOf(lowerDirs[..|lowerDirs| - 1], disk))
    {
    }

    /** Changes the contents of the reusable archive directory. */
    method FillArchiveDir(dir: DirId, contents: Tree)
      requires Valid() && reusableArchiveDir == Some(dir) && Layer(contents)
      modifies this`disk
      ensures Valid() && disk == old(disk)[dir := contents]
      ensures Lower() == ContentsOf(lowerDirs[..|lowerDirs| - 1], old(disk)) + [contents]
    {
      ContentsFrame(lowerDirs[..|lowerDirs| - 1], dir, disk, contents);
      disk := disk[dir := contents];
      LastOfLower();
    }

    method PushDir(dir: DirId, onOverlayfs: bool, ghost trees: seq<Tree>) returns (ok: bool)
      requires Valid() && Shows(trees) && dir in disk && dir !in archiveDirs
      modifies this`lowerDirs, this`reusableArchiveDir, this`log
      ensures Valid() && ok == !onOverlayfs
      ensures ok ==> lowerDirs == old(lowerDirs) + [dir] && Shows(trees + [disk[dir]])
                     && log == old(log) + [DirKind] && reusableArchiveDir.None?
      ensures !ok ==> Shows(trees) && lowerDirs == old(lowerDirs) && log == old(log)
    {
      if onOverlayfs {
        return false;
      }
      LogStep(log, DirKind);
      lowerDirs := lowerDirs + [dir];
      reusableArchiveDir := None;
      log := log + [DirKind];
      ContentsPush(old(lowerDirs), dir, disk);
      PushOne(old(Lower()), trees, disk[dir]);
      ok := true;
    }

    method AddLowerDir(contents: Tree)
      requires Valid() && reusableArchiveDir.None? && Layer(contents)
      modifies this`disk, this`next, this`lowerDirs
      ensures Valid() && Lower() == old(Lower()) + [contents]
      ensures KeepsDirs(old(disk), old(archiveDirs))
    {
      ContentsFrame(lowerDirs, next, disk, contents);
      disk := disk[next := contents];
      ContentsPush(lowerDirs, next, disk);
      lowerDirs := lowerDirs + [next];
      next := next + 1;
    }

    method AddLowerDirs(layers: seq<Tree>)
      requires Valid() && reusableArchiveDir.None? && Layers(layers)
      modifies this`disk, this`next, this`lowerDirs
      ensures Valid() && Lower() == old(Lower()) + layers
      ensures KeepsDirs(old(disk), old(archiveDirs))
    {
      ghost var lower := Lower();
      for i := 0 to |layers|
        invariant Valid()
        invariant Lower() == lower + layers[..i]
        invariant KeepsDirs(old(disk), old(archiveDirs))
      {
        AddLowerDir(layers[i]);
        assert lower + layers[..i + 1] == lower + layers[..i] + [layers[i]];
      }
      assert lower + layers[..|layers|] == lower + layers;
    }

    method NoteDurableTree()
      requires Valid()
      modifies this`durableTrees, this`reusableArchiveDir, this`log
      ensures Valid() && reusableArchiveDir.None? && log == old(log) + [DurableKind]
      ensures durableTrees == old(durableTrees) + 1
    {
      LogStep(log, DurableKind);
      log := log + [DurableKind];
      reusableArchiveDir := None;
      durableTrees := durableTrees + 1;
    }

    method PushDurableTree(root: DurableRoot, order: seq<Path>, dirMode: Mode, onOverlayfs: bool,
                           ghost t: Tree, ghost trees: seq<Tree>)
      returns (ok: bool)
      requires Valid() && Shows(trees) && Sound(root, order, t)
      modifies this`disk, this`next, this`lowerDirs, this`durableTrees, this`reusableArchiveDir, this`log
      modifies root`raw, root`restored
      ensures Valid() && KeepsDirs(old(disk), old(archiveDirs)) && Sound(root, order, t)
      ensures ok <==> !HotMode(root.rootMode) && !(onOverlayfs && HasChild(t))
      ensures ok ==> Shows(trees + [t]) && log == old(log) + [DurableKind] && reusableArchiveDir.None?
      ensures durableTrees == old(durableTrees) + if ok then 1 else 0
      ensures !ok ==> Shows(trees) && lowerDirs == old(lowerDirs) && log == old(log)
    {
      var layers;
      ok, layers := ExpandTree(root, order, dirMode, onOverlayfs, t);
      if !ok {
        return;
      }
      PushDurable(Lower(), trees, t, dirMode);
      NoteDurableTree();
      AddLowerDirs(layers);
    }

    /** The path names a layer whose contents, as pushed, are `t`. */
    ghost predicate Denotes(path: LayerPath, t: Tree)
      reads this, RootOf(path)
    {
      match path
      case ArchivePath(entries, partial, dirMode) =>
        Archive(entries) && Layer(partial) && t == ArchiveLayer(entries, dirMode)
      case DirPath(dir, _) => dir in disk && dir !in archiveDirs && t == disk[dir]
      case DurablePath(root, order, _, _) =>
        Sound(root, order, t)
      case OtherFile => true
    }

    /** The durable trees among the layers that are still hot. */
    ghost function HotRoots(layers: seq<LayerPath>): set<DurableRoot>
      reads Roots(layers)`rootMode
    {
      set r | r in Roots(layers) && HotMode(r.rootMode)
    }

    /** Pushes one layer. On success the lower directories show that layer on top of
        all earlier ones. */
    method PushLayer(path: LayerPath, ghost t: Tree, ghost trees: seq<Tree>) returns (ok: bool, ghost shown: Tree)
      requires Valid() && Shows(trees)
      requires Denotes(path, t)
      modifies this, RootOf(path)`raw, RootOf(path)`restored
      ensures Valid() && KeepsDirs(old(disk), old(archiveDirs))
      ensures path.DurablePath? ==> Sound(path.root, path.order, t)
      ensures ok <==> Pushable(path, t, path.DurablePath? && HotMode(path.root.rootMode), old(ArchiveContents()))
      ensures ok ==> Shows(trees + [shown]) && ShownAs(path, t, shown)
      ensures ok ==> ArchiveContents() == NextContents(path, old(ArchiveContents()))
      ensures ok ==> log == old(log) + [if path.ArchivePath? then ArchiveKind
                                        else if path.DirPath? then DirKind else DurableKind]
    {
      shown := t;
      match path
      case ArchivePath(entries, partial, dirMode) =>
        shown := AsLayer(Written(ArchiveContents(), entries, dirMode));
        if Fits(ArchiveContents(), entries) {
          WrittenShowsArchive(ArchiveContents(), entries, dirMode);
        }
        ok := PushArchive(entries, partial, dirMode, trees);
      case DirPath(dir, onOverlayfs) =>
        ok := PushDir(dir, onOverlayfs, trees);
      case DurablePath(root, order, dirMode, onOverlayfs) =>
        ok := PushDurableTree(root, order, dirMode, onOverlayfs, t, trees);
      case OtherFile =>
        ok := false;
    }

    ghost predicate DenoteAll(layers: seq<LayerPath>, trees: seq<Tree>)
      reads this, Roots(layers)
      requires |layers| == |trees|
    {
      forall k :: 0 <= k < |layers| ==> Denotes(layers[k], trees[k])
    }

    /** Pushes one of several layers; the others still denote what they did. */
    method PushOneOf(layers: seq<LayerPath>, i: nat, ghost prior: seq<Tree>, ghost trees: seq<Tree>)
      returns (ok: bool, ghost shown: Tree)
      requires Valid() && SameRootSameTree(layers, trees) && i < |layers| && Shows(prior)
      requires DenoteAll(layers, trees)
      modifies this, Roots(layers)`raw, Roots(layers)`restored
      ensures Valid() && (ok ==> Shows(prior + [shown]) && ShownAs(layers[i], trees[i], shown))
      ensures DenoteAll(layers, trees)
      ensures ok <==> Pushable(layers[i], trees[i], layers[i].DurablePath? && HotMode(layers[i].root.rootMode),
                               old(ArchiveContents()))
      ensures ok ==> ArchiveContents() == NextContents(layers[i], old(ArchiveContents()))
    {
      ok, shown := PushLayer(layers[i], trees[i], prior);
      forall k | 0 <= k < |layers| ensures Denotes(layers[k], trees[k]) {
        if layers[k].DurablePath? {
          if layers[i].DurablePath? && layers[k].root == layers[i].root {
            assert layers[k].root in RootOf(layers[i]) * RootOf(layers[k]);
          } else {
            assert RootOf(layers[k]) !! RootOf(layers[i]);
          }
        }
      }
    }

    /** The same; pushing cools no tree down and heats none up. */
    method PushNext(layers: seq<LayerPath>, i: nat, ghost prior: seq<Tree>, ghost trees: seq<Tree>,
                    ghost hot: set<DurableRoot>)
      returns (ok: bool, ghost shown: Tree)
      requires Valid() && SameRootSameTree(layers, trees) && i < |layers| && Shows(prior)
      requires DenoteAll(layers, trees) && HotRoots(layers) == hot
      modifies this, Roots(layers)`raw, Roots(layers)`restored
      ensures Valid() && (ok ==> Shows(prior + [shown]) && ShownAs(layers[i], trees[i], shown))
      ensures DenoteAll(layers, trees) && HotRoots(layers) == hot
      ensures ok <==> Pushable(layers[i], trees[i], IsHot(layers[i], hot), old(ArchiveContents()))
      ensures ok ==> ArchiveContents() == NextContents(layers[i], old(ArchiveContents()))
    {
      RootsContain(layers, i);
      ok, shown := PushOneOf(layers, i, prior, trees);
    }

    /** Pushes all layers given on the command line, in order. On success the lower
        directories show exactly those trees, one on top of the other, over what was
        pushed before. */
    method ApplyCommonArgs(layers: seq<LayerPath>, ghost prior: seq<Tree>, ghost trees: seq<Tree>)
      returns (ok: bool, ghost shown: seq<Tree>)
      requires Valid() && Shows(prior) && SameRootSameTree(layers, trees)
      requires DenoteAll(layers, trees)
      modifies this, Roots(layers)`raw, Roots(layers)`restored
      ensures Valid()
      ensures ok <==> AllPushable(layers, trees, 0, old(HotRoots(layers)), old(ArchiveContents()))
      ensures ok ==> |shown| == |layers| && Shows(prior + shown) && AllShownAs(layers, trees, shown)
    {
      shown := [];
      assert prior + shown == prior;
      ghost var hot, first := HotRoots(layers), ArchiveContents();
      for i := 0 to |layers|
        invariant Valid() && |shown| == i && Shows(prior + shown)
        invariant DenoteAll(layers, trees) && AllShownAs(layers, trees, shown)
        invariant HotRoots(layers) == hot
        invariant AllPushable(layers, trees, i, hot, ArchiveContents()) == AllPushable(layers, trees, 0, hot, first)
      {
        ghost var top;
        ok, top := PushNext(layers, i, prior + shown, trees, hot);
        if !ok {
          return;
        }
        OneMoreShown(layers, trees, prior, shown, top);
        shown := shown + [top];
      }
      ok := true;
    }

    /** Mounts the container: the stage directory over all pushed layers, the upper
        directory over that. Up to 499 lower directories, and beyond that as long as
        no chunk loses a path, the container is the overlay of the pushed trees. */
    method Prepare(stage: Tree, upper: Tree, ghost trees: seq<Tree>) returns (r: Result<Tree>)
      requires Valid() && Shows(trees) && Layer(stage)
      ensures r.Ok? <==> |lowerDirs| < Mounts.MAX_LOWER_DIRS * Mounts.MAX_LOWER_DIRS
      ensures r.Ok? && (|lowerDirs| < Mounts.MAX_LOWER_DIRS
                        || NothingLost(Mounts.Chunks(Lower() + [stage], Mounts.MAX_LOWER_DIRS))) ==>
                r.value == Merge(Stack(map[], trees + [stage]), upper)
    {
      r := Mounts.MountOverlayfs(Lower() + [stage], upper, true);
      StackAppend(map[], Lower(), [stage]);
      StackAppend(map[], trees, [stage]);
      OneLayer(Stack(map[], Lower()), stage);
      OneLayer(Stack(map[], trees), stage);
      TopRootDecides(Stack(map[], Lower()), Stack(map[], trees), stage);
      if r.Ok? && |lowerDirs| >= Mounts.MAX_LOWER_DIRS {
        Mounts.TwoLevelMountIsFlatByLayers(Lower() + [stage]);
      }
    }
  }

  /** No mounted chunk hides a path without the mount showing it. */
  ghost predicate NothingLost(chunks: seq<seq<Tree>>) {
    forall i, p :: 0 <= i < |chunks| ==> !OverlayLayers.LostAt(chunks, i, p)
  }

  lemma NoLayersExactly(t: Tree, dirMode: Mode)
    requires Convertible(t)
    ensures LayersOf(ExtraOf(t, dirMode), RawOf(t)) == [] <==> !HasChild(t)
  {
    if HasChild(t) && !HasChild(ExtraOf(t, dirMode)) {
      NoExtraMeansRaw(t, dirMode);
    }
  }

  /** The layers of a durable tree, none of which may be on overlayfs. */
  method ExpandTree(root: DurableRoot, order: seq<Path>, dirMode: Mode, onOverlayfs: bool, ghost t: Tree)
    returns (ok: bool, layers: seq<Tree>)
    requires Sound(root, order, t)
    modifies root`raw, root`restored
    ensures Sound(root, order, t) && Convertible(t)
    ensures ok <==> !HotMode(root.rootMode) && !(onOverlayfs && HasChild(t))
    ensures ok ==> Layers(layers) && layers == LayersOf(ExtraOf(t, dirMode), RawOf(t))
  {
    var r := root.Expand(order, dirMode, t);
    RawIsRecoverable(t);
    ExtraIsLayer(t, dirMode);
    NoLayersExactly(t, dirMode);
    if r.Err? || (onOverlayfs && r.value != []) {
      return false, [];
    }
    return true, r.value;
  }

  lemma RootsContain(layers: seq<LayerPath>, i: nat)
    requires i < |layers|
    ensures layers[i].DurablePath? ==> layers[i].root in Roots(layers)
  {
    if layers[i].DurablePath? {
      assert layers[i].root in RootOf(layers[i]);
    }
  }

  /** What it takes to push a layer, while the next archive goes to a directory with
      `contents`. An empty durable tree has no layers that could be on overlayfs. */
  predicate Pushable(path: LayerPath, t: Tree, hot: bool, contents: Tree) {
    match path
    case ArchivePath(entries, _, _) => Fits(contents, entries)
    case DirPath(_, onOverlayfs) => !onOverlayfs
    case DurablePath(_, _, _, onOverlayfs) => !hot && !(onOverlayfs && HasChild(t))
    case OtherFile => false
  }

  /** What the directory for the next archive holds then. */
  function NextContents(path: LayerPath, contents: Tree): Tree {
    match path
    case ArchivePath(entries, _, dirMode) => contents + Written(contents, entries, dirMode)
    case _ => map[[] := TEMP_ROOT]
  }

  predicate IsHot(path: LayerPath, hot: set<DurableRoot>) {
    path.DurablePath? && path.root in hot
  }

  /** Each layer from the `i`-th on can be pushed when its turn comes. */
  predicate AllPushable(layers: seq<LayerPath>, trees: seq<Tree>, i: nat, hot: set<DurableRoot>, contents: Tree)
    requires i <= |layers| == |trees|
    decreases |layers| - i
  {
    i == |layers| ||
    (&& Pushable(layers[i], trees[i], IsHot(layers[i], hot), contents)
     && AllPushable(layers, trees, i + 1, hot, NextContents(layers[i], contents)))
  }

  /** A layer is shown as it is, an archive up to the modes of directories it implies. */
  ghost predicate ShownAs(path: LayerPath, t: Tree, shown: Tree) {
    if path.ArchivePath? then SameButImplied(path.entries, t, shown) else shown == t
  }

  ghost predicate AllShownAs(layers: seq<LayerPath>, trees: seq<Tree>, shown: seq<Tree>)
    requires |shown| <= |layers| == |trees|
  {
    forall i :: 0 <= i < |shown| ==> ShownAs(layers[i], trees[i], shown[i])
  }

  lemma OneMoreShown(layers: seq<LayerPath>, trees: seq<Tree>, prior: seq<Tree>, shown: seq<Tree>, top: Tree)
    requires |shown| < |layers| == |trees| && AllShownAs(layers, trees, shown)
    requires ShownAs(layers[|shown|], trees[|shown|], top)
    ensures AllShownAs(layers, trees, shown + [top]) && prior + (shown + [top]) == prior + shown + [top]
  {
  }

  ghost predicate SameRootSameTree(layers: seq<LayerPath>, trees: seq<Tree>) {
    && |layers| == |trees|
    && forall i, j ::
         0 <= i < |layers| && 0 <= j < |layers| && RootOf(layers[i]) * RootOf(layers[j]) != {} ==> trees[i] == trees[j]
  }

  lemma LogStep(log: seq<Kind>, k: Kind)
    ensures EndsWithArchive(log + [k]) <==> k.ArchiveKind?
    ensures ArchiveRuns(log + [k]) == ArchiveRuns(log) + if k.ArchiveKind? && !EndsWithArchive(log) then 1 else 0
  {
  }

  lemma {:induction false} RootIsDir(layers: seq<Tree>)
    requires Layers(layers)
    ensures [] in Stack(map[], layers) ==> Stack(map[], layers)[[]].Dir?
    decreases |layers|
  {
  }

  lemma StackPush(layers: seq<Tree>, top: Tree)
    ensures Stack(map[], layers + [top]) == Merge(Stack(map[], layers), top)
  {
  }

  lemma PushOne(lower: seq<Tree>, trees: seq<Tree>, top: Tree)
    requires Represents(lower, trees) && Layer(top)
    ensures Represents(lower + [top], trees + [top])
  {
  }

  lemma PushDurable(lower: seq<Tree>, trees: seq<Tree>, t: Tree, dirMode: Mode)
    requires Represents(lower, trees) && Convertible(t)
    ensures Represents(lower + LayersOf(ExtraOf(t, dirMode), RawOf(t)), trees + [t])
  {
    var x, y := Stack(map[], lower), Stack(map[], trees);
    StackAppend(map[], lower, LayersOf(ExtraOf(t, dirMode), RawOf(t)));
    StackPush(trees, t);
    ExpandedLayersShowTheOriginal(x, t, dirMode);
    MergeSameBelowRoot(x, y, t);
    assert SameBelowRoot(Merge(x, t), Merge(y, t));
  }

  /** An archive unpacked into the last lower directory, new or shared. */
  lemma ReplaceLast(trees: seq<Tree>, front: seq<Tree>, existing: Tree, entries: Tree)
    requires ArchiveTree(entries) && Layer(existing) && Compatible(existing, entries) && Layers(front)
    requires Represents(front + [existing], trees)
    ensures Represents(front + [existing + entries], trees + [AsLayer(entries)])
    ensures Layer(existing + entries)
  {
    var base := Stack(map[], front);
    RootIsDir(front);
    SharedDirectoryIsTwoLayers(base, existing, entries);
    StackPush(front, existing + entries);
    StackPush(front, existing);
    StackPush(trees, AsLayer(entries));
    MergeSameBelowRoot(Merge(base, existing), Stack(map[], trees), AsLayer(entries));
  }

  lemma UnpackLast(trees: seq<Tree>, front: seq<Tree>, existing: Tree, entries: Tree, dirMode: Mode)
    requires Archive(entries) && Layer(existing) && Fits(existing, entries) && Layers(front)
    requires Represents(front + [existing], trees)
    ensures var unpacked := existing + Written(existing, entries, dirMode);
            && Represents(front + [unpacked], trees + [AsLayer(Written(existing, entries, dirMode))])
            && Layer(unpacked)
  {
    WrittenIsComplete(existing, entries, dirMode);
    ReplaceLast(trees, front, existing, Written(existing, entries, dirMode));
  }

  /** A new, empty archive directory shows nothing. */
  lemma PushFresh(lower: seq<Tree>, trees: seq<Tree>)
    requires Represents(lower, trees)
    ensures Represents(lower + [map[[] := TEMP_ROOT]], trees)
  {
    StackPush(lower, map[[] := TEMP_ROOT]);
    FreshDirChangesNothing(Stack(map[], lower));
  }

  lemma FreshDirChangesNothing(base: Tree)
    requires [] in base ==> base[[]].Dir?
    ensures SameBelowRoot(Merge(base, map[[] := TEMP_ROOT]), base)
  {
  }
}
