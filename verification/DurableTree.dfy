/** What a durable tree stores, what restoring it does, and why the layers it
    expands to reproduce the original directory.
 */
module DurableTree {
  import opened FileTree
  import opened Overlay
  import opened StringOrder
  import opened Wrappers

  const MODE_755: Mode := 0x1ED
  const MODE_700: Mode := 0x1C0
  const MODE_555: Mode := 0x16D
  const MODE_777: Mode := 0x1FF

  /** One entry of `manifest.json`. */
  datatype Entry =
    | Regular(mode: Mode, xattrs: Xattrs)
    | Directory(mode: Mode, xattrs: Xattrs)
    | SymlinkEntry(target: string)
    | WhiteoutEntry

  type Manifest = map<Path, Entry>

  predicate Plain(n: Node) {
    n.File? || n.Dir?
  }

  /** The file types `convert` accepts. */
  ghost predicate Supported(t: Tree) {
    forall p :: p in t ==> !t[p].Special?
  }

  /** A directory tree that can be converted. */
  ghost predicate Convertible(t: Tree) {
    Layer(t) && Supported(t) && ValidNames(t)
  }

  /** File names are not empty and hold no slash. */
  ghost predicate ValidNames(t: Tree) {
    forall p :: p in t ==> ValidPath(p)
  }

  predicate ValidPath(p: Path) {
    forall i :: 0 <= i < |p| ==> p[i] != "" && '/' !in p[i]
  }

  function EntryOf(n: Node): Entry
    requires !n.Special?
  {
    match n
    case File(_, mode, xattrs) => Regular(mode, xattrs)
    case Dir(mode, xattrs) => Directory(mode, xattrs)
    case Symlink(target) => SymlinkEntry(target)
    case Whiteout => WhiteoutEntry
  }

  function ManifestOf(t: Tree): Manifest
    requires Supported(t)
  {
    map p | p in t :: EntryOf(t[p])
  }

  /** The part of a tree that stays in the raw directory. */
  function RawOf(t: Tree): Tree {
    map p | p in t && Plain(t[p]) :: t[p]
  }

  // ---- Restoring ----------------------------------------------------------

  function SetMode(n: Node, mode: Mode): Node
    requires Plain(n)
  {
    n.(mode := mode)
  }

  function AddXattrs(n: Node, xattrs: Xattrs): Node
    requires Plain(n)
  {
    n.(xattrs := n.xattrs + xattrs)
  }

  /** Restores one manifest entry. A missing file, or a missing parent of a
      missing directory, is an error; a missing directory is created. */
  function RestoreEntry(raw: Tree, p: Path, e: Entry): Result<Tree> {
    match e
    case Regular(mode, xattrs) =>
      if p in raw && Plain(raw[p]) then Ok(raw[p := SetMode(AddXattrs(raw[p], xattrs), mode)]) else Err
    case Directory(mode, xattrs) =>
      if p in raw then
        if Plain(raw[p]) then Ok(raw[p := SetMode(AddXattrs(raw[p], xattrs), mode)]) else Err
      else if p == [] || IsDir(raw, Parent(p)) then Ok(raw[p := Dir(mode, xattrs)])
      else Err
    case SymlinkEntry(_) => Ok(raw)
    case WhiteoutEntry => Ok(raw)
  }

  function RestoreFirst(raw: Tree, manifest: Manifest, order: seq<Path>, n: nat): Result<Tree>
    requires n <= |order| && forall i :: 0 <= i < n ==> order[i] in manifest
  {
    if n == 0 then Ok(raw)
    else
      match RestoreFirst(raw, manifest, order, n - 1)
      case Err => Err
      case Ok(r) => RestoreEntry(r, order[n - 1], manifest[order[n - 1]])
  }

  /** `raw` still holds what cannot be rebuilt: every regular file with its
      content, nothing foreign, and no user xattr the manifest would not set. */
  ghost predicate Recoverable(raw: Tree, t: Tree) {
    && WellFormed(raw)
    && (forall p :: p in raw ==> p in t && SameIdentity(raw[p], t[p]))
    && (forall p :: p in t && t[p].File? ==> p in raw)
  }

  ghost predicate SameIdentity(found: Node, original: Node) {
    && Plain(found)
    && Plain(original)
    && found.Dir? == original.Dir?
    && (found.File? ==> found.content == original.content)
    && (forall k :: k in found.xattrs ==> k in original.xattrs && original.xattrs[k] == found.xattrs[k])
  }

  ghost predicate ListedBefore(order: seq<Path>, i: nat, p: Path)
    requires i <= |order|
  {
    exists j :: 0 <= j < i && order[j] == p
  }

  /** An enumeration of the manifest in which parents come before children. */
  ghost predicate ParentsFirst(order: seq<Path>, t: Tree) {
    && (forall i :: 0 <= i < |order| ==> order[i] in t)
    && (forall p :: p in t ==> p in order)
    && (forall i, j :: 0 <= i < j < |order| ==> order[i] != order[j])
    && (forall i {:trigger Parent(order[i])} :: 0 <= i < |order| && order[i] != [] ==>
          ListedBefore(order, i, Parent(order[i])))
  }

  ghost predicate RestoredUpTo(raw: Tree, t: Tree, order: seq<Path>, n: nat)
    requires n <= |order|
  {
    forall i :: 0 <= i < n && order[i] in t && Plain(t[order[i]]) ==> order[i] in raw && raw[order[i]] == t[order[i]]
  }

  lemma SetAllMetadata(found: Node, original: Node)
    requires SameIdentity(found, original)
    ensures SetMode(AddXattrs(found, original.xattrs), original.mode) == original
  {
  }

  /** One entry never fails when its parent is there, and brings exactly that
      entry to its original state. */
  lemma RestoreEntryExactly(raw: Tree, t: Tree, p: Path)
    requires Convertible(t) && Recoverable(raw, t) && p in t
    requires p in raw || p == [] || IsDir(raw, Parent(p))
    ensures RestoreEntry(raw, p, ManifestOf(t)[p]) == Ok(if Plain(t[p]) then raw[p := t[p]] else raw)
  {
    if p in raw {
      SetAllMetadata(raw[p], t[p]);
    }
  }

  lemma ParentRestored(raw: Tree, t: Tree, order: seq<Path>, n: nat)
    requires WellFormed(t) && ParentsFirst(order, t) && n < |order| && order[n] != []
    requires RestoredUpTo(raw, t, order, n)
    ensures IsDir(raw, Parent(order[n]))
  {
  }

  lemma RestoreStep(raw: Tree, t: Tree, order: seq<Path>, n: nat)
    requires Convertible(t) && Recoverable(raw, t) && ParentsFirst(order, t)
    requires n < |order| && RestoredUpTo(raw, t, order, n)
    ensures order[n] in t
    ensures var r := RestoreEntry(raw, order[n], ManifestOf(t)[order[n]]);
            r.Ok? && Recoverable(r.value, t) && RestoredUpTo(r.value, t, order, n + 1)
  {
    var p := order[n];
    if p != [] {
      ParentRestored(raw, t, order, n);
    }
    RestoreEntryExactly(raw, t, p);
    OneMoreRestored(raw, t, order, n);
    if Plain(t[p]) {
      ReplaceIsRecoverable(raw, t, p, t[p]);
    }
  }

  lemma OneMoreRestored(raw: Tree, t: Tree, order: seq<Path>, n: nat)
    requires n < |order| && order[n] in t && RestoredUpTo(raw, t, order, n)
    ensures RestoredUpTo(if Plain(t[order[n]]) then raw[order[n] := t[order[n]]] else raw, t, order, n + 1)
  {
  }

  /** After `n` entries: everything can still be restored, and those entries are. */
  ghost predicate Progress(r: Result<Tree>, t: Tree, order: seq<Path>, n: nat)
    requires n <= |order|
  {
    r.Ok? && Recoverable(r.value, t) && RestoredUpTo(r.value, t, order, n)
  }

  ghost predicate StepProgresses(r: Result<Tree>, manifest: Manifest, t: Tree, order: seq<Path>, n: nat)
    requires n < |order| && order[n] in manifest
  {
    Progress(r, t, order, n) ==> Progress(RestoreEntry(r.value, order[n], manifest[order[n]]), t, order, n + 1)
  }

  lemma {:induction false} ProgressByInduction(raw: Tree, manifest: Manifest, t: Tree, order: seq<Path>, n: nat)
    requires n <= |order| && (forall i :: 0 <= i < |order| ==> order[i] in manifest) && Recoverable(raw, t)
    requires forall r, i :: 0 <= i < |order| ==> StepProgresses(r, manifest, t, order, i)
    ensures Progress(RestoreFirst(raw, manifest, order, n), t, order, n)
  {
    if n > 0 {
      ProgressByInduction(raw, manifest, t, order, n - 1);
      assert StepProgresses(RestoreFirst(raw, manifest, order, n - 1), manifest, t, order, n - 1);
    }
  }

  lemma RestoreFirstProgress(raw: Tree, t: Tree, order: seq<Path>, n: nat)
    requires Convertible(t) && Recoverable(raw, t) && ParentsFirst(order, t) && n <= |order|
    ensures Progress(RestoreFirst(raw, ManifestOf(t), order, n), t, order, n)
  {
    forall r: Result<Tree>, i | 0 <= i < |order| ensures StepProgresses(r, ManifestOf(t), t, order, i) {
      if Progress(r, t, order, i) {
        RestoreStep(r.value, t, order, i);
      }
    }
    ProgressByInduction(raw, ManifestOf(t), t, order, n);
  }

  lemma FullyRestored(raw: Tree, t: Tree, order: seq<Path>)
    requires Recoverable(raw, t) && ParentsFirst(order, t) && RestoredUpTo(raw, t, order, |order|)
    ensures raw == RawOf(t)
  {
  }

  /** Restoring any recoverable tree succeeds and gives back the original files
      and directories, with all their metadata. */
  lemma RestoreRecovers(raw: Tree, t: Tree, order: seq<Path>)
    requires Convertible(t) && Recoverable(raw, t) && ParentsFirst(order, t)
    ensures RestoreFirst(raw, ManifestOf(t), order, |order|) == Ok(RawOf(t))
  {
    RestoreFirstProgress(raw, t, order, |order|);
    FullyRestored(RestoreFirst(raw, ManifestOf(t), order, |order|).value, t, order);
  }

  /** Where a restoration can be cut short inside an entry: the directory made,
      the mode still 0755, some of the xattrs set. */
  ghost predicate HalfRestored(raw: Tree, p: Path, e: Entry, raw': Tree) {
    || raw' == raw
    || (e.Directory? && p !in raw && (p == [] || IsDir(raw, Parent(p)))
        && exists mode, some :: HalfOf(some, e) && raw' == raw[p := Dir(mode, some)])
    || (Plain'(e) && p in raw && Plain(raw[p])
        && exists some :: HalfOf(some, e) && raw' == raw[p := SetMode(AddXattrs(raw[p], some), MODE_755)])
  }

  predicate Plain'(e: Entry) {
    e.Regular? || e.Directory?
  }

  ghost predicate HalfOf(some: Xattrs, e: Entry) {
    Plain'(e) && forall k :: k in some ==> k in e.xattrs && e.xattrs[k] == some[k]
  }

  /** The raw directory after `n` entries and some of the next one, if there is one. */
  ghost predicate StoppedAt(raw: Tree, m: Manifest, order: seq<Path>, n: nat, raw': Tree)
    requires n <= |order| && forall i :: 0 <= i < |order| ==> order[i] in m
  {
    var r := RestoreFirst(raw, m, order, n);
    && r.Ok?
    && if n < |order| then HalfRestored(r.value, order[n], m[order[n]], raw') else raw' == r.value
  }

  /** Stopping anywhere, also after the last entry, leaves a recoverable tree, and
      running again from there reaches the same state as an uninterrupted run. */
  lemma InterruptedRestoreRecovers(raw: Tree, t: Tree, order: seq<Path>, n: nat, raw': Tree)
    requires Convertible(t) && Recoverable(raw, t) && ParentsFirst(order, t) && n <= |order|
    requires StoppedAt(raw, ManifestOf(t), order, n, raw')
    ensures Recoverable(raw', t)
    ensures n == |order| ==> raw' == RawOf(t)
    ensures RestoreFirst(raw', ManifestOf(t), order, |order|) == RestoreFirst(raw, ManifestOf(t), order, |order|)
  {
    RestoreFirstProgress(raw, t, order, n);
    if n < |order| {
      HalfRestoredIsRecoverable(RestoreFirst(raw, ManifestOf(t), order, n).value, t, order[n], raw');
    } else {
      RestoreRecovers(raw, t, order);
      RawIsRecoverable(t);
    }
    RestoreRecovers(raw', t, order);
    RestoreRecovers(raw, t, order);
  }

  lemma HalfRestoredIsRecoverable(raw: Tree, t: Tree, p: Path, raw': Tree)
    requires Convertible(t) && Recoverable(raw, t) && p in t
    requires HalfRestored(raw, p, ManifestOf(t)[p], raw')
    ensures Recoverable(raw', t)
  {
    if raw' != raw {
      var n := raw'[p];
      assert raw' == raw[p := n];
      assert SameIdentity(n, t[p]);
      assert p in raw || p == [] || IsDir(raw, Parent(p));
      ReplaceIsRecoverable(raw, t, p, n);
    }
  }

  lemma ReplaceIsRecoverable(raw: Tree, t: Tree, p: Path, n: Node)
    requires Recoverable(raw, t) && p in t && SameIdentity(n, t[p])
    requires p in raw || p == [] || IsDir(raw, Parent(p))
    ensures Recoverable(raw[p := n], t)
  {
  }

  // ---- The manifest is read in string order --------------------------------

  /** The key under which a path is stored. */
  function Key(p: Path): string {
    if p == [] then ""
    else if |p| == 1 then p[0]
    else Key(Parent(p)) + "/" + p[|p| - 1]
  }

  /** For instance. */
  lemma KeyOfThree()
    ensures Key([]) == "" && Key(["usr"]) == "usr" && Key(["usr", "lib", "x"]) == "usr/lib/x"
  {
    assert Parent(["usr", "lib"]) == ["usr"] && Parent(["usr", "lib", "x"]) == ["usr", "lib"];
    assert Key(["usr", "lib"]) == "usr/lib";
  }

  lemma ParentKeyIsPrefix(p: Path)
    requires ValidPath(p) && p != []
    ensures Less(Key(Parent(p)), Key(p))
  {
    if |p| == 1 {
      assert Parent(p) == [] && p[0] != "";
    } else {
      assert Key(p) == Key(Parent(p)) + ("/" + p[|p| - 1]);
      PrefixIsLess(Key(Parent(p)), Key(p));
    }
  }

  /** The iteration order of the manifest: ascending keys, every path once. */
  ghost predicate ManifestOrder(order: seq<Path>, keys: set<Path>) {
    && (forall i :: 0 <= i < |order| ==> order[i] in keys)
    && (forall p :: p in keys ==> p in order)
    && (forall i, j :: 0 <= i < j < |order| ==> Less(Key(order[i]), Key(order[j])))
  }

  /** So a missing directory is never recreated before its parent. */
  lemma StringOrderVisitsParentsFirst(order: seq<Path>, t: Tree)
    requires WellFormed(t) && ValidNames(t) && ManifestOrder(order, t.Keys)
    ensures ParentsFirst(order, t)
  {
    forall i, j | 0 <= i < j < |order| ensures order[i] != order[j] {
      LessIsStrict(Key(order[i]), Key(order[j]));
    }
    forall i {:trigger Parent(order[i])} | 0 <= i < |order| && order[i] != []
      ensures ListedBefore(order, i, Parent(order[i]))
    {
      ParentListedBefore(order, t, i);
    }
  }

  lemma ParentListedBefore(order: seq<Path>, t: Tree, i: nat)
    requires WellFormed(t) && ValidNames(t) && ManifestOrder(order, t.Keys) && i < |order| && order[i] != []
    ensures ListedBefore(order, i, Parent(order[i]))
  {
    var p := order[i];
    var up := Parent(p);
    assert IsDir(t, up) && up in order;
    var j :| 0 <= j < |order| && order[j] == up;
    ParentKeyIsPrefix(p);
    LessIsStrict(Key(up), Key(p));
    assert j < i;
  }

  // ---- The layers ----------------------------------------------------------

  predicate AboveSpecial(t: Tree, p: Path) {
    exists q :: q in t && !Plain(t[q]) && p <= q && p != q
  }

  /** The extra directory: symlinks and whiteouts, and the directories they need. */
  function ExtraOf(t: Tree, dirMode: Mode): Tree {
    map p | p in t && (!Plain(t[p]) || AboveSpecial(t, p) || p == [])
      :: if !Plain(t[p]) then t[p] else Dir(if p == [] then MODE_755 else dirMode, map[])
  }

  predicate HasChild(t: Tree) {
    exists p :: p in t && p != []
  }

  /** The layers returned by `expand`, lowest first. */
  function LayersOf(extra: Tree, raw: Tree): seq<Tree> {
    if HasChild(extra) then [extra, raw]
    else if HasChild(raw) then [raw]
    else []
  }

  /** A directory with nothing in it is no layer, unless it is the raw one above an extra
      one that is. */
  lemma EmptyDirsAreLeftOut(extra: Tree, raw: Tree)
    ensures forall p :: p in extra && |p| > 0 ==> LayersOf(extra, raw) == [extra, raw]
    ensures forall p :: p in raw && |p| > 0 ==> LayersOf(extra, raw) == [extra, raw] || LayersOf(extra, raw) == [raw]
    ensures (forall p :: p in extra ==> p == []) ==> |LayersOf(extra, raw)| <= 1
    ensures (forall p :: p in extra || p in raw ==> p == []) ==> LayersOf(extra, raw) == []
  {
  }

  lemma ExtraIsLayer(t: Tree, dirMode: Mode)
    requires Convertible(t)
    ensures Layer(ExtraOf(t, dirMode)) && Layer(RawOf(t))
  {
  }

  lemma CoveredBySpecials(t: Tree, dirMode: Mode, p: Path)
    requires Convertible(t)
    ensures Covered(t, p) <==> Covered(ExtraOf(t, dirMode), p) || Covered(RawOf(t), p)
  {
  }

  lemma NoCoverInside(t: Tree, p: Path)
    requires WellFormed(t) && p in t
    ensures !Covered(t, p)
  {
    if Covered(t, p) {
      var k :| 0 <= k < |p| && p[..k] in t && !t[p[..k]].Dir?;
      AncestorsAreDirs(t, p, k);
    }
  }

  /** Over any lower directories, raw above extra shows exactly what the original
      directory would show: contents, modes, xattrs, symlinks, and everything that
      whiteouts and replaced entries hide. */
  lemma ExtraAndRawMakeTheOriginal(base: Tree, t: Tree, dirMode: Mode)
    requires Convertible(t)
    ensures Merge(Merge(base, ExtraOf(t, dirMode)), RawOf(t)) == Merge(base, t)
  {
    var extra, raw := ExtraOf(t, dirMode), RawOf(t);
    var both, whole := Merge(Merge(base, extra), raw), Merge(base, t);
    forall p ensures (p in both <==> p in whole) && (p in both ==> both[p] == whole[p]) {
      CoveredBySpecials(t, dirMode, p);
      if p in t {
        NoCoverInside(t, p);
      }
    }
  }

  /** The layers `expand` returns stand for the original tree on top of any base.
      Only the root's own metadata is lost, and only when the tree is empty. */
  lemma ExpandedLayersShowTheOriginal(base: Tree, t: Tree, dirMode: Mode)
    requires Convertible(t)
    ensures var layers := LayersOf(ExtraOf(t, dirMode), RawOf(t));
            if HasChild(t) then Stack(base, layers) == Merge(base, t)
            else layers == [] && Merge(base, t) == base[[] := t[[]]]
  {
    var extra, raw := ExtraOf(t, dirMode), RawOf(t);
    if HasChild(extra) {
      ExtraAndRawMakeTheOriginal(base, t, dirMode);
      OneLayer(base, extra);
      TwoLayers(base, extra, raw);
    } else {
      NoExtraMeansRaw(t, dirMode);
      OneLayer(base, raw);
      if !HasChild(raw) {
        RootAloneSetsRoot(base, t);
      }
    }
  }

  lemma NoExtraMeansRaw(t: Tree, dirMode: Mode)
    requires Convertible(t) && !HasChild(ExtraOf(t, dirMode))
    ensures RawOf(t) == t
  {
    assert forall p :: p in t && !Plain(t[p]) ==> p in ExtraOf(t, dirMode);
  }

  lemma RootAloneSetsRoot(base: Tree, t: Tree)
    requires Convertible(t) && !HasChild(t)
    ensures Merge(base, t) == base[[] := t[[]]]
  {
  }

  // ---- The state on disk ----------------------------------------------------

  /** A durable tree: mode and restored marker of its root, manifest, raw directory. */
  datatype Disk = Disk(rootMode: Mode, restored: bool, manifest: Manifest, raw: Tree)

  predicate Hot(d: Disk) {
    HotMode(d.rootMode)
  }

  predicate HotMode(rootMode: Mode) {
    rootMode & MODE_777 == MODE_700
  }

  /** Modes, all xattrs, and directories without files below them may be lost. */
  ghost predicate Forgotten(raw: Tree, raw': Tree) {
    && WellFormed(raw')
    && raw'.Keys <= raw.Keys
    && (forall p :: p in raw && raw[p].File? ==> p in raw')
    && (forall p :: p in raw' ==>
          if raw[p].File? then raw'[p].File? && raw'[p].content == raw[p].content && raw'[p].xattrs == map[]
          else raw'[p].Dir? && raw'[p].xattrs == map[])
  }

  /** The state after an expand, and whether it succeeded. */
  function Expanded(d: Disk, order: seq<Path>): (Disk, bool)
    requires forall i :: 0 <= i < |order| ==> order[i] in d.manifest
  {
    if Hot(d) then (d, false)
    else if d.restored then (d, true)
    else
      match RestoreFirst(d.raw, d.manifest, order, |order|)
      case Ok(raw) => (d.(raw := raw, restored := true), true)
      case Err => (d, false)
  }

  ghost predicate Safe(d: Disk, t: Tree) {
    && Convertible(t)
    && d.manifest == ManifestOf(t)
    && Recoverable(d.raw, t)
    && (d.restored ==> d.raw == RawOf(t) && !Hot(d))
  }

  /** Right after `convert`. */
  ghost predicate Fresh(d: Disk, t: Tree) {
    && Convertible(t)
    && d == Disk(MODE_700, false, ManifestOf(t), map p | p in t && Plain(t[p]) :: SetMode(t[p], MODE_755))
  }

  lemma RawIsRecoverable(t: Tree)
    requires Convertible(t)
    ensures Recoverable(RawOf(t), t)
  {
  }

  /** Expanding a safe tree succeeds exactly when it is not hot, and then the raw
      directory is the original one. */
  lemma ExpandRestores(d: Disk, order: seq<Path>, t: Tree)
    requires Safe(d, t) && ManifestOrder(order, d.manifest.Keys)
    ensures Expanded(d, order) == if Hot(d) then (d, false) else (d.(restored := true, raw := RawOf(t)), true)
    ensures Safe(Expanded(d, order).0, t)
  {
    assert ManifestOf(t).Keys == t.Keys;
    StringOrderVisitsParentsFirst(order, t);
    RestoreRecovers(d.raw, t, order);
    RawIsRecoverable(t);
  }
}
