/** A durable tree on disk: `convert`, `cool_down_for_testing` and `expand` as
    they change it in place.
 */
module DurableTreeDisk {
  import opened FileTree
  import opened Overlay
  import opened StringOrder
  import opened Wrappers
  import opened DurableTree

  /** The raw directory while the walk of `convert` has processed `done`. */
  function Partly(t: Tree, done: set<Path>): Tree {
    map p | p in t && (p in done ==> Plain(t[p])) :: if p in done then SetMode(t[p], MODE_755) else t[p]
  }

  function PartManifest(t: Tree, done: set<Path>): Manifest
    requires done <= t.Keys && NoSpecial(t, done)
  {
    map p | p in done :: EntryOf(t[p])
  }

  ghost predicate NoSpecial(t: Tree, s: set<Path>) {
    forall p :: p in s && p in t ==> !t[p].Special?
  }

  function Under(t: Tree, rel: Path): set<Path> {
    set p | p in t && rel <= p
  }

  /** `raw` right after conversion: special files gone, every mode 0755, xattrs kept. */
  function Stripped(t: Tree): Tree {
    map p | p in t && Plain(t[p]) :: SetMode(t[p], MODE_755)
  }

  const MARKER: Path := ["DURABLE_TREE"]

  /** Whether the marker file is seen in a plain directory. `resolves` says where
      a symlink of that name would lead. */
  predicate MarkerSeen(t: Tree, resolves: bool) {
    MARKER in t && (t[MARKER].Symlink? ==> resolves)
  }

  predicate FullyAccessible(t: Tree) {
    IsDir(t, []) && t[[]].mode & MODE_700 == MODE_700
  }

  /** The directories a loop of `create_dir_all` adds. */
  function WithDirs(extra: Tree, p: Path, mode: Mode): Tree {
    map q | q in extra.Keys + Prefixes(p) :: if q in extra then extra[q] else Dir(mode, map[])
  }

  function Prefixes(p: Path): set<Path> {
    set k | 0 <= k <= |p| :: p[..k]
  }

  /** The extra directory once the manifest entries `done` have been visited. */
  function ExtraPart(t: Tree, done: set<Path>, dirMode: Mode): Tree {
    map p | p in t && (p == [] || (if Plain(t[p]) then AboveAny(t, done, p) else p in done))
      :: if !Plain(t[p]) then t[p] else Dir(if p == [] then MODE_755 else dirMode, map[])
  }

  predicate AboveAny(t: Tree, done: set<Path>, p: Path) {
    exists q :: q in done && q in t && !Plain(t[q]) && p <= q && p != q
  }

  /** The raw directory without attributes, and with every mode 0555. */
  function Cooled(raw: Tree): Tree {
    map p | p in raw :: if raw[p].File? then File(raw[p].content, MODE_555, map[]) else Dir(MODE_555, map[])
  }

  lemma CooledIsSafe(raw: Tree, t: Tree)
    requires Recoverable(raw, t)
    ensures Forgotten(raw, Cooled(raw)) && Recoverable(Cooled(raw), t)
  {
    forall p {:trigger Parent(p)} | p in raw && p != [] ensures IsDir(Cooled(raw), Parent(p)) {
      assert IsDir(raw, Parent(p));
    }
  }

  class DurableRoot {
    /** Contents of the directory as long as it is not a durable tree. */
    var tree: Tree
    // The durable tree: mode and "restored" xattr of the root directory, the
    // marker file, `manifest.json` and the raw directory.
    var rootMode: Mode
    var restored: bool
    var marked: bool
    var manifest: Manifest
    var raw: Tree

    constructor (t: Tree)
      ensures tree == t && !marked
    {
      tree, rootMode, restored, marked, manifest, raw := t, MODE_755, false, false, map[], map[];
    }

    function State(): Disk
      reads this
    {
      Disk(rootMode, restored, manifest, raw)
    }

    /** Records one file and strips it from the raw directory. */
    method ProcessFile(p: Path) returns (r: Result<Entry>)
      requires p in raw
      modifies this`raw
      ensures r == if old(raw)[p].Special? then Err else Ok(EntryOf(old(raw)[p]))
      ensures raw == if old(raw)[p].Special? then old(raw)
                     else if Plain(old(raw)[p]) then old(raw)[p := SetMode(old(raw)[p], MODE_755)]
                     else old(raw) - {p}
      ensures p in raw && Plain(raw[p]) ==> raw[p].mode == 0x1ED
    {
      var node := raw[p];
      if node.Special? {
        return Err;
      }
      if Plain(node) {
        raw := raw[p := SetMode(node, MODE_755)];
      } else {
        raw := raw - {p};
      }
      return Ok(EntryOf(node));
    }

    /** The walk of `build_manifest_impl` below `rel`. `done` is what the walk has
        visited so far in the original tree `t`. */
    method BuildManifest(rel: Path, ghost t: Tree, ghost done: set<Path>) returns (ok: bool)
      requires WellFormed(t) && rel in t && done <= t.Keys && done !! Under(t, rel) && NoSpecial(t, done)
      requires raw == Partly(t, done) && manifest == PartManifest(t, done)
      modifies this`raw, this`manifest
      ensures ok <==> NoSpecial(t, Under(t, rel))
      ensures ok ==> raw == Partly(t, done + Under(t, rel)) && manifest == PartManifest(t, done + Under(t, rel))
      decreases Under(t, rel)
    {
      assert rel in Under(t, rel);
      var isDir := raw[rel].Dir?;
      var entry := ProcessFile(rel);
      if entry.Err? {
        return false;
      }
      manifest := manifest[rel := entry.value];
      ghost var now := done + {rel};
      assert raw == Partly(t, now);
      assert manifest == PartManifest(t, now);
      if isDir {
        var kids := set p | p in raw && |p| == |rel| + 1 && rel <= p;
        assert forall p :: p in t && |p| == |rel| + 1 && rel <= p <==> p in kids;
        KidsCover(t, rel, kids);
        while kids != {}
          invariant kids <= Under(t, rel) && forall p :: p in kids ==> |p| == |rel| + 1
          invariant now == done + (Under(t, rel) - Beneath(t, kids)) && NoSpecial(t, now)
          invariant raw == Partly(t, now) && manifest == PartManifest(t, now)
          decreases kids
        {
          var kid :| kid in kids;
          WalkStep(t, rel, done, kids, kid);
          ok := BuildManifest(kid, t, now);
          if !ok {
            return;
          }
          now := now + Under(t, kid);
          kids := kids - {kid};
        }
        assert Beneath(t, {}) == {};
        assert now == done + Under(t, rel);
      } else {
        OnlyItself(t, rel);
      }
      ok := true;
    }

    /** Turns the plain directory into a durable tree. */
    method Convert(markerResolves: bool) returns (ok: bool)
      requires !marked ==> Layer(tree)
      modifies this
      ensures ok <==> && !old(marked)
                      && IsDir(old(tree), []) && old(tree)[[]].mode & 0x1C0 == 0x1C0
                      && (["DURABLE_TREE"] in old(tree) ==> old(tree)[["DURABLE_TREE"]].Symlink? && !markerResolves)
                      && forall p :: p in old(tree) ==> !old(tree)[p].Special?
      ensures ok ==> rootMode == 0x1C0
      ensures ok ==> marked && Supported(old(tree))
                     && State() == Disk(MODE_700, false, ManifestOf(old(tree)), Stripped(old(tree)))
      ensures ok && ValidNames(old(tree)) ==> Fresh(State(), old(tree))
      ensures !ok ==> marked == old(marked)
    {
      if marked {
        return false;
      }
      if !FullyAccessible(tree) || MarkerSeen(tree, markerResolves) {
        return false;
      }
      // The old root becomes the raw directory of a fresh root.
      ghost var t := tree;
      raw, tree, rootMode, restored, manifest := tree, map[], MODE_700, false, map[];
      assert raw == Partly(t, {});
      assert manifest == PartManifest(t, {});
      ok := BuildManifest([], t, {});
      assert Under(t, []) == t.Keys;
      if !ok {
        return;
      }
      assert {} + Under(t, []) == t.Keys;
      assert raw == Stripped(t);
      rootMode, marked := MODE_700, true;
    }

    /** What the tests use in place of Bazel: all user xattrs go, every mode
        becomes 0555. */
    method CoolDownForTesting(ghost t: Tree)
      requires marked && Safe(State(), t)
      modifies this`rootMode, this`restored, this`raw
      ensures Forgotten(old(raw), raw) && State() == Disk(MODE_555, false, old(manifest), raw)
      ensures raw.Keys == old(raw).Keys && forall p :: p in raw ==> raw[p].mode == MODE_555
      ensures Safe(State(), t) && !Hot(State())
      ensures rootMode == 0x16D && forall p :: p in raw ==> raw[p].mode == 0x16D
    {
      CooledIsSafe(raw, t);
      raw := Cooled(raw);
      restored := false;
      rootMode := MODE_555;
    }

    method Chmod(p: Path, mode: Mode)
      requires p in raw && Plain(raw[p])
      modifies this`raw
      ensures raw == old(raw)[p := SetMode(old(raw)[p], mode)]
    {
      raw := raw[p := SetMode(raw[p], mode)];
    }

    /** The file has to be writable for its owner. */
    method SetXattr(p: Path, key: string, value: Bytes)
      requires p in raw && Plain(raw[p]) && raw[p].mode & 0x80 != 0
      modifies this`raw
      ensures raw == old(raw)[p := AddXattrs(old(raw)[p], map[key := value])]
    {
      raw := raw[p := AddXattrs(raw[p], map[key := value])];
    }

    /** Makes the path writable, sets the recorded xattrs, then the recorded mode. */
    method RestoreUserXattrsAndPermissions(p: Path, mode: Mode, xattrs: Xattrs) returns (ok: bool)
      modifies this`raw
      ensures ok <==> p in old(raw) && Plain(old(raw)[p])
      ensures ok ==> raw == old(raw)[p := SetMode(AddXattrs(old(raw)[p], xattrs), mode)]
      ensures !ok ==> raw == old(raw)
    {
      if p !in raw || !Plain(raw[p]) {
        return false;
      }
      ghost var before, node := raw, raw[p];
      Chmod(p, MODE_755);
      node := SetMode(node, MODE_755);
      var keys := xattrs.Keys;
      ghost var some: Xattrs := map[];
      AddNoXattrs(node);
      while keys != {}
        invariant keys <= xattrs.Keys
        invariant some == map k | k in xattrs && k !in keys :: xattrs[k]
        invariant raw == before[p := AddXattrs(node, some)]
        decreases keys
      {
        var k :| k in keys;
        assert raw[p].mode == MODE_755;
        SetXattr(p, k, xattrs[k]);
        AddXattrsTwice(node, some, k, xattrs[k]);
        UpdateTwice(before, p, AddXattrs(node, some), AddXattrs(node, some[k := xattrs[k]]));
        some := some[k := xattrs[k]];
        keys := keys - {k};
      }
      assert some == xattrs;
      Chmod(p, mode);
      UpdateTwice(before, p, AddXattrs(node, xattrs), SetMode(AddXattrs(node, xattrs), mode));
      ok := true;
    }

    /** The body of the restoration loop. */
    method RestoreOne(p: Path, entry: Entry) returns (ok: bool)
      modifies this`raw
      ensures ok <==> RestoreEntry(old(raw), p, entry).Ok?
      ensures ok ==> RestoreEntry(old(raw), p, entry) == Ok(raw)
    {
      match entry
      case Regular(mode, xattrs) =>
        ok := RestoreUserXattrsAndPermissions(p, mode, xattrs);
      case Directory(mode, xattrs) =>
        if p !in raw {
          if p != [] && !IsDir(raw, Parent(p)) {
            return false;
          }
          raw := raw[p := Dir(MODE_755, map[])];
          assert map[] + xattrs == xattrs;
          assert raw[p := Dir(mode, xattrs)] == old(raw)[p := Dir(mode, xattrs)];
        }
        ok := RestoreUserXattrsAndPermissions(p, mode, xattrs);
      case SymlinkEntry(_) =>
        ok := true;
      case WhiteoutEntry =>
        ok := true;
    }

    /** Restores the raw directory unless the root says it has been done. */
    method MaybeRestoreRawDirectory(order: seq<Path>, ghost t: Tree) returns (ok: bool)
      requires Safe(State(), t) && ManifestOrder(order, manifest.Keys) && !Hot(State())
      modifies this`raw, this`restored
      ensures ok && restored && raw == RawOf(t)
    {
      if restored {
        return true;
      }
      assert ManifestOf(t).Keys == t.Keys;
      StringOrderVisitsParentsFirst(order, t);
      for i := 0 to |order|
        invariant Recoverable(raw, t) && RestoredUpTo(raw, t, order, i)
      {
        RestoreStep(raw, t, order, i);
        ok := RestoreOne(order[i], manifest[order[i]]);
        assert ok;
      }
      FullyRestored(raw, t, order);
      restored := true;
      ok := true;
    }

    /** The body of the loop of `create_extra_dir`. */
    method AddSpecial(extra: Tree, p: Path, dirMode: Mode, ghost t: Tree, ghost done: set<Path>)
      returns (r: Result<Tree>)
      requires Convertible(t) && manifest == ManifestOf(t) && p in manifest && p !in done
      requires extra == ExtraPart(t, done, dirMode)
      ensures r == Ok(ExtraPart(t, done + {p}, dirMode))
    {
      var entry := manifest[p];
      if entry.SymlinkEntry? || entry.WhiteoutEntry? {
        SpecialStep(t, done, p, dirMode);
        var made := CreateDirAll(extra, Parent(p), dirMode);
        if made.Err? || p in made.value {
          return Err;
        }
        return Ok(made.value[p := if entry.SymlinkEntry? then Symlink(entry.target) else Whiteout]);
      }
      PlainStep(t, done, p, dirMode);
      return Ok(extra);
    }

    /** `create_extra_dir`: symlinks and whiteouts on a fresh tmpfs. */
    method CreateExtraDir(order: seq<Path>, dirMode: Mode, ghost t: Tree) returns (r: Result<Tree>)
      requires Convertible(t) && manifest == ManifestOf(t) && ManifestOrder(order, manifest.Keys)
      ensures r == Ok(ExtraOf(t, dirMode))
    {
      r := Ok(map[[] := Dir(MODE_755, map[])]);
      assert r.value == ExtraPart(t, {}, dirMode) && SetOf(order[..0]) == {};
      for i := 0 to |order|
        invariant r == Ok(ExtraPart(t, SetOf(order[..i]), dirMode))
      {
        DistinctEntries(order, manifest.Keys, i);
        r := AddSpecial(r.value, order[i], dirMode, t, SetOf(order[..i]));
        if r.Err? {
          return;
        }
      }
      AllEntriesGiveExtra(t, order, dirMode);
    }

    /** Expands the durable tree into layers, lowest first. */
    method Expand(order: seq<Path>, dirMode: Mode, ghost t: Tree) returns (r: Result<seq<Tree>>)
      requires marked ==> Safe(State(), t) && ManifestOrder(order, manifest.Keys)
      modifies this`raw, this`restored
      ensures r.Ok? <==> old(marked) && !old(Hot(State()))
      ensures r.Ok? ==> State() == old(State()).(restored := true, raw := RawOf(t))
                        && r.value == LayersOf(ExtraOf(t, dirMode), RawOf(t))
      ensures r.Err? ==> State() == old(State())
      ensures marked ==> (State(), r.Ok?) == Expanded(old(State()), order)
    {
      if !marked {
        return Err;
      }
      if HotMode(rootMode) {
        return Err;
      }
      ExpandRestores(State(), order, t);
      var ok := MaybeRestoreRawDirectory(order, t);
      if !ok {
        return Err;
      }
      var extra := CreateExtraDir(order, dirMode, t);
      if extra.Err? {
        return Err;
      }
      var layers: seq<Tree> := [];
      if HasChild(extra.value) {
        layers := layers + [extra.value];
        layers := layers + [raw];
      } else if HasChild(raw) {
        layers := layers + [raw];
      }
      r := Ok(layers);
    }
  }

  /** `create_dir_all`: every missing directory down to `p`. */
  method CreateDirAll(extra: Tree, p: Path, mode: Mode) returns (r: Result<Tree>)
    ensures r.Ok? <==> forall k :: 0 <= k <= |p| && p[..k] in extra ==> extra[p[..k]].Dir?
    ensures r.Ok? ==> r.value == WithDirs(extra, p, mode)
  {
    var made := extra;
    MadeAll(extra, p, mode);
    for i := 0 to |p| + 1
      invariant forall k :: 0 <= k < i && p[..k] in extra ==> extra[p[..k]].Dir?
      invariant made == MadeSoFar(extra, p, i, mode)
    {
      MakeOne(extra, p, i, mode);
      var q := p[..i];
      if q in made {
        if !made[q].Dir? {
          return Err;
        }
      } else {
        made := made[q := Dir(mode, map[])];
      }
    }
    r := Ok(made);
  }

  /** The `n` shortest paths above or at `p`. */
  function Shortest(p: Path, n: nat): set<Path>
    requires n <= |p| + 1
  {
    set k | 0 <= k < n :: p[..k]
  }

  lemma OneLonger(p: Path, n: nat)
    requires n <= |p|
    ensures Shortest(p, n + 1) == Shortest(p, n) + {p[..n]} && p[..n] !in Shortest(p, n)
    ensures Shortest(p, |p| + 1) == Prefixes(p)
  {
    assert p[..n] in Shortest(p, n + 1);
    assert forall q :: q in Shortest(p, n + 1) ==> q in Shortest(p, n) + {p[..n]};
    assert forall q :: q in Shortest(p, n) ==> |q| < n;
  }

  function MadeSoFar(extra: Tree, p: Path, n: nat, mode: Mode): Tree
    requires n <= |p| + 1
  {
    map q | q in extra.Keys + Shortest(p, n) :: if q in extra then extra[q] else Dir(mode, map[])
  }

  lemma MakeOne(extra: Tree, p: Path, n: nat, mode: Mode)
    requires n <= |p|
    ensures p[..n] in MadeSoFar(extra, p, n, mode) <==> p[..n] in extra
    ensures MadeSoFar(extra, p, n + 1, mode) ==
            if p[..n] in extra then MadeSoFar(extra, p, n, mode)
            else MadeSoFar(extra, p, n, mode)[p[..n] := Dir(mode, map[])]
  {
    OneLonger(p, n);
  }

  lemma MadeAll(extra: Tree, p: Path, mode: Mode)
    ensures MadeSoFar(extra, p, 0, mode) == extra
    ensures MadeSoFar(extra, p, |p| + 1, mode) == WithDirs(extra, p, mode)
  {
    OneLonger(p, |p|);
  }

  function SetOf(s: seq<Path>): set<Path> {
    set p | p in s
  }

  /** All paths at or below one of `kids`. */
  function Beneath(t: Tree, kids: set<Path>): set<Path> {
    set p | p in t && exists k :: k in kids && k <= p
  }

  lemma SamePrefix(a: Path, b: Path, p: Path)
    requires |a| == |b|
    ensures a <= p && b <= p ==> a == b
  {
  }

  lemma UpdateTwice(t: Tree, p: Path, x: Node, y: Node)
    ensures t[p := x][p := y] == t[p := y]
  {
  }

  lemma AddNoXattrs(n: Node)
    requires Plain(n)
    ensures AddXattrs(n, map[]) == n
  {
  }

  lemma AddXattrsTwice(n: Node, some: Xattrs, k: string, v: Bytes)
    requires Plain(n)
    ensures AddXattrs(AddXattrs(n, some), map[k := v]) == AddXattrs(n, some[k := v])
  {
    assert n.xattrs + some + map[k := v] == n.xattrs + some[k := v];
  }

  lemma KidsCover(t: Tree, rel: Path, kids: set<Path>)
    requires WellFormed(t) && rel in t
    requires forall p :: p in t && |p| == |rel| + 1 && rel <= p <==> p in kids
    ensures Under(t, rel) - Beneath(t, kids) == {rel}
  {
    forall p | p in Under(t, rel) && p != rel ensures p in Beneath(t, kids) {
      var k := p[..|rel| + 1];
      if |p| > |rel| + 1 {
        AncestorsAreDirs(t, p, |rel| + 1);
      } else {
        assert k == p;
      }
      assert k in kids && k <= p;
    }
    assert rel !in Beneath(t, kids);
  }

  lemma SplitKid(t: Tree, rel: Path, kids: set<Path>, kid: Path)
    requires rel in t && kid in kids && kids <= Under(t, rel) && forall p :: p in kids ==> |p| == |rel| + 1
    ensures Beneath(t, kids) == Beneath(t, kids - {kid}) + Under(t, kid)
    ensures Beneath(t, kids - {kid}) !! Under(t, kid)
    ensures Under(t, kid) < Under(t, rel)
  {
    forall p | p in Beneath(t, kids) ensures p in Beneath(t, kids - {kid}) + Under(t, kid) {
      var k :| k in kids && k <= p;
      if k != kid {
        assert k in kids - {kid};
      }
    }
    forall p | p in Beneath(t, kids - {kid}) ensures p !in Under(t, kid) {
      var k :| k in kids - {kid} && k <= p;
      SamePrefix(k, kid, p);
    }
    assert rel !in Under(t, kid) && rel in Under(t, rel);
  }

  lemma WalkStep(t: Tree, rel: Path, done: set<Path>, kids: set<Path>, kid: Path)
    requires rel in t && kid in kids && kids <= Under(t, rel) && forall p :: p in kids ==> |p| == |rel| + 1
    requires done !! Under(t, rel)
    ensures Under(t, kid) < Under(t, rel)
    ensures done + (Under(t, rel) - Beneath(t, kids)) !! Under(t, kid)
    ensures done + (Under(t, rel) - Beneath(t, kids)) + Under(t, kid) ==
            done + (Under(t, rel) - Beneath(t, kids - {kid}))
  {
    SplitKid(t, rel, kids, kid);
    assert Under(t, kid) <= Beneath(t, kids);
  }

  lemma OnlyItself(t: Tree, rel: Path)
    requires WellFormed(t) && rel in t && !t[rel].Dir?
    ensures Under(t, rel) == {rel}
  {
    forall p | p in Under(t, rel) ensures p == rel {
      assert p[..|rel|] == rel;
      if p != rel {
        AncestorsAreDirs(t, p, |rel|);
      }
    }
  }

  /** A symlink or whiteout can always be created: the directories above it are
      directories, and nothing is in its place. */
  lemma SpecialStep(t: Tree, done: set<Path>, p: Path, dirMode: Mode)
    requires Convertible(t) && p in t && !Plain(t[p])
    ensures p != []
    ensures forall k :: 0 <= k <= |p| - 1 && Parent(p)[..k] in ExtraPart(t, done, dirMode) ==>
                          ExtraPart(t, done, dirMode)[Parent(p)[..k]].Dir?
    ensures p in WithDirs(ExtraPart(t, done, dirMode), Parent(p), dirMode) ==> p in done
    ensures WithDirs(ExtraPart(t, done, dirMode), Parent(p), dirMode)[p := t[p]] == ExtraPart(t, done + {p}, dirMode)
  {
    var extra, up := ExtraPart(t, done, dirMode), Parent(p);
    forall k | 0 <= k <= |up| ensures up[..k] == p[..k] && IsDir(t, p[..k]) {
      AncestorsAreDirs(t, p, k);
    }
    forall q | q in Prefixes(up) ensures IsDir(t, q) {
      var k :| 0 <= k <= |up| && q == up[..k];
    }
    SpecialStepGives(t, done, p, dirMode);
  }

  lemma SpecialStepGives(t: Tree, done: set<Path>, p: Path, dirMode: Mode)
    requires p in t && !Plain(t[p]) && p != []
    requires forall q :: q in Prefixes(Parent(p)) ==> IsDir(t, q)
    ensures WithDirs(ExtraPart(t, done, dirMode), Parent(p), dirMode)[p := t[p]] == ExtraPart(t, done + {p}, dirMode)
  {
    var a := WithDirs(ExtraPart(t, done, dirMode), Parent(p), dirMode)[p := t[p]];
    var b := ExtraPart(t, done + {p}, dirMode);
    forall q ensures (q in a <==> q in b) && (q in a ==> a[q] == b[q]) {
      AboveStep(t, done, p, q);
    }
  }

  lemma AboveStep(t: Tree, done: set<Path>, p: Path, q: Path)
    requires p in t && !Plain(t[p]) && p != []
    ensures AboveAny(t, done + {p}, q) <==> AboveAny(t, done, q) || q in Prefixes(Parent(p))
  {
    if q in Prefixes(Parent(p)) {
      var k :| 0 <= k <= |p| - 1 && q == Parent(p)[..k];
      assert q <= p && q != p;
    }
    if q <= p && q != p {
      assert q == Parent(p)[..|q|];
    }
  }

  lemma PlainStep(t: Tree, done: set<Path>, p: Path, dirMode: Mode)
    requires p in t && Plain(t[p])
    ensures ExtraPart(t, done + {p}, dirMode) == ExtraPart(t, done, dirMode)
  {
  }

  lemma DistinctEntries(order: seq<Path>, keys: set<Path>, i: nat)
    requires ManifestOrder(order, keys) && i < |order|
    ensures order[i] !in SetOf(order[..i]) && SetOf(order[..i + 1]) == SetOf(order[..i]) + {order[i]}
  {
    assert order[..i + 1] == order[..i] + [order[i]];
    if order[i] in order[..i] {
      var j :| 0 <= j < i && order[..i][j] == order[i];
      LessIsStrict(Key(order[j]), Key(order[i]));
    }
  }

  lemma AllEntriesGiveExtra(t: Tree, order: seq<Path>, dirMode: Mode)
    requires ManifestOrder(order, t.Keys)
    ensures ExtraPart(t, SetOf(order[..|order|]), dirMode) == ExtraOf(t, dirMode)
  {
    assert order[..|order|] == order;
    assert SetOf(order) == t.Keys;
  }
}
