/** `mount_overlayfs`: naming, chunking and ordering of lower directories. */
module Mounts {
  import opened FileTree
  import opened Overlay
  import opened Wrappers
  import Decimal
  import OverlayLayers

  const MAX_LOWER_DIRS := 499

  /** The `lowerdir=` option list names the topmost directory first. */
  function FromOption(names: seq<string>, dirs: map<string, Tree>): seq<Tree>
    requires forall n :: n in names ==> n in dirs
  {
    seq(|names|, i requires 0 <= i < |names| => assert names[|names| - 1 - i] in names; dirs[names[|names| - 1 - i]])
  }

  /** One overlayfs mount. The kernel refuses unknown directories, more than 499
      lower directories, no lower directory, and a single lower directory without
      an upper one. */
  function KernelMount(names: seq<string>, dirs: map<string, Tree>, upper: seq<Tree>): Result<Tree> {
    if || (exists n :: n in names && n !in dirs)
       || |names| > MAX_LOWER_DIRS
       || |names| == 0
       || (|names| == 1 && upper == [])
    then Err
    else Ok(Stack(map[], FromOption(names, dirs) + upper))
  }

  function Chunks(layers: seq<Tree>, n: nat): seq<seq<Tree>>
    requires n > 0
  {
    if layers == [] then []
    else if |layers| <= n then [layers]
    else [layers[..n]] + Chunks(layers[n..], n)
  }

  lemma ChunksStep(first: seq<Tree>, rest: seq<Tree>, n: nat)
    requires 0 < |first| <= n
    requires rest != [] ==> |first| == n
    ensures Chunks(first + rest, n) == [first] + Chunks(rest, n)
  {
    if rest == [] {
      assert first + rest == first;
    } else {
      assert (first + rest)[..n] == first && (first + rest)[n..] == rest;
    }
  }

  /** Chunks are the list cut into pieces: nothing lost, nothing reordered, every
      piece between 1 and `n` long, and no more than `n` pieces for `n * n` layers. */
  lemma {:induction false} ChunksPartition(layers: seq<Tree>, n: nat, most: nat)
    requires n > 0 && |layers| <= n * most
    ensures Flatten(Chunks(layers, n)) == layers
    ensures forall i :: 0 <= i < |Chunks(layers, n)| ==> 1 <= |Chunks(layers, n)[i]| <= n
    ensures forall i :: 0 <= i < |Chunks(layers, n)| - 1 ==> |Chunks(layers, n)[i]| == n
    ensures |Chunks(layers, n)| <= most
    decreases |layers|
  {
    if layers == [] {
    } else if |layers| <= n {
      assert most >= 1;
      assert [layers][..0] == [];
    } else {
      assert |layers[n..]| <= n * (most - 1);
      assert most >= 1;
      ChunksPartition(layers[n..], n, most - 1);
      FlattenCons(layers[..n], Chunks(layers[n..], n));
    }
  }

  lemma {:induction false} FlattenCons(first: seq<Tree>, rest: seq<seq<Tree>>)
    ensures Flatten([first] + rest) == first + Flatten(rest)
    decreases |rest|
  {
    var all := [first] + rest;
    if rest == [] {
      assert all[..0] == [];
    } else {
      assert all[..|all| - 1] == [first] + rest[..|rest| - 1];
      FlattenCons(first, rest[..|rest| - 1]);
    }
  }

  /** What the mount point shows below the upper directory. */
  function LowerView(layers: seq<Tree>): Tree {
    if |layers| <= MAX_LOWER_DIRS then Stack(map[], layers)
    else StackedView(Chunks(layers, MAX_LOWER_DIRS))
  }

  /** Short names never collide: the i-th directory is called `i`, the i-th chunk
      is called `ci`. */
  function LayerName(i: nat): string {
    Decimal.ToString(i)
  }

  function ChunkName(i: nat): string {
    "c" + Decimal.ToString(i)
  }

  lemma ShortNamesDistinct(i: nat, j: nat)
    ensures LayerName(i) == LayerName(j) ==> i == j
    ensures ChunkName(i) == ChunkName(j) ==> i == j
    ensures LayerName(i) != ChunkName(j)
  {
    if LayerName(i) == LayerName(j) {
      Decimal.ToStringInjective(i, j);
    }
    if ChunkName(i) == ChunkName(j) {
      assert ChunkName(i)[1..] == ChunkName(j)[1..];
      Decimal.ToStringInjective(i, j);
    }
    assert Decimal.IsDigit(LayerName(i)[0]);
  }

  function Reversed<T>(s: seq<T>): seq<T> {
    seq(|s|, i requires 0 <= i < |s| => s[|s| - 1 - i])
  }

  lemma ResolvesTo(names: seq<string>, dirs: map<string, Tree>, layers: seq<Tree>)
    requires |names| == |layers|
    requires forall i :: 0 <= i < |names| ==> names[i] in dirs && dirs[names[i]] == layers[i]
    ensures forall n :: n in Reversed(names) ==> n in dirs
    ensures FromOption(Reversed(names), dirs) == layers
  {
  }

  /** The i-th chunk: passed on if it is a single directory, mounted otherwise. */
  method MountChunk(chunk: seq<string>, lowers: map<string, Tree>, i: nat, ghost trees: seq<Tree>)
    returns (name: string, newLowers: map<string, Tree>, ok: bool)
    requires 1 <= |chunk| == |trees| <= MAX_LOWER_DIRS
    requires forall k :: 0 <= k < |chunk| ==> chunk[k] in lowers && lowers[chunk[k]] == trees[k]
    requires ChunkName(i) !in lowers
    ensures ok
    ensures newLowers == lowers || newLowers == lowers[ChunkName(i) := Effective(trees)]
    ensures name in newLowers && newLowers[name] == Effective(trees)
  {
    if |chunk| == 1 {
      return chunk[0], lowers, true;
    }
    ResolvesTo(chunk, lowers, trees);
    assert FromOption(Reversed(chunk), lowers) + [] == trees;
    var mounted := KernelMount(Reversed(chunk), lowers, []);
    if mounted.Err? {
      return "", lowers, false;
    }
    name := ChunkName(i);
    newLowers, ok := lowers[name := mounted.value], true;
  }

  /** Every name so far is kept, and chunk names are used only up to `i`. */
  ghost predicate Extends(lowers: map<string, Tree>, newLowers: map<string, Tree>, i: nat) {
    && (forall n :: n in lowers ==> n in newLowers && newLowers[n] == lowers[n])
    && (forall j: nat :: ChunkName(j) in newLowers ==> j < i)
  }

  lemma ExtendsStep(lowers: map<string, Tree>, newLowers: map<string, Tree>, i: nat, t: Tree)
    requires Extends(lowers, newLowers, i)
    ensures Extends(lowers, newLowers[ChunkName(i) := t], i + 1)
    ensures Extends(lowers, newLowers, i + 1)
  {
    assert ChunkName(i) !in newLowers;
    forall j: nat | ChunkName(j) in newLowers[ChunkName(i) := t] ensures j < i + 1 {
      ShortNamesDistinct(i, j);
    }
  }

  ghost predicate Named(short: seq<string>, lowers: map<string, Tree>, trees: seq<Tree>) {
    |short| == |trees| && forall k :: 0 <= k < |short| ==> short[k] in lowers && lowers[short[k]] == trees[k]
  }

  /** Mounts every chunk of more than one directory, and returns the new list. */
  method MountChunks(short: seq<string>, lowers: map<string, Tree>, ghost layers: seq<Tree>)
    returns (newShort: seq<string>, newLowers: map<string, Tree>, ok: bool)
    requires Named(short, lowers, layers) && forall j :: ChunkName(j) !in lowers
    ensures ok && Named(newShort, newLowers, EffectiveAll(Chunks(layers, MAX_LOWER_DIRS)))
  {
    newShort, newLowers, ok := [], lowers, true;
    var rest := short;
    var i := 0;
    ghost var done: seq<seq<Tree>> := [];
    ghost var todo := layers;
    while rest != []
      invariant |rest| <= |short| && i == |newShort| && ok
      invariant Named(rest, lowers, todo)
      invariant done + Chunks(todo, MAX_LOWER_DIRS) == Chunks(layers, MAX_LOWER_DIRS)
      invariant Extends(lowers, newLowers, i)
      invariant Named(newShort, newLowers, EffectiveAll(done))
      decreases |rest|
    {
      var n := if |rest| <= MAX_LOWER_DIRS then |rest| else MAX_LOWER_DIRS;
      var chunk := rest[..n];
      ghost var trees := todo[..n];
      ChunksStep(trees, todo[n..], MAX_LOWER_DIRS);
      assert trees + todo[n..] == todo;
      ghost var later := Chunks(todo[n..], MAX_LOWER_DIRS);
      assert (done + [trees]) + later == done + ([trees] + later);
      rest, todo := rest[n..], todo[n..];
      ExtendsStep(lowers, newLowers, i, Effective(trees));
      assert ChunkName(i) !in newLowers;
      var name;
      name, newLowers, ok := MountChunk(chunk, newLowers, i, trees);
      assert EffectiveAll(done + [trees]) == EffectiveAll(done) + [Effective(trees)];
      newShort := newShort + [name];
      done := done + [trees];
      i := i + 1;
    }
    assert done == Chunks(layers, MAX_LOWER_DIRS);
  }

  /** Mounts `lowerDirs` (lowest first) below `upperDir`. It succeeds exactly for
      a clean scratch directory and 1 to 499 * 499 lower directories; then the mount
      shows the upper directory over `LowerView`. */
  method MountOverlayfs(lowerDirs: seq<Tree>, upperDir: Tree, scratchIsEmpty: bool) returns (r: Result<Tree>)
    ensures r.Ok? <==> scratchIsEmpty && 1 <= |lowerDirs| <= 499 * 499
    ensures r.Ok? ==> r.value == Merge(LowerView(lowerDirs), upperDir)
    ensures r.Ok? && |lowerDirs| <= 499 ==> r.value == Merge(Stack(map[], lowerDirs), upperDir)
  {
    if !scratchIsEmpty || lowerDirs == [] {
      return Err;
    }
    var lowers: map<string, Tree> := map[];
    var short: seq<string> := [];
    for i := 0 to |lowerDirs|
      invariant Named(short, lowers, lowerDirs[..i])
      invariant forall k :: 0 <= k < i ==> short[k] == LayerName(k)
      invariant forall j :: ChunkName(j) !in lowers
    {
      var name := LayerName(i);
      forall k | 0 <= k < i ensures LayerName(k) != name {
        ShortNamesDistinct(k, i);
      }
      forall j ensures ChunkName(j) != name {
        ShortNamesDistinct(i, j);
      }
      lowers := lowers[name := lowerDirs[i]];
      short := short + [name];
    }
    assert lowerDirs[..|lowerDirs|] == lowerDirs;
    if |short| > MAX_LOWER_DIRS * MAX_LOWER_DIRS {
      return Err;
    }
    ghost var shown := lowerDirs;
    if |short| > MAX_LOWER_DIRS {
      var ok: bool;
      short, lowers, ok := MountChunks(short, lowers, lowerDirs);
      if !ok {
        return Err;
      }
      ChunksPartition(lowerDirs, MAX_LOWER_DIRS, MAX_LOWER_DIRS);
      assert Chunks(lowerDirs, MAX_LOWER_DIRS) != [];
      shown := EffectiveAll(Chunks(lowerDirs, MAX_LOWER_DIRS));
    }
    ResolvesTo(short, lowers, shown);
    r := KernelMount(Reversed(short), lowers, [upperDir]);
    StackAppend(map[], shown, [upperDir]);
    OneLayer(Stack(map[], shown), upperDir);
  }

  /** Up to the limit, splitting the mount in two levels is invisible exactly when
      no path is resurrected. */
  lemma TwoLevelMountIsFlat(layers: seq<Tree>)
    requires MAX_LOWER_DIRS < |layers| <= MAX_LOWER_DIRS * MAX_LOWER_DIRS
    ensures LowerView(layers) == Stack(map[], layers) <==>
            forall p :: !Resurrected(Chunks(layers, MAX_LOWER_DIRS), p)
  {
    ChunksPartition(layers, MAX_LOWER_DIRS, MAX_LOWER_DIRS);
    StackedEqualsFlatExactly(Chunks(layers, MAX_LOWER_DIRS));
  }

  lemma {:induction false} PiecesAreLayers(layers: seq<Tree>, n: nat)
    requires n > 0 && Layers(layers)
    ensures forall i :: 0 <= i < |Chunks(layers, n)| ==> Layers(Chunks(layers, n)[i])
    decreases |layers|
  {
    if |layers| > n {
      PiecesAreLayers(layers[n..], n);
    }
  }

  /** The same, read off the layers. */
  lemma TwoLevelMountIsFlatByLayers(layers: seq<Tree>)
    requires MAX_LOWER_DIRS < |layers| <= MAX_LOWER_DIRS * MAX_LOWER_DIRS && Layers(layers)
    ensures var chunks := Chunks(layers, MAX_LOWER_DIRS);
            LowerView(layers) == Stack(map[], layers) <==>
            forall i, p :: 0 <= i < |chunks| ==> !OverlayLayers.LostAt(chunks, i, p)
  {
    ChunksPartition(layers, MAX_LOWER_DIRS, MAX_LOWER_DIRS);
    PiecesAreLayers(layers, MAX_LOWER_DIRS);
    OverlayLayers.StackedEqualsFlatByLayers(Chunks(layers, MAX_LOWER_DIRS));
  }
}
