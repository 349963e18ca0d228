/** Overlay merge as a fold over layers, against the kernel's own lookup rule,
    and the exact condition under which stacking two overlays is the same as
    one flat overlay.
 */
module Overlay {
  import opened FileTree
  import opened Wrappers

  /** A strict ancestor of `p` is something other than a directory in `t`. */
  predicate Covered(t: Tree, p: Path) {
    exists k :: 0 <= k < |p| && p[..k] in t && !t[p[..k]].Dir?
  }

  /** `t` has its own opinion about `p`: it provides, whites out or covers it. */
  predicate Touches(t: Tree, p: Path) {
    p in t || Covered(t, p)
  }

  predicate Untouched(layers: seq<Tree>, p: Path) {
    forall i :: 0 <= i < |layers| ==> !Touches(layers[i], p)
  }

  function Merge(lower: Tree, upper: Tree): Tree {
    map p | p in lower.Keys + upper.Keys
            && (if p in upper then !upper[p].Whiteout? else !Covered(upper, p))
      :: if p in upper then upper[p] else lower[p]
  }

  /** `layers` over `base`, the first layer lowest. */
  function Stack(base: Tree, layers: seq<Tree>): Tree {
    if layers == [] then base
    else Merge(Stack(base, layers[..|layers| - 1]), layers[|layers| - 1])
  }

  lemma {:induction false} StackAppend(base: Tree, a: seq<Tree>, b: seq<Tree>)
    ensures Stack(base, a + b) == Stack(Stack(base, a), b)
    decreases |b|
  {
    if b == [] {
      assert a + b == a;
    } else {
      var front := b[..|b| - 1];
      assert (a + b)[..|a + b| - 1] == a + front;
      StackAppend(base, a, front);
    }
  }

  /** What layers over a base show: what they show alone, plus those paths of
      the base that no layer touches. */
  lemma {:induction false} StackDecomposes(base: Tree, layers: seq<Tree>, p: Path)
    ensures p in Stack(map[], layers) ==>
              p in Stack(base, layers) && Stack(base, layers)[p] == Stack(map[], layers)[p]
    ensures p !in Stack(map[], layers) ==>
              (p in Stack(base, layers) <==> p in base && Untouched(layers, p))
    ensures p !in Stack(map[], layers) && p in Stack(base, layers) ==> Stack(base, layers)[p] == base[p]
    decreases |layers|
  {
    if layers != [] {
      var front, top := layers[..|layers| - 1], layers[|layers| - 1];
      StackDecomposes(base, front, p);
      assert Untouched(layers, p) <==> Untouched(front, p) && !Touches(top, p) by {
        if Untouched(front, p) && !Touches(top, p) {
          assert forall i :: 0 <= i < |layers| ==> layers[i] == if i < |front| then front[i] else top;
        }
      }
      assert p in Stack(base, layers) <==>
        if p in top then !top[p].Whiteout? else p in Stack(base, front) && !Covered(top, p);
    }
  }

  // ---- The kernel's lookup, as an independent reference -------------------

  /** The layers, lowest first, whose directory at `p` still counts once the
      layers of `s` are scanned from the top: the scan stops at anything that is
      not a directory. */
  function Scan(s: seq<Tree>, p: Path): seq<Tree> {
    if s == [] then []
    else
      var front, top := s[..|s| - 1], s[|s| - 1];
      if p !in top then Scan(front, p)
      else if top[p].Dir? then Scan(front, p) + [top]
      else []
  }

  /** The layers merged into the directory at `p`. */
  function MergedDir(layers: seq<Tree>, p: Path): seq<Tree>
    decreases |p|
  {
    if p == [] then Scan(layers, []) else Scan(MergedDir(layers, Parent(p)), p)
  }

  /** The topmost entry for `p`, unless it is a whiteout. */
  function Topmost(s: seq<Tree>, p: Path): Result<Node> {
    if s == [] then Err
    else
      var front, top := s[..|s| - 1], s[|s| - 1];
      if p !in top then Topmost(front, p)
      else if top[p].Whiteout? then Err
      else Ok(top[p])
  }

  /** Lookup of one path: among the layers that make up its parent directory,
      the topmost entry wins. */
  function Lookup(layers: seq<Tree>, p: Path): Result<Node> {
    Topmost(if p == [] then layers else MergedDir(layers, Parent(p)), p)
  }

  ghost predicate Layers(s: seq<Tree>) {
    forall i :: 0 <= i < |s| ==> Layer(s[i])
  }

  /** How one more layer on top changes the set of layers merged at `p`. */
  lemma {:induction false} MergedDirStep(layers: seq<Tree>, top: Tree, p: Path)
    requires Layer(top)
    ensures MergedDir(layers + [top], p) ==
            if Covered(top, p) then []
            else if p !in top then MergedDir(layers, p)
            else if top[p].Dir? then MergedDir(layers, p) + [top]
            else []
    decreases |p|
  {
    var all := layers + [top];
    assert all[..|all| - 1] == layers;
    if p != [] {
      var up := Parent(p);
      MergedDirStep(layers, top, up);
      CoveredStep(top, p);
      var d := MergedDir(layers, up);
      assert (d + [top])[..|d + [top]| - 1] == d;
      if p in top {
        assert IsDir(top, up);
      }
    }
  }

  lemma CoveredStep(t: Tree, p: Path)
    requires WellFormed(t) && p != []
    ensures Covered(t, p) <==> Covered(t, Parent(p)) || (Parent(p) in t && !t[Parent(p)].Dir?)
    ensures p in t ==> !Covered(t, p)
  {
    var up := Parent(p);
    if Covered(t, up) {
      var k :| 0 <= k < |up| && up[..k] in t && !t[up[..k]].Dir?;
      assert up[..k] == p[..k];
    }
    if Covered(t, p) {
      var k :| 0 <= k < |p| && p[..k] in t && !t[p[..k]].Dir?;
      if k < |up| {
        assert up[..k] == p[..k];
      }
    }
    if p in t && Covered(t, p) {
      var k :| 0 <= k < |p| && p[..k] in t && !t[p[..k]].Dir?;
      AncestorsAreDirs(t, p, k);
    }
  }

  /** Folding `Merge` from the bottom up computes the kernel's top-down lookup,
      at every path. */
  lemma {:induction false} StackIsLookup(layers: seq<Tree>, p: Path)
    requires Layers(layers)
    ensures Lookup(layers, p) == (var view := Stack(map[], layers); if p in view then Ok(view[p]) else Err)
    decreases |layers|
  {
    if layers == [] {
      if p != [] {
        MergedDirOfNothing(Parent(p));
      }
    } else {
      var front, top := layers[..|layers| - 1], layers[|layers| - 1];
      assert layers == front + [top];
      StackIsLookup(front, p);
      if p != [] {
        MergedDirStep(front, top, Parent(p));
        CoveredStep(top, p);
        var d := MergedDir(front, Parent(p));
        assert (d + [top])[..|d + [top]| - 1] == d;
        if p in top {
          assert IsDir(top, Parent(p));
          assert Lookup(layers, p) == Topmost(d + [top], p);
        } else if Covered(top, p) {
          assert Lookup(layers, p) == Topmost([], p);
        } else {
          assert Lookup(layers, p) == Topmost(d, p) == Lookup(front, p);
        }
      }
    }
  }

  lemma {:induction false} MergedDirOfNothing(p: Path)
    ensures MergedDir([], p) == []
    decreases |p|
  {
    if p != [] {
      MergedDirOfNothing(Parent(p));
    }
  }

  // ---- Two-level stacking --------------------------------------------------

  function Flatten(chunks: seq<seq<Tree>>): seq<Tree> {
    if chunks == [] then [] else Flatten(chunks[..|chunks| - 1]) + chunks[|chunks| - 1]
  }

  /** What a chunk contributes to the outer overlay: a chunk of one layer is
      passed on as it is, any other chunk is mounted first. */
  function Effective(chunk: seq<Tree>): Tree {
    if |chunk| == 1 then chunk[0] else Stack(map[], chunk)
  }

  function EffectiveAll(chunks: seq<seq<Tree>>): seq<Tree> {
    seq(|chunks|, i requires 0 <= i < |chunks| => Effective(chunks[i]))
  }

  function FlatView(chunks: seq<seq<Tree>>): Tree {
    Stack(map[], Flatten(chunks))
  }

  function StackedView(chunks: seq<seq<Tree>>): Tree {
    Stack(map[], EffectiveAll(chunks))
  }

  /** The chunk hides `p` of the view below it, but mounting the chunk on its own
      leaves no trace of that. */
  ghost predicate Forgets(below: Tree, chunk: seq<Tree>, p: Path) {
    && |chunk| != 1
    && p in below
    && !Untouched(chunk, p)
    && !Touches(Effective(chunk), p)
  }

  /** Chunk `i` forgets to hide `p`, and no later chunk settles the matter. */
  ghost predicate ForgetsForGood(chunks: seq<seq<Tree>>, i: nat, p: Path)
    requires i < |chunks|
  {
    && Forgets(FlatView(chunks[..i]), chunks[i], p)
    && forall k :: i < k < |chunks| ==> !Touches(Effective(chunks[k]), p)
  }

  ghost predicate Resurrected(chunks: seq<seq<Tree>>, p: Path) {
    exists i :: 0 <= i < |chunks| && ForgetsForGood(chunks, i, p)
  }

  lemma StackedStep(chunks: seq<seq<Tree>>)
    requires chunks != []
    ensures FlatView(chunks) == Stack(FlatView(chunks[..|chunks| - 1]), chunks[|chunks| - 1])
    ensures StackedView(chunks) ==
            Merge(StackedView(chunks[..|chunks| - 1]), Effective(chunks[|chunks| - 1]))
  {
    var front, last := chunks[..|chunks| - 1], chunks[|chunks| - 1];
    StackAppend(map[], Flatten(front), last);
    var all := EffectiveAll(chunks);
    assert all[..|all| - 1] == EffectiveAll(front);
  }

  lemma StillForgotten(chunks: seq<seq<Tree>>, i: nat, p: Path)
    requires i < |chunks| - 1
    ensures ForgetsForGood(chunks, i, p) <==>
            ForgetsForGood(chunks[..|chunks| - 1], i, p) && !Touches(Effective(chunks[|chunks| - 1]), p)
  {
    assert chunks[..|chunks| - 1][..i] == chunks[..i];
  }

  /** How resurrection carries over from the chunks below the last one. */
  lemma ResurrectedStep(chunks: seq<seq<Tree>>, p: Path)
    requires chunks != []
    ensures var front, last := chunks[..|chunks| - 1], chunks[|chunks| - 1];
            Resurrected(chunks, p) <==>
              Forgets(FlatView(front), last, p) || (Resurrected(front, p) && !Touches(Effective(last), p))
  {
    var n := |chunks| - 1;
    var front, last := chunks[..n], chunks[n];
    if Resurrected(front, p) && !Touches(Effective(last), p) {
      var i :| 0 <= i < |front| && ForgetsForGood(front, i, p);
      StillForgotten(chunks, i, p);
    }
    if Forgets(FlatView(front), last, p) {
      assert ForgetsForGood(chunks, n, p);
    }
    if Resurrected(chunks, p) {
      var i :| 0 <= i < |chunks| && ForgetsForGood(chunks, i, p);
      if i < n {
        StillForgotten(chunks, i, p);
      }
    }
  }

  /** Path by path: the stacked mount shows everything the flat mount shows,
      unchanged, and on top of that exactly the resurrected paths. */
  lemma {:induction false} StackedAtPath(chunks: seq<seq<Tree>>, p: Path)
    ensures p in FlatView(chunks) ==> p in StackedView(chunks) && StackedView(chunks)[p] == FlatView(chunks)[p]
    ensures p in StackedView(chunks) && p !in FlatView(chunks) <==> Resurrected(chunks, p)
    decreases |chunks|
  {
    if chunks != [] {
      var front, last := chunks[..|chunks| - 1], chunks[|chunks| - 1];
      StackedAtPath(front, p);
      StackedStep(chunks);
      ResurrectedStep(chunks, p);
      StackDecomposes(FlatView(front), last, p);
      var f, s, e := FlatView(front), StackedView(front), Effective(last);
      if |last| == 1 {
        assert last[..0] == [];
        assert FlatView(chunks) == Merge(f, e);
        assert !Forgets(f, last, p);
      } else {
        StackedChunkHasNoWhiteout(last, p);
        assert p in e ==> p in FlatView(chunks) && FlatView(chunks)[p] == e[p];
        assert p !in e ==> (p in FlatView(chunks) <==> p in f && Untouched(last, p));
        assert p in StackedView(chunks) <==> if p in e then true else p in s && !Covered(e, p);
        MountTouchesNoMore(last, p);
      }
    }
  }

  /** Whatever the mounted layers touch, one of the layers touches. */
  lemma MountTouchesNoMore(layers: seq<Tree>, p: Path)
    ensures Touches(Stack(map[], layers), p) ==> !Untouched(layers, p)
  {
    var view := Stack(map[], layers);
    if p in view {
      StackOrigin(layers, p);
    } else if Covered(view, p) {
      var k :| 0 <= k < |p| && p[..k] in view && !view[p[..k]].Dir?;
      StackOrigin(layers, p[..k]);
      var i :| 0 <= i < |layers| && p[..k] in layers[i] && layers[i][p[..k]] == view[p[..k]];
      assert Touches(layers[i], p);
    }
  }

  /** Every visible node comes from some layer. */
  lemma {:induction false} StackOrigin(layers: seq<Tree>, p: Path)
    requires p in Stack(map[], layers)
    ensures exists i :: 0 <= i < |layers| && p in layers[i] && layers[i][p] == Stack(map[], layers)[p]
    decreases |layers|
  {
    var n := |layers| - 1;
    if p !in layers[n] {
      StackOrigin(layers[..n], p);
      var i :| 0 <= i < n && p in layers[..n][i] && layers[..n][i][p] == Stack(map[], layers[..n])[p];
      assert layers[i] == layers[..n][i];
    }
  }

  lemma {:induction false} StackedChunkHasNoWhiteout(chunk: seq<Tree>, p: Path)
    ensures p in Stack(map[], chunk) ==> !Stack(map[], chunk)[p].Whiteout?
    decreases |chunk|
  {
    if chunk != [] {
      StackedChunkHasNoWhiteout(chunk[..|chunk| - 1], p);
    }
  }

  /** The two-level mount equals the flat one exactly when no path is resurrected. */
  lemma StackedEqualsFlatExactly(chunks: seq<seq<Tree>>)
    ensures StackedView(chunks) == FlatView(chunks) <==> forall p :: !Resurrected(chunks, p)
  {
    forall p
      ensures p in FlatView(chunks) ==> p in StackedView(chunks) && StackedView(chunks)[p] == FlatView(chunks)[p]
      ensures p in StackedView(chunks) && p !in FlatView(chunks) <==> Resurrected(chunks, p)
    {
      StackedAtPath(chunks, p);
    }
    if forall p :: !Resurrected(chunks, p) {
      assert StackedView(chunks).Keys == FlatView(chunks).Keys;
    }
  }

  /** On the way to `p`, a layer of the chunk has a whiteout, or something that is no
      directory and that a later layer of the chunk replaces by a directory. */
  ghost predicate Hides(chunk: seq<Tree>, p: Path) {
    exists j, k :: 0 <= j < |chunk| && 0 <= k <= |p| && HidesAt(chunk, p, j, k)
  }

  ghost predicate HidesAt(chunk: seq<Tree>, p: Path, j: nat, k: nat)
    requires j < |chunk| && k <= |p|
  {
    && p[..k] in chunk[j]
    && (chunk[j][p[..k]].Whiteout?
        || (k < |p| && !chunk[j][p[..k]].Dir?
            && exists l :: j < l < |chunk| && p[..k] in chunk[l] && chunk[l][p[..k]].Dir?))
  }

  lemma FrontHidesNoMore(chunk: seq<Tree>, p: Path)
    requires chunk != []
    ensures Hides(chunk[..|chunk| - 1], p) ==> Hides(chunk, p)
  {
    var front := chunk[..|chunk| - 1];
    if Hides(front, p) {
      var j, k :| 0 <= j < |front| && 0 <= k <= |p| && HidesAt(front, p, j, k);
      if !front[j][p[..k]].Whiteout? {
        var l :| j < l < |front| && p[..k] in front[l] && front[l][p[..k]].Dir?;
        assert chunk[l] == front[l];
      }
      assert HidesAt(chunk, p, j, k);
    }
  }

  /** Without such layers, a mounted chunk still touches what its layers touch. */
  lemma {:induction false} TraceIsKept(chunk: seq<Tree>, p: Path)
    requires !Hides(chunk, p) && !Untouched(chunk, p)
    ensures Touches(Stack(map[], chunk), p)
    decreases |chunk|
  {
    var n := |chunk| - 1;
    var front, top := chunk[..n], chunk[n];
    if p in top {
      assert p[..|p|] == p;
      assert !HidesAt(chunk, p, n, |p|);
    } else if Covered(top, p) {
      var k :| 0 <= k < |p| && p[..k] in top && !top[p[..k]].Dir?;
      assert !HidesAt(chunk, p, n, k);
      assert Covered(Stack(map[], chunk), p);
    } else {
      FrontHidesNoMore(chunk, p);
      var i :| 0 <= i < |chunk| && Touches(chunk[i], p);
      assert chunk[i] == front[i];
      TraceIsKept(front, p);
      TopKeepsTrace(chunk, p);
    }
  }

  lemma TopKeepsTrace(chunk: seq<Tree>, p: Path)
    requires chunk != [] && !Hides(chunk, p) && !Touches(chunk[|chunk| - 1], p)
    requires Touches(Stack(map[], chunk[..|chunk| - 1]), p)
    ensures Touches(Stack(map[], chunk), p)
  {
    var n := |chunk| - 1;
    var below, top := Stack(map[], chunk[..n]), chunk[n];
    if p !in below {
      var k :| 0 <= k < |p| && p[..k] in below && !below[p[..k]].Dir?;
      var q := p[..k];
      StackOrigin(chunk[..n], q);
      var i :| 0 <= i < n && q in chunk[..n][i] && chunk[..n][i][q] == below[q];
      assert !HidesAt(chunk, p, i, k);
      assert q !in top;
      forall m | 0 <= m < |q| ensures q[..m] == p[..m] {
      }
      assert q in Stack(map[], chunk) && Stack(map[], chunk)[q] == below[q];
    }
  }

  /** If no mounted chunk hides anything of what the chunks below it show, the stacked
      mount is the flat one. */
  lemma NothingHiddenStacks(chunks: seq<seq<Tree>>)
    requires forall i, p :: 0 <= i < |chunks| && |chunks[i]| != 1 && p in FlatView(chunks[..i]) ==>
               !Hides(chunks[i], p)
    ensures StackedView(chunks) == FlatView(chunks)
  {
    forall p ensures !Resurrected(chunks, p) {
      if Resurrected(chunks, p) {
        var i :| 0 <= i < |chunks| && ForgetsForGood(chunks, i, p);
        TraceIsKept(chunks[i], p);
      }
    }
    StackedEqualsFlatExactly(chunks);
  }

  /** A chunk without whiteouts, in which no path is a directory in one layer and
      something else in another. */
  ghost predicate Conservative(chunk: seq<Tree>) {
    && (forall u: Tree, p: Path :: u in chunk && p in u ==> !u[p].Whiteout?)
    && (forall u: Tree, v: Tree, p: Path :: u in chunk && v in chunk && p in u && p in v ==> u[p].Dir? == v[p].Dir?)
  }

  /** Such chunks hide nothing, whatever is below them. */
  lemma ConservativeChunksStack(chunks: seq<seq<Tree>>)
    requires forall i :: 0 <= i < |chunks| ==> |chunks[i]| == 1 || Conservative(chunks[i])
    ensures StackedView(chunks) == FlatView(chunks)
  {
    NothingHiddenStacks(chunks);
  }

  /** First way to break it: a whiteout whose target lies in an earlier chunk. */
  lemma WhiteoutAcrossChunks(content: Bytes, dir: Node)
    requires dir.Dir?
    ensures var a: Tree := map[[] := dir, ["a"] := File(content, 0x1A4, map[])];
            var w: Tree := map[[] := dir, ["a"] := Whiteout];
            var e: Tree := map[[] := dir];
            var chunks := [[a], [w, e]];
            ["a"] !in FlatView(chunks) && ["a"] in StackedView(chunks)
  {
    var a: Tree := map[[] := dir, ["a"] := File(content, 0x1A4, map[])];
    var w: Tree := map[[] := dir, ["a"] := Whiteout];
    var e: Tree := map[[] := dir];
    TwoChunks(a, w, e);
    assert ["a"][..0] == [];
    assert !Covered(e, ["a"]) && !Covered(Merge(Merge(map[], w), e), ["a"]);
  }

  lemma OneLayer(base: Tree, u: Tree)
    ensures Stack(base, [u]) == Merge(base, u)
  {
  }

  lemma TwoLayers(base: Tree, u: Tree, v: Tree)
    ensures Stack(base, [u, v]) == Merge(Merge(base, u), v)
  {
    assert [u, v] == [u] + [v];
    StackAppend(base, [u], [v]);
    OneLayer(base, u);
    OneLayer(Merge(base, u), v);
  }

  lemma TwoChunks(a: Tree, u: Tree, v: Tree)
    ensures FlatView([[a], [u, v]]) == Merge(Merge(Merge(map[], a), u), v)
    ensures StackedView([[a], [u, v]]) == Merge(Merge(map[], a), Merge(Merge(map[], u), v))
  {
    var first := [[a]];
    var chunks := [[a], [u, v]];
    assert chunks[..1] == first && first[..0] == [];
    StackedStep(chunks);
    StackedStep(first);
    OneLayer(map[], a);
    TwoLayers(Merge(map[], a), u, v);
    TwoLayers(map[], u, v);
  }

  /** Second way: a directory over a file over a directory, the last two in one
      chunk. The file cuts off the lower directory, the mounted chunk does not. */
  lemma DirOverFileOverDir(content: Bytes, dir: Node)
    requires dir.Dir?
    ensures var a: Tree := map[[] := dir, ["d"] := dir, ["d", "x"] := File(content, 0x1A4, map[])];
            var f: Tree := map[[] := dir, ["d"] := File(content, 0x1A4, map[])];
            var e: Tree := map[[] := dir, ["d"] := dir];
            var chunks := [[a], [f, e]];
            ["d", "x"] !in FlatView(chunks) && ["d", "x"] in StackedView(chunks)
  {
    var a: Tree := map[[] := dir, ["d"] := dir, ["d", "x"] := File(content, 0x1A4, map[])];
    var f: Tree := map[[] := dir, ["d"] := File(content, 0x1A4, map[])];
    var e: Tree := map[[] := dir, ["d"] := dir];
    var p := ["d", "x"];
    assert p[..1] == ["d"];
    assert Covered(f, p);
    DirsOverAll(f, e, p);
    CutOffByFile(a, f, e, p);
  }

  lemma DirsOverAll(f: Tree, e: Tree, p: Path)
    requires f.Keys <= e.Keys && forall q :: q in e ==> e[q].Dir?
    ensures Merge(Merge(map[], f), e) == e && !Covered(e, p)
  {
  }

  lemma CutOffByFile(a: Tree, f: Tree, e: Tree, p: Path)
    requires p in a && !a[p].Whiteout? && p !in f && p !in e
    requires Covered(f, p) && !Covered(e, p) && Merge(Merge(map[], f), e) == e
    ensures p !in FlatView([[a], [f, e]]) && p in StackedView([[a], [f, e]])
  {
    TwoChunks(a, f, e);
    assert p in Merge(Merge(map[], a), e);
    assert p !in Merge(Merge(map[], a), f);
  }
}
