/** What mounting a chunk of layers makes of a path, read off the layers alone, and with it
    the condition under which stacked overlays are one flat overlay.
 */
module OverlayLayers {
  import opened FileTree
  import opened Overlay

  /** No layer has to do with the path; or it is shown; or something that is no
      directory stands at depth `depth` on the way to it; or it was hidden, and the mounted
      chunk no longer shows that it was. */
  datatype Fate = Absent | Shown | Cut(depth: nat) | Forgotten

  /** The first depth from `k` on at which something other than a directory stands on
      the way to `p`, or the length of `p`. */
  function CutDepth(t: Tree, p: Path, k: nat): (d: nat)
    requires k <= |p|
    ensures k <= d <= |p|
    ensures forall i :: k <= i < d ==> p[..i] in t ==> t[p[..i]].Dir?
    ensures d < |p| ==> p[..d] in t && !t[p[..d]].Dir?
    decreases |p| - k
  {
    if k == |p| || (p[..k] in t && !t[p[..k]].Dir?) then k else CutDepth(t, p, k + 1)
  }

  /** From the uppermost layer down, the first one that touches the path decides;
      directories above it make up for what it cuts off. */
  function FateOf(chunk: seq<Tree>, p: Path): Fate {
    if chunk == [] then Absent else
    var front, top := chunk[..|chunk| - 1], chunk[|chunk| - 1];
    var cut := CutDepth(top, p, 0);
    if p in top then (if top[p].Whiteout? then Forgotten else Shown)
    else if cut < |p| then (if top[p[..cut]].Whiteout? then Forgotten else Cut(cut))
    else
      match FateOf(front, p)
      case Cut(d) => if d < |p| && p[..d] in top then Forgotten else Cut(d)
      case other => other
  }

  /** What the fate says of the mounted chunk. */
  ghost predicate Fits(fate: Fate, chunk: seq<Tree>, p: Path) {
    var view := Stack(map[], chunk);
    match fate
    case Absent => Untouched(chunk, p) && !Touches(view, p)
    case Shown => p in view && !Covered(view, p)
    case Cut(d) => d < |p| && p !in view && OnlyCut(view, p, d)
    case Forgotten => !Untouched(chunk, p) && !Touches(view, p)
  }

  ghost predicate OnlyCut(view: Tree, p: Path, d: nat) {
    forall k :: 0 <= k < |p| ==> (p[..k] in view && !view[p[..k]].Dir? <==> k == d)
  }

  /** Where the top layer touches the path, it settles every depth. */
  lemma TopSettles(below: Tree, top: Tree, p: Path)
    requires WellFormed(top) && Touches(top, p)
    ensures var view, cut := Merge(below, top), CutDepth(top, p, 0);
            && (forall k :: 0 <= k < |p| ==>
                  (p[..k] in view && !view[p[..k]].Dir? <==> k == cut && !top[p[..k]].Whiteout?))
            && (p in view <==> p in top && !top[p].Whiteout?)
            && (p in top ==> cut == |p|)
  {
    var view, cut := Merge(below, top), CutDepth(top, p, 0);
    assert p[..|p|] == p;
    if p in top {
      forall k | 0 <= k < |p| ensures IsDir(top, p[..k]) {
        AncestorsAreDirs(top, p, k);
      }
    } else {
      var q := p[..cut];
      forall k | 0 <= k < cut ensures IsDir(top, p[..k]) {
        AncestorsAreDirs(top, q, k);
        assert q[..k] == p[..k];
      }
      forall k | cut < k <= |p| ensures p[..k] !in view {
        assert p[..k][..cut] == q;
        if p[..k] in top {
          AncestorsAreDirs(top, p[..k], cut);
        }
      }
    }
  }

  /** Where it does not, depths change only by directories of the top layer. */
  lemma TopPasses(below: Tree, top: Tree, p: Path)
    requires !Touches(top, p)
    ensures var view := Merge(below, top);
            && CutDepth(top, p, 0) == |p|
            && (forall k :: 0 <= k < |p| ==>
                  (p[..k] in view && !view[p[..k]].Dir? <==>
                   p[..k] in below && !below[p[..k]].Dir? && p[..k] !in top))
            && (p in view <==> p in below)
  {
    forall k | 0 <= k < |p| ensures !Covered(top, p[..k]) {
      forall m | 0 <= m < k ensures p[..k][..m] == p[..m] {
      }
    }
  }

  lemma UntouchedStep(chunk: seq<Tree>, p: Path)
    requires chunk != []
    ensures Untouched(chunk, p) <==>
            Untouched(chunk[..|chunk| - 1], p) && !Touches(chunk[|chunk| - 1], p)
  {
    var front, top := chunk[..|chunk| - 1], chunk[|chunk| - 1];
    assert forall i :: 0 <= i < |chunk| ==> chunk[i] == if i < |front| then front[i] else top;
  }

  lemma FateSettled(chunk: seq<Tree>, p: Path)
    requires chunk != [] && WellFormed(chunk[|chunk| - 1]) && Touches(chunk[|chunk| - 1], p)
    ensures Fits(FateOf(chunk, p), chunk, p)
  {
    UntouchedStep(chunk, p);
    TopSettles(Stack(map[], chunk[..|chunk| - 1]), chunk[|chunk| - 1], p);
  }

  lemma FatePassed(chunk: seq<Tree>, p: Path)
    requires chunk != [] && !Touches(chunk[|chunk| - 1], p)
    requires Fits(FateOf(chunk[..|chunk| - 1], p), chunk[..|chunk| - 1], p)
    ensures Fits(FateOf(chunk, p), chunk, p)
  {
    var front, top := chunk[..|chunk| - 1], chunk[|chunk| - 1];
    var below, view := Stack(map[], front), Stack(map[], chunk);
    UntouchedStep(chunk, p);
    TopPasses(below, top, p);
    match FateOf(front, p)
    case Cut(d) =>
      assert OnlyCut(below, p, d) && below[p[..d]] == below[p[..d]];
      if p[..d] in top {
        assert !Covered(view, p);
        assert !Untouched(front, p) by {
          StackOrigin(front, p[..d]);
          var i :| 0 <= i < |front| && p[..d] in front[i] && front[i][p[..d]] == below[p[..d]];
          assert Touches(front[i], p);
        }
      } else {
        assert OnlyCut(view, p, d);
      }
    case _ => assert !Covered(below, p) && !Covered(view, p);
  }

  /** The fate of a path tells what the mounted chunk shows and hides there. */
  lemma {:induction false} FateIsRight(chunk: seq<Tree>, p: Path)
    requires Layers(chunk)
    ensures Fits(FateOf(chunk, p), chunk, p)
    decreases |chunk|
  {
    if chunk != [] {
      if Touches(chunk[|chunk| - 1], p) {
        FateSettled(chunk, p);
      } else {
        FateIsRight(chunk[..|chunk| - 1], p);
        FatePassed(chunk, p);
      }
    }
  }

  lemma FateMeans(chunk: seq<Tree>, p: Path)
    requires Layers(chunk)
    ensures var fate, view := FateOf(chunk, p), Stack(map[], chunk);
            && (fate.Shown? <==> p in view)
            && (fate.Shown? || fate.Cut? <==> Touches(view, p))
            && (fate.Absent? <==> Untouched(chunk, p))
  {
    FateIsRight(chunk, p);
    MountTouchesNoMore(chunk, p);
    var fate, view := FateOf(chunk, p), Stack(map[], chunk);
    if fate.Cut? {
      assert OnlyCut(view, p, fate.depth) && Covered(view, p);
    }
  }

  /** The chunk, mounted if it has several layers, does not touch the path. */
  predicate Silent(chunk: seq<Tree>, p: Path) {
    FateOf(chunk, p).Absent? || (|chunk| != 1 && FateOf(chunk, p).Forgotten?)
  }

  /** The layers below chunk `i` show the path, chunk `i` hides it without keeping a
      trace of that, and no later chunk touches it. */
  predicate LostAt(chunks: seq<seq<Tree>>, i: nat, p: Path)
    requires i < |chunks|
  {
    && |chunks[i]| != 1
    && FateOf(Flatten(chunks[..i]), p).Shown?
    && FateOf(chunks[i], p).Forgotten?
    && forall k :: i < k < |chunks| ==> Silent(chunks[k], p)
  }

  lemma {:induction false} FlattenLayers(chunks: seq<seq<Tree>>)
    requires forall i :: 0 <= i < |chunks| ==> Layers(chunks[i])
    ensures Layers(Flatten(chunks))
  {
    if chunks != [] {
      FlattenLayers(chunks[..|chunks| - 1]);
    }
  }

  lemma SilentMeans(chunk: seq<Tree>, p: Path)
    requires Layers(chunk)
    ensures Silent(chunk, p) <==> !Touches(Effective(chunk), p)
  {
    FateMeans(chunk, p);
    if |chunk| == 1 {
      assert Untouched(chunk, p) <==> !Touches(chunk[0], p);
    }
  }

  lemma LostIsForgotten(chunks: seq<seq<Tree>>, i: nat, p: Path)
    requires i < |chunks| && forall k :: 0 <= k < |chunks| ==> Layers(chunks[k])
    ensures LostAt(chunks, i, p) <==> ForgetsForGood(chunks, i, p)
  {
    FlattenLayers(chunks[..i]);
    FateMeans(Flatten(chunks[..i]), p);
    FateMeans(chunks[i], p);
    forall k | i < k < |chunks| ensures Silent(chunks[k], p) <==> !Touches(Effective(chunks[k]), p) {
      SilentMeans(chunks[k], p);
    }
  }

  /** Read off the layers: the stacked mount is the flat one exactly if no chunk loses a
      path that the layers below it show. */
  lemma StackedEqualsFlatByLayers(chunks: seq<seq<Tree>>)
    requires forall k :: 0 <= k < |chunks| ==> Layers(chunks[k])
    ensures StackedView(chunks) == FlatView(chunks) <==>
            forall i, p :: 0 <= i < |chunks| ==> !LostAt(chunks, i, p)
  {
    forall i, p | 0 <= i < |chunks| ensures LostAt(chunks, i, p) <==> ForgetsForGood(chunks, i, p) {
      LostIsForgotten(chunks, i, p);
    }
    StackedEqualsFlatExactly(chunks);
    if StackedView(chunks) == FlatView(chunks) {
      forall i, p | 0 <= i < |chunks| ensures !LostAt(chunks, i, p) {
        assert !Resurrected(chunks, p);
      }
    }
  }
}
