/** Directory trees, and what overlayfs shows when trees are stacked.

    A tree maps each path to the node found there. A path is the list of its
    components; the root is the empty list. Modes carry the twelve permission
    bits (07777).
 */
module FileTree {
  type Path = seq<string>
  type Bytes = seq<bv8>
  type Mode = bv12
  type Xattrs = map<string, Bytes>

  datatype Node =
    | File(content: Bytes, mode: Mode, xattrs: Xattrs)
    | Dir(mode: Mode, xattrs: Xattrs)
    | Symlink(target: string)
    | Whiteout
    | Special

  type Tree = map<Path, Node>

  function Parent(p: Path): Path
    requires p != []
  {
    p[..|p| - 1]
  }

  predicate IsDir(t: Tree, p: Path) {
    p in t && t[p].Dir?
  }

  /** Every entry but the root sits in a directory of the tree. */
  ghost predicate WellFormed(t: Tree) {
    && ([] in t ==> t[[]].Dir?)
    && forall p {:trigger Parent(p)} :: p in t && p != [] ==> IsDir(t, Parent(p))
  }

  /** What a layer directory on disk looks like: it exists and is a directory. */
  ghost predicate Layer(t: Tree) {
    WellFormed(t) && IsDir(t, [])
  }

  lemma {:induction false} AncestorsAreDirs(t: Tree, p: Path, k: nat)
    requires WellFormed(t) && p in t && k < |p|
    ensures IsDir(t, p[..k])
    decreases |p|
  {
    var up := Parent(p);
    assert IsDir(t, up);
    if k < |p| - 1 {
      AncestorsAreDirs(t, up, k);
      assert up[..k] == p[..k];
    }
  }
}
