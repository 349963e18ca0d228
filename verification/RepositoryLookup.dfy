/** Overlay repositories: the masters graph, and the depth-first search that
    orders a repository after everything it builds on.
 */
module RepositoryGraph {
  type Name = string

  /** What is found at the place where a repository of some name should be. */
  datatype Found =
    | Unreadable
    | Layout(name: Name, parents: seq<Name>)

  /** Repositories that exist, by the name they are looked up with. */
  type Disk = map<Name, Found>

  const PRIVATE := "-private"

  predicate IsPrivate(n: Name) {
    |n| >= |PRIVATE| && n[|n| - |PRIVATE|..] == PRIVATE
  }

  /** `layout.conf` can be read and declares the name it was looked up with. */
  predicate Loadable(disk: Disk, n: Name) {
    n in disk && disk[n].Layout? && disk[n].name == n
  }

  /** The names one parent leads to; in private mode also its private companion. */
  function Names(parent: Name, withPrivate: bool): seq<Name> {
    if withPrivate && !IsPrivate(parent) then [parent, parent + PRIVATE] else [parent]
  }

  function AllNames(parents: seq<Name>, withPrivate: bool): seq<Name> {
    if parents == [] then []
    else AllNames(parents[..|parents| - 1], withPrivate) + Names(parents[|parents| - 1], withPrivate)
  }

  /** What must come before `n`. */
  function Deps(disk: Disk, withPrivate: bool, n: Name): seq<Name> {
    if Loadable(disk, n) then AllNames(disk[n].parents, withPrivate) else []
  }

  ghost predicate IsPath(disk: Disk, withPrivate: bool, p: seq<Name>) {
    p != [] && forall i :: 0 <= i < |p| - 1 ==> p[i + 1] in Deps(disk, withPrivate, p[i])
  }

  ghost predicate Reach(disk: Disk, withPrivate: bool, a: Name, b: Name) {
    exists p :: IsPath(disk, withPrivate, p) && p[0] == a && p[|p| - 1] == b
  }

  ghost predicate Acyclic(disk: Disk, withPrivate: bool) {
    forall p :: IsPath(disk, withPrivate, p) && |p| >= 2 ==> p[0] != p[|p| - 1]
  }

  /** Every master exists, and no public repository builds on a private one. */
  predicate Sound(disk: Disk, withPrivate: bool, n: Name) {
    n in disk ==>
      && Loadable(disk, n)
      && forall i :: 0 <= i < |disk[n].parents| ==>
           disk[n].parents[i] in disk && (withPrivate || !IsPrivate(disk[n].parents[i]))
  }

  /** Unreadable or misnamed layouts, masters that do not exist, and private masters of a
      public repository are unsound. */
  lemma SoundExactly(disk: Disk, withPrivate: bool, n: Name)
    ensures Sound(disk, withPrivate, n) <==>
            (n in disk ==>
               && disk[n].Layout?
               && disk[n].name == n
               && forall m :: m in disk[n].parents ==>
                    m in disk && (withPrivate || !(|m| >= 8 && m[|m| - 8..] == "-private")))
  {
    if n in disk && disk[n].Layout? {
      forall m | m in disk[n].parents ensures exists i :: 0 <= i < |disk[n].parents| && disk[n].parents[i] == m {
      }
    }
  }

  /** Everything that exists and that `order[i]` depends on comes before it. */
  ghost predicate Topological(disk: Disk, withPrivate: bool, order: seq<Name>) {
    forall i, d :: 0 <= i < |order| && d in Deps(disk, withPrivate, order[i]) && d in disk ==> d in order[..i]
  }

  ghost predicate NoDuplicates(order: seq<Name>) {
    forall i, j :: 0 <= i < j < |order| ==> order[i] != order[j]
  }

  /** The state of a traversal in which the repositories on `stack` are being
      visited, each one because the previous one depends on it. */
  ghost predicate Consistent(disk: Disk, withPrivate: bool, seen: set<Name>, order: seq<Name>, stack: seq<Name>) {
    && NoDuplicates(order)
    && (forall n :: n in order ==> n in seen && Loadable(disk, n) && n !in stack)
    && (forall n :: n in order ==> Visited(disk, withPrivate, seen, n))
    && (forall n :: n in seen && n in disk ==> n in order || n in stack)
    && (forall n :: n in stack ==> n in seen)
    && (Acyclic(disk, withPrivate) ==> Topological(disk, withPrivate, order))
  }

  ghost predicate Visited(disk: Disk, withPrivate: bool, seen: set<Name>, n: Name)
  {
    && (forall d :: d in Deps(disk, withPrivate, n) ==> d in seen)
    && (withPrivate || (Loadable(disk, n) && forall m :: m in disk[n].parents ==> !IsPrivate(m)))
  }

  ghost predicate Chain(disk: Disk, withPrivate: bool, stack: seq<Name>, n: Name) {
    IsPath(disk, withPrivate, stack + [n])
  }

  /** `x` is listed, and before `y` if that is listed too. */
  ghost predicate Before(order: seq<Name>, x: Name, y: Name) {
    x in order && forall b :: 0 <= b < |order| && order[b] == y ==> x in order[..b]
  }

  ghost predicate NoneReaches(disk: Disk, withPrivate: bool, names: seq<Name>, y: Name) {
    forall d :: d in names ==> !Reach(disk, withPrivate, d, y)
  }

  /** What `n` builds on is listed from left to right: the first dependencies come before
      all that `n` reaches but they do not. Only what `before` reaches may be listed
      earlier. */
  ghost predicate LeftToRight(disk: Disk, withPrivate: bool, n: Name, before: set<Name>, order: seq<Name>) {
    var deps := Deps(disk, withPrivate, n);
    forall i, x, y :: 0 <= i <= |deps| && x in deps[..i] && x in disk && y != n && Reach(disk, withPrivate, n, y)
                      && NoneReaches(disk, withPrivate, deps[..i], y)
                      && (forall b :: b in before ==> !Reach(disk, withPrivate, b, y)) ==>
      Before(order, x, y)
  }

  /** The same for a traversal that begins when `seen` has been seen. */
  ghost predicate LeftToRightSince(disk: Disk, withPrivate: bool, n: Name, seen: set<Name>, order: seq<Name>) {
    var deps := Deps(disk, withPrivate, n);
    forall i, x, y :: 0 <= i <= |deps| && x in deps[..i] && x in disk && y != n && Reach(disk, withPrivate, n, y)
                      && NoneReaches(disk, withPrivate, deps[..i], y) && y !in seen ==>
      Before(order, x, y)
  }

  lemma BeforeExtends(order: seq<Name>, more: seq<Name>, x: Name, y: Name)
    requires Before(order, x, y)
    ensures Before(order + more, x, y)
  {
    forall b | 0 <= b < |order + more| && (order + more)[b] == y ensures x in (order + more)[..b] {
      if b < |order| {
        assert (order + more)[..b] == order[..b];
      } else {
        assert (order + more)[..b][..|order|] == order;
      }
    }
  }

  lemma LeftToRightExtends(disk: Disk, withPrivate: bool, n: Name, seen: set<Name>, order: seq<Name>, longer: seq<Name>)
    requires LeftToRightSince(disk, withPrivate, n, seen, order) && order <= longer
    ensures LeftToRightSince(disk, withPrivate, n, seen, longer)
  {
    assert longer == order + longer[|order|..];
    forall x, y | Before(order, x, y) ensures Before(longer, x, y) {
      BeforeExtends(order, longer[|order|..], x, y);
    }
  }

  /** Nothing has been seen but what `before` reaches. */
  lemma SinceMeansBut(disk: Disk, withPrivate: bool, n: Name, seen: set<Name>, before: set<Name>, order: seq<Name>)
    requires LeftToRightSince(disk, withPrivate, n, seen, order)
    requires forall m :: m in seen && m != n ==> exists b :: b in before && Reach(disk, withPrivate, b, m)
    ensures LeftToRight(disk, withPrivate, n, before, order)
  {
  }

  lemma ReachThrough(disk: Disk, withPrivate: bool, a: Name, b: Name, c: Name)
    requires Reach(disk, withPrivate, a, b) && Reach(disk, withPrivate, b, c)
    ensures Reach(disk, withPrivate, a, c)
  {
    var p :| IsPath(disk, withPrivate, p) && p[0] == a && p[|p| - 1] == b;
    PathThrough(disk, withPrivate, p, c);
  }

  lemma {:induction false} PathThrough(disk: Disk, withPrivate: bool, p: seq<Name>, c: Name)
    requires IsPath(disk, withPrivate, p) && Reach(disk, withPrivate, p[|p| - 1], c)
    ensures Reach(disk, withPrivate, p[0], c)
    decreases |p|
  {
    if |p| > 1 {
      var rest := p[1..];
      assert p[0 + 1] in Deps(disk, withPrivate, p[0]);
      assert IsPath(disk, withPrivate, rest) by {
        forall k | 0 <= k < |rest| - 1 ensures rest[k + 1] in Deps(disk, withPrivate, rest[k]) {
          assert p[k + 1 + 1] in Deps(disk, withPrivate, p[k + 1]);
        }
      }
      PathThrough(disk, withPrivate, rest, c);
      ReachStep(disk, withPrivate, p[0], p[1], c);
    }
  }

  /** Whatever is on the stack reaches what is visited. */
  lemma StackReaches(disk: Disk, withPrivate: bool, stack: seq<Name>, n: Name, x: Name)
    requires Chain(disk, withPrivate, stack, n) && x in stack + [n]
    ensures Reach(disk, withPrivate, x, n)
  {
    var p := stack + [n];
    var i :| 0 <= i < |p| && p[i] == x;
    var q := p[i..];
    forall k | 0 <= k < |q| - 1 ensures q[k + 1] in Deps(disk, withPrivate, q[k]) {
      assert p[i + k + 1] in Deps(disk, withPrivate, p[i + k]);
    }
    assert IsPath(disk, withPrivate, q) && q[0] == x && q[|q| - 1] == n;
  }

  /** In private mode each public parent is followed by its private companion. */
  lemma NamesOf(a: seq<Name>, p: Name, b: seq<Name>, withPrivate: bool)
    ensures AllNames(a + [p] + b, withPrivate) ==
            AllNames(a, withPrivate)
            + (if withPrivate && !(|p| >= 8 && p[|p| - 8..] == "-private") then [p, p + "-private"] else [p])
            + AllNames(b, withPrivate)
  {
    AllNamesConcat(a + [p], b, withPrivate);
    AllNamesAppend(a, p, withPrivate);
  }

  lemma {:induction false} AllNamesConcat(a: seq<Name>, b: seq<Name>, withPrivate: bool)
    ensures AllNames(a + b, withPrivate) == AllNames(a, withPrivate) + AllNames(b, withPrivate)
    decreases |b|
  {
    if b == [] {
      assert a + b == a;
    } else {
      var front, last := b[..|b| - 1], b[|b| - 1];
      assert a + b == a + front + [last] && b == front + [last];
      AllNamesConcat(a, front, withPrivate);
      AllNamesAppend(a + front, last, withPrivate);
      AllNamesAppend(front, last, withPrivate);
    }
  }

  lemma AllNamesAppend(parents: seq<Name>, last: Name, withPrivate: bool)
    ensures AllNames(parents + [last], withPrivate) == AllNames(parents, withPrivate) + Names(last, withPrivate)
  {
  }

  /** Every master is a dependency. */
  lemma {:induction false} AllNamesOfEach(parents: seq<Name>, withPrivate: bool)
    ensures forall m :: m in parents ==> m in AllNames(parents, withPrivate)
  {
    if parents != [] {
      var front, last := parents[..|parents| - 1], parents[|parents| - 1];
      assert parents == front + [last];
      AllNamesOfEach(front, withPrivate);
      AllNamesAppend(front, last, withPrivate);
      assert last in Names(last, withPrivate);
    }
  }

  lemma ChainStep(disk: Disk, withPrivate: bool, stack: seq<Name>, n: Name, d: Name)
    requires Chain(disk, withPrivate, stack, n) && d in Deps(disk, withPrivate, n)
    ensures Chain(disk, withPrivate, stack + [n], d)
    ensures Acyclic(disk, withPrivate) ==> d !in stack + [n]
  {
    var p := stack + [n] + [d];
    assert IsPath(disk, withPrivate, p) by {
      forall i | 0 <= i < |p| - 1 ensures p[i + 1] in Deps(disk, withPrivate, p[i]) {
        if i < |stack| {
          assert (stack + [n])[i + 1] in Deps(disk, withPrivate, (stack + [n])[i]);
        }
      }
    }
    if d in stack + [n] {
      var i :| 0 <= i < |stack + [n]| && (stack + [n])[i] == d;
      var loop := p[i..];
      assert IsPath(disk, withPrivate, loop) by {
        forall k | 0 <= k < |loop| - 1 ensures loop[k + 1] in Deps(disk, withPrivate, loop[k]) {
          assert p[i + k + 1] in Deps(disk, withPrivate, p[i + k]);
        }
      }
      assert loop[0] == d && loop[|loop| - 1] == d;
    }
  }

  lemma ReachSelf(disk: Disk, withPrivate: bool, a: Name)
    ensures Reach(disk, withPrivate, a, a)
  {
    assert IsPath(disk, withPrivate, [a]);
  }

  lemma ReachStep(disk: Disk, withPrivate: bool, a: Name, d: Name, b: Name)
    requires d in Deps(disk, withPrivate, a) && Reach(disk, withPrivate, d, b)
    ensures Reach(disk, withPrivate, a, b)
  {
    var p :| IsPath(disk, withPrivate, p) && p[0] == d && p[|p| - 1] == b;
    var q := [a] + p;
    forall i | 0 <= i < |q| - 1 ensures q[i + 1] in Deps(disk, withPrivate, q[i]) {
      if i > 0 {
        assert p[i] in Deps(disk, withPrivate, p[i - 1]);
      }
    }
    assert IsPath(disk, withPrivate, q) && q[0] == a && q[|q| - 1] == b;
  }

  /** With nothing left on the stack, everything reachable from a seen name is seen. */
  lemma {:induction false} SeenIsClosed(disk: Disk, withPrivate: bool, seen: set<Name>, order: seq<Name>, p: seq<Name>)
    requires Consistent(disk, withPrivate, seen, order, []) && IsPath(disk, withPrivate, p) && p[0] in seen
    ensures p[|p| - 1] in seen
    decreases |p|
  {
    if |p| > 1 {
      var front := p[..|p| - 1];
      assert IsPath(disk, withPrivate, front) by {
        forall i | 0 <= i < |front| - 1 ensures front[i + 1] in Deps(disk, withPrivate, front[i]) {
          assert p[i + 1] in Deps(disk, withPrivate, p[i]);
        }
      }
      SeenIsClosed(disk, withPrivate, seen, order, front);
      var last := p[|p| - 2];
      assert p[|p| - 2 + 1] in Deps(disk, withPrivate, p[|p| - 2]);
      assert last in order;
      assert Visited(disk, withPrivate, seen, last);
    }
  }

  /** In a topological order, whatever a listed name reaches comes before it. */
  lemma {:induction false} ReachedComesBefore(disk: Disk, withPrivate: bool, order: seq<Name>, p: seq<Name>, i: nat)
    requires Topological(disk, withPrivate, order) && IsPath(disk, withPrivate, p) && |p| >= 2
    requires i < |order| && order[i] == p[0] && p[|p| - 1] in disk
    ensures p[|p| - 1] in order[..i]
    decreases |p|
  {
    var d := p[1];
    assert p[0 + 1] in Deps(disk, withPrivate, p[0]);
    if |p| > 2 {
      var rest := p[1..];
      assert IsPath(disk, withPrivate, rest) by {
        forall k | 0 <= k < |rest| - 1 ensures rest[k + 1] in Deps(disk, withPrivate, rest[k]) {
          assert p[k + 1 + 1] in Deps(disk, withPrivate, p[k + 1]);
        }
      }
      assert p[1 + 1] in Deps(disk, withPrivate, p[1]);
      assert d in disk;
      assert d in order[..i];
      var j :| 0 <= j < i && order[..i][j] == d;
      ReachedComesBefore(disk, withPrivate, order, rest, j);
      assert order[..j] == order[..i][..j];
    }
  }
}

/** `RepositoryLookup`: the traversal itself, with its layout cache. */
module RepositoryLookup {
  import opened RepositoryGraph

  datatype Outcome =
    | Repositories(order: seq<Name>, primary: nat)
    | Error
    | Panic    // the `unwrap` of the position of the requested repository

  datatype Lookup = Hit(parents: seq<Name>) | Missing | Failed

  /** What one parent adds to the list of repositories to visit; masters are required,
      their private companions are not. */
  function UnseenOf(parent: Name, withPrivate: bool, seen: set<Name>): seq<(Name, bool)> {
    (if parent in seen then [] else [(parent, true)]) +
    (if !withPrivate || IsPrivate(parent) || parent + PRIVATE in seen then [] else [(parent + PRIVATE, false)])
  }

  function Unseen(parents: seq<Name>, withPrivate: bool, seen: set<Name>): seq<(Name, bool)> {
    if parents == [] then []
    else Unseen(parents[..|parents| - 1], withPrivate, seen) + UnseenOf(parents[|parents| - 1], withPrivate, seen)
  }

  lemma UnseenAppend(parents: seq<Name>, last: Name, withPrivate: bool, seen: set<Name>)
    ensures Unseen(parents + [last], withPrivate, seen) ==
            Unseen(parents, withPrivate, seen) + UnseenOf(last, withPrivate, seen)
  {
  }

  /** The list holds dependencies only and marks masters as required. */
  lemma {:induction false} UnseenAreNames(parents: seq<Name>, withPrivate: bool, seen: set<Name>)
    ensures forall k :: 0 <= k < |Unseen(parents, withPrivate, seen)| ==>
              var repo := Unseen(parents, withPrivate, seen)[k];
              repo.0 in AllNames(parents, withPrivate) && (repo.1 ==> repo.0 in parents)
  {
    if parents != [] {
      var front, last := parents[..|parents| - 1], parents[|parents| - 1];
      UnseenAreNames(front, withPrivate, seen);
      assert parents == front + [last];
    }
  }

  /** Dependency `d` is somewhere in the list. */
  ghost predicate Listed(repos: seq<(Name, bool)>, d: Name) {
    exists k :: 0 <= k < |repos| && repos[k].0 == d
  }

  lemma ListedInEither(a: seq<(Name, bool)>, b: seq<(Name, bool)>, d: Name)
    requires Listed(a, d) || Listed(b, d)
    ensures Listed(a + b, d)
  {
    if Listed(a, d) {
      var k :| 0 <= k < |a| && a[k].0 == d;
      assert (a + b)[k].0 == d;
    } else {
      var k :| 0 <= k < |b| && b[k].0 == d;
      assert (a + b)[|a| + k].0 == d;
    }
  }

  /** It leaves out nothing but what has been seen. */
  lemma {:induction false} UnseenAreListed(parents: seq<Name>, withPrivate: bool, seen: set<Name>, d: Name)
    requires d in AllNames(parents, withPrivate) && d !in seen
    ensures Listed(Unseen(parents, withPrivate, seen), d)
  {
    var front, last := parents[..|parents| - 1], parents[|parents| - 1];
    if d in AllNames(front, withPrivate) {
      UnseenAreListed(front, withPrivate, seen, d);
    } else {
      var added := UnseenOf(last, withPrivate, seen);
      assert d in Names(last, withPrivate);
      assert added[0].0 == d || added[|added| - 1].0 == d;
    }
    ListedInEither(Unseen(front, withPrivate, seen), UnseenOf(last, withPrivate, seen), d);
  }

  /** The list holds dependencies only, marks masters as required, and leaves out
      nothing but what has been seen. */
  lemma UnseenIsWhatIsLeft(parents: seq<Name>, withPrivate: bool, seen: set<Name>)
    ensures forall k :: 0 <= k < |Unseen(parents, withPrivate, seen)| ==>
              var repo := Unseen(parents, withPrivate, seen)[k];
              repo.0 in AllNames(parents, withPrivate) && (repo.1 ==> repo.0 in parents)
    ensures forall d :: d in AllNames(parents, withPrivate) && d !in seen ==>
              Listed(Unseen(parents, withPrivate, seen), d)
  {
    UnseenAreNames(parents, withPrivate, seen);
    forall d | d in AllNames(parents, withPrivate) && d !in seen
      ensures Listed(Unseen(parents, withPrivate, seen), d)
    {
      UnseenAreListed(parents, withPrivate, seen, d);
    }
  }

  /** `x` is among the first `t` of the list. */
  ghost predicate ListedBy(repos: seq<(Name, bool)>, t: nat, x: Name)
    requires t <= |repos|
  {
    exists k :: 0 <= k < t && repos[k].0 == x
  }

  lemma ListedByConcat(a: seq<(Name, bool)>, b: seq<(Name, bool)>, t: nat, x: Name)
    requires t <= |b|
    ensures ListedBy(a + b, |a| + t, x) <==> ListedBy(a, |a|, x) || ListedBy(b, t, x)
  {
    if ListedBy(b, t, x) {
      var k :| 0 <= k < t && b[k].0 == x;
      assert (a + b)[|a| + k].0 == x;
    }
    if ListedBy(a, |a|, x) {
      var k :| 0 <= k < |a| && a[k].0 == x;
      assert (a + b)[k].0 == x;
    }
  }

  lemma ListedByPrefix(a: seq<(Name, bool)>, b: seq<(Name, bool)>, t: nat, x: Name)
    requires t <= |a|
    ensures ListedBy(a + b, t, x) <==> ListedBy(a, t, x)
  {
    if ListedBy(a, t, x) {
      var k :| 0 <= k < t && a[k].0 == x;
      assert (a + b)[k].0 == x;
    }
  }

  /** The list keeps the order of the dependencies: the unseen ones of the first `i` are its
      first `t`. */
  lemma {:induction false} UnseenInOrder(parents: seq<Name>, withPrivate: bool, seen: set<Name>, i: nat)
    returns (t: nat)
    requires i <= |AllNames(parents, withPrivate)|
    ensures t <= |Unseen(parents, withPrivate, seen)|
    ensures forall x :: ListedBy(Unseen(parents, withPrivate, seen), t, x) <==>
                        x in AllNames(parents, withPrivate)[..i] && x !in seen
    ensures i == |AllNames(parents, withPrivate)| ==> t == |Unseen(parents, withPrivate, seen)|
    decreases |parents|
  {
    if parents == [] {
      return 0;
    }
    var front, last := parents[..|parents| - 1], parents[|parents| - 1];
    var names, list := AllNames(front, withPrivate), Unseen(front, withPrivate, seen);
    if i < |names| {
      t := UnseenInOrder(front, withPrivate, seen, i);
      assert AllNames(parents, withPrivate)[..i] == names[..i];
      forall x ensures ListedBy(Unseen(parents, withPrivate, seen), t, x) <==> ListedBy(list, t, x) {
        ListedByPrefix(list, UnseenOf(last, withPrivate, seen), t, x);
      }
    } else {
      var all := UnseenInOrder(front, withPrivate, seen, |names|);
      assert names[..|names|] == names;
      var own := UnseenOfInOrder(last, withPrivate, seen, i - |names|);
      t := |list| + own;
      assert AllNames(parents, withPrivate)[..i] == names + Names(last, withPrivate)[..i - |names|];
      forall x ensures ListedBy(Unseen(parents, withPrivate, seen), t, x) <==>
                       x in AllNames(parents, withPrivate)[..i] && x !in seen
      {
        ListedByConcat(list, UnseenOf(last, withPrivate, seen), own, x);
      }
    }
  }

  lemma UnseenOfInOrder(parent: Name, withPrivate: bool, seen: set<Name>, i: nat) returns (t: nat)
    requires i <= |Names(parent, withPrivate)|
    ensures t <= |UnseenOf(parent, withPrivate, seen)|
    ensures forall x :: ListedBy(UnseenOf(parent, withPrivate, seen), t, x) <==>
                        x in Names(parent, withPrivate)[..i] && x !in seen
    ensures i == |Names(parent, withPrivate)| ==> t == |UnseenOf(parent, withPrivate, seen)|
  {
    var names, list := Names(parent, withPrivate), UnseenOf(parent, withPrivate, seen);
    var own: seq<(Name, bool)> := if parent in seen then [] else [(parent, true)];
    t := if i == 0 then 0 else if i == 1 then |own| else |list|;
    assert names[..i] == if i == 0 then [] else if i == 1 then [parent] else [parent, parent + PRIVATE];
    if i > 0 {
      assert parent !in seen ==> list[0] == (parent, true);
      assert i == 2 && parent + PRIVATE !in seen ==> list[|list| - 1] == (parent + PRIVATE, false);
    }
  }

  class Context {
    var seen: set<Name>
    var order: seq<Name>
    const tryPrivate: bool

    constructor (tryPrivate: bool)
      ensures this.tryPrivate == tryPrivate && seen == {} && order == []
    {
      this.tryPrivate := tryPrivate;
      seen, order := {}, [];
    }
  }

  class RepositoryLookup {
    const disk: Disk
    var cache: map<Name, seq<Name>>

    constructor (disk: Disk)
      ensures this.disk == disk && Valid()
    {
      this.disk := disk;
      cache := map[];
    }

    /** The cache holds what is on disk, and only that. */
    ghost predicate Valid()
      reads this
    {
      forall n :: n in cache ==> Loadable(disk, n) && disk[n].parents == cache[n]
    }

    method LoadFromCache(name: Name) returns (r: Lookup)
      requires Valid()
      modifies this`cache
      ensures Valid() && forall n :: n in old(cache) ==> n in cache
      ensures r.Hit? <==> name in disk && disk[name].Layout? && disk[name].name == name
      ensures r.Hit? ==> name in cache && r.parents == disk[name].parents
      ensures r.Missing? <==> name !in disk
    {
      if name in cache {
        return Hit(cache[name]);
      }
      if name !in disk {
        return Missing;
      }
      if disk[name].Unreadable? || disk[name].name != name {
        return Failed;
      }
      cache := cache[name := disk[name].parents];
      r := Hit(cache[name]);
    }

    /** The list of repositories to visit for a layout, in visiting order, leaving out
        those seen already. It fails for a private master of a public repository. */
    method ToVisit(parents: seq<Name>, context: Context) returns (repos: seq<(Name, bool)>, ok: bool)
      ensures ok <==> context.tryPrivate || forall m :: m in parents ==> !IsPrivate(m)
      ensures ok ==> repos == Unseen(parents, context.tryPrivate, context.seen)
    {
      repos, ok := [], true;
      for i := 0 to |parents|
        invariant ok
        invariant context.tryPrivate || forall m :: m in parents[..i] ==> !IsPrivate(m)
        invariant repos == Unseen(parents[..i], context.tryPrivate, context.seen)
      {
        var name := parents[i];
        assert parents[..i + 1] == parents[..i] + [name];
        UnseenAppend(parents[..i], name, context.tryPrivate, context.seen);
        if context.tryPrivate {
          if name !in context.seen {
            repos := repos + [(name, true)];
          }
          if !IsPrivate(name) {
            var privateName := name + PRIVATE;
            if privateName !in context.seen {
              repos := repos + [(privateName, false)];
            }
          }
        } else {
          if IsPrivate(name) {
            assert name in parents;
            return repos, false;
          }
          if name !in context.seen {
            repos := repos + [(name, true)];
          }
        }
      }
      assert parents[..|parents|] == parents;
    }

    /** What a failure of the traversal below `n` means. */
    ghost predicate Justified(withPrivate: bool, n: Name, required: bool) {
      (required && n !in disk) || exists m :: Reach(disk, withPrivate, n, m) && !Sound(disk, withPrivate, m)
    }

    /** All names a traversal can ever meet. */
    ghost predicate Universe(u: set<Name>, withPrivate: bool) {
      forall n, d :: n in disk && d in Deps(disk, withPrivate, n) ==> d in u
    }

    /** What was listed since `first` is reachable from `name`, and its layout is cached. */
    ghost predicate NewFrom(withPrivate: bool, name: Name, first: seq<Name>, order: seq<Name>, cached: set<Name>) {
      && first <= order
      && forall n :: n in order[|first|..] ==> Reach(disk, withPrivate, name, n) && n in cached
    }

    /** What was seen since `first` is reachable from `name`. */
    ghost predicate SeenFrom(withPrivate: bool, name: Name, first: set<Name>, seen: set<Name>) {
      first <= seen && forall n :: n in seen - first ==> Reach(disk, withPrivate, name, n)
    }

    ghost predicate NoneOfReaches(withPrivate: bool, repos: seq<(Name, bool)>, t: nat, y: Name)
      requires t <= |repos|
    {
      forall k :: 0 <= k < t ==> !Reach(disk, withPrivate, repos[k].0, y)
    }

    /** While `n` of the repositories in the list have been visited: for each stretch of
        them, it and what was seen before is listed ahead of all that it does not reach. */
    ghost predicate InTurn(withPrivate: bool, repos: seq<(Name, bool)>, n: nat, seen0: set<Name>, order: seq<Name>,
                           stack: seq<Name>)
      requires n <= |repos|
    {
      forall t, x, y :: 0 <= t <= n && (x in seen0 || ListedBy(repos, t, x)) && x in disk && x !in stack
                        && y !in seen0 && NoneOfReaches(withPrivate, repos, t, y) ==>
        Before(order, x, y)
    }

    /** Only what they reach has been seen since. */
    ghost predicate SeenThroughFirst(withPrivate: bool, repos: seq<(Name, bool)>, n: nat, seen0: set<Name>,
                                     seen: set<Name>)
      requires n <= |repos|
    {
      seen0 <= seen && forall m :: m in seen && m !in seen0 ==> !NoneOfReaches(withPrivate, repos, n, m)
    }

    lemma FirstTurn(withPrivate: bool, repos: seq<(Name, bool)>, seen: set<Name>, order: seq<Name>, stack: seq<Name>)
      requires Consistent(disk, withPrivate, seen, order, stack)
      ensures InTurn(withPrivate, repos, 0, seen, order, stack)
      ensures SeenThroughFirst(withPrivate, repos, 0, seen, seen)
    {
    }

    lemma NextTurn(withPrivate: bool, repos: seq<(Name, bool)>, n: nat, seen0: set<Name>, before: set<Name>,
                   seen: set<Name>, orderBefore: seq<Name>, order: seq<Name>, stack: seq<Name>)
      requires n < |repos| && InTurn(withPrivate, repos, n, seen0, orderBefore, stack) && orderBefore <= order
      requires SeenThroughFirst(withPrivate, repos, n, seen0, before)
      requires SeenFrom(withPrivate, repos[n].0, before, seen) && AllSeen(repos, n + 1, seen)
      requires Consistent(disk, withPrivate, seen, order, stack)
      ensures InTurn(withPrivate, repos, n + 1, seen0, order, stack)
      ensures SeenThroughFirst(withPrivate, repos, n + 1, seen0, seen)
    {
      forall m | m in seen && m !in seen0 ensures !NoneOfReaches(withPrivate, repos, n + 1, m) {
        if m in before {
          var k :| 0 <= k < n && Reach(disk, withPrivate, repos[k].0, m);
        } else {
          assert Reach(disk, withPrivate, repos[n].0, m);
        }
      }
      forall t, x, y | 0 <= t <= n + 1 && (x in seen0 || ListedBy(repos, t, x)) && x in disk && x !in stack
                       && y !in seen0 && NoneOfReaches(withPrivate, repos, t, y)
        ensures Before(order, x, y)
      {
        if t <= n {
          assert Before(orderBefore, x, y);
          assert order == orderBefore + order[|orderBefore|..];
          BeforeExtends(orderBefore, order[|orderBefore|..], x, y);
        } else {
          assert x in seen && y !in seen;
        }
      }
    }

    /** The stretch of the list that belongs to the first `i` dependencies. */
    lemma StretchOf(withPrivate: bool, name: Name, seen: set<Name>, i: nat, x: Name, y: Name) returns (t: nat)
      requires Loadable(disk, name) && i <= |Deps(disk, withPrivate, name)| && x in Deps(disk, withPrivate, name)[..i]
      requires NoneReaches(disk, withPrivate, Deps(disk, withPrivate, name)[..i], y)
      ensures var repos := Unseen(disk[name].parents, withPrivate, seen);
              t <= |repos| && NoneOfReaches(withPrivate, repos, t, y) && (x in seen || ListedBy(repos, t, x))
    {
      var repos := Unseen(disk[name].parents, withPrivate, seen);
      t := UnseenInOrder(disk[name].parents, withPrivate, seen, i);
      forall k | 0 <= k < t ensures !Reach(disk, withPrivate, repos[k].0, y) {
        assert ListedBy(repos, t, repos[k].0);
      }
    }

    /** When all are visited, the dependencies of `name` are listed from left to right. */
    lemma AllTurns(withPrivate: bool, name: Name, seen: set<Name>, order: seq<Name>, stack: seq<Name>)
      requires Loadable(disk, name) && Chain(disk, withPrivate, stack, name)
      requires var repos := Unseen(disk[name].parents, withPrivate, seen);
               InTurn(withPrivate, repos, |repos|, seen, order, stack + [name])
      ensures LeftToRightSince(disk, withPrivate, name, seen, order + [name])
    {
      var deps, repos := Deps(disk, withPrivate, name), Unseen(disk[name].parents, withPrivate, seen);
      forall i, x, y | 0 <= i <= |deps| && x in deps[..i] && x in disk && y != name && Reach(disk, withPrivate, name, y)
                       && NoneReaches(disk, withPrivate, deps[..i], y) && y !in seen
        ensures Before(order + [name], x, y)
      {
        if x in stack + [name] {
          StackReaches(disk, withPrivate, stack, name, x);
          ReachThrough(disk, withPrivate, x, name, y);
        }
        var t := StretchOf(withPrivate, name, seen, i, x, y);
        assert Before(order, x, y);
        BeforeExtends(order, [name], x, y);
      }
    }

    /** Visits `name` and everything it depends on, whatever the graph looks like. */
    method AddRepo(context: Context, name: Name, required: bool, ghost stack: seq<Name>, ghost u: set<Name>)
      returns (ok: bool)
      requires Valid() && Universe(u, context.tryPrivate) && name in u
      requires Consistent(disk, context.tryPrivate, context.seen, context.order, stack)
      requires Chain(disk, context.tryPrivate, stack, name)
      modifies this`cache, context
      ensures Valid() && old(cache.Keys) <= cache.Keys
      ensures !ok ==> Justified(context.tryPrivate, name, required)
      ensures ok ==> Consistent(disk, context.tryPrivate, context.seen, context.order, stack)
      ensures ok ==> name in context.seen && SeenFrom(context.tryPrivate, name, old(context.seen), context.seen)
      ensures name in old(context.seen) ==> ok
      ensures ok ==> NewFrom(context.tryPrivate, name, old(context.order), context.order, cache.Keys)
      ensures ok && required && name !in disk ==> name in old(context.seen)
      ensures ok && name !in old(context.seen) && name in disk ==>
                LeftToRightSince(disk, context.tryPrivate, name, old(context.seen) + {name}, context.order)
      decreases u - context.seen, 0
    {
      if name in context.seen {
        return true;
      }
      context.seen := context.seen + {name};
      ReachSelf(disk, context.tryPrivate, name);
      var layout := LoadFromCache(name);
      if layout.Missing? {
        return !required;
      }
      if layout.Failed? {
        return false;
      }
      Enter(context.tryPrivate, old(context.seen), context.order, stack, name);
      ok := AddLoaded(context, name, stack, u);
    }

    /** Goes on with a repository whose layout is loaded. */
    method AddLoaded(context: Context, name: Name, ghost stack: seq<Name>, ghost u: set<Name>) returns (ok: bool)
      requires Valid() && Universe(u, context.tryPrivate) && name in cache && name in context.seen
      requires Consistent(disk, context.tryPrivate, context.seen, context.order, stack + [name])
      requires Chain(disk, context.tryPrivate, stack, name) && name !in stack
      modifies this`cache, context
      ensures Valid() && old(cache.Keys) <= cache.Keys
      ensures !ok ==> Justified(context.tryPrivate, name, false)
      ensures ok ==> Consistent(disk, context.tryPrivate, context.seen, context.order, stack)
      ensures ok ==> SeenFrom(context.tryPrivate, name, old(context.seen), context.seen)
      ensures ok ==> NewFrom(context.tryPrivate, name, old(context.order), context.order, cache.Keys)
      ensures ok ==> LeftToRightSince(disk, context.tryPrivate, name, old(context.seen), context.order)
      decreases u - context.seen, 3
    {
      ReachSelf(disk, context.tryPrivate, name);
      var parents := cache[name];
      var repos;
      repos, ok := ToVisit(parents, context);
      if !ok {
        var m :| m in parents && IsPrivate(m);
        assert !Sound(disk, context.tryPrivate, name);
        return;
      }
      UnseenIsWhatIsLeft(parents, context.tryPrivate, context.seen);
      ok := VisitAll(context, name, repos, stack, u);
      if !ok {
        return;
      }
      assert Visited(disk, context.tryPrivate, context.seen, name);
      Finish(context.tryPrivate, context.seen, context.order, stack, name);
      AppendNew(context.tryPrivate, name, old(context.order), context.order, cache.Keys);
      AllTurns(context.tryPrivate, name, old(context.seen), context.order, stack);
      context.order := context.order + [name];
    }

    /** Visits one dependency of `name`. */
    method VisitOne(context: Context, name: Name, repo: (Name, bool), ghost stack: seq<Name>, ghost u: set<Name>,
                    ghost seen0: set<Name>, ghost order0: seq<Name>)
      returns (ok: bool)
      requires Valid() && Universe(u, context.tryPrivate) && Loadable(disk, name)
      requires Consistent(disk, context.tryPrivate, context.seen, context.order, stack + [name])
      requires Chain(disk, context.tryPrivate, stack, name)
      requires IsDep(context.tryPrivate, name, repo)
      requires SeenFrom(context.tryPrivate, name, seen0, context.seen)
      requires NewFrom(context.tryPrivate, name, order0, context.order, cache.Keys)
      modifies this`cache, context
      ensures Valid() && old(cache.Keys) <= cache.Keys
      ensures !ok ==> Justified(context.tryPrivate, name, false)
      ensures ok ==> Consistent(disk, context.tryPrivate, context.seen, context.order, stack + [name])
      ensures ok ==> old(context.seen) + {repo.0} <= context.seen && old(context.order) <= context.order
      ensures ok ==> SeenFrom(context.tryPrivate, repo.0, old(context.seen), context.seen)
      ensures ok ==> SeenFrom(context.tryPrivate, name, seen0, context.seen)
      ensures ok ==> NewFrom(context.tryPrivate, name, order0, context.order, cache.Keys)
      decreases u - context.seen, 1
    {
      var d := repo.0;
      ghost var before, cachedBefore, seenBefore := context.order, cache.Keys, context.seen;
      ChainStep(disk, context.tryPrivate, stack, name, d);
      ok := AddRepo(context, d, repo.1, stack + [name], u);
      if !ok {
        ChildFailed(context.tryPrivate, name, d, repo.1);
        return;
      }
      SeenThrough(context.tryPrivate, name, d, seen0, seenBefore, context.seen);
      NewThrough(context.tryPrivate, name, d, order0, before, context.order, cachedBefore, cache.Keys);
    }

    ghost predicate IsDep(withPrivate: bool, name: Name, repo: (Name, bool))
      requires Loadable(disk, name)
    {
      repo.0 in Deps(disk, withPrivate, name) && (repo.1 ==> repo.0 in disk[name].parents)
    }

    ghost predicate AllSeen(repos: seq<(Name, bool)>, n: nat, seen: set<Name>)
      requires n <= |repos|
    {
      forall k :: 0 <= k < n ==> repos[k].0 in seen
    }

    lemma OneMoreSeen(repos: seq<(Name, bool)>, n: nat, before: set<Name>, seen: set<Name>)
      requires n < |repos| && AllSeen(repos, n, before) && before + {repos[n].0} <= seen
      ensures AllSeen(repos, n + 1, seen)
    {
    }

    /** Visits the dependencies of `name` that were not seen when it was reached. */
    method VisitAll(context: Context, name: Name, repos: seq<(Name, bool)>, ghost stack: seq<Name>, ghost u: set<Name>)
      returns (ok: bool)
      requires Valid() && Universe(u, context.tryPrivate) && Loadable(disk, name) && name in cache
      requires Consistent(disk, context.tryPrivate, context.seen, context.order, stack + [name])
      requires Chain(disk, context.tryPrivate, stack, name)
      requires forall k :: 0 <= k < |repos| ==> IsDep(context.tryPrivate, name, repos[k])
      modifies this`cache, context
      ensures Valid() && old(cache.Keys) <= cache.Keys
      ensures !ok ==> Justified(context.tryPrivate, name, false)
      ensures ok ==> Consistent(disk, context.tryPrivate, context.seen, context.order, stack + [name])
      ensures ok ==> SeenFrom(context.tryPrivate, name, old(context.seen), context.seen)
      ensures ok ==> forall k :: 0 <= k < |repos| ==> repos[k].0 in context.seen
      ensures ok ==> NewFrom(context.tryPrivate, name, old(context.order), context.order, cache.Keys)
      ensures ok ==> InTurn(context.tryPrivate, repos, |repos|, old(context.seen), context.order, stack + [name])
      decreases u - context.seen, 2
    {
      ok := true;
      ghost var seen0, order0 := context.seen, context.order;
      NothingNew(context.tryPrivate, name, seen0, order0, cache.Keys);
      FirstTurn(context.tryPrivate, repos, seen0, order0, stack + [name]);
      for i := 0 to |repos|
        invariant Valid() && old(cache.Keys) <= cache.Keys && ok
        invariant Consistent(disk, context.tryPrivate, context.seen, context.order, stack + [name])
        invariant SeenFrom(context.tryPrivate, name, seen0, context.seen)
        invariant AllSeen(repos, i, context.seen)
        invariant NewFrom(context.tryPrivate, name, order0, context.order, cache.Keys)
        invariant InTurn(context.tryPrivate, repos, i, seen0, context.order, stack + [name])
        invariant SeenThroughFirst(context.tryPrivate, repos, i, seen0, context.seen)
      {
        ghost var before, orderBefore := context.seen, context.order;
        ok := VisitOne(context, name, repos[i], stack, u, seen0, order0);
        if !ok {
          return;
        }
        OneMoreSeen(repos, i, before, context.seen);
        NextTurn(context.tryPrivate, repos, i, seen0, before, context.seen, orderBefore, context.order, stack + [name]);
      }
    }

    lemma NothingNew(withPrivate: bool, name: Name, seen: set<Name>, order: seq<Name>, cached: set<Name>)
      ensures SeenFrom(withPrivate, name, seen, seen)
      ensures NewFrom(withPrivate, name, order, order, cached)
    {
    }

    lemma NewThrough(withPrivate: bool, name: Name, d: Name, first: seq<Name>, before: seq<Name>, after: seq<Name>,
                     cachedBefore: set<Name>, cached: set<Name>)
      requires d in Deps(disk, withPrivate, name) && cachedBefore <= cached
      requires NewFrom(withPrivate, name, first, before, cachedBefore)
      requires NewFrom(withPrivate, d, before, after, cached)
      ensures NewFrom(withPrivate, name, first, after, cached)
    {
      assert after[|first|..] == before[|first|..] + after[|before|..];
      forall n | n in after[|first|..] ensures Reach(disk, withPrivate, name, n) && n in cached {
        if n !in before[|first|..] {
          ReachStep(disk, withPrivate, name, d, n);
        }
      }
    }

    lemma SeenThrough(withPrivate: bool, name: Name, d: Name, first: set<Name>, before: set<Name>, after: set<Name>)
      requires d in Deps(disk, withPrivate, name)
      requires SeenFrom(withPrivate, name, first, before) && SeenFrom(withPrivate, d, before, after)
      ensures SeenFrom(withPrivate, name, first, after)
    {
      forall n | n in after - first ensures Reach(disk, withPrivate, name, n) {
        if n !in before {
          ReachStep(disk, withPrivate, name, d, n);
        }
      }
    }

    lemma AppendNew(withPrivate: bool, name: Name, first: seq<Name>, order: seq<Name>, cached: set<Name>)
      requires NewFrom(withPrivate, name, first, order, cached) && name in cached
      ensures NewFrom(withPrivate, name, first, order + [name], cached)
    {
    }

    /** A repository seen for the first time goes on the stack. */
    lemma Enter(withPrivate: bool, seen: set<Name>, order: seq<Name>, stack: seq<Name>, name: Name)
      requires Consistent(disk, withPrivate, seen, order, stack) && name !in seen
      ensures Consistent(disk, withPrivate, seen + {name}, order, stack + [name])
    {
    }

    lemma ChildFailed(withPrivate: bool, name: Name, d: Name, required: bool)
      requires Loadable(disk, name) && d in Deps(disk, withPrivate, name)
      requires required ==> d in disk[name].parents
      requires Justified(withPrivate, d, required)
      ensures Justified(withPrivate, name, false)
    {
      if required && d !in disk {
        ReachSelf(disk, withPrivate, name);
        assert !Sound(disk, withPrivate, name);
      } else {
        var m :| Reach(disk, withPrivate, d, m) && !Sound(disk, withPrivate, m);
        ReachStep(disk, withPrivate, name, d, m);
      }
    }

    /** All dependencies are visited, so the repository itself may be listed. */
    lemma Finish(withPrivate: bool, seen: set<Name>, order: seq<Name>, stack: seq<Name>, name: Name)
      requires Consistent(disk, withPrivate, seen, order, stack + [name]) && name !in stack
      requires Chain(disk, withPrivate, stack, name) && Loadable(disk, name)
      requires Visited(disk, withPrivate, seen, name)
      ensures Consistent(disk, withPrivate, seen, order + [name], stack)
    {
      assert name in stack + [name];
      forall n | n in order ensures n !in stack && n != name {
        assert n !in stack + [name];
      }
      if Acyclic(disk, withPrivate) {
        forall i, d | 0 <= i < |order + [name]| && d in Deps(disk, withPrivate, (order + [name])[i]) && d in disk
          ensures d in (order + [name])[..i]
        {
          if i < |order| {
            assert d in order[..i];
            assert (order + [name])[..i] == order[..i];
          } else {
            ChainStep(disk, withPrivate, stack, name, d);
            assert (order + [name])[..i] == order;
          }
        }
      }
    }

    /** What the traversal for `name` can reach. */
    ghost predicate Reachable(name: Name, n: Name) {
      var withPrivate := IsPrivate(name);
      Reach(disk, withPrivate, name, n) || (withPrivate && Reach(disk, withPrivate, Public(name), n))
    }

    ghost predicate AllSound(name: Name) {
      forall n :: Reachable(name, n) ==> Sound(disk, IsPrivate(name), n)
    }

    /** `Repository::new` succeeds: the repository and its masters are in the cache. */
    predicate Constructible(n: Name)
      reads this
    {
      n in cache && forall m :: m in cache[n] ==> m in cache
    }

    /** `create_repository_set`. */
    method CreateRepositorySet(name: Name) returns (r: Outcome)
      requires Valid()
      modifies this`cache
      ensures Valid()
      // It succeeds exactly when the repository exists and everything it reaches is sound.
      ensures r.Repositories? <==> name in disk && AllSound(name)
      // It panics exactly when the repository does not exist but its public part leads to it.
      ensures r.Panic? <==> name !in disk && AllSound(name) && IsPrivate(name)
                            && Reach(disk, true, Public(name), name)
      ensures r.Repositories? ==>
                && NoDuplicates(r.order)
                && r.primary < |r.order| && r.order[r.primary] == name
                && (forall n :: n in r.order <==> n in disk && Reachable(name, n))
                && (Acyclic(disk, IsPrivate(name)) ==> Topological(disk, IsPrivate(name), r.order))
      // The public repository has lower priority, unless it builds on the private one.
      ensures r.Repositories? && IsPrivate(name) && Public(name) in disk && Acyclic(disk, true) ==>
                (Public(name) in r.order[..r.primary] <==> !Reach(disk, true, Public(name), name))
      // Priorities follow the order of masters: first all that the public part builds on,
      // then the rest, each time from left to right.
      ensures r.Repositories? ==> InPriority(name, r.order)
    {
      var context := new Context(IsPrivate(name));
      var ok := Traverse(context, name);
      if !ok {
        return Error;
      }
      if !(forall n :: n in context.order ==> Constructible(n)) {
        return Error;
      }
      var i := Position(context.order, name);
      if i == |context.order| {
        return Panic;
      }
      return Repositories(context.order, i);
    }

    ghost predicate InPriority(name: Name, order: seq<Name>) {
      if IsPrivate(name) then
        && (Public(name) in disk ==> LeftToRight(disk, true, Public(name), {}, order))
        && (forall x, y :: x in disk && Reach(disk, true, Public(name), x) && !Reach(disk, true, Public(name), y) ==>
              Before(order, x, y))
        && (name in disk ==> LeftToRight(disk, true, name, {Public(name)}, order))
      else name in disk ==> LeftToRight(disk, false, name, {}, order)
    }

    /** The two traversals: the public part, if any, then the repository itself. */
    method Traverse(context: Context, name: Name) returns (ok: bool)
      requires Valid() && context.tryPrivate == IsPrivate(name) && context.seen == {} && context.order == []
      modifies this`cache, context
      ensures Valid()
      ensures !ok ==> !AllSound(name) || (name !in disk && !(IsPrivate(name) && Reach(disk, true, Public(name), name)))
      ensures ok ==>
                && NoDuplicates(context.order)
                && (Acyclic(disk, IsPrivate(name)) ==> Topological(disk, IsPrivate(name), context.order))
                && (forall n :: n in context.order <==> n in disk && Reachable(name, n))
                && (name in context.order <==> name in disk)
                && (AllSound(name) <==> forall n :: n in context.order ==> Constructible(n))
                && (name !in disk ==> IsPrivate(name) && Reach(disk, true, Public(name), name))
                && PublicFirst(name, context.order) && InPriority(name, context.order)
    {
      ghost var u := Everything(name);
      ghost var first: seq<Name> := [];
      ReachSelf(disk, context.tryPrivate, name);
      assert Chain(disk, context.tryPrivate, [], name) && Chain(disk, context.tryPrivate, [], Public(name));
      if IsPrivate(name) {
        ok := AddRepo(context, Public(name), false, [], u);
        if !ok {
          return;
        }
        ReachedIsSeen(name, context.seen, context.order);
        first := context.order;
        assert first == first[0..];
        FirstPart(name, context.seen, first);
      }
      ghost var seen1 := context.seen;
      ok := AddRepo(context, name, true, [], u);
      if !ok {
        return;
      }
      ReachedIsSeen(name, context.seen, context.order);
      ListedExactly(name, first, seen1, context.order, context.seen, cache.Keys);
      SecondPart(name, first, seen1, context.order);
      if forall n :: n in context.order ==> Constructible(n) {
        ConstructibleIsSound(name, context.order, context.seen);
      } else {
        NotConstructible(name, context.order, context.seen);
      }
      if IsPrivate(name) && Public(name) in disk && Acyclic(disk, true) {
        PublicComesFirst(name, first, context.order);
      }
    }

    /** What the first traversal of a private request has listed. */
    ghost predicate PublicPart(name: Name, seen: set<Name>, order: seq<Name>) {
      && (Public(name) in disk ==> LeftToRightSince(disk, true, Public(name), {Public(name)}, order))
      && (forall n :: n in order ==> n in seen)
      && (forall n :: n in seen <==> Reach(disk, true, Public(name), n))
      && (forall n :: n in seen && n in disk ==> n in order)
    }

    lemma FirstPart(name: Name, seen: set<Name>, order: seq<Name>)
      requires IsPrivate(name) && Consistent(disk, true, seen, order, [])
      requires SeenFrom(true, Public(name), {}, seen) && Public(name) in seen
      requires forall a, n :: a in seen && Reach(disk, true, a, n) ==> n in seen
      requires Public(name) in disk ==> LeftToRightSince(disk, true, Public(name), {Public(name)}, order)
      ensures PublicPart(name, seen, order)
    {
    }

    lemma SecondPart(name: Name, first: seq<Name>, seen1: set<Name>, order: seq<Name>)
      requires if IsPrivate(name) then PublicPart(name, seen1, first) else seen1 == {}
      requires first <= order
      requires name !in seen1 && name in disk ==> LeftToRightSince(disk, IsPrivate(name), name, seen1 + {name}, order)
      requires forall n :: n in disk && Reach(disk, IsPrivate(name), name, n) ==> n in order
      ensures InPriority(name, order)
    {
      if IsPrivate(name) {
        assert order == first + order[|first|..];
        if Public(name) in disk {
          LeftToRightExtends(disk, true, Public(name), {Public(name)}, first, order);
          SinceMeansBut(disk, true, Public(name), {Public(name)}, {}, order);
        }
        forall x, y | x in disk && Reach(disk, true, Public(name), x) && !Reach(disk, true, Public(name), y)
          ensures Before(order, x, y)
        {
          assert Before(first, x, y);
          BeforeExtends(first, order[|first|..], x, y);
        }
        if name in disk {
          if name in seen1 {
            AllOfItIsPublic(name, order);
          } else {
            SinceMeansBut(disk, true, name, seen1 + {name}, {Public(name)}, order);
          }
        }
      } else if name in disk {
        SinceMeansBut(disk, false, name, {name}, {}, order);
      }
    }

    /** If the public part leads to the private repository, nothing is left to say of that. */
    lemma AllOfItIsPublic(name: Name, order: seq<Name>)
      requires Reach(disk, true, Public(name), name)
      ensures LeftToRight(disk, true, name, {Public(name)}, order)
    {
      forall y | Reach(disk, true, name, y) ensures Reach(disk, true, Public(name), y) {
        ReachThrough(disk, true, Public(name), name, y);
      }
    }

    /** The public repository precedes the private one, unless it builds on it. */
    ghost predicate PublicFirst(name: Name, order: seq<Name>) {
      IsPrivate(name) && Public(name) in disk && Acyclic(disk, true) ==>
        forall i :: 0 <= i < |order| && order[i] == name ==>
          (Public(name) in order[..i] <==> !Reach(disk, true, Public(name), name))
    }

    method Position(order: seq<Name>, name: Name) returns (i: nat)
      ensures i <= |order| && name !in order[..i]
      ensures i < |order| ==> order[i] == name
      ensures i == |order| ==> name !in order
    {
      i := 0;
      while i < |order| && order[i] != name
        invariant i <= |order| && name !in order[..i]
      {
        i := i + 1;
      }
      assert order[..|order|] == order;
    }

    ghost function Everything(name: Name): set<Name> {
      {name, Public(name)} + set n, d | n in disk && d in Deps(disk, IsPrivate(name), n) :: d
    }

    /** When the traversal is over, whatever a seen root reaches has been seen. */
    lemma ReachedIsSeen(name: Name, seen: set<Name>, order: seq<Name>)
      requires Consistent(disk, IsPrivate(name), seen, order, [])
      ensures forall a, n :: a in seen && Reach(disk, IsPrivate(name), a, n) ==> n in seen
    {
      forall a, n | a in seen && Reach(disk, IsPrivate(name), a, n) ensures n in seen {
        var p :| IsPath(disk, IsPrivate(name), p) && p[0] == a && p[|p| - 1] == n;
        SeenIsClosed(disk, IsPrivate(name), seen, order, p);
      }
    }

    lemma ListedExactly(name: Name, first: seq<Name>, seen1: set<Name>, order: seq<Name>, seen: set<Name>,
                        cached: set<Name>)
      requires Consistent(disk, IsPrivate(name), seen, order, [])
      requires if IsPrivate(name) then NewFrom(true, Public(name), [], first, cached) && Public(name) in seen
                                       && SeenFrom(true, Public(name), {}, seen1)
               else first == [] && seen1 == {}
      requires NewFrom(IsPrivate(name), name, first, order, cached) && name in seen
      requires SeenFrom(IsPrivate(name), name, seen1, seen)
      requires forall a, n :: a in seen && Reach(disk, IsPrivate(name), a, n) ==> n in seen
      ensures forall n :: n in order <==> n in disk && Reachable(name, n)
      ensures forall n :: n in order ==> n in cached
      ensures forall n :: n in seen <==> Reachable(name, n)
    {
    }

    lemma NotConstructible(name: Name, order: seq<Name>, seen: set<Name>)
      requires Valid() && Consistent(disk, IsPrivate(name), seen, order, [])
      requires forall n :: n in order ==> Reachable(name, n) && n in cache
      requires !(forall n :: n in order ==> Constructible(n))
      ensures !AllSound(name)
    {
      var n :| n in order && !Constructible(n);
      var m :| m in cache[n] && m !in cache;
      AllNamesOfEach(disk[n].parents, IsPrivate(name));
      assert Visited(disk, IsPrivate(name), seen, n) && m in Deps(disk, IsPrivate(name), n);
      assert m !in order;
      assert m !in disk;
      assert !Sound(disk, IsPrivate(name), n);
    }

    lemma ConstructibleIsSound(name: Name, order: seq<Name>, seen: set<Name>)
      requires Valid() && Consistent(disk, IsPrivate(name), seen, order, [])
      requires forall n :: n in order <==> n in disk && Reachable(name, n)
      requires forall n :: n in order ==> Constructible(n)
      ensures AllSound(name)
    {
      forall n | Reachable(name, n) ensures Sound(disk, IsPrivate(name), n) {
        if n in disk {
          assert n in order && Visited(disk, IsPrivate(name), seen, n);
          forall i | 0 <= i < |disk[n].parents|
            ensures disk[n].parents[i] in disk && (IsPrivate(name) || !IsPrivate(disk[n].parents[i]))
          {
            var m := disk[n].parents[i];
            assert m in cache[n] && m in disk[n].parents;
          }
        }
      }
    }

    lemma PublicComesFirst(name: Name, first: seq<Name>, order: seq<Name>)
      requires IsPrivate(name) && Public(name) in disk && Acyclic(disk, true)
      requires first <= order && NoDuplicates(order) && Topological(disk, true, order)
      requires forall n :: n in order ==> n in disk
      requires Public(name) in first && forall n :: n in first ==> Reach(disk, true, Public(name), n)
      ensures PublicFirst(name, order)
    {
      var j :| 0 <= j < |first| && first[j] == Public(name);
      assert order[j] == Public(name);
      forall i | 0 <= i < |order| && order[i] == name
        ensures Public(name) in order[..i] <==> !Reach(disk, true, Public(name), name)
      {
        if Reach(disk, true, Public(name), name) {
          var p :| IsPath(disk, true, p) && p[0] == Public(name) && p[|p| - 1] == name;
          ReachedComesBefore(disk, true, order, p, j);
          var k :| 0 <= k < j && order[..j][k] == name;
          assert order[k] == name && k == i;
        } else {
          assert name !in first;
          assert i >= |first|;
          assert order[..i][j] == Public(name);
        }
      }
    }
  }

  /** The name without its private suffix. */
  function Public(name: Name): Name {
    if IsPrivate(name) then name[..|name| - |PRIVATE|] else name
  }

  /** The panic is real: a repository that lists itself as its master, when asked
      for by its private name. */
  lemma SelfMasterPanics()
    ensures var disk: Disk := map["x" := Layout("x", ["x"])];
            IsPrivate("x-private") && Public("x-private") == "x" && "x-private" !in disk
            && Reach(disk, true, "x", "x-private")
            && forall n :: Sound(disk, true, n)
  {
    var disk: Disk := map["x" := Layout("x", ["x"])];
    assert "x-private"[|"x-private"| - |PRIVATE|..] == PRIVATE;
    assert ["x"][..0] == [];
    assert "x" + PRIVATE == "x-private";
    assert Deps(disk, true, "x") == ["x", "x-private"];
    assert IsPath(disk, true, ["x", "x-private"]);
  }
}
