/** Which files each shared library needs: dependency sets are closed in place, while
    other sets are still being computed from them.
 */
module ElfAnalyzer {
  import opened StringOrder
  import opened Wrappers

  /** From soname to sonames. */
  type Graph = map<string, set<string>>

  // ---- Dependency --------------------------------------------------------------

  /** `b` is reached from `a` in `n` steps. */
  ghost predicate ReachesIn(g: Graph, a: string, b: string, n: nat)
    decreases n
  {
    && a in g && n > 0
    && if n == 1 then b in g[a] else exists c :: c in g[a] && ReachesIn(g, c, b, n - 1)
  }

  /** `a` depends on `b`, directly or not. */
  ghost predicate Reaches(g: Graph, a: string, b: string) {
    exists n :: ReachesIn(g, a, b, n)
  }

  lemma {:induction false} Direct(g: Graph, a: string, b: string)
    requires a in g && b in g[a]
    ensures Reaches(g, a, b)
  {
    assert ReachesIn(g, a, b, 1);
  }

  lemma {:induction false} Joined(g: Graph, a: string, b: string, c: string, n: nat, m: nat)
    requires ReachesIn(g, a, b, n) && ReachesIn(g, b, c, m)
    ensures ReachesIn(g, a, c, n + m)
    decreases n
  {
    if n > 1 {
      var d :| d in g[a] && ReachesIn(g, d, b, n - 1);
      Joined(g, d, b, c, n - 1, m);
    }
  }

  lemma {:induction false} Transits(g: Graph, a: string, b: string, c: string)
    requires Reaches(g, a, b) && Reaches(g, b, c)
    ensures Reaches(g, a, c)
  {
    var n :| ReachesIn(g, a, b, n);
    var m :| ReachesIn(g, b, c, m);
    Joined(g, a, b, c, n, m);
  }

  /** The first step of a dependency, and the rest of it if there is one. */
  lemma {:induction false} FirstStep(g: Graph, a: string, b: string) returns (c: string)
    requires Reaches(g, a, b)
    ensures a in g && c in g[a] && (c == b || Reaches(g, c, b))
  {
    var n :| ReachesIn(g, a, b, n);
    c := FirstStepIn(g, a, b, n);
  }

  lemma {:induction false} FirstStepIn(g: Graph, a: string, b: string, n: nat) returns (c: string)
    requires ReachesIn(g, a, b, n)
    ensures a in g && c in g[a] && (c == b || Reaches(g, c, b))
  {
    if n == 1 {
      c := b;
    } else {
      c :| c in g[a] && ReachesIn(g, c, b, n - 1);
    }
  }

  ghost predicate IsClosure(g: Graph, a: string, s: set<string>) {
    forall b :: b in s <==> Reaches(g, a, b)
  }

  /** Everything that `v` depends on is a library, and a recursion of depth `limit`
      gets through it. */
  ghost predicate Fits(g: Graph, v: string, limit: nat)
    decreases limit
  {
    limit > 0 && v in g && forall d :: d in g[v] ==> Fits(g, d, limit - 1)
  }

  lemma {:induction false} FitsMore(g: Graph, v: string, limit: nat, more: nat)
    requires Fits(g, v, limit) && limit <= more
    ensures Fits(g, v, more)
    decreases limit
  {
    forall d | d in g[v] ensures Fits(g, d, more - 1) {
      FitsMore(g, d, limit - 1, more - 1);
    }
  }

  lemma {:induction false} FitsAlong(g: Graph, a: string, b: string, n: nat, limit: nat)
    requires Fits(g, a, limit) && ReachesIn(g, a, b, n)
    ensures limit > 1 && Fits(g, b, limit - 1)
    decreases n
  {
    if n == 1 {
      assert Fits(g, b, limit - 1);
    } else {
      var c :| c in g[a] && ReachesIn(g, c, b, n - 1);
      FitsAlong(g, c, b, n - 1, limit - 1);
      FitsMore(g, b, limit - 2, limit - 1);
    }
  }

  /** No recursion limit is enough for a cycle. */
  lemma {:induction false} CycleNeverFits(g: Graph, v: string, limit: nat)
    requires Reaches(g, v, v)
    ensures !Fits(g, v, limit)
    decreases limit
  {
    if Fits(g, v, limit) {
      var n :| ReachesIn(g, v, v, n);
      FitsAlong(g, v, v, n, limit);
      CycleNeverFits(g, v, limit - 1);
    }
  }

  /** What is not a library is never got through either. */
  lemma {:induction false} MissingNeverFits(g: Graph, v: string, d: string, limit: nat)
    requires Reaches(g, v, d) && d !in g
    ensures !Fits(g, v, limit)
  {
    if Fits(g, v, limit) {
      var n :| ReachesIn(g, v, d, n);
      FitsAlong(g, v, d, n, limit);
    }
  }

  ghost predicate Closed(g: Graph) {
    forall a, b :: a in g && b in g[a] ==> b in g
  }

  ghost predicate Acyclic(g: Graph) {
    forall a :: !Reaches(g, a, a)
  }

  /** A library and all it depends on. */
  ghost function Below(g: Graph, v: string): set<string> {
    set b | b in g.Keys && (b == v || Reaches(g, v, b))
  }

  lemma {:induction false} FitsItsDependencies(g: Graph, v: string)
    requires Closed(g) && Acyclic(g) && v in g
    ensures Fits(g, v, |Below(g, v)|)
    decreases |Below(g, v)|
  {
    assert v in Below(g, v);
    forall d | d in g[v] ensures Fits(g, d, |Below(g, v)| - 1) {
      Direct(g, v, d);
      forall b | b in Below(g, d) ensures b in Below(g, v) && b != v {
        if b != d {
          Transits(g, v, d, b);
        }
      }
      Smaller(Below(g, d), Below(g, v), v);
      FitsItsDependencies(g, d);
      FitsMore(g, d, |Below(g, d)|, |Below(g, v)| - 1);
    }
  }

  lemma {:induction false} Smaller(a: set<string>, b: set<string>, x: string)
    requires a <= b && x in b && x !in a
    ensures |a| < |b|
  {
    SubsetSize(a, b - {x});
  }

  lemma {:induction false} SubsetSize(a: set<string>, b: set<string>)
    requires a <= b
    ensures |a| <= |b|
    decreases |a|
  {
    if a != {} {
      var x :| x in a;
      SubsetSize(a - {x}, b - {x});
    }
  }

  /** A recursion limit of the number of libraries is enough for every library graph
      without cycles. */
  lemma {:induction false} AcyclicFits(g: Graph, v: string, limit: nat)
    requires Closed(g) && Acyclic(g) && v in g && limit >= |g|
    ensures Fits(g, v, limit)
  {
    FitsItsDependencies(g, v);
    SubsetSize(Below(g, v), g.Keys);
    FitsMore(g, v, |Below(g, v)|, limit);
  }

  // ---- Closing in place --------------------------------------------------------

  /** `m` has all of `g`, and else only what follows from it. */
  ghost predicate Between(g: Graph, m: Graph) {
    && m.Keys == g.Keys
    && (forall a, b :: a in g && b in g[a] ==> b in m[a])
    && (forall a, b :: a in g && b in m[a] ==> Reaches(g, a, b))
  }

  lemma {:induction false} ReachesInBigger(g: Graph, m: Graph, a: string, b: string, n: nat)
    requires Between(g, m) && ReachesIn(g, a, b, n)
    ensures ReachesIn(m, a, b, n)
    decreases n
  {
    if n > 1 {
      var c :| c in g[a] && ReachesIn(g, c, b, n - 1);
      ReachesInBigger(g, m, c, b, n - 1);
    }
  }

  lemma {:induction false} ReachesInSmaller(g: Graph, m: Graph, a: string, b: string, n: nat)
    requires Between(g, m) && ReachesIn(m, a, b, n)
    ensures Reaches(g, a, b)
    decreases n
  {
    if n > 1 {
      var c :| c in m[a] && ReachesIn(m, c, b, n - 1);
      ReachesInSmaller(g, m, c, b, n - 1);
      Transits(g, a, c, b);
    }
  }

  /** Sets that are closed already do not change what depends on what. */
  lemma {:induction false} SameReach(g: Graph, m: Graph, a: string, b: string)
    requires Between(g, m)
    ensures Reaches(m, a, b) <==> Reaches(g, a, b)
  {
    if Reaches(g, a, b) {
      var n :| ReachesIn(g, a, b, n);
      ReachesInBigger(g, m, a, b, n);
    }
    if Reaches(m, a, b) {
      var n :| ReachesIn(m, a, b, n);
      ReachesInSmaller(g, m, a, b, n);
    }
  }

  /** Nor do they change how deep the recursion goes. */
  lemma {:induction false} SameFits(g: Graph, m: Graph, v: string, limit: nat)
    requires Between(g, m)
    ensures Fits(m, v, limit) <==> Fits(g, v, limit)
    decreases limit
  {
    if limit > 0 && v in g {
      forall d | d in m[v] && Fits(g, v, limit) ensures Fits(m, d, limit - 1) {
        var n :| ReachesIn(g, v, d, n);
        FitsAlong(g, v, d, n, limit);
        SameFits(g, m, d, limit - 1);
      }
      forall d | d in g[v] && Fits(m, v, limit) ensures Fits(g, d, limit - 1) {
        SameFits(g, m, d, limit - 1);
      }
    }
  }

  // ---- The program -------------------------------------------------------------

  /** The transitive dependencies of one library. A missing library is an error, and
      so is a recursion deeper than `limit`. */
  method Transitive(depMap: Graph, value: string, limit: nat) returns (r: Option<set<string>>)
    ensures r.Some? <==> Fits(depMap, value, limit)
    ensures r.Some? ==> IsClosure(depMap, value, r.value)
    decreases limit
  {
    if limit == 0 || value !in depMap {
      return None;
    }
    var out, rest := depMap[value], depMap[value];
    forall b | b in out ensures Reaches(depMap, value, b) {
      Direct(depMap, value, b);
    }
    while rest != {}
      invariant rest <= depMap[value] <= out
      invariant forall b :: b in out ==> Reaches(depMap, value, b)
      invariant forall d :: d in depMap[value] && d !in rest ==> Done(depMap, d, limit - 1, out)
      decreases rest
    {
      var entry :| entry in rest;
      var deps := Transitive(depMap, entry, limit - 1);
      if deps.None? {
        return None;
      }
      Direct(depMap, value, entry);
      forall b | b in deps.value ensures Reaches(depMap, value, b) {
        Transits(depMap, value, entry, b);
      }
      out := out + deps.value;
      rest := rest - {entry};
    }
    forall b | Reaches(depMap, value, b) ensures b in out {
      var c := FirstStep(depMap, value, b);
      assert Done(depMap, c, limit - 1, out);
    }
    forall d | d in depMap[value] ensures Fits(depMap, d, limit - 1) {
      assert Done(depMap, d, limit - 1, out);
    }
    return Some(out);
  }

  ghost predicate Done(g: Graph, d: string, limit: nat, out: set<string>) {
    Fits(g, d, limit) && forall b :: Reaches(g, d, b) ==> b in out
  }

  /** The union of the transitive dependencies of some libraries. */
  method Chain(depMap: Graph, deps: set<string>, limit: nat) returns (r: Option<set<string>>)
    ensures r.Some? <==> forall d :: d in deps ==> Fits(depMap, d, limit)
    ensures r.Some? ==> forall b :: b in r.value <==> exists d :: d in deps && Reaches(depMap, d, b)
  {
    var out: set<string>, rest := {}, deps;
    while rest != {}
      invariant rest <= deps
      invariant forall b :: b in out ==> exists d :: d in deps && Reaches(depMap, d, b)
      invariant forall d :: d in deps && d !in rest ==> Done(depMap, d, limit, out)
      decreases rest
    {
      var dep :| dep in rest;
      var s := Transitive(depMap, dep, limit);
      if s.None? {
        return None;
      }
      out := out + s.value;
      rest := rest - {dep};
    }
    assert forall d :: d in deps ==> Done(depMap, d, limit, out);
    return Some(out);
  }

  /** A library file: its base name, its soname if it has one, and what it needs. */
  datatype Library = Library(file: string, soname: string, deps: set<string>)

  const INTERPRETER := "ld-linux-x86-64.so.2"

  function Soname(l: Library): string {
    if l.soname == "" then l.file else l.soname
  }

  /** The direct dependencies that the first `n` libraries declare. */
  function GraphOf(libraries: seq<Library>, n: nat): Graph
    requires n <= |libraries|
  {
    if n == 0 then map[] else
    GraphOf(libraries, n - 1)[Soname(libraries[n - 1]) := libraries[n - 1].deps - {INTERPRETER}]
  }

  function FileNames(libraries: seq<Library>, n: nat): (files: map<string, string>)
    requires n <= |libraries|
    ensures files.Keys == GraphOf(libraries, n).Keys
  {
    if n == 0 then map[] else
    FileNames(libraries, n - 1)[Soname(libraries[n - 1]) := libraries[n - 1].file]
  }

  /** A library without a soname goes by its file name. */
  lemma SonameIs(l: Library)
    ensures l.soname != "" ==> Soname(l) == l.soname
    ensures l.soname == "" ==> Soname(l) == l.file
  {
  }

  /** No names but theirs are in the graph. */
  lemma {:induction false} OnlyLibraries(libraries: seq<Library>, n: nat, soname: string)
    requires n <= |libraries| && soname in GraphOf(libraries, n)
    ensures exists i :: 0 <= i < n && Soname(libraries[i]) == soname
  {
    if Soname(libraries[n - 1]) != soname {
      OnlyLibraries(libraries, n - 1, soname);
    }
  }

  /** Of several libraries with one soname the last one counts; the interpreter is no
      dependency. */
  lemma {:induction false} LastLibraryCounts(libraries: seq<Library>, n: nat, i: nat)
    requires i < n <= |libraries| && forall j :: i < j < n ==> Soname(libraries[j]) != Soname(libraries[i])
    ensures var soname := Soname(libraries[i]);
            && soname in GraphOf(libraries, n)
            && GraphOf(libraries, n)[soname] == libraries[i].deps - {"ld-linux-x86-64.so.2"}
            && FileNames(libraries, n)[soname] == libraries[i].file
    decreases n
  {
    if i < n - 1 {
      LastLibraryCounts(libraries, n - 1, i);
    }
  }

  method Load(libraries: seq<Library>) returns (files: map<string, string>, g: Graph)
    ensures files == FileNames(libraries, |libraries|) && g == GraphOf(libraries, |libraries|)
  {
    files, g := map[], map[];
    for i := 0 to |libraries|
      invariant files == FileNames(libraries, i) && g == GraphOf(libraries, i)
    {
      var l := libraries[i];
      files := files[Soname(l) := l.file];
      g := g[Soname(l) := l.deps - {INTERPRETER}];
    }
  }

  /** Closes the sets one after another; the result does not depend on the order. */
  method CloseInPlace(g: Graph, limit: nat) returns (ok: bool, out: Graph)
    ensures ok <==> forall a, d :: a in g && d in g[a] ==> Fits(g, d, limit)
    ensures ok ==> out.Keys == g.Keys && (forall a :: a in g ==> IsClosure(g, a, out[a]))
  {
    out := g;
    var rest := g.Keys;
    BetweenItself(g);
    while rest != {}
      invariant rest <= g.Keys && Between(g, out)
      invariant forall a :: a in rest ==> out[a] == g[a]
      invariant forall a :: a in g && a !in rest ==> IsClosure(g, a, out[a]) && AllFit(g, g[a], limit)
      decreases rest
    {
      var soname :| soname in rest;
      var more := Chain(out, out[soname], limit);
      forall d ensures Fits(out, d, limit) <==> Fits(g, d, limit) {
        SameFits(g, out, d, limit);
      }
      if more.None? {
        ghost var d :| d in out[soname] && !Fits(out, d, limit);
        assert d in g[soname] && !Fits(g, d, limit);
        return false, out;
      }
      Updated(g, out, soname, more.value);
      out := out[soname := out[soname] + more.value];
      rest := rest - {soname};
    }
    forall a, d | a in g && d in g[a] ensures Fits(g, d, limit) {
      assert AllFit(g, g[a], limit);
    }
    ok := true;
  }

  ghost predicate AllFit(g: Graph, deps: set<string>, limit: nat) {
    forall d :: d in deps ==> Fits(g, d, limit)
  }

  lemma {:induction false} BetweenItself(g: Graph)
    ensures Between(g, g)
  {
    forall a, b | a in g && b in g[a] ensures Reaches(g, a, b) {
      Direct(g, a, b);
    }
  }

  lemma {:induction false} Updated(g: Graph, m: Graph, a: string, more: set<string>)
    requires Between(g, m) && a in g && m[a] == g[a]
    requires forall b :: b in more <==> exists d :: d in m[a] && Reaches(m, d, b)
    ensures IsClosure(g, a, m[a] + more)
    ensures Between(g, m[a := m[a] + more])
  {
    forall b | b in m[a] + more ensures Reaches(g, a, b) {
      if b in more {
        var d :| d in m[a] && Reaches(m, d, b);
        SameReach(g, m, d, b);
        Transits(g, a, d, b);
      }
    }
    forall b | Reaches(g, a, b) ensures b in m[a] + more {
      var c := FirstStep(g, a, b);
      SameReach(g, m, c, b);
    }
  }

  /** Every set also gets its own library. */
  method AddItself(g: Graph) returns (out: Graph)
    ensures out.Keys == g.Keys && forall a :: a in g ==> out[a] == g[a] + {a}
  {
    out := g;
    var rest := g.Keys;
    while rest != {}
      invariant rest <= g.Keys && out.Keys == g.Keys
      invariant forall a :: a in g ==> out[a] == if a in rest then g[a] else g[a] + {a}
      decreases rest
    {
      var soname :| soname in rest;
      out := out[soname := out[soname] + {soname}];
      rest := rest - {soname};
    }
  }

  /** A library with what it depends on. */
  ghost function Needed(g: Graph, a: string): set<string> {
    set d | d in g && (d == a || Reaches(g, a, d))
  }

  function WithFile(files: map<string, string>, sonames: set<string>, f: string): set<string>
    requires sonames <= files.Keys
  {
    set d | d in sonames && files[d] == f
  }

  /** `s` is in order and has each file as often as sonames stand for it. */
  ghost predicate Lists(files: map<string, string>, sonames: set<string>, s: seq<string>)
    requires sonames <= files.Keys
  {
    Sorted(s) && forall f :: multiset(s)[f] == |WithFile(files, sonames, f)|
  }

  lemma OneMoreFile(files: map<string, string>, sonames: set<string>, d: string, s: seq<string>)
    requires sonames + {d} <= files.Keys && d !in sonames && Lists(files, sonames, s)
    ensures Lists(files, sonames + {d}, Insert(s, files[d]))
  {
    InsertKeepsSorted(s, files[d]);
    InsertAdds(s, files[d]);
    forall f ensures multiset(Insert(s, files[d]))[f] == |WithFile(files, sonames + {d}, f)| {
      var before, after := WithFile(files, sonames, f), WithFile(files, sonames + {d}, f);
      assert after == if f == files[d] then before + {d} else before;
    }
  }

  method SortedFiles(files: map<string, string>, sonames: set<string>) returns (s: seq<string>)
    requires sonames <= files.Keys
    ensures Lists(files, sonames, s)
  {
    s := [];
    var rest := sonames;
    while rest != {}
      invariant rest <= sonames && Lists(files, sonames - rest, s)
      decreases rest
    {
      var d :| d in rest;
      OneMoreFile(files, sonames - rest, d, s);
      assert sonames - (rest - {d}) == sonames - rest + {d};
      s := Insert(s, files[d]);
      rest := rest - {d};
    }
    assert sonames - rest == sonames;
  }

  /** For each soname the files of the libraries that it depends on, and its own, in
      order. */
  method GetDependencyMap(libraries: seq<Library>, limit: nat) returns (r: Option<map<string, seq<string>>>)
    ensures var g := GraphOf(libraries, |libraries|);
            r.Some? <==> forall a, d :: a in g && d in g[a] ==> Fits(g, d, limit)
    ensures var g, files := GraphOf(libraries, |libraries|), FileNames(libraries, |libraries|);
            r.Some? ==> r.value.Keys == g.Keys
                        && forall a :: a in g ==> Lists(files, Needed(g, a), r.value[a])
  {
    var files, g := Load(libraries);
    var ok, closed := CloseInPlace(g, limit);
    if !ok {
      return None;
    }
    var out := AddItself(closed);
    forall a | a in g ensures out[a] == Needed(g, a) {
      NeededIsClosure(g, a, out[a], limit);
    }
    var result: map<string, seq<string>> := map[];
    var rest := out.Keys;
    while rest != {}
      invariant rest <= g.Keys && result.Keys == g.Keys - rest
      invariant forall a :: a in result ==> Lists(files, Needed(g, a), result[a])
      decreases rest
    {
      var a :| a in rest;
      var list := SortedFiles(files, out[a]);
      result := result[a := list];
      rest := rest - {a};
    }
    return Some(result);
  }

  lemma {:induction false} NeededIsClosure(g: Graph, a: string, s: set<string>, limit: nat)
    requires a in g && (forall d :: d in s <==> d == a || Reaches(g, a, d))
    requires forall a, d :: a in g && d in g[a] ==> Fits(g, d, limit)
    ensures s == Needed(g, a)
  {
    forall d | d in s ensures d in g {
      if d != a {
        ReachedIsLibrary(g, a, d, limit);
      }
    }
  }

  lemma {:induction false} ReachedIsLibrary(g: Graph, a: string, d: string, limit: nat)
    requires a in g && Reaches(g, a, d)
    requires forall a, d :: a in g && d in g[a] ==> Fits(g, d, limit)
    ensures d in g
  {
    var c := FirstStep(g, a, d);
    assert Fits(g, c, limit);
    if d !in g && c != d {
      MissingNeverFits(g, c, d, limit);
    }
  }
}
