/** How the sources of a cros-workon package are found from its ebuild variables: which
    tree hash belongs to which subtree of which project.
 */
module CrosWorkon {
  import opened Wrappers

  datatype Value = Scalar(text: string) | IndexedArray(items: seq<string>) | AssociativeArray

  type Vars = map<string, Value>

  // ---- Variables ---------------------------------------------------------------

  /** A variable with one value for each project; a single value is meant for all. */
  function ArrayVariable(vars: Vars, name: string, projects: nat): (r: Option<seq<string>>)
    ensures name !in vars || vars[name].AssociativeArray? ==> r.None?
    ensures name in vars && vars[name].Scalar? ==>
              r.Some? && |r.value| == projects && forall i :: 0 <= i < projects ==> r.value[i] == vars[name].text
    ensures name in vars && vars[name].IndexedArray? ==>
              var items := vars[name].items;
              && (r.Some? <==> |items| == 1 || |items| == projects)
              && (r.Some? ==> |r.value| == projects)
              && (r.Some? ==> forall i :: 0 <= i < projects ==> r.value[i] == items[if |items| == 1 then 0 else i])
  {
    if name !in vars || vars[name].AssociativeArray? then None else
    var raw := if vars[name].Scalar? then [vars[name].text] else vars[name].items;
    if |raw| == 1 then Some(seq(projects, i => raw[0]))
    else if |raw| != projects then None
    else Some(raw)
  }

  /** An empty value, as in an ebuild that follows the checked out sources, is no tree. */
  function TreeVariable(vars: Vars): (r: Option<seq<string>>)
    ensures var name := "CROS_WORKON_TREE";
            && (name !in vars || vars[name].AssociativeArray? <==> r.None?)
            && (name in vars && vars[name] == Scalar("") ==> r == Some([]))
            && (name in vars && vars[name].Scalar? && vars[name].text != "" ==> r == Some([vars[name].text]))
            && (name in vars && vars[name].IndexedArray? ==> r == Some(vars[name].items))
  {
    var name := "CROS_WORKON_TREE";
    if name !in vars then None else
    match vars[name]
    case Scalar(text) => Some(if text == "" then [] else [text])
    case IndexedArray(items) => Some(items)
    case AssociativeArray => None
  }

  function ProjectVariable(vars: Vars): Option<seq<string>>
    requires "CROS_WORKON_PROJECT" in vars
  {
    match vars["CROS_WORKON_PROJECT"]
    case Scalar(text) => Some([text])
    case IndexedArray(items) => Some(items)
    case AssociativeArray => None
  }

  predicate IsSpace(c: char) {
    c == ' ' || c == '\t' || c == '\n' || c == 12 as char || c == '\r'
  }

  /** The words of `s`, the first of which has begun with `word`. */
  function SplitWords(s: string, word: string): seq<string>
    decreases |s|
  {
    if s == [] then (if word == [] then [] else [word])
    else if IsSpace(s[0]) then (if word == [] then [] else [word]) + SplitWords(s[1..], [])
    else SplitWords(s[1..], word + [s[0]])
  }

  predicate IsGap(c: char) {
    c in {' ', '\t', '\n', 0x0C as char, '\r'}
  }

  ghost predicate IsWord(w: string) {
    w != [] && forall i :: 0 <= i < |w| ==> !IsGap(w[i])
  }

  /** Words with a gap behind each. */
  function Spaced(words: seq<string>, gap: char): string {
    if words == [] then [] else words[0] + [gap] + Spaced(words[1..], gap)
  }

  lemma {:induction false} SplitWord(w: string, gap: char, t: string, word: string)
    requires IsGap(gap) && forall i :: 0 <= i < |w| ==> !IsGap(w[i])
    requires word + w != []
    ensures SplitWords(w + [gap] + t, word) == [word + w] + SplitWords(t, [])
    decreases |w|
  {
    var s := w + [gap] + t;
    if w == [] {
      assert s[0] == gap && s[1..] == t && word + w == word;
    } else {
      assert s[0] == w[0] && s[1..] == w[1..] + [gap] + t;
      SplitWord(w[1..], gap, t, word + [w[0]]);
      assert word + [w[0]] + w[1..] == word + w;
    }
  }

  lemma {:induction false} SplitGap(gap: char, t: string)
    requires IsGap(gap)
    ensures SplitWords([gap] + t, []) == SplitWords(t, [])
  {
    assert ([gap] + t)[1..] == t;
    assert [] + SplitWords(t, []) == SplitWords(t, []);
  }

  lemma {:induction false} SplitWordsOf(words: seq<string>, gap: char)
    requires IsGap(gap) && forall i :: 0 <= i < |words| ==> IsWord(words[i])
    ensures SplitWords(Spaced(words, gap), []) == words
  {
    if words != [] {
      assert IsWord(words[0]);
      assert [] + words[0] == words[0];
      SplitWord(words[0], gap, Spaced(words[1..], gap), []);
      SplitWordsOf(words[1..], gap);
    }
  }

  /** Gaps in front do not count either. */
  lemma {:induction false} SplitOfSpaced(front: string, words: seq<string>, gap: char)
    requires IsGap(gap) && forall i :: 0 <= i < |front| ==> IsGap(front[i])
    requires forall i :: 0 <= i < |words| ==> IsWord(words[i])
    ensures SplitWords(front + Spaced(words, gap), []) == words
    decreases |front|
  {
    var s := Spaced(words, gap);
    if front == [] {
      assert front + s == s;
      SplitWordsOf(words, gap);
    } else {
      assert front + s == [front[0]] + (front[1..] + s);
      SplitGap(front[0], front[1..] + s);
      SplitOfSpaced(front[1..], words, gap);
    }
  }

  lemma {:induction false} SplitLastWord(w: string, word: string)
    requires word + w != [] && forall i :: 0 <= i < |w| ==> !IsGap(w[i])
    ensures SplitWords(w, word) == [word + w]
    decreases |w|
  {
    if w == [] {
      assert word + w == word;
    } else {
      SplitLastWord(w[1..], word + [w[0]]);
      assert word + [w[0]] + w[1..] == word + w;
    }
  }

  /** No subtree means the whole project; a list of blanks has no subtree at all. */
  function Subtrees(subtree: string): seq<string> {
    if subtree == "" then [""] else SplitWords(subtree, [])
  }

  /** Paths in LOCALNAME are relative to src/ for a chromeos-base package, otherwise to
      src/third_party/. */
  function LocalPath(localName: string, isChromeosBase: bool): string {
    if localName == "chromiumos-assets" then "platform/chromiumos-assets"
    else if isChromeosBase then localName
    else if "../" <= localName then localName[3..]
    else "third_party/" + localName
  }

  /** A path that climbs out of third_party/ stands in src/ itself, and one name is known
      to be wrong. */
  lemma {:induction false} LocalPathIs(name: string, rest: string, isChromeosBase: bool)
    ensures LocalPath("chromiumos-assets", isChromeosBase) == "platform/chromiumos-assets"
    ensures name != "chromiumos-assets" ==> LocalPath(name, true) == name
    ensures LocalPath("../" + rest, false) == rest
    ensures name != "chromiumos-assets" && name[..if |name| < 3 then |name| else 3] != "../" ==>
              LocalPath(name, false) == "third_party/" + name
  {
    assert ("../" + rest)[..3] == "../" && ("../" + rest)[3..] == rest;
    assert ("../" + rest)[0] == '.' && "chromiumos-assets"[0] == 'c';
  }

  function TrimSlashes(s: string): string {
    if s != [] && s[0] == '/' then TrimSlashes(s[1..]) else s
  }

  function Join(path: string, subtree: string): string {
    if path == [] then subtree
    else if path[|path| - 1] == '/' then path + subtree
    else path + ['/'] + subtree
  }

  function SourcePath(path: string, subtree: string): string {
    var s := TrimSlashes(subtree);
    if s == [] then path else Join(path, s)
  }

  /** Slashes in front of a subtree do not count. */
  lemma {:induction false} SourcePathIs(path: string, slashes: nat, subtree: string)
    requires path != "" && path[|path| - 1] != '/' && (subtree != "" ==> subtree[0] != '/')
    ensures SourcePath(path, seq(slashes, _ => '/') + subtree) == if subtree == "" then path else path + "/" + subtree
  {
    var s := seq(slashes, _ => '/') + subtree;
    if slashes == 0 {
      assert s == subtree;
    } else {
      assert s[1..] == seq(slashes - 1, _ => '/') + subtree;
      SourcePathIs(path, slashes - 1, subtree);
    }
  }

  // ---- Projects and trees ------------------------------------------------------

  /** `required` is missing if the optional-checkout expression cannot be evaluated. */
  datatype Project = Project(name: string, path: string, subtrees: seq<string>, required: Option<bool>)

  /** One subtree of a project: the place of one tree hash. */
  datatype Slot = Slot(project: string, path: string, subtree: string, required: bool)

  datatype RepoSource = RepoSource(name: string, project: string, treeHash: string, path: string,
                                   subtree: Option<string>)

  function SlotOf(p: Project, subtree: string): Slot {
    Slot(p.name, p.path, subtree, p.required == Some(true))
  }

  function SlotsOf(p: Project): (slots: seq<Slot>)
    ensures |slots| == |p.subtrees|
  {
    seq(|p.subtrees|, j requires 0 <= j < |p.subtrees| => SlotOf(p, p.subtrees[j]))
  }

  /** The subtrees of the first `n` projects, whether required or not. */
  function Slots(ps: seq<Project>, n: nat): (slots: seq<Slot>)
    requires n <= |ps|
    ensures |slots| == Base(ps, n)
  {
    if n == 0 then [] else Slots(ps, n - 1) + SlotsOf(ps[n - 1])
  }

  /** How many subtrees the first `n` projects have. */
  function Base(ps: seq<Project>, n: nat): nat
    requires n <= |ps|
  {
    if n == 0 then 0 else Base(ps, n - 1) + |ps[n - 1].subtrees|
  }

  lemma {:induction false} BaseGrows(ps: seq<Project>, m: nat, n: nat)
    requires m <= n <= |ps|
    ensures Base(ps, m) <= Base(ps, n) && Slots(ps, n)[..Base(ps, m)] == Slots(ps, m)
    decreases n
  {
    if m < n {
      BaseGrows(ps, m, n - 1);
      assert Slots(ps, n)[..Base(ps, m)] == Slots(ps, n - 1)[..Base(ps, m)];
    } else {
      assert Slots(ps, n)[..Base(ps, n)] == Slots(ps, n);
    }
  }

  /** The j-th subtree of a project stands behind all subtrees of the projects before it. */
  lemma {:induction false} SlotOfSubtree(ps: seq<Project>, p: nat, j: nat)
    requires p < |ps| && j < |ps[p].subtrees|
    ensures Base(ps, p) + j < Base(ps, |ps|)
    ensures Slots(ps, |ps|)[Base(ps, p) + j] == SlotOf(ps[p], ps[p].subtrees[j])
  {
    BaseGrows(ps, p + 1, |ps|);
    assert Slots(ps, p + 1)[Base(ps, p) + j] == Slots(ps, |ps|)[..Base(ps, p + 1)][Base(ps, p) + j];
  }

  /** Which tree belongs to a subtree does not depend on which projects are required. */
  lemma {:induction false} RequiredDoesNotShift(ps: seq<Project>, qs: seq<Project>, n: nat)
    requires n <= |ps| == |qs| && forall i :: 0 <= i < |ps| ==> ps[i].subtrees == qs[i].subtrees
    ensures Base(ps, n) == Base(qs, n)
    decreases n
  {
    if n > 0 {
      RequiredDoesNotShift(ps, qs, n - 1);
    }
  }

  /** The tree of slot `k` is used: its project is required and no required slot before
      it has the same tree. */
  predicate IsNew(slots: seq<Slot>, trees: seq<string>, k: nat)
    requires k < |slots| && k < |trees|
  {
    slots[k].required && forall i :: 0 <= i < k ==> slots[i].required ==> trees[i] != trees[k]
  }

  /** The slots among the first `n` whose trees are used. */
  function Picked(slots: seq<Slot>, trees: seq<string>, n: nat): (picked: seq<nat>)
    requires n <= |slots| && n <= |trees|
    ensures forall m :: 0 <= m < |picked| ==> picked[m] < n
  {
    if n == 0 then []
    else if IsNew(slots, trees, n - 1) then Picked(slots, trees, n - 1) + [n - 1]
    else Picked(slots, trees, n - 1)
  }

  /** They are picked in order, and exactly where a required tree occurs first. */
  lemma {:induction false} PickedExactly(slots: seq<Slot>, trees: seq<string>, n: nat)
    requires n <= |slots| && n <= |trees|
    ensures forall a, b :: 0 <= a < b < |Picked(slots, trees, n)| ==>
              Picked(slots, trees, n)[a] < Picked(slots, trees, n)[b]
    ensures forall k: nat :: k in Picked(slots, trees, n) <==> k < n && IsNew(slots, trees, k)
    decreases n
  {
    if n > 0 {
      PickedExactly(slots, trees, n - 1);
    }
  }

  function ReplaceSlashes(s: string): string {
    seq(|s|, i requires 0 <= i < |s| => if s[i] == '/' then '-' else s[i])
  }

  lemma {:induction false} SlashesBecomeDashes(a: string, b: string)
    requires '/' !in a
    ensures ReplaceSlashes(a) == a && ReplaceSlashes(a + "/" + b) == a + "-" + ReplaceSlashes(b)
  {
  }

  function SourceOf(slot: Slot, tree: string): RepoSource {
    RepoSource("tree-" + ReplaceSlashes(slot.project) + "-" + tree, slot.project, tree, slot.path,
               if slot.subtree == "" then None else Some(slot.subtree))
  }

  function SourcesAt(slots: seq<Slot>, trees: seq<string>, picked: seq<nat>): seq<RepoSource>
    requires forall m :: 0 <= m < |picked| ==> picked[m] < |slots| && picked[m] < |trees|
  {
    seq(|picked|, m requires 0 <= m < |picked| => SourceOf(slots[picked[m]], trees[picked[m]]))
  }

  /** Each tree is fetched once. */
  lemma {:induction false} TreesAreDistinct(slots: seq<Slot>, trees: seq<string>, n: nat)
    requires n <= |slots| && n <= |trees|
    ensures var s := SourcesAt(slots, trees, Picked(slots, trees, n));
            forall a, b :: 0 <= a < b < |s| ==> s[a].treeHash != s[b].treeHash
  {
    PickedExactly(slots, trees, n);
    var picked := Picked(slots, trees, n);
    forall a, b | 0 <= a < b < |picked| ensures trees[picked[a]] != trees[picked[b]] {
      assert picked[a] in picked && picked[b] in picked;
    }
  }

  // ---- The loop ----------------------------------------------------------------

  /** What the loop has done once `n` trees are consumed. */
  ghost predicate Consumed(slots: seq<Slot>, trees: seq<string>, n: nat, seen: set<string>, sources: seq<RepoSource>) {
    && n <= |slots| && n <= |trees|
    && (forall t :: t in seen <==> exists k :: 0 <= k < n && slots[k].required && trees[k] == t)
    && sources == SourcesAt(slots, trees, Picked(slots, trees, n))
  }

  /** The inner loop, for a package whose trees are pinned. */
  method PinProject(p: Project, trees: seq<string>, start: nat, seen0: set<string>, sources0: seq<RepoSource>,
                    ghost slots: seq<Slot>)
    returns (ok: bool, treeIndex: nat, seen: set<string>, sources: seq<RepoSource>)
    requires Consumed(slots, trees, start, seen0, sources0)
    requires start + |p.subtrees| <= |slots| && slots[start..start + |p.subtrees|] == SlotsOf(p)
    ensures ok <==> start + |p.subtrees| <= |trees|
    ensures ok ==> treeIndex == start + |p.subtrees| && Consumed(slots, trees, treeIndex, seen, sources)
  {
    treeIndex, seen, sources := start, seen0, sources0;
    for j := 0 to |p.subtrees|
      invariant treeIndex == start + j && Consumed(slots, trees, treeIndex, seen, sources)
    {
      if treeIndex >= |trees| {
        return false, treeIndex, seen, sources;
      }
      var tree := trees[treeIndex];
      assert slots[treeIndex] == slots[start..start + |p.subtrees|][j] == SlotOf(p, p.subtrees[j]);
      treeIndex := treeIndex + 1;
      if p.required == Some(true) && tree !in seen {
        seen := seen + {tree};
        sources := sources + [SourceOf(SlotOf(p, p.subtrees[j]), tree)];
      }
    }
    ok := true;
  }

  /** The first project whose expression cannot be evaluated, or the number of projects. */
  function FirstBad(ps: seq<Project>, i: nat): (f: nat)
    requires i <= |ps|
    ensures i <= f <= |ps| && (f < |ps| ==> ps[f].required == None)
    ensures forall k :: i <= k < f ==> ps[k].required.Some?
    decreases |ps| - i
  {
    if i == |ps| || ps[i].required.None? then i else FirstBad(ps, i + 1)
  }

  function PathsOf(p: Project, n: nat): seq<string>
    requires n <= |p.subtrees|
  {
    seq(n, j requires 0 <= j < n => SourcePath(p.path, p.subtrees[j]))
  }

  /** The source paths of the required projects among the first `n`. */
  function LocalPaths(ps: seq<Project>, n: nat): seq<string>
    requires n <= |ps|
  {
    if n == 0 then []
    else if ps[n - 1].required != Some(true) then LocalPaths(ps, n - 1)
    else LocalPaths(ps, n - 1) + PathsOf(ps[n - 1], |ps[n - 1].subtrees|)
  }

  datatype Outcome = Sources(paths: seq<string>, repos: seq<RepoSource>) | BadVariable | BadExpression | TooFewTrees

  /** A package with pinned trees: tree `k` belongs to slot `k`. Trees that are left over
      are no error; too few are one, unless a bad expression is met first. */
  method Pinned(ps: seq<Project>, trees: seq<string>) returns (r: Outcome)
    ensures r.TooFewTrees? <==> Base(ps, FirstBad(ps, 0)) > |trees|
    ensures r.BadExpression? <==> Base(ps, FirstBad(ps, 0)) <= |trees| && FirstBad(ps, 0) < |ps|
    ensures r.Sources? <==> Base(ps, |ps|) <= |trees| && FirstBad(ps, 0) == |ps|
    ensures r.Sources? ==> var slots := Slots(ps, |ps|);
                      r == Sources([], SourcesAt(slots, trees, Picked(slots, trees, |slots|)))
  {
    ghost var slots := Slots(ps, |ps|);
    ghost var f := FirstBad(ps, 0);
    var treeIndex: nat, seen: set<string>, sources: seq<RepoSource> := 0, {}, [];
    for i := 0 to |ps|
      invariant i <= f && treeIndex == Base(ps, i) && Consumed(slots, trees, treeIndex, seen, sources)
    {
      if ps[i].required.None? {
        assert i == f;
        return BadExpression;
      }
      BaseGrows(ps, i + 1, f);
      SlotsOfProject(ps, i);
      var ok: bool;
      ok, treeIndex, seen, sources := PinProject(ps[i], trees, treeIndex, seen, sources, slots);
      if !ok {
        return TooFewTrees;
      }
    }
    return Sources([], sources);
  }

  lemma {:induction false} SlotsOfProject(ps: seq<Project>, i: nat)
    requires i < |ps|
    ensures Base(ps, i + 1) <= |Slots(ps, |ps|)|
    ensures Slots(ps, |ps|)[Base(ps, i)..Base(ps, i + 1)] == SlotsOf(ps[i])
  {
    BaseGrows(ps, i + 1, |ps|);
    var all := Slots(ps, |ps|);
    assert all[Base(ps, i)..Base(ps, i + 1)] == all[..Base(ps, i + 1)][Base(ps, i)..];
  }

  /** A package that follows the checked out sources. */
  method Unpinned(ps: seq<Project>) returns (r: Outcome)
    ensures r.BadExpression? <==> FirstBad(ps, 0) < |ps|
    ensures r.Sources? <==> FirstBad(ps, 0) == |ps|
    ensures r.Sources? ==> r.paths == LocalPaths(ps, |ps|) && r.repos == []
  {
    var paths: seq<string> := [];
    for i := 0 to |ps|
      invariant i <= FirstBad(ps, 0) && paths == LocalPaths(ps, i)
    {
      var p := ps[i];
      if p.required.None? {
        return BadExpression;
      }
      if p.required.value {
        ghost var before := paths;
        for j := 0 to |p.subtrees|
          invariant paths == before + PathsOf(p, j)
        {
          paths := paths + [SourcePath(p.path, p.subtrees[j])];
        }
      }
    }
    return Sources(paths, []);
  }

  /** The projects of a package, from its variables. */
  function ProjectsOf(projects: seq<string>, localNames: seq<string>, subtrees: seq<string>,
                      optional: seq<string>, isChromeosBase: bool, eval: string -> Option<bool>): (ps: seq<Project>)
    requires |localNames| == |subtrees| == |optional| == |projects|
    ensures |ps| == |projects|
  {
    seq(|projects|, i requires 0 <= i < |projects| =>
      Project(projects[i], LocalPath(localNames[i], isChromeosBase), Subtrees(subtrees[i]),
              if optional[i] == "" then Some(true) else eval(optional[i])))
  }

  /** A project without a subtree and an expression is used as a whole. */
  lemma {:induction false} WholeProject(project: string, name: string, isChromeosBase: bool, tree: string,
                                        eval: string -> Option<bool>)
    ensures var ps := ProjectsOf([project], [name], [""], [""], isChromeosBase, eval);
            var path, slots := LocalPath(name, isChromeosBase), Slots(ps, 1);
            && FirstBad(ps, 0) == 1 && LocalPaths(ps, 1) == [path]
            && |slots| == 1
            && SourcesAt(slots, [tree], Picked(slots, [tree], 1))
               == [RepoSource("tree-" + ReplaceSlashes(project) + "-" + tree, project, tree, path, None)]
  {
    var ps := ProjectsOf([project], [name], [""], [""], isChromeosBase, eval);
    assert Subtrees([""][0]) == [""];
    assert ps[0] == Project(project, LocalPath(name, isChromeosBase), Subtrees(""), Some(true));
    OneSlot(ps, "", true, tree);
    assert SourcePath(ps[0].path, "") == ps[0].path;
  }

  /** One subtree of a project is used exactly if the expression says so. */
  lemma {:induction false} PartOfProject(project: string, name: string, subtree: string, expression: string,
                                         isChromeosBase: bool, tree: string, eval: string -> Option<bool>)
    requires IsWord(subtree) && expression != ""
    ensures var ps := ProjectsOf([project], [name], [subtree], [expression], isChromeosBase, eval);
            var path, slots := LocalPath(name, isChromeosBase), Slots(ps, 1);
            && (FirstBad(ps, 0) == 0 <==> eval(expression) == None)
            && LocalPaths(ps, 1) == (if eval(expression) == Some(true) then [SourcePath(path, subtree)] else [])
            && |slots| == 1
            && SourcesAt(slots, [tree], Picked(slots, [tree], 1))
               == if eval(expression) != Some(true) then [] else
                  [RepoSource("tree-" + ReplaceSlashes(project) + "-" + tree, project, tree, path, Some(subtree))]
  {
    var ps := ProjectsOf([project], [name], [subtree], [expression], isChromeosBase, eval);
    SplitLastWord(subtree, []);
    assert [] + subtree == subtree;
    OneSlot(ps, subtree, eval(expression) == Some(true), tree);
  }

  lemma {:induction false} OneSlot(ps: seq<Project>, subtree: string, required: bool, tree: string)
    requires |ps| == 1 && ps[0].subtrees == [subtree] && (ps[0].required == Some(true) <==> required)
    ensures var slot := Slot(ps[0].name, ps[0].path, subtree, required);
            && Slots(ps, 1) == [slot]
            && LocalPaths(ps, 1) == (if required then [SourcePath(ps[0].path, subtree)] else [])
            && SourcesAt([slot], [tree], Picked([slot], [tree], 1)) == if required then [SourceOf(slot, tree)] else []
  {
    var slot := Slot(ps[0].name, ps[0].path, subtree, required);
    assert SlotsOf(ps[0]) == [slot] && Slots(ps, 0) == [];
    assert Slots(ps, 1) == [] + [slot];
    assert Picked([slot], [tree], 0) == [];
    assert Picked([slot], [tree], 1) == if required then [0] else [];
    assert LocalPaths(ps, 0) == [];
    assert PathsOf(ps[0], 1) == [SourcePath(ps[0].path, subtree)];
  }

  /** `eval` evaluates an optional-checkout expression under the USE flags. */
  method ExtractCrosWorkonSources(vars: Vars, isChromeosBase: bool, eval: string -> Option<bool>) returns (r: Outcome)
    ensures "CROS_WORKON_PROJECT" !in vars ==> r == Sources([], [])
    ensures "CROS_WORKON_PROJECT" in vars ==>
              var projects := ProjectVariable(vars);
              if projects.None? then r.BadVariable? else
              var n := |projects.value|;
              var names := ArrayVariable(vars, "CROS_WORKON_LOCALNAME", n);
              var subtrees := ArrayVariable(vars, "CROS_WORKON_SUBTREE", n);
              var optional := ArrayVariable(vars, "CROS_WORKON_OPTIONAL_CHECKOUT", n);
              var trees := TreeVariable(vars);
              if names.None? || subtrees.None? || optional.None? || trees.None? then r.BadVariable? else
              var ps := ProjectsOf(projects.value, names.value, subtrees.value, optional.value, isChromeosBase, eval);
              var all := Slots(ps, n);
              && !r.BadVariable?
              && (r.TooFewTrees? <==> trees.value != [] && Base(ps, FirstBad(ps, 0)) > |trees.value|)
              && (r.BadExpression? <==> FirstBad(ps, 0) < n
                                        && (trees.value == [] || Base(ps, FirstBad(ps, 0)) <= |trees.value|))
              && (r.Sources? <==> FirstBad(ps, 0) == n && (trees.value == [] || |all| <= |trees.value|))
              && (r.Sources? && trees.value == [] ==> r == Sources(LocalPaths(ps, n), []))
              && (r.Sources? && trees.value != [] ==>
                    && r == Sources([], SourcesAt(all, trees.value, Picked(all, trees.value, |all|))))
  {
    if "CROS_WORKON_PROJECT" !in vars {
      return Sources([], []);
    }
    var projects := ProjectVariable(vars);
    if projects.None? {
      return BadVariable;
    }
    var n := |projects.value|;
    var localNames := ArrayVariable(vars, "CROS_WORKON_LOCALNAME", n);
    var subtrees := ArrayVariable(vars, "CROS_WORKON_SUBTREE", n);
    var optional := ArrayVariable(vars, "CROS_WORKON_OPTIONAL_CHECKOUT", n);
    var trees := TreeVariable(vars);
    if localNames.None? || subtrees.None? || optional.None? || trees.None? {
      return BadVariable;
    }
    var ps := ProjectsOf(projects.value, localNames.value, subtrees.value, optional.value, isChromeosBase, eval);
    if trees.value == [] {
      r := Unpinned(ps);
    } else {
      r := Pinned(ps, trees.value);
    }
  }
}
