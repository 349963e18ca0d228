/** Parameter files: `@file` arguments replaced by the lines of the file, which may
    refer to further files.
 */
module ParamFile {
  import opened Wrappers

  /** The files that can be read as text. */
  type Files = map<string, string>

  /** How an argument expands: to itself, or to what the lines of a file expand to. */
  datatype Tree = Word(arg: string) | Include(path: string, lines: seq<Tree>)

  /** `str::lines`: a line ends with a newline, with or without a carriage return
      before it; the last line need not end. */
  function Lines(s: string): seq<string> {
    LinesFrom(s, [])
  }

  function LinesFrom(s: string, line: string): seq<string> {
    if s == [] then (if line == [] then [] else [line])
    else if s[0] == '\n' then [WithoutReturn(line)] + LinesFrom(s[1..], [])
    else LinesFrom(s[1..], line + [s[0]])
  }

  function WithoutReturn(line: string): string {
    if line != [] && line[|line| - 1] == '\r' then line[..|line| - 1] else line
  }

  /** A file with one argument per line. */
  function Written(args: seq<string>): string {
    if args == [] then [] else args[0] + ['\n'] + Written(args[1..])
  }

  lemma {:induction false} LinesOfLine(a: string, line: string, s: string)
    requires '\n' !in a
    ensures LinesFrom(a + ['\n'] + s, line) == [WithoutReturn(line + a)] + LinesFrom(s, [])
    decreases |a|
  {
    if a == [] {
      assert [] + ['\n'] + s == ['\n'] + s && line + [] == line;
      assert (['\n'] + s)[1..] == s;
    } else {
      assert a + ['\n'] + s == [a[0]] + (a[1..] + ['\n'] + s);
      assert (a + ['\n'] + s)[1..] == a[1..] + ['\n'] + s;
      LinesOfLine(a[1..], line + [a[0]], s);
      assert line + [a[0]] + a[1..] == line + a;
    }
  }

  /** Arguments written one per line are read back, as long as they hold no newline
      and do not end in a carriage return. */
  lemma {:induction false} LinesOfWritten(args: seq<string>)
    requires forall i :: 0 <= i < |args| ==> '\n' !in args[i] && WithoutReturn(args[i]) == args[i]
    ensures Lines(Written(args)) == args
  {
    if args != [] {
      LinesOfLine(args[0], [], Written(args[1..]));
      assert [] + args[0] == args[0];
      LinesOfWritten(args[1..]);
    }
  }

  function LineEnd(returned: bool): string {
    if returned then "\r\n" else "\n"
  }

  /** Lines that end with or without a carriage return. */
  function TextOf(lines: seq<(string, bool)>): string {
    if lines == [] then [] else lines[0].0 + LineEnd(lines[0].1) + TextOf(lines[1..])
  }

  function Contents(lines: seq<(string, bool)>): seq<string> {
    seq(|lines|, i requires 0 <= i < |lines| => lines[i].0)
  }

  /** The line end is no part of an argument, and the last line needs none; a carriage
      return that no newline follows is kept. */
  lemma {:induction false} LinesOfText(lines: seq<(string, bool)>, last: string)
    requires forall i :: 0 <= i < |lines| ==> '\n' !in lines[i].0
    requires forall i :: 0 <= i < |lines| && !lines[i].1 && lines[i].0 != [] ==>
               lines[i].0[|lines[i].0| - 1] != '\r'
    requires '\n' !in last
    ensures Lines(TextOf(lines) + last) == Contents(lines) + if last == "" then [] else [last]
  {
    if lines == [] {
      assert TextOf(lines) + last == last;
      UnendedLine(last, []);
      assert [] + last == last;
    } else {
      FirstLine(lines[0].0, lines[0].1, TextOf(lines[1..]) + last);
      LinesOfText(lines[1..], last);
      TextOfFirst(lines, last);
    }
  }

  lemma TextOfFirst(lines: seq<(string, bool)>, last: string)
    requires lines != []
    ensures TextOf(lines) + last == lines[0].0 + LineEnd(lines[0].1) + (TextOf(lines[1..]) + last)
    ensures Contents(lines) == [lines[0].0] + Contents(lines[1..])
  {
    Regrouped(lines[0].0 + LineEnd(lines[0].1), TextOf(lines[1..]), last);
  }

  lemma Regrouped(a: string, b: string, c: string)
    ensures a + b + c == a + (b + c)
  {
  }

  lemma {:induction false} FirstLine(text: string, returned: bool, rest: string)
    requires '\n' !in text && (!returned && text != [] ==> text[|text| - 1] != '\r')
    ensures Lines(text + LineEnd(returned) + rest) == [text] + Lines(rest)
  {
    var line := if returned then text + ['\r'] else text;
    assert text + LineEnd(returned) + rest == line + ['\n'] + rest;
    LinesOfLine(line, [], rest);
    assert [] + line == line && WithoutReturn(line) == text;
  }

  lemma {:induction false} UnendedLine(last: string, line: string)
    requires '\n' !in last
    ensures LinesFrom(last, line) == if line + last == "" then [] else [line + last]
    decreases |last|
  {
    if last != [] {
      UnendedLine(last[1..], line + [last[0]]);
      assert line + [last[0]] + last[1..] == line + last;
    } else {
      assert line + last == line;
    }
  }

  // ---- What an expansion is ---------------------------------------------------

  predicate IsReference(param: string, prefix: string) {
    prefix <= param
  }

  /** The prefix alone refers to the file whose name is empty. */
  lemma ReferenceExactly(param: string, prefix: string)
    ensures IsReference(param, prefix) <==> exists path :: param == prefix + path
    ensures IsReference(prefix, prefix) && prefix[|prefix|..] == ""
  {
    if IsReference(param, prefix) {
      assert param == prefix + param[|prefix|..];
    }
  }

  ghost predicate Expands(files: Files, prefix: string, param: string, tree: Tree)
    decreases tree
  {
    if IsReference(param, prefix) then
      && tree.Include?
      && tree.path == param[|prefix|..]
      && tree.path in files
      && ExpandAll(files, prefix, Lines(files[tree.path]), tree.lines)
    else tree == Word(param)
  }

  ghost predicate ExpandAll(files: Files, prefix: string, params: seq<string>, trees: seq<Tree>)
    decreases trees
  {
    && |params| == |trees|
    && (params != [] ==>
          && Expands(files, prefix, params[0], trees[0])
          && ExpandAll(files, prefix, params[1..], trees[1..]))
  }

  /** The arguments of an expansion, in order. */
  function Leaves(tree: Tree): seq<string>
    decreases tree
  {
    match tree
    case Word(arg) => [arg]
    case Include(_, lines) => AllLeaves(lines)
  }

  function AllLeaves(trees: seq<Tree>): seq<string>
    decreases trees
  {
    if trees == [] then [] else Leaves(trees[0]) + AllLeaves(trees[1..])
  }

  /** All references of an expansion, in the order in which they are met. */
  function Paths(tree: Tree): seq<string>
    decreases tree
  {
    match tree
    case Word(_) => []
    case Include(path, lines) => [path] + AllPaths(lines)
  }

  function AllPaths(trees: seq<Tree>): seq<string>
    decreases trees
  {
    if trees == [] then [] else Paths(trees[0]) + AllPaths(trees[1..])
  }

  /** No file is referenced twice, and none that was visited before. */
  ghost predicate Fresh(paths: seq<string>, visited: set<string>) {
    && (forall i :: 0 <= i < |paths| ==> paths[i] !in visited)
    && (forall i, j :: 0 <= i < j < |paths| ==> paths[i] != paths[j])
  }

  function SetOf(paths: seq<string>): set<string> {
    set p | p in paths
  }

  lemma FreshSplit(a: seq<string>, b: seq<string>, visited: set<string>)
    ensures Fresh(a + b, visited) <==> Fresh(a, visited) && Fresh(b, visited + SetOf(a))
    ensures visited + SetOf(a + b) == visited + SetOf(a) + SetOf(b)
  {
    var c := a + b;
    if Fresh(c, visited) {
      forall i | 0 <= i < |a| ensures a[i] !in visited {
        assert c[i] == a[i];
      }
      forall i, j | 0 <= i < j < |a| ensures a[i] != a[j] {
        assert c[i] == a[i] && c[j] == a[j];
      }
      forall i | 0 <= i < |b| ensures b[i] !in visited + SetOf(a) {
        forall j | 0 <= j < |a| ensures a[j] != b[i] {
          assert c[j] == a[j] && c[|a| + i] == b[i];
        }
        assert c[|a| + i] == b[i];
      }
      forall i, j | 0 <= i < j < |b| ensures b[i] != b[j] {
        assert c[|a| + i] == b[i] && c[|a| + j] == b[j];
      }
    }
  }

  /** An argument list expands in one way at most. */
  lemma {:induction false} ExpansionIsUnique(files: Files, prefix: string, params: seq<string>,
                                             a: seq<Tree>, b: seq<Tree>)
    requires ExpandAll(files, prefix, params, a) && ExpandAll(files, prefix, params, b)
    ensures a == b
    decreases a
  {
    if params != [] {
      if IsReference(params[0], prefix) {
        ExpansionIsUnique(files, prefix, Lines(files[a[0].path]), a[0].lines, b[0].lines);
      }
      ExpansionIsUnique(files, prefix, params[1..], a[1..], b[1..]);
    }
  }

  /** There is an expansion in which no file is referenced twice. */
  ghost predicate Expandable(files: Files, prefix: string, params: seq<string>, visited: set<string>) {
    exists trees :: ExpandAll(files, prefix, params, trees) && Fresh(AllPaths(trees), visited)
  }

  lemma ExpandableCons(files: Files, prefix: string, param: string, rest: seq<string>, tree: Tree, visited: set<string>)
    requires Expands(files, prefix, param, tree) && Fresh(Paths(tree), visited)
    ensures Expandable(files, prefix, [param] + rest, visited) <==>
            Expandable(files, prefix, rest, visited + SetOf(Paths(tree)))
  {
    var params := [param] + rest;
    assert params[1..] == rest;
    if Expandable(files, prefix, rest, visited + SetOf(Paths(tree))) {
      var trees: seq<Tree> :| ExpandAll(files, prefix, rest, trees)
                              && Fresh(AllPaths(trees), visited + SetOf(Paths(tree)));
      FreshSplit(Paths(tree), AllPaths(trees), visited);
      assert ([tree] + trees)[1..] == trees;
      assert ExpandAll(files, prefix, params, [tree] + trees);
    }
    if Expandable(files, prefix, params, visited) {
      var trees: seq<Tree> :| ExpandAll(files, prefix, params, trees) && Fresh(AllPaths(trees), visited);
      assert [trees[0]][1..] == [] && [tree][1..] == [];
      assert ExpandAll(files, prefix, [param], [trees[0]]) && ExpandAll(files, prefix, [param], [tree]);
      ExpansionIsUnique(files, prefix, [param], [trees[0]], [tree]);
      FreshSplit(Paths(tree), AllPaths(trees[1..]), visited);
    }
  }

  /** If the first argument alone cannot be expanded, the list cannot. */
  lemma NotExpandableCons(files: Files, prefix: string, param: string, rest: seq<string>, visited: set<string>)
    requires !Expandable(files, prefix, [param], visited)
    ensures !Expandable(files, prefix, [param] + rest, visited)
  {
    if Expandable(files, prefix, [param] + rest, visited) {
      var trees: seq<Tree> :| ExpandAll(files, prefix, [param] + rest, trees) && Fresh(AllPaths(trees), visited);
      FreshSplit(Paths(trees[0]), AllPaths(trees[1..]), visited);
      OneTree(files, prefix, param, trees[0], visited);
    }
  }

  lemma OneTree(files: Files, prefix: string, param: string, tree: Tree, visited: set<string>)
    requires Expands(files, prefix, param, tree) && Fresh(Paths(tree), visited)
    ensures Expandable(files, prefix, [param], visited)
  {
    assert [param][1..] == [] && [tree][1..] == [];
    assert AllPaths([tree]) == Paths(tree) + [];
    assert Paths(tree) + [] == Paths(tree);
    assert ExpandAll(files, prefix, [param], [tree]);
  }

  // ---- The program -------------------------------------------------------------

  /** The vector and the set that the functions fill through mutable references. */
  class Expansion {
    const files: Files
    const prefix: string
    var out: seq<string>
    var visited: set<string>

    constructor (files: Files, prefix: string)
      ensures this.files == files && this.prefix == prefix && out == [] && visited == {}
    {
      this.files, this.prefix := files, prefix;
      out, visited := [], {};
    }

    method ReadParamFile(path: string) returns (ok: bool, ghost lines: seq<Tree>)
      modifies this
      ensures ok <==> path !in old(visited) && path in files
                      && Expandable(files, prefix, Lines(files[path]), old(visited) + {path})
      ensures ok ==> ExpandAll(files, prefix, Lines(files[path]), lines)
                     && Fresh(AllPaths(lines), old(visited) + {path})
                     && out == old(out) + AllLeaves(lines)
                     && visited == old(visited) + {path} + SetOf(AllPaths(lines))
      decreases files.Keys - visited, 1
    {
      lines := [];
      if path in visited {
        return false, lines;
      }
      visited := visited + {path};
      if path !in files {
        return false, lines;
      }
      ok, lines := ExpandLines(Lines(files[path]));
    }

    /** The loop over lines, and over command line arguments. */
    method ExpandLines(params: seq<string>) returns (ok: bool, ghost trees: seq<Tree>)
      modifies this
      ensures ok <==> Expandable(files, prefix, params, old(visited))
      ensures ok ==> ExpandAll(files, prefix, params, trees)
                     && Fresh(AllPaths(trees), old(visited))
                     && out == old(out) + AllLeaves(trees)
                     && visited == old(visited) + SetOf(AllPaths(trees))
      decreases files.Keys - visited, 3
    {
      trees := [];
      ok := true;
      EmptyList(files, prefix, visited);
      assert params[0..] == params;
      for i := 0 to |params|
        invariant ok && old(visited) <= visited
        invariant ExpandAll(files, prefix, params[..i], trees)
        invariant Fresh(AllPaths(trees), old(visited))
        invariant out == old(out) + AllLeaves(trees)
        invariant visited == old(visited) + SetOf(AllPaths(trees))
        invariant Expandable(files, prefix, params, old(visited)) <==> Expandable(files, prefix, params[i..], visited)
      {
        ghost var tree, before := Word(""), visited;
        ok, tree := ExpandSingleParam(params[i]);
        assert params[i..] == [params[i]] + params[i + 1..];
        if !ok {
          NotExpandableCons(files, prefix, params[i], params[i + 1..], before);
          return;
        }
        ExpandableCons(files, prefix, params[i], params[i + 1..], tree, before);
        AppendTree(files, prefix, params[..i], trees, params[i], tree, old(visited));
        assert params[..i + 1] == params[..i] + [params[i]];
        trees := trees + [tree];
      }
      assert params[..|params|] == params;
      EmptyList(files, prefix, visited);
      assert params[|params|..] == [];
    }

    method ExpandSingleParam(param: string) returns (ok: bool, ghost tree: Tree)
      modifies this
      ensures ok <==> Expandable(files, prefix, [param], old(visited))
      ensures ok ==> Expands(files, prefix, param, tree)
                     && Fresh(Paths(tree), old(visited))
                     && out == old(out) + Leaves(tree)
                     && visited == old(visited) + SetOf(Paths(tree))
      decreases files.Keys - visited, 2
    {
      if IsReference(param, prefix) {
        ghost var lines: seq<Tree>;
        ok, lines := ReadParamFile(param[|prefix|..]);
        ReferenceExpands(files, prefix, param, old(visited));
        tree := Include(param[|prefix|..], lines);
        if ok {
          FreshSplit([param[|prefix|..]], AllPaths(lines), old(visited));
          assert SetOf([param[|prefix|..]]) == {param[|prefix|..]};
        }
      } else {
        out := out + [param];
        ok, tree := true, Word(param);
        OneTree(files, prefix, param, tree, visited);
      }
    }
  }

  lemma EmptyList(files: Files, prefix: string, visited: set<string>)
    ensures Expandable(files, prefix, [], visited)
  {
    assert ExpandAll(files, prefix, [], []) && Fresh(AllPaths([]), visited);
  }

  lemma ReferenceExpands(files: Files, prefix: string, param: string, visited: set<string>)
    requires IsReference(param, prefix)
    ensures var path := param[|prefix|..];
            Expandable(files, prefix, [param], visited) <==>
              path !in visited && path in files && Expandable(files, prefix, Lines(files[path]), visited + {path})
  {
    var path := param[|prefix|..];
    assert SetOf([path]) == {path};
    if Expandable(files, prefix, [param], visited) {
      var trees: seq<Tree> :| ExpandAll(files, prefix, [param], trees) && Fresh(AllPaths(trees), visited);
      assert Expands(files, prefix, param, trees[0]);
      FreshSplit(Paths(trees[0]), AllPaths(trees[1..]), visited);
      FreshSplit([path], AllPaths(trees[0].lines), visited);
      assert [path][0] !in visited;
    }
    if path !in visited && path in files && Expandable(files, prefix, Lines(files[path]), visited + {path}) {
      var lines: seq<Tree> :| ExpandAll(files, prefix, Lines(files[path]), lines)
                              && Fresh(AllPaths(lines), visited + {path});
      FreshSplit([path], AllPaths(lines), visited);
      OneTree(files, prefix, param, Include(path, lines), visited);
    }
  }

  lemma {:induction false} AllLeavesAppend(trees: seq<Tree>, tree: Tree)
    ensures AllLeaves(trees + [tree]) == AllLeaves(trees) + Leaves(tree)
  {
    if trees == [] {
      assert [] + [tree] == [tree] && [tree][1..] == [];
    } else {
      assert (trees + [tree])[1..] == trees[1..] + [tree];
      AllLeavesAppend(trees[1..], tree);
    }
  }

  lemma {:induction false} AllPathsAppend(trees: seq<Tree>, tree: Tree)
    ensures AllPaths(trees + [tree]) == AllPaths(trees) + Paths(tree)
  {
    if trees == [] {
      assert [] + [tree] == [tree] && [tree][1..] == [];
    } else {
      assert (trees + [tree])[1..] == trees[1..] + [tree];
      AllPathsAppend(trees[1..], tree);
    }
  }

  lemma {:induction false} ExpandAllAppend(files: Files, prefix: string, params: seq<string>, trees: seq<Tree>,
                                           param: string, tree: Tree)
    requires ExpandAll(files, prefix, params, trees) && Expands(files, prefix, param, tree)
    ensures ExpandAll(files, prefix, params + [param], trees + [tree])
    decreases |params|
  {
    assert (params + [param])[1..] == if params == [] then [] else params[1..] + [param];
    assert (trees + [tree])[1..] == if trees == [] then [] else trees[1..] + [tree];
    if params != [] {
      ExpandAllAppend(files, prefix, params[1..], trees[1..], param, tree);
    }
  }

  lemma AppendTree(files: Files, prefix: string, params: seq<string>, trees: seq<Tree>, param: string, tree: Tree,
                   visited: set<string>)
    requires ExpandAll(files, prefix, params, trees) && Expands(files, prefix, param, tree)
    requires Fresh(AllPaths(trees), visited) && Fresh(Paths(tree), visited + SetOf(AllPaths(trees)))
    ensures ExpandAll(files, prefix, params + [param], trees + [tree])
    ensures AllLeaves(trees + [tree]) == AllLeaves(trees) + Leaves(tree)
    ensures Fresh(AllPaths(trees + [tree]), visited)
    ensures visited + SetOf(AllPaths(trees + [tree])) == visited + SetOf(AllPaths(trees)) + SetOf(Paths(tree))
  {
    ExpandAllAppend(files, prefix, params, trees, param, tree);
    AllLeavesAppend(trees, tree);
    AllPathsAppend(trees, tree);
    FreshSplit(AllPaths(trees), Paths(tree), visited);
  }

  /** `expand_params`: it always ends, also for files that refer to each other. It
      succeeds exactly when every referenced file can be read and none is referenced
      twice, and then yields the arguments of the expansion in order. */
  method ExpandParams(files: Files, args: seq<string>) returns (r: Result<seq<string>>, ghost trees: seq<Tree>)
    ensures r.Ok? <==> Expandable(files, "@", args, {})
    ensures r.Ok? ==> ExpandAll(files, "@", args, trees) && Fresh(AllPaths(trees), {}) && r.value == AllLeaves(trees)
  {
    var expansion := new Expansion(files, "@");
    var ok: bool;
    ok, trees := expansion.ExpandLines(args);
    r := if ok then Ok(expansion.out) else Err;
  }
}
