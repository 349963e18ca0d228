/** `clean_path`: removing `..` from a path without changing what it names, in
    a file system with symlinks.
 */
module CleanPath {
  type Name = string

  /** A component of a pathname. A trailing slash counts as a final `Cur`, as in
      section 4.13 of POSIX.1-2017 Base Definitions. */
  datatype Comp = Cur | Up | Name(name: Name)

  datatype Inode =
    | Directory
    | Regular
    | Link(absolute: bool, target: seq<Comp>)

  /** Where a node really is: the names from the root down, no symlinks. */
  type Place = seq<Name>

  type FileSystem = map<Place, Inode>

  datatype Failure = NotFound | NotDirectory | Loop | NotAbsolute

  datatype Result<+T> = Ok(value: T) | Err(error: Failure)

  function ParentPlace(p: Place): Place {
    if p == [] then [] else p[..|p| - 1]
  }

  predicate IsDirectory(fs: FileSystem, p: Place) {
    p in fs && fs[p].Directory?
  }

  /** The root is a directory, and everything else is inside one. */
  ghost predicate Valid(fs: FileSystem) {
    && IsDirectory(fs, [])
    && forall p {:trigger ParentPlace(p)} :: p in fs && p != [] ==> IsDirectory(fs, ParentPlace(p))
  }

  datatype Spot = Spot(place: Place, hops: nat)

  /** Pathname resolution from `place`, following symlinks everywhere, with at most
      `hops` symlinks followed. It returns the place reached and the hops left. */
  function Walk(fs: FileSystem, place: Place, comps: seq<Comp>, hops: nat): Result<Spot>
    decreases hops, |comps|
  {
    if comps == [] then Ok(Spot(place, hops))
    else if !IsDirectory(fs, place) then Err(NotDirectory)
    else
      match comps[0]
      case Cur => Walk(fs, place, comps[1..], hops)
      case Up => Walk(fs, ParentPlace(place), comps[1..], hops)
      case Name(n) =>
        var child := place + [n];
        if child !in fs then Err(NotFound)
        else if fs[child].Link? then
          if hops == 0 then Err(Loop)
          else Walk(fs, if fs[child].absolute then [] else place, fs[child].target + comps[1..], hops - 1)
        else Walk(fs, child, comps[1..], hops)
  }

  /** What an absolute path names: the place, or how resolution fails. */
  function Resolve(fs: FileSystem, comps: seq<Comp>, hops: nat): Result<Place> {
    match Walk(fs, [], comps, hops)
    case Ok(spot) => Ok(spot.place)
    case Err(e) => Err(e)
  }

  /** `lstat` of an absolute path that ends in a name: a final symlink is not followed. */
  function LStat(fs: FileSystem, comps: seq<Comp>, hops: nat): Result<Inode>
    requires comps != [] && comps[|comps| - 1].Name?
  {
    match Walk(fs, [], comps[..|comps| - 1], hops)
    case Err(e) => Err(e)
    case Ok(spot) =>
      var child := spot.place + [comps[|comps| - 1].name];
      if !IsDirectory(fs, spot.place) then Err(NotDirectory)
      else if child !in fs then Err(NotFound)
      else Ok(fs[child])
  }

  /** What `Path::components` yields for an absolute path: no `.`, no trailing slash. */
  function Components(raw: seq<Comp>): seq<Comp> {
    if raw == [] then []
    else (if raw[0].Cur? then [] else [raw[0]]) + Components(raw[1..])
  }

  predicate Clean(fs: FileSystem, parts: seq<Comp>, hops: nat) {
    && (forall i :: 0 <= i < |parts| ==> !parts[i].Cur?)
    && (forall i :: 0 <= i < |parts| && parts[i].Up? ==> i > 0 && KeptUp(fs, parts, i, hops))
  }

  /** A `..` stays only behind another one, or behind something that exists and is
      not a directory. */
  predicate KeptUp(fs: FileSystem, parts: seq<Comp>, i: nat, hops: nat)
    requires 0 < i < |parts|
  {
    || parts[i - 1].Up?
    || (parts[i - 1].Name? && LStat(fs, parts[..i], hops).Ok? && !LStat(fs, parts[..i], hops).value.Directory?)
  }

  /** One component of the loop in `clean_path`. */
  function Step(fs: FileSystem, parts: seq<Comp>, c: Comp, hops: nat): Result<seq<Comp>> {
    match c
    case Cur => Ok(parts)
    case Name(_) => Ok(parts + [c])
    case Up =>
      if parts == [] then Ok(parts)
      else if !parts[|parts| - 1].Name? then Ok(parts + [Up])
      else
        match LStat(fs, parts, hops)
        case Err(e) => Err(e)
        case Ok(inode) => Ok(if inode.Directory? then parts[..|parts| - 1] else parts + [Up])
  }

  function CleanedFrom(fs: FileSystem, parts: seq<Comp>, todo: seq<Comp>, hops: nat): Result<seq<Comp>>
    decreases |todo|
  {
    if todo == [] then Ok(parts)
    else
      match Step(fs, parts, todo[0], hops)
      case Err(e) => Err(e)
      case Ok(next) => CleanedFrom(fs, next, todo[1..], hops)
  }

  /** The function the loop of `clean_path` computes. */
  function Cleaned(fs: FileSystem, comps: seq<Comp>, hops: nat): Result<seq<Comp>> {
    CleanedFrom(fs, [], comps, hops)
  }

  /** `clean_path`. The result resolves like the components it was given and keeps
      only those `..` that must stay. */
  method CleanPath(fs: FileSystem, isAbsolute: bool, raw: seq<Comp>, hops: nat) returns (r: Result<seq<Comp>>)
    requires Valid(fs)
    ensures !isAbsolute ==> r == Err(NotAbsolute)
    ensures isAbsolute ==> r == Cleaned(fs, Components(raw), hops)
    ensures r.Ok? ==> Walk(fs, [], r.value, hops) == Walk(fs, [], Components(raw), hops)
    ensures r.Ok? ==> Clean(fs, r.value, hops)
    ensures isAbsolute && r.Err? ==> Resolve(fs, raw, hops) == Err(r.error)
    ensures isAbsolute ==> (r.Ok? <==> UpsStandOnPaths(fs, Components(raw), 0, hops))
  {
    if !isAbsolute {
      return Err(NotAbsolute);
    }
    SucceedsExactly(fs, raw, hops);
    var parts: seq<Comp> := [];
    var todo := Components(raw);
    while todo != []
      invariant CleanedFrom(fs, parts, todo, hops) == Cleaned(fs, Components(raw), hops)
      decreases |todo|
    {
      var component := todo[0];
      todo := todo[1..];
      match component
      case Cur =>
      case Up =>
        if parts == [] {
          continue;
        }
        if !parts[|parts| - 1].Name? {
          parts := parts + [Up];
        } else {
          var metadata := LStat(fs, parts, hops);
          if metadata.Err? {
            FailsLikeResolution(fs, raw, hops);
            return Err(metadata.error);
          }
          if metadata.value.Directory? {
            parts := parts[..|parts| - 1];
          } else {
            parts := parts + [Up];
          }
        }
      case Name(_) =>
        parts := parts + [component];
    }
    ComponentsNoCur(raw);
    CleanedIsClean(fs, [], Components(raw), hops);
    assert [] + Components(raw) == Components(raw);
    r := Ok(parts);
  }

  lemma StepIsRight(fs: FileSystem, parts: seq<Comp>, c: Comp, hops: nat)
    requires Valid(fs) && Clean(fs, parts, hops) && Step(fs, parts, c, hops).Ok? && !c.Cur?
    ensures var next := Step(fs, parts, c, hops).value;
            Clean(fs, next, hops) && Walk(fs, [], next, hops) == Walk(fs, [], parts + [c], hops)
  {
    if c.Up? && parts == [] {
      assert [Up][1..] == [];
      assert parts + [c] == [Up];
    } else if c.Up? && parts[|parts| - 1].Name? && LStat(fs, parts, hops).value.Directory? {
      PopIsUp(fs, parts, hops);
      ShorterIsClean(fs, parts, hops);
    } else {
      assert (parts + [c])[..|parts|] == parts;
      KeepsClean(fs, parts, c, hops);
    }
  }

  lemma {:induction false} CleanedIsClean(fs: FileSystem, parts: seq<Comp>, todo: seq<Comp>, hops: nat)
    requires Valid(fs) && Clean(fs, parts, hops) && CleanedFrom(fs, parts, todo, hops).Ok?
    requires forall i :: 0 <= i < |todo| ==> !todo[i].Cur?
    ensures var r := CleanedFrom(fs, parts, todo, hops).value;
            Clean(fs, r, hops) && Walk(fs, [], r, hops) == Walk(fs, [], parts + todo, hops)
    decreases |todo|
  {
    if todo == [] {
      assert parts + todo == parts;
    } else {
      var c, rest := todo[0], todo[1..];
      StepIsRight(fs, parts, c, hops);
      var next := Step(fs, parts, c, hops).value;
      CleanedIsClean(fs, next, rest, hops);
      WalkAppend(fs, [], next, rest, hops);
      WalkAppend(fs, [], parts + [c], rest, hops);
      assert parts + todo == parts + [c] + rest;
    }
  }

  /** Where a step fails, resolution of the path fails in the same way. */
  lemma StepFails(fs: FileSystem, parts: seq<Comp>, c: Comp, rest: seq<Comp>, hops: nat)
    requires Step(fs, parts, c, hops).Err?
    ensures Walk(fs, [], parts + [c] + rest, hops) == Err(Step(fs, parts, c, hops).error)
  {
    var front, last := parts[..|parts| - 1], parts[|parts| - 1];
    assert parts == front + [last];
    WalkAppend(fs, [], front, [last], hops);
    assert [last][1..] == [];
    WalkAppend(fs, [], parts, [c] + rest, hops);
    assert parts + ([c] + rest) == parts + [c] + rest;
  }

  lemma {:induction false} CleaningFails(fs: FileSystem, parts: seq<Comp>, todo: seq<Comp>, hops: nat)
    requires Valid(fs) && Clean(fs, parts, hops) && CleanedFrom(fs, parts, todo, hops).Err?
    requires forall i :: 0 <= i < |todo| ==> !todo[i].Cur?
    ensures Walk(fs, [], parts + todo, hops) == Err(CleanedFrom(fs, parts, todo, hops).error)
    decreases |todo|
  {
    var c, rest := todo[0], todo[1..];
    assert parts + todo == parts + [c] + rest;
    if Step(fs, parts, c, hops).Err? {
      StepFails(fs, parts, c, rest, hops);
    } else {
      StepIsRight(fs, parts, c, hops);
      var next := Step(fs, parts, c, hops).value;
      CleaningFails(fs, next, rest, hops);
      WalkAppend(fs, [], next, rest, hops);
      WalkAppend(fs, [], parts + [c], rest, hops);
    }
  }

  /** Whenever cleaning fails, resolving the path fails, with the same error. */
  lemma FailsLikeResolution(fs: FileSystem, raw: seq<Comp>, hops: nat)
    requires Valid(fs)
    ensures Cleaned(fs, Components(raw), hops).Err? ==>
              Resolve(fs, raw, hops) == Err(Cleaned(fs, Components(raw), hops).error)
  {
    if Cleaned(fs, Components(raw), hops).Err? {
      ComponentsNoCur(raw);
      CleaningFails(fs, [], Components(raw), hops);
      assert [] + Components(raw) == Components(raw);
      DotsDropped(fs, [], raw, hops);
    }
  }

  /** From the `n`-th component on, every name that a `..` follows can be looked up: the
      path up to it exists, a final symlink in it not followed. */
  predicate UpsStandOnPaths(fs: FileSystem, comps: seq<Comp>, n: nat, hops: nat) {
    forall i :: n <= i < |comps| && i > 0 && comps[i].Up? && comps[i - 1].Name? ==> LStat(fs, comps[..i], hops).Ok?
  }

  /** What is left of the components `done` after cleaning: the same walk, the last name
      still last, and a name that a dropped `..` uncovered exists. */
  ghost predicate Keeps(fs: FileSystem, parts: seq<Comp>, done: seq<Comp>, hops: nat) {
    && Clean(fs, parts, hops)
    && Walk(fs, [], parts, hops) == Walk(fs, [], done, hops)
    && (if done != [] && done[|done| - 1].Name? then
          && parts != [] && parts[|parts| - 1] == done[|done| - 1]
          && Walk(fs, [], parts[..|parts| - 1], hops) == Walk(fs, [], done[..|done| - 1], hops)
        else parts == [] || parts[|parts| - 1].Up? || Walk(fs, [], parts, hops).Ok?)
  }

  /** A name that resolves can be looked up. */
  lemma ResolvedExists(fs: FileSystem, parts: seq<Comp>, hops: nat)
    requires parts != [] && parts[|parts| - 1].Name? && Walk(fs, [], parts, hops).Ok?
    ensures LStat(fs, parts, hops).Ok?
  {
    var front, last := parts[..|parts| - 1], parts[|parts| - 1];
    assert parts == front + [last];
    WalkAppend(fs, [], front, [last], hops);
  }

  lemma StepSucceedsExactly(fs: FileSystem, parts: seq<Comp>, done: seq<Comp>, c: Comp, hops: nat)
    requires Valid(fs) && Keeps(fs, parts, done, hops) && !c.Cur?
    ensures Step(fs, parts, c, hops).Ok? <==>
            (c.Up? && done != [] && done[|done| - 1].Name? ==> LStat(fs, done, hops).Ok?)
    ensures Step(fs, parts, c, hops).Ok? ==> Keeps(fs, Step(fs, parts, c, hops).value, done + [c], hops)
  {
    if c.Up? && parts != [] && parts[|parts| - 1].Name? && !(done != [] && done[|done| - 1].Name?) {
      ResolvedExists(fs, parts, hops);
    }
    if Step(fs, parts, c, hops).Ok? {
      var next := Step(fs, parts, c, hops).value;
      StepIsRight(fs, parts, c, hops);
      WalkAppend(fs, [], parts, [c], hops);
      WalkAppend(fs, [], done, [c], hops);
      assert (done + [c])[..|done|] == done;
      if c.Name? {
        assert next[..|parts|] == parts;
      }
    }
  }

  lemma {:induction false} CleaningSucceedsExactly(fs: FileSystem, parts: seq<Comp>, done: seq<Comp>, todo: seq<Comp>,
                                                   hops: nat)
    requires Valid(fs) && Keeps(fs, parts, done, hops)
    requires forall i :: 0 <= i < |todo| ==> !todo[i].Cur?
    ensures CleanedFrom(fs, parts, todo, hops).Ok? <==> UpsStandOnPaths(fs, done + todo, |done|, hops)
    decreases |todo|
  {
    if todo != [] {
      var c, rest, all := todo[0], todo[1..], done + todo;
      StepSucceedsExactly(fs, parts, done, c, hops);
      assert all[|done|] == c && all[..|done|] == done;
      assert done != [] ==> all[|done| - 1] == done[|done| - 1];
      if Step(fs, parts, c, hops).Ok? {
        CleaningSucceedsExactly(fs, Step(fs, parts, c, hops).value, done + [c], rest, hops);
        assert done + [c] + rest == all;
      }
    }
  }

  /** Cleaning succeeds exactly if what stands before each `..` exists. */
  lemma SucceedsExactly(fs: FileSystem, raw: seq<Comp>, hops: nat)
    requires Valid(fs)
    ensures Cleaned(fs, Components(raw), hops).Ok? <==> UpsStandOnPaths(fs, Components(raw), 0, hops)
  {
    ComponentsNoCur(raw);
    CleaningSucceedsExactly(fs, [], [], Components(raw), hops);
    assert [] + Components(raw) == Components(raw);
  }

  lemma KeepsClean(fs: FileSystem, parts: seq<Comp>, c: Comp, hops: nat)
    requires Clean(fs, parts, hops) && !c.Cur?
    requires c.Up? ==> parts != [] && KeptUp(fs, parts + [c], |parts|, hops)
    ensures Clean(fs, parts + [c], hops)
  {
    forall i | 0 <= i < |parts| + 1 && (parts + [c])[i].Up? ensures i > 0 && KeptUp(fs, parts + [c], i, hops) {
      if i < |parts| {
        assert parts[i].Up?;
        assert (parts + [c])[..i] == parts[..i];
      }
    }
  }

  lemma ShorterIsClean(fs: FileSystem, parts: seq<Comp>, hops: nat)
    requires Clean(fs, parts, hops) && parts != []
    ensures Clean(fs, parts[..|parts| - 1], hops)
  {
    var short := parts[..|parts| - 1];
    forall i | 0 <= i < |short| && short[i].Up? ensures i > 0 && KeptUp(fs, short, i, hops) {
      assert parts[i].Up?;
      assert short[..i] == parts[..i];
    }
  }

  /** Resolving `a` and then `b` from there is resolving `a` followed by `b`. */
  lemma {:induction false} WalkAppend(fs: FileSystem, place: Place, a: seq<Comp>, b: seq<Comp>, hops: nat)
    ensures Walk(fs, place, a + b, hops) ==
            match Walk(fs, place, a, hops)
            case Ok(spot) => Walk(fs, spot.place, b, spot.hops)
            case Err(e) => Err(e)
    decreases hops, |a|
  {
    if a == [] {
      assert a + b == b;
    } else {
      assert (a + b)[0] == a[0] && (a + b)[1..] == a[1..] + b;
      if IsDirectory(fs, place) {
        match a[0]
        case Cur => WalkAppend(fs, place, a[1..], b, hops);
        case Up => WalkAppend(fs, ParentPlace(place), a[1..], b, hops);
        case Name(n) =>
          var child := place + [n];
          if child in fs {
            if fs[child].Link? {
              if hops > 0 {
                var start := if fs[child].absolute then [] else place;
                WalkAppend(fs, start, fs[child].target + a[1..], b, hops - 1);
                assert fs[child].target + (a[1..] + b) == fs[child].target + a[1..] + b;
              }
            } else {
              WalkAppend(fs, child, a[1..], b, hops);
            }
          }
      }
    }
  }

  /** Behind a real directory, `name/..` leads back to where it started. */
  lemma PopIsUp(fs: FileSystem, parts: seq<Comp>, hops: nat)
    requires parts != [] && parts[|parts| - 1].Name?
    requires LStat(fs, parts, hops).Ok? && LStat(fs, parts, hops).value.Directory?
    ensures Walk(fs, [], parts + [Up], hops) == Walk(fs, [], parts[..|parts| - 1], hops)
  {
    var front, last := parts[..|parts| - 1], parts[|parts| - 1];
    assert parts == front + [last];
    assert parts + [Up] == front + [last, Up];
    WalkAppend(fs, [], front, [last, Up], hops);
    var spot := Walk(fs, [], front, hops).value;
    var child := spot.place + [last.name];
    assert [last, Up][1..] == [Up] && [Up][1..] == [];
    assert ParentPlace(child) == spot.place;
    assert Walk(fs, spot.place, [last, Up], spot.hops) == Walk(fs, child, [Up], spot.hops);
    assert Walk(fs, child, [Up], spot.hops) == Walk(fs, spot.place, [], spot.hops);
  }

  lemma {:induction false} ComponentsNoCur(raw: seq<Comp>)
    ensures forall i :: 0 <= i < |Components(raw)| ==> !Components(raw)[i].Cur?
  {
    if raw != [] {
      ComponentsNoCur(raw[1..]);
    }
  }

  predicate EndsWithCur(raw: seq<Comp>) {
    raw != [] && raw[|raw| - 1].Cur?
  }

  /** Dropping every `.` keeps the meaning, except that a trailing `.` or slash no
      longer insists on a directory. */
  lemma {:induction false} DotsDropped(fs: FileSystem, place: Place, raw: seq<Comp>, hops: nat)
    requires IsDirectory(fs, place)
    ensures var plain := Walk(fs, place, Components(raw), hops);
            Walk(fs, place, raw, hops) ==
            if EndsWithCur(raw) && plain.Ok? && !IsDirectory(fs, plain.value.place) then Err(NotDirectory) else plain
    decreases hops, |raw|
  {
    if raw != [] {
      var front, last := raw[..|raw| - 1], raw[|raw| - 1];
      assert raw == front + [last];
      WalkAppend(fs, place, front, [last], hops);
      ComponentsAppend(front, [last]);
      WalkAppend(fs, place, Components(front), Components([last]), hops);
      DotsDropped(fs, place, front, hops);
    }
  }

  lemma {:induction false} ComponentsAppend(a: seq<Comp>, b: seq<Comp>)
    ensures Components(a + b) == Components(a) + Components(b)
  {
    if a == [] {
      assert a + b == b;
    } else {
      assert (a + b)[1..] == a[1..] + b;
      ComponentsAppend(a[1..], b);
    }
  }

  /** `clean_path` preserves meaning: the cleaned path names the same place, or fails
      in the same way, exactly unless the path ended in `.` or a slash and what it
      names is not a directory. */
  lemma CleanedMeansTheSame(fs: FileSystem, raw: seq<Comp>, hops: nat)
    requires Valid(fs) && Cleaned(fs, Components(raw), hops).Ok?
    ensures var q := Cleaned(fs, Components(raw), hops).value;
            && (Resolve(fs, q, hops) == Resolve(fs, raw, hops) <==>
                !(EndsWithCur(raw) && Resolve(fs, q, hops).Ok? && !IsDirectory(fs, Resolve(fs, q, hops).value)))
            && (EndsWithCur(raw) && Resolve(fs, q, hops).Ok? && !IsDirectory(fs, Resolve(fs, q, hops).value) ==>
                Resolve(fs, raw, hops) == Err(NotDirectory))
  {
    ComponentsNoCur(raw);
    CleanedIsClean(fs, [], Components(raw), hops);
    assert [] + Components(raw) == Components(raw);
    DotsDropped(fs, [], raw, hops);
  }

  /** The exception is real: `/file/.` names nothing, `/file` names the file. */
  lemma TrailingDotIsLost(hops: nat)
    ensures var fs: FileSystem := map[[] := Directory, ["file"] := Regular];
            var raw := [Name("file"), Cur];
            && Valid(fs)
            && Cleaned(fs, Components(raw), hops) == Ok([Name("file")])
            && Resolve(fs, [Name("file")], hops) == Ok(["file"])
            && Resolve(fs, raw, hops) == Err(NotDirectory)
  {
    var fs: FileSystem := map[[] := Directory, ["file"] := Regular];
    var raw := [Name("file"), Cur];
    assert ParentPlace(["file"]) == [];
    assert raw[1..] == [Cur] && [Cur][1..] == [];
    assert Components(raw) == [Name("file")];
    assert [Name("file")][1..] == [] && [] + [Name("file")] == [Name("file")];
    assert [] + ["file"] == ["file"];
    assert Walk(fs, [], raw, hops) == Walk(fs, ["file"], [Cur], hops);
    assert Walk(fs, [], [Name("file")], hops) == Walk(fs, ["file"], [], hops);
  }

  /** Cleaning is idempotent: a clean path is returned as it is. */
  lemma CleanedTwice(fs: FileSystem, parts: seq<Comp>, hops: nat)
    requires Clean(fs, parts, hops)
    ensures Components(parts) == parts
    ensures Cleaned(fs, Components(parts), hops) == Ok(parts)
  {
    NothingToDrop(parts);
    assert parts[..0] == [] && parts[0..] == parts;
    CleanStaysFrom(fs, parts, 0, hops);
  }

  lemma {:induction false} NothingToDrop(parts: seq<Comp>)
    requires forall i :: 0 <= i < |parts| ==> !parts[i].Cur?
    ensures Components(parts) == parts
  {
    if parts != [] {
      NothingToDrop(parts[1..]);
    }
  }

  lemma {:induction false} CleanStaysFrom(fs: FileSystem, parts: seq<Comp>, i: nat, hops: nat)
    requires Clean(fs, parts, hops) && i <= |parts|
    ensures CleanedFrom(fs, parts[..i], parts[i..], hops) == Ok(parts)
    decreases |parts| - i
  {
    if i == |parts| {
      assert parts[..i] == parts && parts[i..] == [];
    } else {
      CleanStaysFrom(fs, parts, i + 1, hops);
      assert parts[..i] + [parts[i]] == parts[..i + 1];
      assert parts[i..][0] == parts[i] && parts[i..][1..] == parts[i + 1..];
      if parts[i].Up? {
        assert KeptUp(fs, parts, i, hops);
        assert parts[..i][i - 1] == parts[i - 1];
      }
    }
  }
}
