/** fakefs: simulated file ownership. The tracer simulates `stat` and `chown`
    with an override kept in a user xattr; the preload library answers some calls
    on its own. Ownership on disk never changes.
 */
module Ownership {
  import opened NulList
  import opened Wrappers

  type Id = nat

  datatype Owner = Owner(uid: nat, gid: nat)

  /** Only regular files and directories can hold a user xattr, and not on every file
      system. */
  datatype Kind = RegularOrDir | WithoutXattrs | Link | Other

  /** What the user who runs the tracer and all its processes may do: open a file for
      reading, write its xattrs, and pass for its owner. */
  datatype Access = Access(read: bool, write: bool, owns: bool)

  datatype Node = Node(kind: Kind, owner: Owner, access: Access)

  type Nodes = map<Id, Node>

  predicate Ordinary(n: Node) {
    n.kind.RegularOrDir? || n.kind.WithoutXattrs?
  }

  /** The tracer can read the override. */
  predicate CanShow(n: Node) {
    n.kind.RegularOrDir? && n.access.read
  }

  type Overrides = map<Id, Owner>

  ghost predicate ValidOverrides(nodes: Nodes, o: Overrides) {
    forall id :: id in o ==> id in nodes && nodes[id].kind.RegularOrDir?
  }

  /** How a system call names a file: by an absolute path, by a path relative to the
      working directory or to a directory descriptor, by the descriptor alone, or, with
      `AT_FDCWD` and an empty path, as the working directory. */
  datatype How = ByAbsolute | ByRelative | ByDirFd | ByFd | ByCwd

  /** What a name leads to: in the calling process without and with following a final
      symlink, and in the tracer's open. The latter is another file, or none, for a path
      that means something else in another process and that the tracer does not rewrite. */
  datatype Ref = Ref(entry: Option<Id>, followed: Option<Id>, noFollow: bool, how: How, traced: Option<Id>)

  predicate ValidRef(nodes: Nodes, r: Ref) {
    && (r.entry.Some? ==> r.entry.value in nodes)
    && (r.followed.Some? ==> r.followed.value in nodes && !nodes[r.followed.value].kind.Link? && r.entry.Some?)
    && (r.entry.Some? && !nodes[r.entry.value].kind.Link? ==> r.followed == r.entry)
    && (r.traced.Some? ==> r.traced.value in nodes)
  }

  /** The node a call is about. */
  function Target(r: Ref): Option<Id> {
    if r.noFollow || r.how.ByFd? || r.how.ByCwd? then r.entry else r.followed
  }

  /** The owner a process is meant to see. */
  function Visible(nodes: Nodes, o: Overrides, id: Id): Owner
    requires id in nodes
  {
    if CanShow(nodes[id]) && id in o then o[id] else nodes[id].owner
  }

  const TWO_31 := 0x8000_0000
  const TWO_32 := 0x1_0000_0000

  /** System call arguments are 32 bits wide; the tracer reads them as signed. */
  function Signed(raw: nat): int
    requires raw < TWO_32
  {
    if raw < TWO_31 then raw else raw - TWO_32
  }

  datatype Call =
    | Stat(ref: Ref)
    | Chown(ref: Ref, uid: nat, gid: nat)

  predicate ValidCall(nodes: Nodes, c: Call) {
    ValidRef(nodes, c.ref) && (c.Chown? ==> c.uid < TWO_32 && c.gid < TWO_32)
  }

  datatype Reply = Seen(owner: Owner) | Done | Failed

  // ---- The tracer -----------------------------------------------------------

  /** The pair a chown asks for; a negative id keeps what is visible. */
  function Requested(nodes: Nodes, visible: Owner, c: Call): Owner
    requires c.Chown? && ValidCall(nodes, c)
  {
    Owner(if Signed(c.uid) < 0 then visible.uid else c.uid,
          if Signed(c.gid) < 0 then visible.gid else c.gid)
  }

  /** A stat that the tracer lets pass. */
  function OnDisk(nodes: Nodes, r: Ref): Reply
    requires ValidRef(nodes, r)
  {
    if Target(r).None? then Failed else Seen(nodes[Target(r).value].owner)
  }

  /** The tracer opens a file for reading and may not. For an absolute path it finds out
      before, and lets the call pass. */
  predicate Unreadable(nodes: Nodes, r: Ref)
    requires ValidRef(nodes, r)
  {
    r.traced.Some? && !r.how.ByAbsolute? && Ordinary(nodes[r.traced.value]) && !nodes[r.traced.value].access.read
  }

  predicate ShowsOverride(nodes: Nodes, o: Overrides, r: Ref)
    requires ValidRef(nodes, r)
  {
    r.traced.Some? && CanShow(nodes[r.traced.value]) && r.traced.value in o
  }

  /** The tracer carries out a chown. */
  predicate Accepts(nodes: Nodes, c: Call)
    requires c.Chown? && ValidCall(nodes, c)
  {
    var id := c.ref.traced;
    && id.Some?
    && match nodes[id.value].kind
       case RegularOrDir => nodes[id.value].access.read && nodes[id.value].access.write
       case WithoutXattrs => false
       case _ => Requested(nodes, nodes[id.value].owner, c) == nodes[id.value].owner
  }

  function SlowReply(nodes: Nodes, o: Overrides, c: Call): Reply
    requires ValidCall(nodes, c)
  {
    match c
    case Stat(r) =>
      if Unreadable(nodes, r) then Failed
      else if ShowsOverride(nodes, o, r) then Seen(o[r.traced.value])
      else OnDisk(nodes, r)
    case Chown(_, _, _) =>
      if Accepts(nodes, c) then Done else Failed
  }

  /** The tracer carries out a chown by setting or clearing an override. */
  predicate Assigns(nodes: Nodes, c: Call)
    requires ValidCall(nodes, c)
  {
    c.Chown? && Accepts(nodes, c) && nodes[c.ref.traced.value].kind.RegularOrDir?
  }

  function SlowState(nodes: Nodes, o: Overrides, c: Call): Overrides
    requires ValidCall(nodes, c)
  {
    if !Assigns(nodes, c) then o
    else
      var id := c.ref.traced.value;
      var wanted := Requested(nodes, Visible(nodes, o, id), c);
      if wanted == Visible(nodes, o, id) then o - {id} else o[id := wanted]
  }

  // ---- The preload library ---------------------------------------------------

  /** `matches_original_ownership`, on unsigned ids. */
  predicate MatchesDisk(nodes: Nodes, c: Call)
    requires c.Chown? && ValidCall(nodes, c)
  {
    Target(c.ref).Some? && nodes[Target(c.ref).value].owner == Owner(c.uid, c.gid)
  }

  /** The node whose override `clear_override` removes. The library binds
      `lremovexattr` to `removexattr`, so a path is followed even when the call asks
      not to. It takes `AT_FDCWD` for a descriptor, which does not exist. */
  function Cleared(r: Ref): Option<Id> {
    match r.how
    case ByAbsolute => r.followed
    case ByRelative => r.followed
    case ByCwd => None
    case _ => Target(r)
  }

  /** `clear_override` also counts it as success that there cannot be an override. */
  predicate Clears(nodes: Nodes, r: Ref)
    requires ValidRef(nodes, r)
  {
    Cleared(r).Some? && (Ordinary(nodes[Cleared(r).value]) ==> nodes[Cleared(r).value].access.write)
  }

  /** `has_no_override`: there is none, or none that the library can find. */
  predicate NoOverrideFound(nodes: Nodes, o: Overrides, r: Ref)
    requires ValidRef(nodes, r)
  {
    if r.how.ByCwd? then true
    else if Target(r).None? then !r.how.ByDirFd?
    else Target(r).value !in o && (Ordinary(nodes[Target(r).value]) ==> nodes[Target(r).value].access.read)
  }

  predicate TakesFastPath(nodes: Nodes, c: Call)
    requires ValidCall(nodes, c)
  {
    c.Chown? && MatchesDisk(nodes, c) && Clears(nodes, c.ref)
  }

  /** On the fast path the chown goes to the kernel, which lets only the owner pass. */
  function FastReply(nodes: Nodes, o: Overrides, c: Call): Reply
    requires ValidCall(nodes, c)
  {
    if TakesFastPath(nodes, c) then (if nodes[Target(c.ref).value].access.owns then Done else Failed)
    else if c.Stat? && NoOverrideFound(nodes, o, c.ref) then OnDisk(nodes, c.ref)
    else SlowReply(nodes, o, c)
  }

  function FastState(nodes: Nodes, o: Overrides, c: Call): Overrides
    requires ValidCall(nodes, c)
  {
    if TakesFastPath(nodes, c) then o - {Cleared(c.ref).value} else SlowState(nodes, o, c)
  }

  // ---- What a call is about ---------------------------------------------------

  predicate ByPath(how: How) {
    how.ByAbsolute? || how.ByRelative? || how.ByDirFd?
  }

  /** The name leads to `id`, in the calling process and in the tracer: behind a final
      symlink, unless the call asks not to follow it. */
  predicate Names(r: Ref, id: Id) {
    ByPath(r.how) && r.traced == Some(id) && (if r.noFollow then r.entry else r.followed) == Some(id)
  }

  /** A stat by path shows the fake owner of the file, if it has one, and else the owner on
      disk, whoever answers it. */
  lemma StatShowsFile(nodes: Nodes, o: Overrides, r: Ref, id: Id)
    requires ValidRef(nodes, r) && Names(r, id) && ValidOverrides(nodes, o)
    requires nodes[id].kind.Link? || nodes[id].kind.Other? || nodes[id].access.read
    ensures var owner := if id in o then o[id] else nodes[id].owner;
            SlowReply(nodes, o, Stat(r)) == FastReply(nodes, o, Stat(r)) == Seen(owner)
  {
  }

  /** To a call by path that follows symlinks it does not matter which symlink was
      followed. */
  lemma SymlinkDoesNotMatter(nodes: Nodes, o: Overrides, c: Call, entry: Option<Id>)
    requires ValidCall(nodes, c) && ByPath(c.ref.how) && !c.ref.noFollow && c.ref.followed.Some?
    requires ValidCall(nodes, c.(ref := c.ref.(entry := entry)))
    ensures var other := c.(ref := c.ref.(entry := entry));
            && SlowReply(nodes, o, c) == SlowReply(nodes, o, other)
            && FastReply(nodes, o, c) == FastReply(nodes, o, other)
            && SlowState(nodes, o, c) == SlowState(nodes, o, other)
            && FastState(nodes, o, c) == FastState(nodes, o, other)
  {
  }

  /** A chown by path of an own, accessible file succeeds, gives it the wanted owner
      unless it had that fake owner before, and changes no other file. */
  lemma ChownGivesFile(nodes: Nodes, o: Overrides, r: Ref, id: Id, uid: nat, gid: nat)
    requires ValidRef(nodes, r) && Names(r, id) && ValidOverrides(nodes, o)
    requires nodes[id].kind.RegularOrDir? && nodes[id].access == Access(true, true, true)
    requires uid < 0x8000_0000 && gid < 0x8000_0000
    ensures var c, wanted := Chown(r, uid, gid), Owner(uid, gid);
            && SlowReply(nodes, o, c) == FastReply(nodes, o, c) == Done
            && forall after :: after in {SlowState(nodes, o, c), FastState(nodes, o, c)} ==>
                 && ValidOverrides(nodes, after)
                 && after - {id} == o - {id}
                 && ((if id in after then after[id] else nodes[id].owner) ==
                     if id in o && o[id] == wanted then nodes[id].owner else wanted)
  {
  }

  // ---- The two agree ---------------------------------------------------------

  /** A call and whether the preload library handles it; statically linked programs
      bypass the library. */
  datatype Step = Step(call: Call, preloaded: bool)

  function ReplyTo(nodes: Nodes, o: Overrides, s: Step, usePreload: bool): Reply
    requires ValidCall(nodes, s.call)
  {
    if usePreload && s.preloaded then FastReply(nodes, o, s.call) else SlowReply(nodes, o, s.call)
  }

  function After(nodes: Nodes, o: Overrides, s: Step, usePreload: bool): Overrides
    requires ValidCall(nodes, s.call)
  {
    if usePreload && s.preloaded then FastState(nodes, o, s.call) else SlowState(nodes, o, s.call)
  }

  /** The library may have dropped an override that equals the owner on disk. */
  ghost predicate Related(nodes: Nodes, fast: Overrides, slow: Overrides) {
    && ValidOverrides(nodes, fast)
    && ValidOverrides(nodes, slow)
    && forall id :: id in nodes ==> Visible(nodes, fast, id) == Visible(nodes, slow, id)
  }

  /** A step that the run with the library takes otherwise than the run without it. */
  predicate Diverges(nodes: Nodes, fast: Overrides, slow: Overrides, s: Step)
    requires ValidCall(nodes, s.call)
  {
    match s.call
    case Stat(r) =>
      if s.preloaded && NoOverrideFound(nodes, fast, r) then TracerShowsOther(nodes, slow, r)
      else TellsDropped(nodes, fast, slow, r)
    case Chown(r, _, _) =>
      && s.preloaded
      && TakesFastPath(nodes, s.call)
      && (nodes[Target(r).value].access.owns != Accepts(nodes, s.call)
          || LosesOverride(nodes, fast, s.call)
          || AssignsOther(nodes, fast, s.call))
  }

  /** The library shows the owner on disk, and the tracer may not read the file or
      shows an override. */
  predicate TracerShowsOther(nodes: Nodes, o: Overrides, r: Ref)
    requires ValidRef(nodes, r)
  {
    if Unreadable(nodes, r) then Target(r).Some?
    else ShowsOverride(nodes, o, r) && OnDisk(nodes, r) != Seen(o[r.traced.value])
  }

  /** The tracer opens a file whose override one run has dropped, and passes the call on
      for another file. */
  predicate TellsDropped(nodes: Nodes, fast: Overrides, slow: Overrides, r: Ref)
    requires ValidRef(nodes, r)
  {
    && !Unreadable(nodes, r)
    && ShowsOverride(nodes, fast, r) != ShowsOverride(nodes, slow, r)
    && OnDisk(nodes, r) != Seen(nodes[r.traced.value].owner)
  }

  /** The library clears an override that shows, of a file that the tracer leaves alone. */
  predicate LosesOverride(nodes: Nodes, o: Overrides, c: Call)
    requires ValidCall(nodes, c) && TakesFastPath(nodes, c)
  {
    var hit := Cleared(c.ref).value;
    Visible(nodes, o, hit) != nodes[hit].owner && !(Assigns(nodes, c) && c.ref.traced == Some(hit))
  }

  /** The tracer sets an override, or clears one, and the library does not. */
  predicate AssignsOther(nodes: Nodes, o: Overrides, c: Call)
    requires ValidCall(nodes, c) && TakesFastPath(nodes, c)
  {
    Assigns(nodes, c) &&
    var id := c.ref.traced.value;
    var visible, disk := Visible(nodes, o, id), nodes[id].owner;
    var wanted := Requested(nodes, visible, c);
    if Cleared(c.ref) == Some(id) then wanted != visible && wanted != disk else !(wanted == visible == disk)
  }

  /** One step of both runs: the replies are the same and the runs stay related exactly
      if it does not diverge. */
  lemma StepExactly(nodes: Nodes, fast: Overrides, slow: Overrides, s: Step)
    requires ValidCall(nodes, s.call) && Related(nodes, fast, slow)
    ensures var same := ReplyTo(nodes, fast, s, true) == ReplyTo(nodes, slow, s, false);
            var related := Related(nodes, After(nodes, fast, s, true), After(nodes, slow, s, false));
            && (same && related <==> !Diverges(nodes, fast, slow, s))
            && (s.call.Stat? ==> related)
  {
    if s.call.Stat? {
    } else if s.preloaded && TakesFastPath(nodes, s.call) {
      FastChownExactly(nodes, fast, slow, s.call);
    } else {
      SlowChownKeepsRelated(nodes, fast, slow, s.call);
    }
  }

  lemma FastChownExactly(nodes: Nodes, fast: Overrides, slow: Overrides, c: Call)
    requires ValidCall(nodes, c) && Related(nodes, fast, slow) && TakesFastPath(nodes, c)
    ensures Related(nodes, FastState(nodes, fast, c), SlowState(nodes, slow, c)) <==>
            !LosesOverride(nodes, fast, c) && !AssignsOther(nodes, fast, c)
  {
    var hit := Cleared(c.ref).value;
    assert Visible(nodes, FastState(nodes, fast, c), hit) == nodes[hit].owner;
    if Assigns(nodes, c) {
      var id := c.ref.traced.value;
      assert id in nodes && Visible(nodes, fast, id) == Visible(nodes, slow, id);
    }
  }

  /** A chown that goes to the tracer in both runs. */
  lemma SlowChownKeepsRelated(nodes: Nodes, fast: Overrides, slow: Overrides, c: Call)
    requires ValidCall(nodes, c) && Related(nodes, fast, slow) && c.Chown?
    ensures SlowReply(nodes, fast, c) == SlowReply(nodes, slow, c)
    ensures Related(nodes, SlowState(nodes, fast, c), SlowState(nodes, slow, c))
  {
  }

  // ---- Where the tracer reaches the same file -----------------------------------

  /** The library does not find the override of the working directory, and the tracer
      may not read that directory or shows the override. */
  predicate MissesWorkingDirectory(nodes: Nodes, o: Overrides, r: Ref)
    requires ValidRef(nodes, r)
  {
    && r.how.ByCwd?
    && r.entry.Some?
    && var n := nodes[r.entry.value];
       (Ordinary(n) && !n.access.read) || Visible(nodes, o, r.entry.value) != n.owner
  }

  /** The file cannot have an override that the tracer can read. */
  predicate CannotShow(n: Node) {
    Ordinary(n) && !CanShow(n)
  }

  /** `lchown` by path clears the override of the file behind the symlink. */
  predicate HitsLinkTarget(nodes: Nodes, o: Overrides, c: Call)
    requires ValidCall(nodes, c) && TakesFastPath(nodes, c)
  {
    var hit := Cleared(c.ref).value;
    Target(c.ref) != Some(hit) && Visible(nodes, o, hit) != nodes[hit].owner
  }

  /** An id of 2^31 and above, which the tracer takes for "keep", is that of the owner
      on disk, and the override is kept otherwise. */
  predicate MeansKeep(nodes: Nodes, o: Overrides, c: Call)
    requires ValidCall(nodes, c) && TakesFastPath(nodes, c)
  {
    var id := Target(c.ref).value;
    var wanted := Requested(nodes, Visible(nodes, o, id), c);
    && (c.uid >= TWO_31 || c.gid >= TWO_31)
    && CanShow(nodes[id])
    && wanted != Visible(nodes, o, id)
    && wanted != nodes[id].owner
  }

  /** A step for which the tracer reaches the file that the process means diverges exactly
      in these cases: a stat of the working directory; a chown to the owner on disk of an
      own file that the tracer cannot keep an override on, or of a foreign file that it
      can; one that hits a symlink's target; and one that means "keep" to the tracer. */
  lemma DivergesExactlyWhen(nodes: Nodes, fast: Overrides, slow: Overrides, s: Step)
    requires ValidCall(nodes, s.call) && Related(nodes, fast, slow) && s.call.ref.traced == Target(s.call.ref)
    ensures Diverges(nodes, fast, slow, s) <==>
            s.preloaded &&
            match s.call
            case Stat(r) => MissesWorkingDirectory(nodes, fast, r)
            case Chown(r, _, _) =>
              && TakesFastPath(nodes, s.call)
              && (nodes[Target(r).value].access.owns == CannotShow(nodes[Target(r).value])
                  || HitsLinkTarget(nodes, fast, s.call)
                  || MeansKeep(nodes, fast, s.call))
  {
  }

  // ---- Whole runs ------------------------------------------------------------

  ghost predicate ValidSteps(nodes: Nodes, steps: seq<Step>) {
    forall i :: 0 <= i < |steps| ==> ValidCall(nodes, steps[i].call)
  }

  function Replies(nodes: Nodes, o: Overrides, steps: seq<Step>, usePreload: bool): seq<Reply>
    requires ValidSteps(nodes, steps)
    decreases |steps|
  {
    if steps == [] then []
    else
      [ReplyTo(nodes, o, steps[0], usePreload)]
      + Replies(nodes, After(nodes, o, steps[0], usePreload), steps[1..], usePreload)
  }

  /** No step of the run diverges when its turn comes. */
  ghost predicate NeverDiverges(nodes: Nodes, fast: Overrides, slow: Overrides, steps: seq<Step>)
    requires ValidSteps(nodes, steps)
    decreases |steps|
  {
    steps == [] ||
    (&& !Diverges(nodes, fast, slow, steps[0])
     && NeverDiverges(nodes, After(nodes, fast, steps[0], true), After(nodes, slow, steps[0], false), steps[1..]))
  }

  /** With the library or without it, every stat of the run shows the same owner and
      every chown gets the same answer. */
  lemma {:induction false} PreloadIsInvisible(nodes: Nodes, fast: Overrides, slow: Overrides, steps: seq<Step>)
    requires ValidSteps(nodes, steps) && Related(nodes, fast, slow) && NeverDiverges(nodes, fast, slow, steps)
    ensures Replies(nodes, fast, steps, true) == Replies(nodes, slow, steps, false)
    decreases |steps|
  {
    if steps != [] {
      StepExactly(nodes, fast, slow, steps[0]);
      PreloadIsInvisible(nodes, After(nodes, fast, steps[0], true), After(nodes, slow, steps[0], false), steps[1..]);
    }
  }

  /** A stat that shows what is visible: of a file by an absolute path, or of none. */
  function Look(nodes: Nodes, id: Option<Id>): (s: Step)
    requires id.Some? ==> id.value in nodes
    ensures ValidCall(nodes, s.call)
  {
    var followed := if id.Some? && nodes[id.value].kind.Link? then None else id;
    Step(Stat(Ref(id, followed, true, ByAbsolute, id)), true)
  }

  lemma LookShows(nodes: Nodes, o: Overrides, id: Option<Id>, usePreload: bool)
    requires (id.Some? ==> id.value in nodes) && ValidOverrides(nodes, o)
    ensures Replies(nodes, o, [Look(nodes, id)], usePreload) ==
            [if id.None? then Failed else Seen(Visible(nodes, o, id.value))]
  {
    assert [Look(nodes, id)][1..] == [];
  }

  /** The runs look the same: up to a step, with a look at any file there. */
  ghost predicate LookSame(nodes: Nodes, fast: Overrides, slow: Overrides, steps: seq<Step>, n: nat, id: Option<Id>)
    requires ValidSteps(nodes, steps) && n <= |steps| && (id.Some? ==> id.value in nodes)
  {
    Replies(nodes, fast, steps[..n] + [Look(nodes, id)], true)
    == Replies(nodes, slow, steps[..n] + [Look(nodes, id)], false)
  }

  ghost predicate AllLookSame(nodes: Nodes, fast: Overrides, slow: Overrides, steps: seq<Step>)
    requires ValidSteps(nodes, steps)
  {
    forall n: nat, id: Option<Id> :: n <= |steps| && (id.Some? ==> id.value in nodes) ==>
      LookSame(nodes, fast, slow, steps, n, id)
  }

  /** The first reply, and the rest of the run behind it. */
  lemma LookLater(nodes: Nodes, fast: Overrides, slow: Overrides, steps: seq<Step>, n: nat, id: Option<Id>)
    requires ValidSteps(nodes, steps) && 0 < n <= |steps| && (id.Some? ==> id.value in nodes)
    ensures var fast', slow' := After(nodes, fast, steps[0], true), After(nodes, slow, steps[0], false);
            LookSame(nodes, fast, slow, steps, n, id) <==>
            ReplyTo(nodes, fast, steps[0], true) == ReplyTo(nodes, slow, steps[0], false)
            && LookSame(nodes, fast', slow', steps[1..], n - 1, id)
  {
    var run := steps[..n] + [Look(nodes, id)];
    assert run[0] == steps[0] && run[1..] == steps[1..][..n - 1] + [Look(nodes, id)];
    var a := Replies(nodes, After(nodes, fast, steps[0], true), run[1..], true);
    var b := Replies(nodes, After(nodes, slow, steps[0], false), run[1..], false);
    assert ([ReplyTo(nodes, fast, steps[0], true)] + a)[1..] == a;
    assert ([ReplyTo(nodes, slow, steps[0], false)] + b)[1..] == b;
  }

  lemma LookNow(nodes: Nodes, fast: Overrides, slow: Overrides, steps: seq<Step>, id: Option<Id>)
    requires ValidSteps(nodes, steps) && (id.Some? ==> id.value in nodes)
    requires ValidOverrides(nodes, fast) && ValidOverrides(nodes, slow)
    ensures LookSame(nodes, fast, slow, steps, 0, id) <==>
            (id.Some? ==> Visible(nodes, fast, id.value) == Visible(nodes, slow, id.value))
  {
    assert steps[..0] + [Look(nodes, id)] == [Look(nodes, id)];
    LookShows(nodes, fast, id, true);
    LookShows(nodes, slow, id, false);
  }

  /** Whatever is looked at in between, a run with the library is the run without it if and
      only if no step diverges. */
  lemma {:induction false} InvisibleExactly(nodes: Nodes, fast: Overrides, slow: Overrides, steps: seq<Step>)
    requires ValidSteps(nodes, steps) && Related(nodes, fast, slow)
    ensures NeverDiverges(nodes, fast, slow, steps) <==> AllLookSame(nodes, fast, slow, steps)
    decreases |steps|
  {
    forall id: Option<Id> | id.Some? ==> id.value in nodes ensures LookSame(nodes, fast, slow, steps, 0, id) {
      LookNow(nodes, fast, slow, steps, id);
    }
    if steps != [] {
      var fast', slow' := After(nodes, fast, steps[0], true), After(nodes, slow, steps[0], false);
      forall n: nat, id: Option<Id> | 0 < n <= |steps| && (id.Some? ==> id.value in nodes)
        ensures LookSame(nodes, fast, slow, steps, n, id) <==>
                ReplyTo(nodes, fast, steps[0], true) == ReplyTo(nodes, slow, steps[0], false)
                && LookSame(nodes, fast', slow', steps[1..], n - 1, id)
      {
        LookLater(nodes, fast, slow, steps, n, id);
      }
      if Diverges(nodes, fast, slow, steps[0]) {
        DivergenceShows(nodes, fast, slow, steps);
      } else {
        StepExactly(nodes, fast, slow, steps[0]);
        InvisibleExactly(nodes, fast', slow', steps[1..]);
        TailLooksSame(nodes, fast, slow, steps);
      }
    }
  }

  lemma TailLooksSame(nodes: Nodes, fast: Overrides, slow: Overrides, steps: seq<Step>)
    requires ValidSteps(nodes, steps) && steps != []
    requires ReplyTo(nodes, fast, steps[0], true) == ReplyTo(nodes, slow, steps[0], false)
    requires forall id: Option<Id> :: (id.Some? ==> id.value in nodes) ==> LookSame(nodes, fast, slow, steps, 0, id)
    ensures var fast', slow' := After(nodes, fast, steps[0], true), After(nodes, slow, steps[0], false);
            AllLookSame(nodes, fast, slow, steps) <==> AllLookSame(nodes, fast', slow', steps[1..])
  {
    var fast', slow' := After(nodes, fast, steps[0], true), After(nodes, slow, steps[0], false);
    if AllLookSame(nodes, fast, slow, steps) {
      forall n: nat, id: Option<Id> | n <= |steps[1..]| && (id.Some? ==> id.value in nodes)
        ensures LookSame(nodes, fast', slow', steps[1..], n, id)
      {
        assert LookSame(nodes, fast, slow, steps, n + 1, id);
        LookLater(nodes, fast, slow, steps, n + 1, id);
      }
    }
    if AllLookSame(nodes, fast', slow', steps[1..]) {
      forall n: nat, id: Option<Id> | n <= |steps| && (id.Some? ==> id.value in nodes)
        ensures LookSame(nodes, fast, slow, steps, n, id)
      {
        if n > 0 {
          LookLater(nodes, fast, slow, steps, n, id);
          assert LookSame(nodes, fast', slow', steps[1..], n - 1, id);
        }
      }
    }
  }

  /** A step that diverges shows: at once, or at the next look at some file. */
  lemma DivergenceShows(nodes: Nodes, fast: Overrides, slow: Overrides, steps: seq<Step>)
    requires ValidSteps(nodes, steps) && steps != [] && Related(nodes, fast, slow)
    requires Diverges(nodes, fast, slow, steps[0])
    ensures exists id: Option<Id> :: (id.Some? ==> id.value in nodes) && !LookSame(nodes, fast, slow, steps, 1, id)
  {
    StepExactly(nodes, fast, slow, steps[0]);
    var fast', slow' := After(nodes, fast, steps[0], true), After(nodes, slow, steps[0], false);
    AfterIsValid(nodes, fast, steps[0], true);
    AfterIsValid(nodes, slow, steps[0], false);
    var id: Option<Id> := None;
    if ReplyTo(nodes, fast, steps[0], true) == ReplyTo(nodes, slow, steps[0], false) {
      var seen :| seen in nodes && Visible(nodes, fast', seen) != Visible(nodes, slow', seen);
      id := Some(seen);
    }
    LookLater(nodes, fast, slow, steps, 1, id);
    LookNow(nodes, fast', slow', steps[1..], id);
  }

  lemma AfterIsValid(nodes: Nodes, o: Overrides, s: Step, usePreload: bool)
    requires ValidCall(nodes, s.call) && ValidOverrides(nodes, o)
    ensures ValidOverrides(nodes, After(nodes, o, s, usePreload))
  {
  }

  // ---- Calls that diverge --------------------------------------------------------

  const ALL := Access(true, true, true)
  const DISK := Owner(1000, 1000)
  const ROOT := Owner(0, 0)

  /** A path that means the same node everywhere. */
  function Path(id: Id, noFollow: bool): Ref {
    Ref(Some(id), Some(id), noFollow, ByAbsolute, Some(id))
  }

  /** `lchown` of a symlink to its own owner takes away the fake owner of the file it
      points to. */
  lemma LchownClearsTarget()
    ensures var nodes: Nodes := map[0 := Node(RegularOrDir, DISK, ALL), 1 := Node(Link, DISK, ALL)];
            var o: Overrides := map[0 := ROOT];
            var lchown := Chown(Ref(Some(1), Some(0), true, ByAbsolute, Some(1)), 1000, 1000);
            && ValidCall(nodes, lchown) && Diverges(nodes, o, o, Step(lchown, true))
            && Visible(nodes, SlowState(nodes, o, lchown), 0) == ROOT
            && Visible(nodes, FastState(nodes, o, lchown), 0) == DISK
  {
  }

  /** A stat of the working directory through `AT_FDCWD` and an empty path shows the
      owner on disk, although the directory has an override. */
  lemma WorkingDirectoryShowsDisk()
    ensures var nodes: Nodes := map[0 := Node(RegularOrDir, DISK, ALL)];
            var o: Overrides := map[0 := ROOT];
            var stat := Stat(Ref(Some(0), Some(0), false, ByCwd, Some(0)));
            && ValidCall(nodes, stat) && Diverges(nodes, o, o, Step(stat, true))
            && SlowReply(nodes, o, stat) == Seen(ROOT) && FastReply(nodes, o, stat) == Seen(DISK)
  {
  }

  /** A file on disk belongs to 2^31 and shows as root's. Giving it to 2^31 is what the
      library does, and "keep" to the tracer. */
  lemma LargeIdMeansKeep()
    ensures var nodes: Nodes := map[0 := Node(RegularOrDir, Owner(TWO_31, 0), ALL)];
            var o: Overrides := map[0 := Owner(0, 5)];
            var chown := Chown(Path(0, false), TWO_31, 0);
            && ValidCall(nodes, chown) && Diverges(nodes, o, o, Step(chown, true))
            && Visible(nodes, SlowState(nodes, o, chown), 0) == ROOT
            && Visible(nodes, FastState(nodes, o, chown), 0) == Owner(TWO_31, 0)
  {
  }

  /** A chown to the owner on disk where user xattrs are not supported: the library takes
      that for "no override", the tracer for an error. The same with a file that its owner
      may write and not read. */
  lemma NoXattrsFailsInTracer()
    ensures var nodes: Nodes :=
              map[0 := Node(WithoutXattrs, DISK, ALL), 1 := Node(RegularOrDir, DISK, Access(false, true, true))];
            forall id :: id in nodes ==>
              var chown := Chown(Path(id, false), 1000, 1000);
              && ValidCall(nodes, chown) && Diverges(nodes, map[], map[], Step(chown, true))
              && FastReply(nodes, map[], chown) == Done && SlowReply(nodes, map[], chown) == Failed
  {
  }

  /** A file of somebody else that everybody may write: the kernel refuses the chown that
      the library passes on, the tracer only clears an override. */
  lemma ForeignFileFailsInLibrary()
    ensures var nodes: Nodes := map[0 := Node(RegularOrDir, ROOT, Access(true, true, false))];
            var chown := Chown(Path(0, false), 0, 0);
            && ValidCall(nodes, chown) && Diverges(nodes, map[], map[], Step(chown, true))
            && FastReply(nodes, map[], chown) == Failed && SlowReply(nodes, map[], chown) == Done
  {
  }

  /** A chown of `/proc/self/fd/5`, which the tracer resolves in its own process: it fails
      if the tracer has no such descriptor, and else gives away another file. */
  lemma TracerChownsItsOwn()
    ensures var nodes: Nodes := map[0 := Node(RegularOrDir, DISK, ALL), 1 := Node(Link, DISK, ALL),
                                    2 := Node(RegularOrDir, ROOT, ALL)];
            var missing := Chown(Ref(Some(1), Some(0), false, ByAbsolute, None), 1000, 1000);
            var another := Chown(Ref(Some(1), Some(0), false, ByAbsolute, Some(2)), 1000, 1000);
            && ValidCall(nodes, missing) && Diverges(nodes, map[], map[], Step(missing, true))
            && FastReply(nodes, map[], missing) == Done && SlowReply(nodes, map[], missing) == Failed
            && ValidCall(nodes, another) && Diverges(nodes, map[], map[], Step(another, true))
            && FastReply(nodes, map[], another) == SlowReply(nodes, map[], another) == Done
            && Visible(nodes, FastState(nodes, map[], another), 2) == ROOT
            && Visible(nodes, SlowState(nodes, map[], another), 2) == DISK
  {
  }

  /** The tracer gives a file to root at the first request and takes it back at the
      second. */
  lemma ChownTwiceShowsDisk()
    ensures var nodes: Nodes := map[0 := Node(RegularOrDir, DISK, ALL)];
            var chown := Chown(Path(0, false), 0, 0);
            && ValidCall(nodes, chown)
            && var once := SlowState(nodes, map[], chown);
            && SlowReply(nodes, map[], chown) == SlowReply(nodes, once, chown) == Done
            && Visible(nodes, once, 0) == ROOT
            && Visible(nodes, SlowState(nodes, once, chown), 0) == DISK
  {
  }

  // ---- The operations as they run ----------------------------------------------

  class FakeFs {
    const nodes: Nodes
    /** The override xattrs on disk. */
    var overrides: Overrides

    constructor (nodes: Nodes)
      ensures this.nodes == nodes && Valid() && overrides == map[]
    {
      this.nodes := nodes;
      overrides := map[];
    }

    ghost predicate Valid()
      reads this
    {
      ValidOverrides(nodes, overrides)
    }

    /** `fsop.HasOverride`, by path: false also if it may not be read. */
    predicate HasOverride(id: Id)
      reads this
      requires id in nodes
    {
      CanShow(nodes[id]) && id in overrides
    }

    /** `fsop.Fstat`. It has to open regular files and directories. */
    method Fstat(id: Id) returns (owner: Option<Owner>, overridden: bool)
      requires Valid() && id in nodes
      ensures owner.None? <==> Ordinary(nodes[id]) && !nodes[id].access.read
      ensures owner.Some? ==> owner.value == Visible(nodes, overrides, id)
      ensures overridden <==> HasOverride(id)
    {
      if Ordinary(nodes[id]) {
        if !nodes[id].access.read {
          return None, false;
        }
        if nodes[id].kind.RegularOrDir? && id in overrides {
          return Some(overrides[id]), true;
        }
      }
      return Some(nodes[id].owner), false;
    }

    /** `clearOverrideData` and `writeOverrideData`: that a file system does not support
        user xattrs is an error to both. */
    method SetOverride(id: Id, owner: Option<Owner>) returns (ok: bool)
      requires Valid() && id in nodes && Ordinary(nodes[id])
      modifies this`overrides
      ensures Valid() && (ok <==> nodes[id].kind.RegularOrDir? && nodes[id].access.write)
      ensures overrides == (if !ok then old(overrides)
                            else if owner.None? then old(overrides) - {id}
                            else old(overrides)[id := owner.value])
    {
      if !nodes[id].access.write || nodes[id].kind.WithoutXattrs? {
        return false;
      }
      overrides := if owner.None? then overrides - {id} else overrides[id := owner.value];
      ok := true;
    }

    /** `fsop.Fchown`. A stat right after it reports the requested pair, except
        exactly when the override was that pair already and the owner on disk is
        someone else. */
    method Fchown(id: Id, uid: int, gid: int) returns (ok: bool)
      requires Valid() && id in nodes
      modifies this`overrides
      ensures Valid()
      ensures var n, before := nodes[id], Visible(nodes, old(overrides), id);
              var wanted := Owner(if uid < 0 then before.uid else uid, if gid < 0 then before.gid else gid);
              && (ok <==> match n.kind
                          case RegularOrDir => n.access.read && n.access.write
                          case WithoutXattrs => false
                          case _ => wanted == before)
              && (ok ==> (Visible(nodes, overrides, id) == wanted <==>
                          !(id in old(overrides) && old(overrides)[id] == wanted && n.owner != wanted)))
              && (ok && wanted == before ==> Visible(nodes, overrides, id) == n.owner)
              && overrides == (if !ok || !n.kind.RegularOrDir? then old(overrides)
                               else if wanted == before then old(overrides) - {id}
                               else old(overrides)[id := wanted])
    {
      var stat, _ := Fstat(id);
      if stat.None? {
        return false;
      }
      var wanted := Owner(if uid < 0 then stat.value.uid else uid, if gid < 0 then stat.value.gid else gid);
      if Ordinary(nodes[id]) {
        ok := SetOverride(id, if wanted == stat.value then None else Some(wanted));
      } else {
        ok := wanted == stat.value;
      }
    }

    /** The tracer's answer to a stat or chown. */
    method Simulate(c: Call) returns (r: Reply)
      requires Valid() && ValidCall(nodes, c)
      modifies this`overrides
      ensures Valid()
      ensures r == SlowReply(nodes, old(overrides), c) && overrides == SlowState(nodes, old(overrides), c)
    {
      var id := c.ref.traced;
      match c
      case Stat(ref) =>
        if id.None? || (ref.how.ByAbsolute? && !HasOverride(id.value)) {
          return OnDisk(nodes, ref);
        }
        var owner, overridden := Fstat(id.value);
        if owner.None? {
          return Failed;
        }
        return if overridden then Seen(owner.value) else OnDisk(nodes, ref);
      case Chown(_, uid, gid) =>
        if id.None? {
          return Failed;
        }
        var ok := Fchown(id.value, Signed(uid), Signed(gid));
        return if ok then Done else Failed;
    }

    /** `has_no_override` followed by the untraced stat, or the traced one. */
    method WrapFstatat(ref: Ref) returns (r: Reply)
      requires Valid() && ValidRef(nodes, ref)
      modifies this`overrides
      ensures Valid() && overrides == old(overrides)
      ensures r == FastReply(nodes, old(overrides), Stat(ref))
    {
      if NoOverrideFound(nodes, overrides, ref) {
        return OnDisk(nodes, ref);
      }
      r := Simulate(Stat(ref));
    }

    /** Clears the override and skips the tracer when the request is the owner on disk. */
    method WrapFchownat(ref: Ref, uid: nat, gid: nat) returns (r: Reply)
      requires Valid() && ValidCall(nodes, Chown(ref, uid, gid))
      modifies this`overrides
      ensures Valid()
      ensures r == FastReply(nodes, old(overrides), Chown(ref, uid, gid))
      ensures overrides == FastState(nodes, old(overrides), Chown(ref, uid, gid))
    {
      if MatchesDisk(nodes, Chown(ref, uid, gid)) {
        if Clears(nodes, ref) {
          overrides := overrides - {Cleared(ref).value};
          return if nodes[Target(ref).value].access.owns then Done else Failed;
        }
      }
      r := Simulate(Chown(ref, uid, gid));
    }
  }

  // ---- Listing xattrs -----------------------------------------------------------

  function Without(keys: seq<string>, secret: string): seq<string> {
    if keys == [] then []
    else (if keys[0] == secret then [] else [keys[0]]) + Without(keys[1..], secret)
  }

  /** `doListxattr` on what the kernel returned: the same list without the override,
      byte for byte; it fails exactly when the list is cut off. */
  method FilterKeys(unfiltered: string, secret: string) returns (filtered: string, ok: bool)
    ensures ok <==> Read(unfiltered, []).1 == []
    ensures ok ==> filtered == Terminated(Without(Read(unfiltered, []).0, secret))
  {
    filtered := [];
    var key: string := [];
    ghost var keys: seq<string> := [];
    for i := 0 to |unfiltered|
      invariant unfiltered[..i] == Terminated(keys) + key && NUL !in key && NulFree(keys)
      invariant filtered == Terminated(Without(keys, secret))
    {
      var b := unfiltered[i];
      assert unfiltered[..i + 1] == unfiltered[..i] + [b];
      if b != NUL {
        assert unfiltered[..i + 1] == Terminated(keys) + (key + [b]);
        key := key + [b];
      } else {
        AppendKey(keys, key, secret);
        assert unfiltered[..i + 1] == Terminated(keys + [key]) + [];
        if key != secret {
          filtered := filtered + (key + [NUL]);
        }
        keys := keys + [key];
        key := [];
      }
    }
    assert unfiltered[..|unfiltered|] == unfiltered;
    ReadTerminated(keys, key);
    ok := |key| == 0;
  }

  lemma AppendKey(keys: seq<string>, key: string, secret: string)
    ensures Terminated(keys + [key]) == Terminated(keys) + key + [NUL]
    ensures Terminated(Without(keys + [key], secret)) ==
            Terminated(Without(keys, secret)) + if key == secret then [] else key + [NUL]
  {
    TerminatedAppend(keys, [key]);
    TerminatedOne(key);
    WithoutAppend(keys, key, secret);
    TerminatedAppend(Without(keys, secret), if key == secret then [] else [key]);
  }

  lemma {:induction false} WithoutAppend(keys: seq<string>, key: string, secret: string)
    ensures Without(keys + [key], secret) == Without(keys, secret) + if key == secret then [] else [key]
  {
    if keys == [] {
      assert [] + [key] == [key] && [key][1..] == [];
    } else {
      assert (keys + [key])[1..] == keys[1..] + [key];
      WithoutAppend(keys[1..], key, secret);
    }
  }

  /** The caller sees its own xattrs, all of them and in order, and never fakefs's. */
  lemma {:induction false} WithoutKeepsTheRest(keys: seq<string>, secret: string)
    ensures secret !in Without(keys, secret)
    ensures multiset(Without(keys, secret)) == multiset(keys)[secret := 0]
    ensures secret !in keys ==> Without(keys, secret) == keys
  {
    if keys != [] {
      WithoutKeepsTheRest(keys[1..], secret);
      assert keys == [keys[0]] + keys[1..];
    }
  }
}
