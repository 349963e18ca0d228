/** Whole lives of a durable tree: Bazel as the adversary, interrupted
    restorations, and many expanders sharing one lock.
 */
module DurableTreeRuns {
  import opened FileTree
  import opened Overlay
  import opened Wrappers
  import opened DurableTree

  // ---- One durable tree through time ---------------------------------------

  datatype Event =
    | Seal                            // the action ends: Bazel resets modes of a hot tree
    | RoundTrip                       // upload to the remote cache and download again
    | Expand(order: seq<Path>)        // an expand that is left to finish
    | Interrupted(order: seq<Path>, n: nat)  // an expand killed inside entry n, or behind the last one

  /** Modes may be anything afterwards; nothing else changes. */
  ghost predicate ModesReset(raw: Tree, raw': Tree) {
    && raw'.Keys == raw.Keys
    && forall p :: p in raw ==>
         Plain(raw[p]) && Plain(raw'[p]) && raw'[p] == SetMode(raw[p], raw'[p].mode)
  }

  /** Setting the marker cut short: the root is made writable, gets the marker, and has
      its mode set back. */
  ghost predicate MarkingStopped(d: Disk, d': Disk) {
    d' == d || d' == d.(rootMode := MODE_755) || d' == d.(rootMode := MODE_755, restored := true)
  }

  /** What an expand does to the raw directory and the restored marker. */
  ghost predicate Next(d: Disk, e: Event, d': Disk) {
    match e
    case Seal =>
      Hot(d) && !Hot(d') && ModesReset(d.raw, d'.raw) && d' == d.(rootMode := d'.rootMode, raw := d'.raw)
    case RoundTrip =>
      Forgotten(d.raw, d'.raw) && d' == Disk(d'.rootMode, false, d.manifest, d'.raw)
    case Expand(order) =>
      && ManifestOrder(order, d.manifest.Keys)
      && d' == Expanded(d, order).0
    case Interrupted(order, n) =>
      && ManifestOrder(order, d.manifest.Keys) && !Hot(d) && !d.restored && n <= |order|
      && StoppedAt(d.raw, d.manifest, order, n, d'.raw)
      && if n < |order| then d' == d.(raw := d'.raw) else MarkingStopped(d.(raw := d'.raw), d')
  }

  ghost predicate Run(states: seq<Disk>, events: seq<Event>) {
    && |states| == |events| + 1
    && forall i :: 0 <= i < |events| ==> Linked(states, events, i)
  }

  ghost predicate Linked(states: seq<Disk>, events: seq<Event>, i: nat)
    requires |states| == |events| + 1 && i < |events|
  {
    Next(states[i], events[i], states[i + 1])
  }

  lemma FreshIsSafe(d: Disk, t: Tree)
    requires Fresh(d, t)
    ensures Safe(d, t) && Hot(d)
  {
  }

  lemma ModesResetKeepRecoverable(raw: Tree, raw': Tree, t: Tree)
    requires Recoverable(raw, t) && ModesReset(raw, raw')
    ensures Recoverable(raw', t)
  {
  }

  lemma StepIsSafe(d: Disk, e: Event, d': Disk, t: Tree)
    requires Safe(d, t) && Next(d, e, d')
    ensures Safe(d', t)
  {
    match e
    case Seal =>
      ModesResetKeepRecoverable(d.raw, d'.raw, t);
    case RoundTrip =>
    case Expand(order) =>
      ExpandRestores(d, order, t);
    case Interrupted(order, n) =>
      InterruptedIsSafe(d, order, n, d', t);
  }

  lemma InterruptedIsSafe(d: Disk, order: seq<Path>, n: nat, d': Disk, t: Tree)
    requires Safe(d, t) && Next(d, Interrupted(order, n), d')
    ensures Safe(d', t)
  {
    assert ManifestOf(t).Keys == t.Keys;
    StringOrderVisitsParentsFirst(order, t);
    InterruptedRestoreRecovers(d.raw, t, order, n, d'.raw);
  }

  /** In every state of every run that starts with `convert`, the restored marker
      tells the truth. */
  lemma {:induction false} RunIsSafe(states: seq<Disk>, events: seq<Event>, t: Tree, n: nat)
    requires Run(states, events) && Fresh(states[0], t) && n <= |events|
    ensures Safe(states[n], t)
  {
    if n == 0 {
      FreshIsSafe(states[0], t);
    } else {
      RunIsSafe(states, events, t, n - 1);
      assert Linked(states, events, n - 1);
      StepIsSafe(states[n - 1], events[n - 1], states[n], t);
    }
  }

  /** Durable trees preserve directories: whatever Bazel and earlier expands did,
      an expand of a tree that is no longer hot succeeds, and its layers show the
      original tree over any base. */
  lemma EveryExpandReproduces(states: seq<Disk>, events: seq<Event>, t: Tree, order: seq<Path>,
                              base: Tree, dirMode: Mode)
    requires Run(states, events) && Fresh(states[0], t)
    requires ManifestOrder(order, states[|events|].manifest.Keys)
    ensures var (d, ok) := Expanded(states[|events|], order);
            && (ok <==> !Hot(states[|events|]))
            && (ok && HasChild(t) ==> Stack(base, LayersOf(ExtraOf(t, dirMode), d.raw)) == Merge(base, t))
            && (ok && !HasChild(t) ==> LayersOf(ExtraOf(t, dirMode), d.raw) == [])
  {
    RunIsSafe(states, events, t, |events|);
    ExpandRestores(states[|events|], order, t);
    ExpandedLayersShowTheOriginal(base, t, dirMode);
  }

  lemma CanBeSealed(d: Disk, t: Tree) returns (cool: Disk)
    requires Fresh(d, t)
    ensures Next(d, Seal, cool) && Safe(cool, t) && !Hot(cool) && cool.manifest.Keys == t.Keys
  {
    cool := d.(rootMode := MODE_555);
    FreshIsSafe(d, t);
    assert ModesReset(d.raw, cool.raw) && !Hot(cool);
    StepIsSafe(d, Seal, cool, t);
  }

  lemma RunOfTwo(a: Disk, e: Event, b: Disk, f: Event, c: Disk)
    requires Next(a, e, b) && Next(b, f, c)
    ensures Run([a, b, c], [e, f])
  {
    assert Linked([a, b, c], [e, f], 0) && Linked([a, b, c], [e, f], 1);
  }

  /** And such runs exist: once its modes are reset, a tree can be expanded. */
  lemma SealedTreeExpands(d: Disk, t: Tree, order: seq<Path>) returns (states: seq<Disk>)
    requires Fresh(d, t) && ManifestOrder(order, t.Keys)
    ensures Run(states, [Seal, Expand(order)]) && states[0] == d
    ensures !Hot(states[1]) && states[2].restored && states[2].raw == RawOf(t)
  {
    var cool := CanBeSealed(d, t);
    ExpandRestores(cool, order, t);
    var expanded := Expanded(cool, order).0;
    RunOfTwo(d, Seal, cool, Expand(order), expanded);
    states := [d, cool, expanded];
  }

  // ---- Many expanders and one lock -----------------------------------------

  datatype Phase =
    | Waiting
    | Restoring(n: nat)   // holds the lock, n entries done
    | Restored            // holds the lock, marker known to be set
    | Returned
    | Refused
    | Dead

  type Tid = nat

  /** `holder` is empty or the one thread that holds the exclusive lock. */
  datatype Sys = Sys(disk: Disk, holder: set<Tid>, phase: map<Tid, Phase>)

  ghost predicate Move(s: Sys, tid: Tid, order: seq<Path>, s': Sys)
    requires forall i :: 0 <= i < |order| ==> order[i] in s.disk.manifest
  {
    tid in s.phase &&
    match s.phase[tid]
    case Waiting =>
      // flock, then the hot check and the marker check.
      || (s.holder == {} &&
          (if Hot(s.disk) then s' == s.(phase := s.phase[tid := Refused])
           else if s.disk.restored then s' == s.(holder := {tid}, phase := s.phase[tid := Restored])
           else s' == s.(holder := {tid}, phase := s.phase[tid := Restoring(0)])))
      || s' == s.(phase := s.phase[tid := Dead])
    case Restoring(n) =>
      || (n < |order| &&
          match RestoreEntry(s.disk.raw, order[n], s.disk.manifest[order[n]])
          case Ok(raw) => s' == s.(disk := s.disk.(raw := raw), phase := s.phase[tid := Restoring(n + 1)])
          case Err => s' == s.(holder := {}, phase := s.phase[tid := Dead]))
      || (n == |order| && s' == s.(disk := s.disk.(restored := true), phase := s.phase[tid := Restored]))
      || (n == |order| && MarkingStopped(s.disk, s'.disk)
          && s' == s.(disk := s'.disk, holder := {}, phase := s.phase[tid := Dead]))
      || (n < |order| && HalfRestored(s.disk.raw, order[n], s.disk.manifest[order[n]], s'.disk.raw)
          && s' == s.(disk := s.disk.(raw := s'.disk.raw), holder := {}, phase := s.phase[tid := Dead]))
      || s' == s.(holder := {}, phase := s.phase[tid := Dead])
    case Restored =>
      || s' == s.(holder := {}, phase := s.phase[tid := Returned])
      || s' == s.(holder := {}, phase := s.phase[tid := Dead])
    case Returned => false
    case Refused => false
    case Dead => false
  }

  ghost predicate Interleaving(states: seq<Sys>, tids: seq<Tid>, order: seq<Path>, t: Tree) {
    && |states| == |tids| + 1
    && Safe(states[0].disk, t)
    && ParentsFirst(order, t)
    && states[0].holder == {}
    && (forall tid :: tid in states[0].phase ==> states[0].phase[tid] == Waiting)
    && forall i :: 0 <= i < |tids| ==> Moved(states, tids, order, i)
  }

  ghost predicate MovedBy(states: seq<Sys>, tid: Tid, order: seq<Path>, i: nat)
    requires i + 1 < |states|
  {
    && (forall k :: 0 <= k < |order| ==> order[k] in states[i].disk.manifest)
    && Move(states[i], tid, order, states[i + 1])
  }

  ghost predicate Moved(states: seq<Sys>, tids: seq<Tid>, order: seq<Path>, i: nat)
    requires |states| == |tids| + 1 && i < |tids|
  {
    MovedBy(states, tids[i], order, i)
  }

  predicate Holding(p: Phase) {
    p.Restoring? || p.Restored?
  }

  /** What one thread in `phase` knows. */
  ghost predicate Knows(s: Sys, tid: Tid, phase: Phase, order: seq<Path>, t: Tree) {
    && (Holding(phase) ==> s.holder == {tid})
    && (phase.Restoring? ==>
          !s.disk.restored && !Hot(s.disk) && phase.n <= |order| && RestoredUpTo(s.disk.raw, t, order, phase.n))
    && (phase.Restored? || phase.Returned? ==> s.disk.restored)
  }

  ghost predicate Inv(s: Sys, order: seq<Path>, t: Tree) {
    Safe(s.disk, t) && forall tid :: tid in s.phase ==> Knows(s, tid, s.phase[tid], order, t)
  }

  /** The other threads do not hold the lock, or nothing changes for them; the marker
      stays set. */
  lemma OthersStillKnow(s: Sys, tid: Tid, s': Sys, order: seq<Path>, t: Tree)
    requires Inv(s, order, t) && tid in s.phase && s'.phase.Keys == s.phase.Keys
    requires forall u :: u in s.phase && u != tid ==> s'.phase[u] == s.phase[u]
    requires s.disk.restored ==> s'.disk.restored
    requires s.holder == {} || s.holder == {tid} || (s'.holder == s.holder && s'.disk == s.disk)
    ensures forall u :: u in s'.phase && u != tid ==> Knows(s', u, s'.phase[u], order, t)
  {
    forall u | u in s'.phase && u != tid ensures Knows(s', u, s'.phase[u], order, t) {
      assert Knows(s, u, s.phase[u], order, t);
    }
  }

  lemma WaiterKeepsInv(s: Sys, tid: Tid, order: seq<Path>, s': Sys, t: Tree)
    requires Inv(s, order, t)
    requires forall i :: 0 <= i < |order| ==> order[i] in s.disk.manifest
    requires Move(s, tid, order, s') && !s.phase[tid].Restoring?
    ensures Inv(s', order, t)
  {
    assert Knows(s, tid, s.phase[tid], order, t);
    OthersStillKnow(s, tid, s', order, t);
    assert Knows(s', tid, s'.phase[tid], order, t);
  }

  lemma RestorerKeepsInv(s: Sys, tid: Tid, order: seq<Path>, s': Sys, t: Tree)
    requires Inv(s, order, t) && ParentsFirst(order, t)
    requires forall i :: 0 <= i < |order| ==> order[i] in s.disk.manifest
    requires Move(s, tid, order, s') && s.phase[tid].Restoring?
    ensures Inv(s', order, t)
  {
    assert Knows(s, tid, s.phase[tid], order, t);
    OthersStillKnow(s, tid, s', order, t);
    MoveKeepsDiskSafe(s, tid, order, s', t);
  }

  lemma MoveKeepsInv(s: Sys, tid: Tid, order: seq<Path>, s': Sys, t: Tree)
    requires Inv(s, order, t) && ParentsFirst(order, t)
    requires forall i :: 0 <= i < |order| ==> order[i] in s.disk.manifest
    requires Move(s, tid, order, s')
    ensures Inv(s', order, t)
  {
    if s.phase[tid].Restoring? {
      RestorerKeepsInv(s, tid, order, s', t);
    } else {
      WaiterKeepsInv(s, tid, order, s', t);
    }
  }

  /** A step of the thread that restores. */
  lemma MoveKeepsDiskSafe(s: Sys, tid: Tid, order: seq<Path>, s': Sys, t: Tree)
    requires Safe(s.disk, t) && ParentsFirst(order, t)
    requires forall i :: 0 <= i < |order| ==> order[i] in s.disk.manifest
    requires Move(s, tid, order, s') && s.phase[tid].Restoring? && Knows(s, tid, s.phase[tid], order, t)
    ensures Safe(s'.disk, t) && Knows(s', tid, s'.phase[tid], order, t)
  {
    var n := s.phase[tid].n;
    if n < |order| {
      RestoreStep(s.disk.raw, t, order, n);
      if s'.disk.raw != s.disk.raw && s'.phase[tid].Dead? {
        HalfRestoredIsRecoverable(s.disk.raw, t, order[n], s'.disk.raw);
      }
    } else {
      FullyRestored(s.disk.raw, t, order);
    }
  }

  lemma {:induction false} InterleavingKeepsInv(states: seq<Sys>, tids: seq<Tid>, order: seq<Path>, t: Tree, n: nat)
    requires Interleaving(states, tids, order, t) && n <= |tids|
    ensures Inv(states[n], order, t)
  {
    if n > 0 {
      InterleavingKeepsInv(states, tids, order, t, n - 1);
      assert Moved(states, tids, order, n - 1);
      MoveKeepsInv(states[n - 1], tids[n - 1], order, states[n], t);
    }
  }

  /** Under any interleaving of expanders, some of them killed at any point,
      whoever has returned sees the fully restored tree, and no expander fails but
      by being killed. */
  lemma WhoeverReturnsSeesTheOriginal(states: seq<Sys>, tids: seq<Tid>, order: seq<Path>, t: Tree, tid: Tid)
    requires Interleaving(states, tids, order, t)
    requires tid in states[|tids|].phase
    ensures states[|tids|].phase[tid].Returned? ==> states[|tids|].disk.raw == RawOf(t)
    ensures states[|tids|].phase[tid].Restoring? && states[|tids|].phase[tid].n < |order| ==>
              var n := states[|tids|].phase[tid].n;
              order[n] in ManifestOf(t) && RestoreEntry(states[|tids|].disk.raw, order[n], ManifestOf(t)[order[n]]).Ok?
  {
    InterleavingKeepsInv(states, tids, order, t, |tids|);
    var s := states[|tids|];
    assert Knows(s, tid, s.phase[tid], order, t);
    if s.phase[tid].Restoring? && s.phase[tid].n < |order| {
      RestoreStep(s.disk.raw, t, order, s.phase[tid].n);
    }
  }

  /** One thread moves, from the first state on. */
  ghost predicate Alone(states: seq<Sys>, tid: Tid, order: seq<Path>) {
    states != [] && forall i :: 0 <= i < |states| - 1 ==> MovedBy(states, tid, order, i)
  }

  function StepsLeft(phase: Phase, entries: nat): nat {
    match phase
    case Waiting => entries + 3
    case Restoring(n) => if n <= entries then entries - n + 2 else 0
    case Restored => 1
    case _ => 0
  }

  lemma RestoringMove(s: Sys, tid: Tid, order: seq<Path>, t: Tree) returns (s': Sys)
    requires Inv(s, order, t) && ParentsFirst(order, t) && tid in s.phase && s.phase[tid].Restoring?
    ensures forall i :: 0 <= i < |order| ==> order[i] in s.disk.manifest
    ensures Move(s, tid, order, s') && tid in s'.phase && s'.disk.rootMode == s.disk.rootMode
    ensures StepsLeft(s'.phase[tid], |order|) < StepsLeft(s.phase[tid], |order|) && Holding(s'.phase[tid])
  {
    assert Knows(s, tid, s.phase[tid], order, t);
    var n := s.phase[tid].n;
    if n < |order| {
      RestoreStep(s.disk.raw, t, order, n);
      var raw := RestoreEntry(s.disk.raw, order[n], s.disk.manifest[order[n]]).value;
      s' := s.(disk := s.disk.(raw := raw), phase := s.phase[tid := Restoring(n + 1)]);
    } else {
      s' := s.(disk := s.disk.(restored := true), phase := s.phase[tid := Restored]);
    }
  }

  lemma NextMove(s: Sys, tid: Tid, order: seq<Path>, t: Tree) returns (s': Sys)
    requires Inv(s, order, t) && ParentsFirst(order, t) && tid in s.phase && !Hot(s.disk)
    requires (s.phase[tid].Waiting? && s.holder == {}) || Holding(s.phase[tid])
    ensures forall i :: 0 <= i < |order| ==> order[i] in s.disk.manifest
    ensures Move(s, tid, order, s') && Inv(s', order, t) && tid in s'.phase && !Hot(s'.disk)
    ensures StepsLeft(s'.phase[tid], |order|) < StepsLeft(s.phase[tid], |order|)
    ensures if s.phase[tid].Restored? then s'.phase[tid].Returned? else Holding(s'.phase[tid])
  {
    match s.phase[tid] {
      case Waiting =>
        s' := s.(holder := {tid}, phase := s.phase[tid := if s.disk.restored then Restored else Restoring(0)]);
      case Restoring(_) =>
        s' := RestoringMove(s, tid, order, t);
      case Restored =>
        s' := s.(holder := {}, phase := s.phase[tid := Returned]);
    }
    MoveKeepsInv(s, tid, order, s', t);
  }

  lemma OneMoreMove(s: Sys, states: seq<Sys>, tid: Tid, order: seq<Path>)
    requires Alone(states, tid, order)
    requires forall k :: 0 <= k < |order| ==> order[k] in s.disk.manifest
    requires Move(s, tid, order, states[0])
    ensures Alone([s] + states, tid, order)
  {
    forall i | 0 <= i < |states| ensures MovedBy([s] + states, tid, order, i) {
      if i > 0 {
        assert MovedBy(states, tid, order, i - 1);
      }
    }
  }

  /** From whatever the others have left, an expander that gets the lock and is not killed
      restores the tree and returns. */
  lemma {:induction false} FinishesAlone(s: Sys, tid: Tid, order: seq<Path>, t: Tree) returns (states: seq<Sys>)
    requires Inv(s, order, t) && ParentsFirst(order, t) && tid in s.phase && !Hot(s.disk)
    requires (s.phase[tid].Waiting? && s.holder == {}) || Holding(s.phase[tid])
    ensures Alone(states, tid, order) && states[0] == s
    ensures var last := states[|states| - 1];
            && tid in last.phase && last.phase[tid].Returned?
            && last.disk.restored && last.disk.raw == RawOf(t) && Inv(last, order, t)
    decreases StepsLeft(s.phase[tid], |order|)
  {
    var s' := NextMove(s, tid, order, t);
    var rest := [s'];
    if s.phase[tid].Restored? {
      assert Knows(s', tid, s'.phase[tid], order, t);
    } else {
      rest := FinishesAlone(s', tid, order, t);
    }
    states := [s] + rest;
    OneMoreMove(s, rest, tid, order);
  }
}
