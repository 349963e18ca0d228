/** The fakefs tracer as a step machine over kernel stop events, and what holds
    in every run the kernel can produce.
 */
module TracerModel {
  import opened Wrappers

  type Tid = int
  type Pid = int

  /** A traced thread; hooks are numbered in the order in which they are installed. */
  datatype Thread = Thread(pid: Pid, hook: Option<nat>)

  datatype State = State(threads: map<Tid, Thread>, installed: nat, ran: seq<nat>)

  const SIGTRAP := 5
  const SYSCALL_EXIT := 0x85   // SIGTRAP | 0x80

  const EVENT_FORK := 1
  const EVENT_VFORK := 2
  const EVENT_CLONE := 3
  const EVENT_EXEC := 4
  const EVENT_SECCOMP := 7
  const EVENT_STOP := 128

  /** A wait status. `cause` is the ptrace event number, or not positive. */
  datatype Status =
    | Exited(code: int)
    | Signaled(signal: int)
    | Stopped(stopSignal: int, cause: int)
    | Odd

  /** What `wait4` reports for a thread. `pid` is what /proc says about it, if it can
      still be read; `regs` whether its registers can be; `hooks` whether the system
      call at hand is one to be simulated. */
  datatype Event = Event(tid: Tid, pid: Option<Pid>, status: Status, regs: bool, hooks: bool)

  datatype Action = Inject(signal: int) | Ignore | Syscall | Listen

  datatype Outcome =
    | Resume(action: Action)
    | Nothing
    | Exit(code: int)
    | Fail

  function ExitCode(s: Status): int {
    match s
    case Signaled(signal) => 128 + signal
    case Exited(code) => code
    case _ => 0
  }

  function Others(threads: map<Tid, Thread>, tid: Tid, pid: Pid): map<Tid, Thread> {
    map t | t in threads && (t == tid || threads[t].pid != pid) :: threads[t]
  }

  /** `processStop`. */
  function ProcessStop(s: State, e: Event): (State, Outcome)
    requires e.tid in s.threads && e.status.Stopped?
  {
    var thread := s.threads[e.tid];
    if e.status.stopSignal == SYSCALL_EXIT then
      if thread.hook.None? then (s, Fail)
      else if !e.regs then (s, Resume(Ignore))
      else
        var threads := s.threads[e.tid := thread.(hook := None)];
        (s.(threads := threads, ran := s.ran + [thread.hook.value]), Resume(Ignore))
    else if e.status.cause > 0 then
      if e.status.cause == EVENT_SECCOMP then
        if !e.regs then (s, Resume(Ignore))
        else if e.hooks then
          var threads := s.threads[e.tid := thread.(hook := Some(s.installed))];
          (s.(threads := threads, installed := s.installed + 1), Resume(Syscall))
        else (s.(threads := s.threads[e.tid := thread.(hook := None)]), Resume(Ignore))
      else if e.status.cause in {EVENT_CLONE, EVENT_FORK, EVENT_VFORK} then (s, Resume(Ignore))
      else if e.status.cause == EVENT_EXEC then
        if e.tid != thread.pid then (s, Fail)
        else (s.(threads := Others(s.threads, e.tid, thread.pid)), Resume(Ignore))
      else if e.status.cause == EVENT_STOP then
        (s, Resume(if e.status.stopSignal == SIGTRAP then Ignore else Listen))
      else (s, Fail)
    else (s, Resume(Inject(e.status.stopSignal)))
  }

  predicate HasThreadOf(threads: map<Tid, Thread>, pid: Pid) {
    exists t :: t in threads && threads[t].pid == pid
  }

  /** A thread seen for the first time enters the index. */
  function Known(s: State, e: Event): State {
    if e.tid in s.threads || e.pid.None? then s
    else s.(threads := s.threads[e.tid := Thread(e.pid.value, None)])
  }

  /** One round of the tracer: `waitNextStop` and then `processStop`. */
  function Step(s: State, root: Pid, e: Event): (State, Outcome) {
    var known := Known(s, e);
    if e.tid !in known.threads then (s, Nothing)
    else
      match e.status
      case Exited(_) => Gone(known, root, e)
      case Signaled(_) => Gone(known, root, e)
      case Odd => (known, Fail)
      case Stopped(_, _) => ProcessStop(known, e)
  }

  function Gone(s: State, root: Pid, e: Event): (State, Outcome)
    requires e.tid in s.threads
  {
    var left := s.threads - {e.tid};
    (s.(threads := left),
     if s.threads[e.tid].pid == root && !HasThreadOf(left, root) then Exit(ExitCode(e.status)) else Nothing)
  }

  // ---- The kernel -------------------------------------------------------------

  /** A thread as the kernel knows it. `armed` is the hook its tracer held when it
      last resumed the thread with PTRACE_SYSCALL, if that was its last resumption. */
  datatype Task = Task(pid: Pid, armed: Option<nat>)

  type Kernel = map<Tid, Task>

  /** What the kernel can report: a syscall-exit stop only for a thread last resumed
      with PTRACE_SYSCALL, an exec only under the leader's tid, only ptrace events
      that were asked for, and the true thread group. */
  ghost predicate Possible(k: Kernel, e: Event) {
    && (e.tid in k && e.pid.Some? ==> e.pid.value == k[e.tid].pid)
    && !e.status.Odd?
    && (e.status.Stopped? ==>
          && (e.status.stopSignal == SYSCALL_EXIT ==> e.tid in k && k[e.tid].armed.Some?)
          && (e.status.cause > 0 ==>
                e.status.cause in {EVENT_FORK, EVENT_VFORK, EVENT_CLONE, EVENT_EXEC, EVENT_SECCOMP, EVENT_STOP})
          && (e.status.cause == EVENT_EXEC && e.status.stopSignal != SYSCALL_EXIT ==>
                (e.tid in k ==> k[e.tid].pid == e.tid) && (e.pid.Some? ==> e.pid.value == e.tid)))
  }

  /** The kernel's view after the tracer reacted. An exec ends all other threads of
      the process without a word, and the thread that did it goes on as the leader. */
  function React(k: Kernel, e: Event, s': State, out: Outcome): Kernel {
    if e.status.Exited? || e.status.Signaled? then k - {e.tid}
    else if out.Resume? && e.tid in s'.threads then
      var survivors :=
        if e.status.Stopped? && e.status.cause == EVENT_EXEC && e.status.stopSignal != SYSCALL_EXIT
        then map t | t in k && k[t].pid != e.tid :: k[t]
        else k;
      survivors[e.tid := Task(s'.threads[e.tid].pid, if out.action.Syscall? then s'.threads[e.tid].hook else None)]
    else k
  }

  ghost predicate Run(states: seq<State>, kernels: seq<Kernel>, events: seq<Event>, root: Pid) {
    && |states| == |kernels| == |events| + 1
    && states[0] == State(map[], 0, [])
    && kernels[0] == map[]
    && forall i :: 0 <= i < |events| ==> Linked(states, kernels, events, root, i)
  }

  ghost predicate Linked(states: seq<State>, kernels: seq<Kernel>, events: seq<Event>, root: Pid, i: nat)
    requires |states| == |kernels| == |events| + 1 && i < |events|
  {
    && Possible(kernels[i], events[i])
    && states[i + 1] == Step(states[i], root, events[i]).0
    && kernels[i + 1] == React(kernels[i], events[i], states[i + 1], Step(states[i], root, events[i]).1)
  }

  // ---- Invariants --------------------------------------------------------------

  /** What the tracer remembers agrees with the kernel. */
  ghost predicate Inv(s: State, k: Kernel) {
    && (forall t :: t in s.threads ==> t in k && k[t].pid == s.threads[t].pid)
    && (forall t :: t in k && k[t].armed.Some? ==> t in s.threads && s.threads[t].hook == k[t].armed)
    && (forall t :: t in s.threads && s.threads[t].hook.Some? ==>
          s.threads[t].hook.value < s.installed && s.threads[t].hook.value !in s.ran)
    && (forall t, u :: t in s.threads && u in s.threads && t != u && s.threads[t].hook.Some? ==>
          s.threads[t].hook != s.threads[u].hook)
    && (forall i :: 0 <= i < |s.ran| ==> s.ran[i] < s.installed)
    && (forall i, j :: 0 <= i < j < |s.ran| ==> s.ran[i] != s.ran[j])
  }

  /** The kernel's view with a thread the tracer has just learned about. */
  function Learned(k: Kernel, e: Event): Kernel {
    if e.tid in k || e.pid.None? then k else k[e.tid := Task(e.pid.value, None)]
  }

  lemma KnownKeepsInv(s: State, k: Kernel, e: Event)
    requires Inv(s, k) && Possible(k, e)
    ensures Inv(Known(s, e), Learned(k, e))
  {
  }

  lemma SyscallExitKeepsInv(s: State, k: Kernel, e: Event)
    requires Inv(s, k) && Possible(k, e) && e.tid in s.threads && e.status.Stopped?
    requires e.status.stopSignal == SYSCALL_EXIT
    ensures var (s', out) := ProcessStop(s, e);
            Inv(s', React(k, e, s', out)) && out.Resume?
  {
    var hook := s.threads[e.tid].hook.value;
    assert k[e.tid].armed == Some(hook) && hook < s.installed && hook !in s.ran;
  }

  lemma SeccompKeepsInv(s: State, k: Kernel, e: Event)
    requires Inv(s, k) && Possible(k, e) && e.tid in s.threads && e.status.Stopped?
    requires e.status.stopSignal != SYSCALL_EXIT && e.status.cause == EVENT_SECCOMP
    ensures var (s', out) := ProcessStop(s, e);
            Inv(s', React(k, e, s', out)) && out.Resume?
  {
  }

  lemma ExecKeepsInv(s: State, k: Kernel, e: Event)
    requires Inv(s, k) && Possible(k, e) && e.tid in s.threads && e.status.Stopped?
    requires e.status.stopSignal != SYSCALL_EXIT && e.status.cause == EVENT_EXEC
    ensures var (s', out) := ProcessStop(s, e);
            Inv(s', React(k, e, s', out)) && out.Resume?
  {
  }

  lemma OtherStopKeepsInv(s: State, k: Kernel, e: Event)
    requires Inv(s, k) && Possible(k, e) && e.tid in s.threads && e.status.Stopped?
    requires e.status.stopSignal != SYSCALL_EXIT && e.status.cause != EVENT_SECCOMP && e.status.cause != EVENT_EXEC
    ensures var (s', out) := ProcessStop(s, e);
            Inv(s', React(k, e, s', out)) && out.Resume?
  {
  }

  lemma StopKeepsInv(s: State, k: Kernel, e: Event)
    requires Inv(s, k) && Possible(k, e) && e.tid in s.threads && e.status.Stopped?
    ensures var (s', out) := ProcessStop(s, e);
            Inv(s', React(k, e, s', out)) && out.Resume?
  {
    if e.status.stopSignal == SYSCALL_EXIT {
      SyscallExitKeepsInv(s, k, e);
    } else if e.status.cause == EVENT_SECCOMP {
      SeccompKeepsInv(s, k, e);
    } else if e.status.cause == EVENT_EXEC {
      ExecKeepsInv(s, k, e);
    } else {
      OtherStopKeepsInv(s, k, e);
    }
  }

  lemma EndKeepsInv(s: State, k: Kernel, root: Pid, e: Event)
    requires Inv(s, k) && e.tid in s.threads && (e.status.Exited? || e.status.Signaled?)
    ensures var (s', out) := Gone(s, root, e);
            Inv(s', React(k, e, s', out)) && !out.Fail?
  {
  }

  /** It does not matter whether the kernel's view is extended before or after. */
  lemma LearnedReacts(k: Kernel, e: Event, s': State, out: Outcome)
    requires e.status.Exited? || e.status.Signaled? || (out.Resume? && e.tid in s'.threads)
    requires e.tid !in k && e.pid.Some? && e.tid in s'.threads ==> s'.threads[e.tid].pid == e.pid.value
    ensures React(Learned(k, e), e, s', out) == React(k, e, s', out)
  {
  }

  lemma StepKeepsInv(s: State, k: Kernel, root: Pid, e: Event)
    requires Inv(s, k) && Possible(k, e)
    ensures var (s', out) := Step(s, root, e);
            Inv(s', React(k, e, s', out)) && !out.Fail?
  {
    KnownKeepsInv(s, k, e);
    var known, learned := Known(s, e), Learned(k, e);
    var (s', out) := Step(s, root, e);
    if e.tid !in known.threads {
      UnknownKeepsInv(s, k, e);
    } else if e.status.Stopped? {
      StopKeepsInv(known, learned, e);
      StopKeepsThread(known, e);
      LearnedReacts(k, e, s', out);
    } else {
      EndKeepsInv(known, learned, root, e);
      LearnedReacts(k, e, s', out);
    }
  }

  lemma StopKeepsThread(s: State, e: Event)
    requires e.tid in s.threads && e.status.Stopped?
    ensures var (s', _) := ProcessStop(s, e);
            e.tid in s'.threads && s'.threads[e.tid].pid == s.threads[e.tid].pid
  {
  }

  lemma UnknownKeepsInv(s: State, k: Kernel, e: Event)
    requires Inv(s, k) && e.tid !in Known(s, e).threads
    ensures Inv(s, React(k, e, s, Nothing))
  {
  }

  lemma {:induction false} RunKeepsInv(states: seq<State>, kernels: seq<Kernel>, events: seq<Event>, root: Pid, n: nat)
    requires Run(states, kernels, events, root) && n <= |events|
    ensures Inv(states[n], kernels[n])
  {
    if n > 0 {
      RunKeepsInv(states, kernels, events, root, n - 1);
      assert Linked(states, kernels, events, root, n - 1);
      StepKeepsInv(states[n - 1], kernels[n - 1], root, events[n - 1]);
    }
  }

  /** In every run: no round fails, so in particular there is no unexpected
      syscall-exit stop; and a thread is resumed with PTRACE_SYSCALL only while it
      holds a hook. */
  lemma NoUnexpectedStop(states: seq<State>, kernels: seq<Kernel>, events: seq<Event>, root: Pid, i: nat)
    requires Run(states, kernels, events, root) && i < |events|
    ensures !Step(states[i], root, events[i]).1.Fail?
    ensures Step(states[i], root, events[i]).1 == Resume(Syscall) ==>
              events[i].tid in states[i + 1].threads && states[i + 1].threads[events[i].tid].hook.Some?
  {
    RunKeepsInv(states, kernels, events, root, i);
    assert Linked(states, kernels, events, root, i);
    StepKeepsInv(states[i], kernels[i], root, events[i]);
  }

  // ---- What each event is answered with -------------------------------------------

  /** The thread is indexed or can be. */
  predicate Knows(s: State, e: Event) {
    e.tid in s.threads || e.pid.Some?
  }

  predicate Ended(e: Event) {
    e.status.Exited? || e.status.Signaled?
  }

  /** A stop other than that at the end of a system call, with no ptrace event: a signal is
      about to be delivered. */
  predicate SignalStop(e: Event) {
    e.status.Stopped? && e.status.stopSignal != 133 && e.status.cause <= 0
  }

  predicate EventStop(e: Event, cause: int) {
    e.status.Stopped? && e.status.stopSignal != 133 && e.status.cause == cause
  }

  /** PTRACE_EVENT_STOP with a stopping signal; with SIGTRAP a new thread starts. */
  predicate GroupStop(e: Event) {
    EventStop(e, 128) && e.status.stopSignal != 5
  }

  /** PTRACE_EVENT_SECCOMP for a system call that is simulated and can be read. */
  predicate Simulated(e: Event) {
    EventStop(e, 7) && e.regs && e.hooks
  }

  predicate SyscallExit(e: Event) {
    e.status.Stopped? && e.status.stopSignal == 133
  }

  /** In every run, each stop of a known thread is answered with a resumption: the signal
      that is to be delivered, LISTEN for a group stop, a stop at the end for a simulated
      system call, and nothing special for any other stop. Nothing else is resumed. */
  lemma AnsweredExactly(states: seq<State>, kernels: seq<Kernel>, events: seq<Event>, root: Pid, i: nat)
    requires Run(states, kernels, events, root) && i < |events|
    ensures var e, out := events[i], Step(states[i], root, events[i]).1;
            && (out.Resume? <==> Knows(states[i], e) && e.status.Stopped?)
            && (forall signal :: out == Resume(Inject(signal)) <==>
                  Knows(states[i], e) && SignalStop(e) && signal == e.status.stopSignal)
            && (out == Resume(Listen) <==> Knows(states[i], e) && GroupStop(e))
            && (out == Resume(Syscall) <==> Knows(states[i], e) && Simulated(e))
  {
    NoUnexpectedStop(states, kernels, events, root, i);
    assert Linked(states, kernels, events, root, i);
  }

  /** A round fails exactly for a known thread that stops in a way nobody asked for: at the
      end of a system call without a hook, by an unknown event, or at an exec that is not
      the leader's. */
  lemma FailsExactly(s: State, root: Pid, e: Event)
    ensures Step(s, root, e).1.Fail? <==>
            && Knows(s, e)
            && !Ended(e)
            && (e.status.Odd?
                || (SyscallExit(e) && (e.tid in s.threads ==> s.threads[e.tid].hook.None?))
                || (!SyscallExit(e) && e.status.cause > 0 && e.status.cause !in {1, 2, 3, 4, 7, 128})
                || (EventStop(e, 4) && e.tid != if e.tid in s.threads then s.threads[e.tid].pid else e.pid.value))
  {
  }

  /** The signals that the first `n` rounds inject. */
  function Injected(states: seq<State>, events: seq<Event>, root: Pid, n: nat): seq<int>
    requires n <= |events| < |states|
  {
    if n == 0 then []
    else
      var out := Step(states[n - 1], root, events[n - 1]).1;
      Injected(states, events, root, n - 1) + if out.Resume? && out.action.Inject? then [out.action.signal] else []
  }

  /** The signals that stop a known thread for delivery. */
  function Arrived(states: seq<State>, events: seq<Event>, n: nat): seq<int>
    requires n <= |events| < |states|
  {
    if n == 0 then []
    else
      var e := events[n - 1];
      Arrived(states, events, n - 1) +
      if Knows(states[n - 1], e) && SignalStop(e) then [e.status.stopSignal] else []
  }

  /** Over every run all of them are delivered, in order, and no others. */
  lemma {:induction false} SignalsAreDelivered(states: seq<State>, kernels: seq<Kernel>, events: seq<Event>, root: Pid,
                                               n: nat)
    requires Run(states, kernels, events, root) && n <= |events|
    ensures Injected(states, events, root, n) == Arrived(states, events, n)
  {
    if n > 0 {
      SignalsAreDelivered(states, kernels, events, root, n - 1);
      AnsweredExactly(states, kernels, events, root, n - 1);
      var out := Step(states[n - 1], root, events[n - 1]).1;
      if out.Resume? && out.action.Inject? {
        assert out == Resume(Inject(out.action.signal));
      }
    }
  }

  /** In every run the index gains exactly the threads whose process can be read, and loses
      exactly those that end and, when a known leader executes a program, its siblings. */
  lemma IndexedExactly(states: seq<State>, kernels: seq<Kernel>, events: seq<Event>, root: Pid, i: nat, t: Tid)
    requires Run(states, kernels, events, root) && i < |events|
    ensures var s, e, s' := states[i], events[i], states[i + 1];
            && (t in s'.threads <==>
                  && (t in s.threads || (t == e.tid && e.pid.Some?))
                  && !(t == e.tid && Ended(e))
                  && !(t != e.tid && EventStop(e, 4) && Knows(s, e) && s.threads[t].pid == e.tid))
            && (t in s'.threads ==> s'.threads[t].pid == if t in s.threads then s.threads[t].pid else e.pid.value)
  {
    RunKeepsInv(states, kernels, events, root, i);
    NoUnexpectedStop(states, kernels, events, root, i);
    assert Linked(states, kernels, events, root, i);
  }

  /** In every run the hook of a thread runs at exactly those of its syscall-exit stops at
      which its registers can be read. */
  lemma HookRunsExactly(states: seq<State>, kernels: seq<Kernel>, events: seq<Event>, root: Pid, i: nat)
    requires Run(states, kernels, events, root) && i < |events|
    ensures states[i + 1].ran != states[i].ran <==>
            Knows(states[i], events[i]) && SyscallExit(events[i]) && events[i].regs
  {
    NoUnexpectedStop(states, kernels, events, root, i);
    assert Linked(states, kernels, events, root, i);
  }

  /** In every run, no installed hook runs twice. */
  lemma HooksRunAtMostOnce(states: seq<State>, kernels: seq<Kernel>, events: seq<Event>, root: Pid)
    requires Run(states, kernels, events, root)
    ensures var ran := states[|events|].ran;
            forall i, j :: 0 <= i < j < |ran| ==> ran[i] != ran[j]
  {
    RunKeepsInv(states, kernels, events, root, |events|);
  }

  /** A round in which `tid` has no part. */
  predicate Silent(e: Event, tid: Tid) {
    e.tid != tid
  }

  /** The hook that runs at a syscall-exit stop is the one installed at the last event
      of that very thread; a hook left behind by a thread that an exec replaced is
      never run. */
  lemma HookBelongsToLastStop(states: seq<State>, kernels: seq<Kernel>, events: seq<Event>, root: Pid, j: nat)
    returns (i: nat)
    requires Run(states, kernels, events, root) && j < |events|
    requires states[j + 1].ran != states[j].ran
    ensures i < j && events[i].tid == events[j].tid
    ensures forall m :: i < m < j ==> Silent(events[m], events[j].tid)
    ensures Step(states[i], root, events[i]).1 == Resume(Syscall)
    ensures states[j + 1].ran == states[j].ran + [states[i].installed]
  {
    RunKeepsInv(states, kernels, events, root, j);
    assert Linked(states, kernels, events, root, j);
    var tid := events[j].tid;
    RanMeansArmed(states[j], kernels[j], root, events[j]);
    i := ArmedAt(states, kernels, events, root, tid, j);
  }

  lemma RanMeansArmed(s: State, k: Kernel, root: Pid, e: Event)
    requires Inv(s, k) && Possible(k, e) && Step(s, root, e).0.ran != s.ran
    ensures e.tid in k && k[e.tid].armed.Some? && Step(s, root, e).0.ran == s.ran + [k[e.tid].armed.value]
  {
  }

  /** One round arms the thread it is about, and no other. */
  lemma ArmedByStep(s: State, k: Kernel, root: Pid, e: Event, tid: Tid)
    requires Inv(s, k) && Possible(k, e)
    requires var (s', out) := Step(s, root, e);
             tid in React(k, e, s', out) && React(k, e, s', out)[tid].armed.Some?
    ensures var (s', out) := Step(s, root, e);
            if e.tid == tid
            then out == Resume(Syscall) && tid in s'.threads
                 && React(k, e, s', out)[tid].armed == s'.threads[tid].hook == Some(s.installed)
            else tid in k && k[tid].armed == React(k, e, s', out)[tid].armed
  {
  }

  /** A thread is armed at its last event. */
  lemma {:induction false} ArmedAt(states: seq<State>, kernels: seq<Kernel>, events: seq<Event>, root: Pid,
                                   tid: Tid, j: nat)
    returns (i: nat)
    requires Run(states, kernels, events, root) && j <= |events|
    requires tid in kernels[j] && kernels[j][tid].armed.Some?
    ensures i < j && events[i].tid == tid
    ensures forall m :: i < m < j ==> Silent(events[m], tid)
    ensures Step(states[i], root, events[i]).1 == Resume(Syscall)
    ensures kernels[j][tid].armed == Some(states[i].installed)
  {
    RunKeepsInv(states, kernels, events, root, j - 1);
    assert Linked(states, kernels, events, root, j - 1);
    ArmedByStep(states[j - 1], kernels[j - 1], root, events[j - 1], tid);
    if events[j - 1].tid == tid {
      i := j - 1;
    } else {
      i := ArmedAt(states, kernels, events, root, tid, j - 1);
    }
  }

  /** A root thread has been seen to stop, and the tracer has not left its loop. */
  ghost predicate RootSeen(states: seq<State>, events: seq<Event>, root: Pid, n: nat)
    requires |states| == |events| + 1 && n <= |events|
  {
    && (exists i :: 0 <= i < n && RootStop(states[i], events[i], root))
    && (forall i :: 0 <= i < n ==> !Step(states[i], root, events[i]).1.Exit?)
  }

  ghost predicate RootStop(s: State, e: Event, root: Pid) {
    e.status.Stopped? && e.tid in Known(s, e).threads && Known(s, e).threads[e.tid].pid == root
  }

  /** From the first stop of a root-process thread until the tracer exits, some thread
      of the root process stays indexed. */
  lemma {:induction false} RootStaysIndexed(states: seq<State>, kernels: seq<Kernel>, events: seq<Event>, root: Pid,
                                            n: nat)
    requires Run(states, kernels, events, root) && n <= |events| && RootSeen(states, events, root, n)
    ensures HasThreadOf(states[n].threads, root)
  {
    var s, e := states[n - 1], events[n - 1];
    assert Linked(states, kernels, events, root, n - 1);
    var (s', out) := Step(s, root, e);
    if RootStop(s, e, root) {
      assert e.tid in s'.threads && s'.threads[e.tid].pid == root;
    } else {
      assert RootSeen(states, events, root, n - 1) by {
        var i :| 0 <= i < n && RootStop(states[i], events[i], root);
        assert i < n - 1;
      }
      RootStaysIndexed(states, kernels, events, root, n - 1);
      var t :| t in s.threads && s.threads[t].pid == root;
      assert t in Known(s, e).threads;
      if e.status.Stopped? && e.tid in Known(s, e).threads {
        assert Known(s, e).threads[e.tid].pid != root;
        assert t in s'.threads && s'.threads[t].pid == root;
      } else if t in s'.threads {
        assert s'.threads[t].pid == root;
      } else {
        assert !Step(states[n - 1], root, events[n - 1]).1.Exit?;
      }
    }
  }

  /** The tracer leaves its loop with the exit status of the last root thread, and only
      then. */
  lemma ExitsWithRoot(s: State, root: Pid, e: Event)
    ensures Step(s, root, e).1.Exit? <==>
              && (e.status.Exited? || e.status.Signaled?)
              && e.tid in Known(s, e).threads
              && (forall t :: t in Known(s, e).threads && Known(s, e).threads[t].pid == root ==> t == e.tid)
              && Known(s, e).threads[e.tid].pid == root
    ensures Step(s, root, e).1.Exit? ==> !HasThreadOf(Step(s, root, e).0.threads, root)
    ensures Step(s, root, e).1.Exit? && e.status.Exited? ==> Step(s, root, e).1.code == e.status.code
    ensures Step(s, root, e).1.Exit? && e.status.Signaled? ==> Step(s, root, e).1.code == 128 + e.status.signal
  {
    var known := Known(s, e);
    if e.tid in known.threads {
      var left := known.threads - {e.tid};
      if forall t :: t in known.threads && known.threads[t].pid == root ==> t == e.tid {
        assert !HasThreadOf(left, root);
      } else {
        var t :| t in known.threads && known.threads[t].pid == root && t != e.tid;
        assert t in left && left[t].pid == root;
      }
    }
  }
}

/** The same machine as the program runs it, with its two indexes. */
module Tracer {
  import opened TracerModel
  import opened Wrappers

  class ThreadState {
    const tid: Tid
    const pid: Pid
    var hook: Option<nat>

    constructor (tid: Tid, pid: Pid)
      ensures this.tid == tid && this.pid == pid && hook == None
    {
      this.tid, this.pid, hook := tid, pid, None;
    }
  }

  type ByTid = map<Tid, ThreadState>
  type ByPid = map<Pid, map<Tid, ThreadState>>

  /** Both maps hold the same threads, and no inner map is empty. */
  ghost predicate Agree(byTid: ByTid, byPid: ByPid) {
    && (forall t :: t in byTid ==>
          byTid[t].tid == t && byTid[t].pid in byPid && t in byPid[byTid[t].pid])
    && (forall p :: p in byPid ==> byPid[p] != map[])
    && (forall p, t :: p in byPid && t in byPid[p] ==>
          t in byTid && byTid[t] == byPid[p][t] && byTid[t].pid == p)
  }

  lemma PutAgrees(byTid: ByTid, byPid: ByPid, t: ThreadState)
    requires Agree(byTid, byPid) && t.tid !in byTid
    ensures var inner: ByTid := if t.pid in byPid then byPid[t.pid] else map[];
            Agree(byTid[t.tid := t], byPid[t.pid := inner[t.tid := t]])
  {
    var inner: ByTid := if t.pid in byPid then byPid[t.pid] else map[];
    assert t.tid in inner[t.tid := t];
  }

  lemma RemoveAgrees(byTid: ByTid, byPid: ByPid, t: ThreadState)
    requires Agree(byTid, byPid) && t.tid in byTid && byTid[t.tid] == t
    ensures t.pid in byPid
    ensures var inner := byPid[t.pid] - {t.tid};
            Agree(byTid - {t.tid}, if inner == map[] then byPid - {t.pid} else byPid[t.pid := inner])
  {
    var inner := byPid[t.pid] - {t.tid};
    var byTid', byPid' := byTid - {t.tid}, if inner == map[] then byPid - {t.pid} else byPid[t.pid := inner];
    forall u | u in byTid'
      ensures byTid'[u].tid == u && byTid'[u].pid in byPid' && u in byPid'[byTid'[u].pid]
    {
      assert u in byPid[byTid[u].pid];
      if byTid[u].pid == t.pid {
        assert u in inner;
      }
    }
  }

  class ThreadStateIndex {
    var threadByTid: ByTid
    var threadByPid: ByPid

    constructor ()
      ensures Valid() && threadByTid == map[]
    {
      threadByTid, threadByPid := map[], map[];
    }

    ghost predicate Valid()
      reads this
    {
      Agree(threadByTid, threadByPid)
    }

    ghost function Threads(): set<ThreadState>
      reads this
    {
      set t | t in threadByTid :: threadByTid[t]
    }

    ghost function View(): map<Tid, Thread>
      reads this, Threads()
    {
      map t | t in threadByTid :: Thread(threadByTid[t].pid, threadByTid[t].hook)
    }

    /** A thread that is not indexed yet. */
    method Put(t: ThreadState)
      requires Valid() && t.tid !in threadByTid
      modifies this
      ensures Valid() && threadByTid == old(threadByTid)[t.tid := t]
    {
      PutAgrees(threadByTid, threadByPid, t);
      threadByTid := threadByTid[t.tid := t];
      if t.pid !in threadByPid {
        threadByPid := threadByPid[t.pid := map[]];
      }
      var inner: ByTid := threadByPid[t.pid];
      threadByPid := threadByPid[t.pid := inner[t.tid := t]];
    }

    method Remove(t: ThreadState)
      requires Valid() && t.tid in threadByTid && threadByTid[t.tid] == t
      modifies this
      ensures Valid() && threadByTid == old(threadByTid) - {t.tid}
    {
      RemoveAgrees(threadByTid, threadByPid, t);
      threadByTid := threadByTid - {t.tid};
      threadByPid := threadByPid[t.pid := threadByPid[t.pid] - {t.tid}];
      if threadByPid[t.pid] == map[] {
        threadByPid := threadByPid - {t.pid};
      }
    }

    /** The threads of a process, by ascending tid. */
    method GetByPid(pid: Pid) returns (threads: seq<ThreadState>)
      requires Valid()
      ensures forall t :: t in threads <==> t in Threads() && t.pid == pid
      ensures forall i, j :: 0 <= i < j < |threads| ==> threads[i].tid < threads[j].tid
    {
      threads := [];
      if pid !in threadByPid {
        assert forall t :: t in Threads() ==> t.pid in threadByPid;
        return;
      }
      var inner := threadByPid[pid];
      assert forall t :: t in inner ==> t in threadByTid && threadByTid[t] == inner[t];
      assert forall t :: t in inner ==> inner[t].tid == t;
      var left := inner.Keys;
      while left != {}
        invariant left <= inner.Keys && forall t :: t in inner ==> inner[t].tid == t
        invariant forall i :: 0 <= i < |threads| ==> threads[i].tid in inner && threads[i].tid !in left
                                                     && inner[threads[i].tid] == threads[i]
        invariant forall t :: t in inner && t !in left ==> inner[t] in threads
        invariant forall i, t :: 0 <= i < |threads| && t in left ==> threads[i].tid < t
        invariant forall i, j :: 0 <= i < j < |threads| ==> threads[i].tid < threads[j].tid
        decreases left
      {
        SmallestExists(left);
        var t :| t in left && forall u :: u in left ==> t <= u;
        threads := threads + [inner[t]];
        left := left - {t};
      }
      forall t | t in Threads() && t.pid == pid ensures t in threads {
        assert t.tid in inner;
      }
    }
  }

  class Tracer {
    const root: Pid
    const index: ThreadStateIndex
    // Hooks installed so far, which is how a new one gets its number, and those that
    // were run, in order.
    var installed: nat
    var ran: seq<nat>

    constructor (root: Pid)
      ensures this.root == root && index.Valid() && fresh(index) && View() == State(map[], 0, [])
    {
      this.root := root;
      index := new ThreadStateIndex();
      installed, ran := 0, [];
    }

    ghost function View(): State
      reads this, index, index.Threads()
    {
      State(index.View(), installed, ran)
    }

    /** `waitNextStop` up to the point where it has a stopped thread, ignores the event
        or gives up. */
    method WaitNextStop(e: Event) returns (thread: ThreadState?, out: Outcome)
      requires index.Valid()
      modifies index
      ensures index.Valid() && fresh(index.Threads() - old(index.Threads()))
      ensures thread != null ==> e.status.Stopped? && thread.tid == e.tid && thread in index.Threads()
                                 && View() == Known(old(View()), e)
      ensures thread == null ==> (View(), out) == Step(old(View()), root, e)
      ensures thread != null <==> e.tid in Known(old(View()), e).threads && e.status.Stopped?
    {
      thread, out := null, Nothing;
      var t := Admit(e);
      if t == null {
        return;
      }
      if e.status.Exited? || e.status.Signaled? {
        out := Finished(t, e);
        return;
      }
      if !e.status.Stopped? {
        out := Fail;
        return;
      }
      thread := t;
    }

    /** The thread an event is about; a new one enters the index. */
    method Admit(e: Event) returns (t: ThreadState?)
      requires index.Valid()
      modifies index
      ensures index.Valid() && fresh(index.Threads() - old(index.Threads()))
      ensures View() == Known(old(View()), e)
      ensures t == null <==> e.tid !in View().threads
      ensures t != null ==> t in index.Threads() && t.tid == e.tid
    {
      if e.tid in index.threadByTid {
        return index.threadByTid[e.tid];
      }
      if e.pid.None? {
        return null;
      }
      t := new ThreadState(e.tid, e.pid.value);
      index.Put(t);
    }

    /** A thread that is gone. */
    method Finished(t: ThreadState, e: Event) returns (out: Outcome)
      requires index.Valid() && t in index.Threads() && t.tid == e.tid
      modifies index
      ensures index.Valid() && index.Threads() <= old(index.Threads())
      ensures (View(), out) == Gone(old(View()), root, e)
    {
      index.Remove(t);
      assert index.View() == old(index.View()) - {e.tid};
      var rest := index.GetByPid(root);
      ghost var left := index.View();
      if rest != [] {
        assert rest[0] in rest;
        assert left[rest[0].tid].pid == root;
      } else {
        assert forall u :: u in index.threadByTid ==> index.threadByTid[u] in index.Threads();
        assert !HasThreadOf(left, root);
      }
      out := if t.pid == root && |rest| == 0 then Exit(ExitCode(e.status)) else Nothing;
    }

    method SetHook(thread: ThreadState, hook: Option<nat>)
      requires index.Valid() && thread in index.Threads()
      modifies thread
      ensures index.Valid() && thread.hook == hook
      ensures index.View() == old(index.View())[thread.tid := Thread(thread.pid, hook)]
    {
      assert index.threadByTid[thread.tid] == thread;
      assert forall t :: t in index.threadByTid && t != thread.tid ==> index.threadByTid[t].tid != thread.tid;
      thread.hook := hook;
      assert index.View() == old(index.View())[thread.tid := Thread(thread.pid, hook)];
    }

    /** `processStop`, with the resumption it asks for. */
    method ProcessStop(thread: ThreadState, e: Event) returns (out: Outcome)
      requires index.Valid() && thread in index.Threads() && thread.tid == e.tid && e.status.Stopped?
      modifies this`installed, this`ran, index, thread
      ensures index.Valid() && index.Threads() <= old(index.Threads())
      ensures (View(), out) == TracerModel.ProcessStop(old(View()), e)
    {
      var stopSignal, cause := e.status.stopSignal, e.status.cause;
      if stopSignal == SYSCALL_EXIT {
        if thread.hook.None? {
          return Fail;
        }
        if !e.regs {
          return Resume(Ignore);
        }
        ran := ran + [thread.hook.value];
        SetHook(thread, None);
        return Resume(Ignore);
      }
      if cause > 0 {
        if cause == EVENT_SECCOMP {
          if !e.regs {
            return Resume(Ignore);
          }
          SetHook(thread, if e.hooks then Some(installed) else None);
          if e.hooks {
            installed := installed + 1;
          }
          return Resume(if thread.hook.None? then Ignore else Syscall);
        }
        if cause == EVENT_CLONE || cause == EVENT_FORK || cause == EVENT_VFORK {
          return Resume(Ignore);
        }
        if cause == EVENT_EXEC {
          if thread.tid != thread.pid {
            return Fail;
          }
          RemoveSiblings(thread);
          return Resume(Ignore);
        }
        if cause == EVENT_STOP {
          return Resume(if stopSignal == SIGTRAP then Ignore else Listen);
        }
        return Fail;
      }
      return Resume(Inject(stopSignal));
    }

    /** After an exec only the leader is left. */
    method RemoveSiblings(thread: ThreadState)
      requires index.Valid() && thread in index.Threads()
      modifies index
      ensures index.Valid() && index.Threads() <= old(index.Threads())
      ensures index.View() == Others(old(index.View()), thread.tid, thread.pid)
    {
      var siblings := index.GetByPid(thread.pid);
      ghost var before := index.threadByTid;
      for i := 0 to |siblings|
        invariant index.Valid()
        invariant index.threadByTid ==
                  map t | t in before && (t == thread.tid || before[t] !in siblings[..i]) :: before[t]
      {
        assert siblings[i] in siblings;
        assert siblings[..i + 1] == siblings[..i] + [siblings[i]];
        if siblings[i].tid != thread.tid {
          assert siblings[i] !in siblings[..i];
          index.Remove(siblings[i]);
        }
      }
      assert siblings[..|siblings|] == siblings;
    }

    /** One round of the loop in `Run`. */
    method Round(e: Event) returns (out: Outcome)
      requires index.Valid()
      modifies this`installed, this`ran, index, index.Threads()
      ensures index.Valid()
      ensures (View(), out) == Step(old(View()), root, e)
    {
      var thread: ThreadState?;
      thread, out := WaitNextStop(e);
      if thread != null {
        out := ProcessStop(thread, e);
      }
    }
  }

  lemma EmptyOrNot(s: set<int>)
    ensures s == {} || exists t :: t in s
  {
    if forall t: int :: t !in s {
      assert s == {};
    }
  }

  lemma SmallestExists(s: set<int>)
    requires s != {}
    ensures exists t :: t in s && forall u :: u in s ==> t <= u
    decreases s
  {
    EmptyOrNot(s);
    var t :| t in s;
    var rest := s - {t};
    assert forall u :: u in s ==> u == t || u in rest;
    if rest != {} {
      SmallestExists(rest);
      var m :| m in rest && forall u :: u in rest ==> m <= u;
      var least := if t < m then t else m;
      assert least in s && forall u :: u in s ==> least <= u;
    }
  }
}
