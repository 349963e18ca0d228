/** The log of file accesses that auditfuse writes from many goroutines, and its reader. */
module AuditLog {
  import opened NulList
  import opened Wrappers

  datatype AccessType = Lookup | Readdir

  datatype Entry = Entry(accessType: AccessType, path: string)

  function TypeName(t: AccessType): string {
    match t
    case Lookup => "LOOKUP"
    case Readdir => "READDIR"
  }

  /** What is written of an entry, without the NUL behind it. */
  function Line(e: Entry): string {
    TypeName(e.accessType) + ['\t'] + e.path
  }

  function Lines(log: seq<Entry>): seq<string> {
    seq(|log|, i requires 0 <= i < |log| => Line(log[i]))
  }

  // ---- The reader --------------------------------------------------------------

  /** What stands before and behind the first tab of `head + s`; `head` has none. */
  function SplitOnce(head: string, s: string): Option<(string, string)>
    decreases |s|
  {
    if s == [] then None
    else if s[0] == '\t' then Some((head, s[1..]))
    else SplitOnce(head + [s[0]], s[1..])
  }

  function ParseType(s: string): Option<AccessType> {
    if s == "LOOKUP" then Some(Lookup) else if s == "READDIR" then Some(Readdir) else None
  }

  function ParseEntry(s: string): Option<Entry> {
    var parts := SplitOnce([], s);
    if parts.None? then None else
    var t := ParseType(parts.value.0);
    if t.None? then None else Some(Entry(t.value, parts.value.1))
  }

  /** Fails if one of the items does. */
  function ParseEntries(items: seq<string>): Option<seq<Entry>> {
    if items == [] then Some([]) else
    var first, rest := ParseEntry(items[0]), ParseEntries(items[1..]);
    if first.None? || rest.None? then None else Some([first.value] + rest.value)
  }

  /** A file that is not empty must end with a NUL; what is left of it is split at NULs. */
  function ParseAuditFile(content: string): Option<seq<Entry>> {
    var (items, rest) := Read(content, []);
    if rest != [] then None else ParseEntries(items)
  }

  lemma {:induction false} SplitOnceAt(head: string, name: string, path: string)
    requires '\t' !in name
    ensures SplitOnce(head, name + ['\t'] + path) == Some((head + name, path))
    decreases |name|
  {
    var s := name + ['\t'] + path;
    if name == [] {
      assert s == ['\t'] + path && s[1..] == path;
      assert head + name == head;
    } else {
      assert s[1..] == name[1..] + ['\t'] + path;
      SplitOnceAt(head + [name[0]], name[1..], path);
      assert head + [name[0]] + name[1..] == head + name;
    }
  }

  lemma {:induction false} ParseLine(e: Entry)
    ensures ParseEntry(Line(e)) == Some(e)
  {
    SplitOnceAt([], TypeName(e.accessType), e.path);
    assert [] + TypeName(e.accessType) == TypeName(e.accessType);
  }

  lemma {:induction false} ParseParsed(items: seq<string>, log: seq<Entry>)
    requires |items| == |log| && forall i :: 0 <= i < |log| ==> ParseEntry(items[i]) == Some(log[i])
    ensures ParseEntries(items) == Some(log)
  {
    if log != [] {
      ParseParsed(items[1..], log[1..]);
      assert [log[0]] + log[1..] == log;
    }
  }

  /** A path of the file system holds no NUL. */
  ghost predicate NulFreePaths(log: seq<Entry>) {
    forall i :: 0 <= i < |log| ==> NUL !in log[i].path
  }

  lemma {:induction false} LinesNulFree(log: seq<Entry>)
    requires NulFreePaths(log)
    ensures NulFree(Lines(log))
  {
  }

  /** What is written of a list of entries reads as that list. */
  lemma {:induction false} ParseWritten(log: seq<Entry>)
    requires NulFreePaths(log)
    ensures ParseAuditFile(Terminated(Lines(log))) == Some(log)
  {
    LinesNulFree(log);
    ReadTerminated(Lines(log), []);
    assert Terminated(Lines(log)) + [] == Terminated(Lines(log));
    forall i | 0 <= i < |log| ensures ParseEntry(Lines(log)[i]) == Some(log[i]) {
      ParseLine(log[i]);
    }
    ParseParsed(Lines(log), log);
  }

  /** A line is read exactly if it begins with one of the two names and a tab. */
  lemma {:induction false} ParseEntryExactly(s: string, e: Entry)
    ensures ParseEntry(s) == Some(e) <==> s == (if e.accessType.Lookup? then "LOOKUP" else "READDIR") + "\t" + e.path
  {
    ParseLine(e);
    var parts := SplitOnce([], s);
    if parts.Some? {
      SplitIsInverse([], s);
      assert [] + s == s;
    }
  }

  lemma {:induction false} SplitIsInverse(head: string, s: string)
    requires SplitOnce(head, s).Some?
    ensures head + s == SplitOnce(head, s).value.0 + ['\t'] + SplitOnce(head, s).value.1
    decreases |s|
  {
    if s[0] == '\t' {
      assert head + s == head + ['\t'] + s[1..];
    } else {
      SplitIsInverse(head + [s[0]], s[1..]);
      assert head + [s[0]] + s[1..] == head + s;
    }
  }

  lemma {:induction false} ParsedItems(items: seq<string>, log: seq<Entry>)
    requires ParseEntries(items) == Some(log)
    ensures items == Lines(log)
  {
    if items != [] {
      var first, rest := ParseEntry(items[0]).value, ParseEntries(items[1..]).value;
      ParseEntryExactly(items[0], first);
      ParsedItems(items[1..], rest);
      assert log[0] == first && log[1..] == rest;
      forall i | 0 <= i < |items| ensures items[i] == Line(log[i]) {
        if i > 0 {
          assert items[i] == items[1..][i - 1] && log[i] == rest[i - 1];
        }
      }
    }
  }

  /** A file reads as a list exactly if it is what is written of that list. */
  lemma {:induction false} ParsesExactly(content: string, log: seq<Entry>)
    ensures ParseAuditFile(content) == Some(log) <==> NulFreePaths(log) && content == Terminated(Lines(log))
  {
    if ParseAuditFile(content) == Some(log) {
      var (items, rest) := Read(content, []);
      ReadIsInverse(content, []);
      ParsedItems(items, log);
      assert [] + content == content && Terminated(items) + [] == Terminated(items);
      forall i | 0 <= i < |log| ensures NUL !in log[i].path {
        assert NUL !in items[i] && items[i] == Line(log[i]);
        PathInLine(log[i]);
      }
    } else if NulFreePaths(log) && content == Terminated(Lines(log)) {
      ParseWritten(log);
    }
  }

  lemma PathInLine(e: Entry)
    requires NUL !in Line(e)
    ensures NUL !in e.path
  {
    forall i | 0 <= i < |e.path| ensures e.path[i] != NUL {
      assert Line(e)[|TypeName(e.accessType)| + 1 + i] == e.path[i];
    }
  }

  // ---- The writer --------------------------------------------------------------

  class Reporter {
    var out: string
    var seen: set<Entry>

    constructor ()
      ensures out == [] && seen == {}
    {
      out, seen := [], {};
    }

    /** What is done under the read lock. */
    method WasSeen(e: Entry) returns (ok: bool)
      ensures ok <==> e in seen
    {
      ok := e in seen;
    }

    /** What is done under the write lock. */
    method Append(e: Entry)
      modifies this
      ensures out == old(out) + Line(e) + [NUL] && seen == old(seen) + {e}
    {
      out := out + Line(e) + [NUL];
      seen := seen + {e};
    }

    /** A report that no other report interrupts. */
    method Report(t: AccessType, path: string)
      modifies this
      ensures seen == old(seen) + {Entry(t, path)}
      ensures out == if Entry(t, path) in old(seen) then old(out) else old(out) + Line(Entry(t, path)) + [NUL]
    {
      var e := Entry(t, path);
      var ok := WasSeen(e);
      if ok {
        return;
      }
      Append(e);
    }
  }

  lemma {:induction false} TerminatedLine(log: seq<Entry>, e: Entry)
    ensures Terminated(Lines(log + [e])) == Terminated(Lines(log)) + Line(e) + [NUL]
  {
    assert Lines(log + [e]) == Lines(log) + [Line(e)];
    TerminatedAppend(Lines(log), [Line(e)]);
    TerminatedOne(Line(e));
    assert Terminated(Lines(log)) + (Line(e) + [NUL]) == Terminated(Lines(log)) + Line(e) + [NUL];
  }

  /** Each entry of a list once, in the order of first occurrence. */
  function FirstOccurrences(reports: seq<Entry>): (log: seq<Entry>)
    ensures forall e :: e in log <==> e in reports
    ensures forall i, j :: 0 <= i < j < |log| ==> log[i] != log[j]
  {
    if reports == [] then [] else
    var init, last := reports[..|reports| - 1], reports[|reports| - 1];
    assert reports == init + [last];
    if last in init then FirstOccurrences(init) else FirstOccurrences(init) + [last]
  }

  function SetOf(log: seq<Entry>): set<Entry> {
    set e | e in log
  }

  /** Reports made one after another: each entry is written once, when first reported. */
  method ReportAll(reports: seq<Entry>) returns (out: string)
    ensures out == Terminated(Lines(FirstOccurrences(reports)))
  {
    var r := new Reporter();
    for i := 0 to |reports|
      invariant r.out == Terminated(Lines(FirstOccurrences(reports[..i])))
      invariant r.seen == SetOf(reports[..i])
    {
      var e := reports[i];
      assert reports[..i + 1] == reports[..i] + [e];
      assert reports[..i + 1][..i] == reports[..i];
      assert SetOf(reports[..i + 1]) == SetOf(reports[..i]) + {e};
      TerminatedLine(FirstOccurrences(reports[..i]), e);
      r.Report(e.accessType, e.path);
    }
    assert reports[..|reports|] == reports;
    out := r.out;
  }

  lemma {:induction false} SequentialLogParses(reports: seq<Entry>)
    requires NulFreePaths(reports)
    ensures ParseAuditFile(Terminated(Lines(FirstOccurrences(reports)))) == Some(FirstOccurrences(reports))
  {
    var log := FirstOccurrences(reports);
    forall i | 0 <= i < |log| ensures NUL !in log[i].path {
      assert log[i] in reports;
    }
    ParseWritten(log);
  }

  // ---- Many goroutines ---------------------------------------------------------

  /** The file and the map, the reports that found their entry missing and wait for
      the write lock, and the reports that have returned. */
  datatype State = State(out: string, seen: set<Entry>, pending: multiset<Entry>, returned: multiset<Entry>)

  /** A report starts with a check; it appends if the entry was not seen then. */
  datatype Step = Check(e: Entry) | Append(e: Entry)

  const INITIAL := State([], {}, multiset{}, multiset{})

  predicate Enabled(s: State, step: Step) {
    step.Append? ==> step.e in s.pending
  }

  function Next(s: State, step: Step): State
    requires Enabled(s, step)
  {
    match step
    case Check(e) =>
      if e in s.seen then s.(returned := s.returned + multiset{e}) else s.(pending := s.pending + multiset{e})
    case Append(e) =>
      State(s.out + Line(e) + [NUL], s.seen + {e}, s.pending - multiset{e}, s.returned + multiset{e})
  }

  /** Each state follows from the one before it. */
  ghost predicate IsRun(states: seq<State>, steps: seq<Step>) {
    && |states| == |steps| + 1
    && states[0] == INITIAL
    && forall i :: 0 <= i < |steps| ==> Linked(states, steps, i)
  }

  ghost predicate Linked(states: seq<State>, steps: seq<Step>, i: nat)
    requires i < |steps| && |states| == |steps| + 1
  {
    Enabled(states[i], steps[i]) && states[i + 1] == Next(states[i], steps[i])
  }

  /** The entries whose reports were started in the first `n` steps. */
  function Started(steps: seq<Step>, n: nat): multiset<Entry>
    requires n <= |steps|
  {
    if n == 0 then multiset{}
    else if steps[n - 1].Check? then Started(steps, n - 1) + multiset{steps[n - 1].e}
    else Started(steps, n - 1)
  }

  /** The entries written in the first `n` steps, in order. */
  function Written(steps: seq<Step>, n: nat): seq<Entry>
    requires n <= |steps|
  {
    if n == 0 then []
    else if steps[n - 1].Append? then Written(steps, n - 1) + [steps[n - 1].e]
    else Written(steps, n - 1)
  }

  /** What holds whenever no lock is held. */
  ghost predicate Inv(s: State, started: multiset<Entry>, written: seq<Entry>) {
    && s.out == Terminated(Lines(written))
    && s.seen == SetOf(written)
    && (forall e :: e in s.returned ==> e in s.seen)
    && started == s.pending + s.returned
    && multiset(written) <= s.returned
  }

  lemma {:induction false} Moved<T>(pending: multiset<T>, returned: multiset<T>, e: T)
    ensures pending + returned + multiset{e} == (pending + multiset{e}) + returned == pending + (returned + multiset{e})
    ensures e in pending ==> (pending - multiset{e}) + (returned + multiset{e}) == pending + returned
    ensures forall m: multiset<T> :: m <= returned ==>
              m <= returned + multiset{e} && m + multiset{e} <= returned + multiset{e}
  {
  }

  lemma {:induction false} CheckKeepsInv(s: State, e: Entry, started: multiset<Entry>, written: seq<Entry>)
    requires Inv(s, started, written)
    ensures Inv(Next(s, Check(e)), started + multiset{e}, written)
  {
    Moved(s.pending, s.returned, e);
  }

  lemma {:induction false} AppendKeepsInv(s: State, e: Entry, started: multiset<Entry>, written: seq<Entry>)
    requires Enabled(s, Append(e)) && Inv(s, started, written)
    ensures Inv(Next(s, Append(e)), started, written + [e])
  {
    TerminatedLine(written, e);
    assert SetOf(written + [e]) == SetOf(written) + {e};
    assert multiset(written + [e]) == multiset(written) + multiset{e};
    Moved(s.pending, s.returned, e);
  }

  lemma {:induction false} RunKeepsInv(states: seq<State>, steps: seq<Step>, n: nat)
    requires IsRun(states, steps) && n <= |steps|
    ensures Inv(states[n], Started(steps, n), Written(steps, n))
    decreases n
  {
    if n > 0 {
      RunKeepsInv(states, steps, n - 1);
      assert Linked(states, steps, n - 1);
      match steps[n - 1]
      case Check(e) => CheckKeepsInv(states[n - 1], e, Started(steps, n - 1), Written(steps, n - 1));
      case Append(e) => AppendKeepsInv(states[n - 1], e, Started(steps, n - 1), Written(steps, n - 1));
    }
  }

  lemma {:induction false} WrittenPaths(states: seq<State>, steps: seq<Step>, n: nat)
    requires IsRun(states, steps) && n <= |steps|
    requires forall i :: 0 <= i < |steps| ==> NUL !in steps[i].e.path
    ensures NulFreePaths(Written(steps, n))
    decreases n
  {
    if n > 0 {
      WrittenPaths(states, steps, n - 1);
    }
  }

  /** However reports interleave, whenever no lock is held the file parses, to the
      entries in the map; every report that has returned is among them, and no entry
      is there more often than it was reported. */
  lemma {:induction false} LogAlwaysParses(states: seq<State>, steps: seq<Step>, n: nat)
    requires IsRun(states, steps) && n <= |steps|
    requires forall i :: 0 <= i < |steps| ==> NUL !in steps[i].e.path
    ensures var s, parsed := states[n], ParseAuditFile(states[n].out);
            && parsed.Some?
            && s.seen == SetOf(parsed.value)
            && (forall e :: e in s.returned ==> e in parsed.value)
            && multiset(parsed.value) <= Started(steps, n)
  {
    RunKeepsInv(states, steps, n);
    WrittenPaths(states, steps, n);
    ParseWritten(Written(steps, n));
  }

  /** When all reports have returned, the file holds exactly what was reported. */
  lemma {:induction false} FinishedLogIsComplete(states: seq<State>, steps: seq<Step>)
    requires IsRun(states, steps) && states[|steps|].pending == multiset{}
    requires forall i :: 0 <= i < |steps| ==> NUL !in steps[i].e.path
    ensures var parsed := ParseAuditFile(states[|steps|].out);
            parsed.Some? && forall e :: e in parsed.value <==> e in Started(steps, |steps|)
  {
    var n := |steps|;
    RunKeepsInv(states, steps, n);
    WrittenPaths(states, steps, n);
    ParseWritten(Written(steps, n));
    forall e | e in Written(steps, n) ensures e in Started(steps, n) {
      assert e in multiset(Written(steps, n));
    }
  }

  /** Report number `j` checks an entry that another report has checked but not yet
      appended. */
  ghost predicate Overlaps(states: seq<State>, steps: seq<Step>, e: Entry, j: nat)
    requires j < |steps| && |states| == |steps| + 1
  {
    steps[j] == Check(e) && e !in states[j].seen && e in states[j].pending
  }

  /** The entries that were written or are about to be. */
  ghost function Due(states: seq<State>, steps: seq<Step>, n: nat): multiset<Entry>
    requires n <= |steps| < |states|
  {
    multiset(Written(steps, n)) + states[n].pending
  }

  lemma {:induction false} DueStep(states: seq<State>, steps: seq<Step>, n: nat)
    requires IsRun(states, steps) && n < |steps|
    ensures Due(states, steps, n + 1) == match steps[n]
              case Append(_) => Due(states, steps, n)
              case Check(e) =>
                if e in states[n].seen then Due(states, steps, n) else Due(states, steps, n) + multiset{e}
  {
    assert Linked(states, steps, n);
    var written, pending := Written(steps, n), states[n].pending;
    match steps[n]
    case Append(e) =>
      assert multiset(written + [e]) == multiset(written) + multiset{e};
      FromPending(multiset(written), pending, e);
    case Check(e) =>
      assert multiset(written) + (pending + multiset{e}) == multiset(written) + pending + multiset{e};
  }

  lemma FromPending(written: multiset<Entry>, pending: multiset<Entry>, e: Entry)
    requires e in pending
    ensures (written + multiset{e}) + (pending - multiset{e}) == written + pending
  {
  }

  lemma {:induction false} DueOnceMore(states: seq<State>, steps: seq<Step>, e: Entry, n: nat)
    requires IsRun(states, steps) && n < |steps|
    ensures Due(states, steps, n + 1)[e] > 1 <==> Due(states, steps, n)[e] > 1 || Overlaps(states, steps, e, n)
  {
    DueStep(states, steps, n);
    SeenIsWritten(states, steps, e, n);
  }

  /** More than one is due exactly if two reports overlapped. */
  lemma {:induction false} RepeatedOrPending(states: seq<State>, steps: seq<Step>, e: Entry, n: nat)
    requires IsRun(states, steps) && n <= |steps|
    ensures Due(states, steps, n)[e] > 1 <==> exists j :: 0 <= j < n && Overlaps(states, steps, e, j)
    decreases n
  {
    if n == 0 {
      assert states[0] == INITIAL;
    } else {
      RepeatedOrPending(states, steps, e, n - 1);
      DueOnceMore(states, steps, e, n - 1);
    }
  }

  lemma {:induction false} SeenIsWritten(states: seq<State>, steps: seq<Step>, e: Entry, n: nat)
    requires IsRun(states, steps) && n <= |steps|
    ensures e in states[n].seen <==> multiset(Written(steps, n))[e] > 0
  {
    RunKeepsInv(states, steps, n);
    assert e in Written(steps, n) <==> e in multiset(Written(steps, n));
  }

  /** Once all reports have returned, an entry stands in the file more than once exactly
      if some report of it checked while another one was between check and append. */
  lemma {:induction false} RepeatedExactly(states: seq<State>, steps: seq<Step>, e: Entry)
    requires IsRun(states, steps) && states[|steps|].pending == multiset{}
    requires forall i :: 0 <= i < |steps| ==> NUL !in steps[i].e.path
    ensures var parsed := ParseAuditFile(states[|steps|].out);
            parsed.Some? && (multiset(parsed.value)[e] > 1 <==>
                               exists j :: 0 <= j < |steps| && Overlaps(states, steps, e, j))
  {
    var n := |steps|;
    RunKeepsInv(states, steps, n);
    WrittenPaths(states, steps, n);
    ParseWritten(Written(steps, n));
    RepeatedOrPending(states, steps, e, n);
    assert Due(states, steps, n) == multiset(Written(steps, n));
  }

  /** Two reports of one entry that both check before either appends write it twice. */
  lemma {:induction false} WrittenTwice(e: Entry)
    requires NUL !in e.path
    ensures exists states: seq<State>, steps: seq<Step> ::
              IsRun(states, steps) && states[|steps|].pending == multiset{}
              && ParseAuditFile(states[|steps|].out) == Some([e, e])
  {
    var states, steps := TwiceRun(e);
    TerminatedLine([], e);
    TerminatedLine([e], e);
    assert [] + [e] == [e] && [e] + [e] == [e, e];
    assert Terminated(Lines([])) == [];
    ParseWritten([e, e]);
  }

  lemma {:induction false} TwiceRun(e: Entry) returns (states: seq<State>, steps: seq<Step>)
    ensures IsRun(states, steps) && states[|steps|].pending == multiset{}
    ensures states[|steps|].out == [] + Line(e) + [NUL] + Line(e) + [NUL]
  {
    steps := [Check(e), Check(e), Append(e), Append(e)];
    var s1 := Next(INITIAL, steps[0]);
    var s2 := Next(s1, steps[1]);
    var s3 := Next(s2, steps[2]);
    var s4 := Next(s3, steps[3]);
    states := [INITIAL, s1, s2, s3, s4];
    assert Linked(states, steps, 0) && Linked(states, steps, 1) && Linked(states, steps, 2) && Linked(states, steps, 3);
  }
}
