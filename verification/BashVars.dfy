/** Shell variables, from the output of `set` in bash. */
module BashVars {
  import opened BashMeaning
  import opened BashWords
  import opened Utf8
  import opened Wrappers
  import Decimal

  datatype Value =
    | Scalar(text: string)
    | IndexedArray(items: seq<string>)
    | AssociativeArray(entries: map<string, string>)

  type Vars = map<string, Value>

  datatype Entry = Entry(key: string, value: string)

  // ---- Arrays ------------------------------------------------------------------

  const INDEX_LIMIT := 1000

  const USIZE_LIMIT := 0x1_0000_0000_0000_0000

  predicate AllDigits(s: string) {
    forall i :: 0 <= i < |s| ==> Decimal.IsDigit(s[i])
  }

  /** Digits, of which there must be one, behind an optional plus sign. */
  function ParseUsize(s: string): Option<nat> {
    var digits := if s != [] && s[0] == '+' then s[1..] else s;
    if digits == [] || !AllDigits(digits) || Decimal.Value(digits) >= USIZE_LIMIT then None
    else Some(Decimal.Value(digits))
  }

  lemma {:induction false} ParseUsizeOfDecimal(n: nat)
    requires n < USIZE_LIMIT
    ensures ParseUsize(Decimal.ToString(n)) == Some(n)
  {
    Decimal.ValueOfToString(n);
    assert Decimal.IsDigit(Decimal.ToString(n)[0]);
  }

  predicate IsIndex(key: string) {
    ParseUsize(key).Some? && ParseUsize(key).value < INDEX_LIMIT
  }

  function IndexOf(key: string): nat
    requires IsIndex(key)
  {
    ParseUsize(key).value
  }

  /** A number is an index below 1000, also behind a plus sign. */
  lemma {:induction false} NumberIsIndex(n: nat)
    ensures IsIndex(Decimal.ToString(n)) <==> n < 1000
    ensures IsIndex(['+'] + Decimal.ToString(n)) <==> n < 1000
    ensures n < 1000 ==> IndexOf(Decimal.ToString(n)) == IndexOf(['+'] + Decimal.ToString(n)) == n
  {
    Decimal.ValueOfToString(n);
    assert Decimal.IsDigit(Decimal.ToString(n)[0]);
    assert (['+'] + Decimal.ToString(n))[1..] == Decimal.ToString(n);
  }

  /** Nothing but digits and one sign makes an index. */
  lemma {:induction false} OnlyNumbersAreIndices(key: string, i: nat)
    requires i < |key| && !('0' <= key[i] <= '9') && !(i == 0 && key[i] == '+')
    ensures !IsIndex(key)
  {
    var digits := if key[0] == '+' then key[1..] else key;
    assert digits[if key[0] == '+' then i - 1 else i] == key[i];
  }

  predicate AllIndexed(es: seq<Entry>) {
    forall i :: 0 <= i < |es| ==> IsIndex(es[i].key)
  }

  function Items(es: seq<Entry>): seq<(nat, string)>
    requires AllIndexed(es)
  {
    seq(|es|, i requires 0 <= i < |es| => (IndexOf(es[i].key), es[i].value))
  }

  /** The value of the last of the first `n` items with index `k`. */
  function LastWith(items: seq<(nat, string)>, n: nat, k: nat): string
    requires n <= |items|
  {
    if n == 0 then []
    else if items[n - 1].0 == k then items[n - 1].1
    else LastWith(items, n - 1, k)
  }

  /** The length needed for the first `n` items. */
  function LengthFor(items: seq<(nat, string)>, n: nat): nat
    requires n <= |items|
  {
    if n == 0 then 0 else
    var before, needed := LengthFor(items, n - 1), items[n - 1].0 + 1;
    if needed > before then needed else before
  }

  /** The value of the last item for each index, and empty strings in between. */
  function Indexed(items: seq<(nat, string)>, n: nat): seq<string>
    requires n <= |items|
  {
    seq(LengthFor(items, n), k requires 0 <= k => LastWith(items, n, k))
  }

  function Associated(es: seq<Entry>, n: nat): map<string, string>
    requires n <= |es|
  {
    if n == 0 then map[] else Associated(es, n - 1)[es[n - 1].key := es[n - 1].value]
  }

  function ValueOf(es: seq<Entry>): Value {
    if AllIndexed(es) then IndexedArray(Indexed(Items(es), |es|)) else AssociativeArray(Associated(es, |es|))
  }

  lemma {:induction false} BeyondLength(items: seq<(nat, string)>, n: nat, k: nat)
    requires n <= |items| && k >= LengthFor(items, n)
    ensures LastWith(items, n, k) == []
    decreases n
  {
    if n > 0 {
      BeyondLength(items, n - 1, k);
    }
  }

  /** The array grows in place where an index is beyond its end. */
  method FillIndexed(items: seq<(nat, string)>) returns (values: seq<string>)
    ensures values == Indexed(items, |items|)
  {
    values := [];
    for i := 0 to |items|
      invariant values == Indexed(items, i)
    {
      var index := items[i].0;
      if index >= |values| {
        values := values + seq(index + 1 - |values|, _ => []);
      }
      values := values[index := items[i].1];
      forall k | 0 <= k < |values| ensures values[k] == LastWith(items, i + 1, k) {
        if k >= LengthFor(items, i) {
          BeyondLength(items, i, k);
        }
      }
    }
  }

  method ToValue(es: seq<Entry>) returns (v: Value)
    ensures v == ValueOf(es)
  {
    var isIndexed := true;
    for i := 0 to |es|
      invariant isIndexed <==> forall j :: 0 <= j < i ==> IsIndex(es[j].key)
    {
      isIndexed := isIndexed && IsIndex(es[i].key);
    }
    if isIndexed {
      var values := FillIndexed(Items(es));
      return IndexedArray(values);
    }
    var entries: map<string, string> := map[];
    for i := 0 to |es|
      invariant entries == Associated(es, i)
    {
      entries := entries[es[i].key := es[i].value];
    }
    return AssociativeArray(entries);
  }

  /** How an array with these indices is printed. */
  function Numbered(items: seq<(nat, string)>): seq<Entry> {
    seq(|items|, i requires 0 <= i < |items| => Entry(Decimal.ToString(items[i].0), items[i].1))
  }

  /** A sparse array is filled up with empty strings; of two values with the same index
      the last one stays. */
  lemma {:induction false} SparseArray(items: seq<(nat, string)>)
    requires forall i :: 0 <= i < |items| ==> items[i].0 < 1000
    ensures AllIndexed(Numbered(items))
    ensures ValueOf(Numbered(items)).IndexedArray?
    ensures var a := ValueOf(Numbered(items)).items;
            && (forall i :: 0 <= i < |items| ==> items[i].0 < |a|)
            && (|a| > 0 ==> exists i :: 0 <= i < |items| && items[i].0 == |a| - 1)
            && (forall i :: 0 <= i < |items| && (forall j :: i < j < |items| ==> items[j].0 != items[i].0) ==>
                  a[items[i].0] == items[i].1)
            && (forall k :: 0 <= k < |a| && (forall i :: 0 <= i < |items| ==> items[i].0 != k) ==> a[k] == [])
  {
    NumberedItems(items);
    SparseLength(items, |items|);
    forall i | 0 <= i < |items| && (forall j :: i < j < |items| ==> items[j].0 != items[i].0)
      ensures LastWith(items, |items|, items[i].0) == items[i].1
    {
      LastWithIs(items, |items|, i);
    }
    forall k | 0 <= k < LengthFor(items, |items|) && (forall i :: 0 <= i < |items| ==> items[i].0 != k)
      ensures LastWith(items, |items|, k) == []
    {
      LastWithNone(items, |items|, k);
    }
  }

  lemma {:induction false} NumberedItems(items: seq<(nat, string)>)
    requires forall i :: 0 <= i < |items| ==> items[i].0 < INDEX_LIMIT
    ensures AllIndexed(Numbered(items)) && Items(Numbered(items)) == items
  {
    var es := Numbered(items);
    forall i | 0 <= i < |items| ensures IsIndex(es[i].key) && IndexOf(es[i].key) == items[i].0 {
      ParseUsizeOfDecimal(items[i].0);
    }
  }

  lemma {:induction false} SparseLength(items: seq<(nat, string)>, n: nat)
    requires n <= |items|
    ensures forall i :: 0 <= i < n ==> items[i].0 < LengthFor(items, n)
    ensures LengthFor(items, n) > 0 ==> exists i :: 0 <= i < n && items[i].0 == LengthFor(items, n) - 1
    decreases n
  {
    if n > 0 {
      SparseLength(items, n - 1);
      if LengthFor(items, n) == LengthFor(items, n - 1) {
        var i :| 0 <= i < n - 1 && items[i].0 == LengthFor(items, n - 1) - 1;
      } else {
        assert items[n - 1].0 == LengthFor(items, n) - 1;
      }
    }
  }

  lemma {:induction false} LastWithIs(items: seq<(nat, string)>, n: nat, i: nat)
    requires i < n <= |items|
    requires forall j :: i < j < n ==> items[j].0 != items[i].0
    ensures LastWith(items, n, items[i].0) == items[i].1
    decreases n
  {
    if i < n - 1 {
      LastWithIs(items, n - 1, i);
    }
  }

  lemma {:induction false} LastWithNone(items: seq<(nat, string)>, n: nat, k: nat)
    requires n <= |items| && forall i :: 0 <= i < n ==> items[i].0 != k
    ensures LastWith(items, n, k) == []
    decreases n
  {
    if n > 0 {
      LastWithNone(items, n - 1, k);
    }
  }

  /** A list printed with its positions as indices is read back. */
  lemma {:induction false} DenseArray(items: seq<string>)
    requires |items| <= 1000
    ensures ValueOf(Numbered(seq(|items|, i requires 0 <= i < |items| => (i, items[i])))) == IndexedArray(items)
  {
    var pairs: seq<(nat, string)> := seq(|items|, i requires 0 <= i < |items| => (i, items[i]));
    SparseArray(pairs);
    var a := ValueOf(Numbered(pairs)).items;
    if |a| > 0 {
      var i :| 0 <= i < |pairs| && pairs[i].0 == |a| - 1;
    }
    if |items| > 0 {
      assert pairs[|items| - 1].0 < |a|;
    }
    assert |a| == |items|;
    forall k | 0 <= k < |items| ensures a[k] == items[k] {
      assert pairs[k].0 == k;
    }
  }

  /** An associative array is taken for one exactly if some key is no index. */
  lemma {:induction false} AssociativeExactly(es: seq<Entry>)
    ensures ValueOf(es).AssociativeArray? <==> exists i :: 0 <= i < |es| && !IsIndex(es[i].key)
    ensures ValueOf(es).AssociativeArray? ==>
              (forall i :: 0 <= i < |es| && (forall j :: i < j < |es| ==> es[j].key != es[i].key) ==>
                 es[i].key in ValueOf(es).entries && ValueOf(es).entries[es[i].key] == es[i].value)
              && (forall k :: k in ValueOf(es).entries ==> exists i :: 0 <= i < |es| && es[i].key == k)
  {
    AssociatedMeans(es, |es|);
  }

  lemma {:induction false} AssociatedMeans(es: seq<Entry>, n: nat)
    requires n <= |es|
    ensures forall i :: 0 <= i < n && (forall j :: i < j < n ==> es[j].key != es[i].key) ==>
              es[i].key in Associated(es, n) && Associated(es, n)[es[i].key] == es[i].value
    ensures forall k :: k in Associated(es, n) ==> exists i :: 0 <= i < n && es[i].key == k
  {
    forall i | 0 <= i < n && (forall j :: i < j < n ==> es[j].key != es[i].key)
      ensures es[i].key in Associated(es, n) && Associated(es, n)[es[i].key] == es[i].value
    {
      LastIsAssociated(es, n, i);
    }
    forall k | k in Associated(es, n) ensures exists i :: 0 <= i < n && es[i].key == k {
      var i := AssociatedFrom(es, n, k);
    }
  }

  lemma {:induction false} LastIsAssociated(es: seq<Entry>, n: nat, i: nat)
    requires i < n <= |es| && forall j :: i < j < n ==> es[j].key != es[i].key
    ensures es[i].key in Associated(es, n) && Associated(es, n)[es[i].key] == es[i].value
    decreases n
  {
    if i < n - 1 {
      LastIsAssociated(es, n - 1, i);
    }
  }

  lemma {:induction false} AssociatedFrom(es: seq<Entry>, n: nat, k: string) returns (i: nat)
    requires n <= |es| && k in Associated(es, n)
    ensures i < n && es[i].key == k
    decreases n
  {
    if es[n - 1].key == k {
      i := n - 1;
    } else {
      i := AssociatedFrom(es, n - 1, k);
    }
  }

  /** An associative array whose keys are numbers is taken for an indexed one, in which
      two of its keys even become one. */
  lemma {:induction false} NumericKeysCollapse(a: string, b: string)
    ensures var es := [Entry("5", a), Entry("05", b)];
            && ValueOf(es) == IndexedArray([[], [], [], [], [], b])
            && Associated(es, 2) == map["5" := a, "05" := b]
  {
    var es := [Entry("5", a), Entry("05", b)];
    assert "5"[..0] == [] && "05"[..1] == "0" && "0"[..0] == [];
    assert Decimal.Value([]) == 0 && Decimal.Value("0") == 0;
    assert Decimal.Value("5") == 5 && Decimal.Value("05") == 5;
    assert IndexOf(es[0].key) == 5 && IndexOf(es[1].key) == 5;
    var items := Items(es);
    assert LengthFor(items, 0) == 0 && LengthFor(items, 1) == 6 && LengthFor(items, 2) == 6;
    forall k | 0 <= k < 6 ensures LastWith(items, 2, k) == if k == 5 then b else [] {
      assert LastWith(items, 0, k) == [] && LastWith(items, 1, k) == if k == 5 then a else [];
    }
    assert Indexed(items, 2) == [[], [], [], [], [], b];
    assert Associated(es, 0) == map[] && Associated(es, 1) == map["5" := a];
  }

  // ---- The grammar -------------------------------------------------------------

  /** The source looks at the low byte of a character only. */
  predicate IsNameStart(c: char) {
    var b := c as int % 256;
    'A' as int <= b <= 'Z' as int || 'a' as int <= b <= 'z' as int || c == '_'
  }

  predicate IsNameChar(c: char) {
    var b := c as int % 256;
    IsNameStart(c) || '0' as int <= b <= '9' as int
  }

  /** Names are made of letters, underscores and, behind the first character, digits; but
      a character beyond ASCII passes too if its low byte does. */
  lemma {:induction false} NameCharsAre(c: char)
    ensures c < 128 as char ==> (IsNameStart(c) <==> 'A' <= c <= 'Z' || 'a' <= c <= 'z' || c == '_')
    ensures c < 128 as char ==> (IsNameChar(c) <==> IsNameStart(c) || '0' <= c <= '9')
    ensures IsNameStart(0x161 as char) && !IsNameStart(0xE9 as char)
  {
    assert 0x161 % 256 == 'a' as int && 0xE9 % 256 == 0xE9;
  }

  function NameEnd(s: string): (n: nat)
    ensures n <= |s|
  {
    if s == [] || !IsNameChar(s[0]) then 0 else 1 + NameEnd(s[1..])
  }

  function Variable(s: string): Parse<string> {
    if s == [] || !IsNameStart(s[0]) then Fail else Got(s[..NameEnd(s)], s[NameEnd(s)..])
  }

  predicate IsBlank(c: char) {
    c == ' ' || c == '\t' || c == '\r' || c == '\n'
  }

  function SkipBlanks(s: string): (r: string)
    ensures |r| <= |s|
  {
    if s != [] && IsBlank(s[0]) then SkipBlanks(s[1..]) else s
  }

  function EntryParser(s: string): Parse<Entry> {
    if s == [] || s[0] != '[' then Fail else
    var key := WordParser(s[1..]);
    if key.Fail? || |key.rest| < 2 || key.rest[0] != ']' || key.rest[1] != '=' then Fail else
    var value := WordParser(key.rest[2..]);
    if value.Fail? then Fail else Got(Entry(key.value, value.value), value.rest)
  }

  /** Blanks and the entry behind them. */
  function NextEntry(s: string): Parse<Entry> {
    if s == [] || !IsBlank(s[0]) then Fail else EntryParser(SkipBlanks(s))
  }

  function ArrayParser(s: string): Parse<seq<Entry>> {
    if s == [] || s[0] != '(' then Fail else
    var inner := SkipBlanks(s[1..]);
    var first := EntryParser(inner);
    var (more, rest) := if first.Fail? then ([], inner) else Many(NextEntry, first.rest);
    var close := SkipBlanks(rest);
    if close == [] || close[0] != ')' then Fail
    else Got(if first.Fail? then [] else [first.value] + more, close[1..])
  }

  function ValueParser(s: string): Parse<Value> {
    var entries := ArrayParser(s);
    if entries.Got? then Got(ValueOf(entries.value), entries.rest) else
    var word := WordParser(s);
    if word.Got? then Got(Scalar(word.value), word.rest) else Got(Scalar([]), s)
  }

  datatype Assignment = Assignment(name: string, value: Value)

  function AssignmentParser(s: string): Parse<Assignment> {
    var name := Variable(s);
    if name.Fail? || name.rest == [] || name.rest[0] != '=' then Fail else
    var value := ValueParser(name.rest[1..]);
    if value.Fail? || value.rest == [] || value.rest[0] != '\n' then Fail
    else Got(Assignment(name.value, value.value), value.rest[1..])
  }

  /** What the first `n` assignments leave: the last one to a name counts. */
  function VarsOf(list: seq<Assignment>, n: nat): Vars
    requires n <= |list|
  {
    if n == 0 then map[] else VarsOf(list, n - 1)[list[n - 1].name := list[n - 1].value]
  }

  function SetOutput(s: string): Option<Vars> {
    var (list, rest) := Many(AssignmentParser, s);
    if rest == [] then Some(VarsOf(list, |list|)) else None
  }

  // ---- The output of bash ------------------------------------------------------

  /** What follows the equals sign: nothing, a word, or the entries of an array. */
  datatype Printed = Nothing | Word(units: seq<Unit>) | Array(entries: seq<(seq<Unit>, seq<Unit>)>)

  ghost predicate ValidEntry(e: (seq<Unit>, seq<Unit>)) {
    e.0 != [] && ValidWord(e.0) && e.1 != [] && ValidWord(e.1)
  }

  ghost predicate ValidPrinted(p: Printed) {
    match p
    case Nothing => true
    case Word(units) => units != [] && ValidWord(units)
    case Array(entries) => forall i :: 0 <= i < |entries| ==> ValidEntry(entries[i])
  }

  function EntryText(e: (seq<Unit>, seq<Unit>)): string {
    ['['] + WordText(e.0) + [']', '='] + WordText(e.1)
  }

  /** Each entry with a space before it. */
  function MoreText(entries: seq<(seq<Unit>, seq<Unit>)>): string {
    if entries == [] then [] else [' '] + EntryText(entries[0]) + MoreText(entries[1..])
  }

  function ArrayText(entries: seq<(seq<Unit>, seq<Unit>)>): string {
    if entries == [] then ['(', ')'] else ['('] + EntryText(entries[0]) + MoreText(entries[1..]) + [')']
  }

  function PrintedText(p: Printed): string {
    match p
    case Nothing => []
    case Word(units) => WordText(units)
    case Array(entries) => ArrayText(entries)
  }

  function EntryReading(e: (seq<Unit>, seq<Unit>)): Entry
    requires ValidEntry(e)
  {
    Entry(WordReading(e.0), WordReading(e.1))
  }

  function EntriesReading(entries: seq<(seq<Unit>, seq<Unit>)>): seq<Entry>
    requires forall i :: 0 <= i < |entries| ==> ValidEntry(entries[i])
  {
    if entries == [] then [] else [EntryReading(entries[0])] + EntriesReading(entries[1..])
  }

  function PrintedReading(p: Printed): Value
    requires ValidPrinted(p)
  {
    match p
    case Nothing => Scalar([])
    case Word(units) => Scalar(WordReading(units))
    case Array(entries) => ValueOf(EntriesReading(entries))
  }

  datatype Line = Line(name: string, printed: Printed)

  ghost predicate ValidName(name: string) {
    name != [] && IsNameStart(name[0]) && forall i :: 0 <= i < |name| ==> IsNameChar(name[i])
  }

  ghost predicate ValidLines(lines: seq<Line>) {
    forall i :: 0 <= i < |lines| ==> ValidName(lines[i].name) && ValidPrinted(lines[i].printed)
  }

  function LineText(l: Line): string {
    l.name + ['='] + PrintedText(l.printed) + ['\n']
  }

  function LinesText(lines: seq<Line>): string {
    if lines == [] then [] else LineText(lines[0]) + LinesText(lines[1..])
  }

  function LinesReading(lines: seq<Line>): seq<Assignment>
    requires ValidLines(lines)
  {
    if lines == [] then [] else
    [Assignment(lines[0].name, PrintedReading(lines[0].printed))] + LinesReading(lines[1..])
  }

  // ---- It is read back ---------------------------------------------------------

  lemma {:induction false} EntryParts(s: string, key: string, behindKey: string, value: string, t: string)
    requires s != [] && s[0] == '[' && WordParser(s[1..]) == Got(key, behindKey)
    requires |behindKey| >= 2 && behindKey[0] == ']' && behindKey[1] == '='
    requires WordParser(behindKey[2..]) == Got(value, t)
    ensures EntryParser(s) == Got(Entry(key, value), t)
  {
  }

  lemma {:induction false} ReadEntryParts(e: (seq<Unit>, seq<Unit>), s: string, behindKey: string, t: string)
    requires ValidEntry(e) && Stops(t)
    requires s != [] && s[0] == '[' && s[1..] == WordText(e.0) + behindKey
    requires |behindKey| >= 2 && behindKey[0] == ']' && behindKey[1] == '=' && behindKey[2..] == WordText(e.1) + t
    ensures EntryParser(s) == Got(EntryReading(e), t)
  {
    WordReadsAs(e.0, behindKey);
    WordReadsAs(e.1, t);
    EntryParts(s, WordReading(e.0), behindKey, WordReading(e.1), t);
  }

  lemma {:induction false} SplitEntry(key: string, value: string, t: string, s: string, behindKey: string)
    requires s == ['['] + key + [']', '='] + value + t && behindKey == [']', '='] + (value + t)
    ensures s != [] && s[0] == '[' && s[1..] == key + behindKey && behindKey[2..] == value + t
  {
  }

  lemma {:induction false} ReadEntry(e: (seq<Unit>, seq<Unit>), s: string, t: string)
    requires ValidEntry(e) && Stops(t) && s == EntryText(e) + t
    ensures EntryParser(s) == Got(EntryReading(e), t)
  {
    var behindKey := [']', '='] + (WordText(e.1) + t);
    SplitEntry(WordText(e.0), WordText(e.1), t, s, behindKey);
    ReadEntryParts(e, s, behindKey, t);
  }

  lemma {:induction false} NextParts(s: string, entry: string, e: Entry, rest: string)
    requires s == [' '] + entry && entry != [] && entry[0] == '[' && EntryParser(entry) == Got(e, rest)
    ensures NextEntry(s) == Got(e, rest)
  {
    assert s[1..] == entry && SkipBlanks(entry) == entry;
  }

  lemma {:induction false} SplitMore(entry: string, more: string, t: string, s: string, rest: string)
    requires s == [' '] + entry + more + [')'] + t && rest == more + [')'] + t
    ensures s == [' '] + (entry + rest)
  {
  }

  lemma {:induction false} ReadMore(entries: seq<(seq<Unit>, seq<Unit>)>, s: string, t: string)
    requires forall i :: 0 <= i < |entries| ==> ValidEntry(entries[i])
    requires s == MoreText(entries) + [')'] + t
    ensures Many(NextEntry, s) == (EntriesReading(entries), [')'] + t)
    decreases |entries|
  {
    if entries == [] {
      assert s == [')'] + t;
      ManyStop(NextEntry, s);
    } else {
      var rest := MoreText(entries[1..]) + [')'] + t;
      var entry := EntryText(entries[0]) + rest;
      SplitMore(EntryText(entries[0]), MoreText(entries[1..]), t, s, rest);
      StopsBehindEntry(entries[1..], t);
      assert ValidEntry(entries[0]);
      ReadEntry(entries[0], entry, rest);
      NextParts(s, entry, EntryReading(entries[0]), rest);
      ManyStep(NextEntry, s, EntryReading(entries[0]), rest);
      ReadMore(entries[1..], rest, t);
    }
  }

  lemma {:induction false} ArrayParts(s: string, inner: string, e: Entry, t: string, more: seq<Entry>, close: string)
    requires s != [] && s[0] == '(' && SkipBlanks(s[1..]) == inner
    requires EntryParser(inner) == Got(e, t) && Many(NextEntry, t) == (more, close)
    requires close != [] && close[0] == ')'
    ensures ArrayParser(s) == Got([e] + more, close[1..])
  {
  }

  lemma {:induction false} ReadEmptyArray(s: string, t: string)
    requires s == ['(', ')'] + t
    ensures ArrayParser(s) == Got([], t)
  {
  }

  lemma {:induction false} SplitArray(entry: string, more: string, t: string, s: string, rest: string)
    requires s == ['('] + entry + more + [')'] + t && rest == more + [')'] + t
    ensures s != [] && s[0] == '(' && s[1..] == entry + rest
  {
  }

  lemma {:induction false} ReadArray(entries: seq<(seq<Unit>, seq<Unit>)>, s: string, t: string)
    requires forall i :: 0 <= i < |entries| ==> ValidEntry(entries[i])
    requires s == ArrayText(entries) + t
    ensures ArrayParser(s) == Got(EntriesReading(entries), t)
  {
    if entries == [] {
      ReadEmptyArray(s, t);
    } else {
      var rest, close := MoreText(entries[1..]) + [')'] + t, [')'] + t;
      var entry := EntryText(entries[0]) + rest;
      SplitArray(EntryText(entries[0]), MoreText(entries[1..]), t, s, rest);
      assert close[1..] == t && entry[0] == '[' && SkipBlanks(entry) == entry;
      StopsBehindEntry(entries[1..], t);
      assert ValidEntry(entries[0]);
      ReadEntry(entries[0], entry, rest);
      ReadMore(entries[1..], rest, t);
      ArrayParts(s, entry, EntryReading(entries[0]), rest, EntriesReading(entries[1..]), close);
    }
  }

  lemma {:induction false} StopsBehindEntry(entries: seq<(seq<Unit>, seq<Unit>)>, t: string)
    ensures Stops(MoreText(entries) + [')'] + t)
  {
  }

  lemma {:induction false} WordIsNoArray(units: seq<Unit>, t: string)
    requires units != [] && ValidWord(units)
    ensures ArrayParser(WordText(units) + t) == Fail
  {
  }

  lemma {:induction false} ReadPrinted(p: Printed, t: string)
    requires ValidPrinted(p)
    ensures ValueParser(PrintedText(p) + ['\n'] + t) == Got(PrintedReading(p), ['\n'] + t)
  {
    var rest := ['\n'] + t;
    var s := PrintedText(p) + rest;
    assert s == PrintedText(p) + ['\n'] + t;
    match p {
      case Nothing =>
        assert s == rest;
        NoWord(s);
      case Word(units) =>
        WordIsNoArray(units, rest);
        WordReadsAs(units, rest);
      case Array(entries) => ReadArray(entries, s, rest);
    }
  }

  lemma {:induction false} ReadName(name: string, t: string)
    requires forall i :: 0 <= i < |name| ==> IsNameChar(name[i])
    requires t != [] && !IsNameChar(t[0])
    ensures NameEnd(name + t) == |name|
  {
    if name == [] {
      assert name + t == t;
    } else {
      assert (name + t)[1..] == name[1..] + t;
      ReadName(name[1..], t);
    }
  }

  lemma {:induction false} AssignmentParts(s: string, name: string, behindName: string, v: Value, t: string)
    requires Variable(s) == Got(name, behindName) && behindName != [] && behindName[0] == '='
    requires ValueParser(behindName[1..]) == Got(v, ['\n'] + t)
    ensures AssignmentParser(s) == Got(Assignment(name, v), t)
  {
  }

  lemma {:induction false} SplitLine(name: string, value: string, t: string, s: string, behindName: string)
    requires s == name + ['='] + value + ['\n'] + t && behindName == ['='] + (value + ['\n'] + t)
    ensures s == name + behindName && s[..|name|] == name && s[|name|..] == behindName
    ensures behindName[0] == '=' && behindName[1..] == value + ['\n'] + t
  {
  }

  lemma {:induction false} ReadVariable(name: string, s: string, behindName: string)
    requires ValidName(name) && s == name + behindName && behindName != [] && behindName[0] == '='
    ensures Variable(s) == Got(name, behindName)
  {
    ReadName(name, behindName);
  }

  lemma {:induction false} ReadLine(l: Line, s: string, t: string)
    requires ValidName(l.name) && ValidPrinted(l.printed) && s == LineText(l) + t
    ensures AssignmentParser(s) == Got(Assignment(l.name, PrintedReading(l.printed)), t)
  {
    var behindName := ['='] + (PrintedText(l.printed) + ['\n'] + t);
    SplitLine(l.name, PrintedText(l.printed), t, s, behindName);
    ReadVariable(l.name, s, behindName);
    ReadPrinted(l.printed, t);
    AssignmentParts(s, l.name, behindName, PrintedReading(l.printed), t);
  }

  lemma {:induction false} ReadLines(lines: seq<Line>, t: string)
    requires ValidLines(lines) && AssignmentParser(t).Fail?
    ensures Many(AssignmentParser, LinesText(lines) + t) == (LinesReading(lines), t)
  {
    if lines == [] {
      assert LinesText(lines) + t == t;
      ManyStop(AssignmentParser, t);
    } else {
      var s, rest := LinesText(lines) + t, LinesText(lines[1..]) + t;
      assert s == LineText(lines[0]) + rest;
      ReadLine(lines[0], s, rest);
      ManyStep(AssignmentParser, s, Assignment(lines[0].name, PrintedReading(lines[0].printed)), rest);
      ReadLines(lines[1..], t);
    }
  }

  /** However values are quoted, each word of the output is read by itself. */
  lemma {:induction false} OutputReadsAs(lines: seq<Line>)
    requires ValidLines(lines)
    ensures SetOutput(LinesText(lines)) == Some(VarsOf(LinesReading(lines), |LinesReading(lines)|))
  {
    ReadLines(lines, []);
    assert LinesText(lines) + [] == LinesText(lines);
  }

  /** Output is refused where something behind the assignments is none. */
  lemma {:induction false} LeftoverIsRefused(lines: seq<Line>, t: string)
    requires ValidLines(lines) && t != [] && !IsNameStart(t[0])
    ensures SetOutput(LinesText(lines) + t) == None
  {
    ReadLines(lines, t);
  }

  // ---- What it means to the shell ----------------------------------------------

  /** No word of what is printed needs more than quoting. */
  ghost predicate LiteralPrinted(p: Printed) {
    match p
    case Nothing => true
    case Word(units) => LiteralWord(units)
    case Array(entries) =>
      forall i :: 0 <= i < |entries| ==> LiteralWord(entries[i].0) && LiteralWord(entries[i].1)
  }

  ghost predicate PlainEntry(entry: (seq<Unit>, seq<Unit>))
    requires ValidEntry(entry)
  {
    PlainlyQuotedWord(entry.0) && PlainlyQuotedWord(entry.1)
  }

  ghost predicate PlainEntries(entries: seq<(seq<Unit>, seq<Unit>)>)
    requires forall i :: 0 <= i < |entries| ==> ValidEntry(entries[i])
  {
    forall i :: 0 <= i < |entries| ==> assert ValidEntry(entries[i]); PlainEntry(entries[i])
  }

  ghost predicate PlainlyPrinted(p: Printed)
    requires ValidPrinted(p)
  {
    match p
    case Nothing => true
    case Word(units) => PlainlyQuotedWord(units)
    case Array(entries) => PlainEntries(entries)
  }

  /** The text that a word means; none if its bytes are no text. */
  ghost function TextOf(units: seq<Unit>): Option<string>
    requires ValidWord(units)
  {
    Decoded(WordMeaning(units))
  }

  ghost function EntryMeaning(entry: (seq<Unit>, seq<Unit>)): Option<Entry>
    requires ValidEntry(entry)
  {
    var key, value := TextOf(entry.0), TextOf(entry.1);
    if key.Some? && value.Some? then Some(Entry(key.value, value.value)) else None
  }

  ghost function EntriesMeaning(entries: seq<(seq<Unit>, seq<Unit>)>): Option<seq<Entry>>
    requires forall i :: 0 <= i < |entries| ==> ValidEntry(entries[i])
  {
    if entries == [] then Some([]) else
    assert ValidEntry(entries[0]);
    var first, rest := EntryMeaning(entries[0]), EntriesMeaning(entries[1..]);
    if first.Some? && rest.Some? then Some([first.value] + rest.value) else None
  }

  ghost function PrintedMeaning(p: Printed): Option<Value>
    requires ValidPrinted(p)
  {
    match p
    case Nothing => Some(Scalar([]))
    case Word(units) => if TextOf(units).Some? then Some(Scalar(TextOf(units).value)) else None
    case Array(entries) =>
      var es := EntriesMeaning(entries);
      if es.Some? then Some(ValueOf(es.value)) else None
  }

  ghost function LinesMeaning(lines: seq<Line>): Option<seq<Assignment>>
    requires ValidLines(lines)
  {
    if lines == [] then Some([]) else
    var first, rest := PrintedMeaning(lines[0].printed), LinesMeaning(lines[1..]);
    if first.Some? && rest.Some? then Some([Assignment(lines[0].name, first.value)] + rest.value) else None
  }

  /** The entries of an array are read as what they mean exactly if all are plainly
      quoted. */
  lemma {:induction false} EntriesReadTheirMeaning(entries: seq<(seq<Unit>, seq<Unit>)>)
    requires forall i :: 0 <= i < |entries| ==> ValidEntry(entries[i])
    ensures EntriesMeaning(entries) == Some(EntriesReading(entries)) <==> PlainEntries(entries)
  {
    if entries != [] {
      assert ValidEntry(entries[0]);
      ReadingIsMeantExactly(entries[0].0);
      ReadingIsMeantExactly(entries[0].1);
      EntriesReadTheirMeaning(entries[1..]);
      assert PlainEntries(entries) <==> PlainEntry(entries[0]) && PlainEntries(entries[1..]) by {
        assert forall i :: 0 <= i < |entries| ==> entries[i] == if i == 0 then entries[0] else entries[1..][i - 1];
      }
      ConsIsInjective(EntryReading(entries[0]), EntriesReading(entries[1..]));
    }
  }

  lemma ConsIsInjective(first: Entry, rest: seq<Entry>)
    ensures forall x: Entry, y: seq<Entry> :: [x] + y == [first] + rest ==> x == first && y == rest
  {
    forall x: Entry, y: seq<Entry> | [x] + y == [first] + rest ensures x == first && y == rest {
      assert x == ([x] + y)[0] && y == ([x] + y)[1..];
      assert first == ([first] + rest)[0] && rest == ([first] + rest)[1..];
    }
  }

  lemma {:induction false} PrintedReadsItsMeaning(p: Printed)
    requires ValidPrinted(p) && PlainlyPrinted(p)
    ensures PrintedMeaning(p) == Some(PrintedReading(p))
  {
    match p
    case Nothing =>
    case Word(units) => ReadingIsMeantExactly(units);
    case Array(entries) => EntriesReadTheirMeaning(entries);
  }

  lemma {:induction false} LinesReadTheirMeaning(lines: seq<Line>)
    requires ValidLines(lines) && forall i :: 0 <= i < |lines| ==> PlainlyPrinted(lines[i].printed)
    ensures LinesMeaning(lines) == Some(LinesReading(lines))
  {
    if lines != [] {
      PrintedReadsItsMeaning(lines[0].printed);
      LinesReadTheirMeaning(lines[1..]);
    }
  }

  /** Output that escapes no newline, nothing in double quotes that keeps its backslash,
      and no byte above 0177, is read as what it means to the shell. */
  lemma {:induction false} OutputReadsItsMeaning(lines: seq<Line>)
    requires ValidLines(lines)
    requires forall i :: 0 <= i < |lines| ==> LiteralPrinted(lines[i].printed) && PlainlyPrinted(lines[i].printed)
    ensures var meaning := LinesMeaning(lines);
            meaning.Some? && SetOutput(LinesText(lines)) == Some(VarsOf(meaning.value, |meaning.value|))
  {
    OutputReadsAs(lines);
    LinesReadTheirMeaning(lines);
  }

  // ---- The single-quote style --------------------------------------------------

  /** A scalar, an array with its indices, or an associative array with its keys. */
  datatype Source = OfScalar(text: string) | OfIndexed(items: seq<(nat, string)>) | OfAssociative(entries: seq<Entry>)

  function QuotedEntry(e: Entry): string {
    ['['] + Quote(e.key) + [']', '='] + Quote(e.value)
  }

  function QuotedMore(es: seq<Entry>): string {
    if es == [] then [] else [' '] + QuotedEntry(es[0]) + QuotedMore(es[1..])
  }

  function QuotedArray(es: seq<Entry>): string {
    if es == [] then ['(', ')'] else ['('] + QuotedEntry(es[0]) + QuotedMore(es[1..]) + [')']
  }

  function QuotedValue(v: Source): string {
    match v
    case OfScalar(text) => Quote(text)
    case OfIndexed(items) => QuotedArray(Numbered(items))
    case OfAssociative(entries) => QuotedArray(entries)
  }

  function QuotedOutput(vars: seq<(string, Source)>): string {
    if vars == [] then [] else vars[0].0 + ['='] + QuotedValue(vars[0].1) + ['\n'] + QuotedOutput(vars[1..])
  }

  function SourceValue(v: Source): Value {
    match v
    case OfScalar(text) => Scalar(text)
    case OfIndexed(items) => ValueOf(Numbered(items))
    case OfAssociative(entries) => ValueOf(entries)
  }

  function Assignments(vars: seq<(string, Source)>): seq<Assignment> {
    if vars == [] then [] else [Assignment(vars[0].0, SourceValue(vars[0].1))] + Assignments(vars[1..])
  }

  function UnitEntries(es: seq<Entry>): seq<(seq<Unit>, seq<Unit>)> {
    if es == [] then [] else [UnitEntry(es[0])] + UnitEntries(es[1..])
  }

  function UnitEntry(e: Entry): (seq<Unit>, seq<Unit>) {
    (QuoteUnits(e.key), QuoteUnits(e.value))
  }

  lemma {:induction false} UnitEntryMeans(e: Entry)
    ensures ValidEntry(UnitEntry(e)) && EntryText(UnitEntry(e)) == QuotedEntry(e) && EntryReading(UnitEntry(e)) == e
  {
    QuoteIsUnits(e.key);
    QuoteIsUnits(e.value);
  }

  lemma {:induction false} UnitEntriesAreValid(es: seq<Entry>)
    ensures forall i :: 0 <= i < |UnitEntries(es)| ==> ValidEntry(UnitEntries(es)[i])
  {
    if es != [] {
      UnitEntriesAreValid(es[1..]);
      UnitEntryMeans(es[0]);
    }
  }

  lemma {:induction false} UnitEntriesText(es: seq<Entry>)
    ensures MoreText(UnitEntries(es)) == QuotedMore(es)
  {
    if es != [] {
      UnitEntriesText(es[1..]);
      UnitEntryMeans(es[0]);
      assert UnitEntries(es)[1..] == UnitEntries(es[1..]);
    }
  }

  lemma {:induction false} UnitEntriesReading(es: seq<Entry>)
    requires forall i :: 0 <= i < |UnitEntries(es)| ==> ValidEntry(UnitEntries(es)[i])
    ensures EntriesReading(UnitEntries(es)) == es
  {
    if es != [] {
      UnitEntriesAreValid(es[1..]);
      UnitEntriesReading(es[1..]);
      UnitEntryMeans(es[0]);
      assert UnitEntries(es)[1..] == UnitEntries(es[1..]);
      assert [es[0]] + es[1..] == es;
    }
  }

  lemma {:induction false} UnitEntriesMean(es: seq<Entry>)
    ensures forall i :: 0 <= i < |UnitEntries(es)| ==> ValidEntry(UnitEntries(es)[i])
    ensures MoreText(UnitEntries(es)) == QuotedMore(es) && EntriesReading(UnitEntries(es)) == es
  {
    UnitEntriesAreValid(es);
    UnitEntriesText(es);
    UnitEntriesReading(es);
  }

  lemma {:induction false} UnitArrayMeans(es: seq<Entry>)
    ensures ArrayText(UnitEntries(es)) == QuotedArray(es)
  {
    if es != [] {
      UnitEntriesMean(es[1..]);
      UnitEntryMeans(es[0]);
      assert UnitEntries(es)[0] == UnitEntry(es[0]) && UnitEntries(es)[1..] == UnitEntries(es[1..]);
    }
  }

  function PrintedOf(v: Source): Printed {
    match v
    case OfScalar(text) => Word(QuoteUnits(text))
    case OfIndexed(items) => Array(UnitEntries(Numbered(items)))
    case OfAssociative(entries) => Array(UnitEntries(entries))
  }

  lemma {:induction false} PrintedOfMeans(v: Source)
    ensures ValidPrinted(PrintedOf(v))
    ensures PrintedText(PrintedOf(v)) == QuotedValue(v) && PrintedReading(PrintedOf(v)) == SourceValue(v)
  {
    match v
    case OfScalar(text) => QuoteIsUnits(text);
    case OfIndexed(items) =>
      UnitEntriesMean(Numbered(items));
      UnitArrayMeans(Numbered(items));
    case OfAssociative(entries) =>
      UnitEntriesMean(entries);
      UnitArrayMeans(entries);
  }

  function LinesOf(vars: seq<(string, Source)>): seq<Line> {
    if vars == [] then [] else [Line(vars[0].0, PrintedOf(vars[0].1))] + LinesOf(vars[1..])
  }

  lemma {:induction false} LinesOfMean(vars: seq<(string, Source)>)
    requires forall i :: 0 <= i < |vars| ==> ValidName(vars[i].0)
    ensures ValidLines(LinesOf(vars))
    ensures LinesText(LinesOf(vars)) == QuotedOutput(vars) && LinesReading(LinesOf(vars)) == Assignments(vars)
  {
    if vars != [] {
      assert ValidName(vars[0].0);
      LinesOfMean(vars[1..]);
      PrintedOfMeans(vars[0].1);
      assert LinesOf(vars)[1..] == LinesOf(vars[1..]);
    }
  }

  /** What is printed with all words in single quotes is read back. */
  lemma {:induction false} QuotedOutputReadsBack(vars: seq<(string, Source)>)
    requires forall i :: 0 <= i < |vars| ==> ValidName(vars[i].0)
    ensures SetOutput(QuotedOutput(vars)) == Some(VarsOf(Assignments(vars), |Assignments(vars)|))
  {
    LinesOfMean(vars);
    OutputReadsAs(LinesOf(vars));
  }

  /** Of several assignments to a name the last one counts. */
  lemma {:induction false} LastAssignmentCounts(list: seq<Assignment>, n: nat, i: nat)
    requires i < n <= |list| && forall j :: i < j < n ==> list[j].name != list[i].name
    ensures list[i].name in VarsOf(list, n) && VarsOf(list, n)[list[i].name] == list[i].value
    decreases n
  {
    if i < n - 1 {
      LastAssignmentCounts(list, n - 1, i);
    }
  }

  lemma {:induction false} OnlyAssignedNames(list: seq<Assignment>, n: nat, name: string)
    requires n <= |list| && name in VarsOf(list, n)
    ensures exists i :: 0 <= i < n && list[i].name == name
    decreases n
  {
    if name != list[n - 1].name {
      OnlyAssignedNames(list, n - 1, name);
    }
  }
}
