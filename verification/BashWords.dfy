/** Quoted words, as bash prints them in the output of `set`, and the parser for them. */
module BashWords {
  import opened Wrappers

  /** What a parser made of the start of a text, and what it left. */
  datatype Parse<T> = Fail | Got(value: T, rest: string)

  // ---- Repetition --------------------------------------------------------------

  /** Applies a parser until it fails. */
  function Many<T>(p: string -> Parse<T>, s: string): (r: (seq<T>, string))
    ensures |r.1| <= |s|
    decreases |s|, 1
  {
    OneMore(p, s)
  }

  function OneMore<T>(p: string -> Parse<T>, s: string): (r: (seq<T>, string))
    ensures |r.1| <= |s|
    decreases |s|, 0
  {
    match p(s)
    case Fail => ([], s)
    case Got(v, rest) =>
      if |rest| < |s| then
        var more := Many(p, rest);
        ([v] + more.0, more.1)
      else ([], s)
  }

  function Concat(ss: seq<string>): string {
    if ss == [] then [] else ss[0] + Concat(ss[1..])
  }

  // ---- The parser --------------------------------------------------------------

  /** These end an unquoted stretch. Brackets are taken to be quoted always. */
  predicate IsSpecial(c: char) {
    || c == '|' || c == '&' || c == ';' || c == '<' || c == '>' || c == '(' || c == ')' || c == '$' || c == '`'
    || c == '\\' || c == '"' || c == '\'' || c == ' ' || c == '\t' || c == '\n' || c == '[' || c == ']'
  }

  function UnquotedChar(s: string): Parse<char> {
    if s == [] then Fail
    else if !IsSpecial(s[0]) then Got(s[0], s[1..])
    else if s[0] == '\\' && |s| > 1 then Got(s[1], s[2..])
    else Fail
  }

  function Unquoted(s: string): Parse<string> {
    var (text, rest) := Many(UnquotedChar, s);
    if text == [] then Fail else Got(text, rest)
  }

  /** What stands before the first quote, and what from there on. */
  function UntilQuote(s: string): (r: (string, string))
    ensures r.0 + r.1 == s && '\'' !in r.0 && (r.1 != [] ==> r.1[0] == '\'')
  {
    if s == [] || s[0] == '\'' then ([], s)
    else
      var r := UntilQuote(s[1..]);
      ([s[0]] + r.0, r.1)
  }

  function SingleQuoted(s: string): Parse<string> {
    if s == [] || s[0] != '\'' then Fail else
    var (text, rest) := UntilQuote(s[1..]);
    if rest == [] then Fail else Got(text, rest[1..])
  }

  /** A backslash takes any character behind it literally. */
  function DoubleChar(s: string): Parse<char> {
    if s == [] then Fail
    else if s[0] == '\\' && |s| > 1 then Got(s[1], s[2..])
    else if s[0] != '"' then Got(s[0], s[1..])
    else Fail
  }

  function DoubleQuoted(s: string): Parse<string> {
    if s == [] || s[0] != '"' then Fail else
    var (text, rest) := Many(DoubleChar, s[1..]);
    if rest == [] || rest[0] != '"' then Fail else Got(text, rest[1..])
  }

  function Named(c: char): Option<char> {
    match c
    case 'a' => Some(7 as char)
    case 'b' => Some(8 as char)
    case 'e' => Some(27 as char)
    case 'E' => Some(27 as char)
    case 'f' => Some(12 as char)
    case 'n' => Some(10 as char)
    case 'r' => Some(13 as char)
    case 't' => Some(9 as char)
    case 'v' => Some(11 as char)
    case '\\' => Some('\\')
    case '\'' => Some('\'')
    case '"' => Some('"')
    case '?' => Some('?')
    case _ => None
  }

  predicate IsOctal(c: char) {
    '0' <= c <= '7'
  }

  function OctalDigit(c: char): nat
    requires IsOctal(c)
  {
    (c - '0') as int
  }

  /** Three characters as a number below 256; a plus sign may come first. */
  function Octal(a: char, b: char, c: char): Option<char> {
    if !IsOctal(b) || !IsOctal(c) || !(a == '+' || IsOctal(a)) then None else
    var n := (if a == '+' then 0 else 64 * OctalDigit(a)) + 8 * OctalDigit(b) + OctalDigit(c);
    if n < 256 then Some(n as char) else None
  }

  /** Above 0377 there is no escape, so that the backslash stands for itself; `+12` counts
      as 012. */
  lemma {:induction false} OctalExactly(a: char, b: char, c: char, s: string)
    requires '0' <= b <= '7' && '0' <= c <= '7'
    ensures '0' <= a <= '3' ==>
              DollarChar(['\\', a, b, c] + s)
              == Got((a as int % 48 * 64 + b as int % 48 * 8 + c as int % 48) as char, s)
    ensures '4' <= a <= '7' ==> DollarChar(['\\', a, b, c] + s) == Got('\\', [a, b, c] + s)
    ensures DollarChar(['\\', '+', b, c] + s) == Got((b as int % 48 * 8 + c as int % 48) as char, s)
  {
    assert (['\\', a, b, c] + s)[4..] == s && (['\\', a, b, c] + s)[1..] == [a, b, c] + s;
    assert (['\\', '+', b, c] + s)[4..] == s;
  }

  /** A backslash that begins no escape stands for itself. */
  function DollarChar(s: string): Parse<char> {
    if |s| >= 2 && s[0] == '\\' && Named(s[1]).Some? then Got(Named(s[1]).value, s[2..])
    else if |s| >= 4 && s[0] == '\\' && Octal(s[1], s[2], s[3]).Some? then Got(Octal(s[1], s[2], s[3]).value, s[4..])
    else if s != [] && s[0] != '\'' then Got(s[0], s[1..])
    else Fail
  }

  function DollarQuoted(s: string): Parse<string> {
    if |s| < 2 || s[0] != '$' || s[1] != '\'' then Fail else
    var (text, rest) := Many(DollarChar, s[2..]);
    if rest == [] || rest[0] != '\'' then Fail else Got(text, rest[1..])
  }

  function UnitParser(s: string): Parse<string> {
    if Unquoted(s).Got? then Unquoted(s)
    else if SingleQuoted(s).Got? then SingleQuoted(s)
    else if DoubleQuoted(s).Got? then DoubleQuoted(s)
    else DollarQuoted(s)
  }

  function WordParser(s: string): Parse<string> {
    var (units, rest) := Many(UnitParser, s);
    if units == [] then Fail else Got(Concat(units), rest)
  }

  // ---- Words and what the parser takes them for --------------------------------

  datatype DoubleItem = DRaw(c: char) | DEscape(c: char)

  datatype DollarItem = LRaw(c: char) | LNamed(c: char) | LOctal(x: char, y: char, z: char)

  /** A part of a word. */
  datatype Unit =
    | Plain(c: char)
    | Escaped(c: char)
    | Single(text: string)
    | Double(doubles: seq<DoubleItem>)
    | Dollar(dollars: seq<DollarItem>)

  predicate ValidDouble(d: DoubleItem) {
    d.DRaw? ==> d.c != '"' && d.c != '\\'
  }

  predicate ValidDollar(d: DollarItem) {
    match d
    case LRaw(c) => c != '\'' && c != '\\'
    case LNamed(c) => Named(c).Some?
    case LOctal(a, b, c) => '0' <= a <= '3' && '0' <= b <= '7' && '0' <= c <= '7'
  }

  ghost predicate Valid(u: Unit) {
    match u
    case Plain(c) => !IsSpecial(c)
    case Escaped(_) => true
    case Single(text) => '\'' !in text
    case Double(items) => forall i :: 0 <= i < |items| ==> ValidDouble(items[i])
    case Dollar(items) => forall i :: 0 <= i < |items| ==> ValidDollar(items[i])
  }

  function DoubleText(items: seq<DoubleItem>): string {
    if items == [] then [] else
    (match items[0] case DRaw(c) => [c] case DEscape(c) => ['\\', c]) + DoubleText(items[1..])
  }

  function DoubleReading(items: seq<DoubleItem>): string {
    if items == [] then [] else [items[0].c] + DoubleReading(items[1..])
  }

  function DollarText(items: seq<DollarItem>): string {
    if items == [] then [] else
    (match items[0]
     case LRaw(c) => [c]
     case LNamed(c) => ['\\', c]
     case LOctal(a, b, c) => ['\\', a, b, c]) + DollarText(items[1..])
  }

  function OctalNumber(d: DollarItem): nat
    requires d.LOctal? && ValidDollar(d)
    ensures OctalNumber(d) < 256
  {
    64 * OctalDigit(d.x) + 8 * OctalDigit(d.y) + OctalDigit(d.z)
  }

  function DollarItemReading(d: DollarItem): char
    requires ValidDollar(d)
  {
    match d
    case LRaw(c) => c
    case LNamed(c) => Named(c).value
    case LOctal(_, _, _) => OctalNumber(d) as char
  }

  function DollarReading(items: seq<DollarItem>): string
    requires forall i :: 0 <= i < |items| ==> ValidDollar(items[i])
  {
    if items == [] then [] else
    assert ValidDollar(items[0]);
    [DollarItemReading(items[0])] + DollarReading(items[1..])
  }

  function Text(u: Unit): string {
    match u
    case Plain(c) => [c]
    case Escaped(c) => ['\\', c]
    case Single(text) => ['\''] + text + ['\'']
    case Double(items) => ['"'] + DoubleText(items) + ['"']
    case Dollar(items) => ['$', '\''] + DollarText(items) + ['\'']
  }

  function Reading(u: Unit): string
    requires Valid(u)
  {
    match u
    case Plain(c) => [c]
    case Escaped(c) => [c]
    case Single(text) => text
    case Double(items) => DoubleReading(items)
    case Dollar(items) => DollarReading(items)
  }

  ghost predicate ValidWord(units: seq<Unit>) {
    forall i :: 0 <= i < |units| ==> Valid(units[i])
  }

  function WordText(units: seq<Unit>): string {
    if units == [] then [] else Text(units[0]) + WordText(units[1..])
  }

  function WordReading(units: seq<Unit>): string
    requires ValidWord(units)
  {
    if units == [] then [] else Reading(units[0]) + WordReading(units[1..])
  }

  // ---- The parser reads that ---------------------------------------------------

  lemma {:induction false} ManyStep<T>(p: string -> Parse<T>, s: string, v: T, rest: string)
    requires p(s) == Got(v, rest) && |rest| < |s|
    ensures Many(p, s) == ([v] + Many(p, rest).0, Many(p, rest).1)
  {
  }

  lemma {:induction false} ManyStop<T>(p: string -> Parse<T>, s: string)
    requires p(s) == Fail
    ensures Many(p, s) == ([], s)
  {
  }

  lemma {:induction false} ReadSingle(text: string, t: string)
    requires '\'' !in text
    ensures UntilQuote(text + ['\''] + t) == (text, ['\''] + t)
  {
    var s := text + ['\''] + t;
    if text == [] {
      assert s == ['\''] + t;
    } else {
      assert s[0] == text[0] && s[1..] == text[1..] + ['\''] + t;
      ReadSingle(text[1..], t);
      assert [text[0]] + text[1..] == text;
    }
  }

  lemma {:induction false} ReadDouble(items: seq<DoubleItem>, t: string)
    requires forall i :: 0 <= i < |items| ==> ValidDouble(items[i])
    ensures Many(DoubleChar, DoubleText(items) + ['"'] + t) == (DoubleReading(items), ['"'] + t)
  {
    var s := DoubleText(items) + ['"'] + t;
    if items == [] {
      assert s == ['"'] + t;
      ManyStop(DoubleChar, s);
    } else {
      var rest := DoubleText(items[1..]) + ['"'] + t;
      assert ValidDouble(items[0]);
      match items[0] {
        case DRaw(c) => assert s == [c] + rest && s[1..] == rest;
        case DEscape(c) => assert s == ['\\', c] + rest && s[2..] == rest;
      }
      assert DoubleChar(s) == Got(items[0].c, rest);
      ManyStep(DoubleChar, s, items[0].c, rest);
      ReadDouble(items[1..], t);
    }
  }

  lemma {:induction false} ReadDollarItem(item: DollarItem, rest: string, s: string)
    requires ValidDollar(item) && s == DollarText([item]) + rest
    ensures |rest| < |s| && DollarReading([item]) != [] && DollarChar(s) == Got(DollarReading([item])[0], rest)
  {
  }

  lemma {:induction false} ReadDollar(items: seq<DollarItem>, t: string)
    requires forall i :: 0 <= i < |items| ==> ValidDollar(items[i])
    ensures Many(DollarChar, DollarText(items) + ['\''] + t) == (DollarReading(items), ['\''] + t)
  {
    var s := DollarText(items) + ['\''] + t;
    if items == [] {
      assert s == ['\''] + t;
      ManyStop(DollarChar, s);
    } else {
      var rest := DollarText(items[1..]) + ['\''] + t;
      assert [items[0]][1..] == [];
      assert s == DollarText([items[0]]) + rest;
      ReadDollarItem(items[0], rest, s);
      ManyStep(DollarChar, s, DollarReading([items[0]])[0], rest);
      ReadDollar(items[1..], t);
    }
  }

  /** What the units of a word are joined to, and what is left behind the word. */
  function Joined(s: string): (string, string) {
    var (units, rest) := Many(UnitParser, s);
    (Concat(units), rest)
  }

  /** A character of an unquoted stretch counts by itself, wherever the stretch ends. */
  lemma {:induction false} JoinedChar(s: string, c: char, t: string)
    requires UnquotedChar(s) == Got(c, t)
    ensures |t| < |s| && Joined(s) == ([c] + Joined(t).0, Joined(t).1)
  {
    ManyStep(UnquotedChar, s, c, t);
    var (text, rest) := Many(UnquotedChar, t);
    assert Unquoted(s) == Got([c] + text, rest);
    ManyStep(UnitParser, s, [c] + text, rest);
    var more := Many(UnitParser, rest).0;
    assert ([[c] + text] + more)[1..] == more;
    assert Concat([[c] + text] + more) == [c] + text + Concat(more);
    if text == [] {
      NothingRead(t);
      assert [c] + text + Concat(more) == [c] + Concat(more);
    } else {
      assert UnitParser(t) == Got(text, rest);
      ShorterRest(t);
      ManyStep(UnitParser, t, text, rest);
      assert ([text] + more)[1..] == more;
      assert [c] + text + Concat(more) == [c] + (text + Concat(more));
    }
  }

  lemma {:induction false} NothingRead(t: string)
    requires Many(UnquotedChar, t).0 == []
    ensures Many(UnquotedChar, t).1 == t
  {
  }

  lemma {:induction false} ShorterRest(t: string)
    requires Many(UnquotedChar, t).0 != []
    ensures |Many(UnquotedChar, t).1| < |t|
  {
  }

  lemma {:induction false} JoinedQuoted(s: string, v: string, t: string)
    requires UnitParser(s) == Got(v, t) && |t| < |s|
    ensures Joined(s) == (v + Joined(t).0, Joined(t).1)
  {
    ManyStep(UnitParser, s, v, t);
    var more := Many(UnitParser, t).0;
    assert ([v] + more)[1..] == more;
  }

  lemma {:induction false} JoinedSingle(text: string, s: string, t: string)
    requires '\'' !in text && s == ['\''] + text + ['\''] + t
    ensures Joined(s) == (text + Joined(t).0, Joined(t).1) && UnitParser(s).Got?
  {
    assert s[1..] == text + ['\''] + t && (['\''] + t)[1..] == t;
    ReadSingle(text, t);
    NotUnquoted(s);
    assert SingleQuoted(s) == Got(text, t);
    JoinedQuoted(s, text, t);
  }

  lemma {:induction false} JoinedDouble(items: seq<DoubleItem>, s: string, t: string)
    requires forall i :: 0 <= i < |items| ==> ValidDouble(items[i])
    requires s == ['"'] + DoubleText(items) + ['"'] + t
    ensures Joined(s) == (DoubleReading(items) + Joined(t).0, Joined(t).1) && UnitParser(s).Got?
  {
    assert s[1..] == DoubleText(items) + ['"'] + t && (['"'] + t)[1..] == t;
    ReadDouble(items, t);
    NotUnquoted(s);
    assert DoubleQuoted(s) == Got(DoubleReading(items), t);
    JoinedQuoted(s, DoubleReading(items), t);
  }

  lemma {:induction false} JoinedDollar(items: seq<DollarItem>, s: string, t: string)
    requires forall i :: 0 <= i < |items| ==> ValidDollar(items[i])
    requires s == ['$', '\''] + DollarText(items) + ['\''] + t
    ensures Joined(s) == (DollarReading(items) + Joined(t).0, Joined(t).1) && UnitParser(s).Got?
  {
    assert s[2..] == DollarText(items) + ['\''] + t && (['\''] + t)[1..] == t;
    ReadDollar(items, t);
    NotUnquoted(s);
    assert DollarQuoted(s) == Got(DollarReading(items), t);
    JoinedQuoted(s, DollarReading(items), t);
  }

  lemma {:induction false} JoinedUnit(u: Unit, t: string)
    requires Valid(u)
    ensures Joined(Text(u) + t) == (Reading(u) + Joined(t).0, Joined(t).1) && UnitParser(Text(u) + t).Got?
  {
    var s := Text(u) + t;
    match u {
      case Plain(c) =>
        assert s[0] == c && s[1..] == t;
        JoinedChar(s, c, t);
        UnquotedReads(s, c, t);
      case Escaped(c) =>
        assert s[0] == '\\' && s[1] == c && s[2..] == t;
        JoinedChar(s, c, t);
        UnquotedReads(s, c, t);
      case Single(text) => JoinedSingle(text, s, t);
      case Double(items) => JoinedDouble(items, s, t);
      case Dollar(items) => JoinedDollar(items, s, t);
    }
  }

  lemma {:induction false} UnquotedReads(s: string, c: char, t: string)
    requires UnquotedChar(s) == Got(c, t)
    ensures UnitParser(s).Got?
  {
    ManyStep(UnquotedChar, s, c, t);
  }

  lemma {:induction false} NotUnquoted(s: string)
    requires s != [] && IsSpecial(s[0]) && s[0] != '\\'
    ensures Unquoted(s) == Fail
  {
    ManyStop(UnquotedChar, s);
  }

  /** No part of a word begins here. */
  predicate Stops(s: string) {
    s == [] || (IsSpecial(s[0]) && s[0] != '\\' && s[0] != '\'' && s[0] != '"' && s[0] != '$')
  }

  lemma {:induction false} JoinedCons(u: Unit, s: string, rest: string, v: string, t: string)
    requires Valid(u) && s == Text(u) + rest && Joined(rest) == (v, t)
    ensures Joined(s) == (Reading(u) + v, t) && Many(UnitParser, s).0 != []
  {
    JoinedUnit(u, rest);
    UnitShortens(s);
  }

  lemma {:induction false} JoinedNothing(t: string)
    requires Stops(t)
    ensures Joined(t) == ([], t)
  {
    NoUnit(t);
    ManyStop(UnitParser, t);
  }

  /** A word and what follows it. */
  function TextBefore(units: seq<Unit>, t: string): string {
    if units == [] then t else Text(units[0]) + TextBefore(units[1..], t)
  }

  lemma {:induction false} TextBeforeIsWord(units: seq<Unit>, t: string)
    ensures TextBefore(units, t) == WordText(units) + t
  {
    if units != [] {
      TextBeforeIsWord(units[1..], t);
      assert Text(units[0]) + (WordText(units[1..]) + t) == Text(units[0]) + WordText(units[1..]) + t;
    }
  }

  lemma {:induction false} JoinedWord(units: seq<Unit>, t: string)
    requires ValidWord(units) && Stops(t)
    ensures Joined(TextBefore(units, t)) == (WordReading(units), t)
    ensures units != [] ==> Many(UnitParser, TextBefore(units, t)).0 != []
  {
    if units == [] {
      JoinedNothing(t);
    } else {
      assert Valid(units[0]);
      JoinedWord(units[1..], t);
      JoinedCons(units[0], TextBefore(units, t), TextBefore(units[1..], t), WordReading(units[1..]), t);
    }
  }

  lemma {:induction false} NoUnit(t: string)
    requires Stops(t)
    ensures UnitParser(t) == Fail
  {
    ManyStop(UnquotedChar, t);
  }

  /** However the parts of a word are quoted, each is read by itself. */
  lemma {:induction false} WordReadsAs(units: seq<Unit>, t: string)
    requires units != [] && ValidWord(units) && Stops(t)
    ensures WordParser(WordText(units) + t) == Got(WordReading(units), t)
  {
    JoinedWord(units, t);
    WordOfJoined(TextBefore(units, t));
    TextBeforeIsWord(units, t);
  }

  lemma {:induction false} WordOfJoined(s: string)
    requires Many(UnitParser, s).0 != []
    ensures WordParser(s) == Got(Joined(s).0, Joined(s).1)
  {
  }

  lemma {:induction false} UnitShortens(s: string)
    requires UnitParser(s).Got?
    ensures |UnitParser(s).rest| < |s| && Many(UnitParser, s).0 != []
  {
    if Unquoted(s).Got? {
      ShorterRest(s);
    }
  }

  lemma {:induction false} NoWord(t: string)
    requires Stops(t)
    ensures WordParser(t) == Fail
  {
    NoUnit(t);
    ManyStop(UnitParser, t);
  }

  // ---- The single-quote style --------------------------------------------------

  /** Each single quote is replaced by one that ends the quoted part, an escaped one
      and one that begins the next part. */
  function ReplaceQuotes(s: string): string {
    if s == [] then []
    else if s[0] == '\'' then ['\'', '\\', '\'', '\''] + ReplaceQuotes(s[1..])
    else [s[0]] + ReplaceQuotes(s[1..])
  }

  function Quote(s: string): string {
    ['\''] + ReplaceQuotes(s) + ['\'']
  }

  function QuoteUnits(s: string): (units: seq<Unit>)
    ensures units != []
    decreases |s|
  {
    var (text, rest) := UntilQuote(s);
    if rest == [] then [Single(text)] else [Single(text), Escaped('\'')] + QuoteUnits(rest[1..])
  }

  lemma {:induction false} ReplaceBefore(text: string, rest: string)
    requires '\'' !in text
    ensures ReplaceQuotes(text + rest) == text + ReplaceQuotes(rest)
  {
    if text == [] {
      assert text + rest == rest;
    } else {
      assert (text + rest)[1..] == text[1..] + rest;
      ReplaceBefore(text[1..], rest);
    }
  }

  lemma {:induction false} QuoteIsUnits(s: string)
    ensures ValidWord(QuoteUnits(s))
    ensures WordText(QuoteUnits(s)) == Quote(s) && WordReading(QuoteUnits(s)) == s
    decreases |s|
  {
    if UntilQuote(s).1 == [] {
      assert UntilQuote(s).0 + [] == UntilQuote(s).0;
      OneQuotedUnit(s);
    } else {
      var text, later := FirstQuote(s);
      QuoteIsUnits(later);
      MoreQuotedUnits(text, later, QuoteUnits(later));
    }
  }

  lemma {:induction false} FirstQuote(s: string) returns (text: string, later: string)
    requires UntilQuote(s).1 != []
    ensures s == text + (['\''] + later) && '\'' !in text
    ensures QuoteUnits(s) == [Single(text), Escaped('\'')] + QuoteUnits(later)
  {
    text, later := UntilQuote(s).0, UntilQuote(s).1[1..];
    assert ['\''] + later == UntilQuote(s).1;
  }

  lemma {:induction false} OneQuotedUnit(text: string)
    requires '\'' !in text
    ensures var units := [Single(text)];
            ValidWord(units) && WordText(units) == Quote(text) && WordReading(units) == text
  {
    ReplaceBefore(text, []);
    assert text + [] == text;
    assert [Single(text)][1..] == [];
  }

  lemma {:induction false} MoreQuotedUnits(text: string, later: string, tail: seq<Unit>)
    requires '\'' !in text && ValidWord(tail) && WordText(tail) == Quote(later) && WordReading(tail) == later
    ensures var s, units := text + (['\''] + later), [Single(text), Escaped('\'')] + tail;
            ValidWord(units) && WordText(units) == Quote(s) && WordReading(units) == s
  {
    TwoUnits(text, tail);
    ReplaceBefore(text, ['\''] + later);
    Reassociated(text, ReplaceQuotes(later));
  }

  lemma {:induction false} Reassociated(a: string, b: string)
    ensures ['\''] + a + ['\''] + ['\\', '\''] + (['\''] + b + ['\''])
         == ['\''] + (a + (['\'', '\\', '\'', '\''] + b)) + ['\'']
  {
  }

  lemma {:induction false} TwoUnits(text: string, tail: seq<Unit>)
    requires '\'' !in text && ValidWord(tail)
    ensures var units := [Single(text), Escaped('\'')] + tail;
            && ValidWord(units)
            && WordText(units) == ['\''] + text + ['\''] + ['\\', '\''] + WordText(tail)
            && WordReading(units) == text + (['\''] + WordReading(tail))
  {
  }

  /** A text that was quoted in single quotes is read back, whatever it holds. */
  lemma {:induction false} QuotedReadsBack(s: string, t: string)
    requires Stops(t)
    ensures WordParser(Quote(s) + t) == Got(s, t)
  {
    QuoteIsUnits(s);
    WordReadsAs(QuoteUnits(s), t);
  }
}
