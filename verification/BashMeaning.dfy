/** What quoted words mean (section 2.2 of the POSIX.1-2017 Shell Command Language, and the
    dollar-single-quotes of bash), and which of them the parser reads as that.
 */
module BashMeaning {
  import opened BashWords
  import opened Utf8
  import opened Wrappers

  /** The shell gives these a meaning wherever they are not quoted. */
  predicate MustBeQuoted(c: char) {
    c in {'|', '&', ';', '<', '>', '(', ')', '$', '`', '\\', '"', '\'', ' ', '\t', '\n'}
  }

  /** An unquoted character belongs to a word unless the shell gives it a meaning or it
      is a bracket. */
  lemma {:induction false} UnquotedExactly(c: char, s: string)
    ensures WordParser([c] + s).Got? && UnquotedChar([c] + s) == Got(c, s) <==>
            !MustBeQuoted(c) && c != '[' && c != ']'
  {
    var t := [c] + s;
    assert t[1..] == s;
    if !IsSpecial(c) {
      ManyStep(UnquotedChar, t, c, s);
      UnitShortens(t);
    }
  }

  /** In double quotes a backslash quotes only these, and a newline, which it removes. */
  predicate KeepsMeaningInDouble(c: char) {
    c == '$' || c == '`' || c == '"' || c == '\\'
  }

  function DoubleItemMeaning(d: DoubleItem): string {
    if d.DRaw? || KeepsMeaningInDouble(d.c) then [d.c]
    else if d.c == '\n' then []
    else ['\\', d.c]
  }

  function DoubleMeaning(items: seq<DoubleItem>): Bytes {
    if items == [] then [] else Encoded(DoubleItemMeaning(items[0])) + DoubleMeaning(items[1..])
  }

  /** The byte that a named escape stands for. */
  function EscapeByte(c: char): Byte {
    match c
    case 'a' => 0x07
    case 'b' => 0x08
    case 't' => 0x09
    case 'n' => 0x0A
    case 'v' => 0x0B
    case 'f' => 0x0C
    case 'r' => 0x0D
    case 'e' => 0x1B
    case 'E' => 0x1B
    case '"' => 0x22
    case '\'' => 0x27
    case '?' => 0x3F
    case _ => 0x5C
  }

  /** These are the named escapes. */
  lemma {:induction false} NamedExactly(c: char, s: string)
    ensures var named := {'a', 'b', 'e', 'E', 'f', 'n', 'r', 't', 'v', '\\', '\'', '"', '?'};
            && (Named(c).Some? <==> c in named)
            && (c in named ==> DollarChar(['\\', c] + s) == Got(EscapeByte(c) as int as char, s))
  {
    assert (['\\', c] + s)[2..] == s;
  }

  /** An octal escape is one byte. */
  function DollarItemMeaning(d: DollarItem): Bytes
    requires ValidDollar(d)
  {
    match d
    case LRaw(c) => CharBytes(c)
    case LNamed(c) => [EscapeByte(c)]
    case LOctal(_, _, _) => [OctalNumber(d) as Byte]
  }

  function DollarMeaning(items: seq<DollarItem>): Bytes
    requires forall i :: 0 <= i < |items| ==> ValidDollar(items[i])
  {
    if items == [] then [] else
    assert ValidDollar(items[0]);
    DollarItemMeaning(items[0]) + DollarMeaning(items[1..])
  }

  /** A backslash before a newline continues the line. */
  function Meaning(u: Unit): Bytes
    requires Valid(u)
  {
    match u
    case Plain(c) => CharBytes(c)
    case Escaped(c) => if c == '\n' then [] else CharBytes(c)
    case Single(text) => Encoded(text)
    case Double(items) => DoubleMeaning(items)
    case Dollar(items) => DollarMeaning(items)
  }

  function WordMeaning(units: seq<Unit>): Bytes
    requires ValidWord(units)
  {
    if units == [] then [] else Meaning(units[0]) + WordMeaning(units[1..])
  }

  /** No parameter or command is expanded; what such a word means is more than quoting.
      Nor is there a NUL, which no value can hold. */
  predicate IsLiteral(u: Unit) {
    match u
    case Double(items) => forall i :: 0 <= i < |items| && items[i].DRaw? ==> items[i].c != '$' && items[i].c != '`'
    case Dollar(items) => LOctal('0', '0', '0') !in items
    case _ => true
  }

  /** A tilde is expanded at the beginning and behind a colon or an equals sign. */
  predicate TildeExpands(units: seq<Unit>, i: nat)
    requires i < |units|
  {
    units[i] == Plain('~') && (i == 0 || units[i - 1] == Plain(':') || units[i - 1] == Plain('='))
  }

  predicate LiteralWord(units: seq<Unit>) {
    forall i :: 0 <= i < |units| ==> IsLiteral(units[i]) && !TildeExpands(units, i)
  }

  /** The bytes that tell a reading from the meaning. */
  datatype Mark = Newline | Backslash | High

  predicate Marked(x: Byte, k: Mark) {
    match k
    case Newline => x == 10
    case Backslash => x == 0x5C
    case High => x >= 0x80
  }

  function Count(b: Bytes, k: Mark): nat {
    if b == [] then 0 else (if Marked(b[0], k) then 1 else 0) + Count(b[1..], k)
  }

  lemma {:induction false} CountAppend(a: Bytes, b: Bytes, k: Mark)
    ensures Count(a + b, k) == Count(a, k) + Count(b, k)
  {
    if a == [] {
      assert a + b == b;
    } else {
      assert (a + b)[1..] == a[1..] + b;
      CountAppend(a[1..], b, k);
    }
  }

  /** A newline that is kept although it was escaped, a backslash that is lost, a byte
      that becomes a character of two. */
  predicate DoubleFlaw(d: DoubleItem, k: Mark) {
    && d.DEscape?
    && match k
       case Newline => d.c == '\n'
       case Backslash => d.c != '\n' && !KeepsMeaningInDouble(d.c)
       case High => false
  }

  predicate DollarFlaw(d: DollarItem, k: Mark)
    requires ValidDollar(d)
  {
    k.High? && d.LOctal? && OctalNumber(d) >= 0x80
  }

  function DoubleFlaws(items: seq<DoubleItem>, k: Mark): nat {
    if items == [] then 0 else (if DoubleFlaw(items[0], k) then 1 else 0) + DoubleFlaws(items[1..], k)
  }

  function DollarFlaws(items: seq<DollarItem>, k: Mark): nat
    requires forall i :: 0 <= i < |items| ==> ValidDollar(items[i])
  {
    if items == [] then 0 else
    assert ValidDollar(items[0]);
    (if DollarFlaw(items[0], k) then 1 else 0) + DollarFlaws(items[1..], k)
  }

  function Flaws(u: Unit, k: Mark): nat
    requires Valid(u)
  {
    match u
    case Escaped(c) => if c == '\n' && k.Newline? then 1 else 0
    case Double(items) => DoubleFlaws(items, k)
    case Dollar(items) => DollarFlaws(items, k)
    case _ => 0
  }

  function WordFlaws(units: seq<Unit>, k: Mark): nat
    requires ValidWord(units)
  {
    if units == [] then 0 else Flaws(units[0], k) + WordFlaws(units[1..], k)
  }

  predicate PlainlyQuotedDouble(items: seq<DoubleItem>) {
    forall i :: 0 <= i < |items| && items[i].DEscape? ==> KeepsMeaningInDouble(items[i].c)
  }

  predicate PlainlyQuotedDollar(items: seq<DollarItem>)
    requires forall i :: 0 <= i < |items| ==> ValidDollar(items[i])
  {
    forall i :: 0 <= i < |items| && items[i].LOctal? ==> assert ValidDollar(items[i]); OctalNumber(items[i]) < 0x80
  }

  /** No newline is escaped, in double quotes nothing else is that need not be, and no
      octal escape is above 0177. */
  ghost predicate PlainlyQuoted(u: Unit)
    requires Valid(u)
  {
    match u
    case Escaped(c) => c != '\n'
    case Double(items) => PlainlyQuotedDouble(items)
    case Dollar(items) => PlainlyQuotedDollar(items)
    case _ => true
  }

  ghost predicate PlainlyQuotedWord(units: seq<Unit>)
    requires ValidWord(units)
  {
    forall i :: 0 <= i < |units| ==> assert Valid(units[i]); PlainlyQuoted(units[i])
  }

  /** Bytes read against bytes meant: so many of a kind more, or fewer backslashes. */
  ghost predicate Differ(read: Bytes, meant: Bytes, flaws: nat, k: Mark) {
    if k.Backslash? then Count(read, k) + flaws == Count(meant, k) else Count(read, k) == Count(meant, k) + flaws
  }

  lemma {:induction false} DifferAppend(a: Bytes, b: Bytes, n: nat, c: Bytes, d: Bytes, m: nat, k: Mark)
    requires Differ(a, b, n, k) && Differ(c, d, m, k)
    ensures Differ(a + c, b + d, n + m, k)
  {
    CountAppend(a, c, k);
    CountAppend(b, d, k);
  }

  lemma {:induction false} CharCount(c: char, k: Mark)
    ensures Count(CharBytes(c), k) ==
            match k
            case Newline => if c == '\n' then 1 else 0
            case Backslash => if c == '\\' then 1 else 0
            case High => if c as int < 0x80 then 0 else |CharBytes(c)|
  {
    var b := CharBytes(c);
    if |b| > 1 {
      assert forall i :: 0 <= i < |b| ==> b[i] >= 0x80;
      HighOnly(b, k);
    } else {
      assert b[1..] == [];
    }
  }

  lemma {:induction false} HighOnly(b: Bytes, k: Mark)
    requires forall i :: 0 <= i < |b| ==> b[i] >= 0x80
    ensures Count(b, k) == if k.High? then |b| else 0
  {
    if b != [] {
      HighOnly(b[1..], k);
    }
  }

  lemma {:induction false} DoubleItemDiffers(d: DoubleItem, k: Mark)
    ensures Differ(CharBytes(d.c), Encoded(DoubleItemMeaning(d)), if DoubleFlaw(d, k) then 1 else 0, k)
    ensures d.DRaw? || KeepsMeaningInDouble(d.c) ==> CharBytes(d.c) == Encoded(DoubleItemMeaning(d))
  {
    CharCount(d.c, k);
    CharCount('\\', k);
    EncodedOne(d.c);
    EncodedOne('\\');
    assert ['\\', d.c] == ['\\'] + [d.c];
    EncodedAppend(['\\'], [d.c]);
    CountAppend(CharBytes('\\'), CharBytes(d.c), k);
  }

  lemma {:induction false} DoubleDiffers(items: seq<DoubleItem>, k: Mark)
    ensures Differ(Encoded(DoubleReading(items)), DoubleMeaning(items), DoubleFlaws(items, k), k)
  {
    if items != [] {
      DoubleDiffers(items[1..], k);
      DoubleItemDiffers(items[0], k);
      EncodedAppend([items[0].c], DoubleReading(items[1..]));
      EncodedOne(items[0].c);
      DifferAppend(CharBytes(items[0].c), Encoded(DoubleItemMeaning(items[0])),
                   if DoubleFlaw(items[0], k) then 1 else 0,
                   Encoded(DoubleReading(items[1..])), DoubleMeaning(items[1..]), DoubleFlaws(items[1..], k), k);
    }
  }

  lemma {:induction false} DollarItemDiffers(d: DollarItem, k: Mark)
    requires ValidDollar(d)
    ensures Differ(CharBytes(DollarItemReading(d)), DollarItemMeaning(d), if DollarFlaw(d, k) then 1 else 0, k)
    ensures !DollarFlaw(d, High) ==> CharBytes(DollarItemReading(d)) == DollarItemMeaning(d)
  {
    CharCount(DollarItemReading(d), k);
    if d.LOctal? {
      assert DollarItemMeaning(d)[1..] == [];
    }
  }

  lemma {:induction false} DollarDiffers(items: seq<DollarItem>, k: Mark)
    requires forall i :: 0 <= i < |items| ==> ValidDollar(items[i])
    ensures Differ(Encoded(DollarReading(items)), DollarMeaning(items), DollarFlaws(items, k), k)
  {
    if items != [] {
      assert ValidDollar(items[0]);
      DollarDiffers(items[1..], k);
      DollarItemDiffers(items[0], k);
      EncodedAppend([DollarItemReading(items[0])], DollarReading(items[1..]));
      EncodedOne(DollarItemReading(items[0]));
      DifferAppend(CharBytes(DollarItemReading(items[0])), DollarItemMeaning(items[0]),
                   if DollarFlaw(items[0], k) then 1 else 0,
                   Encoded(DollarReading(items[1..])), DollarMeaning(items[1..]), DollarFlaws(items[1..], k), k);
    }
  }

  /** Without a flaw the bytes are the same; what is not plainly quoted has one. */
  lemma {:induction false} DoublePlain(items: seq<DoubleItem>)
    ensures PlainlyQuotedDouble(items) ==> Encoded(DoubleReading(items)) == DoubleMeaning(items)
    ensures PlainlyQuotedDouble(items) <==> DoubleFlaws(items, Newline) == DoubleFlaws(items, Backslash) == 0
  {
    if items != [] {
      DoublePlain(items[1..]);
      PlainlyQuotedCons(items);
      DoubleItemDiffers(items[0], Newline);
      EncodedAppend([items[0].c], DoubleReading(items[1..]));
      EncodedOne(items[0].c);
    }
  }

  lemma {:induction false} PlainlyQuotedCons(items: seq<DoubleItem>)
    requires items != []
    ensures PlainlyQuotedDouble(items) <==>
            (items[0].DEscape? ==> KeepsMeaningInDouble(items[0].c)) && PlainlyQuotedDouble(items[1..])
  {
    assert forall i :: 0 <= i < |items| ==> items[i] == if i == 0 then items[0] else items[1..][i - 1];
  }

  lemma {:induction false} DollarPlain(items: seq<DollarItem>)
    requires forall i :: 0 <= i < |items| ==> ValidDollar(items[i])
    ensures PlainlyQuotedDollar(items) ==> Encoded(DollarReading(items)) == DollarMeaning(items)
    ensures PlainlyQuotedDollar(items) <==> DollarFlaws(items, High) == 0
  {
    if items != [] {
      assert ValidDollar(items[0]);
      DollarPlain(items[1..]);
      DollarItemDiffers(items[0], High);
      assert PlainlyQuotedDollar(items) <==> !DollarFlaw(items[0], High) && PlainlyQuotedDollar(items[1..]) by {
        assert forall i :: 0 <= i < |items| ==> items[i] == if i == 0 then items[0] else items[1..][i - 1];
      }
      EncodedAppend([DollarItemReading(items[0])], DollarReading(items[1..]));
      EncodedOne(DollarItemReading(items[0]));
    }
  }

  lemma {:induction false} UnitDiffers(u: Unit, k: Mark)
    requires Valid(u)
    ensures Differ(Encoded(Reading(u)), Meaning(u), Flaws(u, k), k)
  {
    match u
    case Plain(c) => EncodedOne(c);
    case Escaped(c) =>
      EncodedOne(c);
      CharCount(c, k);
    case Single(_) =>
    case Double(items) => DoubleDiffers(items, k);
    case Dollar(items) => DollarDiffers(items, k);
  }

  lemma {:induction false} UnitPlain(u: Unit)
    requires Valid(u)
    ensures PlainlyQuoted(u) ==> Encoded(Reading(u)) == Meaning(u)
    ensures PlainlyQuoted(u) <==> Flaws(u, Newline) == Flaws(u, Backslash) == Flaws(u, High) == 0
  {
    match u
    case Plain(c) => EncodedOne(c);
    case Escaped(c) => EncodedOne(c);
    case Single(_) =>
    case Double(items) =>
      DoublePlain(items);
      NoHighInDouble(items);
    case Dollar(items) =>
      DollarPlain(items);
      OnlyHighInDollar(items);
  }

  lemma {:induction false} NoHighInDouble(items: seq<DoubleItem>)
    ensures DoubleFlaws(items, High) == 0
  {
    if items != [] {
      NoHighInDouble(items[1..]);
    }
  }

  lemma {:induction false} OnlyHighInDollar(items: seq<DollarItem>)
    requires forall i :: 0 <= i < |items| ==> ValidDollar(items[i])
    ensures DollarFlaws(items, Newline) == DollarFlaws(items, Backslash) == 0
  {
    if items != [] {
      OnlyHighInDollar(items[1..]);
    }
  }

  lemma {:induction false} WordDiffers(units: seq<Unit>, k: Mark)
    requires ValidWord(units)
    ensures Differ(Encoded(WordReading(units)), WordMeaning(units), WordFlaws(units, k), k)
  {
    if units != [] {
      assert Valid(units[0]);
      WordDiffers(units[1..], k);
      UnitDiffers(units[0], k);
      EncodedAppend(Reading(units[0]), WordReading(units[1..]));
      DifferAppend(Encoded(Reading(units[0])), Meaning(units[0]), Flaws(units[0], k),
                   Encoded(WordReading(units[1..])), WordMeaning(units[1..]), WordFlaws(units[1..], k), k);
    }
  }

  lemma {:induction false} WordPlain(units: seq<Unit>)
    requires ValidWord(units)
    ensures PlainlyQuotedWord(units) ==> Encoded(WordReading(units)) == WordMeaning(units)
    ensures PlainlyQuotedWord(units) <==>
            WordFlaws(units, Newline) == WordFlaws(units, Backslash) == WordFlaws(units, High) == 0
  {
    if units != [] {
      var first, rest := units[0], units[1..];
      assert Valid(first);
      WordPlain(rest);
      UnitPlain(first);
      assert PlainlyQuotedWord(units) <==> PlainlyQuoted(first) && PlainlyQuotedWord(rest) by {
        assert forall i :: 0 <= i < |units| ==> units[i] == if i == 0 then first else rest[i - 1];
      }
      EncodedAppend(Reading(first), WordReading(rest));
    }
  }

  lemma {:induction false} ReadingIsMeantExactly(units: seq<Unit>)
    requires ValidWord(units)
    ensures Decoded(WordMeaning(units)) == Some(WordReading(units)) <==> PlainlyQuotedWord(units)
  {
    DecodedIs(WordMeaning(units), WordReading(units));
    WordPlain(units);
    if !PlainlyQuotedWord(units) {
      WordDiffers(units, Newline);
      WordDiffers(units, Backslash);
      WordDiffers(units, High);
    }
  }

  /** A word without expansions is read as what its quoting means exactly if no newline
      in it is escaped, nothing in double quotes is that keeps its backslash, and no octal
      escape is a byte above 0177. */
  lemma {:induction false} WordReadsItsMeaning(units: seq<Unit>, t: string)
    requires units != [] && ValidWord(units) && LiteralWord(units) && Stops(t)
    ensures WordParser(WordText(units) + t).Got?
    ensures var read := WordParser(WordText(units) + t);
            Decoded(WordMeaning(units)) == Some(read.value) && read.rest == t <==> PlainlyQuotedWord(units)
  {
    WordReadsAs(units, t);
    ReadingIsMeantExactly(units);
  }

  /** The two bytes of a letter with an accent, as bash prints them where only ASCII is
      printable, are read as two letters. */
  lemma {:induction false} OctalBytesAreNoChars()
    ensures var units := [Dollar([LOctal('3', '0', '3'), LOctal('2', '5', '1')])];
            && ValidWord(units) && LiteralWord(units)
            && WordText(units) == "$'\\303\\251'" && Decoded(WordMeaning(units)) == Some([0xE9 as char])
            && WordParser("$'\\303\\251'") == Got([0xC3 as char, 0xA9 as char], "")
  {
    AccentBytes();
    var units := [Dollar([LOctal('3', '0', '3'), LOctal('2', '5', '1')])];
    DecodedIs(WordMeaning(units), [0xE9 as char]);
    assert WordText(units) + "" == WordText(units);
    WordReadsAs(units, "");
  }

  lemma {:induction false} AccentBytes()
    ensures var units := [Dollar([LOctal('3', '0', '3'), LOctal('2', '5', '1')])];
            && ValidWord(units) && WordText(units) == "$'\\303\\251'"
            && WordReading(units) == [0xC3 as char, 0xA9 as char] && WordMeaning(units) == Encoded([0xE9 as char])
  {
    var items := [LOctal('3', '0', '3'), LOctal('2', '5', '1')];
    TwoOctals(items[0], items[1]);
    OneDollar(items);
    EncodedOne(0xE9 as char);
  }

  lemma {:induction false} TwoOctals(a: DollarItem, b: DollarItem)
    requires ValidDollar(a) && ValidDollar(b) && a.LOctal? && b.LOctal?
    ensures var items := [a, b];
            && (forall i :: 0 <= i < |items| ==> ValidDollar(items[i]))
            && DollarText(items) == ['\\', a.x, a.y, a.z] + ['\\', b.x, b.y, b.z]
            && DollarReading(items) == [OctalNumber(a) as char, OctalNumber(b) as char]
            && DollarMeaning(items) == [OctalNumber(a) as Byte, OctalNumber(b) as Byte]
  {
    assert [a, b][1..] == [b] && [b][1..] == [];
    assert DollarText([b]) == ['\\', b.x, b.y, b.z] + [];
    assert DollarReading([b]) == [OctalNumber(b) as char] + [];
    assert DollarMeaning([b]) == [OctalNumber(b) as Byte] + [];
  }

  lemma {:induction false} OneDollar(items: seq<DollarItem>)
    requires forall i :: 0 <= i < |items| ==> ValidDollar(items[i])
    ensures var units := [Dollar(items)];
            && ValidWord(units)
            && WordText(units) == ['$', '\''] + DollarText(items) + ['\'']
            && WordReading(units) == DollarReading(items) && WordMeaning(units) == DollarMeaning(items)
  {
    var units := [Dollar(items)];
    assert Valid(units[0]) && units[1..] == [];
    assert WordReading(units) == DollarReading(items) + [];
    assert WordMeaning(units) == DollarMeaning(items) + [];
  }

  /** The backslash of `"\a"` is lost. */
  lemma {:induction false} BackslashInDoubleIsLost()
    ensures var units := [Double([DEscape('a')])];
            && ValidWord(units) && LiteralWord(units)
            && WordText(units) == "\"\\a\"" && Decoded(WordMeaning(units)) == Some("\\a")
            && WordParser("\"\\a\"") == Got("a", "")
  {
    var items := [DEscape('a')];
    var units := [Double(items)];
    assert items[1..] == [] && units[1..] == [];
    assert DoubleText(items) == ['\\', 'a'] && WordText(units) == "\"\\a\"";
    assert DoubleReading(items) == "a" && WordReading(units) == "a" + [];
    assert DoubleMeaning(items) == Encoded("\\a") + [] && WordMeaning(units) == DoubleMeaning(items) + [];
    DecodedIs(WordMeaning(units), "\\a");
    assert "\"\\a\"" + "" == "\"\\a\"";
    WordReadsAs(units, "");
  }

  /** An escaped newline is kept instead of joining the lines. */
  lemma {:induction false} EscapedNewlineIsKept()
    ensures var units := [Escaped('\n')];
            && ValidWord(units) && LiteralWord(units)
            && WordText(units) == "\\\n" && Decoded(WordMeaning(units)) == Some("")
            && WordParser("\\\n") == Got("\n", "")
  {
    var units := [Escaped('\n')];
    assert Valid(units[0]) && units[1..] == [];
    assert WordText(units) == "\\\n" && WordText(units) + "" == "\\\n";
    assert WordReading([]) == [] && Reading(units[0]) == "\n" && WordReading(units) == "\n" && WordMeaning(units) == [];
    DecodedIs([], "");
    WordReadsAs(units, "");
    assert WordParser("\\\n") == Got(WordReading(units), "");
  }

  /** A hexadecimal escape is not known: its characters stand for themselves. */
  lemma {:induction false} HexEscapeIsKept()
    ensures WordParser("$'\\x41'") == Got("\\x41", "")
  {
    HexCharsAreRead();
    var s := "$'\\x41'";
    assert s[2..] == "\\x41'" && "'"[1..] == "";
    assert DollarQuoted(s) == Got("\\x41", "");
    NotUnquoted(s);
    JoinedQuoted(s, "\\x41", "");
    JoinedNothing("");
    assert "\\x41" + "" == "\\x41";
    UnitShortens(s);
    WordOfJoined(s);
  }

  lemma {:induction false} HexCharsAreRead()
    ensures Many(DollarChar, "\\x41'") == ("\\x41", "'")
  {
    assert "1'"[1..] == "'" && "41'"[1..] == "1'" && "x41'"[1..] == "41'" && "\\x41'"[1..] == "x41'";
    ManyStop(DollarChar, "'");
    ManyStep(DollarChar, "1'", '1', "'");
    ManyStep(DollarChar, "41'", '4', "1'");
    ManyStep(DollarChar, "x41'", 'x', "41'");
    ManyStep(DollarChar, "\\x41'", '\\', "x41'");
    assert ['1'] + [] == "1" && ['4'] + "1" == "41" && ['x'] + "41" == "x41" && ['\\'] + "x41" == "\\x41";
  }
}
