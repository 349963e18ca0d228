/** Version strings split into components and separators, as EAPI 7's version
    manipulation commands see them (section 12.3.14 of the Package Manager
    Specification).
 */
module SimpleVersion {
  import opened Wrappers

  datatype Token = Component(text: string) | Separator(text: string)

  datatype Class = Digit | Alpha | Other

  function ClassOf(c: char): Class {
    if '0' <= c <= '9' then Digit
    else if 'a' <= c <= 'z' || 'A' <= c <= 'Z' then Alpha
    else Other
  }

  /** ASCII digits and letters make components, and anything else separates. */
  lemma ClassesAre(c: char)
    ensures ClassOf(c).Digit? <==> 48 <= c as int <= 57
    ensures ClassOf(c).Alpha? <==> 65 <= c as int <= 90 || 97 <= c as int <= 122
    ensures ClassOf('_').Other? && ClassOf('.').Other? && ClassOf('-').Other?
  {
  }

  predicate All(s: string, k: Class) {
    forall i :: 0 <= i < |s| ==> ClassOf(s[i]) == k
  }

  /** The length of the longest prefix made of one class. */
  function Span(s: string, k: Class): (n: nat)
    ensures n <= |s| && All(s[..n], k)
    ensures n < |s| ==> ClassOf(s[n]) != k
  {
    if s == [] || ClassOf(s[0]) != k then 0
    else
      var n := 1 + Span(s[1..], k);
      assert s[..n] == [s[0]] + s[1..][..n - 1];
      n
  }

  /** `many0` of a digit or letter run and the separator behind it, and the rest. */
  function Pairs(s: string): (seq<(string, string)>, string) {
    if s == [] || ClassOf(s[0]).Other? then ([], s)
    else
      var n := Span(s, ClassOf(s[0]));
      var m := Span(s[n..], Other);
      assert n > 0;
      var (more, rest) := Pairs(s[n + m..]);
      ([(s[..n], s[n..n + m])] + more, rest)
  }

  /** What the pairs become: an empty separator at the very end is dropped. */
  function Emit(pairs: seq<(string, string)>): seq<Token> {
    if pairs == [] then []
    else if |pairs| == 1 && pairs[0].1 == "" then [Component(pairs[0].0)]
    else [Component(pairs[0].0), Separator(pairs[0].1)] + Emit(pairs[1..])
  }

  function Lead(s: string): seq<Token> {
    if Span(s, Other) == 0 then [] else [Separator(s[..Span(s, Other)])]
  }

  /** `from_str`. It never fails. */
  method Parse(input: string) returns (r: Result<seq<Token>>)
    ensures r == Ok(Tokens(input))
  {
    var parts: seq<Token> := [];
    var lead := Span(input, Other);
    if lead > 0 {
      parts := parts + [Separator(input[..lead])];
    }
    assert parts == Lead(input);
    var behind := input[lead..];
    var (results, rest) := Pairs(behind);
    parts := PushAll(parts, results);
    PairsConsumeAll(behind);
    if rest != [] {
      return Err;
    }
    r := Ok(parts);
  }

  method PushAll(lead: seq<Token>, results: seq<(string, string)>) returns (parts: seq<Token>)
    ensures parts == lead + Emit(results)
  {
    parts := lead;
    var size := |results|;
    for idx := 0 to size
      invariant parts + Emit(results[idx..]) == lead + Emit(results)
    {
      var (component, separator) := results[idx];
      EmitStep(parts, results, idx);
      parts := parts + [Component(component)];
      if idx != size - 1 || separator != "" {
        parts := parts + [Separator(separator)];
      }
    }
  }

  function Tokens(input: string): seq<Token> {
    Lead(input) + Emit(Pairs(input[Span(input, Other)..]).0)
  }

  function Print(tokens: seq<Token>): string {
    if tokens == [] then [] else tokens[0].text + Print(tokens[1..])
  }

  lemma {:induction false} PrintAppend(a: seq<Token>, b: seq<Token>)
    ensures Print(a + b) == Print(a) + Print(b)
  {
    if a == [] {
      assert a + b == b;
    } else {
      assert (a + b)[1..] == a[1..] + b;
      PrintAppend(a[1..], b);
    }
  }

  /** How the next pair is found. */
  lemma NextPair(s: string) returns (c: string, sep: string, rest: string)
    requires s != [] && !ClassOf(s[0]).Other?
    ensures s == c + sep + rest && ValidComponent(c) && c[0] == s[0] && All(sep, Other)
    ensures rest != [] ==> !ClassOf(rest[0]).Other? && (sep == [] ==> DifferentRuns(c, rest))
    ensures Pairs(s) == ([(c, sep)] + Pairs(rest).0, Pairs(rest).1)
  {
    var n := Span(s, ClassOf(s[0]));
    var m := Span(s[n..], Other);
    c, sep, rest := s[..n], s[n..n + m], s[n + m..];
    assert n > 0 && All(s[n..][..m], Other) && s[n..][..m] == sep;
    if rest != [] {
      assert rest[0] == s[n..][m];
    }
  }

  lemma EmitCons(c: string, sep: string, more: seq<(string, string)>)
    ensures Emit([(c, sep)] + more) ==
            if more == [] && sep == "" then [Component(c)] else [Component(c), Separator(sep)] + Emit(more)
  {
  }

  lemma EmitStep(parts: seq<Token>, results: seq<(string, string)>, i: nat)
    requires i < |results|
    ensures parts + Emit(results[i..]) ==
            parts + [Component(results[i].0)] +
            (if i == |results| - 1 && results[i].1 == "" then [] else [Separator(results[i].1)]) +
            Emit(results[i + 1..])
  {
  }

  lemma PrintTwo(c: string, sep: string, rest: seq<Token>)
    ensures Print([Component(c), Separator(sep)] + rest) == c + sep + Print(rest)
    ensures Print([Component(c)]) == c
  {
  }

  /** Behind a leading separator, every character ends up in a pair, in order. */
  lemma {:induction false} PairsConsumeAll(s: string)
    requires s == [] || !ClassOf(s[0]).Other?
    ensures Pairs(s).1 == []
    ensures Print(Emit(Pairs(s).0)) == s
    ensures s != [] ==> Pairs(s).0 != []
    decreases |s|
  {
    if s != [] {
      var c, sep, rest := NextPair(s);
      PairsConsumeAll(rest);
      EmitCons(c, sep, Pairs(rest).0);
      PrintTwo(c, sep, Emit(Pairs(rest).0));
    }
  }

  lemma PrintLead(s: string)
    ensures Print(Lead(s)) == s[..Span(s, Other)]
  {
  }

  /** Printing what was parsed gives the string back, for every string. */
  lemma PrintAfterParse(s: string)
    ensures Print(Tokens(s)) == s
  {
    var n := Span(s, Other);
    var lead, rest := s[..n], s[n..];
    assert s == lead + rest;
    PairsConsumeAll(rest);
    PrintLead(s);
    PrintAppend(Lead(s), Emit(Pairs(rest).0));
  }

  predicate ValidComponent(s: string) {
    s != [] && (All(s, Digit) || All(s, Alpha))
  }

  /** Alternating, maximal runs; an empty separator only between a digit run and a
      letter run. */
  ghost predicate Canonical(tokens: seq<Token>) {
    forall i :: 0 <= i < |tokens| ==> CanonicalAt(tokens, i)
  }

  ghost predicate CanonicalAt(tokens: seq<Token>, i: nat)
    requires i < |tokens|
  {
    && (i + 1 < |tokens| ==> tokens[i].Component? != tokens[i + 1].Component?)
    && (tokens[i].Component? ==> ValidComponent(tokens[i].text))
    && (tokens[i].Separator? ==> All(tokens[i].text, Other))
    && (tokens[i] == Separator("") ==>
          && 0 < i < |tokens| - 1
          && DifferentRuns(tokens[i - 1].text, tokens[i + 1].text))
  }

  /** One is a digit run and the other a letter run. */
  predicate DifferentRuns(a: string, b: string) {
    a != [] && b != [] && ClassOf(a[0]) != ClassOf(b[0])
  }

  lemma CanonicalCons(c: string, s: string, rest: seq<Token>)
    requires ValidComponent(c) && All(s, Other) && Canonical(rest)
    requires rest != [] ==> rest[0].Component?
    requires s == "" ==> rest != [] && DifferentRuns(c, rest[0].text)
    ensures Canonical([Component(c), Separator(s)] + rest)
  {
    var all := [Component(c), Separator(s)] + rest;
    forall i | 0 <= i < |all| ensures CanonicalAt(all, i) {
      if i >= 2 {
        assert CanonicalAt(rest, i - 2);
      } else if rest != [] {
        assert CanonicalAt(rest, 0);
      }
    }
  }

  lemma CanonicalTail(tokens: seq<Token>, n: nat)
    requires Canonical(tokens) && n <= |tokens| && (n < |tokens| ==> tokens[n] != Separator(""))
    ensures Canonical(tokens[n..])
  {
    var rest := tokens[n..];
    forall i | 0 <= i < |rest| ensures CanonicalAt(rest, i) {
      assert CanonicalAt(tokens, n + i);
      if i > 0 {
        assert rest[i - 1] == tokens[n + i - 1];
      }
    }
  }

  lemma CanonicalOne(c: string)
    requires ValidComponent(c)
    ensures Canonical([Component(c)])
  {
  }

  ghost predicate StartsWith(tokens: seq<Token>, ch: char) {
    tokens != [] && tokens[0].Component? && tokens[0].text != [] && tokens[0].text[0] == ch
  }

  lemma {:induction false} EmitIsCanonical(s: string)
    requires s == [] || !ClassOf(s[0]).Other?
    ensures Canonical(Emit(Pairs(s).0))
    ensures s != [] ==> StartsWith(Emit(Pairs(s).0), s[0])
    decreases |s|
  {
    if s != [] {
      var c, sep, rest := NextPair(s);
      EmitIsCanonical(rest);
      EmitCons(c, sep, Pairs(rest).0);
      if Pairs(rest).0 == [] && sep == "" {
        CanonicalOne(c);
      } else {
        PairsConsumeAll(rest);
        CanonicalCons(c, sep, Emit(Pairs(rest).0));
      }
    }
  }

  /** Parsing yields canonical tokens only. */
  lemma ParseIsCanonical(s: string)
    ensures Canonical(Tokens(s))
  {
    var n := Span(s, Other);
    EmitIsCanonical(s[n..]);
    LeadIsCanonical(s[..n], Emit(Pairs(s[n..]).0));
  }

  lemma LeadIsCanonical(sep: string, rest: seq<Token>)
    requires All(sep, Other) && Canonical(rest) && (rest != [] ==> rest[0].Component?)
    ensures Canonical((if sep == [] then [] else [Separator(sep)]) + rest)
  {
    if sep == [] {
      assert [] + rest == rest;
    } else {
      var all := [Separator(sep)] + rest;
      forall i | 0 <= i < |all| ensures CanonicalAt(all, i) {
        if i > 0 {
          assert CanonicalAt(rest, i - 1);
        }
      }
    }
  }

  lemma {:induction false} SpanExactly(a: string, b: string, k: Class)
    requires All(a, k) && (b != [] ==> ClassOf(b[0]) != k)
    ensures Span(a + b, k) == |a|
    decreases |a|
  {
    if a == [] {
      assert a + b == b;
    } else {
      assert (a + b)[1..] == a[1..] + b;
      SpanExactly(a[1..], b, k);
    }
  }

  /** The converse of `NextPair`. */
  lemma PairsCons(c: string, sep: string, rest: string)
    requires ValidComponent(c) && All(sep, Other)
    requires rest != [] ==> !ClassOf(rest[0]).Other? && (sep == [] ==> DifferentRuns(c, rest))
    ensures Pairs(c + sep + rest) == ([(c, sep)] + Pairs(rest).0, Pairs(rest).1)
  {
    ThreeParts(c, sep, rest);
    SpanExactly(c, sep + rest, ClassOf(c[0]));
    SpanExactly(sep, rest, Other);
  }

  lemma ThreeParts(c: string, sep: string, rest: string)
    requires c != []
    ensures var s := c + sep + rest;
            && s == c + (sep + rest) && s[0] == c[0]
            && s[..|c|] == c && s[|c|..] == sep + rest
            && s[|c|..|c| + |sep|] == sep && s[|c| + |sep|..] == rest
  {
  }

  lemma {:induction false} PairsOfPrinted(tokens: seq<Token>)
    requires Canonical(tokens) && (tokens != [] ==> tokens[0].Component?)
    ensures Emit(Pairs(Print(tokens)).0) == tokens
    ensures tokens != [] ==>
              Print(tokens) != [] && StartsWith(tokens, Print(tokens)[0]) && ClassOf(Print(tokens)[0]) != Other
    decreases |tokens|
  {
    if tokens != [] {
      assert CanonicalAt(tokens, 0);
      var c := tokens[0].text;
      if |tokens| == 1 {
        assert tokens == [Component(c)];
        PrintTwo(c, "", []);
        PairsCons(c, "", "");
        assert c + "" + "" == c;
        EmitCons(c, "", []);
        assert [(c, "")] + [] == [(c, "")];
      } else {
        assert CanonicalAt(tokens, 1);
        var sep, rest := tokens[1].text, tokens[2..];
        assert tokens == [Component(c), Separator(sep)] + rest;
        assert rest != [] ==> rest[0] == tokens[2];
        CanonicalTail(tokens, 2);
        PairsOfPrinted(rest);
        PrintTwo(c, sep, rest);
        PairsCons(c, sep, Print(rest));
        EmitCons(c, sep, Pairs(Print(rest)).0);
      }
    }
  }

  /** Parsing a printed list gives the list back exactly for canonical lists. */
  lemma ParseAfterPrint(tokens: seq<Token>)
    ensures Tokens(Print(tokens)) == tokens <==> Canonical(tokens)
  {
    ParseIsCanonical(Print(tokens));
    if Canonical(tokens) {
      CanonicalParsesBack(tokens);
    }
  }

  /** `Display`. What was parsed is printed as it was; what is printed parses back
      exactly for canonical lists. */
  method Display(tokens: seq<Token>) returns (s: string)
    ensures s == Print(tokens)
    ensures forall input :: tokens == Tokens(input) ==> s == input
    ensures Tokens(s) == tokens <==> Canonical(tokens)
  {
    s := [];
    for i := 0 to |tokens|
      invariant s + Print(tokens[i..]) == Print(tokens)
    {
      s := s + tokens[i].text;
    }
    forall input | tokens == Tokens(input) ensures s == input {
      PrintAfterParse(input);
    }
    ParseAfterPrint(tokens);
  }

  lemma CanonicalParsesBack(tokens: seq<Token>)
    requires Canonical(tokens)
    ensures Tokens(Print(tokens)) == tokens
  {
    if tokens != [] && tokens[0].Separator? {
      LeadParsesBack(tokens);
    } else {
      PairsOfPrinted(tokens);
      TokensSplit([], Print(tokens));
      assert [] + Print(tokens) == Print(tokens) && [] + tokens == tokens;
    }
  }

  lemma LeadParsesBack(tokens: seq<Token>)
    requires Canonical(tokens) && tokens != [] && tokens[0].Separator?
    ensures Tokens(Print(tokens)) == tokens
  {
    var sep, rest := tokens[0].text, tokens[1..];
    BehindLead(tokens);
    PairsOfPrinted(rest);
    TokensSplit(sep, Print(rest));
    assert tokens == [Separator(sep)] + rest;
  }

  lemma BehindLead(tokens: seq<Token>)
    requires Canonical(tokens) && tokens != [] && tokens[0].Separator?
    ensures tokens[0].text != [] && All(tokens[0].text, Other)
    ensures Canonical(tokens[1..]) && (tokens[1..] != [] ==> tokens[1..][0].Component?)
  {
    assert CanonicalAt(tokens, 0);
    CanonicalTail(tokens, 1);
  }

  lemma TokensSplit(sep: string, rest: string)
    requires All(sep, Other) && (rest != [] ==> ClassOf(rest[0]) != Other)
    ensures Tokens(sep + rest) == (if sep == [] then [] else [Separator(sep)]) + Emit(Pairs(rest).0)
  {
    SpanExactly(sep, rest, Other);
    assert (sep + rest)[..|sep|] == sep && (sep + rest)[|sep|..] == rest;
  }
}
