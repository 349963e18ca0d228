/** Text as bytes. */
module Utf8 {
  import opened Wrappers

  newtype Byte = x: int | 0 <= x < 256

  type Bytes = seq<Byte>

  /** The last six bits of a number, as a byte that continues a character. */
  function Continuation(n: nat): Byte {
    (0x80 + n % 0x40) as Byte
  }

  /** A character in UTF-8. */
  function CharBytes(c: char): (b: Bytes)
    ensures b != []
  {
    var n := c as int;
    if n < 0x80 then [n as Byte]
    else if n < 0x800 then [(0xC0 + n / 0x40) as Byte, Continuation(n)]
    else if n < 0x1_0000 then [(0xE0 + n / 0x40 / 0x40) as Byte, Continuation(n / 0x40), Continuation(n)]
    else
      [(0xF0 + n / 0x40 / 0x40 / 0x40) as Byte, Continuation(n / 0x40 / 0x40), Continuation(n / 0x40), Continuation(n)]
  }

  function Encoded(s: string): Bytes {
    if s == [] then [] else CharBytes(s[0]) + Encoded(s[1..])
  }

  lemma {:induction false} EncodedAppend(a: string, b: string)
    ensures Encoded(a + b) == Encoded(a) + Encoded(b)
  {
    if a == [] {
      assert a + b == b;
    } else {
      assert (a + b)[1..] == a[1..] + b;
      EncodedAppend(a[1..], b);
      assert CharBytes(a[0]) + (Encoded(a[1..]) + Encoded(b)) == CharBytes(a[0]) + Encoded(a[1..]) + Encoded(b);
    }
  }

  lemma {:induction false} EncodedOne(c: char)
    ensures Encoded([c]) == CharBytes(c)
  {
    assert [c][1..] == [];
  }

  /** For instance, with two, three and four bytes. */
  lemma {:induction false} SomeChars()
    ensures CharBytes('A') == [0x41] && CharBytes(0xE9 as char) == [0xC3, 0xA9]
    ensures CharBytes(0x20AC as char) == [0xE2, 0x82, 0xAC]
    ensures CharBytes(0x1F600 as char) == [0xF0, 0x9F, 0x98, 0x80]
  {
    assert 0x20AC / 0x40 == 0x82 && 0x82 / 0x40 == 2;
    assert 0x1F600 / 0x40 == 0x7D8 && 0x7D8 / 0x40 == 0x1F && 0x1F / 0x40 == 0;
  }

  /** How many bytes belong to a character, from the first one. */
  function CharLength(first: Byte): nat {
    if first < 0x80 then 1 else if first < 0xE0 then 2 else if first < 0xF0 then 3 else 4
  }

  /** The number of the character that the bytes stand for. */
  function CodePoint(b: Bytes): int
    requires 1 <= |b| <= 4
  {
    if |b| == 1 then b[0] as int
    else if |b| == 2 then (b[0] as int - 0xC0) * 0x40 + Low(b[1])
    else if |b| == 3 then ((b[0] as int - 0xE0) * 0x40 + Low(b[1])) * 0x40 + Low(b[2])
    else (((b[0] as int - 0xF0) * 0x40 + Low(b[1])) * 0x40 + Low(b[2])) * 0x40 + Low(b[3])
  }

  function Low(b: Byte): int {
    b as int - 0x80
  }

  lemma {:induction false} CharFromBytes(c: char)
    ensures |CharBytes(c)| == CharLength(CharBytes(c)[0]) && CodePoint(CharBytes(c)) == c as int
  {
    var n := c as int;
    assert n / 0x40 * 0x40 + n % 0x40 == n;
    var m := n / 0x40;
    assert m / 0x40 * 0x40 + m % 0x40 == m;
  }

  /** The first byte tells how many belong to a character, and they tell the character. */
  lemma {:induction false} SameChar(c: char, d: char)
    requires CharBytes(c)[0] == CharBytes(d)[0]
    ensures |CharBytes(c)| == |CharBytes(d)|
    ensures CharBytes(c) == CharBytes(d) ==> c == d
  {
    CharFromBytes(c);
    CharFromBytes(d);
  }

  lemma {:induction false} EncodedIsInjective(a: string, b: string)
    requires Encoded(a) == Encoded(b)
    ensures a == b
  {
    if a != [] && b != [] {
      var x, y := CharBytes(a[0]), CharBytes(b[0]);
      assert Encoded(a)[0] == x[0] && Encoded(b)[0] == y[0];
      SameChar(a[0], b[0]);
      assert x == Encoded(a)[..|x|] && y == Encoded(b)[..|y|];
      assert Encoded(a[1..]) == Encoded(a)[|x|..] && Encoded(b[1..]) == Encoded(b)[|y|..];
      EncodedIsInjective(a[1..], b[1..]);
      assert a == [a[0]] + a[1..] && b == [b[0]] + b[1..];
    }
  }

  /** The text that the bytes stand for, if they are UTF-8. */
  ghost function Decoded(b: Bytes): Option<string> {
    if exists s :: Encoded(s) == b then var s :| Encoded(s) == b; Some(s) else None
  }

  lemma {:induction false} DecodedIs(b: Bytes, s: string)
    ensures Decoded(b) == Some(s) <==> Encoded(s) == b
  {
    if Encoded(s) == b {
      EncodedIsInjective(Decoded(b).value, s);
    }
  }
}
