/** Lists of strings in which every item is followed by a NUL. */
module NulList {
  const NUL: char := 0 as char

  function Terminated(items: seq<string>): string {
    if items == [] then [] else items[0] + [NUL] + Terminated(items[1..])
  }

  ghost predicate NulFree(items: seq<string>) {
    forall i :: 0 <= i < |items| ==> NUL !in items[i]
  }

  /** Reads a list back; `item` is what was read of the current item. The second
      part is what follows the last NUL. */
  function Read(s: string, item: string): (seq<string>, string) {
    if s == [] then ([], item)
    else if s[0] == NUL then
      var (items, rest) := Read(s[1..], []);
      ([item] + items, rest)
    else Read(s[1..], item + [s[0]])
  }

  lemma {:induction false} ReadItem(item: string, k: string, t: string)
    requires NUL !in k
    ensures Read(k + t, item) == Read(t, item + k)
    decreases |k|
  {
    if k == [] {
      assert k + t == t && item + k == item;
    } else {
      assert (k + t)[1..] == k[1..] + t;
      ReadItem(item + [k[0]], k[1..], t);
      assert item + [k[0]] + k[1..] == item + k;
    }
  }

  /** A list of NUL-free items, and what was cut off behind it, can be read back. */
  lemma {:induction false} ReadTerminated(items: seq<string>, rest: string)
    requires NulFree(items) && NUL !in rest
    ensures Read(Terminated(items) + rest, []) == (items, rest)
    decreases |items|
  {
    if items == [] {
      assert Terminated(items) + rest == rest + [];
      ReadItem([], rest, []);
      assert [] + rest == rest;
    } else {
      var t := [NUL] + Terminated(items[1..]) + rest;
      assert Terminated(items) + rest == items[0] + t;
      ReadItem([], items[0], t);
      assert t[0] == NUL && t[1..] == Terminated(items[1..]) + rest;
      assert [] + items[0] == items[0];
      ReadTerminated(items[1..], rest);
      assert [items[0]] + items[1..] == items;
    }
  }

  /** Nothing else reads as these items and this rest. */
  lemma {:induction false} ReadIsInverse(s: string, item: string)
    requires NUL !in item
    ensures var (items, rest) := Read(s, item);
            item + s == Terminated(items) + rest && NulFree(items) && NUL !in rest
    decreases |s|
  {
    if s == [] {
      assert item + s == item && Terminated([]) + item == item;
    } else if s[0] == NUL {
      var (items, rest) := Read(s[1..], []);
      ReadIsInverse(s[1..], []);
      assert [] + s[1..] == s[1..] && s == [NUL] + s[1..];
      OneMoreItem(item, s[1..], items, rest);
    } else {
      ReadIsInverse(s[1..], item + [s[0]]);
      assert item + [s[0]] + s[1..] == item + s;
    }
  }

  lemma OneMoreItem(item: string, s: string, items: seq<string>, rest: string)
    requires s == Terminated(items) + rest
    ensures item + ([NUL] + s) == Terminated([item] + items) + rest
  {
    assert ([item] + items)[1..] == items;
    var t := Terminated(items);
    assert item + ([NUL] + (t + rest)) == item + [NUL] + t + rest;
  }

  lemma {:induction false} TerminatedAppend(a: seq<string>, b: seq<string>)
    ensures Terminated(a + b) == Terminated(a) + Terminated(b)
  {
    if a == [] {
      assert a + b == b;
    } else {
      assert (a + b)[1..] == a[1..] + b;
      TerminatedAppend(a[1..], b);
    }
  }

  lemma TerminatedOne(item: string)
    ensures Terminated([item]) == item + [NUL]
  {
  }
}
