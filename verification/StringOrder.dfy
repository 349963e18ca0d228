/** The order of strings by characters, and sorted lists of them. */
module StringOrder {
  predicate Less(a: string, b: string) {
    b != [] && (a == [] || a[0] < b[0] || (a[0] == b[0] && Less(a[1..], b[1..])))
  }

  /** The strings agree up to `i`, where the first ends or has the smaller character. */
  ghost predicate LessAt(a: string, b: string, i: nat) {
    i <= |a| && i < |b| && a[..i] == b[..i] && (i == |a| || a[i] < b[i])
  }

  lemma {:induction false} LessExactly(a: string, b: string)
    ensures Less(a, b) <==> exists i: nat :: LessAt(a, b, i)
  {
    if b == [] {
    } else if a == [] || a[0] < b[0] {
      assert LessAt(a, b, 0);
    } else {
      LessExactly(a[1..], b[1..]);
      if Less(a, b) {
        var i: nat :| LessAt(a[1..], b[1..], i);
        assert a[..i + 1] == [a[0]] + a[1..][..i] && b[..i + 1] == [b[0]] + b[1..][..i];
        assert LessAt(a, b, i + 1);
      }
      if i: nat :| LessAt(a, b, i) {
        if i > 0 {
          assert a[0] == a[..i][0] == b[..i][0] == b[0];
          assert a[1..][..i - 1] == a[..i][1..] && b[1..][..i - 1] == b[..i][1..];
          assert LessAt(a[1..], b[1..], i - 1);
        }
      }
    }
  }

  lemma {:induction false} PrefixIsLess(a: string, b: string)
    requires a <= b && a != b
    ensures Less(a, b) && !Less(b, a)
  {
    if a != [] {
      PrefixIsLess(a[1..], b[1..]);
    }
  }

  lemma {:induction false} LessIsStrict(a: string, b: string)
    requires Less(a, b)
    ensures a != b && !Less(b, a)
  {
    if a != [] && a[0] == b[0] {
      LessIsStrict(a[1..], b[1..]);
    }
  }

  lemma {:induction false} NotLessIsTransitive(a: string, b: string, c: string)
    requires !Less(b, a) && !Less(c, b)
    ensures !Less(c, a)
  {
    if a != [] && b != [] && c != [] && a[0] == b[0] == c[0] {
      NotLessIsTransitive(a[1..], b[1..], c[1..]);
    }
  }

  ghost predicate Sorted(s: seq<string>) {
    forall i, j :: 0 <= i < j < |s| ==> !Less(s[j], s[i])
  }

  /** Puts one more string where it belongs in a sorted list. */
  function Insert(s: seq<string>, f: string): seq<string> {
    if s == [] || !Less(s[0], f) then [f] + s else [s[0]] + Insert(s[1..], f)
  }

  lemma {:induction false} InsertAdds(s: seq<string>, f: string)
    ensures multiset(Insert(s, f)) == multiset(s) + multiset{f}
  {
    if s != [] && Less(s[0], f) {
      InsertAdds(s[1..], f);
      assert s == [s[0]] + s[1..];
    }
  }

  lemma SortedTail(s: seq<string>)
    requires s != [] && Sorted(s)
    ensures Sorted(s[1..]) && forall f :: f in s[1..] ==> !Less(f, s[0])
  {
    forall i, j | 0 <= i < j < |s| - 1 ensures !Less(s[1..][j], s[1..][i]) {
      assert !Less(s[j + 1], s[i + 1]);
    }
    forall j | 0 <= j < |s| - 1 ensures !Less(s[1..][j], s[0]) {
      assert !Less(s[j + 1], s[0]);
    }
  }

  lemma SortedFrom(head: string, rest: seq<string>)
    requires Sorted(rest) && forall f :: f in rest ==> !Less(f, head)
    ensures Sorted([head] + rest)
  {
    var s := [head] + rest;
    forall i, j | 0 <= i < j < |s| ensures !Less(s[j], s[i]) {
      assert s[j] == rest[j - 1];
      if i > 0 {
        assert s[i] == rest[i - 1];
      }
    }
  }

  lemma {:induction false} InsertKeepsSorted(s: seq<string>, f: string)
    requires Sorted(s)
    ensures Sorted(Insert(s, f))
  {
    if s == [] {
    } else if !Less(s[0], f) {
      SortedTail(s);
      forall g | g in s ensures !Less(g, f) {
        if g != s[0] {
          assert g in s[1..];
          NotLessIsTransitive(f, s[0], g);
        }
      }
      SortedFrom(f, s);
    } else {
      SortedTail(s);
      InsertKeepsSorted(s[1..], f);
      InsertAdds(s[1..], f);
      LessIsStrict(s[0], f);
      forall g | g in Insert(s[1..], f) ensures !Less(g, s[0]) {
        assert g in multiset(Insert(s[1..], f));
      }
      SortedFrom(s[0], Insert(s[1..], f));
    }
  }
}
