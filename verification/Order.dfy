// The byte order of UTF-8 names, which is the order of their code points, and sorting by it.
// The sort stands for the library calls `Vec::sort` and `sort_by`.
module Order {

  predicate LexLess(a: string, b: string) {
    b != "" && (a == "" || a[0] < b[0] || (a[0] == b[0] && LexLess(a[1..], b[1..])))
  }

  lemma {:induction false} LexTotal(a: string, b: string)
    ensures LexLess(a, b) || LexLess(b, a) || a == b
    ensures !(LexLess(a, b) && LexLess(b, a))
    ensures LexLess(a, b) ==> a != b
  {
    if a != "" && b != "" && a[0] == b[0] {
      LexTotal(a[1..], b[1..]);
      assert a == [a[0]] + a[1..] && b == [b[0]] + b[1..];
    }
  }

  lemma {:induction false} LexTransitive(a: string, b: string, c: string)
    requires LexLess(a, b) && LexLess(b, c)
    ensures LexLess(a, c)
  {
    if a != "" && a[0] == b[0] == c[0] {
      LexTransitive(a[1..], b[1..], c[1..]);
    }
  }

  /** Behind a common beginning, `a` ends or has the smaller character. */
  lemma {:induction false} LexExactly(a: string, b: string)
    ensures LexLess(a, b) <==>
      exists k :: 0 <= k <= |a| && k < |b| && a[..k] == b[..k] && (k == |a| || a[k] < b[k])
  {
    if a != "" && b != "" && a[0] == b[0] {
      LexExactly(a[1..], b[1..]);
      forall k | 0 <= k <= |a[1..]| && k < |b[1..]| && a[1..][..k] == b[1..][..k]
                 && (k == |a[1..]| || a[1..][k] < b[1..][k])
        ensures a[..k + 1] == b[..k + 1] && (k + 1 == |a| || a[k + 1] < b[k + 1])
      {
        assert a[..k + 1] == [a[0]] + a[1..][..k] && b[..k + 1] == [b[0]] + b[1..][..k];
      }
      forall k | 0 < k <= |a| && k < |b| && a[..k] == b[..k] && (k == |a| || a[k] < b[k])
        ensures a[1..][..k - 1] == b[1..][..k - 1] && (k - 1 == |a[1..]| || a[1..][k - 1] < b[1..][k - 1])
      {
        assert a[1..][..k - 1] == a[..k][1..] && b[1..][..k - 1] == b[..k][1..];
      }
    } else if LexLess(a, b) {
      assert a[..0] == b[..0];
    } else {
      forall k | 0 < k <= |a| && k < |b| ensures a[..k] != b[..k] {
        assert a[..k][0] == a[0] && b[..k][0] == b[0];
      }
    }
  }

  /** Strictly ascending, so no key occurs twice. */
  ghost predicate Ascending<T(!new)>(s: seq<T>, key: T -> string) {
    forall i, j :: 0 <= i < j < |s| ==> LexLess(key(s[i]), key(s[j]))
  }

  ghost predicate DistinctKeys<T(!new)>(s: seq<T>, key: T -> string) {
    forall i, j :: 0 <= i < j < |s| ==> key(s[i]) != key(s[j])
  }

  function InsertBy<T(!new)>(x: T, s: seq<T>, key: T -> string): seq<T> {
    if s == [] || !LexLess(key(s[0]), key(x)) then [x] + s else [s[0]] + InsertBy(x, s[1..], key)
  }

  function SortBy<T(!new)>(s: seq<T>, key: T -> string): seq<T> {
    if s == [] then [] else InsertBy(s[0], SortBy(s[1..], key), key)
  }

  lemma {:induction false} InsertByElements<T(!new)>(x: T, s: seq<T>, key: T -> string)
    ensures forall y :: y in InsertBy(x, s, key) <==> y == x || y in s
  {
    if s != [] && LexLess(key(s[0]), key(x)) {
      InsertByElements(x, s[1..], key);
    }
  }

  lemma {:induction false} InsertByAscending<T(!new)>(x: T, s: seq<T>, key: T -> string)
    requires Ascending(s, key) && forall y :: y in s ==> key(y) != key(x)
    ensures Ascending(InsertBy(x, s, key), key)
  {
    var r := InsertBy(x, s, key);
    if s == [] {
    } else if LexLess(key(s[0]), key(x)) {
      var t := s[1..];
      assert forall i :: 0 <= i < |t| ==> t[i] == s[i + 1];
      InsertByAscending(x, t, key);
      InsertByElements(x, t, key);
      var u := InsertBy(x, t, key);
      forall y | y in u ensures LexLess(key(s[0]), key(y)) {
        if y != x {
          var k :| 0 <= k < |t| && t[k] == y;
          assert s[k + 1] == y;
        }
      }
      forall i, j | 0 <= i < j < |r| ensures LexLess(key(r[i]), key(r[j])) {
        assert r[j] == u[j - 1] && u[j - 1] in u;
        if i > 0 {
          assert r[i] == u[i - 1];
        }
      }
    } else {
      LexTotal(key(x), key(s[0]));
      forall j | 0 <= j < |s| ensures LexLess(key(x), key(s[j])) {
        if j > 0 {
          LexTransitive(key(x), key(s[0]), key(s[j]));
        }
      }
      forall i, j | 0 <= i < j < |r| ensures LexLess(key(r[i]), key(r[j])) {
        assert r[j] == s[j - 1];
        if i > 0 {
          assert r[i] == s[i - 1];
        }
      }
    }
  }

  /** Sorting keeps the elements, and distinct keys come out strictly ascending. */
  lemma {:induction false} SortByCorrect<T(!new)>(s: seq<T>, key: T -> string)
    ensures forall y :: y in SortBy(s, key) <==> y in s
    ensures DistinctKeys(s, key) ==> Ascending(SortBy(s, key), key)
  {
    if s != [] {
      var t := s[1..];
      SortByCorrect(t, key);
      InsertByElements(s[0], SortBy(t, key), key);
      if DistinctKeys(s, key) {
        assert forall i :: 0 <= i < |t| ==> t[i] == s[i + 1];
        forall y | y in SortBy(t, key) ensures key(y) != key(s[0]) {
          assert y in t;
          var k :| 0 <= k < |t| && t[k] == y;
          assert s[k + 1] == y;
        }
        InsertByAscending(s[0], SortBy(t, key), key);
      }
    }
  }

  /** An ascending list is determined by its elements. */
  lemma {:induction false} AscendingUnique<T(!new)>(a: seq<T>, b: seq<T>, key: T -> string)
    requires Ascending(a, key) && Ascending(b, key)
    requires forall x :: x in a <==> x in b
    ensures a == b
  {
    assert b != [] ==> b[0] in b;
    if a != [] {
      assert a[0] in a && b != [];
      assert a[0] == b[0] by {
        assert a[0] in b && b[0] in b;
        var i :| 0 <= i < |b| && b[i] == a[0];
        var j :| 0 <= j < |a| && a[j] == b[0];
        LexTotal(key(a[0]), key(b[0]));
      }
      forall x ensures x in a[1..] <==> x in b[1..] {
        AscendingTail(a, x, key);
        AscendingTail(b, x, key);
      }
      assert Ascending(a[1..], key) && Ascending(b[1..], key);
      AscendingUnique(a[1..], b[1..], key);
      assert a == [a[0]] + a[1..] && b == [b[0]] + b[1..];
    }
  }

  lemma AscendingTail<T(!new)>(s: seq<T>, x: T, key: T -> string)
    requires s != [] && Ascending(s, key)
    ensures x in s[1..] <==> x in s && x != s[0]
  {
    assert s == [s[0]] + s[1..];
    if x in s[1..] {
      var i :| 0 <= i < |s[1..]| && s[1..][i] == x;
      assert s[i + 1] == x;
      LexTotal(key(s[0]), key(s[i + 1]));
    }
  }

  // ---------------------------------------------------------------- sets of names

  function Same(s: string): string {
    s
  }

  ghost function Enumerate(names: set<string>): (s: seq<string>)
    ensures forall n :: n in s <==> n in names
    ensures DistinctKeys(s, Same)
  {
    if names == {} then []
    else
      var n :| n in names;
      [n] + Enumerate(names - {n})
  }

  /** The names of a set in order. */
  ghost function InOrder(names: set<string>): (s: seq<string>)
    ensures Ascending(s, Same) && forall n :: n in s <==> n in names
  {
    SortByCorrect(Enumerate(names), Same);
    SortBy(Enumerate(names), Same)
  }

  /** Sorting any listing of a set of names gives that order. */
  lemma SortedListing(s: seq<string>, names: set<string>)
    requires DistinctKeys(s, Same) && forall n :: n in s <==> n in names
    ensures SortBy(s, Same) == InOrder(names)
  {
    SortByCorrect(s, Same);
    AscendingUnique(SortBy(s, Same), InOrder(names), Same);
  }
}
