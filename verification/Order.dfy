/** Lexicographic order on code sequences, and lists sorted by it. */
module Order {

  /** The order Python gives byte strings, and strings once encoded in UTF-8. */
  predicate Less(a: seq<int>, b: seq<int>) {
    b != [] && (a == [] || a[0] < b[0] || (a[0] == b[0] && Less(a[1..], b[1..])))
  }

  lemma {:induction false} LessTotal(a: seq<int>, b: seq<int>)
    ensures a == b || Less(a, b) || Less(b, a)
    ensures !(Less(a, b) && Less(b, a)) && !Less(a, a)
  {
    if a != [] && b != [] {
      LessTotal(a[1..], b[1..]);
      LessTotal(a[1..], a[1..]);
      assert a == [a[0]] + a[1..] && b == [b[0]] + b[1..];
    } else if a != [] {
      LessTotal(a[1..], a[1..]);
    }
  }

  lemma {:induction false} LessTransitive(a: seq<int>, b: seq<int>, c: seq<int>)
    requires Less(a, b) && Less(b, c)
    ensures Less(a, c)
  {
    if a != [] && a[0] == b[0] == c[0] {
      LessTransitive(a[1..], b[1..], c[1..]);
    }
  }

  lemma {:induction false} PrefixLess(a: seq<int>, b: seq<int>)
    requires a < b
    ensures Less(a, b)
  {
    if a != [] {
      PrefixLess(a[1..], b[1..]);
    }
  }

  /** Keys in strictly ascending order. */
  predicate Ascending<T(!new)>(xs: seq<T>, key: T -> seq<int>) {
    forall i, j | 0 <= i < j < |xs| :: Less(key(xs[i]), key(xs[j]))
  }

  lemma HeadIsAlone<T(!new)>(xs: seq<T>, key: T -> seq<int>)
    requires Ascending(xs, key) && xs != []
    ensures xs[0] !in xs[1..]
  {
    LessTotal(key(xs[0]), key(xs[0]));
  }

  /** Sorting by key cannot come out in two ways when the keys differ. */
  lemma {:induction false} AscendingOnce<T(!new)>(a: seq<T>, b: seq<T>, key: T -> seq<int>)
    requires Ascending(a, key) && Ascending(b, key) && forall x :: x in a <==> x in b
    ensures a == b
  {
    assert a != [] ==> a[0] in a;
    assert b != [] ==> b[0] in b;
    if a != [] {
      LessTotal(key(a[0]), key(b[0]));
      assert a[0] == b[0];
      HeadIsAlone(a, key);
      HeadIsAlone(b, key);
      assert a == [a[0]] + a[1..] && b == [b[0]] + b[1..];
      forall x ensures x in a[1..] <==> x in b[1..] {
        assert x in a <==> x == a[0] || x in a[1..];
        assert x in b <==> x == b[0] || x in b[1..];
      }
      AscendingOnce(a[1..], b[1..], key);
    }
  }

  predicate NonDescending<T(!new)>(xs: seq<T>, key: T -> seq<int>) {
    forall i | 0 < i < |xs| :: !Less(key(xs[i]), key(xs[i - 1]))
  }

  function Insert<T(!new)>(x: T, xs: seq<T>, key: T -> seq<int>): (r: seq<T>)
    requires NonDescending(xs, key)
    ensures NonDescending(r, key) && multiset(r) == multiset(xs) + multiset{x}
    ensures r != [] && (r[0] == x || (xs != [] && r[0] == xs[0]))
  {
    if xs == [] then [x]
    else if Less(key(x), key(xs[0])) then
      LessTotal(key(x), key(xs[0]));
      [x] + xs
    else
      assert xs == [xs[0]] + xs[1..];
      [xs[0]] + Insert(x, xs[1..], key)
  }

  /** sorted(xs, key=key) */
  function Sort<T(!new)>(xs: seq<T>, key: T -> seq<int>): (r: seq<T>)
    ensures NonDescending(r, key) && multiset(r) == multiset(xs)
  {
    if xs == [] then []
    else
      assert xs == xs[..|xs| - 1] + [xs[|xs| - 1]];
      Insert(xs[|xs| - 1], Sort(xs[..|xs| - 1], key), key)
  }

  predicate Distinct<T(!new)>(xs: seq<T>, key: T -> seq<int>) {
    forall i, j | 0 <= i < j < |xs| :: key(xs[i]) != key(xs[j])
  }

  lemma PrependAscends<T(!new)>(x: T, xs: seq<T>, key: T -> seq<int>)
    requires Ascending(xs, key) && forall y | y in xs :: Less(key(x), key(y))
    ensures Ascending([x] + xs, key)
  {
    hide Less;
    var all := [x] + xs;
    forall i, j | 0 <= i < j < |all| ensures Less(key(all[i]), key(all[j])) {
      assert all[j] == xs[j - 1] && xs[j - 1] in xs;
    }
  }

  lemma {:induction false} InsertAscends<T(!new)>(x: T, xs: seq<T>, key: T -> seq<int>)
    requires Ascending(xs, key) && NonDescending(xs, key) && forall y | y in xs :: key(y) != key(x)
    ensures Ascending(Insert(x, xs, key), key)
  {
    hide Less;
    if xs != [] && Less(key(x), key(xs[0])) {
      forall y | y in xs ensures Less(key(x), key(y)) {
        if y != xs[0] {
          LessTransitive(key(x), key(xs[0]), key(y));
        }
      }
      PrependAscends(x, xs, key);
    } else if xs != [] {
      InsertAscends(x, xs[1..], key);
      LessTotal(key(x), key(xs[0]));
      forall y | y in Insert(x, xs[1..], key) ensures Less(key(xs[0]), key(y)) {
        assert y in multiset(Insert(x, xs[1..], key));
      }
      PrependAscends(xs[0], Insert(x, xs[1..], key), key);
    }
  }

  /** With distinct keys the sorted list ascends strictly and has the same members. */
  lemma {:induction false} SortAscends<T(!new)>(xs: seq<T>, key: T -> seq<int>)
    requires Distinct(xs, key)
    ensures Ascending(Sort(xs, key), key)
    ensures forall x :: x in Sort(xs, key) <==> x in xs
  {
    hide Less, Insert;
    assert forall x :: x in xs <==> x in multiset(xs);
    assert forall x :: x in Sort(xs, key) <==> x in multiset(Sort(xs, key));
    if xs != [] {
      var last := |xs| - 1;
      SortAscends(xs[..last], key);
      InsertAscends(xs[last], Sort(xs[..last], key), key);
    }
  }
}
