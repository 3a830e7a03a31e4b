/** `Array.prototype.sort` with the comparator `(a, b) => key(b) - key(a)`: a stable sort
    into non-increasing order of a numeric key. */
module Sorting {

  predicate SortedDesc<T>(s: seq<T>, key: T -> real) {
    forall i, j :: 0 <= i < j < |s| ==> key(s[i]) >= key(s[j])
  }

  /** The elements of `s` whose key is `v`, in their order in `s`. */
  function Ties<T>(s: seq<T>, key: T -> real, v: real): (r: seq<T>)
    ensures |r| <= |s|
  {
    if s == [] then []
    else (if key(s[0]) == v then [s[0]] else []) + Ties(s[1..], key, v)
  }

  /** `x` placed before the first element whose key is not larger than its own. */
  function Insert<T>(x: T, s: seq<T>, key: T -> real): (r: seq<T>)
    ensures |r| == |s| + 1
  {
    if s == [] || key(s[0]) <= key(x) then [x] + s
    else [s[0]] + Insert(x, s[1..], key)
  }

  /** The stable descending sort, built by inserting from the back. */
  function SortDesc<T>(s: seq<T>, key: T -> real): (r: seq<T>)
    ensures |r| == |s|
  {
    if s == [] then [] else Insert(s[0], SortDesc(s[1..], key), key)
  }

  lemma {:induction false} InsertSorted<T>(x: T, s: seq<T>, key: T -> real)
    requires SortedDesc(s, key)
    ensures SortedDesc(Insert(x, s, key), key)
    ensures forall i :: 0 <= i < |Insert(x, s, key)| ==>
              Insert(x, s, key)[i] == x || Insert(x, s, key)[i] in s
  {
    if s != [] && key(s[0]) > key(x) {
      InsertSorted(x, s[1..], key);
      var t := Insert(x, s[1..], key);
      assert Insert(x, s, key) == [s[0]] + t;
      forall i | 0 <= i < |t| ensures key(s[0]) >= key(t[i]) {
        if t[i] != x {
          assert t[i] in s[1..];
          var j :| 0 <= j < |s[1..]| && s[1..][j] == t[i];
          assert s[j + 1] == t[i];
        }
      }
    }
  }

  lemma {:induction false} InsertMultiset<T>(x: T, s: seq<T>, key: T -> real)
    ensures multiset(Insert(x, s, key)) == multiset{x} + multiset(s)
  {
    if s != [] && key(s[0]) > key(x) {
      InsertMultiset(x, s[1..], key);
      assert s == [s[0]] + s[1..];
    }
  }

  lemma {:induction false} InsertTies<T>(x: T, s: seq<T>, key: T -> real, v: real)
    ensures Ties(Insert(x, s, key), key, v) == Ties([x] + s, key, v)
  {
    if s == [] || key(s[0]) <= key(x) {
    } else {
      var t := Insert(x, s[1..], key);
      InsertTies(x, s[1..], key, v);
      assert ([s[0]] + t)[1..] == t;
      assert ([x] + s)[1..] == s;
      assert ([x] + s[1..])[1..] == s[1..];
    }
  }

  /** The result is in non-increasing key order. */
  lemma {:induction false} SortDescSorted<T>(s: seq<T>, key: T -> real)
    ensures SortedDesc(SortDesc(s, key), key)
  {
    if s != [] {
      SortDescSorted(s[1..], key);
      InsertSorted(s[0], SortDesc(s[1..], key), key);
    }
  }

  /** The result is a permutation of the input. */
  lemma {:induction false} SortDescPermutation<T>(s: seq<T>, key: T -> real)
    ensures multiset(SortDesc(s, key)) == multiset(s)
  {
    if s != [] {
      SortDescPermutation(s[1..], key);
      InsertMultiset(s[0], SortDesc(s[1..], key), key);
      assert s == [s[0]] + s[1..];
    }
  }

  /** Stability: elements with equal keys keep their relative order. */
  lemma {:induction false} SortDescStable<T>(s: seq<T>, key: T -> real, v: real)
    ensures Ties(SortDesc(s, key), key, v) == Ties(s, key, v)
  {
    if s != [] {
      var t := SortDesc(s[1..], key);
      SortDescStable(s[1..], key, v);
      InsertTies(s[0], t, key, v);
      assert ([s[0]] + t)[1..] == t;
    }
  }

  /** Two sequences in non-increasing key order with the same elements and the same
      order among equal keys are equal. */
  lemma {:induction false} SortedUnique<T>(a: seq<T>, b: seq<T>, key: T -> real)
    requires SortedDesc(a, key) && SortedDesc(b, key)
    requires multiset(a) == multiset(b)
    requires forall v :: Ties(a, key, v) == Ties(b, key, v)
    ensures a == b
    decreases |a|
  {
    if a == [] {
      assert |b| == |multiset(b)| == 0;
    } else {
      SameHead(a, b, key);
      MultisetTail(a, b);
      forall w ensures Ties(a[1..], key, w) == Ties(b[1..], key, w) {
        var h := if key(a[0]) == w then [a[0]] else [];
        var x, y := Ties(a[1..], key, w), Ties(b[1..], key, w);
        assert h + x == Ties(a, key, w) == Ties(b, key, w) == h + y;
        assert x == (h + x)[|h|..] && y == (h + y)[|h|..];
      }
      SortedUnique(a[1..], b[1..], key);
      assert a == [a[0]] + a[1..] && b == [b[0]] + b[1..];
    }
  }

  lemma SameHead<T>(a: seq<T>, b: seq<T>, key: T -> real)
    requires a != [] && SortedDesc(a, key) && SortedDesc(b, key)
    requires multiset(a) == multiset(b)
    requires forall v :: Ties(a, key, v) == Ties(b, key, v)
    ensures b != [] && a[0] == b[0]
  {
    assert |b| == |multiset(b)| == |multiset(a)| == |a|;
    assert a[0] in multiset(b) && b[0] in multiset(a) by {
      assert a[0] in a && b[0] in b;
    }
    var i :| 0 <= i < |b| && b[i] == a[0];
    var j :| 0 <= j < |a| && a[j] == b[0];
    assert key(a[0]) == key(b[0]);
    var v := key(a[0]);
    assert Ties(a, key, v) == [a[0]] + Ties(a[1..], key, v);
    assert Ties(b, key, v) == [b[0]] + Ties(b[1..], key, v);
    assert Ties(a, key, v)[0] == Ties(b, key, v)[0];
  }

  lemma MultisetTail<T>(a: seq<T>, b: seq<T>)
    requires a != [] && b != [] && a[0] == b[0] && multiset(a) == multiset(b)
    ensures multiset(a[1..]) == multiset(b[1..])
  {
    assert a == [a[0]] + a[1..] && b == [b[0]] + b[1..];
    assert multiset(a) == multiset{a[0]} + multiset(a[1..]);
    assert multiset(b) == multiset{b[0]} + multiset(b[1..]);
    assert multiset(a[1..]) == multiset(a) - multiset{a[0]};
    assert multiset(b[1..]) == multiset(b) - multiset{b[0]};
  }

  /** The sort is characterised by its three properties: any result of a stable sort into
      non-increasing key order is the result modelled here. */
  lemma SortDescUnique<T>(s: seq<T>, r: seq<T>, key: T -> real)
    requires SortedDesc(r, key) && multiset(r) == multiset(s)
    requires forall v :: Ties(r, key, v) == Ties(s, key, v)
    ensures r == SortDesc(s, key)
  {
    SortDescSorted(s, key);
    SortDescPermutation(s, key);
    forall v ensures Ties(r, key, v) == Ties(SortDesc(s, key), key, v) {
      SortDescStable(s, key, v);
    }
    SortedUnique(r, SortDesc(s, key), key);
  }

  /** Ties of a prefix are a prefix of the ties. */
  lemma {:induction false} TiesPrefix<T>(a: seq<T>, b: seq<T>, key: T -> real, v: real)
    requires a <= b
    ensures Ties(a, key, v) <= Ties(b, key, v)
  {
    if a != [] {
      assert a[1..] <= b[1..];
      TiesPrefix(a[1..], b[1..], key, v);
    }
  }
}
