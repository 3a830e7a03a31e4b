/** Sequence helpers shared by every component: order-preserving filter, concatenation, join. */
module Seqs {

  /** The elements of `s` that satisfy `p`, in their original order (JavaScript `filter`,
      a Python list comprehension with an `if`). */
  function Filter<T>(s: seq<T>, p: T -> bool): (r: seq<T>)
    ensures |r| <= |s|
  {
    if s == [] then []
    else
      assert s == [s[0]] + s[1..];
      (if p(s[0]) then [s[0]] else []) + Filter(s[1..], p)
  }

  lemma {:induction false} FilterAppend<T>(a: seq<T>, b: seq<T>, p: T -> bool)
    ensures Filter(a + b, p) == Filter(a, p) + Filter(b, p)
  {
    if a == [] {
      assert a + b == b;
    } else {
      var x := if p(a[0]) then [a[0]] else [];
      assert (a + b)[0] == a[0] && (a + b)[1..] == a[1..] + b;
      FilterAppend(a[1..], b, p);
      assert Filter(a + b, p) == x + Filter(a[1..] + b, p);
      assert Filter(a, p) == x + Filter(a[1..], p);
      SeqAssoc(x, Filter(a[1..], p), Filter(b, p));
    }
  }

  lemma SliceSplit<T>(s: seq<T>, k: nat, e: nat)
    requires k <= e <= |s|
    ensures s[k..] == s[k..e] + s[e..]
  {
  }

  lemma SliceThree<T>(s: seq<T>, k: nat, e: nat)
    requires k <= e <= |s|
    ensures s == s[..k] + s[k..e] + s[e..]
  {
  }

  lemma SliceMiddle<T>(a: seq<T>, w: seq<T>, b: seq<T>)
    ensures (a + w + b)[|a|..|a| + |w|] == w
  {
  }

  /** Dropping `j` from the suffix at `k` is dropping `k + j`. */
  lemma DropDrop<T>(s: seq<T>, k: nat, j: nat, e: nat)
    requires k + j == e <= |s|
    ensures s[k..][j..] == s[e..]
  {
  }

  lemma SeqAssoc<T>(x: seq<T>, y: seq<T>, z: seq<T>)
    ensures x + (y + z) == (x + y) + z
  {
  }

  /** The filter keeps exactly the elements of `s` that satisfy `p`. */
  lemma {:induction false} FilterMembers<T>(s: seq<T>, p: T -> bool)
    ensures forall x :: x in Filter(s, p) <==> x in s && p(x)
  {
    if s != [] {
      FilterMembers(s[1..], p);
      assert s == [s[0]] + s[1..];
    }
  }

  /** Every element of `s` satisfies `p` exactly when filtering keeps all of `s`. */
  lemma {:induction false} FilterAll<T>(s: seq<T>, p: T -> bool)
    requires forall i :: 0 <= i < |s| ==> p(s[i])
    ensures Filter(s, p) == s
  {
    if s != [] {
      FilterAll(s[1..], p);
    }
  }

  lemma {:induction false} FilterNone<T>(s: seq<T>, p: T -> bool)
    requires forall i :: 0 <= i < |s| ==> !p(s[i])
    ensures Filter(s, p) == []
  {
    if s != [] {
      FilterNone(s[1..], p);
    }
  }

  /** The filter keeps every occurrence of a value that satisfies `p` and none of any other. */
  lemma {:induction false} FilterMultiset<T>(s: seq<T>, p: T -> bool, x: T)
    ensures multiset(Filter(s, p))[x] == if p(x) then multiset(s)[x] else 0
  {
    if s != [] {
      var y := if p(s[0]) then [s[0]] else [];
      FilterMultiset(s[1..], p, x);
      assert multiset(Filter(s, p)) == multiset(y) + multiset(Filter(s[1..], p));
      assert s == [s[0]] + s[1..];
      assert multiset(s) == multiset([s[0]]) + multiset(s[1..]);
    }
  }

  /** The filter is empty exactly when no element satisfies `p`, and keeps the whole
      length exactly when every element does. */
  lemma {:induction false} FilterLength<T>(s: seq<T>, p: T -> bool)
    ensures |Filter(s, p)| == 0 <==> forall i :: 0 <= i < |s| ==> !p(s[i])
    ensures |Filter(s, p)| == |s| <==> forall i :: 0 <= i < |s| ==> p(s[i])
  {
    if s != [] {
      FilterLength(s[1..], p);
      assert forall i :: 1 <= i < |s| ==> s[i] == s[1..][i - 1];
    }
  }

  /** Filtering a part that `p` keeps whole, then a part that `p` drops whole, then the rest. */
  lemma FilterKeepDrop<T>(a: seq<T>, b: seq<T>, c: seq<T>, p: T -> bool)
    requires forall i :: 0 <= i < |a| ==> p(a[i])
    requires forall i :: 0 <= i < |b| ==> !p(b[i])
    ensures Filter(a + b + c, p) == a + Filter(c, p)
  {
    assert Filter(a + b, p) == a by {
      FilterAppend(a, b, p);
      FilterAll(a, p);
      FilterNone(b, p);
      assert a + [] == a;
    }
    FilterAppend(a + b, c, p);
  }

  /** The concatenation of a sequence of sequences. */
  function Concat<T>(ss: seq<seq<T>>): seq<T>
  {
    if ss == [] then [] else ss[0] + Concat(ss[1..])
  }

  lemma ConcatCons<T>(x: seq<T>, ss: seq<seq<T>>)
    ensures Concat([x] + ss) == x + Concat(ss)
  {
    assert ([x] + ss)[1..] == ss;
  }

  lemma {:induction false} ConcatAppend<T>(a: seq<seq<T>>, b: seq<seq<T>>)
    ensures Concat(a + b) == Concat(a) + Concat(b)
  {
    if a == [] {
      assert a + b == b;
    } else {
      assert (a + b)[0] == a[0];
      assert (a + b)[1..] == a[1..] + b;
      ConcatAppend(a[1..], b);
    }
  }

  /** The pieces of `ss` with `sep` between consecutive pieces (Python `sep.join`). */
  function Join<T>(ss: seq<seq<T>>, sep: seq<T>): seq<T>
  {
    if ss == [] then []
    else if |ss| == 1 then ss[0]
    else ss[0] + sep + Join(ss[1..], sep)
  }

  /** A join starts with its first piece. */
  lemma JoinHead<T>(ss: seq<seq<T>>, sep: seq<T>)
    requires |ss| > 0
    ensures ss[0] <= Join(ss, sep)
  {
  }

  /** The first `n` elements of `s`, or all of them when there are fewer (JavaScript `slice(0, n)`). */
  function Take<T>(s: seq<T>, n: nat): (r: seq<T>)
    ensures |r| == if n < |s| then n else |s|
    ensures r <= s
  {
    if n < |s| then s[..n] else s
  }

  /** The last element. */
  function Last<T>(s: seq<T>): T
    requires |s| > 0
  {
    s[|s| - 1]
  }

  lemma LastOfCons<T>(x: T, s: seq<T>)
    requires |s| > 0
    ensures Last([x] + s) == Last(s)
  {
  }
}
