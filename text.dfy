/** Characters and strings: the character classes of the JavaScript and Python regular
    expressions used by the system, lower-casing, substring search and Python's `str.split`. */
module Text {
  import opened Wrappers
  import opened Seqs

  /** JavaScript `\s`: WhiteSpace and LineTerminator code points of ECMAScript. */
  predicate IsJsSpace(c: char) {
    var n := c as int;
    (9 <= n <= 13) || n == 0x20 || n == 0xA0 || n == 0x1680 || (0x2000 <= n <= 0x200A)
    || n == 0x2028 || n == 0x2029 || n == 0x202F || n == 0x205F || n == 0x3000 || n == 0xFEFF
  }

  predicate NotJsSpace(c: char) { !IsJsSpace(c) }

  /** Python `\s` on a `str` pattern: the code points for which `str.isspace()` holds. */
  predicate IsPySpace(c: char) {
    var n := c as int;
    (9 <= n <= 13) || (0x1C <= n <= 0x1F) || n == 0x20 || n == 0x85 || n == 0xA0 || n == 0x1680
    || (0x2000 <= n <= 0x200A) || n == 0x2028 || n == 0x2029 || n == 0x202F || n == 0x205F || n == 0x3000
  }

  predicate NotPySpace(c: char) { !IsPySpace(c) }

  predicate IsDigit(c: char) { '0' <= c <= '9' }

  predicate IsUpper(c: char) { 'A' <= c <= 'Z' }

  /** `\w`: JavaScript's exact class; for Python the ASCII part of its Unicode class. */
  predicate IsWordChar(c: char) { 'a' <= c <= 'z' || IsUpper(c) || IsDigit(c) || c == '_' }

  /** Lower-casing of one character (the ASCII letters; every other character is kept). */
  function LowerChar(c: char): (r: char)
    ensures !IsUpper(r)
    ensures IsJsSpace(r) == IsJsSpace(c) && IsPySpace(r) == IsPySpace(c)
    ensures IsWordChar(r) == IsWordChar(c) && IsDigit(r) == IsDigit(c)
    ensures !IsUpper(c) ==> r == c
  {
    if IsUpper(c) then (c as int + 32) as char else c
  }

  /** JavaScript `toLowerCase()` and Python `str.lower()`, character by character. */
  function Lower(s: string): (r: string)
    ensures |r| == |s| && forall i :: 0 <= i < |s| ==> r[i] == LowerChar(s[i])
  {
    seq(|s|, i requires 0 <= i < |s| => LowerChar(s[i]))
  }

  lemma {:induction false} LowerIdempotent(s: string)
    ensures Lower(Lower(s)) == Lower(s)
  {
    assert forall i :: 0 <= i < |s| ==> LowerChar(LowerChar(s[i])) == LowerChar(s[i]);
  }

  /** Lower-casing commutes with slicing. */
  lemma LowerSlice(s: string, i: nat, j: nat)
    requires i <= j <= |s|
    ensures Lower(s)[i..j] == Lower(s[i..j])
  {
  }

  /** A text without upper-case letters is its own lower-cased form. */
  lemma LowerNoUpper(s: string)
    requires forall i :: 0 <= i < |s| ==> !IsUpper(s[i])
    ensures Lower(s) == s
  {
  }

  /** The end of the longest run of characters satisfying `p` that starts at `k`. */
  function Span(s: string, k: nat, p: char -> bool): (e: nat)
    requires k <= |s|
    ensures k <= e <= |s|
    ensures forall j :: k <= j < e ==> p(s[j])
    ensures e == |s| || !p(s[e])
    decreases |s| - k
  {
    if k == |s| || !p(s[k]) then k else Span(s, k + 1, p)
  }

  /** A run of `p` from `k` to `e` that stops at `e` is the longest run from `k`. */
  lemma {:induction false} SpanExact(s: string, k: nat, e: nat, p: char -> bool)
    requires k <= e <= |s|
    requires forall j :: k <= j < e ==> p(s[j])
    requires e == |s| || !p(s[e])
    ensures Span(s, k, p) == e
    decreases e - k
  {
    if k < e {
      SpanExact(s, k + 1, e, p);
    }
  }

  /** `sub` occurs in `s` starting at index `i`. */
  predicate OccursAt(s: string, sub: string, i: nat) {
    i + |sub| <= |s| && s[i..i + |sub|] == sub
  }

  /** JavaScript `s.includes(sub)`, Python `sub in s`. */
  predicate IsInfix(sub: string, s: string) {
    exists i: nat :: i <= |s| && OccursAt(s, sub, i)
  }

  /** The leftmost occurrence of `sep` in `s` at or after index `k` (Python `str.find`). */
  function Find(s: string, sep: string, k: nat): (r: Option<nat>)
    requires k <= |s|
    ensures r.Some? ==> k <= r.value <= |s| && OccursAt(s, sep, r.value)
    ensures r.Some? ==> forall j: nat :: k <= j < r.value ==> !OccursAt(s, sep, j)
    ensures r.None? ==> forall j: nat :: k <= j <= |s| ==> !OccursAt(s, sep, j)
    decreases |s| - k
  {
    if OccursAt(s, sep, k) then Some(k)
    else if k == |s| then None
    else Find(s, sep, k + 1)
  }

  /** Python `s.split(sep)` for a non-empty separator: the pieces between the leftmost
      non-overlapping occurrences of `sep`. */
  function Split(s: string, sep: string): (r: seq<string>)
    requires |sep| > 0
    ensures |r| >= 1
    decreases |s|
  {
    match Find(s, sep, 0)
    case None => [s]
    case Some(i) => [s[..i]] + Split(s[i + |sep|..], sep)
  }

  /** Python `s.count(sub)`: the number of leftmost non-overlapping occurrences. */
  function CountOccurrences(s: string, sub: string): nat
    requires |sub| > 0
  {
    |Split(s, sub)| - 1
  }

  /** Joining the pieces back with the separator gives the original string. */
  lemma {:induction false} SplitJoin(s: string, sep: string)
    requires |sep| > 0
    ensures Join(Split(s, sep), sep) == s
    decreases |s|
  {
    var f := Find(s, sep, 0);
    if f.None? {
      assert Split(s, sep) == [s];
    } else {
      var i := f.value;
      var rest := s[i + |sep|..];
      SplitJoin(rest, sep);
      var tail := Split(rest, sep);
      SplitCons(s, sep, i);
      JoinCons(s[..i], tail, sep);
      SplitAround(s, sep, i);
    }
  }

  lemma SplitAround(s: string, sep: string, i: nat)
    requires OccursAt(s, sep, i)
    ensures s == s[..i] + sep + s[i + |sep|..]
  {
    assert s == s[..i] + s[i..i + |sep|] + s[i + |sep|..];
  }

  lemma JoinCons(p: string, ps: seq<string>, sep: string)
    requires |ps| > 0
    ensures Join([p] + ps, sep) == p + sep + Join(ps, sep)
  {
    assert ([p] + ps)[1..] == ps;
  }

  /** No piece contains the separator. */
  lemma {:induction false} SplitPiecesFree(s: string, sep: string)
    requires |sep| > 0
    ensures forall p :: p in Split(s, sep) ==> !IsInfix(sep, p)
    decreases |s|
  {
    match Find(s, sep, 0)
    case None =>
      forall j: nat | j <= |s| ensures !OccursAt(s, sep, j) { }
    case Some(i) =>
      var rest := s[i + |sep|..];
      SplitPiecesFree(rest, sep);
      var head := s[..i];
      forall j: nat | j <= |head| && OccursAt(head, sep, j) ensures false {
        assert s[j..j + |sep|] == head[j..j + |sep|];
        assert OccursAt(s, sep, j);
      }
      assert Split(s, sep) == [head] + Split(rest, sep);
  }

  /** The first piece is a prefix, followed by the separator unless it is the whole string,
      and the separator occurs nowhere before its end: the cut is the leftmost one. */
  lemma SplitFirst(s: string, sep: string)
    requires |sep| > 0
    ensures Split(s, sep)[0] <= s
    ensures Split(s, sep)[0] == s || OccursAt(s, sep, |Split(s, sep)[0]|)
    ensures forall j: nat :: j < |Split(s, sep)[0]| ==> !OccursAt(s, sep, j)
  {
  }

  /** The search from `k` finds an occurrence at `i` when there is none between. */
  lemma {:induction false} FindLeftmost(s: string, sep: string, k: nat, i: nat)
    requires k <= i <= |s| && OccursAt(s, sep, i)
    requires forall j: nat :: k <= j < i ==> !OccursAt(s, sep, j)
    ensures Find(s, sep, k) == Some(i)
    decreases i - k
  {
    if k < i {
      FindLeftmost(s, sep, k + 1, i);
    }
  }

  /** A string without the separator is a single piece. */
  lemma SplitWhole(s: string, sep: string)
    requires |sep| > 0 && !IsInfix(sep, s)
    ensures Split(s, sep) == [s]
  {
  }

  /** The defining step of the split: a piece up to the leftmost separator, then the rest
      split on its own. */
  lemma SplitLeftmost(p: string, sep: string, x: string)
    requires |sep| > 0
    requires forall j: nat :: j < |p| ==> !OccursAt(p + sep + x, sep, j)
    ensures Split(p + sep + x, sep) == [p] + Split(x, sep)
  {
    var s := p + sep + x;
    SliceMiddle(p, sep, x);
    FindLeftmost(s, sep, 0, |p|);
    SplitCons(s, sep, |p|);
    assert s[..|p|] == p && s[|p| + |sep|..] == x;
  }

  /** `SplitWhole` and `SplitLeftmost` determine the split: any function that satisfies both
      equations is `Split`. */
  lemma {:induction false} SplitUnique(f: string -> seq<string>, sep: string, s: string)
    requires |sep| > 0
    requires forall t :: !IsInfix(sep, t) ==> f(t) == [t]
    requires forall p, x :: (forall j: nat :: j < |p| ==> !OccursAt(p + sep + x, sep, j))
               ==> f(p + sep + x) == [p] + f(x)
    ensures f(s) == Split(s, sep)
    decreases |s|
  {
    match Find(s, sep, 0)
    case None =>
      SplitWhole(s, sep);
    case Some(i) =>
      var p, x := s[..i], s[i + |sep|..];
      SplitAround(s, sep, i);
      assert s == p + sep + x;
      assert forall j: nat :: j < |p| ==> !OccursAt(p + sep + x, sep, j);
      assert f(p + sep + x) == [p] + f(x);
      SplitUnique(f, sep, x);
      SplitCons(s, sep, i);
  }

  /** `s[j..]` starts `s` or follows an occurrence of `sep`. */
  predicate PieceStart(s: string, sep: string, j: nat) {
    j <= |s| && (j == 0 || (j >= |sep| && OccursAt(s, sep, j - |sep|)))
  }

  /** Where the last piece begins: it is a suffix that starts the string or follows an
      occurrence of the separator. */
  function LastStart(s: string, sep: string): (j: nat)
    requires |sep| > 0
    ensures PieceStart(s, sep, j) && Last(Split(s, sep)) == s[j..]
    decreases |s|, 1
  {
    var f := Find(s, sep, 0);
    if f.None? then
      assert Split(s, sep) == [s] && s[0..] == s;
      0
    else
      LastStartAfter(s, sep, f.value)
  }

  /** `LastStart` when the first separator is at `i`: the last piece lies after it. */
  function LastStartAfter(s: string, sep: string, i: nat): (j: nat)
    requires |sep| > 0 && Find(s, sep, 0) == Some(i)
    ensures PieceStart(s, sep, j) && Last(Split(s, sep)) == s[j..]
    decreases |s|, 0
  {
    var b := i + |sep|;
    var j' := LastStart(s[b..], sep);
    SplitLastTail(s, sep, i);
    ShiftPieceStart(s, sep, b, j');
    b + j'
  }

  lemma SplitLastTail(s: string, sep: string, i: nat)
    requires |sep| > 0 && Find(s, sep, 0) == Some(i)
    ensures Last(Split(s, sep)) == Last(Split(s[i + |sep|..], sep))
  {
    SplitCons(s, sep, i);
    LastOfCons(s[..i], Split(s[i + |sep|..], sep));
  }

  lemma SplitCons(s: string, sep: string, i: nat)
    requires |sep| > 0 && Find(s, sep, 0) == Some(i)
    ensures Split(s, sep) == [s[..i]] + Split(s[i + |sep|..], sep)
  {
  }

  lemma ShiftPieceStart(s: string, sep: string, b: nat, j': nat)
    requires b >= |sep| && b <= |s| && OccursAt(s, sep, b - |sep|) && PieceStart(s[b..], sep, j')
    ensures PieceStart(s, sep, b + j') && s[b + j'..] == s[b..][j'..]
  {
    if j' > 0 {
      assert s[b + j' - |sep|..b + j'] == s[b..][j' - |sep|..j'];
    }
  }

  /** Splitting on one character yields one more piece than there are occurrences of it. */
  lemma {:induction false} SplitCharCount(s: string, c: char)
    ensures |Split(s, [c])| == multiset(s)[c] + 1
    decreases |s|
  {
    match Find(s, [c], 0)
    case None =>
      forall j | 0 <= j < |s| ensures s[j] != c {
        assert !OccursAt(s, [c], j);
        assert s[j..j + 1] == [s[j]];
      }
      assert c !in s;
    case Some(i) =>
      var rest := s[i + 1..];
      SplitCharCount(rest, c);
      forall j | 0 <= j < i ensures s[j] != c {
        assert !OccursAt(s, [c], j);
        assert s[j..j + 1] == [s[j]];
      }
      assert c !in s[..i];
      assert s[i] == c by { assert s[i..i + 1] == [c]; }
      assert s == s[..i] + [c] + rest;
      assert multiset(s) == multiset(s[..i]) + multiset([c]) + multiset(rest);
  }

  /** `str.count` of a single character counts every occurrence of it. */
  lemma CountCharOccurrences(s: string, c: char)
    ensures CountOccurrences(s, [c]) == multiset(s)[c]
  {
    SplitCharCount(s, c);
  }

  /** `sub` cannot overlap itself: no proper suffix of it is also a prefix of it. */
  predicate SelfDisjoint(sub: string) {
    forall d :: 0 < d < |sub| ==> sub[d..] != sub[..|sub| - d]
  }

  /** A string whose first character does not occur again cannot overlap itself. */
  lemma SelfDisjointByHead(sub: string)
    requires |sub| > 0 && sub[0] !in sub[1..]
    ensures SelfDisjoint(sub)
  {
    forall d | 0 < d < |sub| ensures sub[d..] != sub[..|sub| - d] {
      assert sub[d..][0] == sub[1..][d - 1];
    }
  }

  /** The positions of `s`, from `k` on, where `sub` occurs. */
  function Occurrences(s: string, sub: string, k: nat): set<int> {
    set j: int | k <= j <= |s| && OccursAt(s, sub, j)
  }

  /** For a separator that cannot overlap itself, `str.count` is the number of positions
      where it occurs. */
  lemma CountSelfDisjoint(s: string, sub: string)
    requires |sub| > 0 && SelfDisjoint(sub)
    ensures CountOccurrences(s, sub) == |Occurrences(s, sub, 0)|
  {
    CountFrom(s, sub, 0);
    assert s[0..] == s;
  }

  lemma {:induction false} CountFrom(s: string, sub: string, k: nat)
    requires |sub| > 0 && SelfDisjoint(sub) && k <= |s|
    ensures |Split(s[k..], sub)| - 1 == |Occurrences(s, sub, k)|
    decreases |s| - k
  {
    match Find(s[k..], sub, 0)
    case None =>
      OccurrencesNone(s, sub, k);
    case Some(i) =>
      var a := k + i;
      OccurrencesFirst(s, sub, k, a);
      CountFrom(s, sub, a + |sub|);
      SplitCountStep(s, sub, k, a);
  }

  /** The first cut from `k` at `a` accounts for one piece. */
  lemma SplitCountStep(s: string, sub: string, k: nat, a: nat)
    requires |sub| > 0 && k <= a <= |s| && Find(s[k..], sub, 0) == Some(a - k)
    ensures a + |sub| <= |s|
    ensures |Split(s[k..], sub)| == |Split(s[a + |sub|..], sub)| + 1
  {
    DropDrop(s, k, a - k + |sub|, a + |sub|);
    SplitLength(s[k..], sub, a - k, s[a + |sub|..]);
  }

  /** A cut at `i` leaves one piece and the pieces of the rest `r`. */
  lemma SplitLength(t: string, sub: string, i: nat, r: string)
    requires |sub| > 0 && Find(t, sub, 0) == Some(i) && r == t[i + |sub|..]
    ensures |Split(t, sub)| == |Split(r, sub)| + 1
  {
    SplitCons(t, sub, i);
  }

  /** No occurrence in the suffix from `k`: no position from `k` on. */
  lemma OccurrencesNone(s: string, sub: string, k: nat)
    requires |sub| > 0 && k <= |s| && Find(s[k..], sub, 0).None?
    ensures Occurrences(s, sub, k) == {}
  {
    forall j: nat | k <= j <= |s| ensures !OccursAt(s, sub, j) {
      ShiftOccurs(s, sub, k, j);
    }
  }

  /** The first occurrence from `k` is at `a`: the positions from `k` on are `a` and those
      from `a + |sub|` on. */
  lemma OccurrencesFirst(s: string, sub: string, k: nat, a: nat)
    requires |sub| > 0 && SelfDisjoint(sub) && k <= a <= |s| && Find(s[k..], sub, 0) == Some(a - k)
    ensures a + |sub| <= |s|
    ensures |Occurrences(s, sub, k)| == |Occurrences(s, sub, a + |sub|)| + 1
  {
    var m := |sub|;
    ShiftOccurs(s, sub, k, a);
    forall j: nat | k <= j < a ensures !OccursAt(s, sub, j) {
      ShiftOccurs(s, sub, k, j);
    }
    NoOverlapRange(s, sub, a);
    OccurrencesSplit(s, sub, k, a);
    CardAddOne(Occurrences(s, sub, a + m), a);
  }

  lemma OccurrencesSplit(s: string, sub: string, k: nat, a: nat)
    requires |sub| > 0 && k <= a && a + |sub| <= |s| && OccursAt(s, sub, a)
    requires forall j: nat :: k <= j < a ==> !OccursAt(s, sub, j)
    requires forall j: nat :: a < j < a + |sub| ==> !OccursAt(s, sub, j)
    ensures Occurrences(s, sub, k) == Occurrences(s, sub, a + |sub|) + {a}
    ensures a !in Occurrences(s, sub, a + |sub|)
  {
    var m := |sub|;
    var rest := Occurrences(s, sub, a + m);
    forall j: int ensures j in Occurrences(s, sub, k) <==> j in rest + {a} {
      if k <= j <= |s| && j != a {
        assert j in Occurrences(s, sub, k) <==> OccursAt(s, sub, j);
        assert j in rest <==> (a + m <= j && OccursAt(s, sub, j));
      }
    }
  }

  lemma CardAddOne<T>(xs: set<T>, x: T)
    requires x !in xs
    ensures |xs + {x}| == |xs| + 1
  {
  }

  /** An occurrence in a suffix is an occurrence in the string, shifted. */
  lemma ShiftOccurs(s: string, sub: string, k: nat, j: nat)
    requires k <= j <= |s|
    ensures OccursAt(s, sub, j) <==> OccursAt(s[k..], sub, j - k)
  {
    if j + |sub| <= |s| {
      assert s[k..][j - k..j - k + |sub|] == s[j..j + |sub|];
    }
  }

  /** No occurrence of a self-disjoint string starts inside another. */
  lemma NoOverlapRange(s: string, sub: string, a: nat)
    requires SelfDisjoint(sub) && OccursAt(s, sub, a)
    ensures forall j: nat :: a < j < a + |sub| ==> !OccursAt(s, sub, j)
  {
    forall j: nat | a < j < a + |sub| ensures !OccursAt(s, sub, j) {
      NoOverlap(s, sub, a, j - a);
    }
  }

  /** Two occurrences of a self-disjoint string are at least its length apart. */
  lemma NoOverlap(s: string, sub: string, a: nat, d: nat)
    requires SelfDisjoint(sub) && OccursAt(s, sub, a) && 0 < d < |sub|
    ensures !OccursAt(s, sub, a + d)
  {
    OverlapShape(s, sub, a, d);
  }

  /** A second occurrence `d` after the first makes a suffix of `sub` a prefix of it. */
  lemma OverlapShape(s: string, sub: string, a: nat, d: nat)
    requires OccursAt(s, sub, a) && 0 < d < |sub|
    ensures OccursAt(s, sub, a + d) ==> sub[d..] == sub[..|sub| - d]
  {
    var m := |sub|;
    if OccursAt(s, sub, a + d) {
      assert sub[d..] == s[a + d..a + m];
      assert sub[..m - d] == s[a + d..a + m];
    }
  }
}
