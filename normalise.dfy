/** The last step of `predict`: the explanation's (word, weight) pairs become a dict, and
    every weight is divided by the largest absolute weight so that all lie in [-1, 1]. */
module Normalise {
  import opened Wrappers
  import opened WeightMap

  // ---------------------------------------------------------------- dict(pairs)

  /** `d[e.word] = e.weight`: a word already present keeps its place and takes the new
      weight; a new word goes last. */
  function Put(m: Entries, e: Entry): (r: Entries)
    ensures |r| <= |m| + 1
  {
    if m == [] then [e]
    else if m[0].word == e.word then [e] + m[1..]
    else [m[0]] + Put(m[1..], e)
  }

  lemma {:induction false} PutLookup(m: Entries, e: Entry, w: string)
    ensures Lookup(Put(m, e), w) == if w == e.word then Some(e.weight) else Lookup(m, w)
  {
    if m != [] && m[0].word != e.word {
      PutLookup(m[1..], e, w);
      assert Put(m, e)[1..] == Put(m[1..], e);
    }
  }

  lemma {:induction false} PutDistinct(m: Entries, e: Entry)
    requires DistinctWords(m)
    ensures DistinctWords(Put(m, e))
  {
    if m != [] && m[0].word != e.word {
      PutDistinct(m[1..], e);
      var r := Put(m, e);
      assert r == [m[0]] + Put(m[1..], e);
      forall j | 0 < j < |r| ensures r[j].word != m[0].word {
        PutLookup(m[1..], e, m[0].word);
        assert Lookup(m[1..], m[0].word).None?;
        assert r[j] == Put(m[1..], e)[j - 1];
      }
    } else if m != [] {
      assert forall i :: 0 < i < |m| ==> Put(m, e)[i] == m[i];
    }
  }

  /** The dict built from word-weight pairs: one entry per word, in first-seen order, with
      the weight of the word's last pair. */
  function DictOf(pairs: Entries): (d: Entries)
    ensures |d| <= |pairs|
  {
    if pairs == [] then [] else Put(DictOf(pairs[..|pairs| - 1]), pairs[|pairs| - 1])
  }

  /** A dict holds each word once. */
  lemma {:induction false} DictOfDistinctWords(pairs: Entries)
    ensures DistinctWords(DictOf(pairs))
  {
    if pairs != [] {
      DictOfDistinctWords(pairs[..|pairs| - 1]);
      PutDistinct(DictOf(pairs[..|pairs| - 1]), pairs[|pairs| - 1]);
    }
  }

  /** The weight of the last pair with word `w`. */
  function LastValue(pairs: Entries, w: string): (r: Option<real>)
    ensures r.None? <==> forall i :: 0 <= i < |pairs| ==> pairs[i].word != w
    ensures r.Some? ==> exists i :: 0 <= i < |pairs| && pairs[i] == Entry(w, r.value)
                          && forall j :: i < j < |pairs| ==> pairs[j].word != w
  {
    if pairs == [] then None
    else if pairs[|pairs| - 1].word == w then Some(pairs[|pairs| - 1].weight)
    else LastValue(pairs[..|pairs| - 1], w)
  }

  /** The dict has a word exactly when some pair has it, with the weight of the last such pair. */
  lemma {:induction false} DictOfLookup(pairs: Entries, w: string)
    ensures Lookup(DictOf(pairs), w) == LastValue(pairs, w)
  {
    if pairs != [] {
      DictOfLookup(pairs[..|pairs| - 1], w);
      PutLookup(DictOf(pairs[..|pairs| - 1]), pairs[|pairs| - 1], w);
    }
  }

  /** Put a little more simply: the dict of pairs whose words are distinct holds every pair. */
  lemma DictOfDistinct(pairs: Entries, i: nat)
    requires DistinctWords(pairs) && i < |pairs|
    ensures Lookup(DictOf(pairs), pairs[i].word) == Some(pairs[i].weight)
  {
    DictOfLookup(pairs, pairs[i].word);
  }

  // ---------------------------------------------------------------- the normalisation

  function MaxAbs(m: Entries): (r: real)
    requires m != []
    ensures forall i :: 0 <= i < |m| ==> Abs(m[i].weight) <= r
    ensures exists i :: 0 <= i < |m| && Abs(m[i].weight) == r
  {
    if |m| == 1 then Abs(m[0].weight)
    else
      var rest := MaxAbs(m[1..]);
      assert forall i :: 1 <= i < |m| ==> m[i] == m[1..][i - 1];
      if Abs(m[0].weight) >= rest then Abs(m[0].weight) else rest
  }

  /** `max()` of no values raises `ValueError`; dividing by a zero maximum raises
      `ZeroDivisionError`. */
  datatype NormError = EmptyWeights | ZeroMaximum

  function Scale(d: Entries, mx: real): (r: Entries)
    requires mx > 0.0
    ensures |r| == |d| && Words(r) == Words(d)
    ensures forall i :: 0 <= i < |d| ==> r[i].weight == d[i].weight / mx
  {
    seq(|d|, i requires 0 <= i < |d| => Entry(d[i].word, d[i].weight / mx))
  }

  /** `word_weights = dict(exp.as_list())` followed by the division by `max_abs_weight`. */
  function Normalised(pairs: Entries): Result<Entries, NormError> {
    var d := DictOf(pairs);
    if d == [] then Failure(EmptyWeights)
    else
      var mx := MaxAbs(d);
      if mx == 0.0 then Failure(ZeroMaximum) else Success(Scale(d, mx))
  }

  /** The step fails on an empty explanation and on one whose weights are all zero, and
      otherwise succeeds. */
  lemma NormalisedErrors(pairs: Entries)
    ensures Normalised(pairs) == Failure(EmptyWeights) <==> pairs == []
    ensures Normalised(pairs) == Failure(ZeroMaximum) <==>
              pairs != [] && forall i :: 0 <= i < |DictOf(pairs)| ==> DictOf(pairs)[i].weight == 0.0
  {
    var d := DictOf(pairs);
    if pairs != [] {
      DictOfLookup(pairs, pairs[0].word);
      assert Lookup(d, pairs[0].word).Some?;
    }
    if d != [] {
      var mx := MaxAbs(d);
      if mx == 0.0 {
        assert forall i :: 0 <= i < |d| ==> Abs(d[i].weight) <= 0.0;
      } else {
        var i :| 0 <= i < |d| && Abs(d[i].weight) == mx;
        assert d[i].weight != 0.0;
      }
    }
  }

  /** The normalised map keeps the dict's words in their order and the sign of every weight;
      every weight lies in [-1, 1] and some weight is 1 or -1. */
  lemma NormalisedWeights(pairs: Entries)
    requires Normalised(pairs).Success?
    ensures var r := Normalised(pairs).value; var d := DictOf(pairs);
      && Words(r) == Words(d)
      && (forall i :: 0 <= i < |r| ==> (r[i].weight > 0.0 <==> d[i].weight > 0.0))
      && (forall i :: 0 <= i < |r| ==> (r[i].weight < 0.0 <==> d[i].weight < 0.0))
      && (forall i :: 0 <= i < |r| ==> -1.0 <= r[i].weight <= 1.0)
      && (exists i :: 0 <= i < |r| && Abs(r[i].weight) == 1.0)
  {
    var d := DictOf(pairs);
    ScaleWeights(d, MaxAbs(d));
  }

  lemma ScaleWeights(d: Entries, mx: real)
    requires d != [] && mx == MaxAbs(d) && mx > 0.0
    ensures var r := Scale(d, mx);
      && (forall i :: 0 <= i < |r| ==> (r[i].weight > 0.0 <==> d[i].weight > 0.0))
      && (forall i :: 0 <= i < |r| ==> (r[i].weight < 0.0 <==> d[i].weight < 0.0))
      && (forall i :: 0 <= i < |r| ==> -1.0 <= r[i].weight <= 1.0)
      && (exists i :: 0 <= i < |r| && Abs(r[i].weight) == 1.0)
  {
    var r := Scale(d, mx);
    forall i | 0 <= i < |r|
      ensures (r[i].weight > 0.0 <==> d[i].weight > 0.0) && (r[i].weight < 0.0 <==> d[i].weight < 0.0)
      ensures -1.0 <= r[i].weight <= 1.0
    {
      var w, q := d[i].weight, r[i].weight;
      ScaledBounds(w, mx, q);
    }
    var k :| 0 <= k < |d| && Abs(d[k].weight) == mx;
    var w, q := d[k].weight, r[k].weight;
    ScaledBounds(w, mx, q);
  }

  lemma ScaledBounds(w: real, mx: real, q: real)
    requires mx > 0.0 && Abs(w) <= mx && q == w / mx
    ensures (q > 0.0 <==> w > 0.0) && (q < 0.0 <==> w < 0.0)
    ensures -1.0 <= q <= 1.0
    ensures Abs(w) == mx ==> Abs(q) == 1.0
  {
    QuotientSign(w, mx, q);
    QuotientUpper(w, mx, q);
    QuotientLower(w, mx, q);
  }

  lemma QuotientSign(w: real, mx: real, q: real)
    requires mx > 0.0 && q == w / mx
    ensures (q > 0.0 <==> w > 0.0) && (q < 0.0 <==> w < 0.0)
  {
    assert q * mx == w && 0.0 * mx == 0.0;
    MulOrder(0.0, q, mx);
    MulOrder(q, 0.0, mx);
  }

  lemma QuotientUpper(w: real, mx: real, q: real)
    requires mx > 0.0 && w <= mx && q == w / mx
    ensures q <= 1.0 && (w == mx ==> q == 1.0)
  {
    assert q * mx == w && 1.0 * mx == mx;
    MulOrder(1.0, q, mx);
    MulOrder(q, 1.0, mx);
  }

  lemma QuotientLower(w: real, mx: real, q: real)
    requires mx > 0.0 && -mx <= w && q == w / mx
    ensures -1.0 <= q && (w == -mx ==> q == -1.0)
  {
    assert q * mx == w && -1.0 * mx == -mx;
    MulOrder(-1.0, q, mx);
    MulOrder(q, -1.0, mx);
  }

  /** Multiplying by a positive number keeps the order. */
  lemma MulOrder(a: real, b: real, c: real)
    requires c > 0.0
    ensures a < b <==> a * c < b * c
  {
    if a < b {
      MulPositive(b - a, c);
      assert (b - a) * c == b * c - a * c;
    } else {
      MulNonNegative(a - b, c);
      assert (a - b) * c == a * c - b * c;
    }
  }

  lemma MulPositive(a: real, b: real)
    requires a > 0.0 && b > 0.0
    ensures a * b > 0.0
  {
  }

  lemma MulNonNegative(a: real, b: real)
    requires a >= 0.0 && b > 0.0
    ensures a * b >= 0.0
  {
    if a > 0.0 {
      MulPositive(a, b);
    }
  }
}
