/** `custom_tokenizer`: `re.findall(r"\w+|[^\s\w]", text)`, the split expression handed to
    the explainer. A token is a maximal run of word characters or one character that is
    neither whitespace nor a word character; whitespace separates tokens and is dropped. */
module Tokenizer {
  import opened Seqs
  import opened Text

  predicate Symbol(c: char) { !IsPySpace(c) && !IsWordChar(c) }

  predicate WordRun(t: string) { |t| > 0 && forall j :: 0 <= j < |t| ==> IsWordChar(t[j]) }

  /** The shape of every token. */
  predicate WellFormed(t: string) { WordRun(t) || (|t| == 1 && Symbol(t[0])) }

  /** The scan of `findall`: at each position the first alternative that matches wins,
      and a position where neither matches (whitespace) is skipped. */
  function Tokenize(s: string): (r: seq<string>)
    decreases |s|
  {
    if s == [] then []
    else if IsWordChar(s[0]) then
      var e := Span(s, 0, IsWordChar);
      [s[..e]] + Tokenize(s[e..])
    else if IsPySpace(s[0]) then Tokenize(s[1..])
    else [[s[0]]] + Tokenize(s[1..])
  }

  /** Every token is a word run or a single symbol. */
  lemma {:induction false} TokensWellFormed(s: string)
    ensures forall i :: 0 <= i < |Tokenize(s)| ==> WellFormed(Tokenize(s)[i])
    decreases |s|
  {
    if s != [] {
      if IsWordChar(s[0]) {
        var e := Span(s, 0, IsWordChar);
        TokensWellFormed(s[e..]);
        assert Tokenize(s) == [s[..e]] + Tokenize(s[e..]);
      } else {
        TokensWellFormed(s[1..]);
      }
    }
  }

  /** The tokens, concatenated in order, are the text without its whitespace. */
  lemma {:induction false} TokensConcat(s: string)
    ensures Concat(Tokenize(s)) == Filter(s, NotPySpace)
    decreases |s|
  {
    if s != [] {
      if IsWordChar(s[0]) {
        var e := Span(s, 0, IsWordChar);
        var t, x := s[..e], s[e..];
        assert s == t + x;
        assert x != [] ==> x[0] == s[e];
        TokensConcat(x);
        ConcatWordStep(t, x);
      } else {
        TokensConcat(s[1..]);
        assert s == [s[0]] + s[1..];
        ConcatCharStep(s[0], s[1..]);
      }
    }
  }

  lemma ConcatWordStep(t: string, x: string)
    requires WordRun(t) && (x == [] || !IsWordChar(x[0]))
    requires Concat(Tokenize(x)) == Filter(x, NotPySpace)
    ensures Concat(Tokenize(t + x)) == Filter(t + x, NotPySpace)
  {
    TokenizeWordRun(t, x);
    ConcatCons(t, Tokenize(x));
    assert forall i :: 0 <= i < |t| ==> NotPySpace(t[i]);
    FilterAppend(t, x, NotPySpace);
    FilterAll(t, NotPySpace);
  }

  lemma ConcatCharStep(c: char, x: string)
    requires !IsWordChar(c)
    requires Concat(Tokenize(x)) == Filter(x, NotPySpace)
    ensures Concat(Tokenize([c] + x)) == Filter([c] + x, NotPySpace)
  {
    FilterAppend([c], x, NotPySpace);
    if IsPySpace(c) {
      TokenizeSkipSpace(c, x);
      FilterNone([c], NotPySpace);
    } else {
      TokenizeSymbol(c, x);
      ConcatCons([c], Tokenize(x));
      FilterAll([c], NotPySpace);
    }
  }

  /** A whitespace character yields no token. */
  lemma TokenizeSkipSpace(c: char, x: string)
    requires IsPySpace(c)
    ensures Tokenize([c] + x) == Tokenize(x)
  {
    assert ([c] + x)[1..] == x;
  }

  /** A character that is neither whitespace nor a word character is a token on its own. */
  lemma TokenizeSymbol(c: char, x: string)
    requires Symbol(c)
    ensures Tokenize([c] + x) == [[c]] + Tokenize(x)
  {
    assert ([c] + x)[1..] == x;
  }

  /** A word run followed by a non-word character (or nothing) is taken whole. */
  lemma TokenizeWordRun(t: string, x: string)
    requires WordRun(t)
    requires x == [] || !IsWordChar(x[0])
    ensures Tokenize(t + x) == [t] + Tokenize(x)
  {
    var s := t + x;
    assert forall j :: 0 <= j < |t| ==> s[j] == t[j];
    assert x != [] ==> s[|t|] == x[0];
    SpanExact(s, 0, |t|, IsWordChar);
    assert s[..|t|] == t && s[|t|..] == x;
  }

  /** The three equations above, with `Tokenize("") == []`, determine the tokenizer: any
      function that satisfies them is `Tokenize`. So every word run of the text becomes one
      token however it is placed, and every symbol one token. */
  lemma {:induction false} TokenizeUnique(f: string -> seq<string>, s: string)
    requires f([]) == []
    requires forall c: char, x: string :: IsPySpace(c) ==> f([c] + x) == f(x)
    requires forall c: char, x: string :: Symbol(c) ==> f([c] + x) == [[c]] + f(x)
    requires forall t: string, x: string :: WordRun(t) && (x == [] || !IsWordChar(x[0])) ==>
               f(t + x) == [t] + f(x)
    ensures f(s) == Tokenize(s)
    decreases |s|
  {
    if s != [] {
      if IsWordChar(s[0]) {
        var e := Span(s, 0, IsWordChar);
        var t, x := s[..e], s[e..];
        assert s == t + x;
        assert x != [] ==> x[0] == s[e];
        TokenizeUnique(f, x);
        TokenizeWordRun(t, x);
      } else {
        var x := s[1..];
        assert s == [s[0]] + x;
        TokenizeUnique(f, x);
        if IsPySpace(s[0]) {
          TokenizeSkipSpace(s[0], x);
        } else {
          TokenizeSymbol(s[0], x);
        }
      }
    }
  }

  /** Round trip: well-formed tokens joined with single spaces tokenize back to themselves.
      A word run is never split and two neighbouring runs are never merged. */
  lemma {:induction false} TokenizeJoin(ts: seq<string>)
    requires forall i :: 0 <= i < |ts| ==> WellFormed(ts[i])
    ensures Tokenize(Join(ts, " ")) == ts
  {
    if ts == [] {
    } else if |ts| == 1 {
      TokenizeSingle(ts[0]);
    } else {
      var t, rest := ts[0], Join(ts[1..], " ");
      TokenizeJoin(ts[1..]);
      TokenizeSkipSpace(' ', rest);
      assert Join(ts, " ") == t + (" " + rest);
      if WordRun(t) {
        TokenizeWordRun(t, " " + rest);
      } else {
        assert t == [t[0]];
        TokenizeSymbol(t[0], " " + rest);
      }
      assert ts == [t] + ts[1..];
    }
  }

  lemma TokenizeSingle(t: string)
    requires WellFormed(t)
    ensures Tokenize(t) == [t]
  {
    if WordRun(t) {
      TokenizeWordRun(t, []);
      assert t + [] == t;
    } else {
      assert t == [t[0]];
    }
  }

  /** A placeholder such as `<num>` reaches the explainer as three tokens. */
  lemma PlaceholderTokens()
    ensures Tokenize("<num>") == ["<", "num", ">"]
  {
    var s := "<num>";
    assert !IsWordChar(s[0]) && !IsPySpace(s[0]);
    assert s[1..] == "num>";
    TokenizeWordRun("num", ">");
    assert "num" + ">" == "num>";
    TokenizeSingle(">");
  }
}
