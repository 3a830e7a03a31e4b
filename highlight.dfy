/** `highlightWords`: the email text is split on runs of whitespace, every piece is
    lower-cased and classified, and the resulting display text is looked up in the word
    weight map to colour a span red (phishing indicator) or blue (benign indicator). */
module Highlight {
  import opened Wrappers
  import opened Seqs
  import opened Text
  import opened WeightMap
  import opened Classifier

  // ---------------------------------------------------------------- text.split(/\s+/)

  /** JavaScript `s.split(/\s+/)`: the pieces between maximal runs of whitespace. A leading
      or trailing run yields an empty first or last piece, and `""` yields `[""]`. */
  function SplitWs(s: string): (r: seq<string>)
    ensures |r| >= 1
    decreases |s|
  {
    var k := Span(s, 0, NotJsSpace);
    if k == |s| then [s]
    else [s[..k]] + SplitWs(s[Span(s, k, IsJsSpace)..])
  }

  predicate SpaceFree(w: string) { forall j :: 0 <= j < |w| ==> !IsJsSpace(w[j]) }

  /** No piece contains whitespace. */
  lemma {:induction false} SplitWsSpaceFree(s: string)
    ensures forall i :: 0 <= i < |SplitWs(s)| ==> SpaceFree(SplitWs(s)[i])
    decreases |s|
  {
    var k := Span(s, 0, NotJsSpace);
    if k < |s| {
      var e := Span(s, k, IsJsSpace);
      SplitWsSpaceFree(s[e..]);
      assert SplitWs(s) == [s[..k]] + SplitWs(s[e..]);
    }
  }

  /** A non-empty run of whitespace. */
  predicate SpaceRun(r: string) { |r| > 0 && forall j :: 0 <= j < |r| ==> IsJsSpace(r[j]) }

  /** A text without whitespace is one piece. */
  lemma SplitWsWhole(w: string)
    requires SpaceFree(w)
    ensures SplitWs(w) == [w]
  {
    SpanExact(w, 0, |w|, NotJsSpace);
  }

  /** A word, then a run of whitespace, then a rest that does not start with whitespace:
      the word is the first piece and the rest is split on its own. The cut falls exactly
      at the run. */
  lemma SplitWsCons(w: string, r: string, x: string)
    requires SpaceFree(w) && SpaceRun(r)
    requires x == [] || !IsJsSpace(x[0])
    ensures SplitWs(w + r + x) == [w] + SplitWs(x)
  {
    var s := w + r + x;
    var k, e := |w|, |w| + |r|;
    assert forall j :: 0 <= j < k ==> s[j] == w[j];
    assert forall j :: k <= j < e ==> s[j] == r[j - k];
    assert x != [] ==> s[e] == x[0];
    SpanExact(s, 0, k, NotJsSpace);
    SpanExact(s, k, e, IsJsSpace);
    assert s[..k] == w && s[e..] == x;
  }

  /** `SplitWsWhole` and `SplitWsCons` determine the split: any function that satisfies
      both is `SplitWs`. */
  lemma {:induction false} SplitWsUnique(f: string -> seq<string>, s: string)
    requires forall w: string :: SpaceFree(w) ==> f(w) == [w]
    requires forall w: string, r: string, x: string ::
               SpaceFree(w) && SpaceRun(r) && (x == [] || !IsJsSpace(x[0])) ==> f(w + r + x) == [w] + f(x)
    ensures f(s) == SplitWs(s)
    decreases |s|
  {
    var k := Span(s, 0, NotJsSpace);
    if k == |s| {
      SplitWsWhole(s);
    } else {
      var e := Span(s, k, IsJsSpace);
      var w, r, x := s[..k], s[k..e], s[e..];
      SliceThree(s, k, e);
      assert x != [] ==> x[0] == s[e];
      assert SpaceRun(r) by { assert r[0] == s[k]; }
      SplitWsUnique(f, x);
      SplitWsCons(w, r, x);
      assert f(w + r + x) == [w] + f(x);
    }
  }

  /** Round trip: non-empty pieces without whitespace, joined with single spaces, split
      back into themselves. */
  lemma {:induction false} SplitWsJoin(ws: seq<string>)
    requires |ws| > 0
    requires forall i :: 0 <= i < |ws| ==> ws[i] != [] && SpaceFree(ws[i])
    ensures SplitWs(Join(ws, " ")) == ws
  {
    if |ws| == 1 {
      SplitWsWhole(ws[0]);
    } else {
      var rest := Join(ws[1..], " ");
      SplitWsJoin(ws[1..]);
      JoinHead(ws[1..], " ");
      assert rest[0] == ws[1][0] && !IsJsSpace(rest[0]);
      assert SpaceRun(" ");
      SplitWsCons(ws[0], " ", rest);
      assert ws == [ws[0]] + ws[1..];
    }
  }

  /** The pieces, put back together, are the text with its whitespace removed. */
  lemma {:induction false} SplitWsConcat(s: string)
    ensures Concat(SplitWs(s)) == Filter(s, NotJsSpace)
    decreases |s|
  {
    var k := Span(s, 0, NotJsSpace);
    if k == |s| {
      FilterAll(s, NotJsSpace);
      assert [s][1..] == [];
    } else {
      var e := Span(s, k, IsJsSpace);
      SplitWsConcat(s[e..]);
      assert SplitWs(s) == [s[..k]] + SplitWs(s[e..]);
      ConcatFilterStep(s, k, e, SplitWs(s[e..]));
    }
  }

  /** A word, a run of whitespace, and pieces that put back together are the rest of the
      text without its whitespace. */
  lemma ConcatFilterStep(s: string, k: nat, e: nat, pieces: seq<string>)
    requires k <= e <= |s|
    requires forall j :: 0 <= j < k ==> NotJsSpace(s[j])
    requires forall j :: k <= j < e ==> IsJsSpace(s[j])
    requires Concat(pieces) == Filter(s[e..], NotJsSpace)
    ensures Concat([s[..k]] + pieces) == Filter(s, NotJsSpace)
  {
    ConcatCons(s[..k], pieces);
    assert s == s[..k] + s[k..e] + s[e..];
    FilterKeepDrop(s[..k], s[k..e], s[e..], NotJsSpace);
  }

  /** Only the first and the last piece can be empty: every other piece lies between two
      runs of whitespace and holds at least one character. */
  lemma {:induction false} SplitWsInnerNonEmpty(s: string)
    ensures forall i :: 0 < i < |SplitWs(s)| - 1 ==> SplitWs(s)[i] != ""
    decreases |s|
  {
    var k := Span(s, 0, NotJsSpace);
    if k < |s| {
      var e := Span(s, k, IsJsSpace);
      var rest := s[e..];
      SplitWsInnerNonEmpty(rest);
      if rest != [] {
        assert Span(rest, 0, NotJsSpace) > 0;
      }
      assert SplitWs(s) == [s[..k]] + SplitWs(rest);
    }
  }

  /** A piece holds no space, and the day pattern needs a space on both sides of the day
      name, so no piece is ever classified as a day. */
  lemma SpaceFreeNeverDay(o: Oracles, w: string)
    requires SpaceFree(w)
    ensures Classify(o, Lower(w)) != Some(Day)
  {
    var t := Lower(w);
    forall i: nat, j: nat | i < j < |t| ensures !DayAt(t, i, j) {
      assert !IsJsSpace(t[i]);
    }
  }

  // ---------------------------------------------------------------- weights and colours

  /** The weight a piece is shown with: its stored weight, or 0 when the map has no entry
      for it (a stored 0 gives 0 either way). Keys are own entries of the map or absent. */
  function Weight(list: Entries, key: string): (w: real)
    ensures Lookup(list, key).Some? ==> w == Lookup(list, key).value
    ensures Lookup(list, key).None? ==> w == 0.0
  {
    match Lookup(list, key)
    case None => 0.0
    case Some(v) => v
  }

  function Min(a: real, b: real): real { if a <= b then a else b }

  /** A span's background: `transparent`, or `rgba(255,0,0,alpha)` / `rgba(0,0,255,alpha)`. */
  datatype Colour = Transparent | Red(alpha: real) | Blue(alpha: real)

  /** A span's style: its background and whether it has the 2px padding. */
  datatype Look = Look(background: Colour, padded: bool)

  /** The style of a span whose weight is `w`. */
  function Styled(w: real): (k: Look)
    ensures w > 0.0 <==> k.background.Red?
    ensures w < 0.0 <==> k.background.Blue?
    ensures !k.background.Transparent? ==> 0.0 < k.background.alpha <= 1.0
    ensures !k.background.Transparent? ==> k.background.alpha == Min(1.0, Abs(w) / 1.5)
    ensures k.padded <==> w != 0.0
  {
    var bg :=
      if w > 0.0 then Red(Min(1.0, w / 1.5))
      else if w < 0.0 then Blue(Min(1.0, Abs(w / 1.5)))
      else Transparent;
    Look(bg, w != 0.0)
  }

  /** A weight of 1.5 or more in size gives a fully opaque span. */
  lemma SaturatedAlpha(w: real)
    requires w >= 1.5 || w <= -1.5
    ensures !Styled(w).background.Transparent? && Styled(w).background.alpha == 1.0
  {
  }

  /** Padding and colour go together: a span is padded exactly when it is coloured. */
  lemma PaddedIffColoured(list: Entries, key: string)
    ensures Styled(Weight(list, key)).padded <==> !Styled(Weight(list, key)).background.Transparent?
  {
  }

  // ---------------------------------------------------------------- spans

  /** One rendered span: what it shows, its weight and its style. */
  datatype Marked = Marked(display: string, weight: real, look: Look)

  function MarkedFor(o: Oracles, word: string, list: Entries): Marked {
    var d := ClassType(o, Lower(word));
    var w := Weight(list, d);
    Marked(d, w, Styled(w))
  }

  /** One span per piece, in order. */
  function RenderTokens(o: Oracles, words: seq<string>, list: Entries): (r: seq<Marked>)
    ensures |r| == |words|
    ensures forall i :: 0 <= i < |words| ==> r[i] == MarkedFor(o, words[i], list)
  {
    if words == [] then [] else [MarkedFor(o, words[0], list)] + RenderTokens(o, words[1..], list)
  }

  /** The spans of an email text: the text split on white space, each piece rendered. */
  function HighlightWords(o: Oracles, text: string, list: Entries): seq<Marked> {
    RenderTokens(o, SplitWs(text), list)
  }

  /** Every span shows the class placeholder of its lower-cased piece, or the lower-cased
      piece itself, carries the weight stored under what it shows, and is coloured by it. */
  lemma HighlightSpans(o: Oracles, text: string, list: Entries, i: nat)
    requires i < |SplitWs(text)|
    ensures |HighlightWords(o, text, list)| == |SplitWs(text)|
    ensures var sp := HighlightWords(o, text, list)[i];
            var c := Classify(o, Lower(SplitWs(text)[i]));
            sp.display == (if c.Some? then Placeholder(c.value) else Lower(SplitWs(text)[i]))
            && sp.weight == Weight(list, sp.display) && sp.look == Styled(sp.weight)
  {
  }

  /** No span shows `<day>` unless its piece is literally that text: the day class is
      unreachable from the highlighter. */
  lemma HighlightNeverDay(o: Oracles, text: string, list: Entries, i: nat)
    requires i < |SplitWs(text)|
    ensures HighlightWords(o, text, list)[i].display == "<day>" ==> Lower(SplitWs(text)[i]) == "<day>"
  {
    var w := SplitWs(text)[i];
    SplitWsSpaceFree(text);
    SpaceFreeNeverDay(o, w);
    HighlightSpans(o, text, list, i);
    var c := Classify(o, Lower(w));
    if c.Some? {
      PlaceholderDay(c.value);
    }
  }

  /** `<day>` is the placeholder of the day class only. */
  lemma PlaceholderDay(l: Label)
    ensures Placeholder(l) == "<day>" ==> l == Day
  {
  }

  // ---------------------------------------------------------------- the inherited-key lookup

  /** A property read on a plain JavaScript object: an own entry, a member inherited from
      `Object.prototype` (a function or an object, never a number), or `undefined`. */
  datatype JsValue = Number(n: real) | Inherited | Undefined

  /** The lower-case names that every object inherits from `Object.prototype`; a lower-cased
      piece can equal one of them, while the camel-case members such as `toString` cannot. */
  const PrototypeKeys: set<string> := {"constructor", "__proto__"}

  function PropertyOf(list: Entries, key: string): (v: JsValue)
    ensures v.Inherited? <==> Lookup(list, key).None? && key in PrototypeKeys
  {
    match Lookup(list, key)
    case Some(x) => Number(x)
    case None => if key in PrototypeKeys then Inherited else Undefined
  }

  /** The weight as the component computes it, reading inherited members of the map too:
      a number, or a non-numeric value when the read finds an inherited member. */
  datatype JsWeight = Numeric(x: real) | NonNumeric

  function WeightAsWritten(list: Entries, key: string): (w: JsWeight)
    ensures w.NonNumeric? <==> Lookup(list, key).None? && key in PrototypeKeys
  {
    match PropertyOf(list, key)
    case Number(x) => Numeric(x)
    case Inherited => NonNumeric
    case Undefined => Numeric(0.0)
  }

  /** The style as the component computes it: a non-numeric weight compares false with 0
      both ways (no colour) but is `!== 0` (padding). */
  function StyledAsWritten(w: JsWeight): (k: Look)
    ensures w.NonNumeric? ==> k == Look(Transparent, true)
    ensures w.Numeric? ==> k == Styled(w.x)
  {
    match w
    case Numeric(x) => Styled(x)
    case NonNumeric => Look(Transparent, true)
  }

  /** Away from the inherited names, the lookup as written agrees with `Weight`. */
  lemma AsWrittenAgrees(list: Entries, key: string)
    requires key !in PrototypeKeys || Lookup(list, key).Some?
    ensures WeightAsWritten(list, key) == Numeric(Weight(list, key))
    ensures StyledAsWritten(WeightAsWritten(list, key)) == Styled(Weight(list, key))
  {
  }

  /** The word `constructor` in an email whose weight map does not mention it: the span as
      written is padded but uncoloured, a state no numeric weight can produce; with the
      own-entry lookup it is an ordinary unweighted span. */
  lemma ConstructorSpan(list: Entries)
    requires forall i :: 0 <= i < |list| ==> list[i].word != "constructor"
    ensures StyledAsWritten(WeightAsWritten(list, "constructor")) == Look(Transparent, true)
    ensures forall w: real :: Styled(w) != Look(Transparent, true)
    ensures Styled(Weight(list, "constructor")) == Look(Transparent, false)
  {
  }
}
