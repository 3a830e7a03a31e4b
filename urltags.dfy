/** `extract_urls_from_text` and `replace_urls_with_tag`: `findall` and `sub` with the URL
    pattern, both guarded against cells that are not strings. Both walk the text left to
    right the same way, so both are read off one scan of it. */
module UrlTags {
  import opened Seqs
  import opened Text
  import opened UrlPattern
  import Categories

  /** A data-frame cell: a string, or some other Python value (a missing value, a number),
      identified only by an opaque tag. */
  datatype Cell = Str(s: string) | NonStr(id: int)

  /** The scan: a character where no match starts, or a whole greedy match. */
  datatype Piece = Plain(c: char) | Link(u: string)

  /** The piece the scan takes at `k`: the greedy match when one starts there, else the
      character. */
  function Head(s: string, k: nat): Piece
    requires k < |s|
  {
    if UrlAt(s, k) then Link(s[k..MatchEnd(s, k)]) else Plain(s[k])
  }

  /** Where the scan goes on after the piece taken at `k`. */
  function Next(s: string, k: nat): (e: nat)
    requires k < |s|
    ensures k < e <= |s|
  {
    if UrlAt(s, k) then MatchEnd(s, k) else k + 1
  }

  function Scan(s: string, k: nat): seq<Piece>
    requires k <= |s|
    decreases |s| - k
  {
    if k == |s| then [] else [Head(s, k)] + Scan(s, Next(s, k))
  }

  /** The text a piece stands for. */
  function PieceText(p: Piece): string {
    match p
    case Plain(c) => [c]
    case Link(u) => u
  }

  function Flatten(ps: seq<Piece>): string {
    if ps == [] then [] else PieceText(ps[0]) + Flatten(ps[1..])
  }

  function Links(ps: seq<Piece>): seq<string> {
    if ps == [] then []
    else (match ps[0] case Plain(_) => [] case Link(u) => [u]) + Links(ps[1..])
  }

  /** The tag `replace_urls_with_tag` writes: the URL category's tag. */
  const UrlTag: string := Categories.Tag(Categories.UrlCat)

  function Tagged(ps: seq<Piece>): string {
    if ps == [] then []
    else (match ps[0] case Plain(c) => [c] case Link(_) => UrlTag) + Tagged(ps[1..])
  }

  /** `extract_urls_from_text`. */
  function ExtractUrls(cell: Cell): (urls: seq<string>)
    ensures cell.NonStr? ==> urls == []
  {
    match cell
    case NonStr(_) => []
    case Str(s) => Links(Scan(s, 0))
  }

  /** `replace_urls_with_tag`. */
  function ReplaceUrls(cell: Cell): (r: Cell)
    ensures cell.NonStr? ==> r == cell
    ensures r.Str? <==> cell.Str?
  {
    match cell
    case NonStr(_) => cell
    case Str(s) => Str(Tagged(Scan(s, 0)))
  }

  /** The scan partitions the text: its pieces, put back together, are the text. */
  lemma {:induction false} ScanFlatten(s: string, k: nat)
    requires k <= |s|
    ensures Flatten(Scan(s, k)) == s[k..]
    decreases |s| - k
  {
    if k < |s| {
      var e := Next(s, k);
      assert Scan(s, k) == [Head(s, k)] + Scan(s, e);
      ScanFlatten(s, e);
      HeadText(s, k);
      FlattenCons(Head(s, k), Scan(s, e));
      SliceSplit(s, k, e);
    }
  }

  /** The piece taken at `k` covers the text up to where the scan goes on. */
  lemma HeadText(s: string, k: nat)
    requires k < |s|
    ensures PieceText(Head(s, k)) == s[k..Next(s, k)]
  {
    if !UrlAt(s, k) {
      assert s[k..k + 1] == [s[k]];
    }
  }

  lemma FlattenCons(p: Piece, ps: seq<Piece>)
    ensures Flatten([p] + ps) == PieceText(p) + Flatten(ps)
  {
    assert ([p] + ps)[1..] == ps;
  }

  /** Every extracted URL is one complete match of the pattern. */
  lemma {:induction false} ScanLinksAreUrls(s: string, k: nat)
    requires k <= |s|
    ensures forall i :: 0 <= i < |Links(Scan(s, k))| ==> IsUrl(Links(Scan(s, k))[i])
    decreases |s| - k
  {
    if k < |s| {
      if UrlAt(s, k) {
        var e := MatchEnd(s, k);
        ScanLinksAreUrls(s, e);
        MatchIsUrl(s, k);
        var ps := [Link(s[k..e])] + Scan(s, e);
        assert Scan(s, k) == ps && ps[1..] == Scan(s, e);
        assert Links(ps) == [s[k..e]] + Links(Scan(s, e));
      } else {
        ScanLinksAreUrls(s, k + 1);
        var ps := [Plain(s[k])] + Scan(s, k + 1);
        assert Scan(s, k) == ps && ps[1..] == Scan(s, k + 1);
      }
    }
  }

  /** A piece as `findall` and `sub` take it at `p`: a plain character where no match starts,
      or a link where a match starts, that is a complete match and that no URL character
      follows. */
  predicate Greedy(s: string, p: nat, piece: Piece) {
    match piece
    case Plain(_) => !UrlAt(s, p)
    case Link(u) =>
      UrlAt(s, p) && IsUrl(u) && p + |u| <= |s| && (p + |u| == |s| || !UrlChar(s[p + |u|]))
  }

  /** Every piece of `ps` is greedy where it stands, the first at `k` and each next one
      where the text of the one before it ends. */
  predicate GreedyFrom(s: string, k: nat, ps: seq<Piece>)
    decreases |ps|
  {
    ps == [] || (Greedy(s, k, ps[0]) && GreedyFrom(s, k + |PieceText(ps[0])|, ps[1..]))
  }

  /** The scan is leftmost and greedy: a character is kept only where no match starts, and
      every link starts a match and runs to its longest end. */
  lemma {:induction false} ScanGreedy(s: string, k: nat)
    requires k <= |s|
    ensures GreedyFrom(s, k, Scan(s, k))
    decreases |s| - k
  {
    if k < |s| {
      var e, h := Next(s, k), Head(s, k);
      var rest := Scan(s, e);
      assert Scan(s, k) == [h] + rest;
      assert ([h] + rest)[1..] == rest;
      ScanGreedy(s, e);
      HeadText(s, k);
      HeadGreedy(s, k);
    }
  }

  /** Only the scan itself is leftmost and greedy: any list of pieces that stands for the
      text from `k` and whose pieces are all greedy where they stand is the scan. */
  lemma {:induction false} ScanUnique(s: string, k: nat, ps: seq<Piece>)
    requires k <= |s| && Flatten(ps) == s[k..] && GreedyFrom(s, k, ps)
    ensures ps == Scan(s, k)
    decreases |ps|
  {
    if ps == [] {
      assert |s[k..]| == 0;
    } else {
      FirstPiece(s, k, ps);
      UniqueTail(s, k, Next(s, k), ps);
      ScanUnique(s, Next(s, k), ps[1..]);
      ScanStep(s, k, ps[0], ps[1..]);
      assert ps == [ps[0]] + ps[1..];
    }
  }

  /** The pieces after a first piece that ends at `e` stand for the text from `e`, and are
      greedy from there. */
  lemma UniqueTail(s: string, k: nat, e: nat, ps: seq<Piece>)
    requires k <= |s| && ps != [] && Flatten(ps) == s[k..] && GreedyFrom(s, k, ps)
    requires e == k + |PieceText(ps[0])| <= |s|
    ensures Flatten(ps[1..]) == s[e..] && GreedyFrom(s, e, ps[1..])
  {
    RestText(s, k, ps);
    GreedyFromTail(s, k, e, ps);
  }

  /** Dropping the first piece leaves a list that is greedy from where that piece ends. */
  lemma GreedyFromTail(s: string, k: nat, e: nat, ps: seq<Piece>)
    requires ps != [] && GreedyFrom(s, k, ps) && e == k + |PieceText(ps[0])|
    ensures GreedyFrom(s, e, ps[1..])
  {
  }

  lemma FirstPiece(s: string, k: nat, ps: seq<Piece>)
    requires k <= |s| && ps != [] && Flatten(ps) == s[k..] && GreedyFrom(s, k, ps)
    ensures k < |s| && ps[0] == Head(s, k) && k + |PieceText(ps[0])| == Next(s, k)
  {
    assert ps == [ps[0]] + ps[1..];
    FlattenCons(ps[0], ps[1..]);
    HeadUnique(s, k, ps[0], Flatten(ps[1..]));
  }

  lemma RestText(s: string, k: nat, ps: seq<Piece>)
    requires k <= |s| && ps != [] && Flatten(ps) == s[k..]
    requires k + |PieceText(ps[0])| <= |s|
    ensures Flatten(ps[1..]) == s[k + |PieceText(ps[0])|..]
  {
    assert ps == [ps[0]] + ps[1..];
    FlattenCons(ps[0], ps[1..]);
    assert s[k + |PieceText(ps[0])|..] == s[k..][|PieceText(ps[0])|..];
  }

  /** The scan from `k` is the piece taken at `k`, then the scan from where it goes on. */
  lemma ScanStep(s: string, k: nat, h: Piece, rest: seq<Piece>)
    requires k < |s| && h == Head(s, k) && rest == Scan(s, Next(s, k))
    ensures Scan(s, k) == [h] + rest
  {
  }

  /** A first piece that is greedy is the piece the scan takes. */
  lemma HeadUnique(s: string, k: nat, h: Piece, x: string)
    requires k <= |s| && s[k..] == PieceText(h) + x && Greedy(s, k, h)
    ensures k < |s| && h == Head(s, k) && |PieceText(h)| == Next(s, k) - k
  {
    match h
    case Plain(c) =>
      assert s[k..][0] == c;
    case Link(u) =>
      assert |u| > 0 && s[k..][..|u|] == u;
      assert s[k..k + |u|] == u;
      LinkEnd(s, k, u);
  }

  /** A complete match that starts where a match of the text starts, and that no URL
      character follows, ends where the greedy match ends. */
  lemma LinkEnd(s: string, k: nat, u: string)
    requires k + |u| <= |s| && s[k..k + |u|] == u && IsUrl(u) && UrlAt(s, k)
    requires k + |u| == |s| || !UrlChar(s[k + |u|])
    ensures MatchEnd(s, k) == k + |u|
  {
    var l := if OccursAt(u, "https://", 0) then 8 else 7;
    if OccursAt(u, "https://", 0) {
      assert s[k..k + 8] == u[0..8];
    } else {
      assert u[4] == ':' by { assert u[0..7][4] == ':'; }
      assert s[k + 4] == u[4];
      OccursAtChar(s, "https://", k, 4);
    }
    forall j | k + l <= j < k + |u| ensures UrlChar(s[j]) {
      assert s[j] == u[j - k];
    }
    SpanExact(s, k + l, k + |u|, UrlChar);
  }

  lemma OccursAtChar(s: string, sub: string, k: nat, j: nat)
    requires j < |sub| && k + j < |s|
    ensures OccursAt(s, sub, k) ==> s[k + j] == sub[j]
  {
    if OccursAt(s, sub, k) {
      assert s[k..k + |sub|][j] == s[k + j];
    }
  }

  lemma HeadGreedy(s: string, k: nat)
    requires k < |s|
    ensures Greedy(s, k, Head(s, k))
  {
    if UrlAt(s, k) {
      MatchIsUrl(s, k);
    }
  }

  /** The greedy match at `k`, cut out of the text, is a complete match on its own. */
  lemma MatchIsUrl(s: string, k: nat)
    requires UrlAt(s, k)
    ensures IsUrl(s[k..MatchEnd(s, k)])
  {
    var e := MatchEnd(s, k);
    var u := s[k..e];
    if OccursAt(s, "https://", k) {
      assert !OccursAt(s, "http://", k) by {
        assert s[k..k + 8][4] == 's' && s[k..k + 8][4] == s[k + 4];
      }
      assert u[0..8] == s[k..k + 8];
      assert OccursAt(u, "https://", 0) && UrlChar(u[8]);
      SpanSlice(s, k, k + 8, e, UrlChar);
    } else {
      assert u[0..7] == s[k..k + 7];
      assert OccursAt(u, "http://", 0) && UrlChar(u[7]);
      SpanSlice(s, k, k + 7, e, UrlChar);
    }
  }

  /** A maximal run ending at `e`, read inside the slice `s[k..e]`. */
  lemma {:induction false} SpanSlice(s: string, k: nat, i: nat, e: nat, p: char -> bool)
    requires k <= i <= e <= |s| && e == Span(s, i, p)
    ensures Span(s[k..e], i - k, p) == e - k
    decreases e - i
  {
    if i < e {
      SpanSlice(s, k, i + 1, e, p);
    }
  }

  /** Nothing is extracted exactly when no match starts anywhere in the text. */
  lemma {:induction false} ScanNoLinks(s: string, k: nat)
    requires k <= |s|
    ensures Links(Scan(s, k)) == [] <==> NoUrlFrom(s, k)
    decreases |s| - k
  {
    if k < |s| {
      if UrlAt(s, k) {
        var ps := [Link(s[k..MatchEnd(s, k)])] + Scan(s, MatchEnd(s, k));
        assert Scan(s, k) == ps;
        assert Links(ps) == [s[k..MatchEnd(s, k)]] + Links(ps[1..]);
      } else {
        ScanNoLinks(s, k + 1);
        var ps := [Plain(s[k])] + Scan(s, k + 1);
        assert Scan(s, k) == ps && ps[1..] == Scan(s, k + 1);
        assert Links(ps) == Links(Scan(s, k + 1));
        NoUrlFromStep(s, k);
      }
    }
  }

  predicate NoUrlFrom(s: string, k: nat) { forall j :: k <= j < |s| ==> !UrlAt(s, j) }

  lemma NoUrlFromStep(s: string, k: nat)
    requires k < |s| && !UrlAt(s, k)
    ensures NoUrlFrom(s, k) <==> NoUrlFrom(s, k + 1)
  {
  }

  lemma ExtractUrlsEmpty(s: string)
    ensures ExtractUrls(Str(s)) == [] <==> !ContainsUrl(s)
  {
    ScanNoLinks(s, 0);
    assert NoUrlFrom(s, 0) <==> !ContainsUrl(s);
  }

  /** Without links, tagging changes nothing. */
  lemma {:induction false} TaggedNoLinks(ps: seq<Piece>)
    requires Links(ps) == []
    ensures Tagged(ps) == Flatten(ps)
  {
    if ps != [] {
      TaggedNoLinks(ps[1..]);
    }
  }

  /** A text without URLs is returned as it is. */
  lemma ReplaceUrlsNoUrl(s: string)
    requires !ContainsUrl(s)
    ensures ReplaceUrls(Str(s)) == Str(s)
  {
    ExtractUrlsEmpty(s);
    TaggedNoLinks(Scan(s, 0));
    ScanFlatten(s, 0);
  }
}
