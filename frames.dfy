/** The data frame of e-mails and the two operations on it: `to_lowercase`, which returns a
    lower-cased copy of one text column, and `process_email_data`, which numbers the rows,
    collects their URLs and rewrites their bodies in place. */
module Frames {
  import opened Wrappers
  import opened Text
  import opened Categories
  import opened UrlPattern
  import opened UrlTags

  datatype Column = Subject | Body

  /** One row of the frame: its two text columns and the `email_id` column. */
  datatype Row = Row(subject: Cell, body: Cell, emailId: Cell)

  function Get(r: Row, c: Column): Cell {
    match c
    case Subject => r.subject
    case Body => r.body
  }

  function Put(r: Row, c: Column, v: Cell): (r': Row)
    ensures Get(r', c) == v
    ensures r'.emailId == r.emailId
    ensures forall d: Column :: d != c ==> Get(r', d) == Get(r, d)
  {
    match c
    case Subject => r.(subject := v)
    case Body => r.(body := v)
  }

  /** A cell lower-cased when it holds a string, and left as it is otherwise. */
  function LowerCell(x: Cell): (r: Cell)
    ensures x.NonStr? ==> r == x
    ensures x.Str? ==> r == Str(Lower(x.s))
  {
    match x
    case Str(s) => Str(Lower(s))
    case NonStr(_) => x
  }

  /** `to_lowercase(df, text_column)`: a new frame; the argument is a value and stays as it is. */
  function ToLowercase(df: seq<Row>, column: Column): (r: seq<Row>)
    ensures |r| == |df|
    ensures forall i :: 0 <= i < |df| ==> r[i] == Put(df[i], column, LowerCell(Get(df[i], column)))
  {
    seq(|df|, i requires 0 <= i < |df| => Put(df[i], column, LowerCell(Get(df[i], column))))
  }

  /** Lower-casing twice is lower-casing once, and the other column and the identifiers are
      never touched. */
  lemma ToLowercaseIdempotent(df: seq<Row>, column: Column)
    ensures ToLowercase(ToLowercase(df, column), column) == ToLowercase(df, column)
  {
    forall i | 0 <= i < |df|
      ensures ToLowercase(ToLowercase(df, column), column)[i] == ToLowercase(df, column)[i]
    {
      var x := Get(df[i], column);
      if x.Str? {
        LowerIdempotent(x.s);
      }
    }
  }

  lemma ToLowercaseKeepsOthers(df: seq<Row>, column: Column, other: Column, i: nat)
    requires other != column && i < |df|
    ensures Get(ToLowercase(df, column)[i], other) == Get(df[i], other)
    ensures ToLowercase(df, column)[i].emailId == df[i].emailId
  {
  }

  // ---------------------------------------------------------------- process_email_data

  /** The index of the first row whose body is not a string, or the number of rows. */
  function FirstNonString(rows: seq<Row>): (n: nat)
    ensures n <= |rows|
    ensures forall i :: 0 <= i < n ==> rows[i].body.Str?
    ensures n < |rows| ==> rows[n].body.NonStr?
  {
    if rows == [] || rows[0].body.NonStr? then 0 else 1 + FirstNonString(rows[1..])
  }

  /** Every URL of every body, row by row, in the order of the matches. */
  function AllUrls(rows: seq<Row>): seq<string> {
    if rows == [] then [] else AllUrls(rows[..|rows| - 1]) + ExtractUrls(rows[|rows| - 1].body)
  }

  /** `re.sub` applied to a value that is not a string raises `TypeError`. */
  datatype ProcessError = TypeError

  /** A row after the loop has handled it: its identifier set, its body rewritten from the
      body it had before the loop. */
  function Processed(r: Row, id: string, sub: Substitution): Row
    requires r.body.Str?
  {
    Row(r.subject, Str(Rewrite(sub, Pipeline, r.body.s)), Str(id))
  }

  /** Gives every row a fresh identifier, drawn from `ids` in row order. */
  method SetEmailIds(df: array<Row>, ids: seq<string>)
    requires |ids| == df.Length
    modifies df
    ensures forall i :: 0 <= i < df.Length ==> df[i] == old(df[i]).(emailId := Str(ids[i]))
  {
    var k := 0;
    while k < df.Length
      invariant 0 <= k <= df.Length
      invariant forall i :: 0 <= i < k ==> df[i] == old(df[i]).(emailId := Str(ids[i]))
      invariant forall i :: k <= i < df.Length ==> df[i] == old(df[i])
    {
      df[k] := df[k].(emailId := Str(ids[k]));
      k := k + 1;
    }
  }

  /** Appends the URLs of one row, in order, to the collected list. */
  method AppendUrls(urlData: seq<string>, urls: seq<string>) returns (out: seq<string>)
    ensures out == urlData + urls
  {
    out := urlData;
    var j := 0;
    while j < |urls|
      invariant 0 <= j <= |urls|
      invariant out == urlData + urls[..j]
    {
      out := out + [urls[j]];
      j := j + 1;
    }
    assert urls[..j] == urls;
  }

  lemma AllUrlsStep(rows: seq<Row>, idx: nat)
    requires idx < |rows|
    ensures AllUrls(rows[..idx + 1]) == AllUrls(rows[..idx]) + ExtractUrls(rows[idx].body)
  {
    assert rows[..idx + 1][..idx] == rows[..idx];
  }

  /** The two writes of the loop body to row `idx`: the URL-tagged body, then the rewrite of
      the body the row had when the iteration began. `failed` reports the `TypeError`. */
  method RewriteBody(df: array<Row>, idx: nat, sub: Substitution) returns (failed: bool)
    requires idx < df.Length
    modifies df
    ensures failed <==> old(df[idx]).body.NonStr?
    ensures failed ==> df[idx] == old(df[idx])
    ensures !failed ==> df[idx] == old(df[idx]).(body := Str(Rewrite(sub, Pipeline, old(df[idx]).body.s)))
    ensures forall i :: 0 <= i < df.Length && i != idx ==> df[i] == old(df[i])
  {
    var row := df[idx];
    var body := row.body;
    df[idx] := row.(body := ReplaceUrls(body));
    if row.body.NonStr? {
      return true;
    }
    var cleaned := ReplaceDataCategories(sub, row.body.s);
    df[idx] := df[idx].(body := Str(cleaned));
    return false;
  }

  /** `process_email_data(df)`. The identifiers `ids` stand for the fresh `uuid4` strings.
      The frame is changed in place; on success the lower-cased copy and the list of URLs are
      returned. A body that is not a string stops the loop with `TypeError`, leaving the rows
      before it rewritten and every row numbered. */
  method ProcessEmailData(df: array<Row>, ids: seq<string>, sub: Substitution)
    returns (r: Result<(seq<Row>, seq<string>), ProcessError>)
    requires |ids| == df.Length
    modifies df
    ensures var n := FirstNonString(old(df[..]));
      && (forall i :: 0 <= i < n ==> df[i] == Processed(old(df[i]), ids[i], sub))
      && (forall i :: n <= i < df.Length ==> df[i] == old(df[i]).(emailId := Str(ids[i])))
      && (r.Failure? <==> n < df.Length)
    ensures r.Success? ==> r.value == (ToLowercase(df[..], Body), AllUrls(old(df[..])))
  {
    ghost var rows := df[..];
    ghost var n := FirstNonString(rows);
    SetEmailIds(df, ids);
    var urlData: seq<string> := [];
    var idx := 0;
    while idx < df.Length
      invariant 0 <= idx <= n
      invariant forall i :: 0 <= i < idx ==> df[i] == Processed(rows[i], ids[i], sub)
      invariant forall i :: idx <= i < df.Length ==> df[i] == rows[i].(emailId := Str(ids[i]))
      invariant urlData == AllUrls(rows[..idx])
    {
      var urls := ExtractUrls(df[idx].body);
      urlData := AppendUrls(urlData, urls);
      AllUrlsStep(rows, idx);
      var failed := RewriteBody(df, idx, sub);
      if failed {
        return Failure(TypeError);
      }
      assert idx != n by { assert rows[idx].body.Str?; }
      idx := idx + 1;
    }
    assert rows[..df.Length] == rows;
    return Success((ToLowercase(df[..], Body), urlData));
  }

  /** The URL-tagged body written first is overwritten from the untagged body: with
      substitutions that change nothing, a URL survives in the stored body although
      `replace_urls_with_tag` alone would have replaced it. */
  lemma TaggedBodyDiscarded()
    ensures var sub: Substitution := (c, repl, t) => t;
            Processed(Row(NonStr(0), Str("http://x"), NonStr(0)), "id", sub).body == Str("http://x")
            && ReplaceUrls(Str("http://x")) == Str(UrlTag)
  {
    var sub: Substitution := (c, repl, t) => t;
    RewriteUnmatched(sub, Pipeline, "http://x");
    ReplaceUrlsTagsUrl();
  }

  lemma ReplaceUrlsTagsUrl()
    ensures ReplaceUrls(Str("http://x")) == Str(UrlTag)
  {
    var s := "http://x";
    assert !OccursAt(s, "https://", 0) by { assert s[0..8][4] != "https://"[4]; }
    assert OccursAt(s, "http://", 0) && UrlAt(s, 0);
    assert MatchEnd(s, 0) == 8;
    assert s[0..8] == s;
    assert Head(s, 0) == Link(s) && Next(s, 0) == 8;
    assert Scan(s, 0) == [Link(s)];
    assert [Link(s)][1..] == [];
  }
}
