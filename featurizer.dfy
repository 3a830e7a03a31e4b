/** `UrlFeaturizer`: an object holding one URL, its domain and a count of parse errors,
    whose methods derive the numeric features of the URL. `urlparse` and `parse_qs` are
    parameters of the methods that call them. */
module Featurizer {
  import opened Wrappers
  import opened Seqs
  import opened Text

  /** What `urlparse(url)` yields for the two features that use it: `ValueError`, or the
      query string and the host name (`None` when the URL has none). */
  datatype UrlParse = Invalid | Parsed(query: string, hostname: Option<string>)

  /** The URL parser, and the count of the parameters in a query string. */
  type UrlParser = string -> UrlParse
  type ParamCounter = string -> nat

  /** The domain of a URL: the last piece of splitting it at `//`, up to that piece's first `/`. */
  function DomainOf(u: string): string {
    Split(Last(Split(u, "//")), "/")[0]
  }

  /** The domain is the last piece of the URL split at `//` (the whole URL when there is no
      `//`) up to the first `/`: it starts where a piece without `//` starts, is a prefix of
      that piece, holds no `/`, and is followed by a `/` or by the end of the URL. Which
      piece is last is fixed by `Split` itself (see `DomainOfUrl`). */
  lemma DomainShape(u: string)
    ensures var d, j := DomainOf(u), LastStart(u, "//");
      && PieceStart(u, "//", j)
      && !IsInfix("//", u[j..])
      && d <= u[j..]
      && '/' !in d
      && (d == u[j..] || u[j + |d|] == '/')
  {
    var j := LastStart(u, "//");
    var pieces := Split(u, "//");
    SplitPiecesFree(u, "//");
    assert Last(pieces) in pieces;
    FirstPieceShape(u[j..]);
  }

  /** A scheme without `/`, then `//`, a host without `/` and a path that is empty or starts
      with `/`, with no further `//`: the domain is the host. With an empty host, as in
      `file:///etc/passwd`, the domain is empty. */
  lemma DomainOfUrl(scheme: string, host: string, path: string)
    requires '/' !in scheme && '/' !in host
    requires path == [] || path[0] == '/'
    requires !IsInfix("//", host + path)
    ensures DomainOf(scheme + "//" + host + path) == host
  {
    assert scheme + "//" + host + path == scheme + "//" + (host + path);
    AfterScheme(scheme, host + path);
    HostPiece(host, path);
  }

  lemma AfterScheme(scheme: string, rest: string)
    requires '/' !in scheme && !IsInfix("//", rest)
    ensures Last(Split(scheme + "//" + rest, "//")) == rest
  {
    forall j: nat | j < |scheme| ensures !OccursAt(scheme + "//" + rest, "//", j) {
      assert (scheme + "//" + rest)[j] == scheme[j];
    }
    SplitLeftmost(scheme, "//", rest);
    SplitWhole(rest, "//");
    LastOfCons(scheme, [rest]);
  }

  lemma HostPiece(host: string, path: string)
    requires '/' !in host && (path == [] || path[0] == '/')
    ensures Split(host + path, "/")[0] == host
  {
    var rest := host + path;
    if path == [] {
      assert rest == host;
      forall j: nat | j <= |host| ensures !OccursAt(host, "/", j) {
        if j < |host| { assert host[j..j + 1] == [host[j]]; }
      }
      SplitWhole(host, "/");
    } else {
      assert rest == host + "/" + path[1..];
      forall j: nat | j < |host| ensures !OccursAt(host + "/" + path[1..], "/", j) {
        assert (host + "/" + path[1..])[j] == host[j];
      }
      SplitLeftmost(host, "/", path[1..]);
    }
  }

  /** The text of `p` before its first `/`. */
  lemma FirstPieceShape(p: string)
    ensures var d := Split(p, "/")[0];
      d <= p && '/' !in d && (d == p || p[|d|] == '/')
  {
    var d := Split(p, "/")[0];
    SplitFirst(p, "/");
    SplitPiecesFree(p, "/");
    assert d in Split(p, "/");
    if '/' in d {
      var k :| 0 <= k < |d| && d[k] == '/';
      assert d[k..k + 1] == "/";
      assert OccursAt(d, "/", k);
    }
    if d != p {
      assert p[|d|..|d| + 1] == "/";
    }
  }

  /** The keys of the feature map (`entropy` is not modelled); `Name` gives the string key
      the dict uses. */
  datatype Feature = NumDigits | UrlLength | NumParams | HasHttp | HasHttps | NumFragments
                   | NumSubDomains | NumSpaces | NumAt

  function Name(f: Feature): string {
    match f
    case NumDigits => "numDigits" case UrlLength => "urlLength" case NumParams => "numParams"
    case HasHttp => "hasHttp" case HasHttps => "hasHttps" case NumFragments => "numFragments"
    case NumSubDomains => "numSubDomains" case NumSpaces => "num_%20" case NumAt => "num_@"
  }

  /** The nine features have nine different keys. */
  lemma NameInjective(f: Feature, g: Feature)
    ensures Name(f) == Name(g) <==> f == g
  {
  }

  const AllFeatures: set<Feature> :=
    {NumDigits, UrlLength, NumParams, HasHttp, HasHttps, NumFragments, NumSubDomains, NumSpaces, NumAt}

  /** `numParameters` on what `urlparse` gave: no query means no parameters. */
  function ParamsOf(p: UrlParse, paramCount: ParamCounter): nat
    requires p.Parsed?
  {
    if p.query == "" then 0 else paramCount(p.query)
  }

  /** The labels of a host name beyond the last two. */
  function SubDomains(h: string): nat {
    var parts := Split(h, ".");
    if |parts| <= 2 then 0 else |parts| - 2
  }

  /** A host name with `k` dots has `k + 1` labels, so `k - 1` subdomains once `k >= 2`. */
  lemma SubDomainsDots(h: string)
    ensures SubDomains(h) == if multiset(h)['.'] <= 1 then 0 else multiset(h)['.'] - 1
  {
    SplitCharCount(h, '.');
  }

  /** `numSubDomains` on what `urlparse` gave: a missing or empty host name has none. */
  function HostSubDomains(p: UrlParse): nat
    requires p.Parsed?
  {
    if p.hostname.None? || p.hostname.value == "" then 0 else SubDomains(p.hostname.value)
  }

  function BoolToInt(b: bool): (i: int)
    ensures i == 0 || i == 1
    ensures i == 1 <==> b
  {
    if b then 1 else 0
  }

  class UrlFeaturizer {
    var url: string
    var domain: string
    var errCount: nat

    /** `UrlFeaturizer()` followed by `setUrl(u)`: before `setUrl` the object has none of
        its fields. */
    constructor (u: string)
      ensures url == u && domain == DomainOf(u) && errCount == 0
    {
      url := u;
      domain := DomainOf(u);
      errCount := 0;
    }

    /** `setUrl`: a new URL, its domain, and no errors counted. */
    method SetUrl(u: string)
      modifies this
      ensures url == u && domain == DomainOf(u) && errCount == 0
    {
      url := u;
      domain := DomainOf(u);
      errCount := 0;
    }

    /** `numDigits`: the length of the list of the URL's digit characters. */
    function NumDigits(): (n: nat)
      reads this`url
      ensures n <= |url|
    {
      |Filter(url, IsDigit)|
    }

    /** The length of the URL. */
    function UrlLength(): nat
      reads this`url
    {
      |url|
    }

    /** `numFragments`: one fewer than the pieces of the URL split at `#`. */
    function NumFragments(): (n: nat)
      reads this`url
      ensures n == multiset(url)['#']
    {
      SplitCharCount(url, '#');
      |Split(url, "#")| - 1
    }

    predicate HasHttp()
      reads this`url
    {
      IsInfix("http:", url)
    }

    predicate HasHttps()
      reads this`url
    {
      IsInfix("https:", url)
    }

    /** `numParameters`. A `ValueError` from `urlparse` counts one error and gives 0. */
    method NumParameters(parse: UrlParser, paramCount: ParamCounter) returns (n: nat)
      modifies this
      ensures url == old(url) && domain == old(domain)
      ensures parse(url).Invalid? ==> n == 0 && errCount == old(errCount) + 1
      ensures parse(url).Parsed? ==> n == ParamsOf(parse(url), paramCount) && errCount == old(errCount)
    {
      var p := parse(url);
      if p.Invalid? {
        errCount := errCount + 1;
        return 0;
      }
      if p.query == "" {
        return 0;
      }
      return paramCount(p.query);
    }

    /** `numSubDomains`. A `ValueError` from `urlparse` counts one error and gives 0. */
    method NumSubDomains(parse: UrlParser) returns (n: nat)
      modifies this
      ensures url == old(url) && domain == old(domain)
      ensures parse(url).Invalid? ==> n == 0 && errCount == old(errCount) + 1
      ensures parse(url).Parsed? ==> n == HostSubDomains(parse(url)) && errCount == old(errCount)
    {
      var p := parse(url);
      if p.Invalid? {
        errCount := errCount + 1;
        return 0;
      }
      if p.hostname.None? || p.hostname.value == "" {
        return 0;
      }
      var parts := Split(p.hostname.value, ".");
      if |parts| <= 2 {
        return 0;
      }
      return |parts| - 2;
    }

    /** `run`: the feature map, built key by key. Each of the two parsing features counts
        its own `ValueError`, so an unparsable URL adds two errors. */
    method Run(parse: UrlParser, paramCount: ParamCounter) returns (data: map<Feature, int>)
      modifies this
      ensures url == old(url) && domain == old(domain)
      ensures errCount == old(errCount) + if parse(url).Invalid? then 2 else 0
      ensures data.Keys == AllFeatures
      ensures data[Feature.NumDigits] == NumDigits() && data[Feature.UrlLength] == |url|
      ensures data[Feature.NumParams] == if parse(url).Invalid? then 0 else ParamsOf(parse(url), paramCount)
      ensures data[Feature.HasHttp] == BoolToInt(HasHttp()) && data[Feature.HasHttps] == BoolToInt(HasHttps())
      ensures data[Feature.NumFragments] == multiset(url)['#']
      ensures data[Feature.NumSubDomains] == if parse(url).Invalid? then 0 else HostSubDomains(parse(url))
      ensures data[Feature.NumSpaces] == CountOccurrences(url, "%20")
      ensures data[Feature.NumAt] == multiset(url)['@']
    {
      var digits, length := NumDigits(), UrlLength();
      var params := NumParameters(parse, paramCount);
      var http, https, fragments := BoolToInt(HasHttp()), BoolToInt(HasHttps()), NumFragments();
      var subDomains := NumSubDomains(parse);
      CountCharOccurrences(url, '@');
      var spaces, ats := CountOccurrences(url, "%20"), CountOccurrences(url, "@");
      data := map[Feature.NumDigits := digits, Feature.UrlLength := length, Feature.NumParams := params,
                  Feature.HasHttp := http, Feature.HasHttps := https, Feature.NumFragments := fragments,
                  Feature.NumSubDomains := subDomains, Feature.NumSpaces := spaces, Feature.NumAt := ats];
    }
  }

  /** `numDigits` counts every digit of the URL and nothing else: it is 0 exactly when the
      URL has no digit and equals `urlLength` exactly when every character is one. */
  lemma NumDigitsCounts(f: UrlFeaturizer, c: char)
    ensures multiset(Filter(f.url, IsDigit))[c] == if IsDigit(c) then multiset(f.url)[c] else 0
    ensures f.NumDigits() == 0 <==> forall i :: 0 <= i < |f.url| ==> !IsDigit(f.url[i])
    ensures f.NumDigits() == f.UrlLength() <==> forall i :: 0 <= i < |f.url| ==> IsDigit(f.url[i])
  {
    FilterMultiset(f.url, IsDigit, c);
    FilterLength(f.url, IsDigit);
  }

  /** `num_%20` counts every position where `%20` occurs: the pattern cannot overlap
      itself, so `str.count` misses none. */
  lemma PercentTwentyCount(u: string)
    ensures CountOccurrences(u, "%20") == |Occurrences(u, "%20", 0)|
  {
    assert "%20"[1..] == "20";
    SelfDisjointByHead("%20");
    CountSelfDisjoint(u, "%20");
  }

  /** The scheme tests are substring tests: `https:` alone does not make `hasHttp` true,
      and `http:` alone does not make `hasHttps` true. */
  lemma SchemeTests(f: UrlFeaturizer)
    ensures f.url == "https://a" ==> f.HasHttps() && !f.HasHttp()
    ensures f.url == "http://a" ==> f.HasHttp() && !f.HasHttps()
  {
    var u := f.url;
    if u == "https://a" {
      assert OccursAt(u, "https:", 0);
      forall i: nat | i <= |u| ensures !OccursAt(u, "http:", i) {
        if i == 0 {
          Mismatch(u, "http:", 0, 4);
        } else if i < |u| {
          Mismatch(u, "http:", i, 0);
        }
      }
    }
    if u == "http://a" {
      assert OccursAt(u, "http:", 0);
      forall i: nat | i <= |u| ensures !OccursAt(u, "https:", i) {
        if i + 4 < |u| {
          Mismatch(u, "https:", i, 4);
        }
      }
    }
  }

  /** A pattern whose `k`-th character differs from the text's does not occur there. */
  lemma Mismatch(s: string, sub: string, i: nat, k: nat)
    requires k < |sub| && i + k < |s| && s[i + k] != sub[k]
    ensures !OccursAt(s, sub, i)
  {
    if i + |sub| <= |s| {
      assert s[i..i + |sub|][k] == s[i + k];
    }
  }
}
