/** The frontend's token classifier (`getClassType`): an ordered cascade of pattern
    matchers, the first that accepts the token naming its class. */
module Classifier {
  import opened Wrappers
  import opened Seqs
  import opened Text
  import opened UrlPattern

  datatype Label = Cur | Time | Day | Date | Phone | Perc | Email | Url | Num

  /** The order in which the matchers are tried. */
  const Cascade: seq<Label> := [Cur, Time, Day, Date, Phone, Perc, Email, Url, Num]

  /** The position of a label in the cascade. */
  function Rank(l: Label): (k: nat)
    ensures k < |Cascade| && Cascade[k] == l
  {
    match l
    case Cur => 0 case Time => 1 case Day => 2 case Date => 3 case Phone => 4
    case Perc => 5 case Email => 6 case Url => 7 case Num => 8
  }

  /** The text shown for, and looked up for, a classified token. */
  function Placeholder(l: Label): string {
    match l
    case Cur => "<cur>" case Time => "<time>" case Day => "<day>" case Date => "<date>"
    case Phone => "<phone>" case Perc => "<perc>" case Email => "<email>" case Url => "<url>"
    case Num => "<num>"
  }

  /** The time, date, percentage and e-mail patterns are not modelled character by
      character; classification takes them as given predicates. */
  datatype Oracles = Oracles(
    time: string -> bool, date: string -> bool, perc: string -> bool, email: string -> bool)

  // ---------------------------------------------------------------- currency
  // `[$€£¥]\s*\d+(?:[.,]\d+)?|\d+(?:[.,]\d+)?\s*(?:USD|EUR|GBP|JPY|CAD|AUD|CHF)`, tested
  // anywhere in the token. A substring matches the first alternative exactly when a symbol is
  // followed, after optional white space, by a digit (the rest of it is optional), and the
  // second exactly when a digit is followed, after optional white space, by a code.

  predicate CurrencySymbol(c: char) {
    c == '$' || c == '\U{20AC}' || c == '\U{00A3}' || c == '\U{00A5}'
  }

  /** Every character strictly between `i` and `j` is white space. */
  predicate SpacesBetween(s: string, i: nat, j: nat) {
    forall k :: i < k < j && k < |s| ==> IsJsSpace(s[k])
  }

  predicate SymbolThenNumberAt(s: string, i: nat, j: nat) {
    i < j < |s| && CurrencySymbol(s[i]) && SpacesBetween(s, i, j) && IsDigit(s[j])
  }

  const CurrencyCodes: seq<string> := ["USD", "EUR", "GBP", "JPY", "CAD", "AUD", "CHF"]

  predicate NumberThenCodeAt(s: string, d: nat, l: nat) {
    d < l && l + 3 <= |s| && IsDigit(s[d]) && SpacesBetween(s, d, l) && s[l..l + 3] in CurrencyCodes
  }

  predicate SymbolThenNumber(s: string) {
    exists i: nat, j: nat | i < j < |s| :: SymbolThenNumberAt(s, i, j)
  }

  predicate NumberThenCode(s: string) {
    exists d: nat, l: nat | d < l < |s| :: NumberThenCodeAt(s, d, l)
  }

  predicate CurrencyMatch(s: string) { SymbolThenNumber(s) || NumberThenCode(s) }

  // ---------------------------------------------------------------- day
  // `/ (sun|mon|tue(s)?|wed(nesday)?|thu(r(s)?)?|fri)(day|\.)? /i`: a day name between two
  // literal spaces, in any letter case.

  const DayStems: seq<string> := ["sun", "mon", "tue", "tues", "wed", "wednesday", "thu", "thur", "thurs", "fri"]

  const DaySuffixes: seq<string> := ["", "day", "."]

  predicate DayWord(w: string) {
    exists a, b :: 0 <= a < |DayStems| && 0 <= b < |DaySuffixes| && w == DayStems[a] + DaySuffixes[b]
  }

  predicate DayAt(s: string, i: nat, j: nat) {
    i < j < |s| && s[i] == ' ' && s[j] == ' ' && DayWord(Lower(s[i + 1..j]))
  }

  predicate DayMatch(s: string) { exists i: nat, j: nat | i < j < |s| :: DayAt(s, i, j) }

  // ---------------------------------------------------------------- phone
  // `^(\+\d{1,2}\s)?\(?\d{3}\)?[\s.-]\d{3}[\s.-]\d{4}$`: anchored at both ends.

  predicate PhoneSep(c: char) { IsJsSpace(c) || c == '.' || c == '-' }

  /** `n` digits start at index `i`. */
  predicate DigitsAt(s: string, i: nat, n: nat) {
    i + n <= |s| && forall k :: i <= k < i + n ==> IsDigit(s[k])
  }

  /** The body of a US phone number at the end of the token: three digits, optionally in
      parentheses, a separator, three digits, a separator and four digits. An opening parenthesis cannot be skipped (a digit
      must follow), nor can a closing one (a separator must follow), so `b` is determined. */
  predicate PhoneBody(t: string) {
    var a := if |t| > 0 && t[0] == '(' then 1 else 0;
    DigitsAt(t, a, 3)
    && var b := if a + 3 < |t| && t[a + 3] == ')' then a + 4 else a + 3;
    b + 9 == |t| && PhoneSep(t[b]) && DigitsAt(t, b + 1, 3) && PhoneSep(t[b + 4]) && DigitsAt(t, b + 5, 4)
  }

  /** The whole token, with an optional country code `+d ` or `+dd `. */
  predicate PhoneMatch(t: string) {
    PhoneBody(t)
    || (|t| >= 3 && t[0] == '+' && IsDigit(t[1]) && IsJsSpace(t[2]) && PhoneBody(t[3..]))
    || (|t| >= 4 && t[0] == '+' && IsDigit(t[1]) && IsDigit(t[2]) && IsJsSpace(t[3]) && PhoneBody(t[4..]))
  }

  // ---------------------------------------------------------------- number
  // `\b\d+(?:[.,]\d+)?\b`, tested anywhere: some maximal run of digits has a non-word
  // character (or an end of the token) on both sides. The optional fraction never decides,
  // because `.` and `,` are themselves non-word characters.

  predicate DigitRunAt(s: string, i: nat, j: nat) {
    i < j <= |s| && (forall k :: i <= k < j ==> IsDigit(s[k]))
    && (i == 0 || !IsWordChar(s[i - 1])) && (j == |s| || !IsWordChar(s[j]))
  }

  predicate NumberMatch(s: string) { exists i: nat, j: nat | i < j <= |s| :: DigitRunAt(s, i, j) }

  // ---------------------------------------------------------------- the cascade

  predicate Accepts(o: Oracles, l: Label, s: string) {
    match l
    case Cur => CurrencyMatch(s)
    case Time => o.time(s)
    case Day => DayMatch(s)
    case Date => o.date(s)
    case Phone => PhoneMatch(s)
    case Perc => o.perc(s)
    case Email => o.email(s)
    case Url => ContainsUrl(s)
    case Num => NumberMatch(s)
  }

  /** The index of the first matcher at or after `k` that accepts `s`. */
  function FirstFrom(o: Oracles, s: string, k: nat): (r: Option<nat>)
    requires k <= |Cascade|
    ensures r.Some? ==> k <= r.value < |Cascade| && Accepts(o, Cascade[r.value], s)
    ensures r.Some? ==> forall j :: k <= j < r.value ==> !Accepts(o, Cascade[j], s)
    ensures r.None? ==> forall j :: k <= j < |Cascade| ==> !Accepts(o, Cascade[j], s)
    decreases |Cascade| - k
  {
    if k == |Cascade| then None
    else if Accepts(o, Cascade[k], s) then Some(k)
    else FirstFrom(o, s, k + 1)
  }

  /** The class of a token: the first accepting matcher, or none. */
  function Classify(o: Oracles, s: string): (r: Option<Label>)
    ensures r.Some? ==> Accepts(o, r.value, s)
    ensures r.Some? ==> forall j :: 0 <= j < Rank(r.value) ==> !Accepts(o, Cascade[j], s)
    ensures r.None? <==> forall l :: !Accepts(o, l, s)
  {
    match FirstFrom(o, s, 0)
    case None => None
    case Some(k) => Some(Cascade[k])
  }

  /** `getClassType`: the placeholder of the class, or the token itself. */
  function ClassType(o: Oracles, s: string): (r: string)
    ensures Classify(o, s).Some? ==> r == Placeholder(Classify(o, s).value)
    ensures Classify(o, s).None? ==> r == s
  {
    match Classify(o, s)
    case None => s
    case Some(l) => Placeholder(l)
  }

  /** Priority: a token that a matcher accepts is classified by that matcher or by one
      tried before it; in particular it is never left unclassified. */
  lemma ClassifyPriority(o: Oracles, s: string, l: Label)
    requires Accepts(o, l, s)
    ensures Classify(o, s).Some? && Rank(Classify(o, s).value) <= Rank(l)
  {
  }

  /** The first matcher that accepts decides; earlier rejections are required. */
  lemma ClassifyFirstMatch(o: Oracles, s: string, k: nat)
    requires k < |Cascade| && Accepts(o, Cascade[k], s)
    requires forall j :: 0 <= j < k ==> !Accepts(o, Cascade[j], s)
    ensures ClassType(o, s) == Placeholder(Cascade[k])
  {
    ClassifyPriority(o, s, Cascade[k]);
  }

  /** The second currency alternative needs an upper-case code, and a lower-cased token has
      no upper-case letter, so on lower-cased tokens only the symbol alternative can fire. */
  lemma LowerNeverCurrencyCode(s: string)
    ensures !NumberThenCode(Lower(s))
  {
    var t := Lower(s);
    forall d: nat, l: nat | d < l < |t| ensures !NumberThenCodeAt(t, d, l) {
      if l + 3 <= |t| {
        assert t[l..l + 3][0] == t[l];
        assert !IsUpper(t[l]);
      }
    }
  }

  /** The number of digits in `t[i..j]`. */
  function DigitsIn(t: string, i: nat, j: nat): nat
    requires i <= j <= |t|
    decreases j - i
  {
    if i == j then 0 else (if IsDigit(t[j - 1]) then 1 else 0) + DigitsIn(t, i, j - 1)
  }

  lemma {:induction false} DigitsInSplit(t: string, i: nat, j: nat, k: nat)
    requires i <= j <= k <= |t|
    ensures DigitsIn(t, i, k) == DigitsIn(t, i, j) + DigitsIn(t, j, k)
    decreases k - j
  {
    if j < k {
      DigitsInSplit(t, i, j, k - 1);
    }
  }

  lemma {:induction false} DigitsInAll(t: string, i: nat, n: nat)
    requires DigitsAt(t, i, n)
    ensures DigitsIn(t, i, i + n) == n
  {
    if n > 0 {
      DigitsInAll(t, i, n - 1);
    }
  }

  lemma DigitsInNone(t: string, i: nat, j: nat)
    requires i <= j <= i + 1 && j <= |t|
    requires forall k :: i <= k < j ==> !IsDigit(t[k])
    ensures DigitsIn(t, i, j) == 0
  {
  }

  /** Counting digits by position agrees with filtering them out. */
  lemma {:induction false} DigitsInFilter(t: string, j: nat)
    requires j <= |t|
    ensures DigitsIn(t, 0, j) == |Filter(t[..j], IsDigit)|
  {
    if j > 0 {
      DigitsInFilter(t, j - 1);
      assert t[..j] == t[..j - 1] + [t[j - 1]];
      FilterAppend(t[..j - 1], [t[j - 1]], IsDigit);
    }
  }

  /** The part of a phone number after the country code carries exactly ten digits. */
  lemma PhoneBodyDigits(t: string)
    requires PhoneBody(t)
    ensures |Filter(t, IsDigit)| == 10
  {
    var a := if |t| > 0 && t[0] == '(' then 1 else 0;
    var b := if a + 3 < |t| && t[a + 3] == ')' then a + 4 else a + 3;
    assert DigitsAt(t, a, 3) && DigitsAt(t, b + 1, 3) && DigitsAt(t, b + 5, 4);
    assert !IsDigit(t[b]) && !IsDigit(t[b + 4]) && b + 9 == |t|;
    assert forall k :: 0 <= k < a ==> !IsDigit(t[k]);
    assert forall k :: a + 3 <= k < b ==> !IsDigit(t[k]);
    SegmentDigits(t, a, b);
    DigitsInFilter(t, |t|);
    assert t[..|t|] == t;
  }

  lemma SegmentDigits(t: string, a: nat, b: nat)
    requires a <= 1 && a + 3 <= b <= a + 4 && b + 9 == |t|
    requires DigitsAt(t, a, 3) && DigitsAt(t, b + 1, 3) && DigitsAt(t, b + 5, 4)
    requires !IsDigit(t[b]) && !IsDigit(t[b + 4])
    requires forall k :: 0 <= k < a ==> !IsDigit(t[k])
    requires forall k :: a + 3 <= k < b ==> !IsDigit(t[k])
    ensures DigitsIn(t, 0, |t|) == 10
  {
    DigitsInNone(t, 0, a);
    DigitsInAll(t, a, 3);
    DigitsInSplit(t, 0, a, a + 3);
    assert DigitsIn(t, 0, a + 3) == 3;
    DigitsInNone(t, a + 3, b);
    DigitsInSplit(t, 0, a + 3, b);
    assert DigitsIn(t, 0, b) == 3;
    DigitsInNone(t, b, b + 1);
    DigitsInSplit(t, 0, b, b + 1);
    assert DigitsIn(t, 0, b + 1) == 3;
    DigitsInAll(t, b + 1, 3);
    DigitsInSplit(t, 0, b + 1, b + 4);
    assert DigitsIn(t, 0, b + 4) == 6;
    DigitsInNone(t, b + 4, b + 5);
    DigitsInSplit(t, 0, b + 4, b + 5);
    assert DigitsIn(t, 0, b + 5) == 6;
    DigitsInAll(t, b + 5, 4);
    DigitsInSplit(t, 0, b + 5, b + 9);
  }

  /** A phone-number token without white space has no country code, is 12 to 14 characters
      long and carries exactly ten digits. */
  lemma PhoneTokenShape(t: string)
    requires PhoneMatch(t)
    requires forall k :: 0 <= k < |t| ==> !IsJsSpace(t[k])
    ensures PhoneBody(t) && 12 <= |t| <= 14
    ensures |Filter(t, IsDigit)| == 10
  {
    assert PhoneBody(t) by {
      if |t| >= 3 { assert !IsJsSpace(t[2]); }
      if |t| >= 4 { assert !IsJsSpace(t[3]); }
    }
    PhoneBodyDigits(t);
  }

  /** `"$50"` is a currency amount whatever the other matchers say. */
  lemma DollarAmountIsCurrency(o: Oracles)
    ensures ClassType(o, "$50") == "<cur>"
  {
    assert SymbolThenNumberAt("$50", 0, 1);
    ClassifyFirstMatch(o, "$50", 0);
  }
}
