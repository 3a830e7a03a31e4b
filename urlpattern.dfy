/** The URL regular expression shared by the frontend and the backend:
    `http[s]?://` followed by one or more characters of the extended URL-safe class. */
module UrlPattern {
  import opened Text

  /** One character of the class `[a-zA-Z] | [0-9] | [$-_@.&+] | [!*\(\),]`. The alternative
      `%[0-9a-fA-F]{2}` adds nothing: `%` and the hex digits are in the class already, so a
      greedy run of the repetition is exactly a maximal run of these characters. */
  predicate UrlChar(c: char) {
    ('a' <= c <= 'z') || ('A' <= c <= 'Z') || ('0' <= c <= '9') || ('$' <= c <= '_')
    || c == '@' || c == '.' || c == '&' || c == '+'
    || c == '!' || c == '*' || c == '\\' || c == '(' || c == ')' || c == ','
  }

  /** A match of the pattern starts at index `i` of `s`. */
  predicate UrlAt(s: string, i: nat) {
    (OccursAt(s, "https://", i) && i + 8 < |s| && UrlChar(s[i + 8]))
    || (OccursAt(s, "http://", i) && i + 7 < |s| && UrlChar(s[i + 7]))
  }

  /** JavaScript `pattern.test(s)`: a match starts somewhere in `s`. */
  predicate ContainsUrl(s: string) {
    exists i: nat :: i < |s| && UrlAt(s, i)
  }

  /** Where the greedy match that starts at `i` ends. */
  function MatchEnd(s: string, i: nat): (e: nat)
    requires UrlAt(s, i)
    ensures i < e <= |s|
    ensures e == |s| || !UrlChar(s[e])
  {
    if OccursAt(s, "https://", i) then Span(s, i + 8, UrlChar) else Span(s, i + 7, UrlChar)
  }

  /** `u` is one complete match of the pattern, as `findall` returns it. */
  predicate IsUrl(u: string) {
    UrlAt(u, 0) && MatchEnd(u, 0) == |u|
  }
}
