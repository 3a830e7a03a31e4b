# Phishing e-mail detector: a verified model of its rule-based core

The system classifies an e-mail as phishing or benign and explains the verdict. This project
models the deterministic string and sequence logic around the classifier, in three parts.

- The **frontend analysis** (`App.js`):
  - the token classifier `getClassType`, an ordered cascade of pattern matchers;
  - the highlighter, which splits the text on whitespace and colours each piece by the weight of its class or word;
  - the top-ten influence ranking;
  - the suspicious-URL list with its top-three panel;
  - the verdict, confidence and suspicious-term derivation of `analyzeEmail`.
- The **backend preprocessing** (`api.py`):
  - the `\w+|[^\s\w]` tokenizer;
  - the seven-step category rewrite;
  - the URL extraction and tagging helpers with their non-string guards;
  - `to_lowercase`;
  - the per-row loop of `process_email_data`, which works in place on the frame;
  - the normalisation of the explanation weights to [-1, 1].
- The **URL featurizer** (`urlFeaturizer.py`): a class holding a URL, its domain and an error count, whose methods compute the URL's integer and boolean features.

How the code is modelled:

- Pure code is written as datatypes, functions and lemmas.
- State changes are imperative methods:
  - the frame is an `array<Row>` updated in place by `Frames.ProcessEmailData`;
  - `UrlFeaturizer` is a `class` whose methods update `url`, `domain` and `errCount`.
- Inputs the core cannot compute itself are parameters:
  - the regular-expression engine behind `re.sub`;
  - `urlparse` and `parse_qs`;
  - the patterns for time, date, percentage and e-mail;
  - the fresh `uuid4` identifiers.
- A JavaScript object or Python dict is a sequence of (word, weight) entries in enumeration order. `Normalise.DictOf` models `dict(pairs)`: the last value for a word wins, and a repeated word keeps its first place.
- `Array.prototype.sort` is stable. It is modelled by one stable insertion sort. `Sorting.SortDescUnique` shows that any other stable sort gives the same result.
- The feature dict of `UrlFeaturizer.run` is a map keyed by the enumeration `Featurizer.Feature`; `Featurizer.Name` gives the string key of each feature.
- The URL pattern is modelled exactly, as `http://` or `https://` followed by a maximal run of URL characters. `extract_urls_from_text` and `replace_urls_with_tag` are read off one left-to-right scan of the text.

## Model

| member | source | states |
|---|---|---|
| Classifier.FirstFrom | frontend/phishing-app/src/App.js:110-121 | the index of the first matcher at or after `k` that accepts; every matcher before it rejects; none iff all reject |
| Classifier.Classify | frontend/phishing-app/src/App.js:110-118 | the label accepts the token and every matcher ranked before it rejects; no label iff no matcher accepts |
| Classifier.ClassType | frontend/phishing-app/src/App.js:96-122 | the placeholder of the first accepting matcher, or the token unchanged when none accepts |
| Classifier.ClassifyPriority | frontend/phishing-app/src/App.js:110-118 | a token some matcher accepts is always classified, by that matcher or by an earlier one |
| Classifier.ClassifyFirstMatch | frontend/phishing-app/src/App.js:110-121 | when matcher `k` accepts and all earlier ones reject, the result is the placeholder of matcher `k` |
| Classifier.CurrencyMatch | frontend/phishing-app/src/App.js:98 | the currency pattern tested anywhere in the token; used by `Classifier.LowerNeverCurrencyCode` and `Classifier.DollarAmountIsCurrency` |
| Classifier.DayMatch | frontend/phishing-app/src/App.js:100 | the day pattern, space-delimited; used by `Highlight.SpaceFreeNeverDay` |
| Classifier.PhoneMatch | frontend/phishing-app/src/App.js:102 | the anchored phone pattern; characterised by `Classifier.PhoneBodyDigits` and `Classifier.PhoneTokenShape` |
| Classifier.NumberMatch | frontend/phishing-app/src/App.js:104 | a run of digits with an optional decimal part between word boundaries |
| Classifier.LowerNeverCurrencyCode | frontend/phishing-app/src/App.js:98 | on a lower-cased token the upper-case currency-code alternative never matches |
| Classifier.PhoneBodyDigits | frontend/phishing-app/src/App.js:102 | the phone pattern after its country code holds exactly ten digits |
| Classifier.PhoneTokenShape | frontend/phishing-app/src/App.js:102 | a phone token without whitespace has no country code, is 12 to 14 characters long and has ten digits |
| Classifier.DollarAmountIsCurrency | frontend/phishing-app/src/App.js:110 | `$50` is classified `<cur>`, whatever the abstract matchers say |
| Highlight.SplitWs | frontend/phishing-app/src/App.js:92 | `split(/\s+/)` yields at least one piece |
| Highlight.SplitWsSpaceFree | frontend/phishing-app/src/App.js:92 | no piece contains whitespace |
| Highlight.SplitWsConcat | frontend/phishing-app/src/App.js:92 | the pieces, concatenated in order, are the text with its whitespace removed |
| Highlight.SplitWsInnerNonEmpty | frontend/phishing-app/src/App.js:92 | only the first and the last piece can be empty |
| Highlight.SplitWsWhole | frontend/phishing-app/src/App.js:92 | a text without whitespace is one piece |
| Highlight.SplitWsCons | frontend/phishing-app/src/App.js:92 | a space-free word, a non-empty whitespace run, then a rest that does not start with whitespace: the word is the first piece and the rest is split on its own |
| Highlight.SplitWsUnique | frontend/phishing-app/src/App.js:92 | any function that satisfies the two equations above is the split, so they fix every cut |
| Highlight.SplitWsJoin | frontend/phishing-app/src/App.js:92 | non-empty space-free pieces joined with single spaces split back into themselves |
| Highlight.SpaceFreeNeverDay | frontend/phishing-app/src/App.js:100 | a piece without whitespace is never classified as a day, because the day pattern needs a space on both sides |
| Highlight.HighlightNeverDay | frontend/phishing-app/src/App.js:92-124 | a span shows `<day>` only when its lower-cased piece is `<day>` |
| Highlight.Weight | frontend/phishing-app/src/App.js:126 | the stored weight of the display text, or 0 when it has none |
| Highlight.Styled | frontend/phishing-app/src/App.js:127-140 | red iff the weight is positive and blue iff it is negative, with alpha `min(1, abs(w)/1.5)` in (0, 1]; padded iff the weight is non-zero |
| Highlight.SaturatedAlpha | frontend/phishing-app/src/App.js:130-132 | a weight of size 1.5 or more gives alpha 1 |
| Highlight.PaddedIffColoured | frontend/phishing-app/src/App.js:129-140 | a span is padded exactly when it is coloured |
| Highlight.MarkedFor | frontend/phishing-app/src/App.js:93-147 | the span of one piece; characterised by `Highlight.HighlightSpans` |
| Highlight.RenderTokens | frontend/phishing-app/src/App.js:93-147 | one span per piece, in order, each built from its own piece, weighted by the corrected lookup `Highlight.Weight` |
| Highlight.HighlightWords | frontend/phishing-app/src/App.js:91-149 | `highlightWords`; characterised by `Highlight.HighlightSpans` and `Highlight.HighlightNeverDay` |
| Highlight.HighlightSpans | frontend/phishing-app/src/App.js:91-149 | span `i` shows the class placeholder of lower-cased piece `i` (or that piece), carries the weight stored under what it shows, and is styled by that weight |
| Highlight.PropertyOf | frontend/phishing-app/src/App.js:126 | a property read finds an inherited member exactly when the key is absent from the map and is an inherited lower-case name |
| Highlight.WeightAsWritten | frontend/phishing-app/src/App.js:126 | the weight is non-numeric exactly on an inherited member |
| Highlight.StyledAsWritten | frontend/phishing-app/src/App.js:127-140 | a non-numeric weight gives a padded, uncoloured span; a numeric one gives the ordinary style |
| Highlight.AsWrittenAgrees | frontend/phishing-app/src/App.js:126 | away from inherited names, the lookup as written equals `Weight` and gives the same style |
| Highlight.ConstructorSpan | frontend/phishing-app/src/App.js:126-140 | the word `constructor` is padded but uncoloured, which no numeric weight yields; the own-entry lookup leaves it unpadded |
| Sorting.SortDesc | frontend/phishing-app/src/App.js:155 | the stable sort by decreasing key; characterised by the four lemmas below |
| Sorting.SortDescSorted | frontend/phishing-app/src/App.js:155 | the sort output is in non-increasing key order |
| Sorting.SortDescPermutation | frontend/phishing-app/src/App.js:155 | the sort output is a permutation of its input |
| Sorting.SortDescStable | frontend/phishing-app/src/App.js:155 | elements of equal key keep their input order |
| Sorting.SortDescUnique | frontend/phishing-app/src/App.js:155 | any sorted, stable permutation of the input equals the modelled sort |
| Ranking.TopWords | frontend/phishing-app/src/App.js:152-158 | `getTopWords`; characterised by `Ranking.TopWordsEntries`, `Ranking.TopWordsOrder` and `Ranking.TopWordsHeaviest` |
| Ranking.TopInfluentialWords | frontend/phishing-app/src/App.js:160 | `getTopWords` with the default count of 10 |
| Ranking.CountLongFilter | frontend/phishing-app/src/App.js:154 | the filter keeps as many entries as there are words longer than one character |
| Ranking.TopWordsEntries | frontend/phishing-app/src/App.js:152-158 | `min(count, number of long words)` entries, each an entry of the map with a word longer than one character |
| Ranking.TopWordsOrder | frontend/phishing-app/src/App.js:155-156 | non-increasing absolute weight; entries of equal absolute weight appear in map order |
| Ranking.TopWordsHeaviest | frontend/phishing-app/src/App.js:155-156 | the result is a sub-multiset of the long-word entries, and no entry left out outweighs one that is kept |
| UrlRisk.SuspiciousUrls | frontend/phishing-app/src/App.js:161-165 | the filter and sort of the URL predictions; characterised by `UrlRisk.SuspiciousUrlsSpec` |
| UrlRisk.SuspiciousUrlsSpec | frontend/phishing-app/src/App.js:161-165 | exactly the predictions with class 1, each as often as it occurs, most probable first, equal probabilities in input order |
| UrlRisk.UrlPanelOf | frontend/phishing-app/src/App.js:234-265 | an empty list shows nothing; otherwise the first `min(3, n)` URLs, plus a count `n - 3` only when `n > 3` |
| UrlRisk.OnlyFlaggedReported | frontend/phishing-app/src/App.js:163 | of a benign and a flagged prediction only the flagged one is listed |
| Verdict.AnalyzeEmail | frontend/phishing-app/src/App.js:315-333 | phishing iff the class is 1; confidence `p` or `1 - p`; the map passed on unchanged; URL predictions default to `[]`; the suspicious words are `Found` of the lower-cased text, that is exactly the words weighted above 0.5 that occur in it |
| Verdict.Found | frontend/phishing-app/src/App.js:320-322 | the `found` filter over the entries; characterised by `Verdict.FoundMembers` and `Verdict.FoundAppend` |
| Verdict.FoundMembers | frontend/phishing-app/src/App.js:320-322 | a word is suspicious iff some entry carries it with weight above 0.5 and it occurs in the lower-cased text |
| Verdict.FoundAppend | frontend/phishing-app/src/App.js:320-322 | suspicious words come in the order of the map's entries |
| Verdict.ConfidenceBounds | frontend/phishing-app/src/App.js:317-318 | the confidence lies in [0, 1] when `p` does, and is at least one half iff the verdict is at least as probable as the other class |
| Verdict.NoPredictionsNoUrls | frontend/phishing-app/src/App.js:161-165 | without URL predictions the suspicious-URL list is empty and the panel says so |
| Verdict.SubstringMatch | frontend/phishing-app/src/App.js:321 | matching is by substring: `count` is found in `account` |
| Verdict.PhishingScenario | frontend/phishing-app/src/App.js:315-333 | class 1 with probability 0.92: phishing, confidence 0.92, and `verify` is suspicious |
| Verdict.BenignScenario | frontend/phishing-app/src/App.js:318 | class 0 with probability 0.88 gives confidence 0.12 |
| Verdict.TermsPanelOf | frontend/phishing-app/src/App.js:206-231 | no terms iff the list is empty; otherwise a non-empty prefix, the first five or all of them |
| Tokenizer.TokensWellFormed | api.py:124-126 | every token is a run of word characters or one character that is neither whitespace nor a word character |
| Tokenizer.TokensConcat | api.py:124-126 | the tokens, concatenated in order, are the text without whitespace |
| Tokenizer.Tokenize | api.py:124-126 | `re.findall(r"\w+|[^\s\w]", text)`; characterised by the four equations of `Tokenizer.TokenizeUnique` |
| Tokenizer.TokenizeWordRun | api.py:125 | a word run followed by a non-word character or the end is one token, whatever precedes it |
| Tokenizer.TokenizeSkipSpace | api.py:125 | a whitespace character (any of Python's `\s`) yields no token |
| Tokenizer.TokenizeSymbol | api.py:125 | a character that is neither whitespace nor a word character is a token of its own |
| Tokenizer.TokenizeUnique | api.py:124-126 | any function that maps `""` to `[]` and satisfies the whitespace, symbol and word-run equations is the tokenizer, so the equations fix every cut |
| Tokenizer.TokenizeSingle | api.py:125 | a well-formed token tokenizes to itself |
| Tokenizer.TokenizeJoin | api.py:124-126 | well-formed tokens joined by single spaces tokenize back to the same list |
| Tokenizer.PlaceholderTokens | api.py:125 | the placeholder `<num>` becomes the three tokens `<`, `num`, `>` |
| Categories.Rewrite | api.py:56-67 | the steps applied left to right; characterised by `Categories.RewriteSteps`, `Categories.RewriteAppend` and `Categories.RewriteDependsOnSteps` |
| Categories.ReplaceDataCategories | api.py:56-67 | the result equals the pipeline of substitutions applied in order |
| Categories.RewriteSteps | api.py:59-65 | the pipeline is the composition currency, time, day, date, phone, percentage, number, each step applied to the previous output |
| Categories.RewriteAppend | api.py:59-65 | running two lists of steps one after the other is running their concatenation |
| Categories.RewriteDependsOnSteps | api.py:59-65 | the result depends only on the substitutions of the categories in the steps |
| Categories.NeverEmailOrUrl | api.py:59-65 | the e-mail and URL patterns never affect the rewrite |
| Categories.RewriteUnmatched | api.py:56-67 | a text that no step changes comes out unchanged |
| UrlPattern.UrlAt | api.py:44 | the URL pattern starts a match at the position; used by `UrlTags.MatchIsUrl` |
| UrlPattern.ContainsUrl | api.py:44 | the pattern matches somewhere in the text; characterised by `UrlTags.ExtractUrlsEmpty` |
| UrlTags.Scan | api.py:73-74 | the left-to-right scan of `findall` and `sub`; characterised by `UrlTags.ScanFlatten`, `UrlTags.ScanGreedy` and `UrlTags.ScanUnique`, so every cut is fixed |
| UrlTags.ExtractUrls | api.py:69-74 | a non-string gives `[]` |
| UrlTags.ReplaceUrls | api.py:76-81 | a non-string is returned unchanged; a string gives a string |
| UrlTags.ScanFlatten | api.py:73-74 | the scan partitions the text: its pieces, put back together, are the text |
| UrlTags.ScanLinksAreUrls | api.py:73-74 | every extracted URL is one complete match of the pattern |
| UrlTags.ScanGreedy | api.py:73-74 | every piece is leftmost and greedy where it stands: a plain character is one where no match starts, and a URL is a complete match that starts there and is not followed by a URL character |
| UrlTags.ScanUnique | api.py:73-74 | any list of pieces that puts the text back together and is leftmost and greedy in that sense is the scan |
| UrlTags.MatchIsUrl | api.py:44 | the greedy match, cut out of the text, is a complete match on its own |
| UrlTags.ScanNoLinks | api.py:73-74 | nothing is extracted after position `k` iff no match starts there or later |
| UrlTags.ExtractUrlsEmpty | api.py:69-74 | no URL is extracted from a string iff the pattern matches nowhere in it |
| UrlTags.TaggedNoLinks | api.py:80-81 | without matches, tagging is the identity on the pieces |
| UrlTags.ReplaceUrlsNoUrl | api.py:76-81 | a string without a URL is returned unchanged |
| Frames.LowerCell | api.py:51 | a string is lower-cased; any other value is kept |
| Frames.ToLowercase | api.py:47-54 | a new frame of the same length, with only the chosen column of each row lower-cased |
| Frames.ToLowercaseIdempotent | api.py:47-54 | lower-casing twice is lower-casing once |
| Frames.ToLowercaseKeepsOthers | api.py:48-52 | the other column and the identifiers are untouched |
| Frames.SetEmailIds | api.py:92 | each row gets its own identifier and nothing else changes |
| Frames.AppendUrls | api.py:101-102 | the URLs are appended in order |
| Frames.AllUrls | api.py:95-102 | the URLs of all rows, in row order; characterised by `Frames.AllUrlsStep` and `Frames.ProcessEmailData` |
| Frames.AllUrlsStep | api.py:95-102 | the URLs of one more row follow the URLs of the rows before it |
| Frames.RewriteBody | api.py:105-108 | a non-string body fails and leaves the row as it was; otherwise the stored body is the rewrite of the body the row had before, and the other rows are untouched |
| Frames.ProcessEmailData | api.py:84-120 | rows before the first non-string body are numbered and rewritten from their original body; later rows are only numbered; failure iff a non-string body exists; on success, the lower-cased frame and every URL of every row, in row order and then match order |
| Frames.TaggedBodyDiscarded | api.py:105-108 | with substitutions that change nothing, `http://x` survives in the stored body although URL tagging alone would replace it |
| Normalise.DictOf | api.py:145 | `dict(pairs)`; characterised by `Normalise.DictOfLookup` and `Normalise.DictOfDistinctWords` |
| Normalise.Normalised | api.py:145-149 | the dict divided by its greatest absolute weight; characterised by `Normalise.NormalisedErrors` and `Normalise.NormalisedWeights` |
| Normalise.PutLookup | api.py:145 | after an insert, the word maps to the new weight and every other word is unchanged |
| Normalise.PutDistinct | api.py:145 | an insert keeps the words distinct |
| Normalise.DictOfDistinctWords | api.py:145 | `dict(pairs)` holds each word once |
| Normalise.DictOfLookup | api.py:145 | each word maps to the weight of the last pair carrying it, and is absent iff no pair carries it |
| Normalise.DictOfDistinct | api.py:145 | pairs with distinct words are all kept |
| Normalise.MaxAbs | api.py:148 | an upper bound of the absolute weights that one weight attains |
| Normalise.Scale | api.py:149 | same length and words, each weight divided by the maximum |
| Normalise.NormalisedErrors | api.py:145-149 | it fails with the empty-sequence error iff there are no pairs, and with the division error iff every weight is zero |
| Normalise.NormalisedWeights | api.py:145-149 | the dict's words in order, every sign kept, every value in [-1, 1], and some value of size 1 |
| Normalise.ScaleWeights | api.py:148-149 | dividing by the largest absolute weight keeps signs, bounds every value by 1 and gives 1 in size at the maximum |
| Normalise.ScaledBounds | api.py:149 | one weight divided by a maximum at least its size keeps its sign and lies in [-1, 1] |
| Text.Lower | frontend/phishing-app/src/App.js:94 | `toLowerCase()`, character by character; characterised by `Text.LowerIdempotent`, `Text.LowerSlice` and `Text.LowerNoUpper` |
| Text.LowerSlice | frontend/phishing-app/src/App.js:94 | lower-casing commutes with slicing |
| Text.LowerNoUpper | frontend/phishing-app/src/App.js:94 | a text without upper-case letters is unchanged |
| Text.Split | urlFeaturizer.py:8 | `str.split(sep)`; characterised by `Text.SplitWhole`, `Text.SplitLeftmost` and `Text.SplitUnique`, which fix every cut, and by `Text.SplitJoin`, `Text.SplitPiecesFree`, `Text.SplitFirst` and `Text.LastStart` |
| Text.SplitJoin | urlFeaturizer.py:37 | joining the pieces of `str.split` with the separator restores the string |
| Text.SplitPiecesFree | urlFeaturizer.py:8 | no piece of `str.split` contains the separator |
| Text.SplitFirst | urlFeaturizer.py:8 | the first piece is a prefix, followed by the separator unless it is the whole string, and the separator occurs nowhere earlier: the cut is at the leftmost occurrence |
| Text.SplitWhole | urlFeaturizer.py:8 | a string without the separator is one piece |
| Text.SplitLeftmost | urlFeaturizer.py:8 | a piece, the separator and a rest, with no occurrence of the separator starting inside the piece: the piece comes first and the rest is split on its own |
| Text.SplitUnique | urlFeaturizer.py:8 | any function that satisfies the two equations above is the split |
| Text.LastStart | urlFeaturizer.py:8 | the last piece is a suffix that starts the string or follows an occurrence of the separator |
| Text.SplitCharCount | urlFeaturizer.py:37-38 | splitting at one character gives one more piece than it has occurrences |
| Text.CountOccurrences | urlFeaturizer.py:69-70 | `str.count(sub)`, one less than the number of pieces of `split(sub)`; characterised by `Text.CountSelfDisjoint` |
| Text.CountSelfDisjoint | urlFeaturizer.py:69-70 | for a substring that cannot overlap itself, the count is the number of positions where it occurs |
| Text.SelfDisjointByHead | urlFeaturizer.py:69 | a substring whose first character does not occur again cannot overlap itself |
| Text.CountCharOccurrences | urlFeaturizer.py:69-70 | `str.count` of one character counts all of its occurrences |
| Text.LowerIdempotent | api.py:51 | lower-casing is idempotent |
| Featurizer.UrlFeaturizer.constructor | urlFeaturizer.py:4-9 | a new featurizer set to `u`: the URL, its domain, no errors |
| Featurizer.UrlFeaturizer.SetUrl | urlFeaturizer.py:6-9 | the URL, its domain and an error count of 0 |
| Featurizer.DomainOf | urlFeaturizer.py:8 | the domain of `setUrl`; characterised by `Featurizer.DomainOfUrl` and `Featurizer.DomainShape` |
| Featurizer.DomainOfUrl | urlFeaturizer.py:8 | for a scheme and a host without `/`, and a path that is empty or starts with `/`, with no `//` after the scheme, the domain is the host; an empty host, as in `file:///etc/passwd`, gives an empty domain |
| Featurizer.DomainShape | urlFeaturizer.py:8 | the domain is a prefix of the last piece of `split('//')`, that piece holds no `//`, the domain holds no `/`, and it ends at a `/` or at the end |
| Featurizer.FirstPieceShape | urlFeaturizer.py:8 | the text before the first `/` is a prefix without `/`, followed by `/` or the end |
| Featurizer.UrlFeaturizer.NumDigits | urlFeaturizer.py:17-19 | at most the URL's length |
| Featurizer.NumDigitsCounts | urlFeaturizer.py:17-22 | every digit occurrence counts and nothing else; 0 iff there is no digit; equal to `urlLength` iff every character is a digit |
| Featurizer.UrlFeaturizer.UrlLength | urlFeaturizer.py:21-22 | `len(self.url)` |
| Featurizer.UrlFeaturizer.HasHttp | urlFeaturizer.py:53-54 | `'http:' in self.url`; see `Featurizer.SchemeTests` |
| Featurizer.UrlFeaturizer.HasHttps | urlFeaturizer.py:56-57 | `'https:' in self.url`; see `Featurizer.SchemeTests` |
| Featurizer.UrlFeaturizer.NumFragments | urlFeaturizer.py:36-38 | the number of `#` characters |
| Featurizer.UrlFeaturizer.NumParameters | urlFeaturizer.py:24-33 | a `ValueError` gives 0 and one more error; otherwise 0 for an empty query, else the parameter count, with the error count unchanged |
| Featurizer.UrlFeaturizer.NumSubDomains | urlFeaturizer.py:40-51 | a `ValueError` gives 0 and one more error; otherwise 0 for a missing or empty host name, else the labels beyond two |
| Featurizer.SubDomainsDots | urlFeaturizer.py:45-48 | a host name with `k` dots has `k - 1` subdomains when `k >= 2`, else 0 |
| Featurizer.SchemeTests | urlFeaturizer.py:53-57 | `https:` alone does not make `hasHttp` true, and `http:` alone does not make `hasHttps` true |
| Featurizer.BoolToInt | urlFeaturizer.py:65-66 | `int(b)` is 1 iff `b` is true, and 0 otherwise |
| Featurizer.NameInjective | urlFeaturizer.py:62-70 | the nine features have nine different string keys |
| Featurizer.PercentTwentyCount | urlFeaturizer.py:69 | `num_%20` counts every position where `%20` occurs |
| Featurizer.UrlFeaturizer.Run | urlFeaturizer.py:59-73 | exactly the nine keys; each feature equals its method's result; `%20` and `@` counted; the error count grows by 2 on a `ValueError`, else by 0; the URL and domain are unchanged |

## Left out

- `entropy` and the `entropy` key of `run`: floating-point logarithms. `Featurizer.UrlFeaturizer.Run` returns the other nine keys.
- The internals of `urlparse` and `parse_qs`. They are the function parameters `UrlParser` and `ParamCounter`; `Invalid` stands for `ValueError`.
- The regular-expression engine behind `re.sub` in `replace_data_categories`. It is the parameter `Substitution`, so the rewrite is proved for every engine.
- The time, date, percentage and e-mail patterns of the frontend cascade. They are the predicates of `Classifier.Oracles`.
- The currency pattern is reduced to its first characters: a symbol then a digit, or a digit then a code. What follows them never changes whether `test` succeeds.
- Character classes are approximated:
  - Python `\w`, `\d`, `str.isdigit` and `lower()`/`toLowerCase()` are modelled on ASCII;
  - JavaScript `\s` and Python `\s` are the exact white-space sets;
  - Unicode letters, digits and case mappings outside ASCII are not modelled.
- Strings are sequences of characters. JavaScript's UTF-16 code units and Python's code points are not distinguished.
- Weights are real numbers. Floating-point rounding, NaN and infinities are not modelled.
- JavaScript's enumeration order for integer-like keys is not modelled. The weight map keeps insertion order.
- Normalise.DictOf: no lemma states that a repeated word keeps the place of its first occurrence; its contents and the distinctness of its words are proved.
- The UI layer (React state, tabs, upload, charts), the `fetch` call, FastAPI, CORS, the joblib model, `predict_proba`, LIME, and the print logging: I/O and foreign code.
- The `uuid4` identifiers are the parameter `ids`.
- The backend reply has no `phishing_probability` or `url_predictions` fields. The frontend model takes the fields the frontend reads.
- `process_email_data` is modelled on frames with the default 0..n-1 index. The loop reads each row's `body` as it was when the iteration began, as `iterrows` returns a copy.
- Calling a featurizer method before `setUrl` raises `AttributeError`. The model has no object without a URL.
- `toFixed` percentage formatting.
- Highlight.RenderTokens and Highlight.HighlightWords use the corrected lookup `Highlight.Weight`, so for a piece such as `constructor` or `__proto__` that is absent from the map they give an unpadded span, where the code as written gives the padded, uncoloured span of `Highlight.ConstructorSpan` (see Findings).
- Featurizer.UrlFeaturizer.Run returns an unordered map: the insertion order of the dict that `run` builds, which fixes the column order of a frame made from it, is not modelled.

## Findings

| source | as written | input that shows it | evidently intended | confidence | as-written member | corrected member |
|---|---|---|---|---|---|---|
| frontend/phishing-app/src/App.js:126 | `wordList[displayText]` also finds members inherited from `Object.prototype`. A truthy non-number weight gives a span that is uncoloured but padded. | the word `constructor` in an e-mail whose weight map has no such key | a word absent from the map has weight 0: no colour and no padding | not executed | Highlight.ConstructorSpan | Highlight.Weight |
