/** `analyzeEmail`: the verdict, the confidence, the list of suspicious words and the
    defaulted URL predictions derived from the backend's prediction, and the summary panel
    that lists the first five suspicious words. */
module Verdict {
  import opened Wrappers
  import opened Seqs
  import opened Text
  import opened WeightMap
  import opened UrlRisk

  /** The fields of the backend's JSON reply that the component reads. */
  datatype Prediction = Prediction(
    predictedClass: int,
    phishingProbability: real,
    list: Entries,
    urlPredictions: Option<seq<UrlPrediction>>)

  datatype AnalysisResult = AnalysisResult(
    isPhishing: bool,
    suspicious: seq<string>,
    confidence: real,
    wordWeightMap: Entries,
    urlPredictions: seq<UrlPrediction>)

  /** The words of the map, in entry order, whose weight exceeds 0.5 and which occur in the
      lower-cased text. */
  function Found(lower: string, list: Entries): seq<string> {
    if list == [] then []
    else
      (if list[0].weight > 0.5 && IsInfix(list[0].word, lower) then [list[0].word] else [])
      + Found(lower, list[1..])
  }

  /** A word is found exactly when some entry carries it with a weight above 0.5 and it
      occurs somewhere in the lower-cased text. */
  lemma {:induction false} FoundMembers(lower: string, list: Entries)
    ensures forall w :: w in Found(lower, list) <==>
              (exists i :: 0 <= i < |list| && list[i].word == w && list[i].weight > 0.5)
              && IsInfix(w, lower)
  {
    if list != [] {
      FoundMembers(lower, list[1..]);
      assert forall i :: 1 <= i < |list| ==> list[i] == list[1..][i - 1];
    }
  }

  /** The words come in the order of the map's entries. */
  lemma {:induction false} FoundAppend(lower: string, a: Entries, b: Entries)
    ensures Found(lower, a + b) == Found(lower, a) + Found(lower, b)
  {
    if a == [] {
      assert a + b == b;
    } else {
      assert (a + b)[0] == a[0];
      assert (a + b)[1..] == a[1..] + b;
      FoundAppend(lower, a[1..], b);
    }
  }

  function AnalyzeEmail(emailText: string, p: Prediction): (r: AnalysisResult)
    ensures r.isPhishing <==> p.predictedClass == 1
    ensures r.confidence == if r.isPhishing then p.phishingProbability else 1.0 - p.phishingProbability
    ensures r.wordWeightMap == p.list
    ensures p.urlPredictions.None? ==> r.urlPredictions == []
    ensures p.urlPredictions.Some? ==> r.urlPredictions == p.urlPredictions.value
    ensures r.suspicious == Found(Lower(emailText), p.list)
    ensures forall w :: w in r.suspicious <==>
              (exists i :: 0 <= i < |p.list| && p.list[i].word == w && p.list[i].weight > 0.5)
              && IsInfix(w, Lower(emailText))
  {
    var lower := Lower(emailText);
    FoundMembers(lower, p.list);
    var isPhishing := p.predictedClass == 1;
    AnalysisResult(
      isPhishing,
      Found(lower, p.list),
      if isPhishing then p.phishingProbability else 1.0 - p.phishingProbability,
      p.list,
      match p.urlPredictions case None => [] case Some(u) => u)
  }

  /** The confidence is a probability whenever the phishing probability is one, and it is
      at least one half exactly when the verdict agrees with the more probable class. */
  lemma ConfidenceBounds(emailText: string, p: Prediction)
    requires 0.0 <= p.phishingProbability <= 1.0
    ensures 0.0 <= AnalyzeEmail(emailText, p).confidence <= 1.0
    ensures AnalyzeEmail(emailText, p).isPhishing ==>
              (AnalyzeEmail(emailText, p).confidence >= 0.5 <==> p.phishingProbability >= 0.5)
    ensures !AnalyzeEmail(emailText, p).isPhishing ==>
              (AnalyzeEmail(emailText, p).confidence >= 0.5 <==> p.phishingProbability <= 0.5)
  {
  }

  /** Without URL predictions there is never a suspicious URL to show. */
  lemma NoPredictionsNoUrls(emailText: string, p: Prediction)
    requires p.urlPredictions.None?
    ensures SuspiciousUrls(AnalyzeEmail(emailText, p).urlPredictions) == []
    ensures UrlPanelOf(SuspiciousUrls(AnalyzeEmail(emailText, p).urlPredictions)) == NoSuspiciousUrls
  {
  }

  /** Matching is by substring of the whole text, not by token: a weighted `count` is found
      in an email that only says `account`. */
  lemma SubstringMatch()
    ensures Found("account", [Entry("count", 0.6)]) == ["count"]
  {
    assert "account"[2..7] == "count";
    assert OccursAt("account", "count", 2);
  }

  /** A phishing verdict with probability 0.92 and a heavily weighted `verify` that occurs
      in the text: confidence 0.92 and `verify` among the suspicious words. */
  lemma PhishingScenario()
    ensures var r := AnalyzeEmail("Please " + "verify" + " your account",
                                  Prediction(1, 0.92, [Entry("<url>", 0.9), Entry("verify", 0.7)], None));
            r.isPhishing && r.confidence == 0.92 && "verify" in r.suspicious
  {
    var text := "Please " + "verify" + " your account";
    var lower := Lower(text);
    SliceMiddle("Please ", "verify", " your account");
    LowerSlice(text, 7, 13);
    LowerNoUpper("verify");
    assert OccursAt(lower, "verify", 7);
    FoundMembers(lower, [Entry("<url>", 0.9), Entry("verify", 0.7)]);
    assert [Entry("<url>", 0.9), Entry("verify", 0.7)][1].word == "verify";
  }

  /** A benign verdict reports one minus the phishing probability. */
  lemma BenignScenario(emailText: string, list: Entries)
    ensures var r := AnalyzeEmail(emailText, Prediction(0, 0.88, list, None));
            !r.isPhishing && r.confidence == 0.12
  {
  }

  // ---------------------------------------------------------------- the summary panel

  datatype TermsPanel = NoSuspiciousTerms | Terms(shown: seq<string>)

  const MaxTerms: nat := 5

  /** `suspicious && suspicious.length > 0 ? suspicious.slice(0, 5) … : …`. */
  function TermsPanelOf(suspicious: seq<string>): (r: TermsPanel)
    ensures r.NoSuspiciousTerms? <==> suspicious == []
    ensures r.Terms? ==> r.shown <= suspicious && 0 < |r.shown| <= MaxTerms
    ensures r.Terms? ==> (|r.shown| == MaxTerms || r.shown == suspicious)
  {
    if |suspicious| > 0 then Terms(Take(suspicious, MaxTerms)) else NoSuspiciousTerms
  }
}
