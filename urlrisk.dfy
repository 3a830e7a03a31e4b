/** The suspicious-URL panel: the URL predictions the backend flags as phishing, most
    probable first; at most three are listed, followed by a count of the rest. */
module UrlRisk {
  import opened Wrappers
  import opened Seqs
  import opened Sorting

  /** One entry of `url_predictions`. */
  datatype UrlPrediction = UrlPrediction(url: string, predictedClass: int, probability: real)

  predicate Flagged(u: UrlPrediction) { u.predictedClass == 1 }

  function Probability(u: UrlPrediction): real { u.probability }

  /** The URLs predicted phishing, most probable first; equally probable ones keep their
      order. */
  function SuspiciousUrls(ups: seq<UrlPrediction>): seq<UrlPrediction> {
    SortDesc(Filter(ups, Flagged), Probability)
  }

  /** Exactly the flagged predictions, each as often as it occurs, most probable first,
      and flagged predictions of equal probability in their original order. */
  lemma SuspiciousUrlsSpec(ups: seq<UrlPrediction>, p: real)
    ensures forall u :: u in SuspiciousUrls(ups) <==> u in ups && u.predictedClass == 1
    ensures multiset(SuspiciousUrls(ups)) == multiset(Filter(ups, Flagged))
    ensures SortedDesc(SuspiciousUrls(ups), Probability)
    ensures Ties(SuspiciousUrls(ups), Probability, p) == Ties(Filter(ups, Flagged), Probability, p)
  {
    var l := Filter(ups, Flagged);
    FilterMembers(ups, Flagged);
    SortDescPermutation(l, Probability);
    SortDescSorted(l, Probability);
    SortDescStable(l, Probability, p);
    forall u ensures u in SuspiciousUrls(ups) <==> u in l {
      assert u in SuspiciousUrls(ups) <==> u in multiset(SuspiciousUrls(ups));
      assert u in l <==> u in multiset(l);
    }
  }

  /** What the panel shows. */
  datatype UrlPanel =
    | NoSuspiciousUrls
    | Listed(shown: seq<UrlPrediction>, more: Option<nat>)

  const MaxShown: nat := 3

  function UrlPanelOf(s: seq<UrlPrediction>): (r: UrlPanel)
    ensures r.NoSuspiciousUrls? <==> s == []
    ensures r.Listed? ==> r.shown <= s && |r.shown| == if |s| < MaxShown then |s| else MaxShown
    ensures r.Listed? ==> (r.more.Some? <==> |s| > MaxShown)
    ensures r.Listed? && r.more.Some? ==> |r.shown| + r.more.value == |s|
  {
    if |s| > 0 then
      Listed(Take(s, MaxShown), if |s| > MaxShown then Some(|s| - MaxShown) else None)
    else NoSuspiciousUrls
  }

  /** Of a benign and a flagged prediction only the flagged one is reported. */
  lemma OnlyFlaggedReported()
    ensures SuspiciousUrls([UrlPrediction("http://a", 0, 0.1), UrlPrediction("http://b", 1, 0.6)])
            == [UrlPrediction("http://b", 1, 0.6)]
  {
    var ups := [UrlPrediction("http://a", 0, 0.1), UrlPrediction("http://b", 1, 0.6)];
    assert ups[1..][1..] == [];
    assert Filter(ups, Flagged) == [UrlPrediction("http://b", 1, 0.6)];
  }
}
