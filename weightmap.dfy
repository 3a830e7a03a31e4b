/** The model's weight mapping: an object (JavaScript) or dict (Python) from a placeholder
    such as `<num>` or a lower-cased word to a signed weight, kept as its entries in
    enumeration order. */
module WeightMap {
  import opened Wrappers

  datatype Entry = Entry(word: string, weight: real)

  type Entries = seq<Entry>

  function Words(m: Entries): (ws: seq<string>)
    ensures |ws| == |m| && forall i :: 0 <= i < |m| ==> ws[i] == m[i].word
  {
    if m == [] then [] else [m[0].word] + Words(m[1..])
  }

  predicate DistinctWords(m: Entries) {
    forall i, j :: 0 <= i < j < |m| ==> m[i].word != m[j].word
  }

  /** The weight stored under `w`, if any (the first entry with that word). */
  function Lookup(m: Entries, w: string): (r: Option<real>)
    ensures r.None? <==> forall i :: 0 <= i < |m| ==> m[i].word != w
    ensures r.Some? ==> exists i :: 0 <= i < |m| && m[i] == Entry(w, r.value)
  {
    if m == [] then None
    else if m[0].word == w then Some(m[0].weight)
    else Lookup(m[1..], w)
  }

  function Abs(x: real): (r: real)
    ensures r >= 0.0 && (r == x || r == -x)
  {
    if x < 0.0 then -x else x
  }

  function AbsWeight(e: Entry): real { Abs(e.weight) }
}
