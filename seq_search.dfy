/** The search primitive the source relies on: std::string::find_first_of. */
module SeqSearch {
  import opened Wrappers

  /** First index at or after `from` whose element occurs in `chars`; None plays std::string::npos.
      A start position at or past the end finds nothing. */
  function FindFirstOf<T(==)>(s: seq<T>, chars: seq<T>, from: nat): (r: Option<nat>)
    ensures r.Some? ==> from <= r.value < |s| && s[r.value] in chars
    ensures r.Some? ==> forall j :: from <= j < r.value ==> s[j] !in chars
    ensures r.None? ==> forall j :: from <= j < |s| ==> s[j] !in chars
    decreases |s| - from
  {
    if from >= |s| then None
    else if s[from] in chars then Some(from)
    else FindFirstOf(s, chars, from + 1)
  }
}
