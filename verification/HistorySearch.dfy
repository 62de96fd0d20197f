/** Prefix search over the command history, with the byte range that is highlighted in each hit. */
module HistorySearch {
  import opened Text

  // What an entry carries besides its text (details, icon, whether it is an AI query).
  type Extras = nat

  datatype Entry = Entry(text: string, extras: Extras)

  datatype Item = Item(text: string, matches: seq<nat>, extras: Extras)

  function Range(n: nat): (r: seq<nat>)
    ensures |r| == n && forall i :: 0 <= i < n ==> r[i] == i
  {
    seq(n, i requires 0 <= i => i)
  }

  function HistoryPrefixSearch(prefix: string, options: seq<Entry>): seq<Item> {
    Search(Trim(prefix), options)
  }

  function Search(query: string, options: seq<Entry>): seq<Item> {
    if options == [] then []
    else
      var entry := options[|options| - 1];
      var hits := Search(query, options[..|options| - 1]);
      if query <= entry.text
      then hits + [Item(Trim(entry.text), Range(|Encode(query)|), entry.extras)]
      else hits
  }

  // The positions of the options whose text starts with the query.
  function Hits(query: string, options: seq<Entry>): seq<nat> {
    if options == [] then []
    else
      var last := |options| - 1;
      Hits(query, options[..last]) + if query <= options[last].text then [last] else []
  }

  lemma {:induction false} HitsAreTheMatches(query: string, options: seq<Entry>, k: nat)
    ensures k in Hits(query, options) <==> k < |options| && query <= options[k].text
  {
    if options != [] {
      HitsAreTheMatches(query, options[..|options| - 1], k);
    }
  }

  lemma {:induction false} HitsIncrease(query: string, options: seq<Entry>)
    ensures forall i, j :: 0 <= i < j < |Hits(query, options)| ==> Hits(query, options)[i] < Hits(query, options)[j]
    ensures forall i :: 0 <= i < |Hits(query, options)| ==> Hits(query, options)[i] < |options|
  {
    if options != [] { HitsIncrease(query, options[..|options| - 1]); }
  }

  lemma {:induction false} SearchShowsHits(query: string, options: seq<Entry>, i: nat)
    ensures |Search(query, options)| == |Hits(query, options)|
    ensures i < |Hits(query, options)| ==>
              var hit, at := Search(query, options)[i], Hits(query, options)[i];
              && at < |options|
              && hit == Item(Trim(options[at].text), Range(|Encode(query)|), options[at].extras)
  {
    if options != [] { SearchShowsHits(query, options[..|options| - 1], i); }
  }

  /** The hits are, in order and once each, the options whose text starts with the trimmed query;
      each shows its own trimmed text. */
  lemma {:induction false} SearchFindsTheMatchingOptions(prefix: string, options: seq<Entry>, i: nat, j: nat, k: nat)
    ensures var found, hits := HistoryPrefixSearch(prefix, options), Hits(Trim(prefix), options);
            && |found| == |hits|
            && (k in hits <==> k < |options| && Trim(prefix) <= options[k].text)
            && (i < j < |hits| ==> hits[i] < hits[j])
            && (i < |hits| ==>
                  && hits[i] < |options|
                  && found[i].text == Trim(options[hits[i]].text) && found[i].extras == options[hits[i]].extras)
  {
    var query := Trim(prefix);
    HitsAreTheMatches(query, options, k);
    HitsIncrease(query, options);
    SearchShowsHits(query, options, i);
  }

  /** In every hit the highlighted bytes are in bounds and spell the trimmed query exactly,
      ending on a character boundary; so slicing the hit there gives the query and no other text. */
  lemma HighlightSpellsTheQuery(prefix: string, options: seq<Entry>, i: nat)
    requires i < |HistoryPrefixSearch(prefix, options)|
    ensures var hit, query := HistoryPrefixSearch(prefix, options)[i], Encode(Trim(prefix));
            && hit.matches == Range(|query|)
            && |query| <= |Encode(hit.text)|
            && (forall b :: b in hit.matches ==> Encode(hit.text)[b] == query[b])
            && IsCharBoundary(Encode(hit.text), |query|)
            && Slice(hit.text, |query|) == Trim(prefix)
            && Trimmed(hit.text)
  {
    var q := Trim(prefix);
    SearchShowsHits(q, options, i);
    var at := Hits(q, options)[i];
    HitsAreTheMatches(q, options, at);
    var text := options[at].text;
    var _, _ := TrimIsTrimmed(prefix);
    var _, _ := TrimIsTrimmed(text);
    TrimKeepsTrimmedPrefix(text, q);
    EncodeSplit(Trim(text), |q|);
    assert Trim(text)[..|q|] == q;
    BoundariesAreWholeCharacters(Trim(text), |Encode(q)|);
    EncodeIsInjective(Slice(Trim(text), |Encode(q)|), q);
  }
}
