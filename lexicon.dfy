/**
 * The banned-word dictionary edits of `ProfanityFilter::Base`: merging in a
 * further dictionary (`append_dictionary`) and dropping listed words
 * (`remove_from_dictionary`). The sources are given as values; reading them
 * from YAML files is not modelled.
 */
module Lexicon {

  /** `dictionary.merge(entries)`: the union, where an entry of `entries` wins on a shared key. */
  function Merge(dictionary: map<string, string>, entries: map<string, string>): (r: map<string, string>)
    ensures r.Keys == dictionary.Keys + entries.Keys
    ensures forall w :: w in entries ==> r[w] == entries[w]
    ensures forall w :: w in dictionary && w !in entries ==> r[w] == dictionary[w]
  {
    dictionary + entries
  }

  /** `dictionary.reject! { |word| excluded.include?(word) }`: exactly the listed keys go, the rest keep their values. */
  function Exclude(dictionary: map<string, string>, excluded: seq<string>): (r: map<string, string>)
    ensures forall w :: w in r <==> w in dictionary && w !in excluded
    ensures forall w :: w in r ==> r[w] == dictionary[w]
  {
    map w | w in dictionary && w !in excluded :: dictionary[w]
  }
}
