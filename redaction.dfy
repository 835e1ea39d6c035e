/**
 * `ProfanityFilter::Base.replacement`: what a banned word is replaced with,
 * chosen by the redaction method in force (`@replace_method`).
 */
module Redaction {
  import opened Wrappers
  import opened Text
  import opened Pattern

  /** The initial value of `replacement_text`. */
  const DefaultReplacementText: string := "@#$%"

  /** The branches of the `case @replace_method` in `replacement`. */
  datatype Strategy = DictionaryWord | Vowels | Hollow | Stars | Placeholder

  /** Any method name other than the four known ones, and no name at all, selects the placeholder. */
  function StrategyOf(replaceMethod: Option<string>): Strategy {
    match replaceMethod
    case None => Placeholder
    case Some(name) =>
      if name == "dictionary" then DictionaryWord
      else if name == "vowels" then Vowels
      else if name == "hollow" then Hollow
      else if name == "stars" then Stars
      else Placeholder
  }

  /** The strategies that hide characters of the word rather than substitute a text for it. */
  predicate IsMasking(st: Strategy) {
    st == Vowels || st == Hollow || st == Stars
  }

  predicate IsVowel(c: char) {
    c in "aeiouAEIOU"
  }

  /** `/[aeiou]/i`, read over ASCII letters. */
  const VowelPattern: seq<Alternative> := [[OneOf("aeiouAEIOU")]]

  /** `'*' * n`. */
  function StarsOf(n: nat): (r: string)
    ensures |r| == n && forall k :: 0 <= k < n ==> r[k] == '*'
  {
    seq(n, _ => '*')
  }

  /** `word.gsub(/[aeiou]/i, '*')`: every vowel becomes `*`, every other character stays in place. */
  function MaskVowels(word: string): (r: string)
    ensures |r| == |word|
    ensures forall k :: 0 <= k < |word| ==> r[k] == if IsVowel(word[k]) then '*' else word[k]
  {
    MaskVowelsPointwise(word);
    Gsub(word, VowelPattern, "*")
  }

  lemma MaskVowelsPointwise(word: string)
    ensures |Gsub(word, VowelPattern, "*")| == |word|
    ensures forall k :: 0 <= k < |word| ==>
      Gsub(word, VowelPattern, "*")[k] == if IsVowel(word[k]) then '*' else word[k]
  {
    var a := OneOf("aeiouAEIOU");
    assert VowelPattern == [[a]] && "*" == ['*'];
    GsubOneAtom(word, 0, a, '*');
    var r := GsubFrom(word, 0, [[a]], ['*']);
    forall k | 0 <= k < |word|
      ensures r[k] == if IsVowel(word[k]) then '*' else word[k]
    {
      assert r[k - 0] == if AtomMatches(a, word[k]) then '*' else word[k];
      assert AtomMatches(a, word[k]) == IsVowel(word[k]);
    }
  }

  /**
   * The `hollow` branch as a value: a word longer than two characters keeps
   * its first and last characters and has every other one replaced by `*`;
   * a shorter word is returned as it is.
   */
  function Hollowed(word: string): (r: string)
    ensures |r| == |word|
    ensures |word| <= 2 ==> r == word
    ensures |word| > 2 ==> r[0] == word[0] && r[|word| - 1] == word[|word| - 1]
    ensures forall k :: 0 < k < |word| - 1 ==> r[k] == '*'
  {
    if |word| > 2 then [word[0]] + StarsOf(|word| - 2) + [word[|word| - 1]] else word
  }

  /** The `hollow` branch as the source performs it: `word[1..word.size-2] = '*' * (word.size-2)` on the string itself. */
  method HollowInPlace(word: array<char>)
    modifies word
    ensures word[..] == Hollowed(old(word[..]))
  {
    if word.Length > 2 {
      forall k | 1 <= k < word.Length - 1 {
        word[k] := '*';
      }
    }
  }

  /** `replacement(word)` under the given dictionary, `replacement_text` and `@replace_method`. */
  function Replacement(dictionary: map<string, string>, replacementText: string,
                       replaceMethod: Option<string>, word: string): (r: string)
    ensures IsMasking(StrategyOf(replaceMethod)) ==>
      |r| == |word| && forall k :: 0 <= k < |r| ==> r[k] == '*' || r[k] == word[k]
    ensures StrategyOf(replaceMethod) == Stars ==> r == StarsOf(|word|)
    ensures StrategyOf(replaceMethod) == Vowels ==> r == MaskVowels(word)
    ensures StrategyOf(replaceMethod) == Hollow ==> r == Hollowed(word)
    ensures StrategyOf(replaceMethod) == Stars ==> forall k :: 0 <= k < |r| ==> r[k] == '*'
    ensures StrategyOf(replaceMethod) == Vowels ==> forall k :: 0 <= k < |r| ==> !IsVowel(r[k])
    ensures StrategyOf(replaceMethod) == DictionaryWord && Downcase(word) in dictionary ==>
      r == dictionary[Downcase(word)]
    ensures StrategyOf(replaceMethod) == DictionaryWord && Downcase(word) !in dictionary ==>
      r == replacementText
    ensures StrategyOf(replaceMethod) == Placeholder ==> r == replacementText
  {
    match StrategyOf(replaceMethod)
    case DictionaryWord =>
      var key := Downcase(word);
      if key in dictionary then dictionary[key] else replacementText
    case Vowels => MaskVowels(word)
    case Hollow => Hollowed(word)
    case Stars => StarsOf(|word|)
    case Placeholder => replacementText
  }
}
