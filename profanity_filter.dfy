/**
 * `ProfanityFilter::Base`: the class-level state (dictionary, whitelist,
 * `replacement_text`, `@replace_method`, `leet_speak`) and the operations
 * that read or change it. The dictionary and whitelist are given as values
 * where the source loads them from YAML files.
 */
module ProfanityFilter {
  import opened Wrappers
  import opened Text
  import opened Redaction
  import opened Lexicon
  import opened Cleaner

  class Base {
    var dictionary: map<string, string>
    var whitelist: seq<string>
    var replacementText: string
    var replaceMethod: Option<string>
    var leetSpeak: bool

    /** The state the cleaning path reads. */
    function Snapshot(): Settings
      reads this
    {
      Settings(dictionary, whitelist, replacementText, replaceMethod, leetSpeak)
    }

    /**
     * The state once the dictionary and whitelist are loaded: `replacement_text`
     * is `'@#$%'`, no method has been chosen and `leet_speak` is unset (false).
     */
    constructor(dictionary: map<string, string>, whitelist: seq<string>)
      ensures Snapshot() == Settings(dictionary, whitelist, DefaultReplacementText, None, false)
    {
      this.dictionary := dictionary;
      this.whitelist := whitelist;
      replacementText := DefaultReplacementText;
      replaceMethod := None;
      leetSpeak := false;
    }

    /**
     * `clean(text, options)`: blank text comes back untouched and leaves the
     * state alone; otherwise `options` is stored first and the text is
     * cleaned token by token under the new state. Every whitespace character
     * survives under a masking method (and the text gets no longer), and under
     * any method whose replacements hold no whitespace.
     */
    method Clean(text: string, options: Options) returns (cleaned: string)
      modifies this
      ensures Snapshot() == Configure(old(Snapshot()), text, options)
      ensures cleaned == CleanText(Snapshot(), text)
      ensures Blank(text) ==> cleaned == text
      ensures Masking(Snapshot()) ==> SpacesOf(cleaned) == SpacesOf(text) && |cleaned| <= |text|
      ensures SpaceFreeOutputs(Snapshot()) ==> SpacesOf(cleaned) == SpacesOf(text)
    {
      if Blank(text) {
        return text;
      }
      match options {
        case MethodName(name) =>
          replaceMethod := Some(name);
        case OptionsHash(m, leet) =>
          replaceMethod := m;
          leetSpeak := leet;
      }
      cleaned := CleanText(Snapshot(), text);
      if Masking(Snapshot()) {
        WhitespaceSurvives(Snapshot(), text);
      }
      if SpaceFreeOutputs(Snapshot()) {
        WhitespaceKept(Snapshot(), text);
      }
    }

    /**
     * `profane?(text, options)`: whether `clean` changes the text. It stores
     * `options` as `clean` does; blank text and text whose every token is
     * exempt or innocent are never profane.
     */
    method Profane(text: string, options: Options) returns (profane: bool)
      modifies this
      ensures Snapshot() == Configure(old(Snapshot()), text, options)
      ensures profane <==> CleanText(Snapshot(), text) != text
      ensures Blank(text) ==> !profane
      ensures (forall p :: p in Split(text, Whitespace) && Free(p, Whitespace) ==>
                 Exempt(Snapshot(), p) || Innocent(Snapshot(), p)) ==> !profane
    {
      var cleaned := Clean(text, options);
      profane := text != cleaned;
      if forall p :: p in Split(text, Whitespace) && Free(p, Whitespace) ==>
           Exempt(Snapshot(), p) || Innocent(Snapshot(), p)
      {
        CleanTextUnchanged(Snapshot(), text);
      }
    }

    /** `append_dictionary`: the entries are merged in, winning on shared keys, and each downcased key is then banned. */
    method AppendDictionary(entries: map<string, string>)
      modifies this
      ensures dictionary == Merge(old(dictionary), entries)
      ensures Snapshot() == old(Snapshot()).(dictionary := dictionary)
      ensures forall w :: w in entries && Downcase(w) == w ==> Banned(Snapshot(), w)
    {
      dictionary := Merge(dictionary, entries);
      forall w | w in entries && Downcase(w) == w
        ensures Banned(Snapshot(), w)
      {
        MergeBans(old(Snapshot()), entries, w);
      }
    }

    /**
     * `remove_from_dictionary`: a missing list (`nil` or `false` in the
     * source) changes nothing; otherwise exactly the listed keys go, and
     * outside leet mode no listed downcased word is banned any more.
     */
    method RemoveFromDictionary(excluded: Option<seq<string>>)
      modifies this
      ensures excluded.None? ==> Snapshot() == old(Snapshot())
      ensures excluded.Some? ==> dictionary == Exclude(old(dictionary), excluded.value)
      ensures Snapshot() == old(Snapshot()).(dictionary := dictionary)
      ensures excluded.Some? && !leetSpeak ==>
        forall w :: w in excluded.value && Downcase(w) == w ==> !Banned(Snapshot(), w)
    {
      if excluded.Some? {
        dictionary := Exclude(dictionary, excluded.value);
        if !leetSpeak {
          forall w | w in excluded.value && Downcase(w) == w
            ensures !Banned(Snapshot(), w)
          {
            ExcludeUnbans(old(Snapshot()), excluded.value, w);
          }
        }
      }
    }
  }
}
