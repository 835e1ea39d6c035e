# profanity_filter: the `ProfanityFilter::Base` engine in Dafny

This project models the profanity engine of the `profanity_filter` Ruby
library, the class `ProfanityFilter::Base`, and proves properties of it.

The engine keeps class-level state:

- a dictionary from lower-case banned word to suggested replacement;
- a whitelist;
- `replacement_text`, initially `'@#$%'`;
- the redaction method `@replace_method`;
- the `leet_speak` flag.

On that state it offers these operations:

- `clean` splits a text on single whitespace characters, keeps the
  separators, and cleans every token with `clean_word`.
- `clean_word` leaves short and whitelisted tokens alone. It splits a
  punctuated token once on its non-word characters and cleans the pieces. It
  checks the punctuation-stripped concatenation, then redacts a banned word
  with `replacement`.
- `replacement` applies one of the strategies `dictionary`, `vowels`,
  `hollow` or `stars`, and falls back to the placeholder otherwise.
- `banned?` tests dictionary membership. In leet mode it also tests the
  variants from `leet_words`: 26 independent glyph-to-letter substitutions,
  with duplicates removed.
- `profane?` asks whether `clean` changed the text.
- `append_dictionary` and `remove_from_dictionary` edit the dictionary.

Modules, in dependency order:

- `Wrappers`: `Option`.
- `Text`: the ASCII character classes `\s` and `\w`, `downcase`, `strip`,
  `blank?`, `join`, and `split` with a captured single-character separator.
  Ruby returns fields and separators alternately and drops a trailing empty
  field; `Split` does the same.
- `Pattern`: Ruby's `gsub` over an ordered list of alternatives of atoms. The
  match is leftmost, and the first alternative that matches at a position
  wins. An empty match emits the replacement and copies one character.
- `Redaction`: `replacement` and its strategies. `HollowInPlace` is the
  in-place slice assignment of the `hollow` branch, done on an array.
- `Leet`: the 26-rule leet table, `uniq` and `leet_words`.
- `Lexicon`: the dictionary merge and exclusion.
- `Cleaner`: `banned?`, `clean_word` and the pure part of `clean`, over a
  `Settings` snapshot of the class state.
- `ProfanityFilter`: `class Base`. It holds the mutable state. Its methods
  `Clean`, `Profane`, `AppendDictionary` and `RemoveFromDictionary` change the
  state as the source does and are specified by the functions above.

How the leet table is read:

- Each regular expression in the table is a list of alternatives. An escape
  `\x` of a punctuation character `x` is the character itself.
- `\V` in the `m` rule and `\l` in the `r` rule mean nothing in Ruby's regular
  expressions. They are read as the letters `V` and `l`.
- `.` in the last alternative of the `r` rule, `.\-`, is any character but a
  newline.
- `leet_words` only ever sees a downcased word. So the alternatives that
  contain upper-case letters never match: `X`, `M`, `IYI`, `AA` and others
  (`Leet.UpperCaseGlyphNeverMatches`).

Details of the code that the model keeps:

- Line 122 reassigns `word` to the rejoined, piecewise-cleaned token, and
  line 123 then removes the non-word characters from that cleaned word, not
  from the original token.
- `leet_words` (lines 146-173) returns only the 26 rule outputs,
  deduplicated; it does not add the original word. `banned?` tests the
  original word on its own (line 97).
- Line 122 splits a punctuated token at every single non-word character: the
  pattern is `/(\W)/`, one `\W` without `+`, so a run of punctuation gives
  several separators.
- `clean` returns blank text (line 106) before it stores `options` (lines
  107-112), so a blank text leaves `@replace_method` and `leet_speak` as they
  were.
- `remove_from_dictionary` passes each entry to a one-parameter `reject!`
  block (lines 89-91). The model assumes Ruby 1.9 or later, where that block
  receives the key. Under Ruby 1.8 it would receive a `[key, value]` pair,
  which no listed word equals, so nothing would be removed.

## Model

| member | source | states |
|---|---|---|
| Redaction.StarsOf | lib/profanity_filter.rb:139-140 | `'*' * n`: exactly `n` characters, every one `*` |
| Redaction.MaskVowels | lib/profanity_filter.rb:134-135 | same length; each vowel of either case becomes `*`, every other character stays at its position |
| Redaction.Hollowed | lib/profanity_filter.rb:136-138 | same length; a word of at most 2 characters is unchanged; otherwise the first and last characters are kept and every interior character is `*` |
| Redaction.HollowInPlace | lib/profanity_filter.rb:137 | the in-place slice assignment leaves the array holding `Hollowed` of its old contents |
| Redaction.Replacement | lib/profanity_filter.rb:130-144 | `dictionary` gives the entry of the downcased word, or `replacement_text` when there is none; an unknown or absent method gives `replacement_text`; under `vowels`, `hollow` and `stars` the length is kept and each character is `*` or the original; `stars` gives `StarsOf` the length, `vowels` gives `MaskVowels` of the word (no vowel left) and `hollow` gives `Hollowed` of the word |
| Text.Downcase | lib/profanity_filter.rb:97 | same length; each upper-case letter becomes its lower-case counterpart, 32 code points up; every other character is kept |
| Text.LeadCount | lib/profanity_filter.rb:117 | the number of leading whitespace and NUL characters: all of them are such characters, and the next one is not |
| Text.TrailCount | lib/profanity_filter.rb:117 | the number of trailing whitespace and NUL characters, likewise from the end |
| Text.Strip | lib/profanity_filter.rb:117 | a contiguous slice of the string with only whitespace and NUL characters outside it, and neither end of the slice is such a character; so the empty string and a string of such characters strip to the empty string |
| Text.Blank | lib/profanity_filter.rb:106 | `blank?` on a string: empty or whitespace only (a definition, no contract) |
| Text.Join | lib/profanity_filter.rb:113 | `join` with no separator (a definition; `Text.JoinAppend` and `Text.SpacesOfJoin` state its properties) |
| Text.Split | lib/profanity_filter.rb:113 | joining the pieces gives back the string; pieces alternate between separator-free fields and single separators; no trailing empty piece; with a separator present and the string longer than one character, every piece is shorter than the string |
| Text.SplitPiece | lib/profanity_filter.rb:122 | every piece of a split is a single separator or holds none |
| Pattern.FirstMatch | lib/profanity_filter.rb:147 | the chosen alternative matches, and no earlier one does; none is chosen only when none matches |
| Pattern.GsubFrom | lib/profanity_filter.rb:147 | with no empty alternative and a replacement of at most one character, the result is no longer than the input; its characters come from the input or the replacement |
| Pattern.Gsub | lib/profanity_filter.rb:147 | `gsub` from the start of the string (a definition; its properties are stated on `Pattern.GsubFrom`) |
| Pattern.GsubNoMatch | lib/profanity_filter.rb:147 | when no alternative matches anywhere, `gsub` returns the word unchanged |
| Pattern.GsubOneAtom | lib/profanity_filter.rb:135 | a one-character class replaced by one character acts pointwise and keeps the length |
| Pattern.GsubDeleteAtom | lib/profanity_filter.rb:123 | deleting a one-character class keeps exactly the other characters, in order |
| Leet.Apply | lib/profanity_filter.rb:147-172 | one rule of the table applied with `gsub` (a definition; see `Leet.ApplyNoMatch`) |
| Leet.Variants | lib/profanity_filter.rb:146-172 | the array literal of `leet_words` before `uniq`, with the corrected `b` rule (see Findings): exactly one output per rule, 26 in all |
| Leet.RuleAt | lib/profanity_filter.rb:147-172 | the rule at position `k` of the table replaces its glyphs by the `k`-th letter of the alphabet, `a` to `z` |
| Leet.TableWellFormed | lib/profanity_filter.rb:147-172 | no alternative of the corrected table is empty |
| Leet.Uniq | lib/profanity_filter.rb:172 | `uniq`: the same elements, none twice, never longer |
| Leet.LeetWords | lib/profanity_filter.rb:146-173 | with the corrected `b` rule (see Findings): at most 26 variants, none repeated |
| Leet.LeetWordsMeans | lib/profanity_filter.rb:146-173 | with the corrected `b` rule (see Findings): a string is a leet variant exactly when one single rule, applied to the original word, produces it: no chaining between rules |
| Leet.VariantsNoLonger | lib/profanity_filter.rb:146-173 | with the corrected `b` rule (see Findings): no leet variant is longer than the word |
| Leet.ApplyNoMatch | lib/profanity_filter.rb:147-172 | a rule leaves alone a word in which none of its glyphs occurs |
| Leet.PlainWordOnlyVariant | lib/profanity_filter.rb:146-173 | with the corrected `b` rule (see Findings): a word containing no glyph at all is its own and only leet variant |
| Leet.UpperCaseGlyphNeverMatches | lib/profanity_filter.rb:97 | an alternative holding an upper-case letter never matches a downcased word |
| Leet.AsWrittenEmptyFirst | lib/profanity_filter.rb:148 | in the `b` rule as written, the empty alternative is the first to match wherever none of the four glyphs before it starts |
| Leet.AsWrittenInterleaves | lib/profanity_filter.rb:148 | the `b` rule as written puts a `b` before every character and at the end of a word without the characters `8`, `6`, `1` and the vertical bar |
| Leet.BRuleAsWrittenInserts | lib/profanity_filter.rb:148 | the `b` rule as written has an empty alternative and turns such a word of length `n` into one of length `2n + 1` |
| Leet.BRuleReadsEight | lib/profanity_filter.rb:148 | the corrected `b` rule reads `8ad` as `bad`, while the rule as written turns it into 6 characters |
| Leet.AsWrittenMissesEight | lib/profanity_filter.rb:148 | the `b` rule as written turns `8ad` into a word of 6 characters |
| Leet.BRuleLeavesPlainWord | lib/profanity_filter.rb:148 | the corrected `b` rule leaves unchanged a word without the characters `8`, `6`, `1`, `]` and the vertical bar |
| Lexicon.Merge | lib/profanity_filter.rb:78-80 | the keys are the union; an appended entry wins on a shared key; every other entry keeps its value |
| Lexicon.Exclude | lib/profanity_filter.rb:86-93 | a key remains exactly when it was present and is not listed; remaining keys keep their values |
| Cleaner.Configure | lib/profanity_filter.rb:105-112 | blank text changes nothing; a String sets the method and keeps `leet_speak`; a Hash sets both; the dictionary, whitelist and `replacement_text` are untouched |
| Cleaner.Common | lib/profanity_filter.rb:97 | the array intersection with the keys: exactly the elements of `xs` that are keys |
| Redaction.StrategyOf | lib/profanity_filter.rb:131-143 | the `case` on `@replace_method`: the four names select their strategies and anything else, `nil` included, the placeholder (a definition) |
| Cleaner.Banned | lib/profanity_filter.rb:95-99 | `banned?`, with the corrected `b` rule (see Findings; a definition; `Cleaner.BannedMeans` states what it tests) |
| Cleaner.Exempt | lib/profanity_filter.rb:117 | the exemption test of `clean_word` (a definition) |
| Cleaner.Redact | lib/profanity_filter.rb:127 | `replacement` under the current state (a definition; `Redaction.Replacement` holds the contract) |
| Cleaner.CleanLeaf | lib/profanity_filter.rb:116-127 | `clean_word` on a piece without non-word characters (a definition; `Cleaner.PieceIsLeaf` ties it to `Cleaner.CleanWord`) |
| Cleaner.CleanText | lib/profanity_filter.rb:106-113 | the value `clean` returns (a definition; `ProfanityFilter.Base.Clean`, `Cleaner.WhitespaceSurvives` and `Cleaner.WhitespaceKept` state its properties) |
| Cleaner.BannedMeans | lib/profanity_filter.rb:95-99 | with the corrected `b` rule (see Findings): `banned?` holds exactly when the downcased word is a key, or leet mode is on and a leet variant is a key; equivalently, some single rule turns the downcased word into a key |
| Cleaner.MergeBans | lib/profanity_filter.rb:78-80 | after a merge, a word whose downcased form is an appended key is banned |
| Cleaner.ExcludeUnbans | lib/profanity_filter.rb:86-93 | outside leet mode, after an exclusion, a word whose downcased form is listed is not banned |
| Cleaner.RemoveNonWord | lib/profanity_filter.rb:123 | `gsub(/\W/, '')`: exactly the word characters of the word, in order (`Keep` with the `\W` class); never longer; a word without non-word characters unchanged |
| Cleaner.Settle | lib/profanity_filter.rb:127 | a banned word is replaced by `replacement`; a word that is not banned is kept; under a masking method the result has the word's length and only `*` or the word's characters |
| Cleaner.Rejoin | lib/profanity_filter.rb:123-127 | if neither the rejoined word nor its stripped form is banned, the rejoined word is kept; under a masking method it gets no longer and gains no new character but `*` |
| Cleaner.RejoinRedacts | lib/profanity_filter.rb:123-127 | a banned stripped form is what gets replaced; otherwise a banned rejoined word is replaced |
| Cleaner.CleanWord | lib/profanity_filter.rb:116-128 | a word that is short once stripped or whitelisted once downcased comes back as it is; any other word without non-word characters is replaced when banned and kept otherwise |
| Cleaner.CleanPieces | lib/profanity_filter.rb:122 | one cleaned piece per piece of the split |
| Cleaner.CleanEach | lib/profanity_filter.rb:122 | one cleaned piece per piece |
| Cleaner.CleanEachAt | lib/profanity_filter.rb:122 | element `k` is `clean_word` of piece `k` |
| Cleaner.PieceCleaned | lib/profanity_filter.rb:122 | cleaned piece `k` of a split word is `clean_word` of piece `k` |
| Cleaner.CleanWordMasked | lib/profanity_filter.rb:116-128 | under a masking method `clean_word` never lengthens a word, keeps the length of a word without non-word characters, and yields only `*` and the word's own characters |
| Cleaner.MaskedPiecesFacts | lib/profanity_filter.rb:122 | joining pieces that obey the masking bounds obeys them for the whole word |
| Cleaner.PieceIsLeaf | lib/profanity_filter.rb:121-122 | a piece of a split word never enters the splitting branch again: the recursion is one level deep |
| Cleaner.CleanPieceAt | lib/profanity_filter.rb:122 | cleaned piece `k` is the leaf cleaning of piece `k` |
| Cleaner.CleanLeaves | lib/profanity_filter.rb:122 | one leaf cleaning per piece |
| Cleaner.SplitWordOneLevel | lib/profanity_filter.rb:121-127 | a punctuated, non-exempt word is cleaned by leaf-cleaning its pieces, rejoining them and settling the rejoined word |
| Cleaner.InnocentWordUnchanged | lib/profanity_filter.rb:116-128 | a word none of whose pieces, nor itself, nor its stripped form is banned comes back unchanged |
| Cleaner.InnocentPiece | lib/profanity_filter.rb:122 | an exempt or unbanned piece is cleaned to itself |
| Cleaner.CleanTokens | lib/profanity_filter.rb:113 | one cleaned token per token |
| Cleaner.CleanTextUnchanged | lib/profanity_filter.rb:113 | a text whose every token is exempt or innocent is returned unchanged |
| Cleaner.TokenUnchanged | lib/profanity_filter.rb:113 | one such token is cleaned to itself |
| Cleaner.WhitespaceSurvives | lib/profanity_filter.rb:113 | under a masking method the cleaned text has exactly the whitespace characters of the text, in order, and is no longer |
| Cleaner.TokenSpaces | lib/profanity_filter.rb:113 | under a masking method a token keeps its whitespace and gets no longer |
| Cleaner.SeparatorKept | lib/profanity_filter.rb:117-118 | a single-character token is exempt and kept |
| Cleaner.WordGainsNoSpace | lib/profanity_filter.rb:116-128 | under a masking method a token without whitespace stays without whitespace and gets no longer |
| Cleaner.SeparatorsKept | lib/profanity_filter.rb:113-118 | whatever the method, every odd token of the whitespace split, a single whitespace character, is cleaned to itself |
| Cleaner.RedactSpaceFree | lib/profanity_filter.rb:130-144 | when `replacement_text` and every dictionary value hold no whitespace, `replacement` of a word without whitespace holds none |
| Cleaner.RejoinSpaceFree | lib/profanity_filter.rb:123-127 | under the same condition, the compound-token step keeps a word free of whitespace |
| Cleaner.CleanWordSpaceFree | lib/profanity_filter.rb:116-128 | under the same condition, `clean_word` of a token without whitespace holds none |
| Cleaner.TokenSpacesKept | lib/profanity_filter.rb:113 | under the same condition, each token keeps exactly its whitespace |
| Cleaner.WhitespaceKept | lib/profanity_filter.rb:113 | under any method, when `replacement_text` and the dictionary values hold no whitespace, the cleaned text has exactly the whitespace characters of the text, in order |
| ProfanityFilter.Base.constructor | lib/profanity_filter.rb:68-69 | the initial state: the given dictionary and whitelist, `replacement_text` `'@#$%'`, no method, leet mode off |
| ProfanityFilter.Base.Clean | lib/profanity_filter.rb:105-114 | the new state is `Configure` of the old one; the result is the cleaned text under the new state; blank text is returned as it is; the whitespace characters survive, in order, under a masking method (and the text gets no longer) and under any method whose replacements hold no whitespace |
| ProfanityFilter.Base.Profane | lib/profanity_filter.rb:101-103 | stores the options as `clean` does; true exactly when cleaning changes the text; never true for blank text or a text whose every token is exempt or innocent |
| ProfanityFilter.Base.AppendDictionary | lib/profanity_filter.rb:78-80 | the dictionary becomes the merge; nothing else changes; every appended downcased key is then banned |
| ProfanityFilter.Base.RemoveFromDictionary | lib/profanity_filter.rb:86-93 | no list changes nothing; a list removes exactly its keys; nothing else changes; outside leet mode no listed downcased word stays banned |

## Left out

- Loading the dictionary and the whitelist from YAML files, the default file
  paths and the lazy `||=` memoisation (lines 70-71, 74-76, 82-84, 87). They
  are file I/O. The constructor takes both as values.
- `append_dictionary` and `remove_from_dictionary` take the loaded entries and
  the loaded list, not a file name. `RemoveFromDictionary` takes `None` for a
  file that loads as `nil` or `false`.
- `nil` arguments (`banned?(nil)`, a `nil` text) and `nil` dictionary values.
  The types here have no `nil`. The `dictionary` strategy's `||
  replacement_text` fallback is modelled only for a missing key.
- `options[:leet]` can be `nil`. It is modelled as `false`, which is how Ruby
  treats it in a condition.
- The `ClassMethods` glue for ActiveRecord (lines 9-65) and the `include` on
  line 178. They are runtime metaprogramming with no algorithmic content.
- Regular expressions in general. Each leet rule is an ordered list of
  alternatives of single-character atoms. Only the forms the table uses are
  modelled: literals, one any-but-newline atom, and the `\W` and vowel
  classes.
- Unicode. Character classes, `downcase` and `strip` are ASCII only.
- Concurrency. The class-level state is modelled single-threaded.
- Aliasing in the `hollow` branch. The source overwrites the slice of the
  string object it was given. `Replacement` returns a new string instead, and
  `HollowInPlace` shows the in-place update on an array. Inside `clean`,
  every word that reaches `replacement` was freshly made by `split`, `join`
  or `gsub`, so no caller can see the difference. `clean_word` and
  `replacement` are public class methods, though (lines 73-174 hold no
  `private`): a direct call of either under `hollow` overwrites the caller's
  own string (line 137), which the model does not capture.
- Cleaner.CleanWord: its own contract covers the exempt word and the word
  without non-word characters. A punctuated word is covered by the separate
  lemmas `SplitWordOneLevel` (how it is cleaned), `CleanWordMasked`,
  `InnocentWordUnchanged` and `CleanWordSpaceFree`, because a function does
  not see the contracts of the functions it is mutually recursive with.
- Idempotence of `clean` under masking methods. The code does not promise it,
  and it fails for some dictionaries. For example, take the dictionary keys
  `ass` and `ss` with the `vowels` method. `clean("ass")` gives `*ss`. Cleaning
  `*ss` removes its non-word character and gives `ss`, which is banned, and the result is `ss`. This
  counterexample is worked by hand, not proved in the model.
- Cleaner.Banned: in leet mode it tests the variants of the corrected `b`
  rule (see Findings), not of the rule as written, and so do `clean` and
  `profane?` through it. The two differ: with the key `bad` and leet mode on,
  the model bans `8ad`, which the corrected rule reads as `bad`
  (`Leet.BRuleReadsEight`). The source does not ban it: its `b` rule turns
  `8ad` into a word of 6 characters (`Leet.AsWrittenMissesEight`), and no
  other rule rewrites `8`.

## Findings

| source | as written | input that shows it | evidently intended | confidence | as-written member | corrected member |
|---|---|---|---|---|---|---|
| lib/profanity_filter.rb:148 | the `b` rule has two vertical bars in a row between `13` and `]3`, an empty alternative; it matches at every position where the four glyphs before it do not, so `gsub` puts a `b` before every character and at the end, and `]3` can never match | `"ab"` becomes `"babbb"`; `"8ad"` is not read as `"bad"` | the five glyphs only, so that a word without them is left unchanged | not executed | Leet.BRuleAsWrittenInserts | Leet.BRuleLeavesPlainWord |

`Leet.LeetWords` uses the corrected rule (`Leet.BRule`, rule 1 of the table).
`Leet.BRuleAsWritten` keeps the rule as written, for the finding above.
