/**
 * The classification and cleaning path of `ProfanityFilter::Base`:
 * `banned?`, `clean_word` and the pure part of `clean`, over a snapshot of
 * the class-level state they read.
 */
module Cleaner {
  import opened Wrappers
  import opened Text
  import opened Pattern
  import opened Redaction
  import opened Leet
  import opened Lexicon

  /**
   * What the cleaning path reads: the dictionary (word to suggested
   * replacement), the whitelist, `replacement_text`, `@replace_method` and
   * `leet_speak`.
   */
  datatype Settings = Settings(
    dictionary: map<string, string>,
    whitelist: seq<string>,
    replacementText: string,
    replaceMethod: Option<string>,
    leetSpeak: bool)

  /** The `options` argument of `clean`: a method name given as a String, or a Hash with `:method` and `:leet`. */
  datatype Options =
    | MethodName(name: string)
    | OptionsHash(replaceMethod: Option<string>, leet: bool)

  /**
   * The state `clean(text, options)` leaves behind. Blank text returns before
   * anything is assigned; a String sets only the method, so `leet_speak`
   * keeps the value of an earlier call; a Hash sets both.
   */
  function Configure(s: Settings, text: string, options: Options): (r: Settings)
    ensures r.dictionary == s.dictionary && r.whitelist == s.whitelist
    ensures r.replacementText == s.replacementText
    ensures Blank(text) ==> r == s
    ensures !Blank(text) && options.MethodName? ==>
      r.replaceMethod == Some(options.name) && r.leetSpeak == s.leetSpeak
    ensures !Blank(text) && options.OptionsHash? ==>
      r.replaceMethod == options.replaceMethod && r.leetSpeak == options.leet
  {
    if Blank(text) then s
    else match options
      case MethodName(name) => s.(replaceMethod := Some(name))
      case OptionsHash(m, leet) => s.(replaceMethod := m, leetSpeak := leet)
  }

  /** `xs & dictionary.keys`, in the order of `xs`. */
  function Common(xs: seq<string>, keys: set<string>): (r: seq<string>)
    ensures forall v :: v in r <==> v in xs && v in keys
  {
    if xs == [] then []
    else (if xs[0] in keys then [xs[0]] else []) + Common(xs[1..], keys)
  }

  /**
   * `banned?(word)`: the downcased word is a dictionary key, or leet mode is
   * on and one of its leet variants is; equivalently, some single rule of
   * the leet table turns the downcased word into a key.
   */
  function Banned(s: Settings, word: string): bool {
    var w := Downcase(word);
    w in s.dictionary || (s.leetSpeak && |Common(LeetWords(w), s.dictionary.Keys)| > 0)
  }

  /** What `banned?` tests, stated on the leet variants and on the single rules of the table. */
  lemma BannedMeans(s: Settings, word: string)
    ensures Banned(s, word) <==> (Downcase(word) in s.dictionary ||
      (s.leetSpeak && exists v :: v in LeetWords(Downcase(word)) && v in s.dictionary))
    ensures Banned(s, word) <==> (Downcase(word) in s.dictionary ||
      (s.leetSpeak && exists k :: 0 <= k < RuleCount && Apply(RuleAt(k), Downcase(word)) in s.dictionary))
  {
    var w := Downcase(word);
    var found := Common(LeetWords(w), s.dictionary.Keys);
    LeetWordsMeans(w);
    if |found| > 0 {
      assert found[0] in found;
    }
  }

  /** After `append_dictionary`, every downcased key of the appended entries is banned. */
  lemma MergeBans(s: Settings, entries: map<string, string>, word: string)
    requires Downcase(word) in entries
    ensures Banned(s.(dictionary := Merge(s.dictionary, entries)), word)
  {
  }

  /** After `remove_from_dictionary`, outside leet mode, no listed word is banned any more. */
  lemma ExcludeUnbans(s: Settings, excluded: seq<string>, word: string)
    requires !s.leetSpeak && Downcase(word) in excluded
    ensures !Banned(s.(dictionary := Exclude(s.dictionary, excluded)), word)
  {
  }

  /** `replacement(word)` under the settings in force. */
  function Redact(s: Settings, word: string): string {
    Replacement(s.dictionary, s.replacementText, s.replaceMethod, word)
  }

  predicate Masking(s: Settings) {
    IsMasking(StrategyOf(s.replaceMethod))
  }

  /** The test at the head of `clean_word`: short once stripped, or whitelisted once downcased. */
  predicate Exempt(s: Settings, word: string) {
    |Strip(word)| <= 2 || Downcase(word) in s.whitelist
  }

  /** `word.gsub(/\W/, '')`: the word characters of `word`, in order. */
  function RemoveNonWord(word: string): (r: string)
    ensures |r| <= |word|
    ensures forall c :: c in r ==> c in word && IsWordChar(c)
    ensures Free(word, NonWord) ==> r == word
    ensures r == Keep(word, NotWord)
  {
    GsubDeleteAtom(word, 0, NotWord);
    assert word[0..] == word;
    Gsub(word, [[NotWord]], "")
  }

  /** The last step of `clean_word`: a banned word is replaced, any other kept. */
  function Settle(s: Settings, w: string): (r: string)
    ensures !Banned(s, w) ==> r == w
    ensures Banned(s, w) ==> r == Redact(s, w)
    ensures Masking(s) ==> |r| == |w| && forall c :: c in r ==> c == '*' || c in w
  {
    if Banned(s, w) then Redact(s, w) else w
  }

  /**
   * What `clean_word` does with a split word once its pieces are cleaned and
   * rejoined: the rejoined word stripped of non-word characters takes its
   * place when that stripped form is banned, and the result is settled.
   */
  function Rejoin(s: Settings, rejoined: string): (r: string)
    ensures Masking(s) ==> |r| <= |rejoined| && forall c :: c in r ==> c == '*' || c in rejoined
    ensures !Banned(s, RemoveNonWord(rejoined)) && !Banned(s, rejoined) ==> r == rejoined
  {
    var concat := RemoveNonWord(rejoined);
    Settle(s, if Banned(s, concat) then concat else rejoined)
  }

  /** Which word `Rejoin` redacts: the stripped form when that is banned, otherwise the rejoined word when that is. */
  lemma RejoinRedacts(s: Settings, rejoined: string)
    ensures Banned(s, RemoveNonWord(rejoined)) ==> Rejoin(s, rejoined) == Redact(s, RemoveNonWord(rejoined))
    ensures !Banned(s, RemoveNonWord(rejoined)) && Banned(s, rejoined) ==> Rejoin(s, rejoined) == Redact(s, rejoined)
  {
  }

  /**
   * `clean_word(word)`. An exempt word comes back as it is. A word holding a
   * non-word character is split into single non-word characters and runs of
   * word characters, each piece is cleaned, and the pieces are rejoined; if
   * the rejoined word stripped of its non-word characters is banned, that
   * stripped word is what gets redacted. A word is redacted when banned.
   */
  function CleanWord(s: Settings, word: string): (r: string)
    ensures Exempt(s, word) ==> r == word
    ensures !Exempt(s, word) && Free(word, NonWord) ==> r == (if Banned(s, word) then Redact(s, word) else word)
    decreases |word|, 1
  {
    if Exempt(s, word) then word
    else if !Free(word, NonWord) then Rejoin(s, Join(CleanPieces(s, word)))
    else Settle(s, word)
  }

  /** The pieces of a split word, each cleaned. */
  function CleanPieces(s: Settings, word: string): (r: seq<string>)
    requires !Exempt(s, word) && !Free(word, NonWord)
    ensures |r| == |Split(word, NonWord)|
    decreases |word|, 0
  {
    CleanEach(s, word, Split(word, NonWord))
  }

  /** `pieces`, each shorter than `word`, each cleaned. */
  function CleanEach(s: Settings, word: string, pieces: seq<string>): (r: seq<string>)
    requires forall k :: 0 <= k < |pieces| ==> |pieces[k]| < |word|
    ensures |r| == |pieces|
    decreases |word|, 0, |pieces|
  {
    if pieces == [] then [] else [CleanWord(s, pieces[0])] + CleanEach(s, word, pieces[1..])
  }

  /** Piece `k` of a split word, cleaned. */
  lemma PieceCleaned(s: Settings, word: string, k: nat)
    requires !Exempt(s, word) && !Free(word, NonWord) && k < |Split(word, NonWord)|
    ensures CleanPieces(s, word)[k] == CleanWord(s, Split(word, NonWord)[k])
  {
    CleanEachAt(s, word, Split(word, NonWord), k);
  }

  /** Element `k` of `CleanEach` is the cleaning of piece `k`. */
  lemma {:induction false} CleanEachAt(s: Settings, word: string, pieces: seq<string>, k: nat)
    requires forall j :: 0 <= j < |pieces| ==> |pieces[j]| < |word|
    requires k < |pieces|
    ensures CleanEach(s, word, pieces)[k] == CleanWord(s, pieces[k])
    decreases k
  {
    if k > 0 {
      CleanEachAt(s, word, pieces[1..], k - 1);
    }
  }

  /**
   * Under a masking strategy `clean_word` never lengthens a word, keeps the
   * length of a word without non-word characters, and yields only `*` and
   * characters of the word.
   */
  lemma {:induction false} CleanWordMasked(s: Settings, word: string)
    requires Masking(s)
    ensures |CleanWord(s, word)| <= |word|
    ensures Free(word, NonWord) ==> |CleanWord(s, word)| == |word|
    ensures forall c :: c in CleanWord(s, word) ==> c == '*' || c in word
    decreases |word|
  {
    if !Exempt(s, word) && !Free(word, NonWord) {
      var pieces := Split(word, NonWord);
      var cleaned := CleanPieces(s, word);
      forall k | 0 <= k < |pieces|
        ensures |cleaned[k]| <= |pieces[k]| && forall c :: c in cleaned[k] ==> c == '*' || c in pieces[k]
      {
        PieceCleaned(s, word, k);
        CleanWordMasked(s, pieces[k]);
      }
      MaskedPiecesFacts(s, word, pieces, cleaned);
    }
  }

  /** Joining the pieces' cleanings keeps the masking bounds of each piece. */
  lemma MaskedPiecesFacts(s: Settings, word: string, pieces: seq<string>, cleaned: seq<string>)
    requires Join(pieces) == word && |cleaned| == |pieces|
    requires forall k :: 0 <= k < |pieces| && Masking(s) ==>
      |cleaned[k]| <= |pieces[k]| && forall c :: c in cleaned[k] ==> c == '*' || c in pieces[k]
    ensures Masking(s) ==> |Join(cleaned)| <= |word|
    ensures Masking(s) ==> forall c :: c in Join(cleaned) ==> c == '*' || c in word
  {
    if Masking(s) {
      JoinShorter(cleaned, pieces);
      forall c | c in Join(cleaned)
        ensures c == '*' || c in word
      {
        JoinChars(cleaned, c);
        var k :| 0 <= k < |cleaned| && c in cleaned[k];
        if c != '*' {
          JoinContains(pieces, k, c);
        }
      }
    }
  }

  /** `clean(text, options)` once `options` has been stored: blank text as it is, otherwise `clean_word` over the whitespace split, rejoined. */
  function CleanText(s: Settings, text: string): string {
    if Blank(text) then text else Join(CleanTokens(s, Split(text, Whitespace)))
  }

  /** Each token of the whitespace split, cleaned. */
  function CleanTokens(s: Settings, tokens: seq<string>): (r: seq<string>)
    ensures |r| == |tokens|
  {
    seq(|tokens|, k requires 0 <= k < |tokens| => CleanWord(s, tokens[k]))
  }

  /** The cleaning of a piece that holds no non-word character: exemption, then redaction if banned. */
  function CleanLeaf(s: Settings, piece: string): string {
    if Exempt(s, piece) then piece else if Banned(s, piece) then Redact(s, piece) else piece
  }

  /**
   * The recursion of `clean_word` is one level deep: a piece of a split word
   * is a single non-word character (exempt, as it is short) or a run of word
   * characters, and neither enters the splitting branch again.
   */
  lemma PieceIsLeaf(s: Settings, word: string, piece: string)
    requires piece in Split(word, NonWord)
    ensures CleanWord(s, piece) == CleanLeaf(s, piece)
  {
    SplitPiece(word, NonWord, piece);
  }

  /** Piece `k` of a split word is cleaned as a leaf. */
  lemma CleanPieceAt(s: Settings, word: string, k: nat)
    requires !Exempt(s, word) && !Free(word, NonWord) && k < |Split(word, NonWord)|
    ensures CleanPieces(s, word)[k] == CleanLeaf(s, Split(word, NonWord)[k])
  {
    var p := Split(word, NonWord)[k];
    assert p in Split(word, NonWord);
    PieceCleaned(s, word, k);
    PieceIsLeaf(s, word, p);
  }

  /** Each piece cleaned as a leaf. */
  function CleanLeaves(s: Settings, pieces: seq<string>): (r: seq<string>)
    ensures |r| == |pieces|
  {
    seq(|pieces|, k requires 0 <= k < |pieces| => CleanLeaf(s, pieces[k]))
  }

  /**
   * A word that is neither exempt nor free of non-word characters is
   * cleaned by cleaning each piece of its split as a leaf, rejoining, and
   * settling the rejoined word as `clean_word` does: no deeper recursion.
   */
  lemma SplitWordOneLevel(s: Settings, word: string)
    requires !Exempt(s, word) && !Free(word, NonWord)
    ensures CleanWord(s, word) == Rejoin(s, Join(CleanLeaves(s, Split(word, NonWord))))
  {
    var pieces := Split(word, NonWord);
    var cleaned := CleanPieces(s, word);
    var leaves := CleanLeaves(s, pieces);
    forall k | 0 <= k < |pieces|
      ensures cleaned[k] == leaves[k]
    {
      CleanPieceAt(s, word, k);
    }
    assert cleaned == leaves;
  }

  /** No piece of the word, nor the word itself, nor its non-word-stripped form is banned. */
  ghost predicate Innocent(s: Settings, word: string) {
    && !Banned(s, word)
    && (!Free(word, NonWord) ==>
          && !Banned(s, RemoveNonWord(word))
          && forall p :: p in Split(word, NonWord) ==> Exempt(s, p) || !Banned(s, p))
  }

  /** `clean_word` leaves an innocent word as it is. */
  lemma InnocentWordUnchanged(s: Settings, word: string)
    requires Innocent(s, word)
    ensures CleanWord(s, word) == word
  {
    if !Exempt(s, word) && !Free(word, NonWord) {
      var pieces := Split(word, NonWord);
      var cleaned := CleanPieces(s, word);
      forall k | 0 <= k < |pieces|
        ensures cleaned[k] == pieces[k]
      {
        assert pieces[k] in pieces;
        InnocentPiece(s, word, k);
      }
      assert cleaned == pieces;
    }
  }

  /** A piece of an innocent word that is exempt or not banned is cleaned to itself. */
  lemma InnocentPiece(s: Settings, word: string, k: nat)
    requires !Exempt(s, word) && !Free(word, NonWord) && k < |Split(word, NonWord)|
    requires Exempt(s, Split(word, NonWord)[k]) || !Banned(s, Split(word, NonWord)[k])
    ensures CleanPieces(s, word)[k] == Split(word, NonWord)[k]
  {
    CleanPieceAt(s, word, k);
  }

  /**
   * `clean` changes nothing in a text whose every whitespace-delimited token
   * is exempt (short or whitelisted) or innocent.
   */
  lemma CleanTextUnchanged(s: Settings, text: string)
    requires forall p :: p in Split(text, Whitespace) && Free(p, Whitespace) ==> Exempt(s, p) || Innocent(s, p)
    ensures CleanText(s, text) == text
  {
    if !Blank(text) {
      var pieces := Split(text, Whitespace);
      var cleaned := CleanTokens(s, pieces);
      forall k | 0 <= k < |pieces|
        ensures cleaned[k] == pieces[k]
      {
        TokenUnchanged(s, text, k);
      }
      assert cleaned == pieces;
    }
  }

  /** One token of such a text: a separator is exempt, any other token exempt or innocent. */
  lemma TokenUnchanged(s: Settings, text: string, k: nat)
    requires forall p :: p in Split(text, Whitespace) && Free(p, Whitespace) ==> Exempt(s, p) || Innocent(s, p)
    requires k < |Split(text, Whitespace)|
    ensures CleanWord(s, Split(text, Whitespace)[k]) == Split(text, Whitespace)[k]
  {
    var pieces := Split(text, Whitespace);
    var p := pieces[k];
    assert p in pieces;
    if k % 2 == 1 {
      assert |Strip(p)| <= 1;
    } else if !Exempt(s, p) {
      InnocentWordUnchanged(s, p);
    }
  }

  /**
   * Under a masking strategy every whitespace character of the text survives,
   * in order, and no new one appears: a token never gains whitespace and a
   * separator is never touched.
   */
  lemma WhitespaceSurvives(s: Settings, text: string)
    requires Masking(s)
    ensures SpacesOf(CleanText(s, text)) == SpacesOf(text)
    ensures |CleanText(s, text)| <= |text|
  {
    if !Blank(text) {
      var pieces := Split(text, Whitespace);
      var cleaned := CleanTokens(s, pieces);
      forall k | 0 <= k < |pieces|
        ensures SpacesOf(cleaned[k]) == SpacesOf(pieces[k])
        ensures |cleaned[k]| <= |pieces[k]|
      {
        TokenSpaces(s, text, k);
      }
      SpacesOfJoinPointwise(cleaned, pieces);
      JoinShorter(cleaned, pieces);
    }
  }

  /** One token under a masking strategy: a separator is kept, any other token gains no whitespace and no length. */
  lemma TokenSpaces(s: Settings, text: string, k: nat)
    requires Masking(s) && k < |Split(text, Whitespace)|
    ensures SpacesOf(CleanWord(s, Split(text, Whitespace)[k])) == SpacesOf(Split(text, Whitespace)[k])
    ensures |CleanWord(s, Split(text, Whitespace)[k])| <= |Split(text, Whitespace)[k]|
  {
    var p := Split(text, Whitespace)[k];
    if k % 2 == 1 {
      SeparatorKept(s, p);
    } else {
      WordGainsNoSpace(s, p);
    }
  }

  /** A single whitespace character is exempt, hence kept. */
  lemma SeparatorKept(s: Settings, p: string)
    requires |p| == 1
    ensures CleanWord(s, p) == p
  {
    assert |Strip(p)| <= 1;
    assert Exempt(s, p);
  }

  /** Under a masking strategy a token without whitespace is cleaned to one without whitespace and no longer. */
  lemma WordGainsNoSpace(s: Settings, p: string)
    requires Masking(s) && Free(p, Whitespace)
    ensures SpacesOf(CleanWord(s, p)) == [] == SpacesOf(p)
    ensures |CleanWord(s, p)| <= |p|
  {
    var c := CleanWord(s, p);
    CleanWordMasked(s, p);
    forall i | 0 <= i < |c| ensures !IsSpace(c[i]) {
      assert c[i] in c;
    }
  }

  /** No replacement the settings can produce holds whitespace: neither `replacement_text` nor any dictionary value. */
  predicate SpaceFreeOutputs(s: Settings) {
    && Free(s.replacementText, Whitespace)
    && forall w :: w in s.dictionary ==> Free(s.dictionary[w], Whitespace)
  }

  /** Every odd token of the whitespace split, a single whitespace character, is kept whatever the method. */
  lemma SeparatorsKept(s: Settings, text: string)
    ensures forall k :: 0 <= k < |Split(text, Whitespace)| && k % 2 == 1 ==>
      CleanTokens(s, Split(text, Whitespace))[k] == Split(text, Whitespace)[k]
  {
    var pieces := Split(text, Whitespace);
    forall k | 0 <= k < |pieces| && k % 2 == 1
      ensures CleanTokens(s, pieces)[k] == pieces[k]
    {
      SeparatorKept(s, pieces[k]);
    }
  }

  /** With whitespace-free replacements, a word without whitespace is redacted to one without whitespace. */
  lemma RedactSpaceFree(s: Settings, w: string)
    requires SpaceFreeOutputs(s) && Free(w, Whitespace)
    ensures Free(Redact(s, w), Whitespace)
  {
    var r := Redact(s, w);
    if Masking(s) {
      forall i | 0 <= i < |r|
        ensures !IsSep(r[i], Whitespace)
      {
        assert r[i] == '*' || r[i] == w[i];
      }
    }
  }

  /** `Rejoin` keeps a whitespace-free word free of whitespace. */
  lemma RejoinSpaceFree(s: Settings, x: string)
    requires SpaceFreeOutputs(s) && Free(x, Whitespace)
    ensures Free(Rejoin(s, x), Whitespace)
  {
    var concat := RemoveNonWord(x);
    FreeChars(x, Whitespace);
    FreeChars(concat, Whitespace);
    RedactSpaceFree(s, if Banned(s, concat) then concat else x);
  }

  /** With whitespace-free replacements, `clean_word` never brings whitespace into a token. */
  lemma {:induction false} CleanWordSpaceFree(s: Settings, word: string)
    requires SpaceFreeOutputs(s) && Free(word, Whitespace)
    ensures Free(CleanWord(s, word), Whitespace)
    decreases |word|
  {
    if !Exempt(s, word) {
      if !Free(word, NonWord) {
        var pieces := Split(word, NonWord);
        var cleaned := CleanPieces(s, word);
        forall k | 0 <= k < |cleaned|
          ensures Free(cleaned[k], Whitespace)
        {
          PartFree(pieces, k, Whitespace);
          PieceCleaned(s, word, k);
          CleanWordSpaceFree(s, pieces[k]);
        }
        JoinFree(cleaned, Whitespace);
        RejoinSpaceFree(s, Join(cleaned));
      } else {
        RedactSpaceFree(s, word);
      }
    }
  }

  /** With whitespace-free replacements, each token keeps its whitespace. */
  lemma TokenSpacesKept(s: Settings, text: string, k: nat)
    requires SpaceFreeOutputs(s) && k < |Split(text, Whitespace)|
    ensures SpacesOf(CleanWord(s, Split(text, Whitespace)[k])) == SpacesOf(Split(text, Whitespace)[k])
  {
    var p := Split(text, Whitespace)[k];
    if k % 2 == 1 {
      SeparatorKept(s, p);
    } else {
      CleanWordSpaceFree(s, p);
      var c := CleanWord(s, p);
      assert forall i :: 0 <= i < |c| ==> !IsSpace(c[i]);
      assert forall i :: 0 <= i < |p| ==> !IsSpace(p[i]);
    }
  }

  /**
   * Whatever the method, as long as `replacement_text` and the dictionary
   * values hold no whitespace, `clean` keeps exactly the whitespace
   * characters of the text, in order.
   */
  lemma WhitespaceKept(s: Settings, text: string)
    requires SpaceFreeOutputs(s)
    ensures SpacesOf(CleanText(s, text)) == SpacesOf(text)
  {
    if !Blank(text) {
      var pieces := Split(text, Whitespace);
      var cleaned := CleanTokens(s, pieces);
      forall k | 0 <= k < |pieces|
        ensures SpacesOf(cleaned[k]) == SpacesOf(pieces[k])
      {
        TokenSpacesKept(s, text, k);
      }
      SpacesOfJoinPointwise(cleaned, pieces);
    }
  }
}
