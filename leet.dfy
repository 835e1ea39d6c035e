/**
 * `ProfanityFilter::Base.leet_words`: the de-obfuscated variants of a word.
 * Each of 26 rules, one per target letter, replaces every occurrence of its
 * glyphs (ordered alternatives, as in the source's regular expressions) by
 * that letter. Every rule is applied to the original word on its own (no
 * rule sees another rule's output) and duplicates are removed, first
 * occurrence kept (`uniq`).
 */
module Leet {
  import opened Wrappers
  import opened Text
  import opened Pattern

  datatype Rule = Rule(alternatives: seq<Alternative>, letter: char)

  /** `word.gsub(/(alt0|alt1|...)/, letter)`. */
  function Apply(rule: Rule, word: string): string {
    Gsub(word, rule.alternatives, [rule.letter])
  }

  /** How a glyph is written: at least one character. */
  type Spelling = s: string | |s| > 0 witness "?"

  /** Each spelling as an alternative of literal characters. */
  function Glyphs(spellings: seq<Spelling>): (alts: seq<Alternative>)
    ensures |alts| == |spellings|
    ensures forall i :: 0 <= i < |spellings| ==> alts[i] == Lits(spellings[i])
  {
    seq(|spellings|, i requires 0 <= i < |spellings| => Lits(spellings[i]))
  }

  /**
   * The `b` rule exactly as the source writes it, `/(8|\|3|6|13||\]3)/`: the
   * `||` holds an empty alternative, which matches at every position before
   * `]3` is ever tried.
   */
  const BRuleAsWritten: Rule := Rule(Glyphs(["8", "|3", "6", "13"]) + [Lits("")] + Glyphs(["]3"]), 'b')

  /** The `b` rule without the empty alternative. */
  const BRule: Rule := RuleAt(1)

  /** The number of rules: one per letter of the alphabet. */
  const RuleCount := 26

  /**
   * The glyphs of the rule at position `k`, in source order, for the letters
   * `a` (position 0) to `z` (position 25). Escapes are read as Ruby reads
   * them: `\x` for a punctuation `x` is `x` itself, and `\V` and `\l` (no
   * meaning in Ruby's regular expressions) are the letters `V` and `l`.
   */
  function GlyphsAt(k: nat): seq<Spelling>
    requires k < RuleCount
  {
    match k
    case 0 => GlyphsA
    case 1 => GlyphsB
    case 2 => GlyphsC
    case 3 => GlyphsD
    case 4 => GlyphsE
    case 5 => GlyphsF
    case 6 => GlyphsG
    case 7 => GlyphsH
    case 8 => GlyphsI
    case 9 => GlyphsJ
    case 10 => GlyphsK
    case 11 => GlyphsL
    case 12 => GlyphsM
    case 13 => GlyphsN
    case 14 => GlyphsO
    case 15 => GlyphsP
    case 16 => GlyphsQ
    case 17 => GlyphsR
    case 18 => GlyphsS
    case 19 => GlyphsT
    case 20 => GlyphsU
    case 21 => GlyphsV
    case 22 => GlyphsW
    case 23 => GlyphsX
    case 24 => GlyphsY
    case _ => GlyphsZ
  }

  const GlyphsA: seq<Spelling> := ["4", "@", @"/-\", @"/\", "^"]
  const GlyphsB: seq<Spelling> := ["8", "|3", "6", "13", "]3"]
  const GlyphsC: seq<Spelling> := ["(", "<", "{"]
  const GlyphsD: seq<Spelling> := ["|)", "[)", "])", "I>", "|>", "0"]
  const GlyphsE: seq<Spelling> := ["3", "&", "[-"]
  const GlyphsF: seq<Spelling> := ["|=", "]=", "}", "ph", "(="]
  const GlyphsG: seq<Spelling> := ["6", "9", "&", "(_+", "C-", "cj"]
  const GlyphsH: seq<Spelling> := ["|-|", "#", "]-[", "[-]", ")-(", "(-)", ":-:", "}{", "}-{"]
  const GlyphsI: seq<Spelling> := ["!", "1", "|"]
  const GlyphsJ: seq<Spelling> := ["_|", "_/", "]", "</", "_)"]
  const GlyphsK: seq<Spelling> := ["X", "|<", "|X", "|{"]
  const GlyphsL: seq<Spelling> := ["1", "7", "|_", "|", "|_"]
  const GlyphsM: seq<Spelling> := ["44", @"/\/\", @"|\/|", "|v|", "IYI", "IVI", "[V]", "^^", @"//\\//\\", "(V)", @"(\/)",
    @"/|\", "/|/|", @".\\", @"/^^\", @"/V\", "|^^|", "AA"]
  const GlyphsN: seq<Spelling> := [@"|\|", @"/\/", @"//\\//", @"[\]", @"<\>", @"{\}", "//", @"[]\[]", @"]\[", "~"]
  const GlyphsO: seq<Spelling> := ["0", "()", "[]"]
  const GlyphsP: seq<Spelling> := ["|*", "|o", "|>", "|\"", "?", "9", "[]D", "|7", "|D"]
  const GlyphsQ: seq<Spelling> := ["0_", "0,", "(,)", "<|", "9"]
  const GlyphsR: seq<Spelling> := ["|2", "2", "/2", "I2", "|^", "|~", "lz", "|2", "[z", "|`", "l2"]
  const GlyphsS: seq<Spelling> := ["5", "$", "z"]
  const GlyphsT: seq<Spelling> := ["7", "+", "-|-", "1", "']['"]
  const GlyphsU: seq<Spelling> := ["|_|", "(_)", "M", "[_]", @"\_/", @"\_\", "/_/"]
  const GlyphsV: seq<Spelling> := [@"\/", @"\\//"]
  const GlyphsW: seq<Spelling> := [@"\/\/", "vv", "'//", @"\\'", @"\^/", "(n)", @"\X/", @"\|/", @"\_|_/", @"\\//\\//",
    @"\_:_/", "]I[", "UU"]
  const GlyphsX: seq<Spelling> := ["%", "><", "}{", "*", ")("]
  const GlyphsY: seq<Spelling> := ["j", "`/", "`(", "-/", "'/"]
  const GlyphsZ: seq<Spelling> := ["2", "~/_", "%", "7_"]


  /**
   * The rule at position `k`: its glyphs as literal alternatives, and for
   * the `r` rule a last alternative `.\-`, any character but a newline
   * followed by `-`.
   */
  function RuleAt(k: nat): (rule: Rule)
    requires k < RuleCount
    ensures rule.letter as int == 'a' as int + k
  {
    var glyphs := Glyphs(GlyphsAt(k));
    Rule(if k == 17 then glyphs + [[AnyButNewline, Lit('-')]] else glyphs, ('a' as int + k) as char)
  }

  /** `Array#uniq`: duplicates removed, the first occurrence of each element kept in place. */
  function Uniq(xs: seq<string>): (r: seq<string>)
    ensures forall v :: v in r <==> v in xs
    ensures forall i, j :: 0 <= i < j < |r| ==> r[i] != r[j]
    ensures |r| <= |xs|
  {
    if xs == [] then []
    else
      var init := xs[..|xs| - 1];
      var x := xs[|xs| - 1];
      assert xs == init + [x];
      var r := Uniq(init);
      if x in r then r else r + [x]
  }

  /** Each rule applied to the original word, in table order. */
  function Variants(word: string): (vs: seq<string>)
    ensures |vs| == RuleCount
  {
    seq(RuleCount, k requires 0 <= k < RuleCount => Apply(RuleAt(k), word))
  }

  /** `leet_words(word)`: at most one variant per rule and no variant twice. */
  function LeetWords(word: string): (r: seq<string>)
    ensures |r| <= RuleCount
    ensures forall i, j :: 0 <= i < j < |r| ==> r[i] != r[j]
  {
    Uniq(Variants(word))
  }

  /** A string is a leet variant of a word exactly when some single rule produces it from the word. */
  lemma LeetWordsMeans(word: string)
    ensures forall v :: v in LeetWords(word) <==> exists k :: 0 <= k < RuleCount && v == Apply(RuleAt(k), word)
  {
    var vs := Variants(word);
    forall v ensures v in LeetWords(word) <==> exists k :: 0 <= k < RuleCount && v == Apply(RuleAt(k), word) {
      if v in vs {
        var k :| 0 <= k < |vs| && vs[k] == v;
      }
      if exists k :: 0 <= k < RuleCount && v == Apply(RuleAt(k), word) {
        var k :| 0 <= k < RuleCount && v == Apply(RuleAt(k), word);
        assert vs[k] == v;
      }
    }
  }

  predicate WellFormed(rule: Rule) {
    NoEmptyAlternative(rule.alternatives)
  }

  /** Every alternative of every rule in the table is a glyph of at least one character. */
  lemma TableWellFormed()
    ensures forall k :: 0 <= k < RuleCount ==> WellFormed(RuleAt(k))
  {
  }

  /** No rule lengthens a word: each glyph is replaced by a single letter. */
  lemma VariantsNoLonger(word: string)
    ensures forall v :: v in LeetWords(word) ==> |v| <= |word|
  {
    TableWellFormed();
  }

  /** A well-formed rule leaves a word in which none of its glyphs occurs unchanged. */
  lemma ApplyNoMatch(rule: Rule, word: string)
    requires WellFormed(rule)
    requires forall a, j :: a in rule.alternatives && 0 <= j < |word| ==> !MatchesAt(word, j, a)
    ensures Apply(rule, word) == word
  {
    GsubNoMatch(word, 0, rule.alternatives, [rule.letter]);
  }

  lemma UniqAllSame(vs: seq<string>, w: string)
    requires |vs| > 0 && forall k :: 0 <= k < |vs| ==> vs[k] == w
    ensures Uniq(vs) == [w]
  {
    var r := Uniq(vs);
    assert w in r by {
      assert vs[0] in vs;
    }
  }

  /** A word in which no glyph of any rule occurs is its own and only leet variant. */
  lemma PlainWordOnlyVariant(word: string)
    requires forall k, a, j :: 0 <= k < RuleCount && a in RuleAt(k).alternatives && 0 <= j < |word| ==>
      !MatchesAt(word, j, a)
    ensures LeetWords(word) == [word]
  {
    TableWellFormed();
    var vs := Variants(word);
    forall k | 0 <= k < |vs|
      ensures vs[k] == word
    {
      ApplyNoMatch(RuleAt(k), word);
    }
    UniqAllSame(vs, word);
  }

  /** A `b` before every character and one at the end: what the `b` rule as written makes of a word. */
  function Interleaved(w: string): (r: string)
    ensures |r| == 2 * |w| + 1
  {
    if w == [] then "b" else "b" + [w[0]] + Interleaved(w[1..])
  }

  /**
   * The `b` rule as written: at a position where none of `8`, `|3`, `6`,
   * `13` starts, the empty alternative is the first to match.
   */
  lemma AsWrittenEmptyFirst(s: string, i: nat)
    requires i <= |s| && (i < |s| ==> s[i] !in "8|61")
    ensures FirstMatch(s, i, BRuleAsWritten.alternatives) == Some(4)
  {
    var alts := BRuleAsWritten.alternatives;
    assert alts[0] == Lits("8") && alts[1] == Lits("|3") && alts[2] == Lits("6");
    assert alts[3] == Lits("13") && alts[4] == Lits("");
    LitsMismatch(s, i, "8", 0);
    LitsMismatch(s, i, "|3", 0);
    LitsMismatch(s, i, "6", 0);
    LitsMismatch(s, i, "13", 0);
    LitsMatch(s, i, "");
    FirstMatchIs(s, i, alts, 4);
  }

  /**
   * The `b` rule as written turns a word free of `8`, `|`, `6` and `1` into
   * that word with a `b` inserted before every character and at the end,
   * more than twice as long, where the rule was meant to leave it alone.
   */
  lemma {:induction false} AsWrittenInterleaves(s: string, i: nat)
    requires i <= |s| && forall j :: i <= j < |s| ==> s[j] !in "8|61"
    ensures GsubFrom(s, i, BRuleAsWritten.alternatives, "b") == Interleaved(s[i..])
    decreases |s| - i
  {
    AsWrittenEmptyFirst(s, i);
    assert |BRuleAsWritten.alternatives[4]| == 0;
    if i < |s| {
      AsWrittenInterleaves(s, i + 1);
      assert s[i..][1..] == s[i + 1..];
    }
  }

  /**
   * The as-written `b` rule lengthens every word free of `8`, `|`, `6` and
   * `1` to `2 * |w| + 1` characters ("ab" becomes "babbb"), because it has
   * an empty alternative.
   */
  lemma BRuleAsWrittenInserts(w: string)
    requires forall j :: 0 <= j < |w| ==> w[j] !in "8|61"
    ensures |Apply(BRuleAsWritten, w)| == 2 * |w| + 1
    ensures Apply(BRuleAsWritten, w) != w
    ensures !WellFormed(BRuleAsWritten)
  {
    AsWrittenInterleaves(w, 0);
    assert w[0..] == w;
    assert |BRuleAsWritten.alternatives[4]| == 0;
  }

  /** The corrected `b` rule leaves a word free of its glyphs as it is. */
  lemma BRuleLeavesPlainWord(s: string)
    requires forall j :: 0 <= j < |s| ==> s[j] !in "8|61]"
    ensures Apply(BRule, s) == s
  {
    TableWellFormed();
    forall a, j | a in BRule.alternatives && 0 <= j < |s|
      ensures !MatchesAt(s, j, a)
    {
      var m :| 0 <= m < |BRule.alternatives| && BRule.alternatives[m] == a;
      assert a == Lits(GlyphsB[m]);
      LitsMismatch(s, j, GlyphsB[m], 0);
    }
    ApplyNoMatch(BRule, s);
  }

  /** The correction changes what leet mode reads: `8ad` reads as `bad` under the corrected rule, but not under the rule as written. */
  lemma BRuleReadsEight()
    ensures Apply(BRule, "8ad") == "bad"
    ensures |Apply(BRuleAsWritten, "8ad")| == 6
  {
    var s := "8ad";
    var alts := BRule.alternatives;
    assert alts[0] == Lits("8");
    LitsMatch(s, 0, "8");
    FirstMatchIs(s, 0, alts, 0);
    TableWellFormed();
    forall a, j | a in alts && 1 <= j < |s|
      ensures !MatchesAt(s, j, a)
    {
      var m :| 0 <= m < |alts| && alts[m] == a;
      LitsMismatch(s, j, GlyphsB[m], 0);
    }
    GsubNoMatch(s, 1, alts, "b");
    assert s[1..] == "ad";
    AsWrittenMissesEight();
  }

  /** Under the rule as written, `8ad` becomes `b` followed by `ad` interleaved with `b`s. */
  lemma AsWrittenMissesEight()
    ensures |Apply(BRuleAsWritten, "8ad")| == 6
  {
    var s := "8ad";
    var written := BRuleAsWritten.alternatives;
    assert written[0] == Lits("8");
    LitsMatch(s, 0, "8");
    FirstMatchIs(s, 0, written, 0);
    AsWrittenInterleaves(s, 1);
  }

  /**
   * `leet_words` is only ever given a downcased word, so an alternative that
   * holds an upper-case letter (`X`, `M`, `IYI`, `AA`, `UU`, `I>`, `C-`, ...)
   * never matches.
   */
  lemma UpperCaseGlyphNeverMatches(word: string, j: nat, alt: Alternative, k: nat)
    requires k < |alt| && alt[k].Lit? && IsUpper(alt[k].c)
    ensures !MatchesAt(Downcase(word), j, alt)
  {
  }
}
