/**
 * Ruby's `String#gsub(pattern, replacement)` for the patterns the filter
 * uses: an ordered alternation `(alt0|alt1|...)` whose alternatives are
 * sequences of single-character atoms. The search is leftmost; at each
 * position the first alternative (in the listed order) that matches wins;
 * matches do not overlap. An empty alternative matches at every position:
 * the replacement is emitted there and the scan moves past one character,
 * as Ruby does.
 */
module Pattern {
  import opened Wrappers
  import opened Text

  /** One character position of a pattern. */
  datatype Atom =
    | Lit(c: char)          // an ordinary or escaped character
    | AnyButNewline         // `.`
    | OneOf(chars: string)  // a bracket class such as `[aeiou]` under `/i`
    | NotWord               // `\W`

  type Alternative = seq<Atom>

  predicate AtomMatches(a: Atom, c: char) {
    match a
    case Lit(x) => c == x
    case AnyButNewline => c != '\n'
    case OneOf(cs) => c in cs
    case NotWord => !IsWordChar(c)
  }

  /** A literal alternative: each character stands for itself. */
  function Lits(s: string): (alt: Alternative)
    ensures |alt| == |s| && forall k :: 0 <= k < |s| ==> alt[k] == Lit(s[k])
  {
    seq(|s|, k requires 0 <= k < |s| => Lit(s[k]))
  }

  predicate MatchesAt(s: string, i: nat, alt: Alternative) {
    i + |alt| <= |s| && forall k :: 0 <= k < |alt| ==> AtomMatches(alt[k], s[i + k])
  }

  /** A literal alternative does not match where one of its characters differs or where it runs past the end. */
  lemma LitsMismatch(s: string, i: nat, lit: string, k: nat)
    requires k < |lit|
    requires i + |lit| > |s| || s[i + k] != lit[k]
    ensures !MatchesAt(s, i, Lits(lit))
  {
  }

  lemma LitsMatch(s: string, i: nat, lit: string)
    requires i + |lit| <= |s| && s[i..i + |lit|] == lit
    ensures MatchesAt(s, i, Lits(lit))
  {
    forall k | 0 <= k < |lit| ensures AtomMatches(Lits(lit)[k], s[i + k]) {
      assert s[i..i + |lit|][k] == s[i + k];
    }
  }

  predicate NoEmptyAlternative(alts: seq<Alternative>) {
    forall j :: 0 <= j < |alts| ==> |alts[j]| > 0
  }

  /** The index of the first alternative that matches at position `i`, if any. */
  function FirstMatch(s: string, i: nat, alts: seq<Alternative>): (r: Option<nat>)
    ensures r.Some? ==> r.value < |alts| && MatchesAt(s, i, alts[r.value])
    ensures r.Some? ==> forall j :: 0 <= j < r.value ==> !MatchesAt(s, i, alts[j])
    ensures r.None? ==> forall j :: 0 <= j < |alts| ==> !MatchesAt(s, i, alts[j])
  {
    if alts == [] then None
    else if MatchesAt(s, i, alts[0]) then Some(0)
    else match FirstMatch(s, i, alts[1..])
      case None => None
      case Some(j) => Some(j + 1)
  }

  /** The first alternative that matches is the one `FirstMatch` reports. */
  lemma {:induction false} FirstMatchIs(s: string, i: nat, alts: seq<Alternative>, m: nat)
    requires m < |alts| && MatchesAt(s, i, alts[m])
    requires forall j :: 0 <= j < m ==> !MatchesAt(s, i, alts[j])
    ensures FirstMatch(s, i, alts) == Some(m)
    decreases m
  {
    if m > 0 {
      assert !MatchesAt(s, i, alts[0]);
      FirstMatchIs(s, i, alts[1..], m - 1);
    }
  }

  /** `s[i..].gsub(/alts/, rep)`. */
  function GsubFrom(s: string, i: nat, alts: seq<Alternative>, rep: string): (r: string)
    requires i <= |s|
    ensures NoEmptyAlternative(alts) && |rep| <= 1 ==> |r| <= |s| - i
    ensures forall c :: c in r ==> c in rep || c in s[i..]
    decreases |s| - i
  {
    match FirstMatch(s, i, alts)
    case None =>
      if i == |s| then [] else
        var rest := GsubFrom(s, i + 1, alts, rep);
        assert forall c :: c in s[i + 1..] ==> c in s[i..];
        [s[i]] + rest
    case Some(j) =>
      if |alts[j]| > 0 then
        var rest := GsubFrom(s, i + |alts[j]|, alts, rep);
        assert forall c :: c in s[i + |alts[j]|..] ==> c in s[i..];
        rep + rest
      else if i == |s| then rep
      else
        var rest := GsubFrom(s, i + 1, alts, rep);
        assert forall c :: c in s[i + 1..] ==> c in s[i..];
        rep + [s[i]] + rest
  }

  function Gsub(s: string, alts: seq<Alternative>, rep: string): string {
    GsubFrom(s, 0, alts, rep)
  }

  /** Where no alternative matches from `i` on (and none is empty), gsub copies the rest. */
  lemma {:induction false} GsubNoMatch(s: string, i: nat, alts: seq<Alternative>, rep: string)
    requires i <= |s| && NoEmptyAlternative(alts)
    requires forall j, a :: i <= j < |s| && a in alts ==> !MatchesAt(s, j, a)
    ensures GsubFrom(s, i, alts, rep) == s[i..]
    decreases |s| - i
  {
    if i < |s| {
      assert FirstMatch(s, i, alts).None?;
      GsubNoMatch(s, i + 1, alts, rep);
      assert s[i..] == [s[i]] + s[i + 1..];
    } else {
      assert FirstMatch(s, i, alts).None?;
    }
  }

  /**
   * A one-atom pattern with a one-character replacement rewrites character
   * by character: each character the atom matches becomes `x`, every other
   * character stays where it is.
   */
  lemma {:induction false} GsubOneAtom(s: string, i: nat, a: Atom, x: char)
    requires i <= |s|
    ensures |GsubFrom(s, i, [[a]], [x])| == |s| - i
    ensures forall k :: i <= k < |s| ==>
      GsubFrom(s, i, [[a]], [x])[k - i] == if AtomMatches(a, s[k]) then x else s[k]
    decreases |s| - i
  {
    if i < |s| {
      var r := GsubFrom(s, i, [[a]], [x]);
      var rest := GsubFrom(s, i + 1, [[a]], [x]);
      OneAtomStep(s, i, a, x);
      GsubOneAtom(s, i + 1, a, x);
      forall k | i <= k < |s|
        ensures r[k - i] == if AtomMatches(a, s[k]) then x else s[k]
      {
        if k > i {
          assert r[k - i] == rest[k - (i + 1)];
        }
      }
    }
  }

  /** One step of a one-atom gsub: the character at `i`, rewritten or not, then the rest. */
  lemma OneAtomStep(s: string, i: nat, a: Atom, x: char)
    requires i < |s|
    ensures GsubFrom(s, i, [[a]], [x]) ==
      [if AtomMatches(a, s[i]) then x else s[i]] + GsubFrom(s, i + 1, [[a]], [x])
  {
    OneAtomMatches(s, i, a);
  }

  lemma OneAtomMatches(s: string, i: nat, a: Atom)
    requires i < |s|
    ensures MatchesAt(s, i, [a]) <==> AtomMatches(a, s[i])
  {
    assert [a][0] == a && s[i + 0] == s[i];
  }

  /** A one-atom pattern with an empty replacement deletes the characters the atom matches. */
  lemma {:induction false} GsubDeleteAtom(s: string, i: nat, a: Atom)
    requires i <= |s|
    ensures GsubFrom(s, i, [[a]], []) == Keep(s[i..], a)
    decreases |s| - i
  {
    if i < |s| {
      GsubDeleteAtom(s, i + 1, a);
      OneAtomMatches(s, i, a);
      assert s[i..][1..] == s[i + 1..];
    }
  }

  /** Reference definition: the characters of `s` that `a` does not match, in order. */
  function Keep(s: string, a: Atom): (r: string)
    ensures |r| <= |s|
    ensures forall c :: c in r ==> c in s && !AtomMatches(a, c)
    ensures (forall k :: 0 <= k < |s| ==> !AtomMatches(a, s[k])) ==> r == s
  {
    if s == [] then []
    else (if AtomMatches(a, s[0]) then [] else [s[0]]) + Keep(s[1..], a)
  }
}
