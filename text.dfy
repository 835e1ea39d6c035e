/**
 * Characters and strings as the filter sees them: the ASCII reading of the
 * Ruby regular-expression classes `\s`, `\w` and `\W`, `String#downcase`,
 * `String#strip`, ActiveSupport's `blank?`, `Array#join`, and `String#split`
 * with a one-character captured separator (`split(/(\s)/)`, `split(/(\W)/)`).
 */
module Text {

  /** `\s`: space, tab, line feed, vertical tab, form feed, carriage return. */
  predicate IsSpace(c: char) {
    c == ' ' || c == '\t' || c == '\n' || c == '\U{000B}' || c == '\U{000C}' || c == '\r'
  }

  /** `\w`: `[A-Za-z0-9_]`; `\W` is its complement. */
  predicate IsWordChar(c: char) {
    ('a' <= c <= 'z') || ('A' <= c <= 'Z') || ('0' <= c <= '9') || c == '_'
  }

  predicate IsUpper(c: char) {
    'A' <= c <= 'Z'
  }

  function Lower(c: char): char {
    if IsUpper(c) then (c as int + 32) as char else c
  }

  /** `String#downcase`, restricted to ASCII letters. */
  function Downcase(s: string): (r: string)
    ensures |r| == |s|
    ensures forall i :: 0 <= i < |s| ==> !IsUpper(r[i])
    ensures forall i :: 0 <= i < |s| && !IsUpper(s[i]) ==> r[i] == s[i]
    ensures forall i :: 0 <= i < |s| && IsUpper(s[i]) ==> r[i] as int == s[i] as int + ('a' as int - 'A' as int)
  {
    seq(|s|, i requires 0 <= i < |s| => Lower(s[i]))
  }

  /** `blank?` on a string: empty or made of whitespace only. */
  predicate Blank(s: string) {
    forall i :: 0 <= i < |s| ==> IsSpace(s[i])
  }

  /** The characters `String#strip` removes from both ends: whitespace and NUL. */
  predicate IsStripChar(c: char) {
    c == '\0' || IsSpace(c)
  }

  /** The number of whitespace or NUL characters at the start of `s`. */
  function LeadCount(s: string): (n: nat)
    ensures n <= |s|
    ensures forall k :: 0 <= k < n ==> IsStripChar(s[k])
    ensures n == |s| || !IsStripChar(s[n])
  {
    if s != [] && IsStripChar(s[0]) then
      var n := 1 + LeadCount(s[1..]);
      assert forall k :: 0 < k < n ==> s[k] == s[1..][k - 1];
      n
    else 0
  }

  /** The number of whitespace or NUL characters at the end of `s`. */
  function TrailCount(s: string): (n: nat)
    ensures n <= |s|
    ensures forall k :: |s| - n <= k < |s| ==> IsStripChar(s[k])
    ensures n == |s| || !IsStripChar(s[|s| - 1 - n])
  {
    if s != [] && IsStripChar(s[|s| - 1]) then
      var n := 1 + TrailCount(s[..|s| - 1]);
      assert forall k :: |s| - n <= k < |s| - 1 ==> s[k] == s[..|s| - 1][k];
      n
    else 0
  }

  /** `r` is `s[i..i + |r|]`, and only whitespace or NUL lies outside that slice. */
  predicate StripBounds(s: string, r: string, i: int) {
    && 0 <= i <= |s| - |r|
    && r == s[i..i + |r|]
    && (forall k :: 0 <= k < i ==> IsStripChar(s[k]))
    && (forall k :: i + |r| <= k < |s| ==> IsStripChar(s[k]))
  }

  /**
   * `String#strip`: the slice of `s` left once every leading and trailing
   * whitespace or NUL character is removed; it neither starts nor ends with one.
   */
  function Strip(s: string): (r: string)
    ensures |r| <= |s|
    ensures r == [] || (!IsStripChar(r[0]) && !IsStripChar(r[|r| - 1]))
    ensures exists i :: StripBounds(s, r, i)
  {
    var a := LeadCount(s);
    var rest := s[a..];
    var b := TrailCount(rest);
    var r := rest[..|rest| - b];
    assert r != [] ==> r[0] == s[a];
    assert r == s[a..a + |r|];
    assert forall k :: a + |r| <= k < |s| ==> s[k] == rest[k - a];
    assert StripBounds(s, r, a);
    r
  }

  /** `Array#join` with no separator. */
  function Join(xs: seq<string>): string {
    if xs == [] then [] else xs[0] + Join(xs[1..])
  }

  lemma {:induction false} JoinAppend(xs: seq<string>, ys: seq<string>)
    ensures Join(xs + ys) == Join(xs) + Join(ys)
  {
    if xs == [] {
      assert xs + ys == ys;
    } else {
      assert (xs + ys)[1..] == xs[1..] + ys;
      JoinAppend(xs[1..], ys);
    }
  }

  lemma JoinPair(a: string, b: string)
    ensures Join([a, b]) == a + b
  {
    assert [a, b][1..] == [b];
    assert [b][1..] == [];
    assert Join([b]) == b + Join([]);
  }

  /** Every character of a joined string comes from one of the parts. */
  lemma {:induction false} JoinChars(xs: seq<string>, c: char)
    requires c in Join(xs)
    ensures exists k :: 0 <= k < |xs| && c in xs[k]
  {
    if c in xs[0] {
    } else {
      JoinChars(xs[1..], c);
      var k :| 0 <= k < |xs[1..]| && c in xs[1..][k];
      assert c in xs[k + 1];
    }
  }

  /** Every character of a part occurs in the join. */
  lemma {:induction false} JoinContains(xs: seq<string>, k: nat, c: char)
    requires k < |xs| && c in xs[k]
    ensures c in Join(xs)
  {
    if k > 0 {
      JoinContains(xs[1..], k - 1, c);
    }
  }

  /** The whitespace characters of `s`, in order. */
  function SpacesOf(s: string): (r: string)
    ensures (forall k :: 0 <= k < |s| ==> !IsSpace(s[k])) ==> r == []
  {
    if s == [] then [] else (if IsSpace(s[0]) then [s[0]] else []) + SpacesOf(s[1..])
  }

  lemma {:induction false} SpacesOfAppend(a: string, b: string)
    ensures SpacesOf(a + b) == SpacesOf(a) + SpacesOf(b)
  {
    if a == [] {
      assert a + b == b;
    } else {
      assert (a + b)[1..] == a[1..] + b;
      SpacesOfAppend(a[1..], b);
    }
  }

  /** Taking the whitespace of a join part by part. */
  lemma {:induction false} SpacesOfJoin(xs: seq<string>)
    ensures SpacesOf(Join(xs)) == Join(seq(|xs|, k requires 0 <= k < |xs| => SpacesOf(xs[k])))
  {
    var ys := seq(|xs|, k requires 0 <= k < |xs| => SpacesOf(xs[k]));
    if xs != [] {
      SpacesOfAppend(xs[0], Join(xs[1..]));
      SpacesOfJoin(xs[1..]);
      assert ys[1..] == seq(|xs[1..]|, k requires 0 <= k < |xs[1..]| => SpacesOf(xs[1..][k]));
    }
  }

  /** Parts with pointwise the same whitespace give joins with the same whitespace. */
  lemma SpacesOfJoinPointwise(xs: seq<string>, ys: seq<string>)
    requires |xs| == |ys|
    requires forall k :: 0 <= k < |xs| ==> SpacesOf(xs[k]) == SpacesOf(ys[k])
    ensures SpacesOf(Join(xs)) == SpacesOf(Join(ys))
  {
    SpacesOfJoin(xs);
    SpacesOfJoin(ys);
    assert seq(|xs|, k requires 0 <= k < |xs| => SpacesOf(xs[k]))
        == seq(|ys|, k requires 0 <= k < |ys| => SpacesOf(ys[k]));
  }

  /** Pointwise shorter parts give a shorter join. */
  lemma {:induction false} JoinShorter(xs: seq<string>, ys: seq<string>)
    requires |xs| == |ys|
    requires forall k :: 0 <= k < |xs| ==> |xs[k]| <= |ys[k]|
    ensures |Join(xs)| <= |Join(ys)|
  {
    if xs != [] {
      JoinShorter(xs[1..], ys[1..]);
    }
  }

  /** The two single-character separator classes the filter splits on. */
  datatype Separator = Whitespace | NonWord

  predicate IsSep(c: char, sep: Separator) {
    match sep
    case Whitespace => IsSpace(c)
    case NonWord => !IsWordChar(c)
  }

  /** `s` holds no separator of class `sep`. */
  predicate Free(s: string, sep: Separator) {
    forall i :: 0 <= i < |s| ==> !IsSep(s[i], sep)
  }

  /** Being free of separators, stated on the characters of `s`. */
  lemma FreeChars(s: string, sep: Separator)
    ensures Free(s, sep) <==> forall c :: c in s ==> !IsSep(c, sep)
  {
    if forall c :: c in s ==> !IsSep(c, sep) {
      forall i | 0 <= i < |s|
        ensures !IsSep(s[i], sep)
      {
        assert s[i] in s;
      }
    }
  }

  /** Parts free of separators join into a string free of them. */
  lemma {:induction false} JoinFree(xs: seq<string>, sep: Separator)
    requires forall k :: 0 <= k < |xs| ==> Free(xs[k], sep)
    ensures Free(Join(xs), sep)
  {
    if xs != [] {
      JoinFree(xs[1..], sep);
      var a, b := xs[0], Join(xs[1..]);
      forall i | 0 <= i < |a + b|
        ensures !IsSep((a + b)[i], sep)
      {
        if i >= |a| {
          assert (a + b)[i] == b[i - |a|];
        }
      }
    }
  }

  /** Every part of a join free of separators is free of them. */
  lemma PartFree(xs: seq<string>, k: nat, sep: Separator)
    requires k < |xs| && Free(Join(xs), sep)
    ensures Free(xs[k], sep)
  {
    FreeChars(Join(xs), sep);
    forall c | c in xs[k]
      ensures !IsSep(c, sep)
    {
      JoinContains(xs, k, c);
    }
    FreeChars(xs[k], sep);
  }

  /** Position of the first separator, or `|s|` when there is none. */
  function FirstSep(s: string, sep: Separator): (i: nat)
    ensures i <= |s|
    ensures forall k :: 0 <= k < i ==> !IsSep(s[k], sep)
    ensures i < |s| ==> IsSep(s[i], sep)
  {
    if s == [] || IsSep(s[0], sep) then 0 else 1 + FirstSep(s[1..], sep)
  }

  /**
   * The shape of a split: field, separator, field, ..., field, where every
   * separator is one character of class `sep` and no field holds one.
   */
  ghost predicate Alternating(r: seq<string>, sep: Separator) {
    |r| % 2 == 1 && Shaped(r, sep)
  }

  /** Fields at even positions, single separators at odd ones. */
  ghost predicate Shaped(r: seq<string>, sep: Separator) {
    && (forall k :: 0 <= k < |r| && k % 2 == 0 ==> Free(r[k], sep))
    && (forall k :: 0 <= k < |r| && k % 2 == 1 ==> |r[k]| == 1 && IsSep(r[k][0], sep))
  }

  lemma ConsFields(a: string, b: string, rest: seq<string>, sep: Separator)
    requires Free(a, sep) && |b| == 1 && IsSep(b[0], sep)
    requires Alternating(rest, sep)
    ensures Alternating([a, b] + rest, sep)
  {
    var r := [a, b] + rest;
    assert r[0] == a && r[1] == b;
    assert forall k :: 2 <= k < |r| ==> r[k] == rest[k - 2];
  }

  /** A part is no longer than the join. */
  lemma {:induction false} JoinPart(xs: seq<string>, k: nat)
    requires k < |xs|
    ensures |xs[k]| <= |Join(xs)|
  {
    if k > 0 {
      JoinPart(xs[1..], k - 1);
    }
  }

  /** Two distinct parts together are no longer than the join. */
  lemma {:induction false} JoinTwoParts(xs: seq<string>, k: nat, j: nat)
    requires k < |xs| && j < |xs| && k != j
    ensures |xs[k]| + |xs[j]| <= |Join(xs)|
  {
    if k == 0 {
      JoinPart(xs[1..], j - 1);
    } else if j == 0 {
      JoinPart(xs[1..], k - 1);
    } else {
      JoinTwoParts(xs[1..], k - 1, j - 1);
    }
  }

  /**
   * Splitting at every separator character and keeping each separator as a
   * piece of its own. Fields may be empty (two separators in a row, or one
   * at either end).
   */
  function Fields(s: string, sep: Separator): (r: seq<string>)
    ensures Alternating(r, sep)
    ensures Join(r) == s
    decreases |s|
  {
    var i := FirstSep(s, sep);
    if i == |s| then
      assert s[..i] == s;
      [s]
    else
      var rest := Fields(s[i + 1..], sep);
      var r := [s[..i], [s[i]]] + rest;
      calc {
        Join(r);
        { JoinAppend([s[..i], [s[i]]], rest); }
        Join([s[..i], [s[i]]]) + Join(rest);
        { JoinPair(s[..i], [s[i]]); }
        s[..i] + [s[i]] + s[i + 1..];
        { assert s == s[..i] + [s[i]] + s[i + 1..]; }
        s;
      }
      ConsFields(s[..i], [s[i]], rest, sep);
      r
  }

  /**
   * `s.split(/(x)/)` for a one-character class `x`: the fields and separators
   * of `Fields`, with a trailing empty field removed (Ruby drops trailing
   * empty strings; the empty string splits into no pieces at all).
   */
  function Split(s: string, sep: Separator): (r: seq<string>)
    ensures Join(r) == s
    ensures r == [] || r[|r| - 1] != []
    ensures Shaped(r, sep)
    ensures !Free(s, sep) && |s| > 1 ==> forall k :: 0 <= k < |r| ==> |r[k]| < |s|
  {
    var f := Fields(s, sep);
    TrimmedFacts(f, sep);
    FieldsShorter(s, sep, f);
    Trimmed(f)
  }

  /** `f` without its last element when that element is empty. */
  function Trimmed(f: seq<string>): seq<string> {
    if f != [] && f[|f| - 1] == [] then f[..|f| - 1] else f
  }

  /** Dropping an empty last field keeps the join and the shape. */
  lemma TrimmedFacts(f: seq<string>, sep: Separator)
    requires Alternating(f, sep)
    ensures Join(Trimmed(f)) == Join(f) && Shaped(Trimmed(f), sep)
    ensures Trimmed(f) == [] || Trimmed(f)[|Trimmed(f)| - 1] != []
    ensures |Trimmed(f)| <= |f| && forall k :: 0 <= k < |Trimmed(f)| ==> Trimmed(f)[k] == f[k]
  {
    if f[|f| - 1] == [] {
      var r := f[..|f| - 1];
      assert f == r + [f[|f| - 1]];
      JoinAppend(r, [f[|f| - 1]]);
      assert [f[|f| - 1]][1..] == [];
      if r != [] {
        assert |r| % 2 == 0;
        assert |r[|r| - 1]| == 1;
      }
    }
  }

  /** When `s` holds a separator and is longer than one character, every piece is shorter than `s`. */
  lemma FieldsShorter(s: string, sep: Separator, f: seq<string>)
    requires f == Fields(s, sep)
    ensures !Free(s, sep) && |s| > 1 ==> forall k :: 0 <= k < |f| ==> |f[k]| < |s|
  {
    if !Free(s, sep) && |s| > 1 {
      forall k | 0 <= k < |f|
        ensures |f[k]| < |s|
      {
        FieldShorter(s, sep, f, k);
      }
    }
  }

  lemma FieldShorter(s: string, sep: Separator, f: seq<string>, k: nat)
    requires Alternating(f, sep) && Join(f) == s
    requires !Free(s, sep) && |s| > 1 && k < |f|
    ensures |f[k]| < |s|
  {
    if k % 2 == 0 {
      var j := if k == 0 then 1 else k - 1;
      assert |f[j]| == 1;
      JoinTwoParts(f, k, j);
    } else {
      assert |f[k]| == 1;
    }
  }

  /** Every piece of a split is a single separator or holds no separator. */
  lemma SplitPiece(s: string, sep: Separator, p: string)
    requires p in Split(s, sep)
    ensures (|p| == 1 && IsSep(p[0], sep)) || Free(p, sep)
  {
    var r := Split(s, sep);
    var k :| 0 <= k < |r| && r[k] == p;
    assert Shaped(r, sep);
  }
}
