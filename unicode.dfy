/** The few pieces of Python's string machinery that the sentence normaliser
    relies on: the Unicode tables behind `unicodedata.normalize('NFD', _)`,
    `unicodedata.category` and `str.lower` (kept abstract, except on ASCII,
    where their behaviour is fixed), `str.isspace` (a fixed table) and
    `str.strip()`. Also a character filter, the shape of a generator
    expression joined back into a string. */
module Unicode {

  /** The Unicode data the interpreter consults. The tables themselves
      (Normalization Form D of Unicode Standard Annex #15, section 1.2, the
      General Category of section 4.5 of the Unicode Standard, and the
      full case mappings) are left abstract. */
  datatype Tables = Tables(
    nfd: string -> string,        // unicodedata.normalize('NFD', s)
    category: char -> string,     // unicodedata.category(c), e.g. "Mn"
    lower: string -> string       // str.lower on a string with a non-ASCII character
  )

  predicate IsAsciiChar(c: char) { c < '\U{80}' }

  predicate IsAscii(s: string) { forall i | 0 <= i < |s| :: IsAsciiChar(s[i]) }

  predicate IsAsciiUpper(c: char) { 'A' <= c <= 'Z' }

  /** `str.lower` on one ASCII character. */
  function AsciiLowerChar(c: char): (r: char)
    ensures !IsAsciiUpper(r)
    ensures IsAsciiChar(c) ==> IsAsciiChar(r)
    ensures !IsAsciiUpper(c) ==> r == c
  {
    if IsAsciiUpper(c) then (c as int + 32) as char else c
  }

  function AsciiLower(s: string): (r: string)
    ensures |r| == |s|
    ensures forall i | 0 <= i < |s| :: r[i] == AsciiLowerChar(s[i])
  {
    if s == [] then [] else [AsciiLowerChar(s[0])] + AsciiLower(s[1..])
  }

  lemma AsciiLowerConcat(a: string, b: string)
    ensures AsciiLower(a + b) == AsciiLower(a) + AsciiLower(b)
  {
    assert forall i | 0 <= i < |a + b| :: AsciiLower(a + b)[i] == (AsciiLower(a) + AsciiLower(b))[i];
  }

  /** Text without a capital letter is its own lower case. */
  lemma AsciiLowerNoUpper(s: string)
    requires forall i | 0 <= i < |s| :: !IsAsciiUpper(s[i])
    ensures AsciiLower(s) == s
  {
    assert forall i | 0 <= i < |s| :: AsciiLower(s)[i] == s[i];
  }

  /** `s.lower()`: on an all-ASCII string each of `A`..`Z` becomes its
      lower-case letter and nothing else changes; otherwise the Unicode case
      tables decide (they are context-sensitive, e.g. for a final sigma). */
  function Lower(u: Tables, s: string): string
  {
    if IsAscii(s) then AsciiLower(s) else u.lower(s)
  }

  /** `unicodedata.normalize('NFD', s)`: every ASCII character is its own
      canonical decomposition, with combining class 0. */
  function Nfd(u: Tables, s: string): string
  {
    if IsAscii(s) then s else u.nfd(s)
  }

  /** `unicodedata.category(c) == 'Mn'` (nonspacing mark); no ASCII character
      has that category. */
  predicate IsMn(u: Tables, c: char)
  {
    !IsAsciiChar(c) && u.category(c) == "Mn"
  }

  /** `str.isspace` on one character: the characters whose bidirectional
      class is WS, B or S, or whose category is Zs. */
  predicate IsSpace(c: char)
  {
    || c == ' '
    || '\t' <= c <= '\r'
    || '\U{1C}' <= c <= '\U{1F}'
    || c == '\U{85}' || c == '\U{A0}' || c == '\U{1680}'
    || '\U{2000}' <= c <= '\U{200A}'
    || c == '\U{2028}' || c == '\U{2029}' || c == '\U{202F}'
    || c == '\U{205F}' || c == '\U{3000}'
  }

  function LStrip(s: string): (r: string)
    ensures |r| <= |s| && r == s[|s| - |r|..]
    ensures forall i | 0 <= i < |s| - |r| :: IsSpace(s[i])
    ensures r == [] || !IsSpace(r[0])
  {
    if s != [] && IsSpace(s[0]) then LStrip(s[1..]) else s
  }

  function RStrip(s: string): (r: string)
    ensures |r| <= |s| && r == s[..|r|]
    ensures forall i | |r| <= i < |s| :: IsSpace(s[i])
    ensures r == [] || !IsSpace(r[|r| - 1])
  {
    if s != [] && IsSpace(s[|s| - 1]) then RStrip(s[..|s| - 1]) else s
  }

  /** `s.strip()`. */
  function Strip(s: string): string
  {
    RStrip(LStrip(s))
  }

  /** A string with no whitespace at either end is its own `strip()`. */
  lemma StripUnchanged(s: string)
    requires s != [] && !IsSpace(s[0]) && !IsSpace(s[|s| - 1])
    ensures Strip(s) == s
  {
    assert LStrip(s) == s;
  }

  /** `s.strip()` is `s` with its leading and trailing whitespace removed:
      a slice of `s`, with only whitespace outside it and none at its ends. */
  lemma StripShape(s: string)
    ensures var k, r := |s| - |LStrip(s)|, Strip(s);
            && k + |r| <= |s| && r == s[k..k + |r|]
            && (forall i | 0 <= i < k :: IsSpace(s[i]))
            && (forall i | k + |r| <= i < |s| :: IsSpace(s[i]))
            && (r == [] || (!IsSpace(r[0]) && !IsSpace(r[|r| - 1])))
  {
    StripSlice(s);
    StripTrailing(s);
    StripEnds(s);
  }

  lemma StripSlice(s: string)
    ensures var k, r := |s| - |LStrip(s)|, Strip(s);
            k + |r| <= |s| && r == s[k..k + |r|]
  {
    var l := LStrip(s);
    var k := |s| - |l|;
    var r := RStrip(l);
    assert l == s[k..];
    SliceOfSuffix(s, k, |r|);
  }

  lemma StripTrailing(s: string)
    ensures var k, r := |s| - |LStrip(s)|, Strip(s);
            forall i | k + |r| <= i < |s| :: IsSpace(s[i])
  {
    var l := LStrip(s);
    var k := |s| - |l|;
    var r := RStrip(l);
    forall i | k + |r| <= i < |s|
      ensures IsSpace(s[i])
    {
      assert s[i] == l[i - k];
    }
  }

  lemma StripEnds(s: string)
    ensures var r := Strip(s);
            r == [] || (!IsSpace(r[0]) && !IsSpace(r[|r| - 1]))
  {
    var l := LStrip(s);
    var r := RStrip(l);
    if r != [] {
      assert r[0] == l[0];
    }
  }

  /** A property of every character of `s` holds of every character of
      `s.strip()`. */
  lemma StripKeepsAll(p: char -> bool, s: string)
    requires forall i | 0 <= i < |s| :: p(s[i])
    ensures forall i | 0 <= i < |Strip(s)| :: p(Strip(s)[i])
  {
    LStripKeepsAll(p, s);
    RStripKeepsAll(p, LStrip(s));
  }

  lemma {:induction false} LStripKeepsAll(p: char -> bool, s: string)
    requires forall i | 0 <= i < |s| :: p(s[i])
    ensures forall i | 0 <= i < |LStrip(s)| :: p(LStrip(s)[i])
  {
    if s != [] && IsSpace(s[0]) {
      var t := s[1..];
      assert forall i | 0 <= i < |t| :: t[i] == s[i + 1];
      LStripKeepsAll(p, t);
    }
  }

  lemma {:induction false} RStripKeepsAll(p: char -> bool, s: string)
    requires forall i | 0 <= i < |s| :: p(s[i])
    ensures forall i | 0 <= i < |RStrip(s)| :: p(RStrip(s)[i])
  {
    if s != [] && IsSpace(s[|s| - 1]) {
      var t := s[..|s| - 1];
      assert forall i | 0 <= i < |t| :: t[i] == s[i];
      RStripKeepsAll(p, t);
    }
  }

  lemma SliceOfSuffix(s: string, k: nat, n: nat)
    requires k + n <= |s|
    ensures s[k..][..n] == s[k..k + n]
  {
  }

  /** Stripping a string that has a non-space character inside `m`, whose
      two ends are not whitespace, only touches what lies outside `m`. */
  lemma {:induction false} StripAround(a: string, m: string, b: string)
    requires m != [] && !IsSpace(m[0]) && !IsSpace(m[|m| - 1])
    ensures Strip(a + m + b) == LStrip(a) + m + RStrip(b)
  {
    var la := LStrip(a);
    var l := la + m;
    AppendAssoc(a, m, b);
    LStripPrefix(a, m + b);
    AppendAssoc(la, m, b);
    assert l[|l| - 1] == m[|m| - 1];
    RStripSuffix(l, b);
  }

  lemma AppendAssoc<T>(a: seq<T>, b: seq<T>, c: seq<T>)
    ensures a + b + c == a + (b + c)
  {
  }

  lemma {:induction false} LStripPrefix(a: string, c: string)
    requires c != [] && !IsSpace(c[0])
    ensures LStrip(a + c) == LStrip(a) + c
  {
    if a == [] {
      assert a + c == c;
    } else if IsSpace(a[0]) {
      assert (a + c)[1..] == a[1..] + c;
      LStripPrefix(a[1..], c);
    } else {
      assert (a + c)[0] == a[0];
    }
  }

  lemma {:induction false} RStripSuffix(d: string, b: string)
    requires d != [] && !IsSpace(d[|d| - 1])
    ensures RStrip(d + b) == d + RStrip(b)
    decreases |b|
  {
    if b == [] {
      assert d + b == d;
    } else if IsSpace(b[|b| - 1]) {
      assert (d + b)[..|d + b| - 1] == d + b[..|b| - 1];
      RStripSuffix(d, b[..|b| - 1]);
    } else {
      assert (d + b)[|d + b| - 1] == b[|b| - 1];
    }
  }

  /** `''.join(c for c in s if p(c))`. */
  function Filter(p: char -> bool, s: string): (r: string)
    ensures |r| <= |s|
  {
    if s == [] then []
    else if p(s[0]) then [s[0]] + Filter(p, s[1..])
    else Filter(p, s[1..])
  }

  /** A character survives the filter exactly when it occurs in the input
      and satisfies the predicate. */
  lemma {:induction false} FilterMembers(p: char -> bool, s: string)
    ensures forall c :: c in Filter(p, s) <==> c in s && p(c)
  {
    if s != [] {
      FilterMembers(p, s[1..]);
      assert s == [s[0]] + s[1..];
    }
  }

  /** Filtering works piece by piece, which is what keeps the characters in
      their original order. */
  lemma {:induction false} FilterConcat(p: char -> bool, a: string, b: string)
    ensures Filter(p, a + b) == Filter(p, a) + Filter(p, b)
  {
    if a == [] {
      assert a + b == b;
    } else {
      assert (a + b)[0] == a[0];
      assert (a + b)[1..] == a[1..] + b;
      FilterConcat(p, a[1..], b);
    }
  }

  /** What a filter drops and what it keeps add up to the whole string. */
  lemma {:induction false} FilterPartition(p: char -> bool, s: string)
    ensures |Filter(p, s)| + |Filter(c => !p(c), s)| == |s|
  {
    if s != [] {
      FilterPartition(p, s[1..]);
    }
  }

  /** Filtering first by a weaker predicate changes nothing. */
  lemma {:induction false} FilterNested(p: char -> bool, q: char -> bool, s: string)
    requires forall c :: p(c) ==> q(c)
    ensures Filter(p, Filter(q, s)) == Filter(p, s)
  {
    if s != [] {
      FilterNested(p, q, s[1..]);
      if q(s[0]) {
        assert ([s[0]] + Filter(q, s[1..]))[1..] == Filter(q, s[1..]);
      }
    }
  }

  /** A filter that keeps no whitespace does not see what `strip` removes. */
  lemma FilterStrip(p: char -> bool, s: string)
    requires forall c :: p(c) ==> !IsSpace(c)
    ensures Filter(p, Strip(s)) == Filter(p, s)
  {
    FilterLStrip(p, s);
    FilterRStrip(p, LStrip(s));
  }

  lemma {:induction false} FilterLStrip(p: char -> bool, s: string)
    requires forall c :: p(c) ==> !IsSpace(c)
    ensures Filter(p, LStrip(s)) == Filter(p, s)
  {
    if s != [] && IsSpace(s[0]) {
      FilterLStrip(p, s[1..]);
    }
  }

  lemma {:induction false} FilterRStrip(p: char -> bool, s: string)
    requires forall c :: p(c) ==> !IsSpace(c)
    ensures Filter(p, RStrip(s)) == Filter(p, s)
    decreases |s|
  {
    if s != [] && IsSpace(s[|s| - 1]) {
      var t := s[..|s| - 1];
      FilterRStrip(p, t);
      assert s == t + [s[|s| - 1]];
      FilterConcat(p, t, [s[|s| - 1]]);
    }
  }

  lemma {:induction false} FilterNone(p: char -> bool, s: string)
    requires forall i | 0 <= i < |s| :: !p(s[i])
    ensures Filter(p, s) == []
  {
    if s != [] {
      FilterNone(p, s[1..]);
    }
  }

  /** `r` can be obtained from `s` by deleting characters. */
  predicate IsSubsequence(r: string, s: string)
    decreases |s|
  {
    if r == [] then true
    else if s == [] then false
    else if r[0] == s[0] then IsSubsequence(r[1..], s[1..])
    else IsSubsequence(r, s[1..])
  }

  lemma {:induction false} FilterIsSubsequence(p: char -> bool, s: string)
    ensures IsSubsequence(Filter(p, s), s)
  {
    if s != [] {
      FilterIsSubsequence(p, s[1..]);
      if !p(s[0]) {
        SubsequenceSkip(Filter(p, s[1..]), s[0], s[1..]);
      }
    }
  }

  lemma {:induction false} SubsequenceSkip(r: string, c: char, s: string)
    requires IsSubsequence(r, s)
    ensures IsSubsequence(r, [c] + s)
    decreases |s|, 1
  {
    var cs := [c] + s;
    assert cs[1..] == s;
    if r != [] && r[0] == c {
      // r[1..] is a subsequence of s because r is
      SubsequenceTail(r, s);
    }
  }

  lemma {:induction false} SubsequenceTail(r: string, s: string)
    requires r != [] && IsSubsequence(r, s)
    ensures IsSubsequence(r[1..], s)
    decreases |s|, 0
  {
    if r[0] == s[0] {
      if r[1..] != [] {
        SubsequenceSkip(r[1..], s[0], s[1..]);
        assert [s[0]] + s[1..] == s;
      }
    } else {
      SubsequenceTail(r, s[1..]);
      if r[1..] != [] {
        SubsequenceSkip(r[1..], s[0], s[1..]);
        assert [s[0]] + s[1..] == s;
      }
    }
  }

  /** `unicode_to_ascii`: decompose, then drop every nonspacing mark. The
      result holds exactly the non-Mn characters of the decomposition. */
  function UnicodeToAscii(u: Tables, s: string): (r: string)
    ensures forall c :: c in r <==> c in Nfd(u, s) && !IsMn(u, c)
  {
    FilterMembers(c => !IsMn(u, c), Nfd(u, s));
    Filter(c => !IsMn(u, c), Nfd(u, s))
  }

  /** The characters kept are the decomposition's non-Mn characters in
      their original order, and the ones removed are exactly its Mn ones. */
  lemma UnicodeToAsciiSelects(u: Tables, s: string)
    ensures IsSubsequence(UnicodeToAscii(u, s), Nfd(u, s))
    ensures |UnicodeToAscii(u, s)| + |Filter(c => IsMn(u, c), Nfd(u, s))| == |Nfd(u, s)|
    ensures forall i | 0 <= i < |UnicodeToAscii(u, s)| :: !IsMn(u, UnicodeToAscii(u, s)[i])
  {
    var p := c => !IsMn(u, c);
    FilterIsSubsequence(p, Nfd(u, s));
    FilterPartition(p, Nfd(u, s));
    assert Filter(c => !p(c), Nfd(u, s)) == Filter(c => IsMn(u, c), Nfd(u, s)) by {
      FilterSamePredicate(c => !p(c), c => IsMn(u, c), Nfd(u, s));
    }
  }

  lemma {:induction false} FilterSamePredicate(p: char -> bool, q: char -> bool, s: string)
    requires forall c :: p(c) == q(c)
    ensures Filter(p, s) == Filter(q, s)
  {
    if s != [] {
      FilterSamePredicate(p, q, s[1..]);
    }
  }

  /** On an ASCII string, `unicode_to_ascii` changes nothing. */
  lemma {:induction false} UnicodeToAsciiOnAscii(u: Tables, s: string)
    requires IsAscii(s)
    ensures UnicodeToAscii(u, s) == s
  {
    FilterAll(c => !IsMn(u, c), s);
  }

  lemma {:induction false} FilterAll(p: char -> bool, s: string)
    requires forall i | 0 <= i < |s| :: p(s[i])
    ensures Filter(p, s) == s
  {
    if s != [] {
      FilterAll(p, s[1..]);
    }
  }
}
