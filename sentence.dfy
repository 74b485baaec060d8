/** `preprocess_sentence` of the translation tutorial: lower-case and strip
    the sentence, fold it to ASCII, then the three regular-expression
    substitutions, a final strip and the `<start>`/`<end>` markers. Each
    `re.sub` is written as the character-level function that Python's `re`
    computes for that particular pattern (leftmost match first, each `+`
    greedy, scanning resumes after the end of a match). */
module Sentence {
  import opened Unicode

  /** The class `[?.!,¿]` of line 30. */
  predicate IsPunctuation(c: char)
  {
    c == '?' || c == '.' || c == '!' || c == ',' || c == '\U{BF}'
  }

  predicate IsAsciiLetter(c: char) { 'a' <= c <= 'z' || 'A' <= c <= 'Z' }

  /** The class `[a-zA-Z?.!,¿]`, the complement of the one line 34 replaces. */
  predicate IsKept(c: char) { IsAsciiLetter(c) || IsPunctuation(c) }

  /** The class `[" "]` of line 31: a double quote or a space. */
  predicate IsQuoteOrSpace(c: char) { c == '"' || c == ' ' }

  predicate IsNotBlank(c: char) { c != ' ' }

  predicate IsNotQuoteOrSpace(c: char) { !IsQuoteOrSpace(c) }

  predicate NoDoubleSpace(s: string)
  {
    forall i | 0 <= i < |s| - 1 :: !(s[i] == ' ' && s[i + 1] == ' ')
  }

  // ---------------------------------------------------------------------
  // Line 30: re.sub(r"([?.!,¿])", r" \1 ", w)

  /** Every punctuation mark is replaced by itself with a space on each side. */
  function PadPunctuation(s: string): string
  {
    if s == [] then []
    else (if IsPunctuation(s[0]) then [' ', s[0], ' '] else [s[0]]) + PadPunctuation(s[1..])
  }

  /** Line 30 only inserts spaces: with the spaces taken out, the text is
      unchanged. */
  lemma {:induction false} PadPunctuationOnlyAddsSpaces(s: string)
    ensures Filter(IsNotBlank, PadPunctuation(s)) == Filter(IsNotBlank, s)
  {
    if s != [] {
      var head := if IsPunctuation(s[0]) then [' ', s[0], ' '] else [s[0]];
      FilterConcat(IsNotBlank, head, PadPunctuation(s[1..]));
      PadPunctuationOnlyAddsSpaces(s[1..]);
      if IsPunctuation(s[0]) {
        assert head == [' '] + [s[0]] + [' '];
        FilterConcat(IsNotBlank, [' '] + [s[0]], [' ']);
        FilterConcat(IsNotBlank, [' '], [s[0]]);
      }
      assert s == [s[0]] + s[1..];
      FilterConcat(IsNotBlank, [s[0]], s[1..]);
    }
  }

  lemma {:induction false} PadPunctuationConcat(a: string, b: string)
    ensures PadPunctuation(a + b) == PadPunctuation(a) + PadPunctuation(b)
  {
    if a == [] {
      assert a + b == b;
    } else {
      assert (a + b)[0] == a[0];
      assert (a + b)[1..] == a[1..] + b;
      PadPunctuationConcat(a[1..], b);
    }
  }

  /** In the padded text every punctuation mark has a space on either side. */
  lemma {:induction false} PadPunctuationSurrounds(s: string, i: nat)
    requires i < |PadPunctuation(s)| && IsPunctuation(PadPunctuation(s)[i])
    ensures 0 < i < |PadPunctuation(s)| - 1
    ensures PadPunctuation(s)[i - 1] == ' ' && PadPunctuation(s)[i + 1] == ' '
  {
    var head := if IsPunctuation(s[0]) then [' ', s[0], ' '] else [s[0]];
    var rest := PadPunctuation(s[1..]);
    assert PadPunctuation(s) == head + rest;
    if i >= |head| {
      PadPunctuationSurrounds(s[1..], i - |head|);
    }
  }

  /** Text without punctuation is left as it is by line 30. */
  lemma {:induction false} PadPunctuationNone(s: string)
    requires forall i | 0 <= i < |s| :: !IsPunctuation(s[i])
    ensures PadPunctuation(s) == s
  {
    if s != [] {
      PadPunctuationNone(s[1..]);
    }
  }

  // ---------------------------------------------------------------------
  // Line 31: re.sub(r'[" "] + ', "", w)

  /** The number of spaces `s` starts with. */
  function SpaceRun(s: string): (n: nat)
    ensures n <= |s|
  {
    if s != [] && s[0] == ' ' then 1 + SpaceRun(s[1..]) else 0
  }

  /** The run is all spaces and ends at a non-space or at the end. */
  lemma {:induction false} SpaceRunShape(s: string)
    ensures forall i | 0 <= i < SpaceRun(s) :: s[i] == ' '
    ensures SpaceRun(s) < |s| ==> s[SpaceRun(s)] != ' '
  {
    if s != [] && s[0] == ' ' {
      SpaceRunShape(s[1..]);
    }
  }

  /** Whether the pattern of line 31 matches at the front of `s`: a quote
      or a space, then ` +` (one or more spaces), then one more space. The
      greedy ` +` takes the whole run of spaces and gives one back, so a
      match needs a run of at least two and consumes all of it. */
  predicate QuoteSpacesAt(s: string)
  {
    s != [] && IsQuoteOrSpace(s[0]) && SpaceRun(s[1..]) >= 2
  }

  /** Line 31 read literally: every quote or space followed by two or more
      spaces is deleted together with those spaces. A quote or space with
      fewer than two spaces after it stays. So a run of one space is always
      left as it is, and a run of exactly two spaces stays only when the
      character before it is not a quote (`"x\"  y"` becomes `"xy"`). */
  function DeleteQuoteSpaces(s: string): (r: string)
    ensures |r| <= |s|
    decreases |s|
  {
    if s == [] then []
    else if QuoteSpacesAt(s) then DeleteQuoteSpaces(s[1 + SpaceRun(s[1..])..])
    else [s[0]] + DeleteQuoteSpaces(s[1..])
  }

  /** Line 31 only deletes quotes and spaces: every other character stays,
      in order. */
  lemma {:induction false} DeleteQuoteSpacesOnlyDeletes(s: string)
    ensures Filter(IsNotQuoteOrSpace, DeleteQuoteSpaces(s)) == Filter(IsNotQuoteOrSpace, s)
    decreases |s|
  {
    if s != [] {
      if QuoteSpacesAt(s) {
        var n := 1 + SpaceRun(s[1..]);
        SpaceRunShape(s[1..]);
        assert s == s[..n] + s[n..];
        FilterNone(IsNotQuoteOrSpace, s[..n]);
        FilterConcat(IsNotQuoteOrSpace, s[..n], s[n..]);
        DeleteQuoteSpacesOnlyDeletes(s[n..]);
      } else {
        assert s == [s[0]] + s[1..];
        FilterConcat(IsNotQuoteOrSpace, [s[0]], s[1..]);
        FilterConcat(IsNotQuoteOrSpace, [s[0]], DeleteQuoteSpaces(s[1..]));
        DeleteQuoteSpacesOnlyDeletes(s[1..]);
      }
    }
  }

  /** The output starts with a space only when the input does. */
  lemma {:induction false} DeleteQuoteSpacesLeadingSpace(s: string)
    ensures var r := DeleteQuoteSpaces(s); r != [] && r[0] == ' ' ==> s[0] == ' '
    decreases |s|
  {
    if QuoteSpacesAt(s) {
      var n := 1 + SpaceRun(s[1..]);
      SpaceRunShape(s[1..]);
      DeleteQuoteSpacesLeadingSpace(s[n..]);
      if n < |s| {
        assert s[n..][0] == s[1..][n - 1];
      }
    }
  }

  /** No match of line 31's pattern is left in its output. */
  lemma {:induction false} DeleteQuoteSpacesLeavesNoMatch(s: string, i: nat)
    requires i < |DeleteQuoteSpaces(s)|
    ensures !QuoteSpacesAt(DeleteQuoteSpaces(s)[i..])
    decreases |s|
  {
    var r := DeleteQuoteSpaces(s);
    if QuoteSpacesAt(s) {
      DeleteQuoteSpacesLeavesNoMatch(s[1 + SpaceRun(s[1..])..], i);
    } else {
      var t := DeleteQuoteSpaces(s[1..]);
      assert r == [s[0]] + t;
      if i > 0 {
        assert r[i..] == t[i - 1..];
        DeleteQuoteSpacesLeavesNoMatch(s[1..], i - 1);
      } else if IsQuoteOrSpace(s[0]) && t != [] && t[0] == ' ' {
        // the run after s[0] has length one, and the second character of
        // the output is not a space
        var k := SpaceRun(s[1..]);
        DeleteQuoteSpacesLeadingSpace(s[1..]);
        SpaceRunShape(s[1..]);
        assert k == 1;
        assert s[1] == ' ';
        assert !QuoteSpacesAt(s[1..]);
        var t2 := DeleteQuoteSpaces(s[2..]);
        assert s[1..][1..] == s[2..];
        assert t == [' '] + t2;
        assert r[i..] == r;
        assert r[1..] == t;
        DeleteQuoteSpacesLeadingSpace(s[2..]);
        if t2 != [] {
          assert s[2] != ' ';
        }
        assert SpaceRun(r[1..]) == 1;
      }
    }
  }

  /** Where the pattern matches nowhere, line 31 changes nothing. */
  lemma {:induction false} DeleteQuoteSpacesFixes(s: string)
    requires forall i | 0 <= i < |s| :: !QuoteSpacesAt(s[i..])
    ensures DeleteQuoteSpaces(s) == s
  {
    if s != [] {
      assert s[0..] == s;
      forall i | 0 <= i < |s[1..]| ensures !QuoteSpacesAt(s[1..][i..]) {
        assert s[1..][i..] == s[i + 1..];
      }
      DeleteQuoteSpacesFixes(s[1..]);
    }
  }

  /** Applying line 31 twice is the same as applying it once. */
  lemma DeleteQuoteSpacesIdempotent(s: string)
    ensures DeleteQuoteSpaces(DeleteQuoteSpaces(s)) == DeleteQuoteSpaces(s)
  {
    var r := DeleteQuoteSpaces(s);
    forall i | 0 <= i < |r| ensures !QuoteSpacesAt(r[i..]) {
      DeleteQuoteSpacesLeavesNoMatch(s, i);
    }
    DeleteQuoteSpacesFixes(r);
  }

  /** Text without two adjacent spaces holds no match of line 31, so it is
      left as it is. */
  lemma DeleteQuoteSpacesSingleSpaces(s: string)
    requires NoDoubleSpace(s)
    ensures DeleteQuoteSpaces(s) == s
  {
    forall i | 0 <= i < |s| ensures !QuoteSpacesAt(s[i..]) {
      assert s[i..][1..] == s[i + 1..];
      SpaceRunShape(s[i + 1..]);
      if i + 2 < |s| && s[i + 1] == ' ' {
        assert s[i + 2] != ' ';
        assert s[i + 1..][1] == s[i + 2];
      }
    }
    DeleteQuoteSpacesFixes(s);
  }

  /** A character that is neither a quote nor a space cannot take part in
      a match, so line 31 works separately on either side of it. */
  lemma {:induction false} DeleteQuoteSpacesSplit(a: string, x: char, b: string)
    requires !IsQuoteOrSpace(x)
    ensures DeleteQuoteSpaces(a + [x] + b) == DeleteQuoteSpaces(a) + [x] + DeleteQuoteSpaces(b)
    decreases |a|
  {
    if a == [] {
      assert a + [x] + b == [x] + b;
      DeleteQuoteSpacesFront(x, b);
    } else {
      var pre, rest := DeleteQuoteSpacesStep(a, x, b);
      DeleteQuoteSpacesSplit(rest, x, b);
      assert DeleteQuoteSpaces(a + [x] + b) == pre + (DeleteQuoteSpaces(rest) + [x] + DeleteQuoteSpaces(b));
    }
  }

  lemma DeleteQuoteSpacesFront(x: char, b: string)
    requires !IsQuoteOrSpace(x)
    ensures DeleteQuoteSpaces([x] + b) == [x] + DeleteQuoteSpaces(b)
  {
    assert ([x] + b)[1..] == b;
  }

  /** One step of line 31 on `a + [x] + b` is the same step as on `a`. */
  lemma DeleteQuoteSpacesStep(a: string, x: char, b: string) returns (pre: string, rest: string)
    requires !IsQuoteOrSpace(x) && a != []
    ensures |rest| < |a|
    ensures DeleteQuoteSpaces(a + [x] + b) == pre + DeleteQuoteSpaces(rest + [x] + b)
    ensures DeleteQuoteSpaces(a) == pre + DeleteQuoteSpaces(rest)
  {
    DropAround(a, x, b, 1);
    SpaceRunPrefix(a[1..], x, b);
    if QuoteSpacesAt(a) {
      var n := 1 + SpaceRun(a[1..]);
      pre, rest := [], a[n..];
      DropAround(a, x, b, n);
    } else {
      pre, rest := [a[0]], a[1..];
    }
  }

  /** Dropping a prefix of `a` from `a + [x] + b`. */
  lemma DropAround(a: string, x: char, b: string, n: nat)
    requires n <= |a|
    ensures (a + [x] + b)[n..] == a[n..] + [x] + b
    ensures n < |a| ==> (a + [x] + b)[n] == a[n]
    ensures n == |a| ==> (a + [x] + b)[n] == x
  {
  }

  lemma {:induction false} SpaceRunPrefix(a: string, x: char, b: string)
    requires x != ' '
    ensures SpaceRun(a + [x] + b) == SpaceRun(a)
  {
    if a == [] {
      assert (a + [x] + b)[0] == x;
    } else {
      assert (a + [x] + b)[0] == a[0];
      assert (a + [x] + b)[1..] == a[1..] + [x] + b;
      SpaceRunPrefix(a[1..], x, b);
    }
  }

  // ---------------------------------------------------------------------
  // Line 34: re.sub(r"[^a-zA-Z?.!,¿]+", " ", w)

  /** The number of characters outside the kept class that `s` starts with. */
  function DisallowedRun(s: string): (n: nat)
    ensures n <= |s|
    ensures forall i | 0 <= i < n :: !IsKept(s[i])
    ensures n < |s| ==> IsKept(s[n])
  {
    if s == [] || IsKept(s[0]) then 0 else 1 + DisallowedRun(s[1..])
  }

  /** Every maximal run of characters outside `[a-zA-Z?.!,¿]`, spaces
      included, becomes exactly one space; the kept characters stay. */
  function CollapseDisallowed(s: string): string
    decreases |s|
  {
    if s == [] then []
    else if IsKept(s[0]) then [s[0]] + CollapseDisallowed(s[1..])
    else [' '] + CollapseDisallowed(s[DisallowedRun(s)..])
  }

  /** After line 34 only kept characters and single spaces remain, and the
      text starts with a space exactly when it started with a character
      outside the class. */
  lemma {:induction false} CollapseDisallowedShape(s: string)
    ensures var r := CollapseDisallowed(s);
            && (forall i | 0 <= i < |r| :: IsKept(r[i]) || r[i] == ' ')
            && NoDoubleSpace(r)
            && (r == [] <==> s == [])
            && (r != [] ==> (r[0] == ' ' <==> !IsKept(s[0])))
    decreases |s|
  {
    if s != [] {
      if IsKept(s[0]) {
        CollapseDisallowedShape(s[1..]);
      } else {
        CollapseDisallowedShape(s[DisallowedRun(s)..]);
      }
    }
  }

  /** Line 34 keeps every character of the class, in order. */
  lemma {:induction false} CollapseDisallowedKeeps(s: string)
    ensures Filter(IsKept, CollapseDisallowed(s)) == Filter(IsKept, s)
    decreases |s|
  {
    if s != [] {
      if IsKept(s[0]) {
        assert s == [s[0]] + s[1..];
        FilterConcat(IsKept, [s[0]], s[1..]);
        FilterConcat(IsKept, [s[0]], CollapseDisallowed(s[1..]));
        CollapseDisallowedKeeps(s[1..]);
      } else {
        var n := DisallowedRun(s);
        assert s == s[..n] + s[n..];
        FilterConcat(IsKept, s[..n], s[n..]);
        FilterNone(IsKept, s[..n]);
        FilterConcat(IsKept, [' '], CollapseDisallowed(s[n..]));
        CollapseDisallowedKeeps(s[n..]);
      }
    }
  }

  /** Text of kept characters and single spaces is left as it is by
      line 34. */
  lemma {:induction false} CollapseDisallowedFixes(s: string)
    requires forall i | 0 <= i < |s| :: IsKept(s[i]) || s[i] == ' '
    requires NoDoubleSpace(s)
    ensures CollapseDisallowed(s) == s
    decreases |s|
  {
    if s != [] {
      if !IsKept(s[0]) {
        assert DisallowedRun(s) == 1 by {
          if |s| > 1 {
            assert s[1] != ' ';
            assert s[1..][0] == s[1];
          }
        }
      }
      CollapseDisallowedFixes(s[1..]);
    }
  }

  /** Line 34 applied twice is the same as applied once. */
  lemma CollapseDisallowedIdempotent(s: string)
    ensures CollapseDisallowed(CollapseDisallowed(s)) == CollapseDisallowed(s)
  {
    CollapseDisallowedShape(s);
    CollapseDisallowedFixes(CollapseDisallowed(s));
  }

  lemma {:induction false} DisallowedRunPrefix(a: string, x: char, b: string)
    requires IsKept(x)
    ensures DisallowedRun(a + [x] + b) == DisallowedRun(a)
  {
    if a == [] {
      assert (a + [x] + b)[0] == x;
    } else {
      assert (a + [x] + b)[0] == a[0];
      assert (a + [x] + b)[1..] == a[1..] + [x] + b;
      DisallowedRunPrefix(a[1..], x, b);
    }
  }

  /** A kept character ends any run, so line 34 works separately on either
      side of it. */
  lemma {:induction false} CollapseDisallowedSplit(a: string, x: char, b: string)
    requires IsKept(x)
    ensures CollapseDisallowed(a + [x] + b) == CollapseDisallowed(a) + [x] + CollapseDisallowed(b)
    decreases |a|
  {
    if a == [] {
      assert a + [x] + b == [x] + b;
      CollapseDisallowedFront(x, b);
    } else {
      var pre, rest := CollapseDisallowedStep(a, x, b);
      CollapseDisallowedSplit(rest, x, b);
    }
  }

  lemma CollapseDisallowedFront(x: char, b: string)
    requires IsKept(x)
    ensures CollapseDisallowed([x] + b) == [x] + CollapseDisallowed(b)
  {
    assert ([x] + b)[1..] == b;
  }

  /** One step of line 34 on `a + [x] + b` is the same step as on `a`. */
  lemma CollapseDisallowedStep(a: string, x: char, b: string) returns (pre: string, rest: string)
    requires IsKept(x) && a != []
    ensures |rest| < |a|
    ensures CollapseDisallowed(a + [x] + b) == pre + CollapseDisallowed(rest + [x] + b)
    ensures CollapseDisallowed(a) == pre + CollapseDisallowed(rest)
  {
    DropAround(a, x, b, 0);
    if IsKept(a[0]) {
      pre, rest := [a[0]], a[1..];
      DropAround(a, x, b, 1);
    } else {
      DisallowedRunPrefix(a, x, b);
      var n := DisallowedRun(a);
      pre, rest := [' '], a[n..];
      DropAround(a, x, b, n);
    }
  }

  // ---------------------------------------------------------------------
  // Lines 26-39

  /** The sentence as line 26 leaves it: lower-cased, stripped and folded. */
  function Folded(u: Tables, w: string): string
  {
    UnicodeToAscii(u, Strip(Lower(u, w)))
  }

  /** What may stand between the two markers. */
  predicate WellFormedBody(b: string)
  {
    && (forall i | 0 <= i < |b| :: IsKept(b[i]) || b[i] == ' ')
    && NoDoubleSpace(b)
    && (b != [] ==> b[0] != ' ' && b[|b| - 1] != ' ')
  }

  /** Lines 30-36 applied to the folded sentence. The body consists of the
      letters and punctuation of `a`, in their order, separated by single
      spaces at most, with nothing else and no space at either end. */
  function Substituted(a: string): string
  {
    CollapseDisallowed(DeleteQuoteSpaces(PadPunctuation(a)))
  }

  function Cleaned(a: string): string
  {
    Strip(Substituted(a))
  }

  lemma CleanedShape(a: string)
    ensures WellFormedBody(Cleaned(a))
    ensures Filter(IsKept, Cleaned(a)) == Filter(IsKept, a)
  {
    var padded := PadPunctuation(a);
    var deleted := DeleteQuoteSpaces(padded);
    var collapsed := CollapseDisallowed(deleted);
    CollapseDisallowedShape(deleted);
    StripKeepsShape(collapsed);
    CleanedKeeps(a);
  }

  lemma CleanedKeeps(a: string)
    ensures Filter(IsKept, Cleaned(a)) == Filter(IsKept, a)
  {
    var padded := PadPunctuation(a);
    var deleted := DeleteQuoteSpaces(padded);
    var collapsed := CollapseDisallowed(deleted);
    StripKeeps(collapsed);
    CollapseDisallowedKeeps(deleted);
    DeleteQuoteSpacesKeeps(padded);
    PadPunctuationKeeps(a);
  }

  /** No kept character is white space, so the final strip keeps them all. */
  lemma StripKeeps(s: string)
    ensures Filter(IsKept, Strip(s)) == Filter(IsKept, s)
  {
    forall c | IsKept(c) ensures !IsSpace(c) {
    }
    FilterStrip(IsKept, s);
  }

  /** Line 31 deletes no letter and no punctuation mark. */
  lemma DeleteQuoteSpacesKeeps(s: string)
    ensures Filter(IsKept, DeleteQuoteSpaces(s)) == Filter(IsKept, s)
  {
    var d := DeleteQuoteSpaces(s);
    calc {
      Filter(IsKept, d);
      { FilterNested(IsKept, IsNotQuoteOrSpace, d); }
      Filter(IsKept, Filter(IsNotQuoteOrSpace, d));
      { DeleteQuoteSpacesOnlyDeletes(s); }
      Filter(IsKept, Filter(IsNotQuoteOrSpace, s));
      { FilterNested(IsKept, IsNotQuoteOrSpace, s); }
      Filter(IsKept, s);
    }
  }

  /** Line 30 only adds spaces. */
  lemma PadPunctuationKeeps(s: string)
    ensures Filter(IsKept, PadPunctuation(s)) == Filter(IsKept, s)
  {
    var p := PadPunctuation(s);
    calc {
      Filter(IsKept, p);
      { FilterNested(IsKept, IsNotBlank, p); }
      Filter(IsKept, Filter(IsNotBlank, p));
      { PadPunctuationOnlyAddsSpaces(s); }
      Filter(IsKept, Filter(IsNotBlank, s));
      { FilterNested(IsKept, IsNotBlank, s); }
      Filter(IsKept, s);
    }
  }

  /** Stripping text made of kept characters and single spaces leaves a
      well-formed body. */
  lemma StripKeepsShape(c: string)
    requires forall i | 0 <= i < |c| :: IsKept(c[i]) || c[i] == ' '
    requires NoDoubleSpace(c)
    ensures WellFormedBody(Strip(c))
  {
    var r := Strip(c);
    var k := |c| - |LStrip(c)|;
    StripSlice(c);
    StripEnds(c);
    SliceKeepsShape(c, k, k + |r|);
  }

  /** A slice of text made of kept characters and single spaces is made of
      the same. */
  lemma SliceKeepsShape(c: string, k: nat, j: nat)
    requires k <= j <= |c|
    requires forall i | 0 <= i < |c| :: IsKept(c[i]) || c[i] == ' '
    requires NoDoubleSpace(c)
    ensures forall i | 0 <= i < j - k :: IsKept(c[k..j][i]) || c[k..j][i] == ' '
    ensures NoDoubleSpace(c[k..j])
  {
    var r := c[k..j];
    assert forall i | 0 <= i < |r| :: r[i] == c[k + i];
  }

  /** The text between `<start> ` and ` <end>`. */
  function Body(u: Tables, w: string): string
  {
    Cleaned(Folded(u, w))
  }

  /** The markers line 39 puts around the body. */
  const StartMarker: string := "<start> "
  const EndMarker: string := " <end>"

  /** `preprocess_sentence(w)`. */
  function Preprocess(u: Tables, w: string): string
  {
    StartMarker + Body(u, w) + EndMarker
  }

  /** The result starts with `<start> ` and ends with ` <end>`; between them
      stand the letters and punctuation of the folded sentence, in order,
      with single spaces between some of them and no space at either end. */
  lemma PreprocessShape(u: Tables, w: string)
    ensures var r := Preprocess(u, w);
            && |r| >= |StartMarker| + |EndMarker|
            && r[..|StartMarker|] == StartMarker && r[|r| - |EndMarker|..] == EndMarker
            && WellFormedBody(r[|StartMarker|..|r| - |EndMarker|])
            && Filter(IsKept, r[|StartMarker|..|r| - |EndMarker|]) == Filter(IsKept, Folded(u, w))
  {
    CleanedShape(Folded(u, w));
    MarkedBody(Body(u, w));
  }

  /** The markers can be taken off again. */
  lemma MarkedBody(b: string)
    ensures var r := StartMarker + b + EndMarker;
            && |r| == |StartMarker| + |b| + |EndMarker|
            && r[..|StartMarker|] == StartMarker && r[|r| - |EndMarker|..] == EndMarker
            && r[|StartMarker|..|r| - |EndMarker|] == b
  {
  }

  /** Every character of the cleaned text is a space or a kept character
      of the input. */
  lemma CleanedChars(a: string)
    ensures forall c | c in Cleaned(a) :: c == ' ' || (IsKept(c) && c in a)
  {
    CleanedShape(a);
    var r := Cleaned(a);
    FilterMembers(IsKept, r);
    FilterMembers(IsKept, a);
    forall c | c in r ensures c == ' ' || (IsKept(c) && c in a) {
      var i :| 0 <= i < |r| && r[i] == c;
      if c != ' ' {
        assert IsKept(c);
        assert c in Filter(IsKept, r);
      }
    }
  }

  /** The cleaned text is empty exactly when the input holds no kept
      character. */
  lemma CleanedEmpty(a: string)
    ensures Cleaned(a) == [] <==> forall c | c in a :: !IsKept(c)
  {
    CleanedShape(a);
    var r := Cleaned(a);
    FilterMembers(IsKept, r);
    FilterMembers(IsKept, a);
    if r != [] {
      assert IsKept(r[0]);
      assert r[0] in Filter(IsKept, r);
    } else {
      assert Filter(IsKept, a) == [];
    }
  }

  /** The body is empty, and the result is exactly `<start>  <end>`, when
      and only when the folded sentence holds no letter and no punctuation
      mark of the kept class. */
  lemma PreprocessEmptyBody(u: Tables, w: string)
    ensures Preprocess(u, w) == "<start>  <end>" <==> forall c | c in Folded(u, w) :: !IsKept(c)
  {
    MarkedEmpty(Body(u, w));
    CleanedEmpty(Folded(u, w));
  }

  /** Wrapping a body in the markers gives `<start>  <end>` exactly when
      the body is empty. */
  lemma MarkedEmpty(b: string)
    ensures StartMarker + b + EndMarker == "<start>  <end>" <==> b == []
  {
    assert "<start>  <end>" == StartMarker + [] + EndMarker;
    if StartMarker + b + EndMarker == "<start>  <end>" {
      assert |b| == 0;
    }
  }

  /** `lower()` runs before everything else, so an ASCII sentence never
      yields a capital letter: every letter of the body is lower-case. */
  lemma AsciiSentenceHasNoCapitals(u: Tables, w: string)
    requires IsAscii(w)
    ensures forall c | c in Body(u, w) :: !IsAsciiUpper(c)
  {
    var t := AsciiFolded(u, w);
    CleanedChars(t);
  }

  lemma AsciiFolded(u: Tables, w: string) returns (t: string)
    requires IsAscii(w)
    ensures t == Folded(u, w) && t == Strip(AsciiLower(w)) && Body(u, w) == Cleaned(t)
    ensures forall c | c in t :: !IsAsciiUpper(c)
  {
    var l := AsciiLower(w);
    assert Lower(u, w) == l;
    t := Strip(l);
    StripLowered(l);
    UnicodeToAsciiOnAscii(u, t);
  }

  /** Stripping lower-cased ASCII text leaves lower-cased ASCII text. */
  lemma StripLowered(l: string)
    requires forall i | 0 <= i < |l| :: IsAsciiChar(l[i]) && !IsAsciiUpper(l[i])
    ensures IsAscii(Strip(l)) && forall c | c in Strip(l) :: !IsAsciiUpper(c)
  {
    StripKeepsAll(c => IsAsciiChar(c) && !IsAsciiUpper(c), l);
  }

  /** A letter directly followed by a punctuation mark (the case of
      "he is a boy." on lines 28-29) comes out as the letter, one space and
      the mark, whatever surrounds them. */
  lemma LetterThenPunctuation(a: string, x: char, p: char, b: string)
    requires IsAsciiLetter(x) && IsPunctuation(p)
    ensures Substituted(a + [x, p] + b) == Substituted(a) + [x, ' ', p] + Substituted([' '] + b)
  {
    var tail := PadLetterThenPunctuation(a, x, p, b);
    var dt := DeleteAroundLetterAndPunctuation(PadPunctuation(a), x, p, tail);
    CollapseAroundLetterAndPunctuation(DeleteQuoteSpaces(PadPunctuation(a)), x, p, dt);
  }

  lemma PadLetterThenPunctuation(a: string, x: char, p: char, b: string) returns (tail: string)
    requires IsAsciiLetter(x) && IsPunctuation(p)
    ensures tail == PadPunctuation([' '] + b)
    ensures PadPunctuation(a + [x, p] + b) == PadPunctuation(a) + [x] + ([' '] + [p] + tail)
  {
    tail := PadPunctuation([' '] + b);
    var m := [x] + ([p] + b);
    assert a + [x, p] + b == a + m;
    PadPunctuationConcat(a, m);
    PadLetterThenPunctuationTail(x, p, b);
  }

  lemma PadLetterThenPunctuationTail(x: char, p: char, b: string)
    requires IsAsciiLetter(x) && IsPunctuation(p)
    ensures PadPunctuation([x] + ([p] + b)) == [x] + ([' '] + [p] + PadPunctuation([' '] + b))
  {
    var pb := PadPunctuation(b);
    PadCons(x, [p] + b);
    PadCons(p, b);
    PadCons(' ', b);
    assert [' ', p, ' '] + pb == [' '] + [p] + ([' '] + pb);
  }

  /** Line 30 on a text that starts with `c`. */
  lemma PadCons(c: char, t: string)
    ensures PadPunctuation([c] + t)
         == (if IsPunctuation(c) then [' ', c, ' '] else [c]) + PadPunctuation(t)
  {
    assert ([c] + t)[1..] == t;
  }

  lemma DeleteAroundLetterAndPunctuation(pa: string, x: char, p: char, tail: string) returns (dt: string)
    requires IsAsciiLetter(x) && IsPunctuation(p)
    ensures dt == DeleteQuoteSpaces(tail)
    ensures DeleteQuoteSpaces(pa + [x] + ([' '] + [p] + tail))
         == DeleteQuoteSpaces(pa) + [x] + ([' '] + [p] + dt)
  {
    DeleteQuoteSpacesSplit(pa, x, [' '] + [p] + tail);
    DeleteSpaceThenMark(p, tail);
    dt := DeleteQuoteSpaces(tail);
  }

  lemma DeleteSpaceThenMark(p: char, t: string)
    requires IsPunctuation(p)
    ensures DeleteQuoteSpaces([' '] + [p] + t) == [' '] + [p] + DeleteQuoteSpaces(t)
  {
    DeleteQuoteSpacesSplit([' '], p, t);
    assert DeleteQuoteSpaces([' ']) == [' '];
  }

  lemma CollapseAroundLetterAndPunctuation(da: string, x: char, p: char, dt: string)
    requires IsAsciiLetter(x) && IsPunctuation(p)
    ensures CollapseDisallowed(da + [x] + ([' '] + [p] + dt))
         == CollapseDisallowed(da) + [x, ' ', p] + CollapseDisallowed(dt)
  {
    var cda, cdt := CollapseDisallowed(da), CollapseDisallowed(dt);
    CollapseDisallowedSplit(da, x, [' '] + [p] + dt);
    CollapseSpaceThenMark(p, dt);
    assert cda + [x] + ([' ', p] + cdt) == cda + [x, ' ', p] + cdt;
  }

  lemma CollapseSpaceThenMark(p: char, t: string)
    requires IsPunctuation(p)
    ensures CollapseDisallowed([' '] + [p] + t) == [' ', p] + CollapseDisallowed(t)
  {
    CollapseDisallowedSplit([' '], p, t);
    assert CollapseDisallowed([' ']) == [' '];
  }

  /** Words of letters separated by single spaces pass lines 30-34
      unchanged. */
  lemma SubstitutedPlain(a: string)
    requires forall i | 0 <= i < |a| :: IsAsciiLetter(a[i]) || a[i] == ' '
    requires NoDoubleSpace(a)
    ensures Substituted(a) == a
  {
    PadPunctuationNone(a);
    DeleteQuoteSpacesSingleSpaces(a);
    CollapseDisallowedFixes(a);
  }

  /** The same letter and mark inside the cleaned text. */
  lemma CleanedLetterThenPunctuation(a: string, x: char, p: char, b: string)
    requires IsAsciiLetter(x) && IsPunctuation(p)
    ensures Cleaned(a + [x, p] + b)
         == LStrip(Substituted(a)) + [x, ' ', p] + RStrip(Substituted([' '] + b))
  {
    LetterThenPunctuation(a, x, p, b);
    StripAround(Substituted(a), [x, ' ', p], Substituted([' '] + b));
  }

  /** The same at the level of `preprocess_sentence`: the body holds the
      letter, a single space and the mark. */
  lemma LetterThenPunctuationInBody(u: Tables, w: string, a: string, x: char, p: char, b: string)
    requires Folded(u, w) == a + [x, p] + b
    requires IsAsciiLetter(x) && IsPunctuation(p)
    ensures Body(u, w) == LStrip(Substituted(a)) + [x, ' ', p] + RStrip(Substituted([' '] + b))
  {
    CleanedLetterThenPunctuation(a, x, p, b);
  }

  /** Words of letters with single spaces between them. */
  predicate PlainWords(a: string)
  {
    && (forall i | 0 <= i < |a| :: IsAsciiLetter(a[i]) || a[i] == ' ')
    && NoDoubleSpace(a)
    && (a != [] ==> IsAsciiLetter(a[0]))
  }

  /** Plain words that end in a letter and a punctuation mark come out of
      lines 30-36 with one space put in before the mark. */
  lemma WordsThenMark(a: string, x: char, p: char)
    requires PlainWords(a)
    requires IsAsciiLetter(x) && IsPunctuation(p)
    ensures Cleaned(a + [x, p]) == a + [x, ' ', p]
  {
    var sa, ss := Substituted(a), Substituted([' '] + []);
    assert Cleaned(a + [x, p]) == LStrip(sa) + [x, ' ', p] + RStrip(ss) by {
      assert a + [x, p] == a + [x, p] + [];
      CleanedLetterThenPunctuation(a, x, p, []);
    }
    assert LStrip(sa) == a by {
      SubstitutedPlain(a);
      LStripLetter(a);
    }
    assert RStrip(ss) == [] by {
      assert [' '] + [] == [' '];
      SubstitutedSpace();
    }
  }

  /** A punctuation mark in front of plain words gets a space on either
      side. */
  lemma MarkThenWords(q: char, a: string)
    requires IsPunctuation(q) && PlainWords(a) && a != []
    ensures Substituted([q] + a) == [' ', q, ' '] + a
  {
    PadMarkThenWords(q, a);
    var sa := SpaceThenWords(a);
    var t := [' '] + [q] + sa;
    assert PadPunctuation([q] + a) == t;
    MarkBetweenSpacesUnchanged(q, sa);
    assert Substituted([q] + a) == CollapseDisallowed(DeleteQuoteSpaces(t));
  }

  lemma MarkBetweenSpacesUnchanged(q: char, sa: string)
    requires IsPunctuation(q)
    requires forall i | 0 <= i < |sa| :: IsKept(sa[i]) || sa[i] == ' '
    requires NoDoubleSpace(sa)
    ensures DeleteQuoteSpaces([' '] + [q] + sa) == [' '] + [q] + sa
    ensures CollapseDisallowed([' '] + [q] + sa) == [' '] + [q] + sa
  {
    DeleteQuoteSpacesSplit([' '], q, sa);
    DeleteQuoteSpacesSingleSpaces(sa);
    CollapseDisallowedSplit([' '], q, sa);
    CollapseDisallowedFixes(sa);
    SpaceUnchanged();
  }

  lemma PadMarkThenWords(q: char, a: string)
    requires IsPunctuation(q) && PlainWords(a)
    ensures PadPunctuation([q] + a) == [' '] + [q] + ([' '] + a)
  {
    PadPunctuationConcat([q], a);
    PadPunctuationNone(a);
    assert PadPunctuation([q]) == [' ', q, ' '] by {
      assert [q][1..] == [];
    }
  }

  lemma SpaceThenWords(a: string) returns (sa: string)
    requires PlainWords(a) && a != []
    ensures sa == [' '] + a
    ensures forall i | 0 <= i < |sa| :: IsKept(sa[i]) || sa[i] == ' '
    ensures NoDoubleSpace(sa)
  {
    sa := [' '] + a;
    assert sa[1] == a[0];
    forall i | 1 <= i < |a| ensures sa[i + 1] == a[i] { }
  }

  lemma SpaceUnchanged()
    ensures DeleteQuoteSpaces([' ']) == [' '] && CollapseDisallowed([' ']) == [' ']
  {
  }

  /** A sentence framed by two punctuation marks, such as a Spanish
      question: both marks are set apart by single spaces. */
  lemma MarkThenWordsThenMark(q: char, a: string, x: char, p: char)
    requires IsPunctuation(q) && PlainWords(a) && a != []
    requires IsAsciiLetter(x) && IsPunctuation(p)
    ensures Cleaned([q] + a + [x, p]) == [q, ' '] + a + [x, ' ', p]
  {
    var sa, ss := Substituted([q] + a), Substituted([' '] + []);
    assert Cleaned([q] + a + [x, p]) == LStrip(sa) + [x, ' ', p] + RStrip(ss) by {
      assert [q] + a + [x, p] == ([q] + a) + [x, p] + [];
      CleanedLetterThenPunctuation([q] + a, x, p, []);
    }
    assert LStrip(sa) == [q, ' '] + a by {
      MarkThenWords(q, a);
      LStripSpaceThenMark(q, a);
    }
    assert RStrip(ss) == [] by {
      assert [' '] + [] == [' '];
      SubstitutedSpace();
    }
  }

  lemma LStripSpaceThenMark(q: char, a: string)
    requires IsPunctuation(q)
    ensures LStrip([' ', q, ' '] + a) == [q, ' '] + a
  {
    assert [' ', q, ' '] + a == [' '] + ([q, ' '] + a);
    LStripPrefix([' '], [q, ' '] + a);
    assert LStrip([' ']) == [];
  }

  lemma SubstitutedSpace()
    ensures Substituted([' ']) == [' '] && RStrip([' ']) == []
  {
  }

  lemma LStripLetter(a: string)
    requires a != [] ==> IsAsciiLetter(a[0])
    ensures LStrip(a) == a
  {
  }
}
