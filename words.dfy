/** The word lists the tutorial builds from its strings: `str.split(' ')`
    on a preprocessed sentence (line 277) and the `result` string of
    `evaluate`, each predicted word followed by one space (line 296). */
module Words {
  import opened Sentence

  /** The index of the first space in `s`, or `|s|` when there is none. */
  function SpaceIndex(s: string): (i: nat)
    ensures i <= |s|
    ensures forall j | 0 <= j < i :: s[j] != ' '
    ensures i < |s| ==> s[i] == ' '
  {
    if s == [] || s[0] == ' ' then 0 else 1 + SpaceIndex(s[1..])
  }

  /** `s.split(' ')`: the pieces between single spaces, empty pieces
      included, so that a string with `k` spaces has `k + 1` pieces. */
  function Split(s: string): (r: seq<string>)
    ensures |r| >= 1
    ensures forall i | 0 <= i < |r| :: ' ' !in r[i]
    decreases |s|
  {
    var i := SpaceIndex(s);
    if i == |s| then [s] else [s[..i]] + Split(s[i + 1..])
  }

  /** `' '.join(ws)`. */
  function Join(ws: seq<string>): string
  {
    if ws == [] then []
    else if |ws| == 1 then ws[0]
    else ws[0] + [' '] + Join(ws[1..])
  }

  /** The string `evaluate` builds: every word followed by one space. */
  function Terminated(ws: seq<string>): string
  {
    if ws == [] then [] else ws[0] + [' '] + Terminated(ws[1..])
  }

  predicate NoSpaces(ws: seq<string>)
  {
    forall i | 0 <= i < |ws| :: ' ' !in ws[i]
  }

  lemma SplitNoSpace(s: string)
    requires ' ' !in s
    ensures Split(s) == [s]
  {
    assert forall j | 0 <= j < |s| :: s[j] != ' ';
    assert SpaceIndex(s) == |s|;
  }

  lemma {:induction false} SpaceIndexPrefix(a: string, b: string)
    ensures SpaceIndex(a) < |a| ==> SpaceIndex(a + [' '] + b) == SpaceIndex(a)
    ensures SpaceIndex(a) == |a| ==> SpaceIndex(a + [' '] + b) == |a|
  {
    if a != [] {
      assert (a + [' '] + b)[1..] == a[1..] + [' '] + b;
      SpaceIndexPrefix(a[1..], b);
    } else {
      assert (a + [' '] + b)[0] == ' ';
    }
  }

  /** A space splits the string into the pieces on its left and those on
      its right. */
  lemma {:induction false} SplitConcat(a: string, b: string)
    ensures Split(a + [' '] + b) == Split(a) + Split(b)
    decreases |a|
  {
    var s := a + [' '] + b;
    var i := SpaceIndex(a);
    SpaceIndexPrefix(a, b);
    if i == |a| {
      assert s[..i] == a;
      assert s[i + 1..] == b;
      assert Split(a) == [a];
    } else {
      assert SpaceIndex(s) == i;
      assert s[..i] == a[..i];
      assert s[i + 1..] == a[i + 1..] + [' '] + b;
      SplitConcat(a[i + 1..], b);
    }
  }

  /** Joining the pieces gives back the string. */
  lemma {:induction false} JoinSplit(s: string)
    ensures Join(Split(s)) == s
    decreases |s|
  {
    var i := SpaceIndex(s);
    if i < |s| {
      var rest := Split(s[i + 1..]);
      assert Split(s)[1..] == rest;
      JoinSplit(s[i + 1..]);
      assert s == s[..i] + [' '] + s[i + 1..];
    }
  }

  /** Splitting a join of words without spaces gives back the words. */
  lemma {:induction false} SplitJoin(ws: seq<string>)
    requires |ws| >= 1 && NoSpaces(ws)
    ensures Split(Join(ws)) == ws
  {
    SplitNoSpace(ws[0]);
    if |ws| > 1 {
      SplitConcat(ws[0], Join(ws[1..]));
      SplitJoin(ws[1..]);
    }
  }

  /** The `result` string is the join of the words and one final empty
      piece. */
  lemma {:induction false} TerminatedJoin(ws: seq<string>)
    ensures Terminated(ws) == Join(ws + [[]])
  {
    if ws != [] {
      assert (ws + [[]])[0] == ws[0];
      assert (ws + [[]])[1..] == ws[1..] + [[]];
      TerminatedJoin(ws[1..]);
    }
  }

  /** Splitting `result` on spaces, as `translate` does on lines 325-326,
      gives the predicted words and one trailing empty piece. */
  lemma SplitTerminated(ws: seq<string>)
    requires NoSpaces(ws)
    ensures Split(Terminated(ws)) == ws + [[]]
  {
    TerminatedJoin(ws);
    assert NoSpaces(ws + [[]]);
    SplitJoin(ws + [[]]);
  }

  lemma {:induction false} TerminatedConcat(ws: seq<string>, w: string)
    ensures Terminated(ws + [w]) == Terminated(ws) + w + [' ']
  {
    if ws == [] {
      assert [] + [w] == [w];
    } else {
      assert (ws + [w])[1..] == ws[1..] + [w];
      TerminatedConcat(ws[1..], w);
    }
  }

  // ---------------------------------------------------------------------
  // The words of a preprocessed sentence

  /** The words of `<start> body <end>` are `<start>`, the words of the
      body and `<end>`. */
  lemma SplitMarked(b: string)
    ensures Split(StartMarker + b + EndMarker) == ["<start>"] + Split(b) + ["<end>"]
  {
    MarkersAroundSpaces(b);
    SplitConcat("<start>", b + [' '] + "<end>");
    SplitConcat(b, "<end>");
    MarkersAreWords();
  }

  lemma MarkersAroundSpaces(b: string)
    ensures StartMarker + b + EndMarker == "<start>" + [' '] + (b + [' '] + "<end>")
  {
  }

  lemma MarkersAreWords()
    ensures Split("<start>") == ["<start>"] && Split("<end>") == ["<end>"]
  {
    SplitNoSpace("<start>");
    SplitNoSpace("<end>");
  }

  /** An empty body leaves a single empty word between the markers. */
  lemma SplitEmptyBody()
    ensures Split(StartMarker + [] + EndMarker) == ["<start>", [], "<end>"]
  {
    SplitMarked([]);
    assert Split([]) == [[]];
  }

  /** A non-empty well-formed body splits into non-empty words of letters and
      punctuation marks. */
  lemma {:induction false} SplitWellFormed(b: string)
    requires WellFormedBody(b) && b != []
    ensures forall i | 0 <= i < |Split(b)| :: Split(b)[i] != []
    ensures forall i, j | 0 <= i < |Split(b)| && 0 <= j < |Split(b)[i]| :: IsKept(Split(b)[i][j])
    decreases |b|
  {
    var i := SpaceIndex(b);
    assert i > 0;
    if i < |b| {
      var rest := b[i + 1..];
      assert i + 1 < |b|;
      assert b[i + 1] != ' ';
      assert forall k | 0 <= k < |rest| :: rest[k] == b[i + 1 + k];
      assert WellFormedBody(rest);
      SplitWellFormed(rest);
      assert Split(b) == [b[..i]] + Split(rest);
    } else {
      assert forall j | 0 <= j < |b| :: b[j] != ' ';
    }
  }

  /** The words of a preprocessed sentence: `<start>`, then either one empty
      word (nothing of the sentence survived) or non-empty words of letters
      and punctuation, then `<end>`. */
  lemma PreprocessWords(u: Unicode.Tables, w: string)
    ensures var ws := Split(Preprocess(u, w));
            && |ws| >= 3 && ws[0] == "<start>" && ws[|ws| - 1] == "<end>"
            && (Body(u, w) == [] <==> ws == ["<start>", [], "<end>"])
            && (Body(u, w) != [] ==> forall i | 1 <= i < |ws| - 1 :: ws[i] != [])
  {
    CleanedShape(Folded(u, w));
    MarkedWords(Body(u, w));
  }

  lemma MarkedWords(b: string)
    requires WellFormedBody(b)
    ensures var ws := Split(StartMarker + b + EndMarker);
            && |ws| >= 3 && ws[0] == "<start>" && ws[|ws| - 1] == "<end>"
            && (b == [] <==> ws == ["<start>", [], "<end>"])
            && (b != [] ==> forall i | 1 <= i < |ws| - 1 :: ws[i] != [])
  {
    SplitMarked(b);
    var ws := Split(StartMarker + b + EndMarker);
    if b == [] {
      SplitEmptyBody();
    } else {
      SplitWellFormed(b);
      assert forall i | 1 <= i < |ws| - 1 :: ws[i] == Split(b)[i - 1];
      assert ws[1] != [];
    }
  }
}
