/** The sentences the translation tutorial itself quotes, worked through
    `preprocess_sentence`. The ASCII ones come out the same whatever the
    Unicode tables; the Spanish sample needs only what the tables say about
    that one sentence and its inverted question mark.

    Each fact about a string literal sits in a lemma of its own: the
    verifier evaluates functions applied to literals eagerly, and keeping
    those evaluations apart keeps every proof small. */
module SentenceExamples {
  import opened Unicode
  import opened Sentence

  // ---------------------------------------------------------------------
  // Lines 28-29: "he is a boy." => "he is a boy ."

  lemma HeIsABoy(u: Tables)
    ensures Preprocess(u, "he is a boy.") == "<start> he is a boy . <end>"
  {
    BoyFolded(u);
    BoyCleaned();
    BoyMarked();
  }

  lemma BoyFolded(u: Tables)
    ensures Folded(u, "he is a boy.") == "he is a boy."
  {
    BoyIsAscii();
    BoyIsLowerCase();
    BoyIsStripped();
    var t := AsciiFolded(u, "he is a boy.");
  }

  lemma BoyIsAscii()
    ensures IsAscii("he is a boy.")
  {
  }

  lemma BoyIsLowerCase()
    ensures AsciiLower("he is a boy.") == "he is a boy."
  {
    AsciiLowerNoUpper("he is a boy.");
  }

  lemma BoyIsStripped()
    ensures Strip("he is a boy.") == "he is a boy."
  {
    StripUnchanged("he is a boy.");
  }

  lemma BoyCleaned()
    ensures Cleaned("he is a boy.") == "he is a boy ."
  {
    assert PlainWords("he is a bo");
    WordsThenMark("he is a bo", 'y', '.');
    BoySplit();
  }

  lemma BoySplit()
    ensures "he is a bo" + ['y', '.'] == "he is a boy."
    ensures "he is a bo" + ['y', ' ', '.'] == "he is a boy ."
  {
  }

  lemma BoyMarked()
    ensures StartMarker + "he is a boy ." + EndMarker == "<start> he is a boy . <end>"
  {
  }

  // ---------------------------------------------------------------------
  // Lines 42 and 44: the English sample

  lemma EnglishSample(u: Tables)
    ensures Preprocess(u, "May I borrow this book?") == "<start> may i borrow this book ? <end>"
  {
    EnglishFolded(u);
    EnglishCleaned();
    EnglishMarked();
  }

  lemma EnglishFolded(u: Tables)
    ensures Folded(u, "May I borrow this book?") == "may i borrow this book?"
  {
    EnglishIsAscii();
    EnglishLowerCase();
    EnglishIsStripped();
    var t := AsciiFolded(u, "May I borrow this book?");
  }

  lemma EnglishIsAscii()
    ensures IsAscii("May I borrow this book?")
  {
  }

  lemma EnglishLowerCase()
    ensures AsciiLower("May I borrow this book?") == "may i borrow this book?"
  {
    EnglishLowerPieces();
    EnglishLowerSplit();
  }

  lemma EnglishLowerPieces()
    ensures AsciiLower("M" + "ay " + "I" + " borrow this book?") == "m" + "ay " + "i" + " borrow this book?"
  {
    AsciiLowerConcat("M" + "ay " + "I", " borrow this book?");
    AsciiLowerConcat("M" + "ay ", "I");
    AsciiLowerConcat("M", "ay ");
    CapitalM();
    CapitalI();
    NoCapitals();
  }

  lemma CapitalM()
    ensures AsciiLower("M") == "m"
  {
  }

  lemma CapitalI()
    ensures AsciiLower("I") == "i"
  {
  }

  lemma NoCapitals()
    ensures AsciiLower("ay ") == "ay "
    ensures AsciiLower(" borrow this book?") == " borrow this book?"
  {
    AsciiLowerNoUpper("ay ");
    AsciiLowerNoUpper(" borrow this book?");
  }

  lemma EnglishLowerSplit()
    ensures "M" + "ay " + "I" + " borrow this book?" == "May I borrow this book?"
    ensures "m" + "ay " + "i" + " borrow this book?" == "may i borrow this book?"
  {
  }

  lemma EnglishIsStripped()
    ensures Strip("may i borrow this book?") == "may i borrow this book?"
  {
    StripUnchanged("may i borrow this book?");
  }

  lemma EnglishCleaned()
    ensures Cleaned("may i borrow this book?") == "may i borrow this book ?"
  {
    assert PlainWords("may i borrow this boo");
    WordsThenMark("may i borrow this boo", 'k', '?');
    EnglishSplit();
  }

  lemma EnglishSplit()
    ensures "may i borrow this boo" + ['k', '?'] == "may i borrow this book?"
    ensures "may i borrow this boo" + ['k', ' ', '?'] == "may i borrow this book ?"
  {
  }

  lemma EnglishMarked()
    ensures StartMarker + "may i borrow this book ?" + EndMarker == "<start> may i borrow this book ? <end>"
  {
  }

  // ---------------------------------------------------------------------
  // Lines 43 and 45: the Spanish sample, for any tables that lower-case,
  // decompose and classify it as Unicode does

  lemma SpanishSample(u: Tables)
    requires u.lower("\U{BF}Puedo tomar prestado este libro?") == "\U{BF}puedo tomar prestado este libro?"
    requires u.nfd("\U{BF}puedo tomar prestado este libro?") == "\U{BF}puedo tomar prestado este libro?"
    requires u.category('\U{BF}') == "Po"
    ensures Preprocess(u, "\U{BF}Puedo tomar prestado este libro?")
         == "<start> \U{BF} puedo tomar prestado este libro ? <end>"
  {
    SpanishFolded(u);
    SpanishCleaned();
    SpanishMarked();
  }

  lemma SpanishFolded(u: Tables)
    requires u.lower("\U{BF}Puedo tomar prestado este libro?") == "\U{BF}puedo tomar prestado este libro?"
    requires u.nfd("\U{BF}puedo tomar prestado este libro?") == "\U{BF}puedo tomar prestado este libro?"
    requires u.category('\U{BF}') == "Po"
    ensures Folded(u, "\U{BF}Puedo tomar prestado este libro?") == "\U{BF}puedo tomar prestado este libro?"
  {
    SpanishNotAscii();
    SpanishIsStripped();
    SpanishHasNoMarks(u);
  }

  lemma SpanishNotAscii()
    ensures !IsAscii("\U{BF}Puedo tomar prestado este libro?")
    ensures !IsAscii("\U{BF}puedo tomar prestado este libro?")
  {
    assert !IsAsciiChar("\U{BF}Puedo tomar prestado este libro?"[0]);
    assert !IsAsciiChar("\U{BF}puedo tomar prestado este libro?"[0]);
  }

  lemma SpanishIsStripped()
    ensures Strip("\U{BF}puedo tomar prestado este libro?") == "\U{BF}puedo tomar prestado este libro?"
  {
    StripUnchanged("\U{BF}puedo tomar prestado este libro?");
  }

  lemma SpanishHasNoMarks(u: Tables)
    requires u.category('\U{BF}') == "Po"
    ensures Filter(c => !IsMn(u, c), "\U{BF}puedo tomar prestado este libro?") == "\U{BF}puedo tomar prestado este libro?"
  {
    var s := "\U{BF}puedo tomar prestado este libro?";
    forall i | 0 <= i < |s| ensures !IsMn(u, s[i]) {
      if i > 0 {
        assert IsAsciiChar(s[i]);
      }
    }
    FilterAll(c => !IsMn(u, c), s);
  }

  lemma SpanishCleaned()
    ensures Cleaned("\U{BF}puedo tomar prestado este libro?") == "\U{BF} puedo tomar prestado este libro ?"
  {
    SpanishPieces();
    SpanishSplit();
  }

  lemma SpanishPieces()
    ensures Cleaned(['\U{BF}'] + "puedo tomar prestado este libr" + ['o', '?'])
         == ['\U{BF}', ' '] + "puedo tomar prestado este libr" + ['o', ' ', '?']
  {
    assert PlainWords("puedo tomar prestado este libr");
    MarkThenWordsThenMark('\U{BF}', "puedo tomar prestado este libr", 'o', '?');
  }

  lemma SpanishSplit()
    ensures ['\U{BF}'] + "puedo tomar prestado este libr" + ['o', '?'] == "\U{BF}puedo tomar prestado este libro?"
    ensures ['\U{BF}', ' '] + "puedo tomar prestado este libr" + ['o', ' ', '?'] == "\U{BF} puedo tomar prestado este libro ?"
  {
    SpanishWords();
    AppendAssoc(['\U{BF}'], "puedo tomar", " prestado este libr");
    AppendAssoc(['\U{BF}', ' '], "puedo tomar", " prestado este libr");
    SpanishFoldedJoin();
    SpanishCleanedJoin();
  }

  // Long string literals are compared a few characters at a time: each
  // lemma below appends one short piece on the right.

  lemma SpanishWords()
    ensures "puedo tomar prestado este libr" == "puedo tomar" + " prestado este libr"
  {
  }

  lemma SpanishFoldedJoin()
    ensures ['\U{BF}'] + "puedo tomar" == "\U{BF}puedo tomar"
    ensures "\U{BF}puedo tomar" + " prestado este libr" == "\U{BF}puedo tomar prestado este libr"
    ensures "\U{BF}puedo tomar prestado este libr" + ['o', '?'] == "\U{BF}puedo tomar prestado este libro?"
  {
  }

  lemma SpanishCleanedJoin()
    ensures ['\U{BF}', ' '] + "puedo tomar" == "\U{BF} puedo tomar"
    ensures "\U{BF} puedo tomar" + " prestado este libr" == "\U{BF} puedo tomar prestado este libr"
    ensures "\U{BF} puedo tomar prestado este libr" + ['o', ' ', '?'] == "\U{BF} puedo tomar prestado este libro ?"
  {
  }

  lemma SpanishMarked()
    ensures StartMarker + "\U{BF} puedo tomar prestado este libro ?" + EndMarker
         == "<start> \U{BF} puedo tomar prestado este libro ? <end>"
  {
    SpanishBody();
    AppendAssoc(StartMarker, "\U{BF} puedo tomar", " prestado este libro ?");
    SpanishMarkedJoin();
  }

  lemma SpanishBody()
    ensures "\U{BF} puedo tomar prestado este libro ?" == "\U{BF} puedo tomar" + " prestado este libro ?"
  {
  }

  lemma SpanishMarkedJoin()
    ensures StartMarker + "\U{BF} puedo tomar" == "<start> \U{BF} puedo tomar"
    ensures "<start> \U{BF} puedo tomar" + " prestado este libro ?" == "<start> \U{BF} puedo tomar prestado este libro ?"
    ensures "<start> \U{BF} puedo tomar prestado este libro ?" + EndMarker
         == "<start> \U{BF} puedo tomar prestado este libro ? <end>"
  {
  }

  // ---------------------------------------------------------------------
  // Line 31 read literally: a space followed by two more spaces is deleted
  // with them, so "a.  b" loses the space between the mark and the next
  // word.

  lemma MarkThenTwoSpaces(u: Tables)
    ensures Preprocess(u, "a.  b") == "<start> a .b <end>"
  {
    TwoSpacesFolded(u);
    LetterMarkTwoSpacesLetter('a', '.', 'b');
    TwoSpacesSplit();
  }

  lemma TwoSpacesFolded(u: Tables)
    ensures Folded(u, "a.  b") == "a.  b"
  {
    TwoSpacesIsAscii();
    TwoSpacesLowerCase();
    TwoSpacesIsStripped();
    var t := AsciiFolded(u, "a.  b");
  }

  lemma TwoSpacesIsAscii()
    ensures IsAscii("a.  b")
  {
  }

  lemma TwoSpacesLowerCase()
    ensures AsciiLower("a.  b") == "a.  b"
  {
    AsciiLowerNoUpper("a.  b");
  }

  lemma TwoSpacesIsStripped()
    ensures Strip("a.  b") == "a.  b"
  {
    StripUnchanged("a.  b");
  }

  lemma TwoSpacesSplit()
    ensures ['a', '.', ' ', ' ', 'b'] == "a.  b"
    ensures StartMarker + ['a', ' ', '.', 'b'] + EndMarker == "<start> a .b <end>"
  {
  }

  /** For any letters `x`, `y` and mark `p`: "xp  y" becomes "x py". Line 30
      turns the two spaces after the mark into three, and line 31 deletes
      all three. */
  lemma LetterMarkTwoSpacesLetter(x: char, p: char, y: char)
    requires IsAsciiLetter(x) && IsPunctuation(p) && IsAsciiLetter(y)
    ensures Cleaned([x, p, ' ', ' ', y]) == [x, ' ', p, y]
  {
    PaddedTwoSpaces(x, p, y);
    DeletedTwoSpaces(x, p, y);
    CollapsedTwoSpaces(x, p, y);
    StrippedTwoSpaces(x, p, y);
  }

  lemma PaddedTwoSpaces(x: char, p: char, y: char)
    requires IsAsciiLetter(x) && IsPunctuation(p) && IsAsciiLetter(y)
    ensures PadPunctuation([x, p, ' ', ' ', y]) == [x, ' ', p, ' ', ' ', ' ', y]
  {
    PadPunctuationConcat([x, p], [' ', ' ', y]);
    var tail := PadLetterThenPunctuation([], x, p, []);
    assert [x, p] == [] + [x, p] + [];
    PadPunctuationNone([' ', ' ', y]);
  }

  lemma DeletedTwoSpaces(x: char, p: char, y: char)
    requires IsAsciiLetter(x) && IsPunctuation(p) && IsAsciiLetter(y)
    ensures DeleteQuoteSpaces([x, ' ', p, ' ', ' ', ' ', y]) == [x, ' ', p, y]
  {
    var r := [' ', ' ', ' ', y];
    assert [x, ' ', p, ' ', ' ', ' ', y] == [x] + ([' '] + [p] + r);
    DeleteQuoteSpacesFront(x, [' '] + [p] + r);
    DeleteSpaceThenMark(p, r);
    DeletedThreeSpaces(y);
    assert [x] + ([' '] + [p] + [y]) == [x, ' ', p, y];
  }

  /** The space and the two after it form one match of line 31. */
  lemma DeletedThreeSpaces(y: char)
    requires IsAsciiLetter(y)
    ensures DeleteQuoteSpaces([' ', ' ', ' ', y]) == [y]
  {
    var r := [' ', ' ', ' ', y];
    assert r[1..][1..][1..] == [y];
    assert SpaceRun([y]) == 0;
    assert SpaceRun(r[1..][1..]) == 1;
    assert SpaceRun(r[1..]) == 2;
    assert r[3..] == [y];
    assert DeleteQuoteSpaces([y]) == [y];
  }

  lemma CollapsedTwoSpaces(x: char, p: char, y: char)
    requires IsAsciiLetter(x) && IsPunctuation(p) && IsAsciiLetter(y)
    ensures CollapseDisallowed([x, ' ', p, y]) == [x, ' ', p, y]
  {
    var t := [x, ' ', p, y];
    assert NoDoubleSpace(t);
    CollapseDisallowedFixes(t);
  }

  lemma StrippedTwoSpaces(x: char, p: char, y: char)
    requires IsAsciiLetter(x) && IsPunctuation(p) && IsAsciiLetter(y)
    ensures Strip([x, ' ', p, y]) == [x, ' ', p, y]
  {
    StripUnchanged([x, ' ', p, y]);
  }
}
