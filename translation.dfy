/** `evaluate` of the translation tutorial (lines 274-303): the sentence is
    preprocessed, its words looked up, padded and encoded, and the decoder
    is run greedily from `<start>`, one predicted word per step, until it
    predicts `<end>` or `max_length_target` steps have run. The encoder and
    the decoder are parameters; each decoder step is reduced to what
    `evaluate` uses of it: the `argmax` id, the new hidden state and the
    attention weights. */
module Translation {
  import opened Unicode
  import opened Sentence
  import opened Words

  datatype Option<T> = None | Some(value: T)

  /** One decoder call as `evaluate` sees it. */
  datatype DecoderStep<H> = DecoderStep(predicted: nat, hidden: H, attention: seq<real>)

  /** How `evaluate` ends: with the translated words and the preprocessed
      sentence, or with the `KeyError` of an input word that the input
      vocabulary lacks (line 277), of a target vocabulary without `<start>`
      (line 286) or of a predicted id that `index_word` lacks (line 296). */
  datatype Evaluation = Translated(result: string, sentence: string)
                      | UnknownWord(word: string)
                      | NoStartToken
                      | UnknownId(id: nat)

  // ---------------------------------------------------------------------
  // Lines 277-279: the input ids

  datatype Lookup = Found(ids: seq<nat>) | Missing(word: string)

  /** Every word has an id in the vocabulary. */
  predicate AllKnown(wordIndex: map<string, nat>, ws: seq<string>)
  {
    forall k | 0 <= k < |ws| :: ws[k] in wordIndex
  }

  /** `[word_index[i] for i in words]`: the ids of the words, or the first
      word that has none. */
  function LookupAll(wordIndex: map<string, nat>, ws: seq<string>): (r: Lookup)
    ensures r.Found? <==> AllKnown(wordIndex, ws)
    ensures r.Found? ==> |r.ids| == |ws| && forall i | 0 <= i < |ws| :: r.ids[i] == wordIndex[ws[i]]
    ensures r.Missing? ==> exists k | 0 <= k < |ws| :: ws[k] == r.word && r.word !in wordIndex
                                                   && forall j | 0 <= j < k :: ws[j] in wordIndex
  {
    if ws == [] then Found([])
    else if ws[0] !in wordIndex then Missing(ws[0])
    else match LookupAll(wordIndex, ws[1..])
         case Found(ids) => Found([wordIndex[ws[0]]] + ids)
         case Missing(w) => Missing(w)
  }

  /** `pad_sequences([ids], maxlen, padding = 'post')` with the default
      `truncating = 'pre'`: exactly `maxlen` ids, zeros added at the end of a
      short sequence, the first ids dropped from a long one. */
  function PadPost(ids: seq<nat>, maxlen: nat): (r: seq<nat>)
    ensures |r| == maxlen
    ensures |ids| <= maxlen ==> r[..|ids|] == ids && forall i | |ids| <= i < maxlen :: r[i] == 0
    ensures |ids| > maxlen ==> r == ids[|ids| - maxlen..]
  {
    if |ids| > maxlen then ids[|ids| - maxlen..] else ids + seq(maxlen - |ids|, _ => 0)
  }

  /** Removing trailing zeros. */
  function TrimZeros(s: seq<nat>): seq<nat>
  {
    if s == [] || s[|s| - 1] != 0 then s else TrimZeros(s[..|s| - 1])
  }

  /** Vocabulary ids start at 1, so a sequence that fits is recovered from
      its padding. */
  lemma {:induction false} PadPostTrims(ids: seq<nat>, maxlen: nat)
    requires |ids| <= maxlen
    requires forall i | 0 <= i < |ids| :: ids[i] != 0
    ensures TrimZeros(PadPost(ids, maxlen)) == ids
    decreases maxlen
  {
    var r := PadPost(ids, maxlen);
    if |ids| < maxlen {
      assert r[..maxlen - 1] == PadPost(ids, maxlen - 1);
      PadPostTrims(ids, maxlen - 1);
    } else {
      assert r == ids;
    }
  }

  // ---------------------------------------------------------------------
  // Lines 287-303: greedy decoding

  /** The decoding: the words appended to `result`, the attention rows
      written, and the id whose lookup failed, if one did. */
  datatype Decoding = Decoding(words: seq<string>, rows: seq<seq<real>>, failed: Option<nat>)

  /** At most `n` more steps from decoder input `id` and state `hidden`. */
  function Decode<E, H>(decoder: (nat, H, E) -> DecoderStep<H>, encOut: E, indexWord: map<nat, string>,
                        id: nat, hidden: H, n: nat): Decoding
    decreases n
  {
    if n == 0 then Decoding([], [], None)
    else
      var d := decoder(id, hidden, encOut);
      if d.predicted !in indexWord then Decoding([], [d.attention], Some(d.predicted))
      else if indexWord[d.predicted] == "<end>" then Decoding(["<end>"], [d.attention], None)
      else
        var rest := Decode(decoder, encOut, indexWord, d.predicted, d.hidden, n - 1);
        Decoding([indexWord[d.predicted]] + rest.words, [d.attention] + rest.rows, rest.failed)
  }

  /** Decoding runs at most `n` steps and writes one attention row per
      step; every step but a failed one appends a word of the vocabulary;
      `<end>` can only be the last word, and a decoding that stops early
      without failing has just appended `<end>`. */
  lemma {:induction false} DecodeShape<E, H>(decoder: (nat, H, E) -> DecoderStep<H>, encOut: E,
                                             indexWord: map<nat, string>, id: nat, hidden: H, n: nat)
    ensures var d := Decode(decoder, encOut, indexWord, id, hidden, n);
            && |d.rows| <= n
            && |d.rows| == |d.words| + (if d.failed.Some? then 1 else 0)
            && (d.failed.Some? ==> d.failed.value !in indexWord)
            && (forall i | 0 <= i < |d.words| :: d.words[i] in indexWord.Values)
            && (forall i | 0 <= i < |d.words| - 1 :: d.words[i] != "<end>")
            && (d.failed.None? && |d.words| < n ==> d.words != [] && d.words[|d.words| - 1] == "<end>")
    decreases n
  {
    if n > 0 {
      var s := decoder(id, hidden, encOut);
      if s.predicted in indexWord && indexWord[s.predicted] != "<end>" {
        DecodeShape(decoder, encOut, indexWord, s.predicted, s.hidden, n - 1);
        var rest := Decode(decoder, encOut, indexWord, s.predicted, s.hidden, n - 1);
        var d := Decode(decoder, encOut, indexWord, id, hidden, n);
        assert d.words == [indexWord[s.predicted]] + rest.words;
        assert forall i | 1 <= i < |d.words| :: d.words[i] == rest.words[i - 1];
      }
    }
  }

  /** The words and rows decoded so far in front of the rest. */
  function Prepend(ws: seq<string>, rs: seq<seq<real>>, d: Decoding): Decoding
  {
    Decoding(ws + d.words, rs + d.rows, d.failed)
  }

  /** Decoded prefixes concatenate. */
  lemma PrependPrepend(ws: seq<string>, rs: seq<seq<real>>, w: seq<string>, r: seq<seq<real>>, d: Decoding)
    ensures Prepend(ws, rs, Prepend(w, r, d)) == Prepend(ws + w, rs + r, d)
  {
    assert ws + (w + d.words) == (ws + w) + d.words;
    assert rs + (r + d.rows) == (rs + r) + d.rows;
  }

  /** Cell `(i, j)` of `attention_plot` once `rows` have been written over
      the zeros it starts with. */
  function Cell(rows: seq<seq<real>>, i: nat, j: nat): real
  {
    if i < |rows| && j < |rows[i]| then rows[i][j] else 0.0
  }

  /** What `evaluate(sentence)` returns, and which rows of `attention_plot`
      it has filled in. */
  function Evaluated<E, H>(u: Tables, sentence: string, inputIndex: map<string, nat>,
                           targetIndex: map<string, nat>, indexWord: map<nat, string>,
                           maxT: nat, maxI: nat, encoder: seq<nat> -> (E, H),
                           decoder: (nat, H, E) -> DecoderStep<H>): (Evaluation, seq<seq<real>>)
  {
    Translate(Preprocess(u, sentence), inputIndex, targetIndex, indexWord, maxT, maxI, encoder, decoder)
  }

  /** Lines 277-303 on the preprocessed sentence `s`. */
  function Translate<E, H>(s: string, inputIndex: map<string, nat>,
                           targetIndex: map<string, nat>, indexWord: map<nat, string>,
                           maxT: nat, maxI: nat, encoder: seq<nat> -> (E, H),
                           decoder: (nat, H, E) -> DecoderStep<H>): (Evaluation, seq<seq<real>>)
  {
    var look := LookupAll(inputIndex, Split(s));
    if look.Missing? then (UnknownWord(look.word), [])
    else
      var enc := encoder(PadPost(look.ids, maxI));
      if "<start>" !in targetIndex then (NoStartToken, [])
      else
        var d := Decode(decoder, enc.0, indexWord, targetIndex["<start>"], enc.1, maxT);
        if d.failed.Some? then (UnknownId(d.failed.value), d.rows)
        else (Translated(Terminated(d.words), s), d.rows)
  }

  /** Every attention vector the decoder returns has `width` entries. */
  ghost predicate AttentionWidth<E(!new), H(!new)>(decoder: (nat, H, E) -> DecoderStep<H>, width: nat)
  {
    forall id: nat, h: H, e: E :: |decoder(id, h, e).attention| == width
  }

  lemma AttentionWidthAt<E(!new), H(!new)>(decoder: (nat, H, E) -> DecoderStep<H>, width: nat, id: nat, h: H, e: E)
    requires AttentionWidth(decoder, width)
    ensures |decoder(id, h, e).attention| == width
  {
  }

  /** `attention_plot[t] = attention_weights` (line 292): on an array
      holding `rows` over zeros, with `t` the number of rows, the array then
      holds `rows + [attention]` over zeros. */
  method StoreRow(plot: array2<real>, ghost rows: seq<seq<real>>, t: nat, attention: seq<real>)
    requires t == |rows| < plot.Length0 && |attention| == plot.Length1
    requires forall i, j | 0 <= i < plot.Length0 && 0 <= j < plot.Length1 :: plot[i, j] == Cell(rows, i, j)
    modifies plot
    ensures forall i, j | 0 <= i < plot.Length0 && 0 <= j < plot.Length1 ::
              plot[i, j] == Cell(rows + [attention], i, j)
  {
    var j := 0;
    while j < plot.Length1
      invariant j <= plot.Length1
      invariant forall k | 0 <= k < j :: plot[t, k] == attention[k]
      invariant forall i, k | 0 <= i < plot.Length0 && i != t && 0 <= k < plot.Length1 :: plot[i, k] == old(plot[i, k])
    {
      plot[t, j] := attention[j];
      j := j + 1;
    }
    forall i, k | 0 <= i < plot.Length0 && 0 <= k < plot.Length1
      ensures plot[i, k] == Cell(rows + [attention], i, k)
    {
      if i != t {
        assert plot[i, k] == Cell(rows, i, k);
      }
    }
  }

  /** One step of `Decode`, unfolded. */
  lemma DecodeUnfold<E, H>(decoder: (nat, H, E) -> DecoderStep<H>, encOut: E,
                           indexWord: map<nat, string>, id: nat, hidden: H, n: nat)
    requires n > 0
    ensures var d := decoder(id, hidden, encOut);
            Decode(decoder, encOut, indexWord, id, hidden, n) ==
              if d.predicted !in indexWord then Decoding([], [d.attention], Some(d.predicted))
              else if indexWord[d.predicted] == "<end>" then Decoding(["<end>"], [d.attention], None)
              else Prepend([indexWord[d.predicted]], [d.attention],
                           Decode(decoder, encOut, indexWord, d.predicted, d.hidden, n - 1))
  {
  }

  /** `evaluate(sentence)`. Every attention vector the decoder returns has
      `max_length_input` entries, as the reshape of line 291 gives. */
  method Evaluate<E(!new), H(!new)>(u: Tables, sentence: string, inputIndex: map<string, nat>,
                        targetIndex: map<string, nat>, indexWord: map<nat, string>,
                        maxT: nat, maxI: nat, encoder: seq<nat> -> (E, H),
                        decoder: (nat, H, E) -> DecoderStep<H>)
    returns (res: Evaluation, plot: array2<real>)
    requires AttentionWidth(decoder, maxI)
    ensures fresh(plot) && plot.Length0 == maxT && plot.Length1 == maxI
    ensures var ev := Evaluated(u, sentence, inputIndex, targetIndex, indexWord, maxT, maxI, encoder, decoder);
            && res == ev.0
            && forall i, j | 0 <= i < maxT && 0 <= j < maxI :: plot[i, j] == Cell(ev.1, i, j)
  {
    var s := Preprocess(u, sentence);
    res, plot := EvaluatePreprocessed(s, inputIndex, targetIndex, indexWord, maxT, maxI, encoder, decoder);
  }

  /** Lines 275-303 once the sentence is preprocessed. */
  method EvaluatePreprocessed<E(!new), H(!new)>(s: string, inputIndex: map<string, nat>,
                        targetIndex: map<string, nat>, indexWord: map<nat, string>,
                        maxT: nat, maxI: nat, encoder: seq<nat> -> (E, H),
                        decoder: (nat, H, E) -> DecoderStep<H>)
    returns (res: Evaluation, plot: array2<real>)
    requires AttentionWidth(decoder, maxI)
    ensures fresh(plot) && plot.Length0 == maxT && plot.Length1 == maxI
    ensures var ev := Translate(s, inputIndex, targetIndex, indexWord, maxT, maxI, encoder, decoder);
            && res == ev.0
            && forall i, j | 0 <= i < maxT && 0 <= j < maxI :: plot[i, j] == Cell(ev.1, i, j)
  {
    plot := new real[maxT, maxI]((i, j) => 0.0);
    assert forall i, j | 0 <= i < maxT && 0 <= j < maxI :: plot[i, j] == Cell([], i, j);
    var look := LookupAll(inputIndex, Split(s));
    if look.Missing? {
      return UnknownWord(look.word), plot;
    }
    var inputs := PadPost(look.ids, maxI);
    var enc := encoder(inputs);
    if "<start>" !in targetIndex {
      return NoStartToken, plot;
    }
    var result, failed := GreedyDecode(plot, decoder, enc.0, indexWord, targetIndex["<start>"], enc.1);
    if failed.Some? {
      res := UnknownId(failed.value);
    } else {
      res := Translated(result, s);
    }
  }

  /** The loop of lines 287-303 on a zeroed `attention_plot`: `result` and
      the filled rows are those of `Decode`. */
  method GreedyDecode<E(!new), H(!new)>(plot: array2<real>, decoder: (nat, H, E) -> DecoderStep<H>, encOut: E,
                            indexWord: map<nat, string>, start: nat, h0: H)
    returns (result: string, failed: Option<nat>)
    requires AttentionWidth(decoder, plot.Length1)
    requires forall i, j | 0 <= i < plot.Length0 && 0 <= j < plot.Length1 :: plot[i, j] == 0.0
    modifies plot
    ensures var d := Decode(decoder, encOut, indexWord, start, h0, plot.Length0);
            && result == Terminated(d.words) && failed == d.failed
            && forall i, j | 0 <= i < plot.Length0 && 0 <= j < plot.Length1 ::
                 plot[i, j] == Cell(d.rows, i, j)
  {
    var maxT, maxI := plot.Length0, plot.Length1;
    var decInput, hidden := start, h0;
    result := "";
    ghost var all := Decode(decoder, encOut, indexWord, start, h0, maxT);
    ghost var words: seq<string> := [];
    ghost var rows: seq<seq<real>> := [];
    var t := 0;
    while t < maxT
      invariant t <= maxT && |rows| == t
      invariant all == Prepend(words, rows, Decode(decoder, encOut, indexWord, decInput, hidden, maxT - t))
      invariant result == Terminated(words)
      invariant forall i, j | 0 <= i < maxT && 0 <= j < maxI :: plot[i, j] == Cell(rows, i, j)
    {
      var d := decoder(decInput, hidden, encOut);
      AttentionWidthAt(decoder, maxI, decInput, hidden, encOut);
      DecodeUnfold(decoder, encOut, indexWord, decInput, hidden, maxT - t);
      ghost var words0, rows0 := words, rows;
      StoreRow(plot, rows, t, d.attention);
      rows := rows + [d.attention];
      if d.predicted !in indexWord {
        PrependPrepend(words0, rows0, [], [d.attention], Decoding([], [], Some(d.predicted)));
        assert words + [] == words;
        return result, Some(d.predicted);
      }
      var w := indexWord[d.predicted];
      TerminatedConcat(words, w);
      result := result + w + [' '];
      words := words + [w];
      if w == "<end>" {
        PrependPrepend(words0, rows0, [w], [d.attention], Decoding([], [], None));
        return result, None;
      }
      PrependPrepend(words0, rows0, [w], [d.attention],
                     Decode(decoder, encOut, indexWord, d.predicted, d.hidden, maxT - t - 1));
      decInput, hidden := d.predicted, d.hidden;
      t := t + 1;
    }
    assert words + [] == words && rows + [] == rows;
    failed := None;
  }

  // ---------------------------------------------------------------------
  // What `evaluate` promises

  /** The tokenizer's words contain no space. */
  predicate SpaceFreeWords(indexWord: map<nat, string>)
  {
    forall w | w in indexWord.Values :: ' ' !in w
  }

  /** A translation splits back, at the spaces, into the decoded words and
      the empty string after the last space; there are as many words as
      attention rows, at most `max_length_target`, all from the target
      vocabulary, with `<end>` only at the end and always there when the
      decoding stopped early. */
  lemma TranslatedWords<E, H>(s: string, inputIndex: map<string, nat>,
                              targetIndex: map<string, nat>, indexWord: map<nat, string>,
                              maxT: nat, maxI: nat, encoder: seq<nat> -> (E, H),
                              decoder: (nat, H, E) -> DecoderStep<H>)
    requires SpaceFreeWords(indexWord)
    ensures var ev := Translate(s, inputIndex, targetIndex, indexWord, maxT, maxI, encoder, decoder);
            var rows := ev.1;
            ev.0.Translated? ==>
              var ws := Split(ev.0.result);
              && ev.0.sentence == s
              && ws[|ws| - 1] == []
              && |ws| - 1 == |rows| <= maxT
              && (forall i | 0 <= i < |ws| - 1 :: ws[i] in indexWord.Values)
              && (forall i | 0 <= i < |ws| - 2 :: ws[i] != "<end>")
              && (|ws| - 1 < maxT ==> |ws| >= 2 && ws[|ws| - 2] == "<end>")
  {
    var ev := Translate(s, inputIndex, targetIndex, indexWord, maxT, maxI, encoder, decoder);
    if ev.0.Translated? {
      var look := LookupAll(inputIndex, Split(s));
      var enc := encoder(PadPost(look.ids, maxI));
      var d := Decode(decoder, enc.0, indexWord, targetIndex["<start>"], enc.1, maxT);
      DecodeShape(decoder, enc.0, indexWord, targetIndex["<start>"], enc.1, maxT);
      DecodedWordsSplit(indexWord, d.words);
    }
  }

  /** Words from a space-free vocabulary split back from `Terminated`. */
  lemma DecodedWordsSplit(indexWord: map<nat, string>, ws: seq<string>)
    requires SpaceFreeWords(indexWord)
    requires forall i | 0 <= i < |ws| :: ws[i] in indexWord.Values
    ensures Split(Terminated(ws)) == ws + [[]]
  {
    assert NoSpaces(ws);
    SplitTerminated(ws);
  }

  /** `evaluate` fails on an input word exactly when one of the words of
      the preprocessed sentence is missing from the input vocabulary; it
      then names the first such word and has written no attention row. */
  lemma UnknownWordIff<E, H>(s: string, inputIndex: map<string, nat>,
                             targetIndex: map<string, nat>, indexWord: map<nat, string>,
                             maxT: nat, maxI: nat, encoder: seq<nat> -> (E, H),
                             decoder: (nat, H, E) -> DecoderStep<H>)
    ensures var ev := Translate(s, inputIndex, targetIndex, indexWord, maxT, maxI, encoder, decoder);
            var ws := Split(s);
            && (ev.0.UnknownWord? <==> !AllKnown(inputIndex, ws))
            && (ev.0.UnknownWord? ==> ev.1 == [] && exists k | 0 <= k < |ws| :: ws[k] == ev.0.word && ev.0.word !in inputIndex
                                                                               && forall j | 0 <= j < k :: ws[j] in inputIndex)
  {
  }

  /** Without `<start>` in the target vocabulary, a sentence whose words are
      all known ends in the `KeyError` of line 286. */
  lemma NoStartTokenIff<E, H>(s: string, inputIndex: map<string, nat>,
                              targetIndex: map<string, nat>, indexWord: map<nat, string>,
                              maxT: nat, maxI: nat, encoder: seq<nat> -> (E, H),
                              decoder: (nat, H, E) -> DecoderStep<H>)
    ensures Translate(s, inputIndex, targetIndex, indexWord, maxT, maxI, encoder, decoder).0.NoStartToken?
        <==> AllKnown(inputIndex, Split(s)) && "<start>" !in targetIndex
  {
    var ws := Split(s);
    var look := LookupAll(inputIndex, ws);
    var ev := Translate(s, inputIndex, targetIndex, indexWord, maxT, maxI, encoder, decoder);
    if look.Missing? {
      assert ev.0 == UnknownWord(look.word);
      assert !AllKnown(inputIndex, ws);
    } else if "<start>" in targetIndex {
      var enc := encoder(PadPost(look.ids, maxI));
      var d := Decode(decoder, enc.0, indexWord, targetIndex["<start>"], enc.1, maxT);
      assert ev.0 == (if d.failed.Some? then UnknownId(d.failed.value) else Translated(Terminated(d.words), s));
    }
  }

  /** A failed lookup of a predicted id names an id outside `index_word`,
      after at least one and at most `max_length_target` steps. */
  lemma UnknownIdShape<E, H>(s: string, inputIndex: map<string, nat>,
                             targetIndex: map<string, nat>, indexWord: map<nat, string>,
                             maxT: nat, maxI: nat, encoder: seq<nat> -> (E, H),
                             decoder: (nat, H, E) -> DecoderStep<H>)
    ensures var ev := Translate(s, inputIndex, targetIndex, indexWord, maxT, maxI, encoder, decoder);
            ev.0.UnknownId? ==> ev.0.id !in indexWord && 1 <= |ev.1| <= maxT
  {
    var ev := Translate(s, inputIndex, targetIndex, indexWord, maxT, maxI, encoder, decoder);
    if ev.0.UnknownId? {
      var look := LookupAll(inputIndex, Split(s));
      var enc := encoder(PadPost(look.ids, maxI));
      DecodeShape(decoder, enc.0, indexWord, targetIndex["<start>"], enc.1, maxT);
    }
  }

  /** A sentence with nothing left after cleaning becomes
      `<start>  <end>`, whose middle word is empty; the tokenizer never
      indexes the empty word, so `evaluate` fails on it. */
  lemma EmptySentenceFails<E, H>(u: Tables, sentence: string, inputIndex: map<string, nat>,
                                 targetIndex: map<string, nat>, indexWord: map<nat, string>,
                                 maxT: nat, maxI: nat, encoder: seq<nat> -> (E, H),
                                 decoder: (nat, H, E) -> DecoderStep<H>)
    requires Body(u, sentence) == []
    requires "<start>" in inputIndex && [] !in inputIndex
    ensures Evaluated(u, sentence, inputIndex, targetIndex, indexWord, maxT, maxI, encoder, decoder).0 == UnknownWord([])
  {
    assert Preprocess(u, sentence) == StartMarker + [] + EndMarker;
    EmptyBodyFails(inputIndex, targetIndex, indexWord, maxT, maxI, encoder, decoder);
  }

  lemma EmptyBodyFails<E, H>(inputIndex: map<string, nat>,
                             targetIndex: map<string, nat>, indexWord: map<nat, string>,
                             maxT: nat, maxI: nat, encoder: seq<nat> -> (E, H),
                             decoder: (nat, H, E) -> DecoderStep<H>)
    requires "<start>" in inputIndex && [] !in inputIndex
    ensures Translate(StartMarker + [] + EndMarker, inputIndex, targetIndex, indexWord, maxT, maxI, encoder, decoder).0
         == UnknownWord([])
  {
    SplitEmptyBody();
    LookupEmptyBody(inputIndex);
  }

  lemma LookupEmptyBody(inputIndex: map<string, nat>)
    requires "<start>" in inputIndex && [] !in inputIndex
    ensures LookupAll(inputIndex, ["<start>", [], "<end>"]) == Missing([])
  {
    var ws: seq<string> := ["<start>", [], "<end>"];
    assert ws[1..] == [[], "<end>"];
  }
}
