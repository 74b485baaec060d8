# Neural machine translation with attention: the hand-written logic

This project models the parts of the TensorFlow tutorial
`tutorial41_neuralMachineTranslationWithAttention.py` that its authors wrote
themselves rather than delegate to TensorFlow or Keras:

- **the sentence normaliser**: `unicode_to_ascii` and `preprocess_sentence`.
  This is a pure chain of `str.lower`, `str.strip`, NFD decomposition with
  nonspacing marks dropped, three `re.sub` calls, a second `strip` and the
  `<start> … <end>` markers. Each `re.sub` is a character-level function on
  `seq<char>` (module `Sentence`). The Python string primitives and the
  Unicode tables behind them are in module `Unicode`. Line 31,
  `re.sub(r'[" "] + ', "", w)`, is modelled exactly as written: it deletes a
  quote or a space followed by two or more spaces. It is not treated as if it
  collapsed spaces.
- **the batching arithmetic and the training loop's control**
  (module `Training`):
  - `steps_per_epoch = n // 64`;
  - batching with `drop_remainder`;
  - the epoch loop, which calls `train_step` once per batch taken;
  - the checkpoint cadence `(epoch + 1) % 2 == 0`;
  - the per-epoch loss `total_loss / steps_per_epoch`. Taken on its own,
    the loop raises `ZeroDivisionError` at line 270 when there are fewer
    than 64 training rows. In the whole script that case stops earlier, at
    line 109 (see "## Left out").

  `train_step` and the shuffled order of each epoch are parameters.
- **`evaluate`** (module `Translation`):
  - the preprocessed sentence is split on spaces and its words looked up;
  - the ids are padded with `pad_sequences` (post padding);
  - the decoder is run greedily from `<start>`. It stops right after
    predicting `<end>`, or after `max_length_target` steps;
  - each attention row is written into the `attention_plot` array in place,
    and each predicted word is appended to `result` with one space.

  The encoder and the decoder are parameters. The three `KeyError`s that
  `evaluate` can raise are modelled as error results:
  - an input word the input vocabulary lacks;
  - a target vocabulary without `<start>`;
  - a predicted id that `index_word` lacks.

  Module `Words` models `str.split(' ')` and the `result` string, and connects
  the two.

`sentence_examples.dfy` works the comment's example and the two sample
sentences through `Preprocess`. It also works through the input `"a.  b"`,
where line 31 deletes the spaces after the mark.

Oracles. The Unicode data is a value `u: Unicode.Tables` that every
normaliser function takes. It holds:

- NFD decomposition;
- general category;
- `str.lower`.

On ASCII text these are pinned to their fixed behaviour: NFD is the identity,
no ASCII character is `Mn`, and lower-casing maps `A`–`Z` to `a`–`z`. The
`str.isspace` table is concrete. The neural parts are function parameters:
the encoder, the decoder step, `train_step`, and the epoch order that
`shuffle` produces.

## Model

| member | source | states |
|---|---|---|
| Unicode.AsciiLower | tutorial41_neuralMachineTranslationWithAttention.py:26 | `str.lower` on ASCII text keeps the length and maps each character on its own; it removes every capital and leaves every other character as it is |
| Unicode.AsciiLowerNoUpper | tutorial41_neuralMachineTranslationWithAttention.py:26 | lower-casing text without capitals changes nothing |
| Unicode.Lower | tutorial41_neuralMachineTranslationWithAttention.py:26 | reference definition of `w.lower()`: the ASCII case is `AsciiLower`; any other text goes to the abstract case tables. Characterised by the `Unicode.AsciiLower`, `Unicode.AsciiLowerNoUpper` and `Sentence.AsciiFolded` rows |
| Unicode.LStrip | tutorial41_neuralMachineTranslationWithAttention.py:26 | the result is a suffix of the input; everything removed is whitespace, and the result does not start with whitespace |
| Unicode.RStrip | tutorial41_neuralMachineTranslationWithAttention.py:36 | the result is a prefix of the input; everything removed is whitespace, and the result does not end with whitespace |
| Unicode.Strip | tutorial41_neuralMachineTranslationWithAttention.py:36 | reference definition of `strip()` (also used on line 26) as `RStrip(LStrip(s))`. Characterised by the `Unicode.StripShape`, `Unicode.StripUnchanged` and `Unicode.StripAround` rows |
| Unicode.StripShape | tutorial41_neuralMachineTranslationWithAttention.py:36 | `strip()` returns a contiguous slice of its input. Everything before and after the slice is whitespace, and the slice neither starts nor ends with whitespace |
| Unicode.StripUnchanged | tutorial41_neuralMachineTranslationWithAttention.py:36 | a non-empty string with no whitespace at either end is left as it is |
| Unicode.StripAround | tutorial41_neuralMachineTranslationWithAttention.py:36 | stripping `a + m + b`, where `m` has no whitespace at its ends, strips only the front of `a` and the back of `b` |
| Unicode.FilterStrip | tutorial41_neuralMachineTranslationWithAttention.py:26 | a filter that keeps no whitespace gives the same result before and after `strip` |
| Unicode.Filter | tutorial41_neuralMachineTranslationWithAttention.py:23 | reference definition of `''.join(c for c in s if p(c))`; its contract only bounds the length. Characterised by the `Unicode.FilterMembers`, `Unicode.FilterConcat` and `Unicode.FilterIsSubsequence` rows |
| Unicode.FilterMembers | tutorial41_neuralMachineTranslationWithAttention.py:23 | a character is in the joined generator's result exactly when it is in the input and passes the test |
| Unicode.FilterConcat | tutorial41_neuralMachineTranslationWithAttention.py:23 | the filter works piece by piece on a concatenation |
| Unicode.FilterIsSubsequence | tutorial41_neuralMachineTranslationWithAttention.py:23 | the filtered characters keep their original order: the result is a subsequence of the input |
| Unicode.UnicodeToAscii | tutorial41_neuralMachineTranslationWithAttention.py:22-23 | the result contains a character exactly when the NFD decomposition does and the character's category is not `Mn` |
| Unicode.UnicodeToAsciiSelects | tutorial41_neuralMachineTranslationWithAttention.py:22-23 | the result is a subsequence of the decomposition and holds no `Mn` character. Its length plus the number of `Mn` characters equals the decomposition's length, so exactly the `Mn` characters are removed |
| Unicode.UnicodeToAsciiOnAscii | tutorial41_neuralMachineTranslationWithAttention.py:22-23 | `unicode_to_ascii` leaves ASCII text unchanged |
| Sentence.PadPunctuation | tutorial41_neuralMachineTranslationWithAttention.py:30 | reference definition of `re.sub(r"([?.!,¿])", r" \1 ", w)`, one character at a time. Characterised by the `Sentence.PadPunctuation…` rows below |
| Sentence.PadPunctuationOnlyAddsSpaces | tutorial41_neuralMachineTranslationWithAttention.py:30 | padding punctuation only inserts spaces: the non-space characters are the same, in the same order |
| Sentence.PadPunctuationSurrounds | tutorial41_neuralMachineTranslationWithAttention.py:30 | every punctuation mark in the padded text has a space directly before it and directly after it |
| Sentence.PadPunctuationConcat | tutorial41_neuralMachineTranslationWithAttention.py:30 | the substitution works piece by piece on a concatenation |
| Sentence.PadPunctuationNone | tutorial41_neuralMachineTranslationWithAttention.py:30 | text without punctuation is left unchanged |
| Sentence.DeleteQuoteSpaces | tutorial41_neuralMachineTranslationWithAttention.py:31 | reference definition of `re.sub(r'[" "] + ', "", w)` read literally; its contract only says it never lengthens the text. Characterised by the `Sentence.DeleteQuoteSpaces…` rows below |
| Sentence.SpaceRunShape | tutorial41_neuralMachineTranslationWithAttention.py:31 | the leading space run counted for line 31's ` +` is all spaces and is maximal |
| Sentence.DeleteQuoteSpacesOnlyDeletes | tutorial41_neuralMachineTranslationWithAttention.py:31 | line 31 deletes only quotes and spaces: every other character survives, in order |
| Sentence.DeleteQuoteSpacesLeavesNoMatch | tutorial41_neuralMachineTranslationWithAttention.py:31 | no position of the result starts a match of `[" "] + ` (a quote or space followed by at least two spaces) |
| Sentence.DeleteQuoteSpacesFixes | tutorial41_neuralMachineTranslationWithAttention.py:31 | text with no match anywhere is left unchanged |
| Sentence.DeleteQuoteSpacesIdempotent | tutorial41_neuralMachineTranslationWithAttention.py:31 | applying line 31 twice gives the same result as applying it once |
| Sentence.DeleteQuoteSpacesSingleSpaces | tutorial41_neuralMachineTranslationWithAttention.py:31 | text without two adjacent spaces is left unchanged |
| Sentence.DeleteQuoteSpacesSplit | tutorial41_neuralMachineTranslationWithAttention.py:31 | a character that is neither a quote nor a space cannot be part of a match, so line 31 works separately on either side of it |
| Sentence.CollapseDisallowed | tutorial41_neuralMachineTranslationWithAttention.py:34 | reference definition of `re.sub(r"[^a-zA-Z?.!,¿]+", " ", w)`: each maximal run of disallowed characters becomes one space. Characterised by the `Sentence.CollapseDisallowed…` rows below |
| Sentence.CollapseDisallowedShape | tutorial41_neuralMachineTranslationWithAttention.py:34 | after line 34 only characters of `[a-zA-Z?.!,¿]` and single spaces remain. The result is empty exactly when the input is, and it starts with a space exactly when the input starts with a disallowed character |
| Sentence.CollapseDisallowedKeeps | tutorial41_neuralMachineTranslationWithAttention.py:34 | the allowed characters are kept, in order |
| Sentence.CollapseDisallowedFixes | tutorial41_neuralMachineTranslationWithAttention.py:34 | text of allowed characters and single spaces is left unchanged |
| Sentence.CollapseDisallowedIdempotent | tutorial41_neuralMachineTranslationWithAttention.py:34 | applying line 34 twice gives the same result as applying it once |
| Sentence.CollapseDisallowedSplit | tutorial41_neuralMachineTranslationWithAttention.py:34 | an allowed character ends every run, so line 34 works separately on either side of it |
| Sentence.CleanedShape | tutorial41_neuralMachineTranslationWithAttention.py:30-36 | lines 30-36 produce a well-formed body: only allowed characters and spaces, no leading or trailing space, never two adjacent spaces. The allowed characters of the input are kept, in order |
| Sentence.CleanedChars | tutorial41_neuralMachineTranslationWithAttention.py:30-36 | every body character is a space or an allowed character that occurs in the input |
| Sentence.CleanedEmpty | tutorial41_neuralMachineTranslationWithAttention.py:30-36 | the body is empty exactly when the input has no allowed character |
| Sentence.Preprocess | tutorial41_neuralMachineTranslationWithAttention.py:25-40 | reference definition of `preprocess_sentence`: the markers of line 39 around lines 26-36 applied in order. Characterised by the `Sentence.PreprocessShape`, `Sentence.PreprocessEmptyBody` and `SentenceExamples` rows |
| Sentence.PreprocessShape | tutorial41_neuralMachineTranslationWithAttention.py:25-40 | `preprocess_sentence` always returns `"<start> "`, a well-formed body, and `" <end>"`. The body holds the allowed characters of the lower-cased, stripped and folded input, in order |
| Sentence.PreprocessEmptyBody | tutorial41_neuralMachineTranslationWithAttention.py:39 | the result is exactly `"<start>  <end>"` if and only if the folded input has no allowed character |
| Sentence.MarkedEmpty | tutorial41_neuralMachineTranslationWithAttention.py:39 | the markers around a body give `"<start>  <end>"` exactly when the body is empty |
| Sentence.AsciiSentenceHasNoCapitals | tutorial41_neuralMachineTranslationWithAttention.py:26-34 | for an ASCII input, no body character is in `A-Z`, because lower-casing runs first |
| Sentence.AsciiFolded | tutorial41_neuralMachineTranslationWithAttention.py:26 | on ASCII input, line 26 is lower-casing and stripping only, and its result has no capitals |
| Sentence.LetterThenPunctuation | tutorial41_neuralMachineTranslationWithAttention.py:28-34 | lines 30-34 turn a letter directly followed by punctuation into the letter, one space and the mark, and work separately on either side |
| Sentence.LetterThenPunctuationInBody | tutorial41_neuralMachineTranslationWithAttention.py:28-36 | wherever the folded sentence has a letter directly followed by punctuation, the body has the letter, one space and the mark |
| Sentence.WordsThenMark | tutorial41_neuralMachineTranslationWithAttention.py:28-36 | single-spaced words followed by a mark are cleaned to the same words, one space and the mark |
| Sentence.MarkThenWordsThenMark | tutorial41_neuralMachineTranslationWithAttention.py:30-36 | a leading mark, single-spaced words and a final mark are cleaned to the mark, a space, the words, a space and the final mark |
| SentenceExamples.HeIsABoy | tutorial41_neuralMachineTranslationWithAttention.py:28-29 | `"he is a boy."` is preprocessed to `"<start> he is a boy . <end>"`, for every Unicode table |
| SentenceExamples.EnglishSample | tutorial41_neuralMachineTranslationWithAttention.py:42-44 | `'May I borrow this book?'` is preprocessed to `"<start> may i borrow this book ? <end>"` |
| SentenceExamples.SpanishSample | tutorial41_neuralMachineTranslationWithAttention.py:43-45 | `'¿Puedo tomar prestado este libro?'` is preprocessed to `"<start> ¿ puedo tomar prestado este libro ? <end>"`. This assumes the tables lower-case `P` and do not decompose the sentence, and that `¿` is in category `Po` |
| SentenceExamples.MarkThenTwoSpaces | tutorial41_neuralMachineTranslationWithAttention.py:30-31 | line 31 as written: in `"a.  b"` the padded mark is followed by three spaces, and all of them are deleted, giving `"<start> a .b <end>"` |
| SentenceExamples.DeletedThreeSpaces | tutorial41_neuralMachineTranslationWithAttention.py:31 | three spaces before a letter are all deleted by line 31 |
| Words.Split | tutorial41_neuralMachineTranslationWithAttention.py:277 | `split(' ')` gives at least one piece, and no piece contains a space |
| Words.JoinSplit | tutorial41_neuralMachineTranslationWithAttention.py:277 | joining the pieces of `split(' ')` with single spaces gives back the string |
| Words.SplitJoin | tutorial41_neuralMachineTranslationWithAttention.py:277 | splitting a space-joined list of space-free words gives back the list |
| Words.TerminatedConcat | tutorial41_neuralMachineTranslationWithAttention.py:296 | each `result +=` appends the word and exactly one space |
| Words.SplitTerminated | tutorial41_neuralMachineTranslationWithAttention.py:325 | splitting `result` gives the predicted words followed by one empty piece |
| Words.SplitMarked | tutorial41_neuralMachineTranslationWithAttention.py:39 | the split of a preprocessed sentence is `<start>`, the words of the body, then `<end>` |
| Words.PreprocessWords | tutorial41_neuralMachineTranslationWithAttention.py:276-277 | the words `evaluate` looks up start with `<start>` and end with `<end>`. An empty body gives exactly `["<start>", "", "<end>"]`; otherwise no word is empty |
| Words.SplitWellFormed | tutorial41_neuralMachineTranslationWithAttention.py:277 | a non-empty well-formed body splits into non-empty words of allowed characters |
| Training.StepsPerEpoch | tutorial41_neuralMachineTranslationWithAttention.py:101 | `n // 64` is the largest `k` with `64 * k <= n` |
| Training.Batches | tutorial41_neuralMachineTranslationWithAttention.py:108 | batching with `drop_remainder` gives `n // 64` batches, each of exactly 64 rows |
| Training.BatchesCover | tutorial41_neuralMachineTranslationWithAttention.py:108 | the batches, concatenated, are the rows in order, minus a final remainder of fewer than 64 rows |
| Training.BatchAt | tutorial41_neuralMachineTranslationWithAttention.py:108 | batch `i` is rows `64 i` to `64 (i + 1)` |
| Training.Take | tutorial41_neuralMachineTranslationWithAttention.py:259 | `take(k)` gives the first `min(k, n)` elements |
| Training.SavedEpochs | tutorial41_neuralMachineTranslationWithAttention.py:253-268 | reference definition of the epochs after which `checkpoint.save` runs. Characterised by the `Training.SavedEpochsContents`, `Training.SavedCount` and `Training.TenEpochs` rows |
| Training.SavedEpochsContents | tutorial41_neuralMachineTranslationWithAttention.py:253-268 | a checkpoint is saved after 0-based epoch `e < n` if and only if `(e + 1) % 2 == 0`, in increasing order of epoch |
| Training.SavedCount | tutorial41_neuralMachineTranslationWithAttention.py:253-268 | `n` epochs save `n / 2` checkpoints |
| Training.TenEpochs | tutorial41_neuralMachineTranslationWithAttention.py:252-268 | with `EPOCHS = 10` the saves come after epochs 1, 3, 5, 7 and 9 (printed as 2, 4, 6, 8, 10) |
| Training.Planned | tutorial41_neuralMachineTranslationWithAttention.py:252-270 | reference definition of what the loop, taken on its own, does: its calls, saves, printed losses and outcome. `Training.Train` is the imperative loop proved equal to it; it is characterised by the `Training.PlannedDividesByZero`, `Training.PlannedCompleted` and `Training.CompletedRunCalls` rows |
| Training.RunEpoch | tutorial41_neuralMachineTranslationWithAttention.py:257-261 | the inner loop makes exactly the calls of `EpochCalls`, and `total_loss` is the sum of their losses |
| Training.EpochLoop | tutorial41_neuralMachineTranslationWithAttention.py:253-270 | with at least one step per epoch, the loop makes every epoch's calls in order and saves after the due epochs. It prints `total_loss / steps_per_epoch` for each epoch |
| Training.Train | tutorial41_neuralMachineTranslationWithAttention.py:252-270 | the whole run of the loop, taken on its own, equals `Planned`: with zero steps per epoch it stops at line 270 of the first epoch, and otherwise the epoch loop runs |
| Training.PlannedDividesByZero | tutorial41_neuralMachineTranslationWithAttention.py:270 | the loop, taken on its own, fails at line 270 if and only if there is at least one epoch and fewer than 64 rows. It then fails in epoch 0 with nothing called, saved or printed |
| Training.PlannedCompleted | tutorial41_neuralMachineTranslationWithAttention.py:252-270 | a completed run saves `SavedEpochs(epochs)`, `epochs / 2` of them. It prints one loss per epoch, that epoch's summed batch losses divided by `steps_per_epoch` |
| Training.EpochShape | tutorial41_neuralMachineTranslationWithAttention.py:106-108 | when each epoch's order is a shuffle of the rows, an epoch makes exactly `steps_per_epoch` calls. Call `b` trains on the `b`-th 64-row slice of that order, and the rows trained on are drawn from the data set |
| Training.AllBatchesTaken | tutorial41_neuralMachineTranslationWithAttention.py:259 | `take(steps_per_epoch)` takes every batch the data set has |
| Training.CompletedRunCalls | tutorial41_neuralMachineTranslationWithAttention.py:253-261 | a completed run makes `epochs * steps_per_epoch` calls. Call `e * steps + b` is batch `b` of epoch `e` |
| Translation.LookupAll | tutorial41_neuralMachineTranslationWithAttention.py:277 | the lookup succeeds exactly when every word is in `word_index`, giving their ids in order. Otherwise it reports the first missing word |
| Translation.PadPost | tutorial41_neuralMachineTranslationWithAttention.py:278-279 | `pad_sequences(maxlen, padding='post')` gives exactly `maxlen` ids: the ids followed by zeros, or the last `maxlen` ids when there are more |
| Translation.PadPostTrims | tutorial41_neuralMachineTranslationWithAttention.py:278-279 | removing the trailing zeros undoes the padding of non-zero ids |
| Translation.Decode | tutorial41_neuralMachineTranslationWithAttention.py:287-303 | reference definition of the greedy decode loop, one step per recursion. `Translation.GreedyDecode` is the in-place loop proved equal to it; it is characterised by the `Translation.DecodeShape` row |
| Translation.DecodeShape | tutorial41_neuralMachineTranslationWithAttention.py:287-303 | the loop runs at most `max_length_target` steps and stores one attention row per step. Every word comes from `index_word`, and `<end>` occurs only as the last word. If it stops early without a `KeyError`, the last word is `<end>`. A failure is an id that `index_word` lacks |
| Translation.StoreRow | tutorial41_neuralMachineTranslationWithAttention.py:292 | `attention_plot[t] = …` fills row `t` and leaves every other cell as it was |
| Translation.GreedyDecode | tutorial41_neuralMachineTranslationWithAttention.py:281-303 | starting from a zeroed `attention_plot`, the loop leaves `result` equal to the decoded words, each followed by one space. The plot holds the decoded attention rows, zeros elsewhere, and an unknown id is reported |
| Translation.Translate | tutorial41_neuralMachineTranslationWithAttention.py:277-303 | reference definition of `evaluate` after line 276: lookup, padding, encoding, the `<start>` lookup and decoding, with each `KeyError` as an error result. Characterised by the `Translation.TranslatedWords`, `Translation.UnknownWordIff`, `Translation.NoStartTokenIff` and `Translation.UnknownIdShape` rows |
| Translation.EvaluatePreprocessed | tutorial41_neuralMachineTranslationWithAttention.py:275-303 | on a preprocessed sentence, `evaluate` returns `Translate`'s result, and its plot holds `Translate`'s cells |
| Translation.Evaluated | tutorial41_neuralMachineTranslationWithAttention.py:274-303 | reference definition of `evaluate(sentence)`: `Translate` on `Preprocess(sentence)`. `Translation.Evaluate` is the method proved equal to it; it is characterised by the `Translation.EmptySentenceFails` row |
| Translation.Evaluate | tutorial41_neuralMachineTranslationWithAttention.py:274-303 | `evaluate` preprocesses the sentence and then behaves as `Translate` on it, plot included |
| Translation.TranslatedWords | tutorial41_neuralMachineTranslationWithAttention.py:287-303 | a successful translation returns the preprocessed sentence. Splitting its `result` gives at most `max_length_target` words and a final empty piece. Every word is a vocabulary word and at most the last is `<end>`, and `<end>` is last whenever fewer steps ran |
| Translation.UnknownWordIff | tutorial41_neuralMachineTranslationWithAttention.py:277 | `evaluate` fails on an input word exactly when some word is not in the input vocabulary. The word reported is the first such word, and no decoding happens |
| Translation.NoStartTokenIff | tutorial41_neuralMachineTranslationWithAttention.py:286 | `evaluate` fails on `<start>` exactly when every input word is known and `<start>` is not in the target vocabulary |
| Translation.UnknownIdShape | tutorial41_neuralMachineTranslationWithAttention.py:292-296 | a failure on a predicted id names an id that `index_word` lacks, after at least one and at most `max_length_target` attention rows were stored |
| Translation.EmptySentenceFails | tutorial41_neuralMachineTranslationWithAttention.py:276-277 | a sentence whose body is empty fails at the lookup of line 277 with the empty word, unless the vocabulary has one |

## Left out

- The Encoder, BahdanauAttention and Decoder networks, GradientTape, the
  optimizer, the loss function and its float arithmetic (lines 113-250).
  These are numerics delegated to TensorFlow. The decoder is a parameter
  reduced to what `evaluate` uses of it: the `argmax` id, the new hidden
  state and the attention weights. Losses are `real`s standing in for
  floats.
- `train_step`'s own `for t` loop over target positions (lines 239-245).
  It is part of the float loss computation, and `train_step` as a whole is a
  parameter.
- The shuffle of line 106. The order of each epoch is a parameter. The
  lemmas that need it assume that it is a permutation of the training rows.
- The Unicode tables: Normalization Form D (Unicode Standard Annex #15,
  section 1.2), the General Category (section 4.5 of the Unicode Standard)
  and the full case mappings, including context-dependent ones such as final
  sigma. They are abstract functions in `Unicode.Tables` and are fixed only
  on ASCII.
- Printing, `time.time()`, the `batch % 100` progress line (line 263) and
  the `.format` rounding of the printed loss. The printed loss values are
  modelled as a sequence.
- The checkpoint storage itself (lines 226-228, 268, 329). The model records
  after which epochs `checkpoint.save` is called.
- `plot_attention`, `translate`'s printing and plotting, and the restore
  (lines 306-332). Only `translate`'s `split(' ')` of `result` is related to
  the model (`Words.SplitTerminated`).
- The file download, `io.open`, `create_dataset`, the Keras `Tokenizer`,
  the maximum lengths taken from `.shape[1]` on line 80, `train_test_split`
  and `tf.data` (lines 16-19, 47-97, 106).
  These are library calls and I/O. The vocabularies are the maps
  `word_index` and `index_word`, taken as given.
- The encoder's hidden-state initialisation (lines 256, 282) and the
  conversion to tensors (lines 280, 286, 301). They are numerics with no
  control logic.
- Translation.AttentionWidth: the model requires every attention vector to
  have exactly `max_length_input` entries. numpy would also broadcast a
  one-entry vector into the row, or raise an error on any other width; the
  model covers neither.
- Translation.TranslatedWords: assumes that no vocabulary word contains a
  space (`SpaceFreeWords`), which the Keras tokenizer guarantees but which
  is not modelled.
- Translation.PadPost: `pad_sequences` with its default `truncating='pre'`
  is modelled on one sequence of ids; dtype conversion is left out.
- tutorial22_quickStartForExpert.py, tutorial27_customTrainingWithStrategy.py
  and tutorial45_classifyStructuredDataWithFeatureColumns.py are not part of
  this model; they lie outside the translation tutorial modelled here.
  tutorial22 has a thin epoch loop of its own over Keras metrics (line 71).
  tutorial27 has its own epoch loop with a loss average
  `total_loss / num_batches` and a checkpoint cadence `epoch % 2 == 0`
  (lines 131-145) around replica-distributed steps. tutorial45 is feature
  column and pandas wrappers.
- The checkpoint cadence is the code's `(epoch + 1) % 2 == 0` on the
  0-based epoch (line 267), which is what the comment on line 266 asks for:
  a save every second epoch.
- Training.PlannedDividesByZero: the epoch loop of lines 252-271 is modelled
  on its own. In the whole script, fewer than 64 training rows leave the
  batched dataset empty, because of `drop_remainder = True` on line 108. So
  `next(iter(dataset))` on line 109 raises `StopIteration` before the loop
  starts, and the `ZeroDivisionError` of line 270 is reached only when the
  loop runs without line 109. Lines 109-110 are not modelled.
