# NMT.py data pipeline, modelled in Dafny

`NMT.py` trains an English-to-Vietnamese sequence-to-sequence translator. Around
the neural network sits a data pipeline made of plain list and integer logic,
and this project models that pipeline:

- **Text to ids.**
  - `basic_tokenizer` removes the `<u>`, `</u>`, `[` and `]` markup, lower-cases the line and splits it on whitespace.
  - It then splits every fragment around the punctuation class `[.,!?"'-<>:;)(]` and can replace digits by `#`.
  - Inside that class `'-<` is a character range, 0x27 to 0x3C, so digits and `* + - /` separate too.
  - `sentence2id` maps every token to its vocabulary id, or to the id of `<unk>` when the vocabulary lacks it.
  - `token2id` frames each target-side line with the ids of `<s>` and `<\s>`.
- **Bucketing.**
  - Training and test pairs go to the first bucket that holds both their source and their target (`load_data`).
  - Inference inputs go to the first bucket that holds their source (`_find_right_bucket`).
  - These are two different policies. The model keeps them apart and relates them.
- **Batches.** `get_batch` draws examples from a pool, which the model takes as explicit indices. It then:
  - pads every example to the bucket's sizes;
  - reverses the source;
  - transposes to time-major order;
  - derives the loss mask from the target shifted by one.

  `_assert_lengths` checks the resulting shapes.
- **Bucket sampling.**
  - `_get_buckets` turns the pool sizes into a cumulative scale, modelled over exact reals.
  - `_get_random_bucket` inverts that scale for a uniform draw, which the model takes as a parameter in [0, 1).
- **Decoding.**
  - `_construct_response` cuts the greedy output ids at the first EOS id and joins their words.
  - The argmax ids are an input.
- **Inference preparation.** `test` and `translate` handle each input the same way:
  - they skip inputs longer than the largest source capacity;
  - they pick a bucket for the rest;
  - they build a one-slot batch with an empty target.

  The read loop of `translate` is modelled over the lines it reads and over an encoder function; `Inference.Encoder(vocab)` is `sentence2id` with the encoder vocabulary fixed.

The modules are:

- `Results`: the `Option` type used for error paths.
- `Constants`: the reserved ids, the reserved tokens and `BUCKETS`.
- `Tokenizer`
- `Vocabulary`
- `Buckets`
- `Batching`
- `Sampling`
- `Decoding`
- `Inference`

The bucket catalogue is a parameter everywhere. The lemmas about `BUCKETS` apply the general results to the shipped catalogue.

## Model

| member | source | states |
|---|---|---|
| Constants.BucketsWellFormed | NMT.py:27 | The shipped catalogue has six buckets whose source and target capacities never decrease. The last source capacity, 60, is the largest. |
| Constants.ReservedIdsArePositions | NMT.py:21-24 | PAD, UNK, START and EOS ids are 0-3, the positions of `<pad>`, `<unk>`, `<s>` and `<\s>` at the head of every vocabulary file. |
| Tokenizer.RemoveAll | NMT.py:138-141 | A literal `re.sub(pat, '', s)` never lengthens the line and only keeps characters of the line. A one-character pattern is gone from the result. |
| Tokenizer.RemoveAllSkips | NMT.py:138-141 | Text that holds no first character of the pattern is copied through unchanged, and the scan resumes after it. |
| Tokenizer.RemoveAllDropsOccurrence | NMT.py:138-141 | The first occurrence of the pattern is removed, with nothing before it touched, and the scan goes on after it. This also holds for the multi-character `<u>` and `</u>`. |
| Tokenizer.RemoveCharKeepsOthers | NMT.py:140-141 | Removing `[` or `]` keeps every other character exactly as often as it occurred. |
| Tokenizer.Clean | NMT.py:138-141 | After the four substitutions no `[` or `]` is left, and every character comes from the line. |
| Tokenizer.CleanDropsUnderline | NMT.py:138-141 | For text without `<`, `[` or `]`, `x + "<u>" + y + "</u>"` cleans to `x + y`: the tags are removed and nothing else is. |
| Tokenizer.BasicTokenizer | NMT.py:135-152 | Every token is non-empty and holds no whitespace, `[` or `]`. A token is either one character or a separator-free run. With digit normalisation no token holds a digit. |
| Tokenizer.TokensReassembleLine | NMT.py:138-152 | Concatenating the tokens gives back the line after the four substitutions of lines 138-141, lower-cased, with only whitespace dropped. As in Python, the substitutions run once each, so `"<<u>u>"` still leaves `"<u>"`. |
| Tokenizer.NormalizationIsPerToken | NMT.py:149-150 | Normalising digits leaves the tokenization unchanged and rewrites each token in place: same number of tokens, digits turned into `#`. |
| Tokenizer.ReservedAreNotTokens | NMT.py:135-152 | No token the tokenizer can produce equals `<pad>`, `<unk>`, `<s>` or `<\s>`. |
| Tokenizer.PeriodsTokenCount | NMT.py:143-151 | A line of n full stops is n tokens, one per separator. |
| Tokenizer.LeadingSpaces | NMT.py:145 | The count of leading whitespace characters: all of them are whitespace and the character after them is not. |
| Tokenizer.TrailingSpaces | NMT.py:145 | The count of trailing whitespace characters: all of them are whitespace and the character before them is not. |
| Tokenizer.Strip | NMT.py:145 | `line.strip()` is never longer than the line, and when non-empty neither starts nor ends with whitespace. |
| Tokenizer.StripIsTrimmedSlice | NMT.py:145 | The stripped line is a contiguous slice of the line, and everything before and after that slice is whitespace. |
| Tokenizer.SqueezeStrip | NMT.py:145 | Stripping loses only whitespace: the non-whitespace characters are the same, in the same order. |
| Tokenizer.Lower | NMT.py:145 | `lower()` keeps the length and maps every character through the ASCII lower-case map. |
| Tokenizer.LowerAppend | NMT.py:145 | Lower-casing works character by character, so it distributes over concatenation. |
| Tokenizer.Words | NMT.py:145 | `split()` yields non-empty pieces without whitespace, each made of characters of the text. |
| Tokenizer.WordsConcat | NMT.py:145 | Gluing the pieces of `split()` together gives the text with its whitespace removed. |
| Tokenizer.WordsSpaceJoin | NMT.py:145 | `split()` of two texts joined by a space is the split of the first followed by the split of the second. |
| Tokenizer.StripInvisibleToSplit | NMT.py:145 | Stripping before lower-casing and `split()` changes no fragment. |
| Tokenizer.FragmentsIgnoreStrip | NMT.py:145 | The fragments the loop visits are the `split()` pieces of the cleaned, lower-cased line. |
| Tokenizer.SplitFragment | NMT.py:146-148 | `re.split` with the capturing class, empty pieces dropped: every piece is non-empty and made of the fragment's characters, and a piece longer than one character holds no separator. |
| Tokenizer.SplitFragmentConcat | NMT.py:146-148 | The pieces concatenate back to the fragment: splitting loses nothing. |
| Tokenizer.SplitFragmentAtSeparator | NMT.py:146-148 | A separator is a piece of its own and cuts the fragment there: the pieces of `x + [c] + y` are those of `x`, then `[c]`, then those of `y`. |
| Tokenizer.SplitFragmentOfRun | NMT.py:146-148 | A non-empty fragment without separators is a single piece. |
| Tokenizer.NormalizeDigits | NMT.py:149-150 | `re.sub(r"\d", '#', token)` keeps the length, turns every digit into `#`, and changes nothing else. |
| Tokenizer.TokenizerSplitsAtSpace | NMT.py:135-152 | The tokens of `a + " " + b` are the tokens of `a` followed by the tokens of `b`. |
| Tokenizer.PlainWordIsOneToken | NMT.py:135-152 | A non-empty word of characters that are not whitespace, markup or separators comes out as the single token `lower(word)`. |
| Vocabulary.VocabMap | NMT.py:185-188 | The dictionary `{words[i]: i}` has exactly the listed words as keys. Each maps to a position holding that word. |
| Vocabulary.LaterIndexWins | NMT.py:188 | A word listed twice maps to its last position. |
| Vocabulary.LookupAll | NMT.py:192 | The lookup fails exactly when there is a token and `<unk>` is missing. Otherwise it gives one id per token: the token's own id, or `<unk>`'s. |
| Vocabulary.SentenceToIds | NMT.py:191-192 | The same for the tokens of the line with digits normalised: the id list has one entry per token. |
| Vocabulary.LineToIds | NMT.py:207-215 | Target-side (`vi`) lines are the sentence ids framed by the ids of `<s>` and `<\s>`, and fail if either key is missing. Other modes give the sentence ids unchanged. |
| Vocabulary.ReservedPositions | NMT.py:168-171 | In a vocabulary laid out as `build_vocab` writes it, `<pad>`, `<unk>`, `<s>` and `<\s>` map to ids 0, 1, 2 and 3. |
| Vocabulary.IdsNameTheirTokens | NMT.py:185-192 | Over such a vocabulary every id names its token in the word list, or `<unk>` when the token is unknown. No token gets a reserved id other than UNK_ID. |
| Vocabulary.TargetLinesAreFramed | NMT.py:207-215 | Every target id line starts with START_ID and ends with EOS_ID. No PAD_ID or EOS_ID occurs between them. |
| Buckets.Classify | NMT.py:237-240 | The two-sided rule yields the least index whose bucket holds both lengths, and None exactly when no bucket does. |
| Buckets.FindRightBucket | NMT.py:361-364 | The one-sided rule yields the least index whose source capacity covers the length. The `min` is undefined (None) exactly when no bucket covers it. |
| Buckets.FindRightBucketDefined | NMT.py:361-364 | On an ascending catalogue the one-sided rule is defined exactly when the length is at most the last source capacity: the guard `test` and `translate` apply. |
| Buckets.EmptyTargetPoliciesAgree | NMT.py:361-364 | For an empty target the two policies pick the same bucket. |
| Buckets.OneSidedNeverLater | NMT.py:361-364 | Whenever the two-sided rule places a pair, the one-sided rule places its source in the same bucket or an earlier one. |
| Buckets.ShippedBucketFound | NMT.py:361-364 | On the shipped catalogue an input finds a bucket exactly when it has at most 60 ids, the `BUCKETS[-1][0]` that `translate` checks first. |
| Buckets.PoliciesDiffer | NMT.py:237-240 | On the shipped catalogue a 10-id source with a 41-id target trains in bucket 3 but would be answered from bucket 0. |
| Buckets.Zip | NMT.py:230-241 | The pairs read are the lines of both files, position by position, until the shorter file ends. |
| Buckets.LoadData | NMT.py:228-243 | There is one pool per bucket. Each pool equals the in-order list of read pairs that classify into that bucket. |
| Buckets.AssignedSound | NMT.py:237-240 | Every pair in pool b was read, fits bucket b, and fits no earlier bucket. |
| Buckets.AssignedComplete | NMT.py:237-240 | Every pair that classifies into b is in pool b. A pair no bucket fits is in no pool. |
| Buckets.PoolsPartitionKept | NMT.py:234-243 | The pool sizes add up to the number of pairs some bucket fits: each such pair is kept exactly once. |
| Batching.Pad | NMT.py:246-247 | Padding keeps the input as a prefix, fills with PAD_ID, and reaches the size exactly when the input is not longer. A longer input is returned unchanged. |
| Batching.StripUndoesPad | NMT.py:246-247 | Removing trailing PADs undoes padding for any input that does not end in PAD_ID. |
| Batching.Reverse | NMT.py:269 | `list(reversed(xs))` has the same length, and position i holds `xs[len-1-i]`. |
| Batching.ReverseInvolution | NMT.py:269 | Reversing twice gives the list back. |
| Batching.EncoderRowShape | NMT.py:269 | A reversed padded source is the PADs followed by the reversed source. |
| Batching.Reshape | NMT.py:250-257 | The transposed batch has `size` vectors of `batch_size` entries with `out[t][b] == rows[b][t]`. |
| Batching.ReshapeTwiceRestores | NMT.py:250-257 | Transposing back recovers the example-major rows. |
| Batching.Masks | NMT.py:277-287 | Every mask entry is 0 or 1. It is 0 exactly at the last step or where the next target position holds PAD_ID. |
| Batching.AssertLengths | NMT.py:296-307 | The check passes exactly when all three lists have the bucket's lengths. Each failure reports the first mismatching list with its actual and expected length. |
| Batching.GetBatch | NMT.py:260-288 | The batch always passes the length check. Slot k holds the reversed padded source and the padded target of the k-th drawn example. The mask is as above. |
| Batching.FittingSlotContents | NMT.py:268-278 | For an example that fits its bucket, slot k reads PADs then the source backwards on the encoder side, and the target then PADs on the decoder side. |
| Batching.MaskScoresRealTokens | NMT.py:277-287 | For a PAD-free target that fits, step t is scored exactly when t + 1 is a position of the target. |
| Batching.LastStepNeverScored | NMT.py:284-286 | The last decoder step is never scored. |
| Batching.EmptyTargetBatch | NMT.py:454 | The inference batch with an empty target has all-PAD decoder inputs and all-zero masks. |
| Batching.WorkedExample | NMT.py:260-288 | Buckets (4,4) and (6,6), source [5,5], target [7,7,7]: bucket 0, encoder [0,0,5,5], decoder [7,7,7,0], masks [1,1,0,0]. |
| Sampling.Scale | NMT.py:344-350 | For a positive total, the scale has one entry per bucket, never decreases, lies in [0,1] and ends at exactly 1. Its first entry is bucket 0's share and each step adds that bucket's share. |
| Sampling.RandomBucket | NMT.py:290-294 | The draw selects the least index whose scale entry exceeds it. The `min` is undefined (None) exactly when no entry does. |
| Sampling.SampledBucketInterval | NMT.py:290-294 | For a draw in [0,1), bucket i is chosen exactly when `scale[i-1] <= rand < scale[i]`. |
| Sampling.SampledBucketNonEmpty | NMT.py:290-294 | A draw in [0,1) always selects a bucket, and that bucket holds at least one example. |
| Decoding.TruncateAtEos | NMT.py:368-370 | Without EOS_ID all ids are kept. Otherwise exactly the ids before its first occurrence are kept. The kept ids never contain EOS_ID. |
| Decoding.TruncateIdempotent | NMT.py:368-370 | Cutting a second time changes nothing. |
| Decoding.JoinLength | NMT.py:372 | `" ".join(words)` starts with the first word and is as long as all words together plus one space per gap; no words give the empty string. |
| Decoding.SplitUndoesJoin | NMT.py:372 | For non-empty words without whitespace, `split()` of the joined text gives the words back. |
| Decoding.ConstructResponse | NMT.py:366-372 | The response exists exactly when every kept id indexes the inverse vocabulary. |
| Decoding.ResponseSplitsIntoKeptWords | NMT.py:366-372 | When no vocabulary word is empty or holds whitespace, splitting the response on whitespace gives exactly the words of the kept ids, one per id before the first EOS. |
| Decoding.WellFormedResponseSplits | NMT.py:366-372 | Every vocabulary `build_vocab` writes meets that condition. |
| Inference.PrepareInference | NMT.py:494-501 | An input is skipped exactly when it is longer than the last source capacity. Otherwise it goes to the one-sided bucket. Its one-slot batch passes the length check and holds PADs and then the reversed input on the encoder side, all-PAD decoder inputs and zero masks. |
| Inference.PreparedInputIsComplete | NMT.py:494-501 | An input that passes the guard reaches the model whole: every id appears in the last encoder steps, in reverse order. |
| Inference.EncoderNeverFails | NMT.py:191-192 | With `<unk>` in the vocabulary, `sentence2id` never fails and gives one id per token. |
| Inference.TranslateAsWritten | NMT.py:487-497 | For any encoder, every input handed to the model fits the largest bucket. |
| Inference.OverlongLineSwallowsNext | NMT.py:495-497 | As written, the line read after an over-long input is dropped, whatever it holds. |
| Inference.SwallowedLineExample | NMT.py:487-497 | On the shipped catalogue with `<unk>` in the vocabulary, 61 full stops followed by `.` get no answer as written. |
| Inference.SkippedLineExample | NMT.py:487-497 | The same session under the corrected loop answers the second line with its ids. |
| Inference.Translate | NMT.py:487-497 | The corrected loop also hands the model only inputs that fit the largest bucket. |
| Inference.TranslateFeedsOnlyLines | NMT.py:487-501 | Everything the corrected loop hands the model is the id list of some non-empty line it read, and fits the largest bucket. |
| Inference.TranslateFollowsLineOrder | NMT.py:487-501 | The corrected loop feeds the model, in reading order, the id lists of exactly those lines that come before the session ends and fit the largest bucket. The session ends at the first empty line or the first line the encoder rejects. |
| Inference.TranslateFromFollowsLineOrder | NMT.py:487-501 | The same characterization from any reading position: once the loop reaches line `from`, it feeds in order the fitting lines from there up to the end of the session. |
| Inference.TranslateAnswersEveryFittingLine | NMT.py:487-501 | If the lines up to line i are non-empty and encode, and line i's ids fit, the corrected loop hands those ids to the model. |
| Inference.CorrectionAgreesWithoutOverlongLines | NMT.py:487-497 | On a session without over-long lines the corrected loop and the loop as written feed the model exactly the same inputs. |
| Inference.OverlongLineIsSkippedAlone | NMT.py:495-497 | In the corrected loop an over-long line costs only itself: a fitting line after it is answered next. |

## Findings

| source | as written | input that shows it | evidently intended | confidence | as-written member | corrected member |
|---|---|---|---|---|---|---|
| NMT.py:495-497 | After an over-long input, `translate` calls `_get_user_input()` once more, discards the result and `continue`s. The loop head then reads again. | A line of 61 full stops (61 tokens, more than the largest bucket's 60) followed by the line `.`: the second line is read at line 496 and never answered. | Skip only the over-long line, as `test` does at lines 448-449, and answer the next one. | medium; not executed | Inference.TranslateAsWritten, Inference.OverlongLineSwallowsNext, Inference.SwallowedLineExample | Inference.Translate, Inference.OverlongLineIsSkippedAlone, Inference.SkippedLineExample, Inference.TranslateFollowsLineOrder |

## Left out

- `ChatBotModel`, `run_step`, the `train` loop and checkpointing are not modelled. They are TensorFlow graph building and session calls.
- Loss averaging, `sentence_bleu` and its smoothing in `test` are not modelled. They are floating-point metrics from a foreign library.
- File reading and writing in `build_vocab`, `load_vocab`, `token2id`, `load_data` and `test` is left out. The model works on in-memory lines and word lists instead.
- Standard input in `translate` is left out. The lines read are a parameter, and `print` output is left out.
- `build_vocab`'s frequency count, sort and threshold are not modelled. A vocabulary is any word list that starts with the four reserved words and continues with tokenizer output (`Vocabulary.WellFormedVocabulary`).
- `np.argmax` over logits is left out: the chosen ids are an input.
- `random.choice` and `random.random` are left out: the draws are parameters.
- The `splitstrings` and `main` helpers are not modelled.
- `test` tokenizes `str([line])`, a one-element list, rather than the line itself, so its quote characters become extra tokens. This string form is not modelled. `Inference.PrepareInference` starts from the ids.
- Tokenizer.BasicTokenizer: whitespace and lower-casing follow ASCII only. Other characters are treated as plain word characters, whereas Python's `str.lower`, `str.strip` and `str.split` also act on Unicode. Likewise `\d` (NMT.py:144) matches every Unicode decimal digit, while `Tokenizer.IsDigit` accepts only ASCII 0-9.
- Batching.Masks: masks are integers 0 and 1, not float32 arrays. The `np.int32` conversion of the id vectors is not modelled either, since ids are unbounded integers.
- Sampling.Scale: the scale is computed over exact reals rather than floating point. A total of zero would divide by zero and is a precondition.
- Batching.GetBatch: like the code, it makes no length assertion, so an example longer than its bucket is silently cut to the bucket's time steps.
- Batching.GetBatch: decoder lists have the bucket's decoder size, as in the code. `run_step` (not modelled) appends the extra all-zero decoder slot.
- Inference.Translate: when `<unk>` is missing from the vocabulary, `sentence2id` raises KeyError and `translate` crashes. The model ends the session there instead (the encoder returns None), so the inputs fed before that point are the same.
- Buckets.LoadData: the unused `max_training_size` parameter and the line counter are not modelled.
