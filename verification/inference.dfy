/** The per-input preparation `test` and `translate` share (NMT.py lines
    447-454 and 494-501): inputs longer than the largest source capacity are
    skipped, the rest go to the one-sided bucket in a one-slot batch with an
    empty target.  Also the interactive read loop of `translate` (lines
    486-497), over the lines it reads, as written and as intended. */
module Inference {

  import opened Results
  import opened Constants
  import opened Buckets
  import opened Batching
  import Vocabulary
  import Tokenizer

  /** `BUCKETS[-1][0]`. */
  function MaxLength(buckets: seq<Bucket>): nat
    requires |buckets| > 0
  {
    buckets[|buckets| - 1].encoderSize
  }

  /** What the model is fed for one input: the bucket and the batch. */
  datatype Prepared = Prepared(bucketId: nat, batch: Batch)

  /** The length guard, `_find_right_bucket`, then
      `get_batch([(token_ids, [])], bucket_id, batch_size=1)`.  None is the
      `continue` of an over-long input. */
  function PrepareInference(buckets: seq<Bucket>, tokenIds: seq<int>): (r: Option<Prepared>)
    requires |buckets| > 0
    ensures r.None? <==> |tokenIds| > MaxLength(buckets)
    ensures r.Some? ==> r.value.bucketId < |buckets|
    ensures r.Some? ==> FindRightBucket(buckets, |tokenIds|) == Some(r.value.bucketId)
    ensures r.Some? ==> var b := buckets[r.value.bucketId];
      && AssertLengths(b.encoderSize, b.decoderSize, r.value.batch).Pass?
      && (forall t :: 0 <= t < b.encoderSize ==>
            r.value.batch.encoderInputs[t] ==
              [if t < b.encoderSize - |tokenIds| then PAD_ID else tokenIds[b.encoderSize - 1 - t]])
      && (forall t :: 0 <= t < b.decoderSize ==>
            r.value.batch.decoderInputs[t] == [PAD_ID] && r.value.batch.decoderMasks[t] == [0])
  {
    if |tokenIds| > MaxLength(buckets) then None
    else
      assert !(buckets[|buckets| - 1].encoderSize < |tokenIds|);
      var bucketId := FindRightBucket(buckets, |tokenIds|).value;
      var batch := GetBatch([Example(tokenIds, [])], buckets[bucketId], [0]);
      EncoderSlot(tokenIds, buckets[bucketId]);
      EmptyTargetBatch(tokenIds, buckets[bucketId]);
      Some(Prepared(bucketId, batch))
  }

  lemma {:induction false} EncoderSlot(ids: seq<int>, bucket: Bucket)
    requires |ids| <= bucket.encoderSize
    ensures var batch := GetBatch([Example(ids, [])], bucket, [0]);
      forall t :: 0 <= t < bucket.encoderSize ==>
        batch.encoderInputs[t] == [if t < bucket.encoderSize - |ids| then PAD_ID else ids[bucket.encoderSize - 1 - t]]
  {
    var batch := GetBatch([Example(ids, [])], bucket, [0]);
    forall t | 0 <= t < bucket.encoderSize
      ensures batch.encoderInputs[t] == [if t < bucket.encoderSize - |ids| then PAD_ID else ids[bucket.encoderSize - 1 - t]]
    {
      FittingSlotContents([Example(ids, [])], bucket, [0], 0);
    }
  }

  /** The model always receives a batch in which the whole input is present:
      every id of the input appears, in reverse order, at the end of the
      encoder steps, and nothing is truncated. */
  lemma {:induction false} PreparedInputIsComplete(buckets: seq<Bucket>, tokenIds: seq<int>)
    requires |buckets| > 0
    requires |tokenIds| <= MaxLength(buckets)
    ensures var r := PrepareInference(buckets, tokenIds);
      var es := buckets[r.value.bucketId].encoderSize;
      && r.Some?
      && |tokenIds| <= es
      && forall i :: 0 <= i < |tokenIds| ==> r.value.batch.encoderInputs[es - 1 - i] == [tokenIds[i]]
  {
    var r := PrepareInference(buckets, tokenIds);
    var es := buckets[r.value.bucketId].encoderSize;
    forall i | 0 <= i < |tokenIds|
      ensures r.value.batch.encoderInputs[es - 1 - i] == [tokenIds[i]]
    {
      assert es - 1 - (es - 1 - i) == i;
    }
  }

  // ---------------------------------------------------------------------------
  // The interactive loop of `translate`
  // ---------------------------------------------------------------------------

  /* `lines` are the successive results of `sys.stdin.readline()` with the
     trailing newline already removed; reading past the last one yields the
     empty string (end of input).  `encode` is `sentence2id` with the encoder
     vocabulary fixed, `Encoder(vocab)` below; None is its KeyError, which
     ends the session.  Each function returns the id lists handed to the
     model, in order. */

  /** The call `sentence2id(enc_vocab, str(line))` of line 494, as a function
      of the line. */
  function Encoder(vocab: map<string, int>): string -> Option<seq<int>> {
    line => Vocabulary.SentenceToIds(vocab, line)
  }

  /** With `<unk>` in the vocabulary the encoder never fails, and a line of
      `n` tokens becomes `n` ids. */
  lemma EncoderNeverFails(vocab: map<string, int>, line: string)
    requires UNK_TOKEN in vocab
    ensures Encoder(vocab)(line).Some?
    ensures |Encoder(vocab)(line).value| == |Tokenizer.BasicTokenizer(line, true)|
  {
  }

  /** Lines 487-497 as written: after an over-long input the loop reads one
      more line (line 496) and drops it before reading again. */
  function TranslateAsWritten(encode: string -> Option<seq<int>>, buckets: seq<Bucket>, lines: seq<string>): (fed: seq<seq<int>>)
    requires |buckets| > 0
    ensures forall i :: 0 <= i < |fed| ==> |fed[i]| <= MaxLength(buckets)
    decreases |lines|
  {
    if |lines| == 0 || lines[0] == "" then []
    else
      match encode(lines[0])
      case None => []
      case Some(ids) =>
        if |ids| > MaxLength(buckets) then
          TranslateAsWritten(encode, buckets, if |lines| > 1 then lines[2..] else [])
        else [ids] + TranslateAsWritten(encode, buckets, lines[1..])
  }

  /** The same loop with the stray read removed: an over-long input is
      skipped and the next line is the next input, as `test` does for its
      over-long lines (lines 448-449). */
  function Translate(encode: string -> Option<seq<int>>, buckets: seq<Bucket>, lines: seq<string>): (fed: seq<seq<int>>)
    requires |buckets| > 0
    ensures forall i :: 0 <= i < |fed| ==> |fed[i]| <= MaxLength(buckets)
    decreases |lines|
  {
    if |lines| == 0 || lines[0] == "" then []
    else
      match encode(lines[0])
      case None => []
      case Some(ids) =>
        if |ids| > MaxLength(buckets) then Translate(encode, buckets, lines[1..])
        else [ids] + Translate(encode, buckets, lines[1..])
  }

  /** Line `i` is a non-empty line that encodes to `ids`, and `ids` fit the
      largest bucket. */
  predicate FeedsAt(encode: string -> Option<seq<int>>, buckets: seq<Bucket>, lines: seq<string>, i: int, ids: seq<int>)
    requires |buckets| > 0
  {
    && 0 <= i < |lines|
    && lines[i] != ""
    && encode(lines[i]) == Some(ids)
    && |ids| <= MaxLength(buckets)
  }

  /** `ids` is the id list of some line of `lines` that fits. */
  predicate FromSomeLine(encode: string -> Option<seq<int>>, buckets: seq<Bucket>, lines: seq<string>, ids: seq<int>)
    requires |buckets| > 0
  {
    exists i :: 0 <= i < |lines| && FeedsAt(encode, buckets, lines, i, ids)
  }

  /** Every id list in `fed` is that of some line of `lines`. */
  predicate FromLines(encode: string -> Option<seq<int>>, buckets: seq<Bucket>, lines: seq<string>, fed: seq<seq<int>>)
    requires |buckets| > 0
  {
    forall k :: 0 <= k < |fed| ==> FromSomeLine(encode, buckets, lines, fed[k])
  }

  /** The corrected loop feeds the model nothing but inputs: every id list it
      hands on is that of some non-empty line read, and fits. */
  lemma {:induction false} TranslateFeedsOnlyLines(encode: string -> Option<seq<int>>, buckets: seq<Bucket>, lines: seq<string>)
    requires |buckets| > 0
    ensures FromLines(encode, buckets, lines, Translate(encode, buckets, lines))
    decreases |lines|
  {
    if |lines| > 0 && lines[0] != "" && encode(lines[0]).Some? {
      TranslateFeedsOnlyLines(encode, buckets, lines[1..]);
      var rest := lines[1..];
      assert [lines[0]] + rest == lines;
      TranslateStep(encode, buckets, lines[0], rest);
      var ids := encode(lines[0]).value;
      var tail := Translate(encode, buckets, rest);
      FromLinesShift(encode, buckets, lines, tail);
      if |ids| <= MaxLength(buckets) {
        assert FeedsAt(encode, buckets, lines, 0, ids);
        FromLinesCons(encode, buckets, lines, ids, tail);
      } else {
        assert [] + tail == tail;
      }
    }
  }

  lemma FromLinesShift(encode: string -> Option<seq<int>>, buckets: seq<Bucket>, lines: seq<string>, fed: seq<seq<int>>)
    requires |buckets| > 0 && |lines| > 0
    requires FromLines(encode, buckets, lines[1..], fed)
    ensures FromLines(encode, buckets, lines, fed)
  {
    forall k | 0 <= k < |fed|
      ensures FromSomeLine(encode, buckets, lines, fed[k])
    {
      assert FromSomeLine(encode, buckets, lines[1..], fed[k]);
      var i :| 0 <= i < |lines[1..]| && FeedsAt(encode, buckets, lines[1..], i, fed[k]);
      assert lines[1..][i] == lines[i + 1];
      assert FeedsAt(encode, buckets, lines, i + 1, fed[k]);
    }
  }

  lemma FromLinesCons(encode: string -> Option<seq<int>>, buckets: seq<Bucket>, lines: seq<string>, ids: seq<int>, fed: seq<seq<int>>)
    requires |buckets| > 0
    requires FromSomeLine(encode, buckets, lines, ids)
    requires FromLines(encode, buckets, lines, fed)
    ensures FromLines(encode, buckets, lines, [ids] + fed)
  {
    forall k | 0 < k < |[ids] + fed|
      ensures ([ids] + fed)[k] == fed[k - 1]
    {
    }
  }

  /** Every line before the first empty one whose ids fit the largest bucket
      is answered by the corrected loop, provided the encoder does not fail
      on the lines up to it (with `<unk>` in the vocabulary it never does). */
  lemma {:induction false} TranslateAnswersEveryFittingLine(encode: string -> Option<seq<int>>, buckets: seq<Bucket>, lines: seq<string>, i: nat)
    requires |buckets| > 0
    requires i < |lines|
    requires forall j :: 0 <= j <= i ==> lines[j] != "" && encode(lines[j]).Some?
    ensures |encode(lines[i]).value| <= MaxLength(buckets) ==> encode(lines[i]).value in Translate(encode, buckets, lines)
    decreases i
  {
    var ids := encode(lines[i]).value;
    if |ids| <= MaxLength(buckets) {
      var tail := lines[1..];
      assert [lines[0]] + tail == lines;
      TranslateStep(encode, buckets, lines[0], tail);
      if i > 0 {
        assert tail[i - 1] == lines[i];
        TranslateAnswersEveryFittingLine(encode, buckets, tail, i - 1);
      }
    }
  }

  /** Where the session ends: the first line from `from` on that is empty or
      that the encoder rejects, or `|lines|` when there is none. */
  function SessionEnd(encode: string -> Option<seq<int>>, lines: seq<string>, from: nat): (e: nat)
    requires from <= |lines|
    ensures from <= e <= |lines|
    ensures forall j :: from <= j < e ==> lines[j] != "" && encode(lines[j]).Some?
    ensures e < |lines| ==> lines[e] == "" || encode(lines[e]).None?
    decreases |lines| - from
  {
    if from == |lines| || lines[from] == "" || encode(lines[from]).None? then from
    else SessionEnd(encode, lines, from + 1)
  }

  /** The positions in `[lo, hi)` whose ids fit the largest bucket, in
      ascending order, and no others. */
  function FittingLines(encode: string -> Option<seq<int>>, buckets: seq<Bucket>, lines: seq<string>, lo: nat, hi: nat): (idx: seq<nat>)
    requires |buckets| > 0 && lo <= hi <= |lines|
    requires forall j :: lo <= j < hi ==> encode(lines[j]).Some?
    ensures forall k :: 0 <= k < |idx| ==> lo <= idx[k] < hi && |encode(lines[idx[k]]).value| <= MaxLength(buckets)
    ensures forall k, l :: 0 <= k < l < |idx| ==> idx[k] < idx[l]
    ensures forall j :: lo <= j < hi && |encode(lines[j]).value| <= MaxLength(buckets) ==> j in idx
    decreases hi - lo
  {
    if lo == hi then []
    else
      var rest := FittingLines(encode, buckets, lines, lo + 1, hi);
      if |encode(lines[lo]).value| <= MaxLength(buckets) then [lo] + rest else rest
  }

  /** The id lists of the lines at positions `idx`, in that order. */
  function IdsAt(encode: string -> Option<seq<int>>, lines: seq<string>, idx: seq<nat>): (fed: seq<seq<int>>)
    requires forall k :: 0 <= k < |idx| ==> idx[k] < |lines| && encode(lines[idx[k]]).Some?
    ensures |fed| == |idx|
  {
    seq(|idx|, k requires 0 <= k < |idx| => encode(lines[idx[k]]).value)
  }

  /** The corrected loop, described without its loop: the model is fed, in
      reading order, the id lists of exactly those lines before the end of
      the session that fit the largest bucket. */
  lemma TranslateFollowsLineOrder(encode: string -> Option<seq<int>>, buckets: seq<Bucket>, lines: seq<string>)
    requires |buckets| > 0
    ensures var idx := FittingLines(encode, buckets, lines, 0, SessionEnd(encode, lines, 0));
      Translate(encode, buckets, lines) == IdsAt(encode, lines, idx)
  {
    TranslateFromFollowsLineOrder(encode, buckets, lines, 0);
    assert lines[0..] == lines;
  }

  /** The same from any reading position: what the loop feeds once it has
      reached line `from`. */
  lemma {:induction false} TranslateFromFollowsLineOrder(encode: string -> Option<seq<int>>, buckets: seq<Bucket>, lines: seq<string>, from: nat)
    requires |buckets| > 0 && from <= |lines|
    ensures var idx := FittingLines(encode, buckets, lines, from, SessionEnd(encode, lines, from));
      Translate(encode, buckets, lines[from..]) == IdsAt(encode, lines, idx)
    decreases |lines| - from
  {
    var e := SessionEnd(encode, lines, from);
    var idx := FittingLines(encode, buckets, lines, from, e);
    if from == |lines| || lines[from] == "" || encode(lines[from]).None? {
      assert e == from && idx == [];
      assert from < |lines| ==> lines[from..][0] == lines[from];
    } else {
      TranslateFromFollowsLineOrder(encode, buckets, lines, from + 1);
      assert e == SessionEnd(encode, lines, from + 1);
      assert lines[from..] == [lines[from]] + lines[from + 1..];
      TranslateStep(encode, buckets, lines[from], lines[from + 1..]);
      FittingLinesStep(encode, buckets, lines, from, e);
    }
  }

  /** The first position of `[lo, hi)` contributes its ids exactly when they fit. */
  lemma FittingLinesStep(encode: string -> Option<seq<int>>, buckets: seq<Bucket>, lines: seq<string>, lo: nat, hi: nat)
    requires |buckets| > 0 && lo < hi <= |lines|
    requires forall j :: lo <= j < hi ==> encode(lines[j]).Some?
    ensures var ids := encode(lines[lo]).value;
      IdsAt(encode, lines, FittingLines(encode, buckets, lines, lo, hi)) ==
        (if |ids| > MaxLength(buckets) then [] else [ids]) + IdsAt(encode, lines, FittingLines(encode, buckets, lines, lo + 1, hi))
  {
    var ids := encode(lines[lo]).value;
    var rest := FittingLines(encode, buckets, lines, lo + 1, hi);
    var head := if |ids| <= MaxLength(buckets) then [lo] else [];
    assert FittingLines(encode, buckets, lines, lo, hi) == head + rest;
    IdsAtAppend(encode, lines, head, rest);
    assert IdsAt(encode, lines, head) == (if |ids| > MaxLength(buckets) then [] else [ids]);
  }

  lemma IdsAtAppend(encode: string -> Option<seq<int>>, lines: seq<string>, a: seq<nat>, b: seq<nat>)
    requires forall k :: 0 <= k < |a| ==> a[k] < |lines| && encode(lines[a[k]]).Some?
    requires forall k :: 0 <= k < |b| ==> b[k] < |lines| && encode(lines[b[k]]).Some?
    ensures IdsAt(encode, lines, a + b) == IdsAt(encode, lines, a) + IdsAt(encode, lines, b)
  {
    var ab := a + b;
    assert forall k :: 0 <= k < |ab| ==> ab[k] == (if k < |a| then a[k] else b[k - |a|]);
  }

  /** The correction changes nothing on a session without over-long lines: the
      two loops then feed the model the same inputs. */
  lemma {:induction false} CorrectionAgreesWithoutOverlongLines(encode: string -> Option<seq<int>>, buckets: seq<Bucket>, lines: seq<string>)
    requires |buckets| > 0
    requires forall i :: 0 <= i < |lines| && encode(lines[i]).Some? ==> |encode(lines[i]).value| <= MaxLength(buckets)
    ensures Translate(encode, buckets, lines) == TranslateAsWritten(encode, buckets, lines)
    decreases |lines|
  {
    if |lines| > 0 && lines[0] != "" && encode(lines[0]).Some? {
      forall i | 0 <= i < |lines[1..]| && encode(lines[1..][i]).Some?
        ensures |encode(lines[1..][i]).value| <= MaxLength(buckets)
      {
        assert lines[1..][i] == lines[i + 1];
      }
      CorrectionAgreesWithoutOverlongLines(encode, buckets, lines[1..]);
    }
  }

  /** In the corrected loop an over-long line costs nothing but itself: the
      line after it is answered. */
  lemma {:induction false} OverlongLineIsSkippedAlone(encode: string -> Option<seq<int>>, buckets: seq<Bucket>, long: string, next: string, rest: seq<string>)
    requires |buckets| > 0
    requires long != "" && next != ""
    ensures (&& encode(long).Some? && encode(next).Some?
             && |encode(long).value| > MaxLength(buckets) && |encode(next).value| <= MaxLength(buckets)) ==>
        Translate(encode, buckets, [long, next] + rest) == [encode(next).value] + Translate(encode, buckets, rest)
  {
    if encode(long).Some? && encode(next).Some? {
      assert [long, next] + rest == [long] + ([next] + rest);
      TranslateStep(encode, buckets, long, [next] + rest);
      TranslateStep(encode, buckets, next, rest);
    }
  }

  /** One turn of the corrected loop on a non-empty line. */
  lemma {:induction false} TranslateStep(encode: string -> Option<seq<int>>, buckets: seq<Bucket>, line: string, tail: seq<string>)
    requires |buckets| > 0
    requires line != ""
    requires encode(line).Some?
    ensures var ids := encode(line).value;
      Translate(encode, buckets, [line] + tail) ==
        (if |ids| > MaxLength(buckets) then [] else [ids]) + Translate(encode, buckets, tail)
  {
    var lines := [line] + tail;
    assert lines[0] == line && lines[1..] == tail;
    var ids := encode(line).value;
    if |ids| > MaxLength(buckets) {
      assert [] + Translate(encode, buckets, tail) == Translate(encode, buckets, tail);
    }
  }

  /** As written, the line after an over-long one is never answered, whatever
      it holds. */
  lemma {:induction false} OverlongLineSwallowsNext(encode: string -> Option<seq<int>>, buckets: seq<Bucket>, long: string, next: string, rest: seq<string>)
    requires |buckets| > 0
    requires long != ""
    requires encode(long).Some?
    requires |encode(long).value| > MaxLength(buckets)
    ensures TranslateAsWritten(encode, buckets, [long, next] + rest) == TranslateAsWritten(encode, buckets, rest)
  {
    var lines := [long, next] + rest;
    assert lines[2..] == rest;
  }

  /** A concrete session on the shipped catalogue: 61 full stops (61 tokens,
      one more than the largest bucket takes) followed by a single full stop.
      The code as written answers nothing. */
  lemma {:induction false} SwallowedLineExample(vocab: map<string, int>)
    requires UNK_TOKEN in vocab
    ensures TranslateAsWritten(Encoder(vocab), BUCKETS, [Tokenizer.Periods(61), Tokenizer.Periods(1)]) == []
  {
    var long, dot := Tokenizer.Periods(61), Tokenizer.Periods(1);
    LongSessionFacts(vocab);
    OverlongLineSwallowsNext(Encoder(vocab), BUCKETS, long, dot, []);
    assert [long, dot] + [] == [long, dot];
  }

  /** The same session under the corrected loop: the second line is answered. */
  lemma {:induction false} SkippedLineExample(vocab: map<string, int>)
    requires UNK_TOKEN in vocab
    ensures Translate(Encoder(vocab), BUCKETS, [Tokenizer.Periods(61), Tokenizer.Periods(1)]) ==
      [Encoder(vocab)(Tokenizer.Periods(1)).value]
  {
    var long, dot := Tokenizer.Periods(61), Tokenizer.Periods(1);
    LongSessionFacts(vocab);
    OverlongLineIsSkippedAlone(Encoder(vocab), BUCKETS, long, dot, []);
    assert [long, dot] + [] == [long, dot];
    assert Translate(Encoder(vocab), BUCKETS, []) == [];
  }

  lemma {:induction false} LongSessionFacts(vocab: map<string, int>)
    requires UNK_TOKEN in vocab
    ensures Tokenizer.Periods(61) != "" && Tokenizer.Periods(1) != ""
    ensures Encoder(vocab)(Tokenizer.Periods(61)).Some?
    ensures |Encoder(vocab)(Tokenizer.Periods(61)).value| == 61
    ensures Encoder(vocab)(Tokenizer.Periods(1)).Some?
    ensures |Encoder(vocab)(Tokenizer.Periods(1)).value| == 1
    ensures MaxLength(BUCKETS) == 60
  {
    assert |Tokenizer.Periods(61)| == 61;
    assert |Tokenizer.Periods(1)| == 1;
    PeriodsIds(vocab, 61);
    PeriodsIds(vocab, 1);
  }

  /** A line of `n` full stops becomes `n` ids. */
  lemma {:induction false} PeriodsIds(vocab: map<string, int>, n: nat)
    requires UNK_TOKEN in vocab
    ensures Encoder(vocab)(Tokenizer.Periods(n)).Some?
    ensures |Encoder(vocab)(Tokenizer.Periods(n)).value| == n
  {
    EncoderNeverFails(vocab, Tokenizer.Periods(n));
    Tokenizer.PeriodsTokenCount(n);
  }

}
