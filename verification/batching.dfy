/** Batch construction, `get_batch` (NMT.py lines 246-288), and the shape
    check `_assert_lengths` (lines 296-307) every batch must pass before it is
    fed to the learner.

    The random draws of `random.choice` are the parameter `choices`: one pool
    index per batch slot.  Masks are 0/1 integers where the source has float32
    zeros and ones. */
module Batching {

  import opened Results
  import opened Constants
  import opened Buckets

  function Pads(n: nat): (r: seq<int>)
    ensures |r| == n
    ensures forall i :: 0 <= i < n ==> r[i] == PAD_ID
  {
    seq(n, _ => PAD_ID)
  }

  /** `_pad_input`: `input_ + [PAD_ID] * (size - len(input_))`.  A negative
      repeat count gives the empty list, so a longer input comes back as it is. */
  function Pad(xs: seq<int>, size: nat): (r: seq<int>)
    ensures |xs| <= size ==> |r| == size
    ensures size < |xs| ==> r == xs
    ensures |xs| <= |r| && r[..|xs|] == xs
    ensures forall i :: |xs| <= i < |r| ==> r[i] == PAD_ID
  {
    xs + Pads(if |xs| <= size then size - |xs| else 0)
  }

  /** Drops the trailing PAD ids. */
  function StripTrailingPad(xs: seq<int>): (r: seq<int>)
    decreases |xs|
  {
    if |xs| > 0 && xs[|xs| - 1] == PAD_ID then StripTrailingPad(xs[..|xs| - 1]) else xs
  }

  /** Padding is undone by stripping the trailing PADs again, for any input
      that does not itself end in PAD. */
  lemma {:induction false} StripUndoesPad(xs: seq<int>, size: nat)
    requires |xs| == 0 || xs[|xs| - 1] != PAD_ID
    ensures StripTrailingPad(Pad(xs, size)) == xs
  {
    StripPads(xs, if |xs| <= size then size - |xs| else 0);
  }

  lemma {:induction false} StripPads(xs: seq<int>, n: nat)
    requires |xs| == 0 || xs[|xs| - 1] != PAD_ID
    ensures StripTrailingPad(xs + Pads(n)) == xs
    decreases n
  {
    if n == 0 {
      assert xs + Pads(0) == xs;
    } else {
      assert (xs + Pads(n))[..|xs| + n - 1] == xs + Pads(n - 1);
      StripPads(xs, n - 1);
    }
  }

  /** `list(reversed(xs))`. */
  function Reverse(xs: seq<int>): (r: seq<int>)
    ensures |r| == |xs|
    ensures forall i :: 0 <= i < |xs| ==> r[i] == xs[|xs| - 1 - i]
    decreases |xs|
  {
    if |xs| == 0 then [] else Reverse(xs[1..]) + [xs[0]]
  }

  lemma ReverseInvolution(xs: seq<int>)
    ensures Reverse(Reverse(xs)) == xs
  {
  }

  /** The encoder row of a source that fits: the padding first, then the
      source backwards, so its last word meets the encoder's first step. */
  lemma {:induction false} EncoderRowShape(src: seq<int>, encoderSize: nat)
    requires |src| <= encoderSize
    ensures Reverse(Pad(src, encoderSize)) == Pads(encoderSize - |src|) + Reverse(src)
  {
    var padded := Pad(src, encoderSize);
    var pads := encoderSize - |src|;
    var lhs := Reverse(padded);
    var rev := Reverse(src);
    var rhs := Pads(pads) + rev;
    forall i | 0 <= i < encoderSize
      ensures lhs[i] == rhs[i]
    {
      var j := encoderSize - 1 - i;
      assert lhs[i] == padded[j];
      if i < pads {
        assert rhs[i] == PAD_ID;
      } else {
        assert rhs[i] == rev[i - pads] == src[j];
        assert padded[j] == padded[..|src|][j];
      }
    }
    assert |lhs| == |rhs|;
  }

  /** `_reshape_batch`: `out[t][b]` is slot `b`'s entry at time step `t`. */
  function Reshape(rows: seq<seq<int>>, size: nat, batchSize: nat): (out: seq<seq<int>>)
    requires batchSize <= |rows|
    requires forall b :: 0 <= b < batchSize ==> size <= |rows[b]|
    ensures |out| == size
    ensures forall t :: 0 <= t < size ==> |out[t]| == batchSize
    ensures forall t, b :: 0 <= t < size && 0 <= b < batchSize ==> out[t][b] == rows[b][t]
  {
    seq(size, t requires 0 <= t < size =>
      seq(batchSize, b requires 0 <= b < batchSize => rows[b][t]))
  }

  /** Reshaping is a transposition: applied twice to a full rectangle it gives
      the rows back. */
  lemma ReshapeTwiceRestores(rows: seq<seq<int>>, size: nat)
    requires forall b :: 0 <= b < |rows| ==> |rows[b]| == size
    ensures Reshape(Reshape(rows, size, |rows|), |rows|, size) == rows
  {
    var back := Reshape(Reshape(rows, size, |rows|), |rows|, size);
    forall b | 0 <= b < |rows|
      ensures back[b] == rows[b]
    {
    }
  }

  /** The loss mask of lines 277-287: slot `b` at step `t` is scored unless `t`
      is the last step or the target one step later is PAD. */
  function Masks(rows: seq<seq<int>>, decoderSize: nat, batchSize: nat): (masks: seq<seq<int>>)
    requires batchSize <= |rows|
    requires forall b :: 0 <= b < batchSize ==> decoderSize <= |rows[b]|
    ensures |masks| == decoderSize
    ensures forall t :: 0 <= t < decoderSize ==> |masks[t]| == batchSize
    ensures forall t, b :: 0 <= t < decoderSize && 0 <= b < batchSize ==>
      (masks[t][b] == 0 || masks[t][b] == 1)
    ensures forall t, b :: 0 <= t < decoderSize && 0 <= b < batchSize ==>
      (masks[t][b] == 0 <==> t == decoderSize - 1 || rows[b][t + 1] == PAD_ID)
  {
    seq(decoderSize, t requires 0 <= t < decoderSize =>
      seq(batchSize, b requires 0 <= b < batchSize =>
        if t == decoderSize - 1 || rows[b][t + 1] == PAD_ID then 0 else 1))
  }

  /** The three time-major lists handed to the learner. */
  datatype Batch = Batch(encoderInputs: seq<seq<int>>, decoderInputs: seq<seq<int>>, decoderMasks: seq<seq<int>>)

  datatype LengthError =
    | EncoderLength(actual: nat, expected: nat)
    | DecoderLength(actual: nat, expected: nat)
    | MaskLength(actual: nat, expected: nat)

  datatype LengthCheck = Pass | Fail(error: LengthError)

  /** `_assert_lengths`: the first of the three lists whose length differs from
      the bucket's is reported; the masks are held to the decoder size. */
  function AssertLengths(encoderSize: nat, decoderSize: nat, batch: Batch): (r: LengthCheck)
    ensures r.Pass? <==>
      |batch.encoderInputs| == encoderSize && |batch.decoderInputs| == decoderSize && |batch.decoderMasks| == decoderSize
    ensures r.Fail? && r.error.EncoderLength? ==> r.error.actual == |batch.encoderInputs| != r.error.expected == encoderSize
    ensures r.Fail? && r.error.DecoderLength? ==>
      |batch.encoderInputs| == encoderSize && r.error.actual == |batch.decoderInputs| != r.error.expected == decoderSize
    ensures r.Fail? && r.error.MaskLength? ==>
      |batch.encoderInputs| == encoderSize && |batch.decoderInputs| == decoderSize
      && r.error.actual == |batch.decoderMasks| != r.error.expected == decoderSize
  {
    if |batch.encoderInputs| != encoderSize then Fail(EncoderLength(|batch.encoderInputs|, encoderSize))
    else if |batch.decoderInputs| != decoderSize then Fail(DecoderLength(|batch.decoderInputs|, decoderSize))
    else if |batch.decoderMasks| != decoderSize then Fail(MaskLength(|batch.decoderMasks|, decoderSize))
    else Pass
  }

  /** The padded, reversed source rows of the drawn examples. */
  function EncoderRows(pool: seq<Example>, encoderSize: nat, choices: seq<nat>): (rows: seq<seq<int>>)
    requires forall k :: 0 <= k < |choices| ==> choices[k] < |pool|
    ensures |rows| == |choices|
    ensures forall k :: 0 <= k < |choices| ==> rows[k] == Reverse(Pad(pool[choices[k]].source, encoderSize))
  {
    seq(|choices|, k requires 0 <= k < |choices| => Reverse(Pad(pool[choices[k]].source, encoderSize)))
  }

  /** The padded target rows of the drawn examples. */
  function DecoderRows(pool: seq<Example>, decoderSize: nat, choices: seq<nat>): (rows: seq<seq<int>>)
    requires forall k :: 0 <= k < |choices| ==> choices[k] < |pool|
    ensures |rows| == |choices|
    ensures forall k :: 0 <= k < |choices| ==> rows[k] == Pad(pool[choices[k]].target, decoderSize)
  {
    seq(|choices|, k requires 0 <= k < |choices| => Pad(pool[choices[k]].target, decoderSize))
  }

  /** `get_batch(pool, bucket, len(choices))` with `choices[k]` the example
      drawn for slot `k`.  An example longer than the bucket is not rejected:
      only its first time steps are read. */
  function GetBatch(pool: seq<Example>, bucket: Bucket, choices: seq<nat>): (batch: Batch)
    requires forall k :: 0 <= k < |choices| ==> choices[k] < |pool|
    ensures AssertLengths(bucket.encoderSize, bucket.decoderSize, batch).Pass?
    ensures forall t :: 0 <= t < bucket.encoderSize ==> |batch.encoderInputs[t]| == |choices|
    ensures forall t :: 0 <= t < bucket.decoderSize ==>
      |batch.decoderInputs[t]| == |choices| && |batch.decoderMasks[t]| == |choices|
    ensures forall t, k :: 0 <= t < bucket.encoderSize && 0 <= k < |choices| ==>
      batch.encoderInputs[t][k] == Reverse(Pad(pool[choices[k]].source, bucket.encoderSize))[t]
    ensures forall t, k :: 0 <= t < bucket.decoderSize && 0 <= k < |choices| ==>
      batch.decoderInputs[t][k] == Pad(pool[choices[k]].target, bucket.decoderSize)[t]
    ensures forall t, k :: 0 <= t < bucket.decoderSize && 0 <= k < |choices| ==>
      (batch.decoderMasks[t][k] == 0 || batch.decoderMasks[t][k] == 1)
    ensures forall t, k :: 0 <= t < bucket.decoderSize && 0 <= k < |choices| ==>
      (batch.decoderMasks[t][k] == 0 <==>
        t == bucket.decoderSize - 1 || Pad(pool[choices[k]].target, bucket.decoderSize)[t + 1] == PAD_ID)
  {
    var encoderRows := EncoderRows(pool, bucket.encoderSize, choices);
    var decoderRows := DecoderRows(pool, bucket.decoderSize, choices);
    Batch(
      Reshape(encoderRows, bucket.encoderSize, |choices|),
      Reshape(decoderRows, bucket.decoderSize, |choices|),
      Masks(decoderRows, bucket.decoderSize, |choices|))
  }

  // ---------------------------------------------------------------------------
  // Batches of examples that fit their bucket
  // ---------------------------------------------------------------------------

  /** For an example that fits, slot `k` reads: PADs then the source backwards
      on the encoder side, the target then PADs on the decoder side. */
  lemma FittingSlotContents(pool: seq<Example>, bucket: Bucket, choices: seq<nat>, k: nat)
    requires forall j :: 0 <= j < |choices| ==> choices[j] < |pool|
    requires k < |choices|
    requires Fits(bucket, |pool[choices[k]].source|, |pool[choices[k]].target|)
    ensures var batch := GetBatch(pool, bucket, choices);
      var src := pool[choices[k]].source;
      var tgt := pool[choices[k]].target;
      && (forall t :: 0 <= t < bucket.encoderSize ==>
            batch.encoderInputs[t][k] == if t < bucket.encoderSize - |src| then PAD_ID else src[bucket.encoderSize - 1 - t])
      && (forall t :: 0 <= t < bucket.decoderSize ==>
            batch.decoderInputs[t][k] == if t < |tgt| then tgt[t] else PAD_ID)
  {
  }

  /** For a target free of PAD ids that fits, slot `k` is scored at exactly the
      steps whose next target position holds a real id: the steps before the
      target's last. */
  lemma MaskScoresRealTokens(pool: seq<Example>, bucket: Bucket, choices: seq<nat>, k: nat)
    requires forall j :: 0 <= j < |choices| ==> choices[j] < |pool|
    requires k < |choices|
    requires |pool[choices[k]].target| <= bucket.decoderSize
    requires forall i :: 0 <= i < |pool[choices[k]].target| ==> pool[choices[k]].target[i] != PAD_ID
    ensures var batch := GetBatch(pool, bucket, choices);
      forall t :: 0 <= t < bucket.decoderSize ==>
        (batch.decoderMasks[t][k] == 1 <==> t + 1 < |pool[choices[k]].target|)
  {
    var batch := GetBatch(pool, bucket, choices);
    var tgt := pool[choices[k]].target;
    var row := Pad(tgt, bucket.decoderSize);
    forall t | 0 <= t < bucket.decoderSize
      ensures batch.decoderMasks[t][k] == 1 <==> t + 1 < |tgt|
    {
      if t + 1 < |tgt| {
        assert row[t + 1] == tgt[t + 1];
      }
    }
  }

  /** Whatever the targets, the last time step is never scored. */
  lemma LastStepNeverScored(pool: seq<Example>, bucket: Bucket, choices: seq<nat>, k: nat)
    requires forall j :: 0 <= j < |choices| ==> choices[j] < |pool|
    requires bucket.decoderSize > 0 && k < |choices|
    ensures GetBatch(pool, bucket, choices).decoderMasks[bucket.decoderSize - 1][k] == 0
  {
  }

  /** The inference call `get_batch([(token_ids, [])], bucket_id, batch_size=1)`:
      the decoder side is all PAD and nothing is scored. */
  lemma EmptyTargetBatch(ids: seq<int>, bucket: Bucket)
    ensures var batch := GetBatch([Example(ids, [])], bucket, [0]);
      && (forall t :: 0 <= t < bucket.decoderSize ==> batch.decoderInputs[t] == [PAD_ID])
      && (forall t :: 0 <= t < bucket.decoderSize ==> batch.decoderMasks[t] == [0])
  {
    var batch := GetBatch([Example(ids, [])], bucket, [0]);
    forall t | 0 <= t < bucket.decoderSize
      ensures batch.decoderInputs[t] == [PAD_ID] && batch.decoderMasks[t] == [0]
    {
      assert Pad([], bucket.decoderSize) == Pads(bucket.decoderSize);
    }
  }

  /** A worked case: buckets (4,4) and (6,6), source [5,5], target [7,7,7],
      one slot. */
  lemma WorkedExample()
    ensures Classify([Bucket(4, 4), Bucket(6, 6)], 2, 3) == Some(0)
    ensures var batch := GetBatch([Example([5, 5], [7, 7, 7])], Bucket(4, 4), [0]);
      && batch.encoderInputs == [[0], [0], [5], [5]]
      && batch.decoderInputs == [[7], [7], [7], [0]]
      && batch.decoderMasks == [[1], [1], [0], [0]]
  {
    WorkedEncoder();
    WorkedDecoder();
    WorkedMasks();
  }

  lemma WorkedEncoder()
    ensures GetBatch([Example([5, 5], [7, 7, 7])], Bucket(4, 4), [0]).encoderInputs == [[0], [0], [5], [5]]
  {
    var batch := GetBatch([Example([5, 5], [7, 7, 7])], Bucket(4, 4), [0]);
    assert Pad([5, 5], 4) == [5, 5, 0, 0];
    assert Reverse([5, 5, 0, 0]) == [0, 0, 5, 5];
    assert batch.encoderInputs[0] == [0] && batch.encoderInputs[1] == [0];
    assert batch.encoderInputs[2] == [5] && batch.encoderInputs[3] == [5];
  }

  lemma WorkedDecoder()
    ensures GetBatch([Example([5, 5], [7, 7, 7])], Bucket(4, 4), [0]).decoderInputs == [[7], [7], [7], [0]]
  {
    var batch := GetBatch([Example([5, 5], [7, 7, 7])], Bucket(4, 4), [0]);
    assert Pad([7, 7, 7], 4) == [7, 7, 7, 0];
    assert batch.decoderInputs[0] == [7] && batch.decoderInputs[1] == [7];
    assert batch.decoderInputs[2] == [7] && batch.decoderInputs[3] == [0];
  }

  lemma WorkedMasks()
    ensures GetBatch([Example([5, 5], [7, 7, 7])], Bucket(4, 4), [0]).decoderMasks == [[1], [1], [0], [0]]
  {
    var batch := GetBatch([Example([5, 5], [7, 7, 7])], Bucket(4, 4), [0]);
    assert Pad([7, 7, 7], 4) == [7, 7, 7, 0];
    assert batch.decoderMasks[0] == [1] && batch.decoderMasks[1] == [1];
    assert batch.decoderMasks[2] == [0] && batch.decoderMasks[3] == [0];
  }

}
