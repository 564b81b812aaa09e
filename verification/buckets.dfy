/** The two bucket-selection policies and the bucket pools.

    Training and test data use the two-sided rule of `load_data` (NMT.py lines
    228-243): an example goes to the first bucket holding both its source and
    its target, and is dropped when none does.  Inference uses the one-sided
    rule of `_find_right_bucket` (lines 361-364): the first bucket whose source
    capacity covers the input, the target being still unknown. */
module Buckets {

  import opened Results
  import opened Constants

  /** A (source ids, target ids) pair as read from the two id files. */
  datatype Example = Example(source: seq<int>, target: seq<int>)

  predicate Fits(b: Bucket, sourceLen: nat, targetLen: nat) {
    sourceLen <= b.encoderSize && targetLen <= b.decoderSize
  }

  // ---------------------------------------------------------------------------
  // Two-sided classification (load_data)
  // ---------------------------------------------------------------------------

  function ClassifyFrom(buckets: seq<Bucket>, sourceLen: nat, targetLen: nat, k: nat): (r: Option<nat>)
    requires k <= |buckets|
    ensures r.Some? ==> k <= r.value < |buckets| && Fits(buckets[r.value], sourceLen, targetLen)
    ensures r.Some? ==> forall j :: k <= j < r.value ==> !Fits(buckets[j], sourceLen, targetLen)
    ensures r.None? ==> forall j :: k <= j < |buckets| ==> !Fits(buckets[j], sourceLen, targetLen)
    decreases |buckets| - k
  {
    if k == |buckets| then None
    else if Fits(buckets[k], sourceLen, targetLen) then Some(k)
    else ClassifyFrom(buckets, sourceLen, targetLen, k + 1)
  }

  /** The least bucket index holding both lengths; None when no bucket does. */
  function Classify(buckets: seq<Bucket>, sourceLen: nat, targetLen: nat): (r: Option<nat>)
    ensures r.Some? ==> r.value < |buckets| && Fits(buckets[r.value], sourceLen, targetLen)
    ensures r.Some? ==> forall j :: 0 <= j < r.value ==> !Fits(buckets[j], sourceLen, targetLen)
    ensures r.None? <==> forall j :: 0 <= j < |buckets| ==> !Fits(buckets[j], sourceLen, targetLen)
  {
    ClassifyFrom(buckets, sourceLen, targetLen, 0)
  }

  function ClassifyExample(buckets: seq<Bucket>, e: Example): Option<nat> {
    Classify(buckets, |e.source|, |e.target|)
  }

  // ---------------------------------------------------------------------------
  // One-sided classification (_find_right_bucket)
  // ---------------------------------------------------------------------------

  function FindFrom(buckets: seq<Bucket>, length: nat, k: nat): (r: Option<nat>)
    requires k <= |buckets|
    ensures r.Some? ==> k <= r.value < |buckets| && length <= buckets[r.value].encoderSize
    ensures r.Some? ==> forall j :: k <= j < r.value ==> buckets[j].encoderSize < length
    ensures r.None? ==> forall j :: k <= j < |buckets| ==> buckets[j].encoderSize < length
    decreases |buckets| - k
  {
    if k == |buckets| then None
    else if buckets[k].encoderSize >= length then Some(k)
    else FindFrom(buckets, length, k + 1)
  }

  /** `min(b for b in range(len(BUCKETS)) if BUCKETS[b][0] >= length)`; the
      `min` of an empty list raises, modelled as None. */
  function FindRightBucket(buckets: seq<Bucket>, length: nat): (r: Option<nat>)
    ensures r.Some? ==> r.value < |buckets| && length <= buckets[r.value].encoderSize
    ensures r.Some? ==> forall j :: 0 <= j < r.value ==> buckets[j].encoderSize < length
    ensures r.None? <==> forall j :: 0 <= j < |buckets| ==> buckets[j].encoderSize < length
  {
    FindFrom(buckets, length, 0)
  }

  /** On an ascending catalogue the `min` is defined exactly when the length is
      at most the last bucket's source capacity, the guard `test` and
      `translate` apply before calling it. */
  lemma FindRightBucketDefined(buckets: seq<Bucket>, length: nat)
    requires Ascending(buckets)
    ensures FindRightBucket(buckets, length).Some? <==>
      |buckets| > 0 && length <= buckets[|buckets| - 1].encoderSize
  {
    if |buckets| > 0 && length <= buckets[|buckets| - 1].encoderSize {
      assert !(buckets[|buckets| - 1].encoderSize < length);
    }
    if FindRightBucket(buckets, length).Some? {
      var b := FindRightBucket(buckets, length).value;
      assert buckets[b].encoderSize <= buckets[|buckets| - 1].encoderSize;
    }
  }

  /** On the shipped catalogue an input finds a bucket exactly when it has at
      most 60 ids, the length `BUCKETS[-1][0]` that `test` and `translate`
      check first. */
  lemma ShippedBucketFound(length: nat)
    ensures FindRightBucket(BUCKETS, length).Some? <==> length <= 60
  {
    BucketsWellFormed();
    FindRightBucketDefined(BUCKETS, length);
  }

  /** With an empty target the two policies agree. */
  lemma EmptyTargetPoliciesAgree(buckets: seq<Bucket>, length: nat)
    ensures FindRightBucket(buckets, length) == Classify(buckets, length, 0)
  {
  }

  /** The one-sided rule never picks a later bucket than the two-sided one. */
  lemma OneSidedNeverLater(buckets: seq<Bucket>, sourceLen: nat, targetLen: nat)
    requires Classify(buckets, sourceLen, targetLen).Some?
    ensures FindRightBucket(buckets, sourceLen).Some?
    ensures FindRightBucket(buckets, sourceLen).value <= Classify(buckets, sourceLen, targetLen).value
  {
    var c := Classify(buckets, sourceLen, targetLen).value;
    assert !(buckets[c].encoderSize < sourceLen);
  }

  /** The policies are genuinely different on the shipped catalogue: a short
      source with a 41-id target trains in bucket 3 but is answered from bucket 0. */
  lemma PoliciesDiffer()
    ensures Classify(BUCKETS, 10, 41) == Some(3)
    ensures FindRightBucket(BUCKETS, 10) == Some(0)
  {
    assert !Fits(BUCKETS[0], 10, 41) && !Fits(BUCKETS[1], 10, 41) && !Fits(BUCKETS[2], 10, 41);
    assert Fits(BUCKETS[3], 10, 41);
  }

  // ---------------------------------------------------------------------------
  // Pools (load_data)
  // ---------------------------------------------------------------------------

  /** The examples of `exs` that classify into bucket `b`, in input order. */
  function Assigned(buckets: seq<Bucket>, exs: seq<Example>, b: nat): seq<Example>
    decreases |exs|
  {
    if |exs| == 0 then []
    else
      var last := exs[|exs| - 1];
      Assigned(buckets, exs[..|exs| - 1], b) + (if ClassifyExample(buckets, last) == Some(b) then [last] else [])
  }

  /** The pairs `load_data` reads: line by line until either file ends. */
  function Zip(encLines: seq<seq<int>>, decLines: seq<seq<int>>): (exs: seq<Example>)
    ensures |exs| == if |encLines| <= |decLines| then |encLines| else |decLines|
    ensures forall i :: 0 <= i < |exs| ==> exs[i] == Example(encLines[i], decLines[i])
    decreases |encLines|
  {
    if |encLines| == 0 || |decLines| == 0 then []
    else [Example(encLines[0], decLines[0])] + Zip(encLines[1..], decLines[1..])
  }

  /** `load_data` over the two files' id lines: one pool per bucket, each
      example appended to the pool of the first bucket it fits. */
  method LoadData(buckets: seq<Bucket>, encLines: seq<seq<int>>, decLines: seq<seq<int>>)
    returns (pools: seq<seq<Example>>)
    ensures |pools| == |buckets|
    ensures forall b :: 0 <= b < |pools| ==> pools[b] == Assigned(buckets, Zip(encLines, decLines), b)
  {
    var exs := Zip(encLines, decLines);
    pools := seq(|buckets|, _ => []);
    var i := 0;
    // Reading stops when either file ends: `|exs|` is the shorter length.
    while i < |exs|
      invariant i <= |exs|
      invariant |pools| == |buckets|
      invariant forall b :: 0 <= b < |pools| ==> pools[b] == Assigned(buckets, exs[..i], b)
    {
      PoolsStep(buckets, exs, i, pools);
      pools := Deposit(buckets, pools, exs[i]);
      i := i + 1;
    }
    assert exs[..i] == exs;
  }

  /** One turn of the loop: the example is appended to the pool of the
      bucket it classifies into, if any. */
  function Deposit(buckets: seq<Bucket>, pools: seq<seq<Example>>, ex: Example): seq<seq<Example>>
    requires |pools| == |buckets|
  {
    var c := ClassifyExample(buckets, ex);
    if c.Some? then pools[c.value := pools[c.value] + [ex]] else pools
  }

  /** One iteration of `load_data`'s loop keeps every pool equal to its
      reference filter over the examples read so far. */
  lemma PoolsStep(buckets: seq<Bucket>, exs: seq<Example>, i: nat, before: seq<seq<Example>>)
    requires i < |exs| && |before| == |buckets|
    requires forall b :: 0 <= b < |before| ==> before[b] == Assigned(buckets, exs[..i], b)
    ensures var after := Deposit(buckets, before, exs[i]);
      |after| == |buckets| && forall b :: 0 <= b < |after| ==> after[b] == Assigned(buckets, exs[..i + 1], b)
  {
    AssignedStep(buckets, exs, i);
  }

  lemma AssignedStep(buckets: seq<Bucket>, exs: seq<Example>, i: nat)
    requires i < |exs|
    ensures forall b: nat :: (Assigned(buckets, exs[..i + 1], b) ==
      Assigned(buckets, exs[..i], b) + if ClassifyExample(buckets, exs[i]) == Some(b) then [exs[i]] else [])
  {
    assert exs[..i + 1][..i] == exs[..i];
  }

  /** Soundness of the pools: everything in pool `b` fits bucket `b` and no
      earlier bucket. */
  lemma {:induction false} AssignedSound(buckets: seq<Bucket>, exs: seq<Example>, b: nat, e: Example)
    requires e in Assigned(buckets, exs, b)
    ensures e in exs
    ensures b < |buckets| && Fits(buckets[b], |e.source|, |e.target|)
    ensures forall j :: 0 <= j < b ==> !Fits(buckets[j], |e.source|, |e.target|)
    decreases |exs|
  {
    var last := exs[|exs| - 1];
    if e in Assigned(buckets, exs[..|exs| - 1], b) {
      AssignedSound(buckets, exs[..|exs| - 1], b, e);
    } else {
      assert e == last && ClassifyExample(buckets, last) == Some(b);
    }
  }

  /** Completeness of the pools: every example that classifies into `b` is in
      pool `b`; an example no bucket fits is therefore in no pool. */
  lemma {:induction false} AssignedComplete(buckets: seq<Bucket>, exs: seq<Example>, i: nat)
    requires i < |exs|
    ensures ClassifyExample(buckets, exs[i]).Some? ==>
      exs[i] in Assigned(buckets, exs, ClassifyExample(buckets, exs[i]).value)
    ensures ClassifyExample(buckets, exs[i]).None? ==>
      forall b :: 0 <= b < |buckets| ==> exs[i] !in Assigned(buckets, exs, b)
    decreases |exs|
  {
    var c := ClassifyExample(buckets, exs[i]);
    if c.Some? && i < |exs| - 1 {
      AssignedComplete(buckets, exs[..|exs| - 1], i);
    }
    if c.None? {
      forall b | 0 <= b < |buckets|
        ensures exs[i] !in Assigned(buckets, exs, b)
      {
        if exs[i] in Assigned(buckets, exs, b) {
          AssignedSound(buckets, exs, b, exs[i]);
        }
      }
    }
  }

  /** Every example is kept exactly once or dropped: the pools together hold
      exactly the examples some bucket fits. */
  lemma {:induction false} PoolsPartitionKept(buckets: seq<Bucket>, exs: seq<Example>)
    ensures SumOfLengths(buckets, exs, |buckets|) == CountKept(buckets, exs)
    decreases |exs|
  {
    if |exs| > 0 {
      PoolsPartitionKept(buckets, exs[..|exs| - 1]);
      PoolLengthsStep(buckets, exs, |buckets|);
    } else {
      NoExamplesEmptyPools(buckets, exs, |buckets|);
    }
  }

  lemma {:induction false} NoExamplesEmptyPools(buckets: seq<Bucket>, exs: seq<Example>, n: nat)
    requires |exs| == 0
    ensures SumOfLengths(buckets, exs, n) == 0
    decreases n
  {
    if n > 0 {
      NoExamplesEmptyPools(buckets, exs, n - 1);
    }
  }

  /** Number of examples that fit some bucket. */
  function CountKept(buckets: seq<Bucket>, exs: seq<Example>): nat
    decreases |exs|
  {
    if |exs| == 0 then 0
    else CountKept(buckets, exs[..|exs| - 1]) + (if ClassifyExample(buckets, exs[|exs| - 1]).Some? then 1 else 0)
  }

  /** Total size of pools `0 .. n-1`. */
  function SumOfLengths(buckets: seq<Bucket>, exs: seq<Example>, n: nat): nat
    decreases n
  {
    if n == 0 then 0 else SumOfLengths(buckets, exs, n - 1) + |Assigned(buckets, exs, n - 1)|
  }

  lemma {:induction false} PoolLengthsStep(buckets: seq<Bucket>, exs: seq<Example>, n: nat)
    requires |exs| > 0 && n <= |buckets|
    ensures var c := ClassifyExample(buckets, exs[|exs| - 1]);
      SumOfLengths(buckets, exs, n) ==
        SumOfLengths(buckets, exs[..|exs| - 1], n) + (if c.Some? && c.value < n then 1 else 0)
    decreases n
  {
    if n > 0 {
      PoolLengthsStep(buckets, exs, n - 1);
    }
  }

}
