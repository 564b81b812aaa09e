/** Training-time bucket sampling: the cumulative scale `_get_buckets` builds
    from the pool sizes (NMT.py lines 344-350) and the inverse-CDF lookup
    `_get_random_bucket` (lines 290-294).

    The scale is computed over exact reals; the uniform draw `random.random()`
    is the parameter `rand`, which lies in [0, 1). */
module Sampling {

  import opened Results

  /** `sum(sizes)`. */
  function Sum(sizes: seq<nat>): nat
    decreases |sizes|
  {
    if |sizes| == 0 then 0 else Sum(sizes[..|sizes| - 1]) + sizes[|sizes| - 1]
  }

  /** `sum(sizes[:i + 1])`. */
  function Prefix(sizes: seq<nat>, i: nat): nat
    requires i < |sizes|
  {
    Sum(sizes[..i + 1])
  }

  lemma {:induction false} PrefixStep(sizes: seq<nat>, i: nat)
    requires 0 < i < |sizes|
    ensures Prefix(sizes, i) == Prefix(sizes, i - 1) + sizes[i]
  {
    assert sizes[..i + 1][..i] == sizes[..i];
  }

  lemma {:induction false} PrefixMonotone(sizes: seq<nat>, i: nat, j: nat)
    requires i <= j < |sizes|
    ensures Prefix(sizes, i) <= Prefix(sizes, j)
    decreases j - i
  {
    if i < j {
      PrefixMonotone(sizes, i, j - 1);
      PrefixStep(sizes, j);
    }
  }

  lemma {:induction false} LastPrefixIsTotal(sizes: seq<nat>)
    requires |sizes| > 0
    ensures Prefix(sizes, |sizes| - 1) == Sum(sizes)
  {
    assert sizes[..|sizes|] == sizes;
  }

  /** The fraction of all examples held by buckets `0..i`. */
  function Share(sizes: seq<nat>, i: nat): real
    requires Sum(sizes) > 0 && i < |sizes|
  {
    Prefix(sizes, i) as real / Sum(sizes) as real
  }

  /** `train_buckets_scale`: a cumulative distribution proportional to the
      pool sizes.  It never decreases, stays in [0, 1], ends at exactly 1, and
      each step adds that bucket's share of the examples.  A zero total would
      divide by zero and is excluded. */
  function Scale(sizes: seq<nat>): (scale: seq<real>)
    requires Sum(sizes) > 0
    ensures |scale| == |sizes| > 0
    ensures scale[|scale| - 1] == 1.0
    ensures forall i :: 0 <= i < |scale| ==> 0.0 <= scale[i] <= 1.0
    ensures forall i, j :: 0 <= i <= j < |scale| ==> scale[i] <= scale[j]
    ensures scale[0] == sizes[0] as real / Sum(sizes) as real
    ensures forall i :: 0 < i < |scale| ==> scale[i] - scale[i - 1] == sizes[i] as real / Sum(sizes) as real
  {
    ShareEnds(sizes);
    ShareMonotone(sizes);
    ShareSteps(sizes);
    seq(|sizes|, i requires 0 <= i < |sizes| => Share(sizes, i))
  }

  lemma {:induction false} ShareEnds(sizes: seq<nat>)
    requires Sum(sizes) > 0
    ensures |sizes| > 0
    ensures Share(sizes, |sizes| - 1) == 1.0
    ensures Share(sizes, 0) == sizes[0] as real / Sum(sizes) as real
  {
    var total := Sum(sizes) as real;
    assert |sizes| > 0;
    LastPrefixIsTotal(sizes);
    SelfDivision(total);
    FirstPrefix(sizes);
  }

  lemma SelfDivision(d: real)
    requires d > 0.0
    ensures d / d == 1.0
  {
  }

  lemma {:induction false} FirstPrefix(sizes: seq<nat>)
    requires |sizes| > 0
    ensures Prefix(sizes, 0) == sizes[0]
  {
    var one := sizes[..1];
    assert one[..0] == [];
    assert Sum(one) == Sum(one[..0]) + one[0];
  }

  lemma {:induction false} ShareMonotone(sizes: seq<nat>)
    requires Sum(sizes) > 0
    ensures forall i :: 0 <= i < |sizes| ==> 0.0 <= Share(sizes, i) <= 1.0
    ensures forall i, j :: 0 <= i <= j < |sizes| ==> Share(sizes, i) <= Share(sizes, j)
  {
    var total := Sum(sizes) as real;
    assert |sizes| > 0;
    LastPrefixIsTotal(sizes);
    forall i, j | 0 <= i <= j < |sizes|
      ensures Share(sizes, i) <= Share(sizes, j)
    {
      PrefixMonotone(sizes, i, j);
      DivideMonotone(Prefix(sizes, i) as real, Prefix(sizes, j) as real, total);
    }
    forall i | 0 <= i < |sizes|
      ensures 0.0 <= Share(sizes, i) <= 1.0
    {
      PrefixMonotone(sizes, i, |sizes| - 1);
      DivideMonotone(Prefix(sizes, i) as real, total, total);
      SelfDivision(total);
    }
  }

  lemma {:induction false} ShareSteps(sizes: seq<nat>)
    requires Sum(sizes) > 0
    ensures forall i :: 0 < i < |sizes| ==> Share(sizes, i) - Share(sizes, i - 1) == sizes[i] as real / Sum(sizes) as real
  {
    var total := Sum(sizes) as real;
    forall i | 0 < i < |sizes|
      ensures Share(sizes, i) - Share(sizes, i - 1) == sizes[i] as real / total
    {
      PrefixStep(sizes, i);
      DivideSubtracts(Prefix(sizes, i - 1) as real, sizes[i] as real, total);
    }
  }

  lemma DivideMonotone(a: real, b: real, d: real)
    requires 0.0 <= a <= b && d > 0.0
    ensures 0.0 <= a / d <= b / d
  {
    assert b / d - a / d == (b - a) / d;
  }

  lemma DivideSubtracts(a: real, b: real, d: real)
    requires d > 0.0
    ensures (a + b) / d - a / d == b / d
  {
  }

  function FirstAbove(scale: seq<real>, rand: real, k: nat): (r: Option<nat>)
    requires k <= |scale|
    ensures r.Some? ==> k <= r.value < |scale| && rand < scale[r.value]
    ensures r.Some? ==> forall j :: k <= j < r.value ==> scale[j] <= rand
    ensures r.None? ==> forall j :: k <= j < |scale| ==> scale[j] <= rand
    decreases |scale| - k
  {
    if k == |scale| then None
    else if scale[k] > rand then Some(k)
    else FirstAbove(scale, rand, k + 1)
  }

  /** `_get_random_bucket`: the least index whose cumulative fraction exceeds
      the draw; the `min` of an empty list raises, modelled as None. */
  function RandomBucket(scale: seq<real>, rand: real): (r: Option<nat>)
    ensures r.Some? ==> r.value < |scale| && rand < scale[r.value]
    ensures r.Some? ==> forall j :: 0 <= j < r.value ==> scale[j] <= rand
    ensures r.None? <==> forall j :: 0 <= j < |scale| ==> scale[j] <= rand
  {
    FirstAbove(scale, rand, 0)
  }

  /** Over a proper scale every draw in [0, 1) selects bucket `i` exactly when
      it falls in `[scale[i-1], scale[i])` (with `scale[-1]` read as 0), an
      interval as wide as bucket `i`'s share of the examples. */
  lemma {:induction false} SampledBucketInterval(sizes: seq<nat>, rand: real, i: nat)
    requires Sum(sizes) > 0
    requires 0.0 <= rand < 1.0
    ensures var scale := Scale(sizes);
      RandomBucket(scale, rand) == Some(i) <==>
        i < |scale| && (i == 0 || scale[i - 1] <= rand) && rand < scale[i]
  {
    var scale := Scale(sizes);
    var r := RandomBucket(scale, rand);
    if i < |scale| && (i == 0 || scale[i - 1] <= rand) && rand < scale[i] {
      assert !(scale[|scale| - 1] <= rand);
    }
  }

  /** The sampled bucket always exists and always holds an example, so the
      draw from its pool that follows in `train` cannot fail. */
  lemma {:induction false} SampledBucketNonEmpty(sizes: seq<nat>, rand: real)
    requires Sum(sizes) > 0
    requires 0.0 <= rand < 1.0
    ensures RandomBucket(Scale(sizes), rand).Some?
    ensures sizes[RandomBucket(Scale(sizes), rand).value] > 0
  {
    var scale := Scale(sizes);
    assert !(scale[|scale| - 1] <= rand);
    var i := RandomBucket(scale, rand).value;
    var total := Sum(sizes) as real;
    if i == 0 {
      assert sizes[0] as real / total > 0.0;
    } else {
      assert scale[i] - scale[i - 1] > 0.0;
      assert sizes[i] as real / total > 0.0;
    }
  }

}
