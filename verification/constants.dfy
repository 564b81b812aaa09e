/** Reserved vocabulary ids and entries, and the bucket catalogue the
    translator is built around (NMT.py lines 21-27, 168-171). */
module Constants {

  const PAD_ID: int := 0
  const UNK_ID: int := 1
  const START_ID: int := 2
  const EOS_ID: int := 3

  /** The first four lines of every vocabulary file, in this order.  The end
      token is spelled with a backslash, `<\s>`, both where it is written and
      where it is looked up. */
  const PAD_TOKEN: string := "<pad>"
  const UNK_TOKEN: string := "<unk>"
  const START_TOKEN: string := "<s>"
  const EOS_TOKEN: string := "<\\s>"

  const RESERVED_TOKENS: seq<string> := [PAD_TOKEN, UNK_TOKEN, START_TOKEN, EOS_TOKEN]

  /** A capacity class: the longest source and the longest target it holds. */
  datatype Bucket = Bucket(encoderSize: nat, decoderSize: nat)

  const BUCKETS: seq<Bucket> :=
    [Bucket(19, 19), Bucket(28, 28), Bucket(33, 33), Bucket(40, 43), Bucket(50, 53), Bucket(60, 63)]

  /** Both capacities grow (weakly) along the catalogue. */
  predicate Ascending(buckets: seq<Bucket>) {
    forall i, j :: 0 <= i <= j < |buckets| ==>
      buckets[i].encoderSize <= buckets[j].encoderSize && buckets[i].decoderSize <= buckets[j].decoderSize
  }

  /** The shipped catalogue is non-empty and ascending, and its last bucket has
      the largest source capacity, 60. */
  lemma BucketsWellFormed()
    ensures |BUCKETS| == 6
    ensures Ascending(BUCKETS)
    ensures forall b :: 0 <= b < |BUCKETS| ==> BUCKETS[b].encoderSize <= BUCKETS[|BUCKETS| - 1].encoderSize == 60
  {
  }

  /** The reserved ids are the positions of the reserved entries in the vocabulary file. */
  lemma ReservedIdsArePositions()
    ensures RESERVED_TOKENS[PAD_ID] == PAD_TOKEN && RESERVED_TOKENS[UNK_ID] == UNK_TOKEN
    ensures RESERVED_TOKENS[START_ID] == START_TOKEN && RESERVED_TOKENS[EOS_ID] == EOS_TOKEN
  {
  }

}
