/** Greedy-decode post-processing, `_construct_response` (NMT.py lines
    366-372): the per-step argmax ids, which are given rather than computed
    from logits, are cut at the first EOS id and joined into text through the
    inverse vocabulary. */
module Decoding {

  import opened Results
  import opened Constants
  import Tokenizer
  import Vocabulary

  /** `xs.index(x)`: the first position holding `x`. */
  function FirstIndex(xs: seq<int>, x: int): (k: nat)
    requires x in xs
    ensures k < |xs| && xs[k] == x
    ensures forall j :: 0 <= j < k ==> xs[j] != x
    decreases |xs|
  {
    if xs[0] == x then 0 else 1 + FirstIndex(xs[1..], x)
  }

  /** Lines 369-370: keep what comes before the first EOS id, or everything
      when there is none. */
  function TruncateAtEos(ids: seq<int>): (kept: seq<int>)
    ensures |kept| <= |ids| && kept == ids[..|kept|]
    ensures EOS_ID !in kept
    ensures EOS_ID !in ids ==> kept == ids
    ensures EOS_ID in ids ==> |kept| < |ids| && ids[|kept|] == EOS_ID
  {
    if EOS_ID in ids then ids[..FirstIndex(ids, EOS_ID)] else ids
  }

  /** Cutting again changes nothing. */
  lemma TruncateIdempotent(ids: seq<int>)
    ensures TruncateAtEos(TruncateAtEos(ids)) == TruncateAtEos(ids)
  {
  }

  /** `" ".join(words)`. */
  function Join(words: seq<string>): string
    decreases |words|
  {
    if |words| == 0 then ""
    else if |words| == 1 then words[0]
    else words[0] + " " + Join(words[1..])
  }

  /** The joined text holds the words' characters and one space between each
      pair of neighbours, and nothing else: it starts with the first word and
      its length is the words' total plus one per gap. */
  lemma {:induction false} JoinLength(words: seq<string>)
    ensures |words| == 0 ==> Join(words) == ""
    ensures |words| > 0 ==> words[0] <= Join(words)
    ensures |words| > 0 ==> |Join(words)| == |Tokenizer.Concat(words)| + |words| - 1
    decreases |words|
  {
    if |words| > 1 {
      JoinLength(words[1..]);
    }
  }

  /** Line 372: the inverse-vocabulary word of every kept id, joined by
      spaces.  An id beyond the word list raises IndexError, modelled as None. */
  function ConstructResponse(ids: seq<nat>, invVocab: seq<string>): (r: Option<string>)
    ensures var kept := TruncateAtEos(ids);
      r.Some? <==> forall i :: 0 <= i < |kept| ==> kept[i] < |invVocab|
  {
    var kept := TruncateAtEos(ids);
    if forall i :: 0 <= i < |kept| ==> kept[i] < |invVocab| then Some(Join(KeptWords(ids, invVocab)))
    else None
  }

  /** The words of the kept ids, in order. */
  function KeptWords(ids: seq<nat>, invVocab: seq<string>): (ws: seq<string>)
    requires forall i :: 0 <= i < |TruncateAtEos(ids)| ==> TruncateAtEos(ids)[i] < |invVocab|
    ensures |ws| == |TruncateAtEos(ids)|
  {
    seq(|TruncateAtEos(ids)|, i requires 0 <= i < |TruncateAtEos(ids)| => invVocab[ids[i]])
  }

  /** Splitting a joined text on whitespace gives the words back, provided
      none is empty or holds whitespace. */
  lemma {:induction false} SplitUndoesJoin(words: seq<string>)
    requires forall i :: 0 <= i < |words| ==> |words[i]| > 0
    requires forall i, j :: 0 <= i < |words| && 0 <= j < |words[i]| ==> !Tokenizer.IsSpace(words[i][j])
    ensures Tokenizer.Words(Join(words)) == words
    decreases |words|
  {
    if |words| == 1 {
      Tokenizer.WordsOfSingleWord(words[0]);
    } else if |words| > 1 {
      SplitUndoesJoin(words[1..]);
      Tokenizer.WordsOfSingleWord(words[0]);
      Tokenizer.WordsSpaceJoin(words[0], Join(words[1..]));
    }
  }

  /** When the inverse vocabulary holds only non-empty whitespace-free words
      (as every vocabulary `build_vocab` writes does), the response splits back
      into exactly one word per id before the first EOS: the split the
      evaluation applies to every response recovers the decoded words. */
  lemma ResponseSplitsIntoKeptWords(ids: seq<nat>, invVocab: seq<string>)
    requires forall i :: 0 <= i < |invVocab| ==> |invVocab[i]| > 0
    requires forall i, j :: 0 <= i < |invVocab| && 0 <= j < |invVocab[i]| ==> !Tokenizer.IsSpace(invVocab[i][j])
    requires ConstructResponse(ids, invVocab).Some?
    ensures Tokenizer.Words(ConstructResponse(ids, invVocab).value) == KeptWords(ids, invVocab)
    ensures forall i :: 0 <= i < |KeptWords(ids, invVocab)| ==> KeptWords(ids, invVocab)[i] == invVocab[ids[i]]
    ensures EOS_ID in ids ==> |KeptWords(ids, invVocab)| == FirstIndex(ids, EOS_ID)
  {
    var ws := KeptWords(ids, invVocab);
    SplitUndoesJoin(ws);
  }

  /** The inverse vocabulary `load_vocab` returns for a file `build_vocab`
      wrote meets the condition above, so every response over it splits back
      into its decoded words. */
  lemma WellFormedResponseSplits(words: seq<string>, ids: seq<nat>)
    requires Vocabulary.WellFormedVocabulary(words)
    requires ConstructResponse(ids, words).Some?
    ensures Tokenizer.Words(ConstructResponse(ids, words).value) == KeptWords(ids, words)
  {
    forall i | 0 <= i < |words|
      ensures |words[i]| > 0
      ensures forall j :: 0 <= j < |words[i]| ==> !Tokenizer.IsSpace(words[i][j])
    {
      if i < 4 {
        assert words[i] == RESERVED_TOKENS[i];
      }
    }
    ResponseSplitsIntoKeptWords(ids, words);
  }

}
