/** Token-to-id conversion: the in-memory core of `load_vocab` (NMT.py lines
    185-188), `sentence2id` (lines 191-192) and the id line `token2id` writes
    for one input line (lines 207-215). */
module Vocabulary {

  import opened Results
  import opened Constants
  import Tokenizer

  /** The dictionary `{words[i]: i}`: a word listed twice keeps the later index. */
  function VocabMap(words: seq<string>): (vocab: map<string, int>)
    ensures forall w :: w in vocab <==> w in words
    ensures forall w :: w in vocab ==> 0 <= vocab[w] < |words| && words[vocab[w]] == w
    decreases |words|
  {
    if |words| == 0 then map[]
    else VocabMap(words[..|words| - 1])[words[|words| - 1] := |words| - 1]
  }

  /** A word listed more than once maps to its last position. */
  lemma {:induction false} LaterIndexWins(words: seq<string>)
    ensures var vocab := VocabMap(words);
      forall w, j :: w in vocab && vocab[w] < j < |words| ==> words[j] != w
    ensures forall i :: 0 <= i < |words| ==> i <= VocabMap(words)[words[i]]
    decreases |words|
  {
    if |words| > 0 {
      var init := words[..|words| - 1];
      LaterIndexWins(init);
      assert forall i :: 0 <= i < |init| ==> init[i] == words[i];
    }
  }

  /** `vocab.get(token, vocab['<unk>'])` for every token; the fallback is
      looked up eagerly, so a missing `<unk>` fails as soon as there is a token. */
  function LookupAll(vocab: map<string, int>, tokens: seq<string>): (r: Option<seq<int>>)
    ensures r.None? <==> |tokens| > 0 && UNK_TOKEN !in vocab
    ensures r.Some? ==> |r.value| == |tokens|
    ensures r.Some? ==> forall i :: 0 <= i < |tokens| ==>
      r.value[i] == (if tokens[i] in vocab then vocab[tokens[i]] else vocab[UNK_TOKEN])
    decreases |tokens|
  {
    if |tokens| == 0 then Some([])
    else if UNK_TOKEN !in vocab then None
    else
      var id := if tokens[0] in vocab then vocab[tokens[0]] else vocab[UNK_TOKEN];
      match LookupAll(vocab, tokens[1..])
      case None => None
      case Some(rest) => Some([id] + rest)
  }

  /** `sentence2id`: one id per token of `basic_tokenizer(line)` (digits
      normalised), the token's own id or `<unk>`'s. */
  function SentenceToIds(vocab: map<string, int>, line: string): (r: Option<seq<int>>)
    ensures var tokens := Tokenizer.BasicTokenizer(line, true);
      && (r.None? <==> |tokens| > 0 && UNK_TOKEN !in vocab)
      && (r.Some? ==> |r.value| == |tokens|)
      && (r.Some? ==> forall i :: 0 <= i < |tokens| ==>
            r.value[i] == (if tokens[i] in vocab then vocab[tokens[i]] else vocab[UNK_TOKEN]))
  {
    LookupAll(vocab, Tokenizer.BasicTokenizer(line, true))
  }

  /** The ids `token2id` writes for one line: target-side (`vi`) lines are
      framed by the ids of `<s>` and `<\s>`, other lines are not. */
  function LineToIds(vocab: map<string, int>, line: string, mode: string): (r: Option<seq<int>>)
    ensures mode != "vi" ==> r == SentenceToIds(vocab, line)
    ensures mode == "vi" ==>
      (r.Some? <==> START_TOKEN in vocab && EOS_TOKEN in vocab && SentenceToIds(vocab, line).Some?)
    ensures mode == "vi" && r.Some? ==>
      && |r.value| == |SentenceToIds(vocab, line).value| + 2
      && r.value[0] == vocab[START_TOKEN]
      && r.value[|r.value| - 1] == vocab[EOS_TOKEN]
      && r.value[1..|r.value| - 1] == SentenceToIds(vocab, line).value
  {
    if mode == "vi" then
      if START_TOKEN !in vocab then None
      else
        match SentenceToIds(vocab, line)
        case None => None
        case Some(ids) =>
          if EOS_TOKEN !in vocab then None
          else Some([vocab[START_TOKEN]] + ids + [vocab[EOS_TOKEN]])
    else SentenceToIds(vocab, line)
  }

  // ---------------------------------------------------------------------------
  // Vocabulary files as `build_vocab` writes them
  // ---------------------------------------------------------------------------

  /** The four reserved entries first, then tokenizer output only. */
  predicate WellFormedVocabulary(words: seq<string>) {
    && |words| >= 4
    && words[..4] == RESERVED_TOKENS
    && forall i :: 4 <= i < |words| ==> Tokenizer.IsToken(words[i])
  }

  lemma ReservedPositions(words: seq<string>)
    requires WellFormedVocabulary(words)
    ensures var vocab := VocabMap(words);
      && UNK_TOKEN in vocab && vocab[UNK_TOKEN] == UNK_ID
      && START_TOKEN in vocab && vocab[START_TOKEN] == START_ID
      && EOS_TOKEN in vocab && vocab[EOS_TOKEN] == EOS_ID
      && PAD_TOKEN in vocab && vocab[PAD_TOKEN] == PAD_ID
  {
    ReservedIdsArePositions();
    ReservedAt(words, PAD_ID);
    ReservedAt(words, UNK_ID);
    ReservedAt(words, START_ID);
    ReservedAt(words, EOS_ID);
  }

  /** A reserved word keeps its position: no later entry repeats it. */
  lemma ReservedAt(words: seq<string>, k: nat)
    requires WellFormedVocabulary(words)
    requires k < 4
    ensures words[k] == RESERVED_TOKENS[k]
    ensures words[k] in VocabMap(words) && VocabMap(words)[words[k]] == k
  {
    var vocab := VocabMap(words);
    var w := words[k];
    assert w == RESERVED_TOKENS[k] by {
      assert words[..4][k] == w;
    }
    var j := vocab[w];
    LaterIndexWins(words);
    if j >= 4 {
      ReservedNotToken(k);
    } else if j != k {
      ReservedDistinct(k, j);
    }
  }

  /** The reserved words differ in their second character. */
  lemma ReservedDistinct(i: nat, j: nat)
    requires i < 4 && j < 4 && i != j
    ensures RESERVED_TOKENS[i] != RESERVED_TOKENS[j]
  {
    assert RESERVED_TOKENS[i][1] != RESERVED_TOKENS[j][1];
  }

  /** Every reserved word opens with `<`, a separator, and is longer than one
      character, so the tokenizer never produces it. */
  lemma ReservedNotToken(k: nat)
    requires k < 4
    ensures !Tokenizer.IsToken(RESERVED_TOKENS[k])
  {
    var t := RESERVED_TOKENS[k];
    assert |t| > 1 && t[0] == '<';
    assert Tokenizer.IsSeparator(t[0]);
  }

  /** Looking every id up again in the word list gives back the token when the
      vocabulary knows it and `<unk>` when it does not; no id is a reserved id
      other than `<unk>`'s. */
  lemma IdsNameTheirTokens(words: seq<string>, line: string)
    requires WellFormedVocabulary(words)
    ensures var tokens := Tokenizer.BasicTokenizer(line, true);
      var r := SentenceToIds(VocabMap(words), line);
      && r.Some?
      && forall i :: 0 <= i < |tokens| ==>
           && 0 <= r.value[i] < |words|
           && words[r.value[i]] == (if tokens[i] in words then tokens[i] else UNK_TOKEN)
           && (r.value[i] == UNK_ID || r.value[i] >= 4)
  {
    var tokens := Tokenizer.BasicTokenizer(line, true);
    ReservedPositions(words);
    forall i | 0 <= i < |tokens|
      ensures IdNamesToken(words, tokens[i])
    {
      TokenIdNamesToken(words, tokens[i]);
    }
  }

  /** The id `sentence2id` gives one token names it, or `<unk>`. */
  predicate IdNamesToken(words: seq<string>, token: string)
    requires WellFormedVocabulary(words)
    requires UNK_TOKEN in VocabMap(words)
  {
    var vocab := VocabMap(words);
    var id := if token in vocab then vocab[token] else vocab[UNK_TOKEN];
    && 0 <= id < |words|
    && words[id] == (if token in words then token else UNK_TOKEN)
    && (id == UNK_ID || id >= 4)
  }

  lemma TokenIdNamesToken(words: seq<string>, token: string)
    requires WellFormedVocabulary(words)
    requires Tokenizer.IsToken(token)
    ensures UNK_TOKEN in VocabMap(words)
    ensures IdNamesToken(words, token)
  {
    var vocab := VocabMap(words);
    ReservedPositions(words);
    if token in vocab {
      var j := vocab[token];
      if j < 4 {
        assert words[j] == RESERVED_TOKENS[j];
        Tokenizer.ReservedAreNotTokens(token);
      }
    }
  }

  /** With a vocabulary laid out as `build_vocab` writes it, every target id
      line starts with START_ID, ends with EOS_ID, and holds neither PAD_ID nor
      EOS_ID in between. */
  lemma TargetLinesAreFramed(words: seq<string>, line: string)
    requires WellFormedVocabulary(words)
    ensures var r := LineToIds(VocabMap(words), line, "vi");
      && r.Some?
      && |r.value| >= 2
      && r.value[0] == START_ID
      && r.value[|r.value| - 1] == EOS_ID
      && forall i :: 0 < i < |r.value| - 1 ==> r.value[i] != PAD_ID && r.value[i] != EOS_ID
  {
    ReservedPositions(words);
    IdsNameTheirTokens(words, line);
    var r := LineToIds(VocabMap(words), line, "vi").value;
    var ids := SentenceToIds(VocabMap(words), line).value;
    forall i | 0 < i < |r| - 1
      ensures r[i] != PAD_ID && r[i] != EOS_ID
    {
      assert r[i] == r[1..|r| - 1][i - 1] == ids[i - 1];
    }
  }

}
