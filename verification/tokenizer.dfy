/** `basic_tokenizer` (NMT.py lines 135-152): strip the `<u>`, `</u>`, `[` and
    `]` markup, lower-case, split on whitespace, split every fragment around
    the punctuation class `[.,!?"'-<>:;)(]` keeping each separator as a token
    of its own, and optionally turn every digit into `#`.

    Characters are classified as Python classifies ASCII; characters beyond
    ASCII are treated as ordinary word characters. */
module Tokenizer {

  /** Python's `str.isspace` on ASCII: space, `\t \n \v \f \r` (9-13) and the
      information separators 0x1C-0x1F, all of which `str.split()` splits on. */
  predicate IsSpace(c: char) {
    c == ' ' || ('\t' <= c <= '\r') || ('\U{1C}' <= c <= '\U{1F}')
  }

  /** Membership in the class `[.,!?"'-<>:;)(]`.  Inside it `'-<` is a range,
      0x27 to 0x3C, so `* + - /`, the ten digits, `:`, `;` and `<` separate
      too. */
  predicate IsSeparator(c: char) {
    c == '.' || c == ',' || c == '!' || c == '?' || c == '"' || ('\'' <= c <= '<')
    || c == '>' || c == ':' || c == ';' || c == ')' || c == '('
  }

  predicate IsDigit(c: char) {
    '0' <= c <= '9'
  }

  /** A character that may occur in a token: no whitespace and no square bracket. */
  predicate Clear(c: char) {
    !IsSpace(c) && c != '[' && c != ']'
  }

  /** What every token looks like: non-empty, clear, and either a single
      character or a run without separators. */
  predicate IsToken(t: string) {
    && |t| > 0
    && (forall j :: 0 <= j < |t| ==> Clear(t[j]))
    && (|t| > 1 ==> forall j :: 0 <= j < |t| ==> !IsSeparator(t[j]))
  }

  // ---------------------------------------------------------------------------
  // Markup removal
  // ---------------------------------------------------------------------------

  /** `s` begins with `pat`. */
  predicate StartsWith(s: string, pat: string) {
    |pat| <= |s| && s[..|pat|] == pat
  }

  /** `re.sub(pat, '', s)` for a literal pattern: scanning left to right, every
      match is dropped and scanning resumes after it. */
  function RemoveAll(s: string, pat: string): (r: string)
    requires |pat| > 0
    ensures |r| <= |s|
    ensures forall i :: 0 <= i < |r| ==> r[i] in s
    ensures |pat| == 1 ==> pat[0] !in r
    decreases |s|
  {
    if |s| == 0 then []
    else if StartsWith(s, pat) then RemoveAll(s[|pat|..], pat)
    else [s[0]] + RemoveAll(s[1..], pat)
  }

  /** Removing a single character keeps every other character, as often as it occurred. */
  lemma {:induction false} RemoveCharKeepsOthers(s: string, c: char)
    ensures multiset(RemoveAll(s, [c])) == multiset(s)[c := 0]
    decreases |s|
  {
    if |s| > 0 {
      RemoveCharKeepsOthers(s[1..], c);
      assert s == [s[0]] + s[1..];
      assert multiset(s) == multiset{s[0]} + multiset(s[1..]);
      if StartsWith(s, [c]) {
        assert s[0] == c;
        RemoveAllDropsMatch(s, [c]);
      } else {
        RemoveAllKeepsHead(s, [c]);
      }
    }
  }

  /** The four substitutions of lines 138-141, in their order. */
  function Clean(line: string): (r: string)
    ensures forall i :: 0 <= i < |r| ==> r[i] in line && r[i] != '[' && r[i] != ']'
  {
    var noBrackets := RemoveAll(RemoveAll(RemoveAll(line, "<u>"), "</u>"), "[");
    RemoveAll(noBrackets, "]")
  }

  // ---------------------------------------------------------------------------
  // strip, lower, split
  // ---------------------------------------------------------------------------

  /** Number of whitespace characters `s` starts with. */
  function LeadingSpaces(s: string): (n: nat)
    ensures n <= |s|
    ensures forall i :: 0 <= i < n ==> IsSpace(s[i])
    ensures n < |s| ==> !IsSpace(s[n])
    decreases |s|
  {
    if |s| > 0 && IsSpace(s[0]) then 1 + LeadingSpaces(s[1..]) else 0
  }

  /** Number of whitespace characters `s` ends with. */
  function TrailingSpaces(s: string): (n: nat)
    ensures n <= |s|
    ensures forall i :: |s| - n <= i < |s| ==> IsSpace(s[i])
    ensures n < |s| ==> !IsSpace(s[|s| - n - 1])
    decreases |s|
  {
    if |s| > 0 && IsSpace(s[|s| - 1]) then 1 + TrailingSpaces(s[..|s| - 1]) else 0
  }

  /** `str.lstrip()`: what follows the leading whitespace. */
  function StripLeft(s: string): string {
    s[LeadingSpaces(s)..]
  }

  /** `str.rstrip()`: what precedes the trailing whitespace. */
  function StripRight(s: string): string {
    s[..|s| - TrailingSpaces(s)]
  }

  /** `str.strip()`: whitespace removed from both ends. */
  function Strip(s: string): (r: string)
    ensures |r| <= |s|
    ensures |r| > 0 ==> !IsSpace(r[0]) && !IsSpace(r[|r| - 1])
  {
    StripRight(StripLeft(s))
  }

  /** `Strip(s)` is the slice of `s` left once the whitespace before and after
      it is dropped: everything outside the slice is whitespace. */
  lemma StripIsTrimmedSlice(s: string)
    ensures var r := Strip(s);
      var start := |s| - |StripLeft(s)|;
      && start + |r| <= |s|
      && r == s[start..start + |r|]
      && (forall i :: 0 <= i < start ==> IsSpace(s[i]))
      && (forall i :: start + |r| <= i < |s| ==> IsSpace(s[i]))
  {
    var left := StripLeft(s);
    var start := |s| - |StripLeft(s)|;
    forall i | start + |Strip(s)| <= i < |s|
      ensures IsSpace(s[i])
    {
      assert s[i] == left[i - start];
    }
  }

  function LowerChar(c: char): char {
    if 'A' <= c <= 'Z' then (c as int + 32) as char else c
  }

  /** `str.lower()` on ASCII letters. */
  function Lower(s: string): (r: string)
    ensures |r| == |s|
    ensures forall i {:trigger r[i]} :: 0 <= i < |s| ==> r[i] == LowerChar(s[i])
  {
    seq(|s|, i requires 0 <= i < |s| => LowerChar(s[i]))
  }

  /** Length of the longest prefix of `s` free of whitespace. */
  function WordLen(s: string): (n: nat)
    ensures n <= |s|
    ensures forall i :: 0 <= i < n ==> !IsSpace(s[i])
    ensures n < |s| ==> IsSpace(s[n])
    decreases |s|
  {
    if |s| == 0 || IsSpace(s[0]) then 0 else 1 + WordLen(s[1..])
  }

  /** `str.split()` with no separator: the maximal whitespace-free runs, in order. */
  function Words(s: string): (ws: seq<string>)
    ensures forall i :: 0 <= i < |ws| ==> |ws[i]| > 0
    ensures forall i, j :: 0 <= i < |ws| && 0 <= j < |ws[i]| ==> !IsSpace(ws[i][j]) && ws[i][j] in s
    decreases |s|
  {
    if |s| == 0 then []
    else if IsSpace(s[0]) then Words(s[1..])
    else
      var n := WordLen(s);
      [s[..n]] + Words(s[n..])
  }

  lemma {:induction false} WordLenOfWholeWord(w: string)
    requires forall j :: 0 <= j < |w| ==> !IsSpace(w[j])
    ensures WordLen(w) == |w|
    decreases |w|
  {
    if |w| > 0 {
      WordLenOfWholeWord(w[1..]);
    }
  }

  /** A non-empty whitespace-free string is a single word. */
  lemma {:induction false} WordsOfSingleWord(w: string)
    requires |w| > 0
    requires forall j :: 0 <= j < |w| ==> !IsSpace(w[j])
    ensures Words(w) == [w]
  {
    WordLenOfWholeWord(w);
    assert w[..|w|] == w;
    assert w[|w|..] == [];
  }

  // ---------------------------------------------------------------------------
  // Splitting a fragment around the separator class
  // ---------------------------------------------------------------------------

  /** Length of the longest prefix of `f` free of separators. */
  function RunLen(f: string): (n: nat)
    ensures n <= |f|
    ensures forall i :: 0 <= i < n ==> !IsSeparator(f[i])
    ensures n < |f| ==> IsSeparator(f[n])
    decreases |f|
  {
    if |f| == 0 || IsSeparator(f[0]) then 0 else 1 + RunLen(f[1..])
  }

  /** `re.split` with a capturing single-character class, empty pieces
      dropped: the separator-free runs and each separator, in order. */
  function SplitFragment(f: string): (ts: seq<string>)
    ensures forall i :: 0 <= i < |ts| ==> |ts[i]| > 0
    ensures forall i, j :: 0 <= i < |ts| && 0 <= j < |ts[i]| ==> ts[i][j] in f
    ensures forall i, j :: 0 <= i < |ts| && 0 <= j < |ts[i]| && |ts[i]| > 1 ==> !IsSeparator(ts[i][j])
    decreases |f|
  {
    if |f| == 0 then []
    else if IsSeparator(f[0]) then [[f[0]]] + SplitFragment(f[1..])
    else
      var n := RunLen(f);
      [f[..n]] + SplitFragment(f[n..])
  }

  /** `re.sub(r"\d", '#', token)`. */
  function NormalizeDigits(t: string): (r: string)
    ensures |r| == |t|
    ensures forall j :: 0 <= j < |t| ==> !IsDigit(r[j]) && (IsDigit(t[j]) || r[j] == t[j])
    ensures forall j :: 0 <= j < |t| && IsDigit(t[j]) ==> r[j] == '#'
  {
    seq(|t|, j requires 0 <= j < |t| => if IsDigit(t[j]) then '#' else t[j])
  }

  function Normalized(ts: seq<string>, normalizeDigits: bool): seq<string> {
    if normalizeDigits then seq(|ts|, i requires 0 <= i < |ts| => NormalizeDigits(ts[i])) else ts
  }

  /** The tokens of a list of fragments, fragment after fragment. */
  function TokensOf(frags: seq<string>, normalizeDigits: bool): seq<string>
    decreases |frags|
  {
    if |frags| == 0 then []
    else Normalized(SplitFragment(frags[0]), normalizeDigits) + TokensOf(frags[1..], normalizeDigits)
  }

  /** The whitespace fragments `basic_tokenizer` iterates over. */
  function Fragments(line: string): seq<string> {
    Words(Lower(Strip(Clean(line))))
  }

  function BasicTokenizer(line: string, normalizeDigits: bool): (tokens: seq<string>)
    ensures forall i :: 0 <= i < |tokens| ==> IsToken(tokens[i])
    ensures normalizeDigits ==> forall i, j :: 0 <= i < |tokens| && 0 <= j < |tokens[i]| ==> !IsDigit(tokens[i][j])
  {
    var frags := Fragments(line);
    FragmentsAreClear(line);
    TokensAreWellFormed(frags, normalizeDigits);
    TokensOf(frags, normalizeDigits)
  }

  // ---------------------------------------------------------------------------
  // Shape of the tokens
  // ---------------------------------------------------------------------------

  lemma FragmentsAreClear(line: string)
    ensures forall i, j :: 0 <= i < |Fragments(line)| && 0 <= j < |Fragments(line)[i]| ==> Clear(Fragments(line)[i][j])
  {
    var stripped := Strip(Clean(line));
    var lowered := Lower(stripped);
    forall k | 0 <= k < |lowered|
      ensures lowered[k] != '[' && lowered[k] != ']'
    {
      assert stripped[k] in Clean(line);
    }
  }

  lemma {:induction false} TokensAreWellFormed(frags: seq<string>, normalizeDigits: bool)
    requires forall i, j :: 0 <= i < |frags| && 0 <= j < |frags[i]| ==> Clear(frags[i][j])
    ensures forall i :: 0 <= i < |TokensOf(frags, normalizeDigits)| ==> IsToken(TokensOf(frags, normalizeDigits)[i])
    ensures normalizeDigits ==>
      forall i, j :: 0 <= i < |TokensOf(frags, normalizeDigits)| && 0 <= j < |TokensOf(frags, normalizeDigits)[i]| ==>
        !IsDigit(TokensOf(frags, normalizeDigits)[i][j])
    decreases |frags|
  {
    if |frags| > 0 {
      TokensAreWellFormed(frags[1..], normalizeDigits);
      var pieces := SplitFragment(frags[0]);
      forall i | 0 <= i < |pieces|
        ensures IsToken(pieces[i]) && IsToken(NormalizeDigits(pieces[i]))
      {
        var p := pieces[i];
        forall j | 0 <= j < |p| ensures Clear(p[j]) {
          assert p[j] in frags[0];
        }
        var q := NormalizeDigits(p);
        if |p| > 1 {
          forall j | 0 <= j < |p| ensures q[j] == p[j] {
            assert !IsSeparator(p[j]);
          }
        }
      }
    }
  }

  /** No token equals a reserved vocabulary entry: each of those is longer than
      one character and contains the separator `<`. */
  lemma ReservedAreNotTokens(t: string)
    requires IsToken(t)
    ensures t != "<pad>" && t != "<unk>" && t != "<s>" && t != "<\\s>"
  {
    if |t| > 1 {
      assert !IsSeparator(t[0]);
    }
  }

  // ---------------------------------------------------------------------------
  // Nothing but whitespace and markup is lost
  // ---------------------------------------------------------------------------

  function Concat(ts: seq<string>): string
    decreases |ts|
  {
    if |ts| == 0 then [] else ts[0] + Concat(ts[1..])
  }

  /** The non-whitespace characters of `s`, in order. */
  function Squeeze(s: string): string
    decreases |s|
  {
    if |s| == 0 then [] else (if IsSpace(s[0]) then [] else [s[0]]) + Squeeze(s[1..])
  }

  lemma {:induction false} ConcatAppend(a: seq<string>, b: seq<string>)
    ensures Concat(a + b) == Concat(a) + Concat(b)
    decreases |a|
  {
    if |a| > 0 {
      assert (a + b)[1..] == a[1..] + b;
      ConcatAppend(a[1..], b);
    } else {
      assert a + b == b;
    }
  }

  lemma {:induction false} SqueezeAppend(a: string, b: string)
    ensures Squeeze(a + b) == Squeeze(a) + Squeeze(b)
    decreases |a|
  {
    if |a| > 0 {
      assert (a + b)[1..] == a[1..] + b;
      SqueezeAppend(a[1..], b);
    } else {
      assert a + b == b;
    }
  }

  lemma {:induction false} SqueezeOfSpaceFree(s: string)
    requires forall i :: 0 <= i < |s| ==> !IsSpace(s[i])
    ensures Squeeze(s) == s
    decreases |s|
  {
    if |s| > 0 {
      SqueezeOfSpaceFree(s[1..]);
    }
  }

  lemma {:induction false} SplitFragmentConcat(f: string)
    ensures Concat(SplitFragment(f)) == f
    decreases |f|
  {
    if |f| == 0 {
      assert SplitFragment(f) == [];
    } else {
      var n := SplitFragmentStep(f);
      SplitFragmentConcat(f[n..]);
      SlicesRejoin(f, n, Concat(SplitFragment(f)), Concat(SplitFragment(f[n..])));
    }
  }

  lemma SlicesRejoin(f: string, n: nat, whole: string, rest: string)
    requires n <= |f| && whole == f[..n] + rest && rest == f[n..]
    ensures whole == f
  {
    assert f == f[..n] + f[n..];
  }

  /** One step of `SplitFragment` read through `Concat`: the first piece is
      the leading separator, or else the leading run, and the rest follows. */
  lemma SplitFragmentStep(f: string) returns (n: nat)
    requires |f| > 0
    ensures n == (if IsSeparator(f[0]) then 1 else RunLen(f))
    ensures 0 < n <= |f| && Concat(SplitFragment(f)) == f[..n] + Concat(SplitFragment(f[n..]))
  {
    n := if IsSeparator(f[0]) then 1 else RunLen(f);
    var head := [f[..n]];
    assert SplitFragment(f) == head + SplitFragment(f[n..]) by {
      if IsSeparator(f[0]) {
        assert [f[0]] == f[..1];
      }
    }
    ConcatAppend(head, SplitFragment(f[n..]));
    ConcatOfOne(f[..n]);
  }

  lemma ConcatOfOne(t: string)
    ensures Concat([t]) == t
  {
    assert [t][1..] == [];
  }

  lemma {:induction false} WordsConcat(s: string)
    ensures Concat(Words(s)) == Squeeze(s)
    decreases |s|
  {
    if |s| > 0 {
      if IsSpace(s[0]) {
        WordsConcat(s[1..]);
      } else {
        var n := WordLen(s);
        WordsConcat(s[n..]);
        assert s == s[..n] + s[n..];
        SqueezeAppend(s[..n], s[n..]);
        SqueezeOfSpaceFree(s[..n]);
      }
    }
  }

  lemma {:induction false} SqueezeOfSpaces(p: string)
    requires forall i :: 0 <= i < |p| ==> IsSpace(p[i])
    ensures Squeeze(p) == []
    decreases |p|
  {
    if |p| > 0 {
      SqueezeOfSpaces(p[1..]);
    }
  }

  /** Stripping loses only whitespace. */
  lemma SqueezeStrip(s: string)
    ensures Squeeze(Strip(s)) == Squeeze(s)
  {
    var r := Strip(s);
    var start := |s| - |StripLeft(s)|;
    StripIsTrimmedSlice(s);
    var pre, post := s[..start], s[start + |r|..];
    assert s == pre + r + post;
    SqueezeAppend(pre + r, post);
    SqueezeAppend(pre, r);
    SqueezeOfSpaces(pre);
    SqueezeOfSpaces(post);
  }

  lemma {:induction false} SqueezeLower(s: string)
    ensures Squeeze(Lower(s)) == Lower(Squeeze(s))
    decreases |s|
  {
    if |s| > 0 {
      SqueezeLower(s[1..]);
      assert Lower(s)[1..] == Lower(s[1..]);
      assert IsSpace(Lower(s)[0]) == IsSpace(s[0]);
      var head := if IsSpace(s[0]) then [] else [s[0]];
      assert Squeeze(s) == head + Squeeze(s[1..]);
      assert Lower(head + Squeeze(s[1..])) == Lower(head) + Lower(Squeeze(s[1..]));
    }
  }

  lemma {:induction false} TokensOfConcat(frags: seq<string>)
    ensures Concat(TokensOf(frags, false)) == Concat(frags)
    decreases |frags|
  {
    if |frags| > 0 {
      TokensOfConcat(frags[1..]);
      ConcatAppend(SplitFragment(frags[0]), TokensOf(frags[1..], false));
      SplitFragmentConcat(frags[0]);
    }
  }

  /** Gluing the tokens back together gives the cleaned, lower-cased line with
      its whitespace removed: the tokenizer only drops whitespace and markup. */
  lemma TokensReassembleLine(line: string)
    ensures Concat(BasicTokenizer(line, false)) == Lower(Squeeze(Clean(line)))
  {
    var c := Clean(line);
    TokensOfConcat(Fragments(line));
    WordsConcat(Lower(Strip(c)));
    SqueezeLower(Strip(c));
    SqueezeStrip(c);
  }

  lemma {:induction false} TokensOfNormalized(frags: seq<string>)
    ensures TokensOf(frags, true) == Normalized(TokensOf(frags, false), true)
    decreases |frags|
  {
    if |frags| > 0 {
      TokensOfNormalized(frags[1..]);
      NormalizedAppend(SplitFragment(frags[0]), TokensOf(frags[1..], false));
    }
  }

  lemma NormalizedAppend(a: seq<string>, b: seq<string>)
    ensures Normalized(a + b, true) == Normalized(a, true) + Normalized(b, true)
  {
  }

  /** Digit normalisation acts token by token: the same tokens, each with its
      digits replaced by `#`. */
  lemma NormalizationIsPerToken(line: string)
    ensures |BasicTokenizer(line, true)| == |BasicTokenizer(line, false)|
    ensures forall i :: 0 <= i < |BasicTokenizer(line, true)| ==>
      BasicTokenizer(line, true)[i] == NormalizeDigits(BasicTokenizer(line, false)[i])
  {
    TokensOfNormalized(Fragments(line));
  }

  // ---------------------------------------------------------------------------
  // Where a line splits
  // ---------------------------------------------------------------------------

  /** No markup pattern contains a space, so removal never reaches across one. */
  lemma {:induction false} RemoveAllSpaceJoin(a: string, b: string, pat: string)
    requires |pat| > 0 && ' ' !in pat
    ensures RemoveAll(a + " " + b, pat) == RemoveAll(a, pat) + " " + RemoveAll(b, pat)
    decreases |a|
  {
    if |a| == 0 {
      RemoveAllAtSpace(b, pat);
      assert a + " " + b == " " + b;
    } else if StartsWith(a + " " + b, pat) {
      MatchBeforeSpace(a, b, pat);
      RemoveAllSpaceJoin(a[|pat|..], b, pat);
      JoinAfterMatch(a, b, pat);
    } else {
      RemoveAllSpaceJoin(a[1..], b, pat);
      JoinAfterKeep(a, b, pat);
    }
  }

  /** The step of `RemoveAllSpaceJoin` where a match starts the text. */
  lemma JoinAfterMatch(a: string, b: string, pat: string)
    requires |pat| > 0 && StartsWith(a, pat)
    requires RemoveAll(a[|pat|..] + " " + b, pat) == RemoveAll(a[|pat|..], pat) + " " + RemoveAll(b, pat)
    ensures RemoveAll(a + " " + b, pat) == RemoveAll(a, pat) + " " + RemoveAll(b, pat)
  {
    var s := a + " " + b;
    assert StartsWith(s, pat) by {
      assert s[..|pat|] == a[..|pat|];
    }
    assert s[|pat|..] == a[|pat|..] + " " + b;
    assert RemoveAll(s, pat) == RemoveAll(s[|pat|..], pat);
    assert RemoveAll(a, pat) == RemoveAll(a[|pat|..], pat);
  }

  /** The step of `RemoveAllSpaceJoin` where the first character is kept. */
  lemma JoinAfterKeep(a: string, b: string, pat: string)
    requires |pat| > 0 && |a| > 0 && !StartsWith(a + " " + b, pat)
    requires RemoveAll(a[1..] + " " + b, pat) == RemoveAll(a[1..], pat) + " " + RemoveAll(b, pat)
    ensures RemoveAll(a + " " + b, pat) == RemoveAll(a, pat) + " " + RemoveAll(b, pat)
  {
    var s := a + " " + b;
    NoMatchBeforeSpace(a, b, pat);
    RemoveAllKeepsHead(s, pat);
    RemoveAllKeepsHead(a, pat);
    ConsBeforeSpace(a[0], RemoveAll(a[1..], pat), RemoveAll(b, pat));
  }

  lemma ConsBeforeSpace(c: char, x: string, y: string)
    ensures [c] + (x + " " + y) == [c] + x + " " + y
  {
  }

  /** Without a match at the front, the first character is kept. */
  lemma RemoveAllKeepsHead(s: string, pat: string)
    requires |pat| > 0 && |s| > 0 && !StartsWith(s, pat)
    ensures RemoveAll(s, pat) == [s[0]] + RemoveAll(s[1..], pat)
  {
  }

  /** A match at the front is dropped. */
  lemma RemoveAllDropsMatch(s: string, pat: string)
    requires |pat| > 0 && |s| > 0 && StartsWith(s, pat)
    ensures RemoveAll(s, pat) == RemoveAll(s[|pat|..], pat)
  {
  }

  lemma RemoveAllAtSpace(b: string, pat: string)
    requires |pat| > 0 && ' ' !in pat
    ensures RemoveAll(" " + b, pat) == " " + RemoveAll(b, pat)
  {
    var s := " " + b;
    if StartsWith(s, pat) {
      assert false;
    }
    assert s[1..] == b;
  }

  lemma MatchBeforeSpace(a: string, b: string, pat: string)
    requires |pat| > 0 && ' ' !in pat
    requires StartsWith(a + " " + b, pat)
    ensures StartsWith(a, pat)
    ensures (a + " " + b)[|pat|..] == a[|pat|..] + " " + b
  {
    var s := a + " " + b;
    if |pat| > |a| {
      PrefixAgrees(pat, s, |a|);
      assert false;
    }
    assert pat == a[..|pat|];
  }

  lemma NoMatchBeforeSpace(a: string, b: string, pat: string)
    requires |a| > 0 && |pat| > 0
    requires !StartsWith(a + " " + b, pat)
    ensures !StartsWith(a, pat)
    ensures (a + " " + b)[0] == a[0] && (a + " " + b)[1..] == a[1..] + " " + b
  {
    if StartsWith(a, pat) {
      assert false;
    }
  }

  lemma PrefixAgrees(p: string, s: string, k: int)
    requires StartsWith(s, p) && 0 <= k < |p|
    ensures p[k] == s[k] && s[k] in p
  {
  }

  lemma CleanSpaceJoin(a: string, b: string)
    ensures Clean(a + " " + b) == Clean(a) + " " + Clean(b)
  {
    RemoveAllSpaceJoin(a, b, "<u>");
    var a1, b1 := RemoveAll(a, "<u>"), RemoveAll(b, "<u>");
    RemoveAllSpaceJoin(a1, b1, "</u>");
    var a2, b2 := RemoveAll(a1, "</u>"), RemoveAll(b1, "</u>");
    RemoveAllSpaceJoin(a2, b2, "[");
    var a3, b3 := RemoveAll(a2, "["), RemoveAll(b2, "[");
    RemoveAllSpaceJoin(a3, b3, "]");
  }

  lemma LowerAppend(a: string, b: string)
    ensures Lower(a + b) == Lower(a) + Lower(b)
  {
  }

  lemma {:induction false} WordLenAppend(x: string, y: string)
    requires WordLen(x) < |x| || (|y| > 0 && IsSpace(y[0]))
    ensures WordLen(x + y) == WordLen(x)
    decreases |x|
  {
    if |x| > 0 && !IsSpace(x[0]) {
      assert (x + y)[1..] == x[1..] + y;
      WordLenAppend(x[1..], y);
    }
  }

  /** Leading whitespace does not change the words. */
  lemma {:induction false} WordsLeadingSpaces(p: string, y: string)
    requires forall i :: 0 <= i < |p| ==> IsSpace(p[i])
    ensures Words(p + y) == Words(y)
    decreases |p|
  {
    if |p| == 0 {
      assert p + y == y;
    } else {
      assert (p + y)[1..] == p[1..] + y;
      WordsLeadingSpaces(p[1..], y);
    }
  }

  /** Trailing whitespace does not change the words. */
  lemma {:induction false} WordsTrailingSpaces(x: string, q: string)
    requires forall i :: 0 <= i < |q| ==> IsSpace(q[i])
    ensures Words(x + q) == Words(x)
    decreases |x|
  {
    if |x| == 0 {
      assert x + q == q + [];
      WordsLeadingSpaces(q, []);
    } else if IsSpace(x[0]) {
      assert (x + q)[1..] == x[1..] + q;
      WordsTrailingSpaces(x[1..], q);
    } else if |q| == 0 {
      assert x + q == x;
    } else {
      var n := WordLen(x);
      WordLenAppend(x, q);
      assert (x + q)[..n] == x[..n];
      assert (x + q)[n..] == x[n..] + q;
      WordsTrailingSpaces(x[n..], q);
    }
  }

  /** Words do not run across whitespace: the split of `x + y`, when `y`
      starts with whitespace, is the split of `x` followed by that of `y`. */
  lemma {:induction false} WordsJoin(x: string, y: string)
    requires |y| > 0 && IsSpace(y[0])
    ensures Words(x + y) == Words(x) + Words(y)
    decreases |x|
  {
    if |x| == 0 {
      assert x + y == y;
    } else if IsSpace(x[0]) {
      assert (x + y)[1..] == x[1..] + y;
      WordsJoin(x[1..], y);
    } else {
      var n := WordLen(x);
      WordLenAppend(x, y);
      assert (x + y)[..n] == x[..n];
      assert (x + y)[n..] == x[n..] + y;
      WordsJoin(x[n..], y);
    }
  }

  /** `str.split()` of two texts joined by a space is the split of each, one
      after the other. */
  lemma WordsSpaceJoin(x: string, y: string)
    ensures Words(x + " " + y) == Words(x) + Words(y)
  {
    WordsJoin(x, " " + y);
    assert x + " " + y == x + (" " + y);
    assert (" " + y)[1..] == y;
  }

  /** Whitespace on both sides does not change the words. */
  lemma WordsOfPadded(pre: string, r: string, post: string)
    requires forall i :: 0 <= i < |pre| ==> IsSpace(pre[i])
    requires forall i :: 0 <= i < |post| ==> IsSpace(post[i])
    ensures Words(pre + r + post) == Words(r)
  {
    assert pre + r + post == pre + (r + post);
    WordsLeadingSpaces(pre, r + post);
    WordsTrailingSpaces(r, post);
  }

  /** `Lower` of a string padded with whitespace is `Lower` of the middle,
      padded with the same whitespace. */
  lemma LowerOfPadded(pre: string, r: string, post: string)
    ensures Lower(pre + r + post) == Lower(pre) + Lower(r) + Lower(post)
    ensures forall i :: 0 <= i < |pre| ==> (IsSpace(Lower(pre)[i]) <==> IsSpace(pre[i]))
    ensures forall i :: 0 <= i < |post| ==> (IsSpace(Lower(post)[i]) <==> IsSpace(post[i]))
  {
    LowerAppend(pre + r, post);
    LowerAppend(pre, r);
  }

  /** Stripping before `split()` changes nothing. */
  lemma StripInvisibleToSplit(c: string)
    ensures Words(Lower(Strip(c))) == Words(Lower(c))
  {
    var r := Strip(c);
    var start := |c| - |StripLeft(c)|;
    StripIsTrimmedSlice(c);
    var pre, post := c[..start], c[start + |r|..];
    assert c == pre + r + post;
    LowerOfPadded(pre, r, post);
    WordsOfPadded(Lower(pre), Lower(r), Lower(post));
  }

  /** The fragments are the words of the cleaned, lower-cased line. */
  lemma FragmentsIgnoreStrip(line: string)
    ensures Fragments(line) == Words(Lower(Clean(line)))
  {
    StripInvisibleToSplit(Clean(line));
  }

  lemma {:induction false} TokensOfAppend(f: seq<string>, g: seq<string>, normalizeDigits: bool)
    ensures TokensOf(f + g, normalizeDigits) == TokensOf(f, normalizeDigits) + TokensOf(g, normalizeDigits)
    decreases |f|
  {
    if |f| == 0 {
      assert f + g == g;
    } else {
      assert (f + g)[0] == f[0];
      assert (f + g)[1..] == f[1..] + g;
      TokensOfAppend(f[1..], g, normalizeDigits);
    }
  }

  /** The tokenizer splits a line at every space: the tokens of `a + " " + b`
      are the tokens of `a` followed by those of `b`. */
  lemma TokenizerSplitsAtSpace(a: string, b: string, normalizeDigits: bool)
    ensures BasicTokenizer(a + " " + b, normalizeDigits) ==
      BasicTokenizer(a, normalizeDigits) + BasicTokenizer(b, normalizeDigits)
  {
    FragmentsIgnoreStrip(a + " " + b);
    FragmentsIgnoreStrip(a);
    FragmentsIgnoreStrip(b);
    CleanSpaceJoin(a, b);
    var ca, cb := Clean(a), Clean(b);
    LowerAppend(ca + " ", cb);
    LowerAppend(ca, " ");
    assert Lower(" ") == " ";
    WordsSpaceJoin(Lower(ca), Lower(cb));
    TokensOfAppend(Words(Lower(ca)), Words(Lower(cb)), normalizeDigits);
  }

  lemma {:induction false} RunLenAppend(x: string, y: string)
    requires RunLen(x) < |x| || (|y| > 0 && IsSeparator(y[0]))
    ensures RunLen(x + y) == RunLen(x)
    decreases |x|
  {
    if |x| > 0 && !IsSeparator(x[0]) {
      assert (x + y)[1..] == x[1..] + y;
      RunLenAppend(x[1..], y);
    }
  }

  lemma {:induction false} RunLenOfRun(x: string)
    requires forall j :: 0 <= j < |x| ==> !IsSeparator(x[j])
    ensures RunLen(x) == |x|
    decreases |x|
  {
    if |x| > 0 {
      RunLenOfRun(x[1..]);
    }
  }

  /** A non-empty run without separators is a single piece. */
  lemma SplitFragmentOfRun(x: string)
    requires |x| > 0
    requires forall j :: 0 <= j < |x| ==> !IsSeparator(x[j])
    ensures SplitFragment(x) == [x]
  {
    RunLenOfRun(x);
    assert x[..|x|] == x;
    assert x[|x|..] == [];
  }

  /** Runs do not extend across a separator: the pieces of `x + y`, when `y`
      starts with a separator, are those of `x` followed by those of `y`. */
  lemma {:induction false} SplitFragmentJoin(x: string, y: string)
    requires |y| > 0 && IsSeparator(y[0])
    ensures SplitFragment(x + y) == SplitFragment(x) + SplitFragment(y)
    decreases |x|
  {
    if |x| == 0 {
      assert x + y == y;
    } else if IsSeparator(x[0]) {
      assert (x + y)[0] == x[0];
      assert (x + y)[1..] == x[1..] + y;
      SplitFragmentJoin(x[1..], y);
    } else {
      var n := RunLen(x);
      RunLenAppend(x, y);
      assert (x + y)[..n] == x[..n];
      assert (x + y)[n..] == x[n..] + y;
      SplitFragmentJoin(x[n..], y);
    }
  }

  /** Every separator is a piece of its own, and splits the fragment there. */
  lemma SplitFragmentAtSeparator(x: string, c: char, y: string)
    requires IsSeparator(c)
    ensures SplitFragment(x + [c] + y) == SplitFragment(x) + [[c]] + SplitFragment(y)
  {
    SplitFragmentJoin(x, [c] + y);
    assert x + [c] + y == x + ([c] + y);
    SplitFragmentOfSeparatorHead(c, y);
  }

  lemma SplitFragmentOfSeparatorHead(c: char, y: string)
    requires IsSeparator(c)
    ensures SplitFragment([c] + y) == [[c]] + SplitFragment(y)
  {
    assert ([c] + y)[1..] == y;
  }

  /** A character that is neither whitespace, markup nor a separator. */
  predicate Plain(c: char) {
    !IsSpace(c) && !IsSeparator(c) && c != '[' && c != ']'
  }

  /** A plain word comes out as one token: itself, lower-cased. */
  lemma PlainWordIsOneToken(w: string)
    requires |w| > 0
    requires forall j :: 0 <= j < |w| ==> Plain(w[j])
    ensures BasicTokenizer(w, false) == [Lower(w)]
  {
    var x := Lower(w);
    PlainWordIsOneFragment(w);
    LowerOfPlain(w);
    SplitFragmentOfRun(x);
    TokensOfOne(x, false);
  }

  /** A plain word is a single whitespace fragment. */
  lemma PlainWordIsOneFragment(w: string)
    requires |w| > 0
    requires forall j :: 0 <= j < |w| ==> Plain(w[j])
    ensures Fragments(w) == [Lower(w)]
  {
    CleanOfPlain(w);
    StripOfUnpadded(w);
    LowerPlainIsOneWord(w);
  }

  lemma LowerPlainIsOneWord(w: string)
    requires |w| > 0
    requires forall j :: 0 <= j < |w| ==> Plain(w[j])
    ensures Words(Lower(w)) == [Lower(w)]
  {
    LowerOfPlain(w);
    WordsOfSingleWord(Lower(w));
  }

  lemma CleanOfPlain(w: string)
    requires forall j :: 0 <= j < |w| ==> Plain(w[j])
    ensures Clean(w) == w
  {
    CleanOfUnmarked(w);
  }

  lemma LowerOfPlain(w: string)
    requires forall j :: 0 <= j < |w| ==> Plain(w[j])
    ensures forall j :: 0 <= j < |Lower(w)| ==> Plain(Lower(w)[j])
  {
  }

  lemma TokensOfOne(f: string, normalizeDigits: bool)
    ensures TokensOf([f], normalizeDigits) == Normalized(SplitFragment(f), normalizeDigits)
  {
    assert [f][1..] == [];
    assert TokensOf([f], normalizeDigits) == Normalized(SplitFragment(f), normalizeDigits) + TokensOf([], normalizeDigits);
  }

  // ---------------------------------------------------------------------------
  // A family of inputs with a known token count
  // ---------------------------------------------------------------------------

  /** A line of `n` full stops. */
  function Periods(n: nat): (s: string)
    ensures |s| == n
    ensures forall i :: 0 <= i < n ==> s[i] == '.'
  {
    seq(n, _ => '.')
  }

  lemma {:induction false} RemoveAllWithoutFirstChar(s: string, pat: string)
    requires |pat| > 0
    requires forall i :: 0 <= i < |s| ==> s[i] != pat[0]
    ensures RemoveAll(s, pat) == s
    decreases |s|
  {
    if |s| > 0 {
      assert !StartsWith(s, pat) by {
        assert s[0] != pat[0];
      }
      RemoveAllWithoutFirstChar(s[1..], pat);
      assert s == [s[0]] + s[1..];
    }
  }

  lemma {:induction false} SplitPeriods(n: nat)
    ensures |SplitFragment(Periods(n))| == n
    decreases n
  {
    if n > 0 {
      assert Periods(n)[1..] == Periods(n - 1);
      SplitPeriods(n - 1);
    }
  }

  /** `n` full stops are `n` tokens, one per stop. */
  lemma PeriodsTokenCount(n: nat)
    ensures |BasicTokenizer(Periods(n), true)| == n
  {
    var p := Periods(n);
    PeriodsAreFragment(n);
    if n == 0 {
      assert Words(p) == [];
    } else {
      WordsOfSingleWord(p);
      TokensOfOne(p, true);
      SplitPeriods(n);
    }
  }

  /** A line of full stops passes cleaning, stripping and lower-casing unchanged. */
  lemma PeriodsAreFragment(n: nat)
    ensures Fragments(Periods(n)) == Words(Periods(n))
  {
    var p := Periods(n);
    CleanOfUnmarked(p);
    StripOfUnpadded(p);
    LowerOfUncased(p);
  }

  /** Text that cannot begin a match is copied through unchanged, and the
      scan resumes right after it. */
  lemma {:induction false} RemoveAllSkips(x: string, z: string, pat: string)
    requires |pat| > 0
    requires pat[0] !in x
    ensures RemoveAll(x + z, pat) == x + RemoveAll(z, pat)
    decreases |x|
  {
    if |x| > 0 {
      var s := x + z;
      assert !StartsWith(s, pat) by {
        assert s[0] == x[0];
      }
      assert s[1..] == x[1..] + z;
      RemoveAllSkips(x[1..], z, pat);
      RemoveAllKeepsHead(s, pat);
      assert x == [x[0]] + x[1..];
    } else {
      assert x + z == z;
    }
  }

  /** The first occurrence of the pattern is removed, together with nothing
      before it, and the scan goes on after it. */
  lemma RemoveAllDropsOccurrence(x: string, pat: string, y: string)
    requires |pat| > 0
    requires pat[0] !in x
    ensures RemoveAll(x + pat + y, pat) == x + RemoveAll(y, pat)
  {
    var s := pat + y;
    assert x + pat + y == x + s;
    RemoveAllSkips(x, s, pat);
    assert StartsWith(s, pat) by {
      assert s[..|pat|] == pat;
    }
    assert s[|pat|..] == y;
    RemoveAllDropsMatch(s, pat);
  }

  /** Underline tags are removed and nothing else is touched: for text
      without `<`, `[` or `]`, `Clean(x + "<u>" + y + "</u>") == x + y`. */
  lemma CleanDropsUnderline(x: string, y: string)
    requires forall j :: 0 <= j < |x| ==> x[j] != '<' && x[j] != '[' && x[j] != ']'
    requires forall j :: 0 <= j < |y| ==> y[j] != '<' && y[j] != '[' && y[j] != ']'
    ensures Clean(x + "<u>" + y + "</u>") == x + y
  {
    var line := x + "<u>" + y + "</u>";
    UnderlineOpenRemoved(x, y);
    UnderlineCloseRemoved(x + y);
    CleanInSteps(line, x + y + "</u>", x + y);
    CleanOfUnmarkedBrackets(x + y);
  }

  /** `Clean` as its four substitutions, given the first two results. */
  lemma CleanInSteps(line: string, r1: string, r2: string)
    requires r1 == RemoveAll(line, "<u>") && r2 == RemoveAll(r1, "</u>")
    ensures Clean(line) == RemoveAll(RemoveAll(r2, "["), "]")
  {
  }

  lemma Regroup(a: string, b: string, c: string, d: string)
    ensures a + b + c + d == a + b + (c + d)
  {
  }

  lemma UnderlineOpenRemoved(x: string, y: string)
    requires forall j :: 0 <= j < |x| ==> x[j] != '<'
    requires forall j :: 0 <= j < |y| ==> y[j] != '<'
    ensures RemoveAll(x + "<u>" + y + "</u>", "<u>") == x + y + "</u>"
  {
    CloseTagAfterPlain(y);
    assert "<u>"[0] == '<';
    DropOpenBeforeKept(x, "<u>", y, "</u>");
  }

  /** An opening tag is dropped when what follows it survives the scan. */
  lemma DropOpenBeforeKept(x: string, open: string, y: string, close: string)
    requires |open| > 0
    requires forall j :: 0 <= j < |x| ==> x[j] != open[0]
    requires RemoveAll(y + close, open) == y + close
    ensures RemoveAll(x + open + y + close, open) == x + y + close
  {
    Regroup(x, open, y, close);
    RemoveAllDropsOccurrence(x, open, y + close);
    assert x + (y + close) == x + y + close;
  }

  lemma CloseTagAfterPlain(y: string)
    requires forall j :: 0 <= j < |y| ==> y[j] != '<'
    ensures RemoveAll(y + "</u>", "<u>") == y + "</u>"
  {
    RemoveAllSkips(y, "</u>", "<u>");
    CloseTagSurvivesOpen();
  }

  lemma UnderlineCloseRemoved(s: string)
    requires forall j :: 0 <= j < |s| ==> s[j] != '<'
    ensures RemoveAll(s + "</u>", "</u>") == s
  {
    assert s + "</u>" == s + "</u>" + "";
    RemoveAllDropsOccurrence(s, "</u>", "");
  }

  lemma CloseTagSurvivesOpen()
    ensures RemoveAll("</u>", "<u>") == "</u>"
  {
    var s := "</u>";
    assert !StartsWith(s, "<u>") by {
      assert s[1] != "<u>"[1];
    }
    RemoveAllKeepsHead(s, "<u>");
    assert s[1..] == "/u>";
    RemoveAllWithoutFirstChar("/u>", "<u>");
  }

  lemma CleanOfUnmarkedBrackets(s: string)
    requires forall j :: 0 <= j < |s| ==> s[j] != '[' && s[j] != ']'
    ensures RemoveAll(RemoveAll(s, "["), "]") == s
  {
    assert "["[0] == '[' && "]"[0] == ']';
    RemoveAllWithoutFirstChar(s, "[");
    RemoveAllWithoutFirstChar(s, "]");
  }

  /** A string without `<`, `[` or `]` holds no markup to remove. */
  lemma CleanOfUnmarked(s: string)
    requires forall j :: 0 <= j < |s| ==> s[j] != '<' && s[j] != '[' && s[j] != ']'
    ensures Clean(s) == s
  {
    assert "<u>"[0] == '<' && "</u>"[0] == '<' && "["[0] == '[' && "]"[0] == ']';
    RemoveAllWithoutFirstChar(s, "<u>");
    RemoveAllWithoutFirstChar(s, "</u>");
    RemoveAllWithoutFirstChar(s, "[");
    RemoveAllWithoutFirstChar(s, "]");
  }

  /** A string that neither starts nor ends with whitespace is its own strip. */
  lemma StripOfUnpadded(s: string)
    requires |s| > 0 ==> !IsSpace(s[0]) && !IsSpace(s[|s| - 1])
    ensures Strip(s) == s
  {
    assert LeadingSpaces(s) == 0;
    assert TrailingSpaces(s) == 0;
  }

  /** A string without capitals is its own lower case. */
  lemma LowerOfUncased(s: string)
    requires forall j :: 0 <= j < |s| ==> !('A' <= s[j] <= 'Z')
    ensures Lower(s) == s
  {
  }

}
