/**
 * The tokenizer of preprocessing/tokenizer.py: `re.split(r'\W+', text)`.
 * Whether a character matches `\w` is left abstract as the `isWord` parameter,
 * so the model holds for any definition of a word character.
 */
module Tokenizer {
  import opened Seqs

  /** The word characters of `s`, in order. */
  function WordChars(s: string, isWord: char -> bool): string {
    if s == [] then []
    else if isWord(s[0]) then [s[0]] + WordChars(s[1..], isWord)
    else WordChars(s[1..], isWord)
  }

  /** Number of maximal runs of non-word characters in `s`, counted at their last character. */
  function NonWordRuns(s: string, isWord: char -> bool): nat {
    if s == [] then 0
    else
      var endsRun := !isWord(s[0]) && (|s| == 1 || isWord(s[1]));
      (if endsRun then 1 else 0) + NonWordRuns(s[1..], isWord)
  }

  /**
   * Splits `s` at every maximal run of non-word characters. A run at the very
   * start or end of `s` yields an empty first or last token, as `re.split` does.
   */
  function Tokenize(s: string, isWord: char -> bool): (tokens: seq<string>)
    ensures |tokens| >= 1
    ensures s == [] ==> tokens == [""]
    ensures forall i, j :: 0 <= i < |tokens| && 0 <= j < |tokens[i]| ==> isWord(tokens[i][j])
    decreases |s|
  {
    if s == [] then [""]
    else
      var rest := Tokenize(s[1..], isWord);
      if isWord(s[0]) then [[s[0]] + rest[0]] + rest[1..]
      else if |s| > 1 && !isWord(s[1]) then rest
      else [""] + rest
  }

  /** A text that starts with a non-word character starts with an empty token. */
  lemma {:induction false} LeadingNonWord(s: string, isWord: char -> bool)
    requires |s| > 0 && !isWord(s[0])
    ensures Tokenize(s, isWord)[0] == ""
  {
    if |s| > 1 && !isWord(s[1]) {
      LeadingNonWord(s[1..], isWord);
    }
  }

  /** Concatenating the tokens gives the input with every non-word character deleted. */
  lemma {:induction false} TokensConcat(s: string, isWord: char -> bool)
    ensures Concat(Tokenize(s, isWord)) == WordChars(s, isWord)
    decreases |s|
  {
    if s != [] {
      var rest := Tokenize(s[1..], isWord);
      TokensConcat(s[1..], isWord);
      if isWord(s[0]) {
        assert Concat(rest) == rest[0] + Concat(rest[1..]);
        assert Concat(Tokenize(s, isWord)) == [s[0]] + rest[0] + Concat(rest[1..]);
      } else if |s| > 1 && !isWord(s[1]) {
      } else {
        assert Concat([""] + rest) == "" + Concat(rest);
      }
    }
  }

  /** One token more than there are maximal non-word runs. */
  lemma {:induction false} TokenCount(s: string, isWord: char -> bool)
    ensures |Tokenize(s, isWord)| == NonWordRuns(s, isWord) + 1
    decreases |s|
  {
    if s != [] {
      TokenCount(s[1..], isWord);
    }
  }

  /** The first token is empty exactly when the text is empty or starts with a non-word character. */
  lemma {:induction false} FirstTokenEmpty(s: string, isWord: char -> bool)
    ensures Tokenize(s, isWord)[0] == "" <==> s == [] || !isWord(s[0])
  {
    if s != [] && !isWord(s[0]) {
      LeadingNonWord(s, isWord);
    }
  }

  /** The last token is empty exactly when the text is empty or ends with a non-word character. */
  lemma {:induction false} LastTokenEmpty(s: string, isWord: char -> bool)
    ensures var t := Tokenize(s, isWord);
      t[|t| - 1] == "" <==> s == [] || !isWord(s[|s| - 1])
    decreases |s|
  {
    if s != [] {
      var rest := Tokenize(s[1..], isWord);
      LastTokenEmpty(s[1..], isWord);
      if |s| == 1 {
        assert rest == [""];
      } else {
        assert s[1..][|s[1..]| - 1] == s[|s| - 1];
        if !isWord(s[|s| - 1]) {
          EndingRunCounted(s[1..], isWord);
          TokenCount(s[1..], isWord);
        }
      }
    }
  }

  lemma {:induction false} EndingRunCounted(s: string, isWord: char -> bool)
    requires |s| > 0 && !isWord(s[|s| - 1])
    ensures NonWordRuns(s, isWord) >= 1
    decreases |s|
  {
    if |s| > 1 {
      assert s[1..][|s[1..]| - 1] == s[|s| - 1];
      EndingRunCounted(s[1..], isWord);
    }
  }

  /** Empty tokens appear only at the two ends. */
  lemma {:induction false} InnerTokensNonEmpty(s: string, isWord: char -> bool, i: nat)
    requires 0 < i < |Tokenize(s, isWord)| - 1
    ensures Tokenize(s, isWord)[i] != ""
    decreases |s|
  {
    var rest := Tokenize(s[1..], isWord);
    if isWord(s[0]) {
      InnerTokensNonEmpty(s[1..], isWord, i);
    } else if |s| > 1 && !isWord(s[1]) {
      InnerTokensNonEmpty(s[1..], isWord, i);
    } else if i == 1 {
      FirstTokenEmpty(s[1..], isWord);
    } else {
      InnerTokensNonEmpty(s[1..], isWord, i - 1);
    }
  }

  /** A text of word characters only is a single token. */
  lemma {:induction false} AllWordSingleToken(s: string, isWord: char -> bool)
    requires forall k :: 0 <= k < |s| ==> isWord(s[k])
    ensures Tokenize(s, isWord) == [s]
    decreases |s|
  {
    if s != [] {
      AllWordSingleToken(s[1..], isWord);
      assert [s[0]] + s[1..] == s;
    }
  }

  /** A separator between two tokens: one or more non-word characters. */
  predicate SeparatorRun(r: string, isWord: char -> bool) {
    |r| > 0 && forall k :: 0 <= k < |r| ==> !isWord(r[k])
  }

  /** `tokens[0] + seps[0] + tokens[1] + ... + tokens[n-1]`. */
  function Interleave(tokens: seq<string>, seps: seq<string>): string
    requires |tokens| >= 1 && |seps| == |tokens| - 1
  {
    if |tokens| == 1 then tokens[0] else tokens[0] + seps[0] + Interleave(tokens[1..], seps[1..])
  }

  /** Word characters in front of a text extend its first token. */
  lemma {:induction false} WordPrefix(w: string, x: string, isWord: char -> bool)
    requires forall k :: 0 <= k < |w| ==> isWord(w[k])
    ensures var t := Tokenize(x, isWord);
      Tokenize(w + x, isWord) == [w + t[0]] + t[1..]
    decreases |w|
  {
    if w != [] {
      WordPrefix(w[1..], x, isWord);
      assert (w + x)[0] == w[0];
      assert (w + x)[1..] == w[1..] + x;
      assert [w[0]] + (w[1..] + Tokenize(x, isWord)[0]) == w + Tokenize(x, isWord)[0];
    } else {
      var t := Tokenize(x, isWord);
      assert w + x == x && w + t[0] == t[0];
      assert t == [t[0]] + t[1..];
    }
  }

  /** A whole separator run in front of a text that does not start with another one. */
  lemma {:induction false} SeparatorStep(r: string, y: string, isWord: char -> bool)
    requires SeparatorRun(r, isWord) && (y == [] || isWord(y[0]))
    ensures Tokenize(r + y, isWord) == [""] + Tokenize(y, isWord)
    decreases |r|
  {
    assert (r + y)[0] == r[0];
    if |r| == 1 {
      assert (r + y)[1..] == y;
    } else {
      assert (r + y)[1] == r[1];
      assert (r + y)[1..] == r[1..] + y;
      SeparatorStep(r[1..], y, isWord);
    }
  }

  /** One token and the separator run after it split off as that token. */
  lemma TokenizeStep(w: string, r: string, y: string, isWord: char -> bool)
    requires forall k :: 0 <= k < |w| ==> isWord(w[k])
    requires SeparatorRun(r, isWord) && (y == [] || isWord(y[0]))
    ensures Tokenize(w + (r + y), isWord) == [w] + Tokenize(y, isWord)
  {
    SeparatorStep(r, y, isWord);
    WordPrefix(w, r + y, isWord);
    assert w + "" == w;
  }

  /** An interleaving whose first token is non-empty, or is the only token, starts with a word character. */
  lemma InterleaveStart(tokens: seq<string>, seps: seq<string>, isWord: char -> bool)
    requires |tokens| >= 1 && |seps| == |tokens| - 1
    requires forall k :: 0 <= k < |tokens[0]| ==> isWord(tokens[0][k])
    requires |tokens| > 1 ==> tokens[0] != ""
    ensures var y := Interleave(tokens, seps); y == [] || isWord(y[0])
  {
    if |tokens| > 1 {
      assert Interleave(tokens, seps)[0] == tokens[0][0];
    }
  }

  /**
   * Splitting undoes interleaving: word-character tokens with a run of
   * non-word characters between each pair of neighbours split back into
   * themselves, provided no inner token is empty (two neighbouring runs would
   * merge into one). An empty first or last token stands for a separator run
   * at the start or the end of the text.
   */
  lemma {:induction false} TokenizeInterleave(tokens: seq<string>, seps: seq<string>, isWord: char -> bool)
    requires |tokens| >= 1 && |seps| == |tokens| - 1
    requires forall i, k :: 0 <= i < |tokens| && 0 <= k < |tokens[i]| ==> isWord(tokens[i][k])
    requires forall i :: 0 <= i < |seps| ==> SeparatorRun(seps[i], isWord)
    requires forall i :: 0 < i < |tokens| - 1 ==> tokens[i] != ""
    ensures Tokenize(Interleave(tokens, seps), isWord) == tokens
    decreases |tokens|
  {
    if |tokens| == 1 {
      AllWordSingleToken(tokens[0], isWord);
    } else {
      var tail := tokens[1..];
      var y := Interleave(tail, seps[1..]);
      assert forall i :: 0 < i < |tail| - 1 ==> tail[i] == tokens[i + 1];
      assert forall i :: 0 <= i < |seps| - 1 ==> seps[1..][i] == seps[i + 1];
      TokenizeInterleave(tail, seps[1..], isWord);
      InterleaveStart(tail, seps[1..], isWord);
      TokenizeStep(tokens[0], seps[0], y, isWord);
      assert Interleave(tokens, seps) == tokens[0] + (seps[0] + y);
    }
  }
}
