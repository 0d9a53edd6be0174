/**
 * The token normaliser of preprocessing/token_normalizer.py: case folding,
 * stop-word removal, then lemmatisation. `str.lower` and the WordNet lemmatizer
 * are foreign code and enter as the opaque functions of a `TextRules` record.
 */
module Normalizer {
  import Tokenizer

  /** The external text functions tokenisation and normalisation rely on. */
  datatype TextRules = TextRules(
    isWord: char -> bool,          // whether a character matches the regex class \w
    lower: string -> string,       // str.lower
    lemmatize: string -> string)   // WordNetLemmatizer().lemmatize

  /** Whether the stop-word test drops `token`: it looks at the case-folded form. */
  predicate Dropped(token: string, stopWords: set<string>, rules: TextRules) {
    rules.lower(token) in stopWords
  }

  /** `normalize_tokens(tokens, stop_words)`. */
  function Normalize(tokens: seq<string>, stopWords: set<string>, rules: TextRules): (terms: seq<string>)
    ensures |terms| <= |tokens|
    ensures forall x :: x in terms <==>
      exists t :: t in tokens && !Dropped(t, stopWords, rules) && x == rules.lemmatize(rules.lower(t))
  {
    if tokens == [] then []
    else
      var rest := Normalize(tokens[1..], stopWords, rules);
      assert forall t :: t in tokens <==> t == tokens[0] || t in tokens[1..];
      if Dropped(tokens[0], stopWords, rules) then rest
      else [rules.lemmatize(rules.lower(tokens[0]))] + rest
  }

  /** A single token is either dropped or becomes the lemma of its folded form. */
  lemma NormalizeSingle(t: string, stopWords: set<string>, rules: TextRules)
    ensures Normalize([t], stopWords, rules) ==
      if rules.lower(t) in stopWords then [] else [rules.lemmatize(rules.lower(t))]
  {
    assert [t][1..] == [];
  }

  /** Normalisation works token by token and keeps the order of the tokens. */
  lemma {:induction false} NormalizeAppend(a: seq<string>, b: seq<string>, stopWords: set<string>, rules: TextRules)
    ensures Normalize(a + b, stopWords, rules) == Normalize(a, stopWords, rules) + Normalize(b, stopWords, rules)
  {
    if a != [] {
      assert (a + b)[1..] == a[1..] + b;
      NormalizeAppend(a[1..], b, stopWords, rules);
    } else {
      assert a + b == b;
    }
  }

  /** Nothing is dropped exactly when no folded token is a stop word. */
  lemma {:induction false} LengthKeptIff(tokens: seq<string>, stopWords: set<string>, rules: TextRules)
    ensures |Normalize(tokens, stopWords, rules)| == |tokens| <==>
      forall i :: 0 <= i < |tokens| ==> !Dropped(tokens[i], stopWords, rules)
  {
    if tokens != [] {
      LengthKeptIff(tokens[1..], stopWords, rules);
      assert forall i :: 0 < i < |tokens| ==> tokens[i] == tokens[1..][i - 1];
    }
  }

  /**
   * With no stop words (the default that query_parser.py relies on) every
   * token survives, and the i-th term is the lemma of the i-th folded token.
   */
  lemma {:induction false} NoStopWords(tokens: seq<string>, rules: TextRules)
    ensures |Normalize(tokens, {}, rules)| == |tokens|
    ensures forall i :: 0 <= i < |tokens| ==>
      Normalize(tokens, {}, rules)[i] == rules.lemmatize(rules.lower(tokens[i]))
  {
    if tokens != [] {
      NoStopWords(tokens[1..], rules);
    }
  }

  /** Tokens that differ only in what case folding erases normalise alike. */
  lemma {:induction false} CaseInsensitive(a: seq<string>, b: seq<string>, stopWords: set<string>, rules: TextRules)
    requires |a| == |b|
    requires forall i :: 0 <= i < |a| ==> rules.lower(a[i]) == rules.lower(b[i])
    ensures Normalize(a, stopWords, rules) == Normalize(b, stopWords, rules)
  {
    if a != [] {
      CaseInsensitive(a[1..], b[1..], stopWords, rules);
    }
  }

  /** An empty token survives normalisation unless the empty string is a stop word. */
  lemma EmptyTokenKept(tokens: seq<string>, stopWords: set<string>, rules: TextRules)
    requires "" in tokens && rules.lower("") == "" && "" !in stopWords
    ensures rules.lemmatize("") in Normalize(tokens, stopWords, rules)
  {
  }

  /** `normalize_tokens(tokenize(text), stopWords)`, the analysis both the indexer and the query parser run. */
  function Analyze(text: string, stopWords: set<string>, rules: TextRules): (terms: seq<string>)
    ensures |terms| <= |Tokenizer.Tokenize(text, rules.isWord)|
  {
    Normalize(Tokenizer.Tokenize(text, rules.isWord), stopWords, rules)
  }
}
