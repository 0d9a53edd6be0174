/**
 * `parse_query` and `resolve_vsm_query` of query_parser.py: the query's
 * terms become a vector over the index's vocabulary, weighted log(tf + 1) x idf
 * and scaled to unit length, and the documents are ranked against it.
 */
module QueryParser {
  import opened Wrappers
  import opened Seqs
  import opened Vocabularies
  import opened Numerics
  import Normalizer
  import Tokenizer
  import Indexer
  import Ranking
  import Filing

  /** What `parse_query` returns. */
  datatype QueryVector =
    | Vector(components: seq<real>)
    | Undefined   // the weighted vector has magnitude zero: numpy divides 0 by 0

  /** Querying ends in scores that are all NaN; their order is not modelled. */
  datatype QueryError = UndefinedScores

  /** The index as `_build_vsm_index` leaves it: one idf and one matrix column per term. */
  ghost predicate WellFormed(ix: Indexer.Index) {
    && Valid(ix.vocab)
    && |ix.idf| == |ix.vocab.terms|
    && forall d :: 0 <= d < |ix.matrix| ==> |ix.matrix[d]| == |ix.vocab.terms|
  }

  /** The term loop of `parse_query`: raw counts of the in-vocabulary query terms. */
  function TermCounts(v: Vocabulary, terms: seq<string>): (counts: seq<nat>)
    requires Valid(v)
    ensures |counts| == |v.terms|
    ensures forall p :: 0 <= p < |counts| ==> counts[p] == multiset(terms)[v.terms[p]]
  {
    if terms == [] then seq(|v.terms|, _ => 0)
    else
      var init := terms[..|terms| - 1];
      var term := terms[|terms| - 1];
      assert terms == init + [term];
      var counts := TermCounts(v, init);
      if term !in v.positions then counts
      else
        assert v.terms[v.positions[term]] == term;
        counts[v.positions[term] := counts[v.positions[term]] + 1]
  }

  /** The `contains_no_features` flag of `parse_query` after the loop. */
  function ContainsNoFeatures(v: Vocabulary, terms: seq<string>): (none: bool)
    ensures none <==> forall i :: 0 <= i < |terms| ==> terms[i] !in v.positions
  {
    if terms == [] then true
    else
      assert forall i :: 0 <= i < |terms| - 1 ==> terms[..|terms| - 1][i] == terms[i];
      ContainsNoFeatures(v, terms[..|terms| - 1]) && terms[|terms| - 1] !in v.positions
  }

  /** A square is never negative, and positive for a nonzero number. */
  lemma Square(x: real)
    ensures x * x >= 0.0
    ensures x != 0.0 ==> x * x > 0.0
    ensures x == 0.0 ==> x * x == 0.0
  {
    if x > 0.0 {
      assert x * x > 0.0 * x;
    } else if x < 0.0 {
      var y := -x;
      assert y * y > 0.0 * y;
      assert x * x == y * y;
    } else {
      assert x * x == 0.0 * 0.0;
    }
  }

  /** `(query_vector**2).sum()`: never negative, and zero for the zero vector. */
  function SumOfSquares(w: seq<real>): (r: real)
    ensures r >= 0.0
    ensures (forall p :: 0 <= p < |w| ==> w[p] == 0.0) ==> r == 0.0
  {
    if w == [] then 0.0
    else
      var init, x := w[..|w| - 1], w[|w| - 1];
      assert forall p :: 0 <= p < |init| ==> init[p] == w[p];
      Square(x);
      SumOfSquares(init) + x * x
  }

  /** `np.log(query_vector + 1)` times `idf_vector` in `parse_query`, per dimension. */
  function Weights(counts: seq<nat>, idf: seq<real>, m: Math): (w: seq<real>)
    requires |counts| == |idf|
    ensures |w| == |counts|
    ensures LogOfOneIsZero(m) ==> forall p :: 0 <= p < |w| && counts[p] == 0 ==> w[p] == 0.0
  {
    seq(|counts|, p requires 0 <= p < |counts| => m.log(counts[p] as real + 1.0) * idf[p])
  }

  /** `parse_query` for already normalised query terms. */
  function QueryVectorOf(ix: Indexer.Index, terms: seq<string>, m: Math): (q: QueryVector)
    requires WellFormed(ix)
    ensures q.Vector? ==> |q.components| == |ix.vocab.terms|
    ensures ContainsNoFeatures(ix.vocab, terms) ==>
      q.Vector? && forall p :: 0 <= p < |q.components| ==> q.components[p] == 0.0
  {
    var counts := TermCounts(ix.vocab, terms);
    if ContainsNoFeatures(ix.vocab, terms) then
      Vector(seq(|counts|, p requires 0 <= p < |counts| => counts[p] as real))
    else
      var w := Weights(counts, ix.idf, m);
      var magnitude := m.sqrt(SumOfSquares(w));
      if magnitude == 0.0 then Undefined
      else Vector(seq(|w|, p requires 0 <= p < |w| => w[p] / magnitude))
  }

  /** `normalize_tokens(tokenize(query))`: no stop words on the query side. */
  function QueryTerms(query: string, rules: Normalizer.TextRules): (terms: seq<string>)
    ensures |terms| == |Tokenizer.Tokenize(query, rules.isWord)|
  {
    Normalizer.NoStopWords(Tokenizer.Tokenize(query, rules.isWord), rules);
    Normalizer.Analyze(query, {}, rules)
  }

  /** `parse_query(query)` against a resident index. */
  function ParseQuery(ix: Indexer.Index, query: string, rules: Normalizer.TextRules, m: Math): (q: QueryVector)
    requires WellFormed(ix)
    ensures q.Vector? ==> |q.components| == |ix.vocab.terms|
    ensures ContainsNoFeatures(ix.vocab, QueryTerms(query, rules)) ==>
      q.Vector? && forall p :: 0 <= p < |q.components| ==> q.components[p] == 0.0
  {
    QueryVectorOf(ix, QueryTerms(query, rules), m)
  }

  /** `str(doc_id)` in `resolve_vsm_query` for every id. */
  function IdStrings(ids: seq<nat>): (strs: seq<string>)
    ensures |strs| == |ids|
    ensures forall i :: 0 <= i < |ids| ==> strs[i] == Filing.DecimalString(ids[i])
    ensures forall i :: 0 <= i < |ids| ==> Filing.DocId(strs[i]) == Success(ids[i])
  {
    if ids == [] then []
    else
      var s := Filing.DecimalString(ids[0]);
      Filing.DocIdRoundTrip([], 0, ids[0], []);
      assert [] + (Filing.Zeros(0) + s) + [] == s;
      [s] + IdStrings(ids[1..])
  }

  /** `resolve_vsm_query`: the ids of the documents scoring at least `alpha`, as strings. */
  function ResolveVsmQuery(ix: Indexer.Index, query: string, alpha: real, rules: Normalizer.TextRules, m: Math): (r: Result<seq<string>, QueryError>)
    requires WellFormed(ix)
    ensures r.Failure? <==> ParseQuery(ix, query, rules, m).Undefined?
    ensures r.Success? ==> |r.value| <= |ix.matrix|
  {
    match ParseQuery(ix, query, rules, m)
    case Undefined => Failure(UndefinedScores)
    case Vector(q) =>
      var ids := Ranking.RankDocuments(q, ix.matrix, alpha);
      Ranking.RankMembership(q, ix.matrix, alpha);
      Success(IdStrings(ids))
  }

  // ---------------------------------------------------------------------
  // Properties
  // ---------------------------------------------------------------------

  /** Out-of-vocabulary terms contribute nothing: dropping them leaves the vector unchanged. */
  lemma OutOfVocabularyIgnored(ix: Indexer.Index, terms: seq<string>, m: Math)
    requires WellFormed(ix)
    ensures QueryVectorOf(ix, terms, m) == QueryVectorOf(ix, Filter(t => t in ix.vocab.positions, terms), m)
  {
    var kept := Filter(t => t in ix.vocab.positions, terms);
    FilterCount(t => t in ix.vocab.positions, terms);
    var a := TermCounts(ix.vocab, terms);
    var b := TermCounts(ix.vocab, kept);
    forall p | 0 <= p < |a| ensures a[p] == b[p] {
      assert ix.vocab.terms[p] in ix.vocab.positions;
    }
    assert a == b;
    assert ContainsNoFeatures(ix.vocab, terms) == ContainsNoFeatures(ix.vocab, kept) by {
      if !ContainsNoFeatures(ix.vocab, terms) {
        var i :| 0 <= i < |terms| && terms[i] in ix.vocab.positions;
        assert terms[i] in kept;
      }
    }
  }

  /**
   * `parse_query`: with log(1) = 0, a dimension whose term the query does not
   * contain is zero in the query vector.
   */
  lemma UntouchedDimensionZero(ix: Indexer.Index, terms: seq<string>, m: Math, p: nat)
    requires WellFormed(ix) && LogOfOneIsZero(m)
    requires p < |ix.vocab.terms| && ix.vocab.terms[p] !in terms
    ensures var q := QueryVectorOf(ix, terms, m);
      q.Vector? ==> q.components[p] == 0.0
  {
    var counts := TermCounts(ix.vocab, terms);
    assert counts[p] == 0;
    if !ContainsNoFeatures(ix.vocab, terms) {
      var w := Weights(counts, ix.idf, m);
      assert w[p] == 0.0;
      var magnitude := m.sqrt(SumOfSquares(w));
      if magnitude != 0.0 {
        ZeroOver(magnitude);
      }
    }
  }

  lemma ZeroOver(x: real)
    requires x != 0.0
    ensures 0.0 / x == 0.0
  {
  }

  /** The early return of `parse_query` and the `sim < alpha` break: a query without vocabulary terms and a positive threshold finds nothing. */
  lemma NoFeaturesNoResults(ix: Indexer.Index, query: string, alpha: real, rules: Normalizer.TextRules, m: Math)
    requires WellFormed(ix) && alpha > 0.0
    requires ContainsNoFeatures(ix.vocab, QueryTerms(query, rules))
    ensures ResolveVsmQuery(ix, query, alpha, rules, m) == Success([])
  {
    var q := ParseQuery(ix, query, rules, m).components;
    forall d | 0 <= d < |ix.matrix| ensures Dot(q, ix.matrix[d]) == 0.0 {
      DotZero(q, ix.matrix[d]);
    }
    Ranking.RankMembership(q, ix.matrix, alpha);
  }

  /**
   * `resolve_vsm_query`: the returned strings are the decimal ids of exactly the
   * documents whose score reaches `alpha`, best first, ties by ascending id.
   */
  lemma ResolveResults(ix: Indexer.Index, query: string, alpha: real, rules: Normalizer.TextRules, m: Math)
    requires WellFormed(ix)
    requires ParseQuery(ix, query, rules, m).Vector?
    ensures var q := ParseQuery(ix, query, rules, m).components;
      var ids := Ranking.RankDocuments(q, ix.matrix, alpha);
      && ResolveVsmQuery(ix, query, alpha, rules, m).Success?
      && |ResolveVsmQuery(ix, query, alpha, rules, m).value| == |ids|
      && (forall i :: 0 <= i < |ids| ==>
            ResolveVsmQuery(ix, query, alpha, rules, m).value[i] == Filing.DecimalString(ids[i]))
      && (forall i :: 0 <= i < |ids| ==>
            Filing.DocId(ResolveVsmQuery(ix, query, alpha, rules, m).value[i]) == Success(ids[i]))
  {
  }
}
