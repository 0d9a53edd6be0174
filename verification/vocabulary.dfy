/**
 * The `term_positions` dictionary of vsm_indexer.py: each term is a column
 * of the matrix. `terms` lists the dictionary's keys in insertion order,
 * which is also the order of their positions.
 */
module Vocabularies {
  import opened Seqs

  datatype Vocabulary = Vocabulary(terms: seq<string>, positions: map<string, nat>)

  /** `positions` and `terms` are inverse to each other: a bijection onto 0..|terms|-1. */
  ghost predicate Valid(v: Vocabulary) {
    && (forall i :: 0 <= i < |v.terms| ==> v.terms[i] in v.positions && v.positions[v.terms[i]] == i)
    && (forall t :: t in v.positions ==> v.positions[t] < |v.terms| && v.terms[v.positions[t]] == t)
  }

  function Empty(): (v: Vocabulary)
    ensures Valid(v) && v.terms == []
  {
    Vocabulary([], map[])
  }

  /**
   * `term_positions` in `_build_vsm_index`: a term not seen before gets the current vocabulary size as
   * its position; positions handed out earlier never change.
   */
  function Add(v: Vocabulary, t: string): (r: Vocabulary)
    requires Valid(v)
    ensures Valid(r)
    ensures t in r.positions
    ensures t !in v.positions ==> r.positions[t] == |v.terms| && r.terms == v.terms + [t]
    ensures t in v.positions ==> r == v
    ensures forall u :: u in v.positions ==> u in r.positions && r.positions[u] == v.positions[u]
    ensures forall u :: u in r.positions <==> u in v.positions || u == t
  {
    if t in v.positions then v
    else Vocabulary(v.terms + [t], v.positions[t := |v.terms|])
  }

  /** A valid vocabulary has as many terms as positions, and lists each term once. */
  lemma Bijection(v: Vocabulary)
    requires Valid(v)
    ensures Distinct(v.terms)
    ensures v.positions.Keys == ToSet(v.terms)
    ensures |v.positions| == |v.terms|
  {
    assert Distinct(v.terms) by {
      forall i, j | 0 <= i < j < |v.terms| ensures v.terms[i] != v.terms[j] {
        assert v.positions[v.terms[i]] == i && v.positions[v.terms[j]] == j;
      }
    }
    assert v.positions.Keys == ToSet(v.terms) by {
      forall t | t in v.positions ensures t in ToSet(v.terms) {
        assert v.terms[v.positions[t]] == t;
      }
    }
    DistinctCardinality(v.terms);
  }
}
