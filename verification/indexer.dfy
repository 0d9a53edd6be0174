/**
 * `_build_vsm_index` of vsm_indexer.py: one pass over the documents in the
 * dictionary's order grows the vocabulary and a document x term count matrix
 * (row = document id), then document frequencies and idf weights follow.
 */
module Indexer {
  import opened Wrappers
  import opened Seqs
  import opened Vocabularies
  import opened OrderedMaps
  import opened Numerics
  import Normalizer

  /** A document's id and its normalised terms. */
  datatype DocTerms = DocTerms(id: nat, terms: seq<string>)

  /** One occurrence of `term` in document `doc`. */
  datatype Occurrence = Occurrence(doc: nat, term: string)

  /** The vocabulary and the raw counts while the pass is under way. */
  datatype Tally = Tally(vocab: Vocabulary, counts: seq<seq<nat>>)

  /** `vsm_matrix[doc_id]` raises IndexError for a row the matrix does not have. */
  datatype BuildError = RowOutOfRange(docId: nat)

  /** The stored index: `term_positions`, `vsm_matrix`, `idf_vector`. */
  datatype Index = Index(vocab: Vocabulary, matrix: seq<seq<real>>, idf: seq<real>)

  /** Every row has one column per vocabulary term. */
  ghost predicate Shaped(t: Tally) {
    && Valid(t.vocab)
    && forall d :: 0 <= d < |t.counts| ==> |t.counts[d]| == |t.vocab.terms|
  }

  // ---------------------------------------------------------------------
  // The counting pass: the loop over `documents.items()`
  // ---------------------------------------------------------------------

  /** `np.append(vsm_matrix, term_frequencies, axis=1)`: one more column, zero in every row. */
  function AppendZeroColumn(counts: seq<seq<nat>>): (r: seq<seq<nat>>)
    ensures |r| == |counts|
    ensures forall d :: 0 <= d < |r| ==> r[d] == counts[d] + [0]
  {
    seq(|counts|, d requires 0 <= d < |counts| => counts[d] + [0])
  }

  /** `vsm_matrix[doc_id][position] += 1`. */
  function Increment(counts: seq<seq<nat>>, d: nat, p: nat): (r: seq<seq<nat>>)
    requires d < |counts| && p < |counts[d]|
    ensures |r| == |counts|
    ensures forall e :: 0 <= e < |r| ==> |r[e]| == |counts[e]|
    ensures forall e, q :: 0 <= e < |r| && 0 <= q < |r[e]| ==>
      r[e][q] == counts[e][q] + (if e == d && q == p then 1 else 0)
  {
    counts[d := counts[d][p := counts[d][p] + 1]]
  }

  /** The body of `for term in terms` for one term of document `d`. */
  function CountTerm(t: Tally, d: nat, term: string): (r: Tally)
    requires Shaped(t) && d < |t.counts|
    ensures Shaped(r) && |r.counts| == |t.counts|
    ensures r.vocab == Add(t.vocab, term)
  {
    if term !in t.vocab.positions then
      var v := Add(t.vocab, term);
      Tally(v, Increment(AppendZeroColumn(t.counts), d, |t.vocab.terms|))
    else
      Tally(t.vocab, Increment(t.counts, d, t.vocab.positions[term]))
  }

  /** `for term in terms`: the terms of document `d`, in order. */
  function CountDocument(t: Tally, d: nat, terms: seq<string>): (r: Tally)
    requires Shaped(t) && d < |t.counts|
    ensures Shaped(r) && |r.counts| == |t.counts|
    decreases |terms|
  {
    if terms == [] then t
    else CountTerm(CountDocument(t, d, terms[..|terms| - 1]), d, terms[|terms| - 1])
  }

  /** The whole counting pass of `_build_vsm_index`. A document with a term and an id outside 0..ndocs-1 fails. */
  function CountCorpus(docs: seq<DocTerms>, ndocs: nat): (r: Result<Tally, BuildError>)
    ensures r.Success? <==> forall k :: 0 <= k < |docs| && docs[k].terms != [] ==> docs[k].id < ndocs
    ensures r.Success? ==> Shaped(r.value) && |r.value.counts| == ndocs
  {
    if docs == [] then Success(Tally(Vocabularies.Empty(), seq(ndocs, _ => [])))
    else
      var earlier := docs[..|docs| - 1];
      var doc := docs[|docs| - 1];
      assert forall k :: 0 <= k < |earlier| ==> earlier[k] == docs[k];
      match CountCorpus(earlier, ndocs)
      case Failure(e) => Failure(e)
      case Success(t) =>
        if doc.terms == [] then Success(t)
        else if doc.id >= ndocs then Failure(RowOutOfRange(doc.id))
        else Success(CountDocument(t, doc.id, doc.terms))
  }

  // ---------------------------------------------------------------------
  // What the pass computes, stated over the stream of occurrences
  // ---------------------------------------------------------------------

  function TermsOf(events: seq<Occurrence>): (ts: seq<string>)
    ensures |ts| == |events|
    ensures forall i :: 0 <= i < |events| ==> ts[i] == events[i].term
  {
    seq(|events|, i requires 0 <= i < |events| => events[i].term)
  }

  function Occurrences(d: nat, terms: seq<string>): (es: seq<Occurrence>)
    ensures |es| == |terms|
    ensures forall i :: 0 <= i < |terms| ==> es[i] == Occurrence(d, terms[i])
  {
    seq(|terms|, i requires 0 <= i < |terms| => Occurrence(d, terms[i]))
  }

  /** Every occurrence of every document, in the order the pass visits them. */
  function Events(docs: seq<DocTerms>): seq<Occurrence> {
    if docs == [] then []
    else Events(docs[..|docs| - 1]) + Occurrences(docs[|docs| - 1].id, docs[|docs| - 1].terms)
  }

  /**
   * After the occurrences `events`: the vocabulary lists their terms in
   * first-seen order, and cell [d][p] counts the occurrences of term p in
   * document d.
   */
  ghost predicate Tallies(t: Tally, ndocs: nat, events: seq<Occurrence>) {
    && Shaped(t) && |t.counts| == ndocs
    && t.vocab.terms == FirstSeen(TermsOf(events))
    && (forall e :: e in events ==> e.doc < ndocs)
    && (forall d, p :: 0 <= d < ndocs && 0 <= p < |t.vocab.terms| ==>
          t.counts[d][p] == multiset(events)[Occurrence(d, t.vocab.terms[p])])
  }

  lemma OccurrenceTermSeen(events: seq<Occurrence>)
    ensures forall e :: e in events ==> e.term in TermsOf(events)
  {
    forall e | e in events ensures e.term in TermsOf(events) {
      var i :| 0 <= i < |events| && events[i] == e;
      assert TermsOf(events)[i] == e.term;
    }
  }

  lemma CountTermStep(t: Tally, ndocs: nat, events: seq<Occurrence>, d: nat, term: string)
    requires Tallies(t, ndocs, events) && d < ndocs
    ensures Tallies(CountTerm(t, d, term), ndocs, events + [Occurrence(d, term)])
  {
    var events' := events + [Occurrence(d, term)];
    var r := CountTerm(t, d, term);
    assert TermsOf(events') == TermsOf(events) + [term];
    var s := TermsOf(events);
    assert s + [term] == TermsOf(events');
    assert (s + [term])[..|s + [term]| - 1] == s;
    assert term in t.vocab.positions <==> term in FirstSeen(s) by {
      if term in t.vocab.positions {
        assert t.vocab.terms[t.vocab.positions[term]] == term;
      }
    }
    forall e | e in events' ensures e.doc < ndocs {
      if e in events {} else { assert e == Occurrence(d, term); }
    }
    forall e, p | 0 <= e < ndocs && 0 <= p < |r.vocab.terms|
      ensures r.counts[e][p] == multiset(events')[Occurrence(e, r.vocab.terms[p])]
    {
      var o := Occurrence(e, r.vocab.terms[p]);
      assert multiset(events')[o] == multiset(events)[o] + (if o == Occurrence(d, term) then 1 else 0);
      if p == |t.vocab.terms| {
        assert r.vocab.terms[p] == term && term !in t.vocab.positions;
        OccurrenceTermSeen(events);
        assert o !in events;
      } else {
        assert r.vocab.terms[p] == t.vocab.terms[p];
        if term !in t.vocab.positions {
          assert r.counts[e][p] == AppendZeroColumn(t.counts)[e][p] + (if e == d && p == |t.vocab.terms| then 1 else 0);
        } else {
          assert t.vocab.terms[t.vocab.positions[term]] == term;
        }
      }
    }
  }

  lemma OccurrencesSnoc(events: seq<Occurrence>, d: nat, terms: seq<string>)
    requires terms != []
    ensures events + Occurrences(d, terms)
         == (events + Occurrences(d, terms[..|terms| - 1])) + [Occurrence(d, terms[|terms| - 1])]
  {
    assert Occurrences(d, terms) == Occurrences(d, terms[..|terms| - 1]) + [Occurrence(d, terms[|terms| - 1])];
  }

  lemma {:induction false} CountDocumentStep(t: Tally, ndocs: nat, events: seq<Occurrence>, d: nat, terms: seq<string>)
    requires Tallies(t, ndocs, events) && d < ndocs
    ensures Tallies(CountDocument(t, d, terms), ndocs, events + Occurrences(d, terms))
    decreases |terms|
  {
    if terms == [] {
      assert events + Occurrences(d, terms) == events;
    } else {
      var init := terms[..|terms| - 1];
      CountDocumentStep(t, ndocs, events, d, init);
      CountTermStep(CountDocument(t, d, init), ndocs, events + Occurrences(d, init), d, terms[|terms| - 1]);
      OccurrencesSnoc(events, d, terms);
    }
  }

  /** The pass maintains `Tallies` over all occurrences of the corpus. */
  lemma {:induction false} CountCorpusTallies(docs: seq<DocTerms>, ndocs: nat)
    requires CountCorpus(docs, ndocs).Success?
    ensures Tallies(CountCorpus(docs, ndocs).value, ndocs, Events(docs))
  {
    if docs == [] {
      var t := CountCorpus(docs, ndocs).value;
      assert TermsOf([]) == [];
    } else {
      var earlier := docs[..|docs| - 1];
      var doc := docs[|docs| - 1];
      assert forall k :: 0 <= k < |earlier| ==> earlier[k] == docs[k];
      CountCorpusTallies(earlier, ndocs);
      var t := CountCorpus(earlier, ndocs).value;
      if doc.terms == [] {
        assert Occurrences(doc.id, doc.terms) == [];
        assert Events(docs) == Events(earlier);
      } else {
        CountDocumentStep(t, ndocs, Events(earlier), doc.id, doc.terms);
      }
    }
  }

  // ---------------------------------------------------------------------
  // The counts in terms of the documents
  // ---------------------------------------------------------------------

  function DocIds(docs: seq<DocTerms>): (ids: seq<nat>)
    ensures |ids| == |docs|
    ensures forall k :: 0 <= k < |docs| ==> ids[k] == docs[k].id
  {
    seq(|docs|, k requires 0 <= k < |docs| => docs[k].id)
  }

  /** No two documents share an id. */
  ghost predicate DistinctIds(docs: seq<DocTerms>) {
    Distinct(DocIds(docs))
  }

  /** All terms of all documents, in the order the pass visits them. */
  function AllTerms(docs: seq<DocTerms>): seq<string> {
    if docs == [] then [] else AllTerms(docs[..|docs| - 1]) + docs[|docs| - 1].terms
  }

  /** The term list of the document with id `d`; a row no document has is empty. */
  function TermsOfDocument(docs: seq<DocTerms>, d: nat): seq<string> {
    if docs == [] then []
    else if docs[|docs| - 1].id == d then docs[|docs| - 1].terms
    else TermsOfDocument(docs[..|docs| - 1], d)
  }

  /** The ids of the documents whose term list contains `term`. */
  function DocsContaining(docs: seq<DocTerms>, term: string): set<nat> {
    set k | 0 <= k < |docs| && term in docs[k].terms :: docs[k].id
  }

  lemma {:induction false} AllTermsAreEventTerms(docs: seq<DocTerms>)
    ensures TermsOf(Events(docs)) == AllTerms(docs)
  {
    if docs != [] {
      var earlier := docs[..|docs| - 1];
      var doc := docs[|docs| - 1];
      AllTermsAreEventTerms(earlier);
      assert TermsOf(Occurrences(doc.id, doc.terms)) == doc.terms;
      assert TermsOf(Events(earlier) + Occurrences(doc.id, doc.terms))
          == TermsOf(Events(earlier)) + TermsOf(Occurrences(doc.id, doc.terms));
    }
  }

  lemma {:induction false} OccurrencesCount(id: nat, terms: seq<string>, d: nat, term: string)
    ensures multiset(Occurrences(id, terms))[Occurrence(d, term)] == if d == id then multiset(terms)[term] else 0
  {
    if terms != [] {
      var init := terms[..|terms| - 1];
      var last := terms[|terms| - 1];
      assert Occurrences(id, terms) == Occurrences(id, init) + [Occurrence(id, last)];
      assert terms == init + [last];
      OccurrencesCount(id, init, d, term);
    }
  }

  lemma {:induction false} TermsOfAbsentDocument(docs: seq<DocTerms>, d: nat)
    requires forall k :: 0 <= k < |docs| ==> docs[k].id != d
    ensures TermsOfDocument(docs, d) == []
  {
    if docs != [] {
      var earlier := docs[..|docs| - 1];
      assert forall k :: 0 <= k < |earlier| ==> earlier[k] == docs[k];
      TermsOfAbsentDocument(earlier, d);
    }
  }

  /** With distinct ids, the lookup finds each document's own term list. */
  lemma {:induction false} TermsOfPresentDocument(docs: seq<DocTerms>, k: nat)
    requires DistinctIds(docs) && k < |docs|
    ensures TermsOfDocument(docs, docs[k].id) == docs[k].terms
  {
    if k < |docs| - 1 {
      var earlier := docs[..|docs| - 1];
      assert forall j :: 0 <= j < |earlier| ==> earlier[j] == docs[j];
      TermsOfPresentDocument(earlier, k);
    }
  }

  /** A nonempty lookup comes from a document with that id. */
  lemma {:induction false} TermsOfDocumentSource(docs: seq<DocTerms>, d: nat)
    requires TermsOfDocument(docs, d) != []
    ensures exists k :: 0 <= k < |docs| && docs[k].id == d && docs[k].terms == TermsOfDocument(docs, d)
  {
    if docs[|docs| - 1].id != d {
      var earlier := docs[..|docs| - 1];
      TermsOfDocumentSource(earlier, d);
      var k :| 0 <= k < |earlier| && earlier[k].id == d && earlier[k].terms == TermsOfDocument(earlier, d);
      assert docs[k] == earlier[k];
    }
  }

  /** The occurrences of a term in a document are the term's count in that document's list. */
  lemma {:induction false} EventsCount(docs: seq<DocTerms>, d: nat, term: string)
    requires DistinctIds(docs)
    ensures multiset(Events(docs))[Occurrence(d, term)] == multiset(TermsOfDocument(docs, d))[term]
  {
    if docs != [] {
      var earlier := docs[..|docs| - 1];
      var doc := docs[|docs| - 1];
      assert forall k :: 0 <= k < |earlier| ==> earlier[k] == docs[k];
      EventsCount(earlier, d, term);
      OccurrencesCount(doc.id, doc.terms, d, term);
      if doc.id == d {
        TermsOfAbsentDocument(earlier, d);
      }
    }
  }

  /**
   * The vocabulary after the pass: every distinct term of the corpus exactly
   * once, in first-seen order, so its size is the number of distinct terms.
   */
  lemma IndexVocabulary(docs: seq<DocTerms>, ndocs: nat)
    requires CountCorpus(docs, ndocs).Success?
    ensures var v := CountCorpus(docs, ndocs).value.vocab;
      && Valid(v)
      && v.terms == FirstSeen(AllTerms(docs))
      && v.positions.Keys == ToSet(AllTerms(docs))
      && |v.positions| == |ToSet(AllTerms(docs))|
  {
    var v := CountCorpus(docs, ndocs).value.vocab;
    CountCorpusTallies(docs, ndocs);
    AllTermsAreEventTerms(docs);
    Bijection(v);
  }

  /** Terms enter the vocabulary in the order of their first occurrence in the corpus. */
  lemma VocabularyOrder(docs: seq<DocTerms>, ndocs: nat, i: nat, j: nat)
    requires CountCorpus(docs, ndocs).Success?
    requires i < j < |CountCorpus(docs, ndocs).value.vocab.terms|
    ensures var v := CountCorpus(docs, ndocs).value.vocab;
      && v.terms[i] in AllTerms(docs) && v.terms[j] in AllTerms(docs)
      && FirstIndex(AllTerms(docs), v.terms[i]) < FirstIndex(AllTerms(docs), v.terms[j])
  {
    IndexVocabulary(docs, ndocs);
    FirstSeenOrder(AllTerms(docs), i, j);
  }

  /** Before weighting, cell [d][pos(t)] is the number of occurrences of t in document d. */
  lemma RawCounts(docs: seq<DocTerms>, ndocs: nat, d: nat, term: string)
    requires DistinctIds(docs) && CountCorpus(docs, ndocs).Success?
    requires d < ndocs && term in CountCorpus(docs, ndocs).value.vocab.positions
    ensures var t := CountCorpus(docs, ndocs).value;
      t.counts[d][t.vocab.positions[term]] == multiset(TermsOfDocument(docs, d))[term]
  {
    var t := CountCorpus(docs, ndocs).value;
    CountCorpusTallies(docs, ndocs);
    assert t.vocab.terms[t.vocab.positions[term]] == term;
    EventsCount(docs, d, term);
  }

  // ---------------------------------------------------------------------
  // Document frequencies, idf and weights
  // ---------------------------------------------------------------------

  /** `np.count_nonzero(vsm_matrix, axis=0)` for one column. */
  function DocumentFrequency(counts: seq<seq<nat>>, p: nat): (n: nat)
    requires forall d :: 0 <= d < |counts| ==> p < |counts[d]|
    ensures n <= |counts|
  {
    if counts == [] then 0
    else DocumentFrequency(counts[..|counts| - 1], p) + (if counts[|counts| - 1][p] != 0 then 1 else 0)
  }

  /** The frequency is the number of rows whose cell is nonzero. */
  lemma {:induction false} DocumentFrequencyCountsRows(counts: seq<seq<nat>>, p: nat)
    requires forall d :: 0 <= d < |counts| ==> p < |counts[d]|
    ensures DocumentFrequency(counts, p) == |set d | 0 <= d < |counts| && counts[d][p] != 0|
  {
    if counts != [] {
      var init := counts[..|counts| - 1];
      DocumentFrequencyCountsRows(init, p);
      var before := set d | 0 <= d < |init| && init[d][p] != 0;
      var after := set d | 0 <= d < |counts| && counts[d][p] != 0;
      if counts[|init|][p] != 0 {
        assert after == before + {|init|};
      } else {
        assert after == before;
      }
    }
  }

  lemma {:induction false} DocumentFrequencyPositive(counts: seq<seq<nat>>, p: nat, d: nat)
    requires forall e :: 0 <= e < |counts| ==> p < |counts[e]|
    requires d < |counts| && counts[d][p] != 0
    ensures DocumentFrequency(counts, p) >= 1
  {
    if d < |counts| - 1 {
      DocumentFrequencyPositive(counts[..|counts| - 1], p, d);
    }
  }

  /**
   * `document_frequencies`: every vocabulary term occurs in at least one document, so its
   * document frequency lies between 1 and ndocs.
   */
  lemma DocumentFrequencyBounds(docs: seq<DocTerms>, ndocs: nat)
    requires CountCorpus(docs, ndocs).Success?
    ensures var t := CountCorpus(docs, ndocs).value;
      forall p :: 0 <= p < |t.vocab.terms| ==> 1 <= DocumentFrequency(t.counts, p) <= ndocs
  {
    var t := CountCorpus(docs, ndocs).value;
    var events := Events(docs);
    CountCorpusTallies(docs, ndocs);
    forall p | 0 <= p < |t.vocab.terms| ensures DocumentFrequency(t.counts, p) >= 1 {
      var term := t.vocab.terms[p];
      assert term in TermsOf(events);
      var i :| 0 <= i < |events| && TermsOf(events)[i] == term;
      var e := events[i];
      assert e in events && e == Occurrence(e.doc, term);
      DocumentFrequencyPositive(t.counts, p, e.doc);
    }
  }

  /** `document_frequencies`: the document frequency of a term is the number of documents containing it. */
  lemma DocumentFrequencyCountsDocuments(docs: seq<DocTerms>, ndocs: nat, term: string)
    requires DistinctIds(docs) && CountCorpus(docs, ndocs).Success?
    requires term in CountCorpus(docs, ndocs).value.vocab.positions
    ensures var t := CountCorpus(docs, ndocs).value;
      DocumentFrequency(t.counts, t.vocab.positions[term]) == |DocsContaining(docs, term)|
  {
    var t := CountCorpus(docs, ndocs).value;
    var p := t.vocab.positions[term];
    DocumentFrequencyCountsRows(t.counts, p);
    var rows := set d | 0 <= d < |t.counts| && t.counts[d][p] != 0;
    forall d | d in rows ensures d in DocsContaining(docs, term) {
      RawCounts(docs, ndocs, d, term);
      TermsOfDocumentSource(docs, d);
      var k :| 0 <= k < |docs| && docs[k].id == d && docs[k].terms == TermsOfDocument(docs, d);
      assert term in docs[k].terms;
    }
    forall d | d in DocsContaining(docs, term) ensures d in rows {
      var k :| 0 <= k < |docs| && term in docs[k].terms && docs[k].id == d;
      TermsOfPresentDocument(docs, k);
      assert d < ndocs;
      RawCounts(docs, ndocs, d, term);
    }
    assert rows == DocsContaining(docs, term);
  }

  /** `idf_vector = np.log2(ndocs/document_frequencies)`, one value per column. */
  function IdfVector(t: Tally, m: Math): (idf: seq<real>)
    requires Shaped(t)
    requires forall p :: 0 <= p < |t.vocab.terms| ==> DocumentFrequency(t.counts, p) >= 1
    ensures |idf| == |t.vocab.terms|
    ensures forall p :: 0 <= p < |idf| ==>
      idf[p] == m.log2(|t.counts| as real / DocumentFrequency(t.counts, p) as real)
  {
    seq(|t.vocab.terms|, p requires 0 <= p < |t.vocab.terms| =>
      m.log2(|t.counts| as real / DocumentFrequency(t.counts, p) as real))
  }

  /** `np.multiply(vsm_matrix, idf_vector)`: every count multiplied by its column's idf. */
  function Weigh(t: Tally, idf: seq<real>): (matrix: seq<seq<real>>)
    requires Shaped(t) && |idf| == |t.vocab.terms|
    ensures |matrix| == |t.counts|
    ensures forall d :: 0 <= d < |matrix| ==> |matrix[d]| == |idf|
    ensures forall d, p :: 0 <= d < |matrix| && 0 <= p < |idf| ==>
      matrix[d][p] == t.counts[d][p] as real * idf[p]
  {
    seq(|t.counts|, d requires 0 <= d < |t.counts| =>
      seq(|idf|, p requires 0 <= p < |idf| => t.counts[d][p] as real * idf[p]))
  }

  /** The documents of the dictionary in its iteration order, with their analysed terms (`tokenize` and `normalize_tokens` in the loop of `_build_vsm_index`). */
  function DocumentTerms(documents: OrderedMap<string>, stopWords: set<string>, rules: Normalizer.TextRules): (docs: seq<DocTerms>)
    requires documents.Valid()
    ensures |docs| == |documents.keys| && DistinctIds(docs)
    ensures forall k :: 0 <= k < |docs| ==>
      && docs[k].id == documents.keys[k]
      && docs[k].terms == Normalizer.Analyze(documents.values[documents.keys[k]], stopWords, rules)
  {
    seq(|documents.keys|, k requires 0 <= k < |documents.keys| =>
      DocTerms(documents.keys[k], Normalizer.Analyze(documents.values[documents.keys[k]], stopWords, rules)))
  }

  /** The counting pass on the corpus dictionary: the raw counts, before weighting. */
  function BuildCounts(documents: OrderedMap<string>, stopWords: set<string>, rules: Normalizer.TextRules): (r: Result<Tally, BuildError>)
    requires documents.Valid()
    ensures r.Success? ==> Shaped(r.value) && |r.value.counts| == |documents.keys|
  {
    var docs := DocumentTerms(documents, stopWords, rules);
    CountCorpus(docs, |docs|)
  }

  /** `_build_vsm_index(documents, stop_words)`. */
  function BuildIndex(documents: OrderedMap<string>, stopWords: set<string>, rules: Normalizer.TextRules, m: Math): (r: Result<Index, BuildError>)
    requires documents.Valid()
    ensures r.Success? <==> BuildCounts(documents, stopWords, rules).Success?
    ensures r.Success? ==>
      var t := BuildCounts(documents, stopWords, rules).value;
      && r.value.vocab == t.vocab
      && (forall p :: 0 <= p < |t.vocab.terms| ==> DocumentFrequency(t.counts, p) >= 1)
      && r.value.idf == IdfVector(t, m)
      && r.value.matrix == Weigh(t, r.value.idf)
  {
    var docs := DocumentTerms(documents, stopWords, rules);
    match CountCorpus(docs, |docs|)
    case Failure(e) => Failure(e)
    case Success(t) =>
      DocumentFrequencyBounds(docs, |docs|);
      var idf := IdfVector(t, m);
      Success(Index(t.vocab, Weigh(t, idf), idf))
  }

  /**
   * `np.log2(ndocs/document_frequencies)`: the argument of each idf's log2 is at least one, as every
   * document frequency is between 1 and the number of documents.
   */
  lemma IdfArgument(docs: seq<DocTerms>, ndocs: nat, p: nat)
    requires CountCorpus(docs, ndocs).Success?
    requires p < |CountCorpus(docs, ndocs).value.vocab.terms|
    ensures var t := CountCorpus(docs, ndocs).value;
      DocumentFrequency(t.counts, p) >= 1 &&
      ndocs as real / DocumentFrequency(t.counts, p) as real >= 1.0
  {
    var t := CountCorpus(docs, ndocs).value;
    DocumentFrequencyBounds(docs, ndocs);
    var df := DocumentFrequency(t.counts, p);
    RatioAtLeastOne(ndocs as real, df as real);
  }

  lemma RatioAtLeastOne(n: real, d: real)
    requires 0.0 < d <= n
    ensures n / d >= 1.0
  {
    var q := n / d;
    assert q * d == n;
  }

  /** A term absent from a document has weight zero there, whatever its idf. */
  lemma ZeroCountZeroWeight(documents: OrderedMap<string>, stopWords: set<string>, rules: Normalizer.TextRules, m: Math, d: nat, term: string)
    requires documents.Valid() && BuildIndex(documents, stopWords, rules, m).Success?
    requires d < |documents.keys|
    requires term in BuildIndex(documents, stopWords, rules, m).value.vocab.positions
    ensures var docs := DocumentTerms(documents, stopWords, rules);
      var ix := BuildIndex(documents, stopWords, rules, m).value;
      term !in TermsOfDocument(docs, d) ==> ix.matrix[d][ix.vocab.positions[term]] == 0.0
  {
    var docs := DocumentTerms(documents, stopWords, rules);
    var t := CountCorpus(docs, |docs|).value;
    assert t.vocab.terms[t.vocab.positions[term]] == term;
    RawCounts(docs, |docs|, d, term);
  }
}
