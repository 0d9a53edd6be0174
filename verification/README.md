# VectorSpaceModel in Dafny

A model of the retrieval core of a small vector-space search engine. The engine
turns a corpus of text files into a TF-IDF weighted document x term matrix and
answers free-text queries by ranking documents against a unit query vector.

The model follows the Python code piece by piece:

- `Tokenizer` (tokenizer.dfy): `re.split(r'\W+', text)`. Whether a character is a
  word character is a parameter, so `\w`'s Unicode tables are not fixed.
- `Normalizer` (normalizer.dfy): case folding, then stop-word removal, then
  lemmatisation. `str.lower` and the WordNet lemmatizer are opaque functions in a
  `TextRules` record.
- `Filing` (filing.dfy) and `OrderedMaps` (ordered_map.dfy): the string side of
  reading the corpus. This covers the id in a file name, dropping the title line,
  and the two id-keyed dictionaries. The dictionaries keep Python's insertion order,
  and that order decides the vocabulary order. It also covers `str.split()` of the
  stop-word file, with Python's `str.isspace` code points written out.
- `Vocabularies` (vocabulary.dfy) and `Indexer` (indexer.dfy): the single pass of
  `_build_vsm_index`. It grows the term-to-column map and the raw count matrix, then
  computes document frequencies, idf weights and the weighted matrix.
- `Ranking` (ranking.dfy) and `QueryParser` (query.dfy): the query vector
  `log(tf + 1) x idf / magnitude`, one `(-score, doc_id)` heap entry per row, and
  extraction in heap order until the first score below `alpha`.
- `Numerics` (numerics.dfy): `log`, `log2` and `sqrt` are uninterpreted functions in
  a `Math` record. Weights and scores are `real`. The only fact about logarithms
  used anywhere is `log(1) = 0`, and it is stated as a hypothesis.

Behaviour of the code that the model keeps:

- An empty corpus is not rejected. The pass runs over no documents and yields an
  empty vocabulary, an empty matrix and an empty idf vector.
- A query is short-circuited only when none of its terms is in the vocabulary. In
  that case the all-zero vector is returned unchanged. Ranking it with `alpha > 0`
  returns nothing (`QueryParser.NoFeaturesNoResults`).
- A file name without a digit aborts the whole corpus read. It is not skipped.
- Rows are indexed by document id. A document that has a term and whose id is not
  below the number of documents makes the build fail.

## Model

| member | source | states |
|---|---|---|
| Tokenizer.Tokenize | preprocessing/tokenizer.py:15-16 | The token list is never empty, an empty text gives `[""]`, and no token contains a non-word character |
| Tokenizer.TokensConcat | preprocessing/tokenizer.py:15-16 | Concatenating the tokens gives the input with every non-word character deleted |
| Tokenizer.TokenCount | preprocessing/tokenizer.py:15-16 | There is one token more than there are maximal runs of non-word characters |
| Tokenizer.FirstTokenEmpty | preprocessing/tokenizer.py:15-16 | The first token is empty iff the text is empty or starts with a non-word character |
| Tokenizer.LastTokenEmpty | preprocessing/tokenizer.py:15-16 | The last token is empty iff the text is empty or ends with a non-word character |
| Tokenizer.InnerTokensNonEmpty | preprocessing/tokenizer.py:15-16 | Only the first and the last token can be empty |
| Tokenizer.AllWordSingleToken | preprocessing/tokenizer.py:15-16 | A text of word characters only is one token equal to the text |
| Tokenizer.TokenizeInterleave | preprocessing/tokenizer.py:15-16 | Word-character tokens with any run of one or more non-word characters between neighbours split back into the same tokens, provided no inner token is empty; empty end tokens stand for runs at the start or end |
| Normalizer.Normalize | preprocessing/token_normalizer.py:21-26 | At most as many terms as tokens. A string is a term iff it is the lemma of the folded form of some token whose folded form is not a stop word |
| Normalizer.NormalizeSingle | preprocessing/token_normalizer.py:21-26 | One token is dropped when its folded form is a stop word. Otherwise it becomes the lemma of that folded form |
| Normalizer.NormalizeAppend | preprocessing/token_normalizer.py:21-26 | Normalising a concatenation concatenates the results, so token order is preserved |
| Normalizer.LengthKeptIff | preprocessing/token_normalizer.py:21-23 | The output is as long as the input iff no folded token is a stop word |
| Normalizer.NoStopWords | preprocessing/token_normalizer.py:15-26 | With the default empty stop set every token survives, and term i is the lemma of folded token i |
| Normalizer.CaseInsensitive | preprocessing/token_normalizer.py:21-23 | Tokens with equal folded forms give equal output, since the stop test runs on the folded form before lemmatisation |
| Normalizer.EmptyTokenKept | preprocessing/token_normalizer.py:23-26 | An empty token survives unless the empty string is a stop word, given that folding maps `""` to `""` |
| Normalizer.Analyze | vsm_indexer.py:45-46 | At most one term per token of the text; its terms are characterised by Normalize's membership contract and NormalizeSingle/NormalizeAppend |
| Filing.DecimalRoundTrip | filing.py:48 | `int` of the numeral of n is n |
| Filing.DecimalValue | filing.py:48 | `int` of a digit string is zero exactly when every digit is `0`; DecimalRoundTrip and LeadingZeros state the rest |
| Filing.DecimalString | query_parser.py:111 | `str(n)` is a non-empty digit string without a leading zero |
| Filing.CanonicalNumeral | query_parser.py:111 | A digit string without a leading zero whose value is n is exactly `str(n)` |
| Filing.LeadingZeros | filing.py:48 | Leading zeros do not change the value of a digit string |
| Filing.FirstDigitRun | filing.py:48 | `re.search(r'\d+')` finds nothing exactly when the name has no digit, and otherwise a non-empty digit run; DocIdOfRun shows it is the first maximal run |
| Filing.DocId | filing.py:48 | The id lookup fails iff the file name contains no digit |
| Filing.DocIdOfRun | filing.py:48 | The id is the decimal value of the first maximal digit run |
| Filing.DocIdRoundTrip | filing.py:48 | A name with the numeral of n after any number of zeros, with no digit before and none right after, has id n, so `a007` and `a7` agree |
| Filing.StripTitle | filing.py:52-53 | The body is a suffix of the text, and it is empty when the text has no line break |
| Filing.StripTitleRoundTrip | filing.py:52-53 | For a title without a line break, title + newline + body gives back exactly the body |
| Filing.Record | filing.py:49-54 | Storing one file sets both dictionaries' entries for its id to its name and body and keeps them aligned |
| Filing.Assemble | filing.py:45-54 | The dictionaries stay well-formed with one shared key order; AssembleKeys, AssembleOrder and AssembleLastWins state their contents |
| Filing.ParseIds | filing.py:45-48 | Parsing succeeds iff every file name has a digit, and then gives each file's id in discovery order |
| Filing.AssembleKeys | filing.py:45-54 | Recording the files under their ids leaves exactly those ids as keys of both dictionaries |
| Filing.AssembleLastWins | filing.py:49-54 | The file recorded last under an id supplies both entries for it |
| Filing.AssembleOrder | filing.py:45-54 | Both dictionaries list their ids in the order the ids first occur |
| Filing.ReadDocsFiles | filing.py:40-56 | The read succeeds iff every file name has a digit. Both dictionaries are then well-formed with the same keys in the same order |
| Filing.ReadDocsFilesKeys | filing.py:45-54 | Both dictionaries hold exactly the ids found in the file names |
| Filing.ReadDocsFilesOrder | filing.py:45-54 | Both dictionaries iterate their ids in the order the files carrying them are first discovered, a repeated id keeping its first place; this is the order the vocabulary pass visits documents in |
| Filing.LaterFileWins | filing.py:45-54 | For every id, the last file with that id supplies both its file name and its body |
| Filing.SplitWhitespace | filing.py:64 | Every word is nonempty and contains no whitespace |
| Filing.IsSpace | filing.py:64 | `str.isspace` holds for space, tab, newline and carriage return, and never for a digit, an ASCII letter or `_` |
| Filing.SplitIsTokenize | filing.py:64 | `str.split()` equals splitting on whitespace runs with empty pieces removed |
| Filing.ReadStopWords | filing.py:63-65 | No stop word is empty or contains whitespace |
| Filing.StopWordsRoundTrip | filing.py:63-65 | Nonempty whitespace-free words with any whitespace before, between (at least one character) and after them, such as one word per line with a final newline, read back as exactly those words, and as that set |
| Vocabularies.Add | vsm_indexer.py:49-57 | A new term gets the current vocabulary size as its position, earlier positions never change, and the map stays a bijection |
| Vocabularies.Bijection | vsm_indexer.py:41-57 | The vocabulary lists each term once, and the number of positions equals the number of terms |
| OrderedMaps.OrderedMap.Put | filing.py:49-54 | `d[k] = v` sets the value; a key already present keeps its place, a new key goes last |
| Indexer.AppendZeroColumn | vsm_indexer.py:54-55 | The new column is zero in every row, and the old cells are unchanged |
| Indexer.Increment | vsm_indexer.py:60 | Exactly one cell grows by one |
| Indexer.CountTerm | vsm_indexer.py:48-60 | One term step keeps the matrix `ndocs` x `|V|` and extends the vocabulary exactly as `Add` does |
| Indexer.CountDocument | vsm_indexer.py:48-60 | The matrix keeps its shape over a document's terms; CountDocumentStep states the counts it adds |
| Indexer.CountCorpus | vsm_indexer.py:35-60 | The pass succeeds iff every document that has a term has id < ndocs. On success the matrix has ndocs rows of vocabulary length |
| Indexer.CountCorpusTallies | vsm_indexer.py:43-60 | After the pass, cell [d][p] counts the occurrences of term p in document d, and the vocabulary is in first-seen order |
| Indexer.IndexVocabulary | vsm_indexer.py:41-57 | The vocabulary is a bijection from the distinct corpus terms onto 0..|V|-1, so its size is the number of distinct terms |
| Indexer.VocabularyOrder | vsm_indexer.py:43-52 | A term with a lower position first occurs earlier in the documents' iteration order |
| Indexer.RawCounts | vsm_indexer.py:48-60 | Before weighting, cell [d][pos(t)] is the number of occurrences of t in document d's term list |
| Indexer.DocumentFrequency | vsm_indexer.py:63 | A column's nonzero count never exceeds the number of rows |
| Indexer.DocumentFrequencyCountsRows | vsm_indexer.py:63 | The document frequency is the size of the set of rows with a nonzero cell |
| Indexer.DocumentFrequencyBounds | vsm_indexer.py:63-65 | Every vocabulary term has document frequency between 1 and ndocs |
| Indexer.DocumentFrequencyCountsDocuments | vsm_indexer.py:63 | A term's document frequency is the number of document ids whose term list contains it |
| Indexer.IdfArgument | vsm_indexer.py:65 | The argument `ndocs/df` of each idf's log2 is at least 1 |
| Indexer.IdfVector | vsm_indexer.py:65 | There is one idf per column: log2 of ndocs over that column's document frequency |
| Indexer.Weigh | vsm_indexer.py:68 | Each weighted cell is the raw count times its column's idf |
| Indexer.DocumentTerms | vsm_indexer.py:43-46 | The documents are taken in dictionary order with distinct ids, each analysed with the stop words |
| Indexer.BuildCounts | vsm_indexer.py:35-60 | On success the count matrix has one row per document and one column per vocabulary term; CountCorpusTallies and RawCounts state the counts |
| Indexer.BuildIndex | vsm_indexer.py:29-75 | The build fails iff the count pass fails. Otherwise the index holds the pass's vocabulary, the idf vector over positive document frequencies, and the weighted counts |
| Indexer.ZeroCountZeroWeight | vsm_indexer.py:68 | A term absent from a document has weight zero in that document's row |
| QueryParser.TermCounts | query_parser.py:38-53 | The raw query vector has vocabulary length, and component pos(t) is the number of occurrences of t in the query terms |
| QueryParser.SumOfSquares | query_parser.py:66 | The squared magnitude is never negative, and zero for the zero vector |
| QueryParser.ContainsNoFeatures | query_parser.py:41-53 | The flag holds iff no query term is in the vocabulary |
| QueryParser.Weights | query_parser.py:58-63 | Given log(1) = 0, a zero count keeps weight zero after `log(c+1)` and the idf multiply |
| QueryParser.QueryVectorOf | query_parser.py:38-70 | The vector has vocabulary length. A query with no vocabulary term yields the all-zero vector |
| QueryParser.QueryTerms | query_parser.py:36 | The query is normalised with no stop words, so there are as many terms as tokens |
| QueryParser.ParseQuery | query_parser.py:24-70 | The vector has one component per vocabulary term, and a query with no vocabulary term gets the all-zero vector |
| QueryParser.IdStrings | query_parser.py:111 | Each id becomes its decimal numeral `str(id)`, from which the file-name id extraction gives back that same id |
| QueryParser.ResolveVsmQuery | query_parser.py:94-117 | The query fails only when the vector is undefined, and never returns more ids than rows |
| QueryParser.OutOfVocabularyIgnored | query_parser.py:44-53 | Removing the out-of-vocabulary terms does not change the query vector |
| QueryParser.UntouchedDimensionZero | query_parser.py:58-68 | Given log(1) = 0, a dimension whose term is not in the query is zero in the query vector |
| QueryParser.NoFeaturesNoResults | query_parser.py:55-56 | A query with no vocabulary term and alpha > 0 returns an empty list |
| QueryParser.ResolveResults | query_parser.py:94-117 | The strings returned are `str(id)` of the ranked documents, in ranked order, and each reads back to its id |
| Ranking.CosineScores | query_parser.py:82-91 | Exactly one entry `(-score, d)` is pushed per row d, for d in 0..rows-1 |
| Numerics.Dot | query_parser.py:85 | `np.dot` with an all-zero document row is zero; DotZero states the same for an all-zero query |
| Ranking.MinIndex | query_parser.py:109 | A pop takes an entry that no other entry precedes in tuple order |
| Ranking.Extract | query_parser.py:108-115 | Never more entries than the heap holds, each scoring at least `alpha`; ExtractIsPrefix, ExtractMembership and ExtractMonotone state the rest |
| Ranking.DrainSorted | query_parser.py:108-112 | Popping everything yields descending scores, with equal scores by ascending id |
| Ranking.ExtractIsPrefix | query_parser.py:108-117 | The extracted entries are a prefix of the full pop order |
| Ranking.ExtractMonotone | query_parser.py:113-114 | A higher alpha extracts a prefix of what a lower alpha extracts |
| Ranking.ExtractMembership | query_parser.py:108-117 | An entry is extracted iff it is in the heap and its score is at least alpha |
| Ranking.ExtractDistinct | query_parser.py:108-117 | No id is extracted twice when the heap holds each id once |
| Ranking.RankDocuments | query_parser.py:101-117 | No more ids than matrix rows; RankMembership, RankOrder and RankPrefix state which ids and in what order |
| Ranking.RankMembership | query_parser.py:84-117 | A document is returned iff its score is at least alpha. Ids are distinct, and there are no more of them than rows |
| Ranking.RankOrder | query_parser.py:108-112 | Returned ids are in descending score order, with equal scores by ascending id |
| Ranking.RankPrefix | query_parser.py:108-117 | The result is a prefix of the full ranking, and raising alpha yields a prefix of the earlier result |

## Left out

- Pickle, glob and file access (`load_python_object`, `store_python_object`, the `open`/`glob` calls of `read_docs_files` and `read_stop_words`) are I/O. A file is modelled as its name and its text, and the text is taken after text-mode newline translation.
- `generate_index_file` and the `__main__` blocks only chain reading, building and storing, and time the run. They are plumbing around the modelled functions.
- app.py is the GUI event loop. Its empty-query check is not modelled.
- `nltk.download` and `WordNetLemmatizer` are foreign calls. The lemmatizer is an opaque `string -> string`, and so is `str.lower`, whose Unicode behaviour depends on context.
- The `\w` class is an abstract predicate. The `\d` class in the id extraction is modelled as the ASCII digits only, because non-ASCII decimal digits would need Unicode digit values.
- Floating point is not modelled. `log`, `log2` and `sqrt` are uninterpreted, arithmetic is exact on `real`, and unit length of the query vector is not proved.
- QueryParser.ResolveVsmQuery: when the weighted query vector has magnitude zero, numpy divides 0 by 0 and every score is NaN. The source then returns every document in an order set by the heap's handling of NaN. The model returns `Failure(UndefinedScores)` instead of that list.
- numpy's column-by-column growth is modelled as sequence appends, without its cost. `heapq` is modelled by its contents, with a pop taking the least entry in tuple order. Running time is not modelled.
