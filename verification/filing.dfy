/**
 * The string logic of filing.py: the numeric document id taken from a file
 * name, the title line dropped from a document, the assembly of the two
 * id-keyed dictionaries, and the whitespace split of the stop-word file.
 * Opening, globbing and decoding files are I/O and stay outside: a file is
 * its name and its text after newline translation.
 */
module Filing {
  import opened Wrappers
  import opened Seqs
  import opened OrderedMaps
  import Tokenizer

  // ---------------------------------------------------------------------
  // Decimal digits: the regex `\d+` and `int(...)` on its match
  // ---------------------------------------------------------------------

  predicate IsDigit(c: char) {
    '0' <= c <= '9'
  }

  predicate AllDigits(s: string) {
    forall k :: 0 <= k < |s| ==> IsDigit(s[k])
  }

  predicate NoDigits(s: string) {
    forall k :: 0 <= k < |s| ==> !IsDigit(s[k])
  }

  function DigitValue(c: char): (d: nat)
    requires IsDigit(c)
    ensures d < 10
  {
    c as int - '0' as int
  }

  function DigitChar(d: nat): (c: char)
    requires d < 10
    ensures IsDigit(c) && DigitValue(c) == d
  {
    ('0' as int + d) as char
  }

  /** `int(digits)` for a string of ASCII decimal digits. */
  function DecimalValue(digits: string): (v: nat)
    requires AllDigits(digits)
    ensures v == 0 <==> forall k :: 0 <= k < |digits| ==> digits[k] == '0'
  {
    if digits == [] then 0
    else 10 * DecimalValue(digits[..|digits| - 1]) + DigitValue(digits[|digits| - 1])
  }

  /** `str(n)`: the decimal numeral of `n`, without leading zeros. */
  function DecimalString(n: nat): (s: string)
    ensures |s| >= 1 && AllDigits(s)
    ensures |s| > 1 ==> s[0] != '0'
  {
    if n < 10 then [DigitChar(n)] else DecimalString(n / 10) + [DigitChar(n % 10)]
  }

  /** Reading back a numeral gives the number. */
  lemma {:induction false} DecimalRoundTrip(n: nat)
    ensures DecimalValue(DecimalString(n)) == n
  {
    if n >= 10 {
      var s := DecimalString(n);
      assert s[..|s| - 1] == DecimalString(n / 10);
      DecimalRoundTrip(n / 10);
    }
  }

  /** A digit string whose first digit is not zero has a positive value. */
  lemma {:induction false} LeadingDigitPositive(s: string)
    requires |s| >= 1 && AllDigits(s) && s[0] != '0'
    ensures DecimalValue(s) >= 1
  {
    if |s| > 1 {
      LeadingDigitPositive(s[..|s| - 1]);
    }
  }

  /** `str(n)` is the only numeral of `n` without leading zeros. */
  lemma {:induction false} CanonicalNumeral(s: string, n: nat)
    requires |s| >= 1 && AllDigits(s) && (|s| > 1 ==> s[0] != '0')
    requires DecimalValue(s) == n
    ensures s == DecimalString(n)
    decreases |s|
  {
    var last := s[|s| - 1];
    if |s| == 1 {
      assert DigitChar(DigitValue(last)) == last;
      assert s == [last];
    } else {
      var init := s[..|s| - 1];
      LeadingDigitPositive(init);
      assert n / 10 == DecimalValue(init) && n % 10 == DigitValue(last);
      CanonicalNumeral(init, n / 10);
      assert DigitChar(DigitValue(last)) == last;
      assert s == init + [last];
    }
  }

  /** `k` zero characters. */
  function Zeros(k: nat): (s: string)
    ensures |s| == k && AllDigits(s)
  {
    if k == 0 then [] else ['0'] + Zeros(k - 1)
  }

  lemma {:induction false} ZerosValue(k: nat)
    ensures DecimalValue(Zeros(k)) == 0
  {
    if k > 0 {
      ZerosSnoc(k);
      assert Zeros(k)[..k - 1] == Zeros(k - 1);
      ZerosValue(k - 1);
    }
  }

  lemma {:induction false} ZerosSnoc(k: nat)
    requires k > 0
    ensures Zeros(k) == Zeros(k - 1) + ['0']
  {
    if k > 1 {
      ZerosSnoc(k - 1);
    }
  }

  /** Leading zeros do not change the value of a numeral. */
  lemma {:induction false} LeadingZeros(k: nat, digits: string)
    requires AllDigits(digits)
    ensures DecimalValue(Zeros(k) + digits) == DecimalValue(digits)
    decreases |digits|
  {
    if digits == [] {
      assert Zeros(k) + digits == Zeros(k);
      ZerosValue(k);
    } else {
      var init := digits[..|digits| - 1];
      LeadingZeros(k, init);
      var s := Zeros(k) + digits;
      assert s[..|s| - 1] == Zeros(k) + init;
      assert s[|s| - 1] == digits[|digits| - 1];
    }
  }

  // ---------------------------------------------------------------------
  // The document id: `int(re.search(r'\d+', file_name).group(0))`
  // ---------------------------------------------------------------------

  datatype FilingError = NoDigitInName(fileName: string)

  /** Length of the run of digits `s` starts with. */
  function DigitRunLength(s: string): (n: nat)
    ensures n <= |s| && AllDigits(s[..n])
    ensures n < |s| ==> !IsDigit(s[n])
  {
    if s == [] || !IsDigit(s[0]) then 0 else 1 + DigitRunLength(s[1..])
  }

  /** The first maximal run of digits in `s`, if any. */
  function FirstDigitRun(s: string): (run: Option<string>)
    ensures run.None? <==> NoDigits(s)
    ensures run.Some? ==> |run.value| > 0 && AllDigits(run.value)
  {
    if s == [] then None
    else if IsDigit(s[0]) then Some(s[..DigitRunLength(s)])
    else FirstDigitRun(s[1..])
  }

  /** `int(re.search(r'\d+', file_name).group(0))` in `read_docs_files`: a name without a digit raises. */
  function DocId(fileName: string): (r: Result<nat, FilingError>)
    ensures r.Failure? <==> NoDigits(fileName)
  {
    match FirstDigitRun(fileName)
    case None => Failure(NoDigitInName(fileName))
    case Some(run) => Success(DecimalValue(run))
  }

  lemma {:induction false} DigitRunOf(digits: string, suffix: string)
    requires AllDigits(digits)
    requires suffix == [] || !IsDigit(suffix[0])
    ensures DigitRunLength(digits + suffix) == |digits|
  {
    if digits != [] {
      assert (digits + suffix)[1..] == digits[1..] + suffix;
      DigitRunOf(digits[1..], suffix);
    } else {
      assert digits + suffix == suffix;
    }
  }

  /**
   * The id is the value of the first maximal digit run: whatever comes before
   * it has no digit and whatever follows does not start with one.
   */
  lemma {:induction false} DocIdOfRun(prefix: string, digits: string, suffix: string)
    requires NoDigits(prefix)
    requires |digits| > 0 && AllDigits(digits)
    requires suffix == [] || !IsDigit(suffix[0])
    ensures DocId(prefix + digits + suffix) == Success(DecimalValue(digits))
  {
    var s := prefix + digits + suffix;
    if prefix == [] {
      assert s == digits + suffix;
      DigitRunOf(digits, suffix);
      assert s[..|digits|] == digits;
    } else {
      assert s[1..] == prefix[1..] + digits + suffix;
      DocIdOfRun(prefix[1..], digits, suffix);
    }
  }

  /** A name carrying the numeral of `n`, with any number of leading zeros, has id `n`. */
  lemma DocIdRoundTrip(prefix: string, zeros: nat, n: nat, suffix: string)
    requires NoDigits(prefix)
    requires suffix == [] || !IsDigit(suffix[0])
    ensures DocId(prefix + (Zeros(zeros) + DecimalString(n)) + suffix) == Success(n)
  {
    DocIdOfRun(prefix, Zeros(zeros) + DecimalString(n), suffix);
    LeadingZeros(zeros, DecimalString(n));
    DecimalRoundTrip(n);
  }

  // ---------------------------------------------------------------------
  // The document body: `readline()` discards the title, `read()` keeps the rest
  // ---------------------------------------------------------------------

  /** `readline()` then `read()` in `read_docs_files`: the text after the first line break, or nothing if there is none. */
  function StripTitle(text: string): (body: string)
    ensures |body| <= |text| && body == text[|text| - |body|..]
    ensures '\n' !in text ==> body == []
  {
    if text == [] then []
    else if text[0] == '\n' then text[1..]
    else StripTitle(text[1..])
  }

  /** Everything after the title line, and only that, is the body. */
  lemma {:induction false} StripTitleRoundTrip(title: string, body: string)
    requires '\n' !in title
    ensures StripTitle(title + ['\n'] + body) == body
  {
    var s := title + ['\n'] + body;
    if title == [] {
      assert s[0] == '\n' && s[1..] == body;
    } else {
      assert s[0] == title[0];
      assert s[1..] == title[1..] + ['\n'] + body;
      StripTitleRoundTrip(title[1..], body);
    }
  }

  // ---------------------------------------------------------------------
  // read_docs_files: two dictionaries keyed by document id
  // ---------------------------------------------------------------------

  /** A discovered file: its name and its decoded text. */
  datatype TextFile = TextFile(name: string, text: string)

  /** `doc_ids` (id -> file name) and `documents` (id -> body). */
  datatype Corpus = Corpus(fileNames: OrderedMap<string>, documents: OrderedMap<string>)

  ghost predicate HasId(files: seq<TextFile>, id: nat) {
    exists i :: 0 <= i < |files| && DocId(files[i].name) == Success(id)
  }

  ghost predicate Consistent(c: Corpus) {
    && c.fileNames.Valid() && c.documents.Valid()
    && c.fileNames.keys == c.documents.keys
  }

  /** `doc_ids[doc_id] = file_name` and `documents[doc_id] = document` for one file whose id is `id`. */
  function Record(c: Corpus, id: nat, file: TextFile): (r: Corpus)
    requires Consistent(c)
    ensures Consistent(r)
    ensures r.fileNames.values == c.fileNames.values[id := file.name]
    ensures r.documents.values == c.documents.values[id := StripTitle(file.text)]
  {
    Corpus(c.fileNames.Put(id, file.name), c.documents.Put(id, StripTitle(file.text)))
  }

  /** The id of every file, in discovery order; the first name without a digit aborts. */
  function ParseIds(files: seq<TextFile>): (r: Result<seq<nat>, FilingError>)
    ensures r.Success? <==> forall i :: 0 <= i < |files| ==> DocId(files[i].name).Success?
    ensures r.Success? ==> |r.value| == |files|
    ensures r.Success? ==> forall i :: 0 <= i < |files| ==> DocId(files[i].name) == Success(r.value[i])
  {
    if files == [] then Success([])
    else
      match DocId(files[0].name)
      case Failure(e) => Failure(e)
      case Success(id) =>
        match ParseIds(files[1..])
        case Failure(e) => Failure(e)
        case Success(ids) => Success([id] + ids)
  }

  /** The loop of `read_docs_files` once every id is known: record the files one after another. */
  function Assemble(files: seq<TextFile>, ids: seq<nat>): (c: Corpus)
    requires |ids| == |files|
    ensures Consistent(c)
  {
    if files == [] then Corpus(Empty(), Empty())
    else Record(Assemble(files[..|files| - 1], ids[..|ids| - 1]), ids[|ids| - 1], files[|files| - 1])
  }

  /**
   * `read_docs_files` over the files in discovery order. A name without a digit
   * aborts the whole read; a later file with an id already seen overwrites
   * both entries while the id keeps its first place.
   */
  function ReadDocsFiles(files: seq<TextFile>): (r: Result<Corpus, FilingError>)
    ensures r.Success? <==> forall i :: 0 <= i < |files| ==> DocId(files[i].name).Success?
    ensures r.Success? ==> Consistent(r.value)
  {
    match ParseIds(files)
    case Failure(e) => Failure(e)
    case Success(ids) => Success(Assemble(files, ids))
  }

  lemma {:induction false} AssembleKeys(files: seq<TextFile>, ids: seq<nat>)
    requires |ids| == |files|
    ensures forall id :: id in Assemble(files, ids).documents.values <==> id in ids
    ensures forall id :: id in Assemble(files, ids).fileNames.values <==> id in ids
  {
    if files != [] {
      var init := ids[..|ids| - 1];
      AssembleKeys(files[..|files| - 1], init);
      assert ids == init + [ids[|ids| - 1]];
    }
  }

  lemma {:induction false} AssembleLastWins(files: seq<TextFile>, ids: seq<nat>, i: nat)
    requires |ids| == |files| && i < |files|
    requires forall j :: i < j < |files| ==> ids[j] != ids[i]
    ensures var c := Assemble(files, ids);
      && ids[i] in c.fileNames.values && ids[i] in c.documents.values
      && c.fileNames.values[ids[i]] == files[i].name
      && c.documents.values[ids[i]] == StripTitle(files[i].text)
  {
    if i < |files| - 1 {
      var ids' := ids[..|ids| - 1];
      var files' := files[..|files| - 1];
      assert ids'[i] == ids[i] && files'[i] == files[i];
      assert forall j :: i < j < |files'| ==> ids'[j] == ids[j];
      AssembleLastWins(files', ids', i);
    }
  }

  /** Both dictionaries list their ids in the order the ids are first met. */
  lemma {:induction false} AssembleOrder(files: seq<TextFile>, ids: seq<nat>)
    requires |ids| == |files|
    ensures Assemble(files, ids).documents.keys == FirstSeen(ids)
    ensures Assemble(files, ids).fileNames.keys == FirstSeen(ids)
  {
    if files != [] {
      var init := ids[..|ids| - 1];
      AssembleOrder(files[..|files| - 1], init);
      AssembleKeys(files[..|files| - 1], init);
    }
  }

  /** The parsed ids are exactly the ids the file names carry. */
  lemma ParsedIds(files: seq<TextFile>, ids: seq<nat>)
    requires |ids| == |files|
    requires forall i :: 0 <= i < |files| ==> DocId(files[i].name) == Success(ids[i])
    ensures forall id: nat :: id in ids <==> HasId(files, id)
  {
    forall id: nat ensures id in ids <==> HasId(files, id) {
      if id in ids {
        var i :| 0 <= i < |ids| && ids[i] == id;
        assert DocId(files[i].name) == Success(id);
      }
      if HasId(files, id) {
        var i :| 0 <= i < |files| && DocId(files[i].name) == Success(id);
        assert ids[i] == id;
      }
    }
  }

  /** The dictionaries hold exactly the ids found in the file names. */
  lemma ReadDocsFilesKeys(files: seq<TextFile>)
    requires ReadDocsFiles(files).Success?
    ensures forall id: nat :: id in ReadDocsFiles(files).value.documents.values <==> HasId(files, id)
    ensures forall id: nat :: id in ReadDocsFiles(files).value.fileNames.values <==> HasId(files, id)
  {
    var ids := ParseIds(files).value;
    AssembleKeys(files, ids);
    ParsedIds(files, ids);
  }

  /**
   * The dictionaries iterate their ids in the order the files carrying them
   * are first discovered; a repeated id keeps its first place.
   */
  lemma ReadDocsFilesOrder(files: seq<TextFile>)
    requires ReadDocsFiles(files).Success?
    ensures var ids := ParseIds(files).value;
      && ReadDocsFiles(files).value.documents.keys == FirstSeen(ids)
      && ReadDocsFiles(files).value.fileNames.keys == FirstSeen(ids)
  {
    AssembleOrder(files, ParseIds(files).value);
  }

  /** For every id, the file read last with that id supplies both entries. */
  lemma LaterFileWins(files: seq<TextFile>, i: nat)
    requires i < |files| && ReadDocsFiles(files).Success?
    requires forall j :: i < j < |files| ==> DocId(files[j].name) != DocId(files[i].name)
    ensures var c := ReadDocsFiles(files).value;
      var id := DocId(files[i].name).value;
      && id in c.fileNames.values && id in c.documents.values
      && c.fileNames.values[id] == files[i].name
      && c.documents.values[id] == StripTitle(files[i].text)
  {
    var ids := ParseIds(files).value;
    AssembleLastWins(files, ids, i);
  }

  // ---------------------------------------------------------------------
  // read_stop_words: `set(text.split())`
  // ---------------------------------------------------------------------

  /** Python's `str.isspace` for a single code point. */
  predicate IsSpace(c: char)
    ensures c == ' ' || c == '\t' || c == '\n' || c == '\r' ==> IsSpace(c)
    ensures IsSpace(c) ==> !IsDigit(c) && !('a' <= c <= 'z') && !('A' <= c <= 'Z') && c != '_'
  {
    var n := c as int;
    || (0x09 <= n <= 0x0D) || (0x1C <= n <= 0x20)
    || n == 0x85 || n == 0xA0 || n == 0x1680
    || (0x2000 <= n <= 0x200A)
    || n == 0x2028 || n == 0x2029 || n == 0x202F || n == 0x205F || n == 0x3000
  }

  predicate NotSpace(c: char) {
    !IsSpace(c)
  }

  /** A non-empty string without whitespace: one word of `str.split()`. */
  predicate NonBlankWord(w: string) {
    |w| > 0 && forall k :: 0 <= k < |w| ==> !IsSpace(w[k])
  }

  /** `str.split()` without arguments: the maximal runs of non-whitespace characters. */
  function SplitWhitespace(s: string): (words: seq<string>)
    ensures forall i :: 0 <= i < |words| ==> NonBlankWord(words[i])
    ensures |s| > 0 && !IsSpace(s[0]) ==> |words| > 0
  {
    if s == [] then []
    else if IsSpace(s[0]) then SplitWhitespace(s[1..])
    else
      var rest := SplitWhitespace(s[1..]);
      if |s| > 1 && !IsSpace(s[1]) then [[s[0]] + rest[0]] + rest[1..]
      else [[s[0]]] + rest
  }

  function NonEmpty(ts: seq<string>): seq<string> {
    if ts == [] then []
    else if ts[0] == [] then NonEmpty(ts[1..])
    else [ts[0]] + NonEmpty(ts[1..])
  }

  /**
   * Splitting on whitespace is the regex split on whitespace runs with the
   * empty pieces at the ends removed.
   */
  lemma {:induction false} SplitIsTokenize(s: string)
    ensures SplitWhitespace(s) == NonEmpty(Tokenizer.Tokenize(s, NotSpace))
  {
    if s != [] {
      var rest := Tokenizer.Tokenize(s[1..], NotSpace);
      SplitIsTokenize(s[1..]);
      if IsSpace(s[0]) {
        if !(|s| > 1 && IsSpace(s[1])) {
          assert NonEmpty([""] + rest) == NonEmpty(rest);
        }
      } else {
        var t := Tokenizer.Tokenize(s, NotSpace);
        assert t == [[s[0]] + rest[0]] + rest[1..];
        assert NonEmpty(t) == [[s[0]] + rest[0]] + NonEmpty(rest[1..]);
        Tokenizer.FirstTokenEmpty(s[1..], NotSpace);
        assert rest == [rest[0]] + rest[1..];
        if |s| > 1 && !IsSpace(s[1]) {
          assert NonEmpty(rest) == [rest[0]] + NonEmpty(rest[1..]);
        } else {
          assert NonEmpty(rest) == NonEmpty(rest[1..]);
          assert [s[0]] + rest[0] == [s[0]];
        }
      }
    }
  }

  /** `read_stop_words`: `set(text.split())`, the stop-word set. */
  function ReadStopWords(text: string): (stopWords: set<string>)
    ensures forall w :: w in stopWords ==> NonBlankWord(w)
  {
    ToSet(SplitWhitespace(text))
  }

  lemma {:induction false} NonEmptyOfNonEmpty(ts: seq<string>)
    requires forall i :: 0 <= i < |ts| ==> ts[i] != []
    ensures NonEmpty(ts) == ts
  {
    if ts != [] {
      NonEmptyOfNonEmpty(ts[1..]);
    }
  }

  predicate AllSpace(g: string) {
    forall k :: 0 <= k < |g| ==> IsSpace(g[k])
  }

  /**
   * A stop-word file laid out as `gaps[0] + words[0] + gaps[1] + ... + gaps[n]`:
   * whitespace before, between and after the words, as in one word per line
   * with a final newline.
   */
  function Layout(words: seq<string>, gaps: seq<string>): string
    requires |gaps| == |words| + 1
  {
    if words == [] then gaps[0] else gaps[0] + words[0] + Layout(words[1..], gaps[1..])
  }

  /** Leading whitespace does not change the split. */
  lemma {:induction false} SplitSkipsSpaces(g: string, x: string)
    requires AllSpace(g)
    ensures SplitWhitespace(g + x) == SplitWhitespace(x)
    decreases |g|
  {
    if g != [] {
      assert (g + x)[0] == g[0];
      assert (g + x)[1..] == g[1..] + x;
      SplitSkipsSpaces(g[1..], x);
    } else {
      assert g + x == x;
    }
  }

  /** A word followed by whitespace or by nothing is split off whole. */
  lemma {:induction false} SplitWordFirst(w: string, x: string)
    requires NonBlankWord(w) && (x == [] || IsSpace(x[0]))
    ensures SplitWhitespace(w + x) == [w] + SplitWhitespace(x)
    decreases |w|
  {
    assert (w + x)[0] == w[0];
    assert (w + x)[1..] == w[1..] + x;
    if |w| > 1 {
      assert (w + x)[1] == w[1];
      SplitWordFirst(w[1..], x);
      assert [w[0]] + w[1..] == w;
    } else {
      assert w[1..] + x == x && [w[0]] == w;
      if x != [] {
        assert (w + x)[1] == x[0];
      }
    }
  }

  /** After the first word of a layout comes whitespace, or nothing at all. */
  lemma LayoutUnfold(words: seq<string>, gaps: seq<string>)
    requires |gaps| == |words| + 1 && |words| >= 1
    ensures Layout(words, gaps) == gaps[0] + (words[0] + Layout(words[1..], gaps[1..]))
  {
  }

  lemma LayoutRestStart(words: seq<string>, gaps: seq<string>)
    requires |gaps| == |words| + 1 && |words| >= 1
    requires forall i :: 0 <= i < |gaps| ==> AllSpace(gaps[i])
    requires forall i :: 0 < i < |words| ==> gaps[i] != []
    ensures var rest := Layout(words[1..], gaps[1..]); rest == [] || IsSpace(rest[0])
  {
    if |words| > 1 {
      var g := gaps[1];
      assert g != [] && IsSpace(g[0]);
      LayoutUnfold(words[1..], gaps[1..]);
      assert gaps[1..][0] == g;
    }
  }

  /** Words laid out with any whitespace around and between them split back into those words. */
  lemma {:induction false} LayoutSplit(words: seq<string>, gaps: seq<string>)
    requires |gaps| == |words| + 1
    requires forall i :: 0 <= i < |words| ==> NonBlankWord(words[i])
    requires forall i :: 0 <= i < |gaps| ==> AllSpace(gaps[i])
    requires forall i :: 0 < i < |words| ==> gaps[i] != []
    ensures SplitWhitespace(Layout(words, gaps)) == words
    decreases |words|
  {
    if words == [] {
      SplitSkipsSpaces(gaps[0], []);
      assert gaps[0] + [] == gaps[0];
    } else {
      var rest := Layout(words[1..], gaps[1..]);
      assert forall i :: 0 <= i < |words| - 1 ==> words[1..][i] == words[i + 1];
      assert forall i :: 0 <= i < |gaps| - 1 ==> gaps[1..][i] == gaps[i + 1];
      LayoutSplit(words[1..], gaps[1..]);
      LayoutUnfold(words, gaps);
      LayoutRestStart(words, gaps);
      SplitWordFirst(words[0], rest);
      SplitSkipsSpaces(gaps[0], words[0] + rest);
    }
  }

  /**
   * A stop-word file with the words laid out with any whitespace around and
   * between them, such as one word per line, gives exactly those words.
   */
  lemma StopWordsRoundTrip(words: seq<string>, gaps: seq<string>)
    requires |gaps| == |words| + 1
    requires forall i :: 0 <= i < |words| ==> NonBlankWord(words[i])
    requires forall i :: 0 <= i < |gaps| ==> AllSpace(gaps[i])
    requires forall i :: 0 < i < |words| ==> gaps[i] != []
    ensures SplitWhitespace(Layout(words, gaps)) == words
    ensures ReadStopWords(Layout(words, gaps)) == ToSet(words)
  {
    LayoutSplit(words, gaps);
  }
}
