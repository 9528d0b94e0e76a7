/**
 * The command-line keyword search of `dataset_toolkits/search_objects.py`:
 * collect the hashes of the downloaded assets, keep the metadata rows of
 * downloaded assets paired with their lower-cased caption, and select the rows
 * whose caption contains the keyword. For the rows it prints, the program also
 * cuts a snippet of the caption around the first occurrence of the keyword.
 */
module ObjectSearch {
  import opened Wrappers
  import opened Text
  import opened Records
  import opened Comprehension

  /** One item of the preprocessed data: the tuple `(lower-cased caption, row)`. */
  datatype Entry = Entry(caption: string, row: MetaRow)

  /** `{row['sha256'] for row in reader}`. */
  function DownloadedSha256(downloaded: seq<DownloadedRow>): (r: set<string>)
    ensures forall h :: h in r <==> exists i :: 0 <= i < |downloaded| && downloaded[i].sha256 == h
  {
    set i | 0 <= i < |downloaded| :: downloaded[i].sha256
  }

  /** `row['captions'].lower() if row['captions'] else ''`: a missing or empty
      caption becomes `''`, any other is lower-cased. */
  function CaptionKey(row: MetaRow): (r: string)
    ensures row.captions.None? ==> r == ""
    ensures row.captions.Some? ==> r == Lower(row.captions.value)
  {
    match row.captions
    case None => ""
    case Some(c) => if c == "" then "" else Lower(c)
  }

  function IsDownloaded(downloaded: set<string>): MetaRow -> bool {
    (row: MetaRow) => row.sha256 in downloaded
  }

  function MakeEntry(row: MetaRow): Entry {
    Entry(CaptionKey(row), row)
  }

  /** `preprocess_data`: the rows of downloaded assets, each with its caption key. */
  function Preprocess(data: seq<MetaRow>, downloaded: set<string>): (r: seq<Entry>)
    ensures |r| <= |data|
    ensures forall e :: e in r <==>
      e.row in data && e.row.sha256 in downloaded && e.caption == CaptionKey(e.row)
  {
    ComprehendMembers(data, IsDownloaded(downloaded), MakeEntry);
    Comprehend(data, IsDownloaded(downloaded), MakeEntry)
  }

  /** Preprocessing keeps exactly the rows whose hash was downloaded, in their
      original order, each paired with its caption key. */
  lemma PreprocessInOrder(data: seq<MetaRow>, downloaded: set<string>)
    ensures var r, K := Preprocess(data, downloaded), KeptIndices(data, IsDownloaded(downloaded));
      |r| == |K| &&
      (forall j :: 0 <= j < |K| ==> r[j] == Entry(CaptionKey(data[K[j]]), data[K[j]])) &&
      (forall i :: 0 <= i < |data| ==> (i in K <==> data[i].sha256 in downloaded))
  {
    ComprehendAt(data, IsDownloaded(downloaded), MakeEntry);
  }

  /** Preprocessing a concatenation of tables preprocesses each in turn. */
  lemma PreprocessAppend(data1: seq<MetaRow>, data2: seq<MetaRow>, downloaded: set<string>)
    ensures Preprocess(data1 + data2, downloaded) == Preprocess(data1, downloaded) + Preprocess(data2, downloaded)
  {
    ComprehendAppend(data1, data2, IsDownloaded(downloaded), MakeEntry);
  }

  function CaptionHas(keyword: string): Entry -> bool {
    (e: Entry) => Contains(e.caption, keyword)
  }

  function RowOf(e: Entry): MetaRow {
    e.row
  }

  /** Line 19 of `search_objects`: the rows whose caption key contains the
      (already lower-cased) keyword. Rows are returned, not pairs. */
  function Matching(entries: seq<Entry>, keyword: string): (r: seq<MetaRow>)
    ensures |r| <= |entries|
    ensures forall row :: row in r <==>
      exists i :: 0 <= i < |entries| && entries[i].row == row && Contains(entries[i].caption, keyword)
  {
    ComprehendMembers(entries, CaptionHas(keyword), RowOf);
    Comprehend(entries, CaptionHas(keyword), RowOf)
  }

  /** The matches are the rows of exactly the entries whose caption contains the
      keyword, in their preprocessed order. */
  lemma MatchingInOrder(entries: seq<Entry>, keyword: string)
    ensures var r, K := Matching(entries, keyword), KeptIndices(entries, CaptionHas(keyword));
      |r| == |K| &&
      (forall j :: 0 <= j < |K| ==> r[j] == entries[K[j]].row) &&
      (forall i :: 0 <= i < |entries| ==> (i in K <==> Contains(entries[i].caption, keyword)))
  {
    ComprehendAt(entries, CaptionHas(keyword), RowOf);
  }

  /** An empty keyword matches every preprocessed row, because `'' in s` holds. */
  lemma EmptyKeywordMatchesAll(entries: seq<Entry>)
    ensures |Matching(entries, "")| == |entries|
    ensures forall i :: 0 <= i < |entries| ==> Matching(entries, "")[i] == entries[i].row
  {
    forall i | 0 <= i < |entries|
      ensures CaptionHas("")(entries[i])
    {
      ContainsEmpty(entries[i].caption);
    }
    ComprehendAll(entries, CaptionHas(""), RowOf);
  }

  /** The data `search_objects` is called with: every entry pairs a row with its own caption key. */
  predicate Preprocessed(entries: seq<Entry>) {
    forall i :: 0 <= i < |entries| ==> entries[i].caption == CaptionKey(entries[i].row)
  }

  lemma PreprocessIsPreprocessed(data: seq<MetaRow>, downloaded: set<string>)
    ensures Preprocessed(Preprocess(data, downloaded))
  {
    var r := Preprocess(data, downloaded);
    forall i | 0 <= i < |r|
      ensures r[i].caption == CaptionKey(r[i].row)
    {
      assert r[i] in r;
    }
  }

  /** The first index at which `keyword` occurs in the lower-cased caption `c`. */
  function FirstIndex(c: string, keyword: string): (i: nat)
    requires Contains(Lower(c), keyword)
    ensures i + |keyword| <= |c| && OccursAt(Lower(c), keyword, i)
    ensures forall j :: 0 <= j < i ==> !OccursAt(Lower(c), keyword, j)
  {
    IndexOf(Lower(c), keyword).value
  }

  /** Lines 22-23 as written, for one matching row: the first index of the keyword
      in the lower-cased caption, then `caption[index-n:index+n]` under Python's
      slice rules. `None` is the AttributeError raised by `None.lower()` when the
      row has no caption field at all. */
  function PrintedSnippet(row: MetaRow, keyword: string, n: int): (r: Option<string>)
    requires Contains(CaptionKey(row), keyword)
    ensures r.None? <==> row.captions.None?
  {
    match row.captions
    case None => None
    case Some(c) =>
      var index := FirstIndex(c, keyword);
      Some(PySlice(c, index - n, index + n))
  }

  /** When the keyword occurs at least `n` characters in and `n` covers the keyword,
      the as-written snippet shows the keyword (up to case). */
  lemma PrintedSnippetShowsKeyword(c: string, keyword: string, n: int)
    requires Contains(Lower(c), keyword)
    requires |keyword| <= n <= FirstIndex(c, keyword)
    ensures PrintedSnippet(MetaRow("", Some(c)), keyword, n).Some?
    ensures Contains(Lower(PrintedSnippet(MetaRow("", Some(c)), keyword, n).value), keyword)
  {
    var i := FirstIndex(c, keyword);
    var a, b := i - n, SliceBound(i + n, |c|);
    assert CaptionKey(MetaRow("", Some(c))) == Lower(c);
    assert PrintedSnippet(MetaRow("", Some(c)), keyword, n).value == c[a..b];
    WindowShowsKeyword(c, keyword, i, a, b);
  }

  /** The defect of line 23: when the keyword occurs fewer than `n` characters into
      a caption at least `2n` long, `index - n` is negative, Python counts it from
      the end of the caption, the start lands past the stop and the snippet is
      empty, so a non-empty keyword is not shown. */
  lemma PrintedSnippetEmptyForEarlyMatch(c: string, keyword: string, n: int)
    requires Contains(Lower(c), keyword)
    requires FirstIndex(c, keyword) < n && 2 * n <= |c|
    ensures PrintedSnippet(MetaRow("", Some(c)), keyword, n) == Some("")
    ensures keyword != "" ==> !Contains(Lower(PrintedSnippet(MetaRow("", Some(c)), keyword, n).value), keyword)
  {
    assert CaptionKey(MetaRow("", Some(c))) == Lower(c);
    EmptyContainsOnlyEmpty(keyword);
  }

  /** A concrete case: for the caption "Chair" followed by sixty 'x's, the keyword
      "chair" and the default `substring_length` of 30, the printed snippet is empty. */
  lemma EarlyMatchExample()
    ensures var c := "Chair" + seq(60, _ => 'x');
      Contains(Lower(c), "chair") && PrintedSnippet(MetaRow("", Some(c)), "chair", 30) == Some("")
  {
    var c := "Chair" + seq(60, _ => 'x');
    assert Lower(c)[0..5] == "chair";
    assert OccursAt(Lower(c), "chair", 0);
    PrintedSnippetEmptyForEarlyMatch(c, "chair", 30);
  }

  /** A window `c[a..b]` around an occurrence of the keyword in the lower-cased
      caption shows the keyword. */
  lemma WindowShowsKeyword(c: string, keyword: string, i: nat, a: nat, b: nat)
    requires OccursAt(Lower(c), keyword, i)
    requires a <= i && i + |keyword| <= b <= |c|
    ensures Contains(Lower(c[a..b]), keyword)
  {
    LowerSlice(c, a, b);
    assert Lower(c[a..b])[i - a..i - a + |keyword|] == Lower(c)[i..i + |keyword|];
    assert OccursAt(Lower(c[a..b]), keyword, i - a);
  }

  /** The snippet the code evidently means: up to `n` characters either side of the
      first occurrence, with the start clamped at the beginning of the caption.
      It always shows the keyword once `n` covers it. */
  function WindowSnippet(c: string, keyword: string, n: nat): (r: string)
    requires Contains(Lower(c), keyword)
    ensures |keyword| <= n ==> Contains(Lower(r), keyword)
  {
    var i := FirstIndex(c, keyword);
    var a := if i < n then 0 else i - n;
    var b := if i + n > |c| then |c| else i + n;
    if |keyword| <= n then WindowShowsKeyword(c, keyword, i, a, b); c[a..b]
    else c[a..b]
  }

  /** The corrected snippet agrees with the as-written one whenever the keyword
      occurs at least `n` characters into the caption. */
  lemma WindowSnippetAgrees(c: string, keyword: string, n: nat)
    requires Contains(Lower(c), keyword)
    requires n <= FirstIndex(c, keyword)
    ensures PrintedSnippet(MetaRow("", Some(c)), keyword, n) == Some(WindowSnippet(c, keyword, n))
  {
    assert CaptionKey(MetaRow("", Some(c))) == Lower(c);
    var i := FirstIndex(c, keyword);
    SliceAround(c, i, n);
  }

  /** A slice `[i - n : i + n]` whose start is not negative keeps the window
      `c[i - n..]`, cut at the end of the caption. */
  lemma SliceAround(c: string, i: nat, n: nat)
    requires n <= i <= |c|
    ensures PySlice(c, i - n, i + n) == c[i - n..if i + n > |c| then |c| else i + n]
  {
    var b := if i + n > |c| then |c| else i + n;
    assert SliceBound(i - n, |c|) == i - n && SliceBound(i + n, |c|) == b;
  }

  /** Every match of preprocessed data has a caption key containing the keyword. */
  lemma MatchesContainKeyword(entries: seq<Entry>, keyword: string)
    requires Preprocessed(entries)
    ensures forall row :: row in Matching(entries, keyword) ==> Contains(CaptionKey(row), keyword)
  {
  }

  /** `search_objects(preprocessed_data, keyword, print_rows, substring_length)`.
      The matches are returned unless printing one of the first `print_rows` of
      them fails: line 22 calls `.lower()` on the row's own caption field, which
      raises when that field is missing. */
  function SearchObjects(entries: seq<Entry>, keyword: string, printRows: int, substringLength: int)
    : (r: Option<seq<MetaRow>>)
    requires Preprocessed(entries)
    ensures r.Some? ==> r.value == Matching(entries, Lower(keyword))
  {
    var kw := Lower(keyword);
    var matches := Matching(entries, kw);
    var printed := PySlice(matches, 0, printRows);
    MatchesContainKeyword(entries, kw);
    if forall k :: 0 <= k < |printed| ==> PrintedSnippet(printed[k], kw, substringLength).Some?
    then Some(matches)
    else None
  }

  /** Printing fails only for an empty keyword: a row without a caption field has
      the caption key `''`, which contains no non-empty keyword. */
  lemma {:induction false} SearchObjectsFails(entries: seq<Entry>, keyword: string, printRows: int, substringLength: int)
    requires Preprocessed(entries)
    ensures SearchObjects(entries, keyword, printRows, substringLength).None? <==>
      keyword == "" &&
      exists k :: 0 <= k < |PySlice(entries, 0, printRows)| && PySlice(entries, 0, printRows)[k].row.captions.None?
  {
    var kw := Lower(keyword);
    var matches := Matching(entries, kw);
    var printed := PySlice(matches, 0, printRows);
    MatchesContainKeyword(entries, kw);
    if keyword == "" {
      assert kw == "";
      EmptyKeywordMatchesAll(entries);
      var listed := PySlice(entries, 0, printRows);
      assert |printed| == |listed|;
      forall k | 0 <= k < |printed|
        ensures printed[k] == listed[k].row
      {
        assert printed[k] == matches[k];
      }
    } else {
      forall k | 0 <= k < |printed|
        ensures printed[k].captions.Some?
      {
        var row := printed[k];
        assert row in matches;
        var i :| 0 <= i < |entries| && entries[i].row == row && Contains(entries[i].caption, kw);
        if row.captions.None? {
          EmptyContainsOnlyEmpty(kw);
        }
      }
    }
  }

  /** The returned list depends only on the data and the keyword, never on how
      many rows are printed or how long their snippets are. */
  lemma SearchIgnoresPrintSettings(entries: seq<Entry>, keyword: string, p1: int, n1: int, p2: int, n2: int)
    requires Preprocessed(entries)
    requires SearchObjects(entries, keyword, p1, n1).Some? && SearchObjects(entries, keyword, p2, n2).Some?
    ensures SearchObjects(entries, keyword, p1, n1) == SearchObjects(entries, keyword, p2, n2)
  {
  }

  /** The whole command-line pipeline: a metadata row is found for a keyword iff
      it is in the metadata, its hash is in the downloaded manifest and its
      lower-cased caption contains the lower-cased keyword; and the rows found
      keep the metadata order. */
  lemma PipelineFinds(data: seq<MetaRow>, downloaded: seq<DownloadedRow>, keyword: string, row: MetaRow)
    ensures var found := Matching(Preprocess(data, DownloadedSha256(downloaded)), Lower(keyword));
      row in found <==>
        row in data &&
        (exists i :: 0 <= i < |downloaded| && downloaded[i].sha256 == row.sha256) &&
        Contains(CaptionKey(row), Lower(keyword))
  {
    var entries := Preprocess(data, DownloadedSha256(downloaded));
    var kw := Lower(keyword);
    if row in data && row.sha256 in DownloadedSha256(downloaded) && Contains(CaptionKey(row), kw) {
      var e := Entry(CaptionKey(row), row);
      assert e in entries;
      var i :| 0 <= i < |entries| && entries[i] == e;
    }
    if row in Matching(entries, kw) {
      var i :| 0 <= i < |entries| && entries[i].row == row && Contains(entries[i].caption, kw);
      assert entries[i] in entries;
    }
  }
}
