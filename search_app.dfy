/**
 * The web search of `search_app.py`: at startup the metadata table is left-joined
 * with the downloaded manifest on `sha256`, gaining a `local_path` column; a search
 * lower-cases the keyword, rejects an empty one, selects the rows whose lower-cased
 * caption contains it and turns their local paths into `/serve_model/` routes.
 */
module SearchApp {
  import opened Wrappers
  import opened Text
  import opened Records
  import opened Comprehension

  /** A metadata table as read by `pd.read_csv`: whether it has the `sha256` and
      `captions` columns, and its rows. */
  datatype MetadataTable = MetadataTable(hasSha256: bool, hasCaptions: bool, rows: seq<MetaRow>)

  /** The downloaded manifest: whether it has the `sha256` column, and its rows. */
  datatype DownloadedTable = DownloadedTable(hasSha256: bool, rows: seq<DownloadedRow>)

  /** A row of the table searched at request time. */
  datatype CatalogRow = CatalogRow(sha256: string, captions: Option<string>, localPath: Option<string>)

  /** The table searched at request time; `hasLocalPath` tells whether the join happened. */
  datatype Catalog = Catalog(hasCaptions: bool, hasLocalPath: bool, rows: seq<CatalogRow>)

  /** What the handler returns: an error message with its HTTP status, the rendered
      list of asset routes, the KeyError raised for a missing column, or the
      AttributeError raised by `.str` on a `captions` column that holds no string. */
  datatype Response =
    | QueryError(status: int, message: string)
    | Rendered(assetPaths: seq<string>)
    | MissingColumn(column: string)
    | StrAccessorError

  const ServePrefix := "/serve_model/"
  const EmptyQueryMessage := "Enter a search query."

  function HasSha(sha256: string): DownloadedRow -> bool {
    (d: DownloadedRow) => d.sha256 == sha256
  }

  function PathOf(d: DownloadedRow): Option<string> {
    d.localPath
  }

  /** The `local_path` values of the manifest rows with the given hash, in manifest order. */
  function PathsFor(sha256: string, downloaded: seq<DownloadedRow>): seq<Option<string>> {
    Comprehend(downloaded, HasSha(sha256), PathOf)
  }

  /** The paths joined onto a hash are exactly the `local_path` values of the
      manifest rows with that hash. */
  lemma PathsForMembers(sha256: string, downloaded: seq<DownloadedRow>)
    ensures forall p :: p in PathsFor(sha256, downloaded) <==>
      exists i :: 0 <= i < |downloaded| && downloaded[i].sha256 == sha256 && downloaded[i].localPath == p
  {
    ComprehendMembers(downloaded, HasSha(sha256), PathOf);
    forall p
      ensures p in PathsFor(sha256, downloaded) <==>
        exists i :: 0 <= i < |downloaded| && downloaded[i].sha256 == sha256 && downloaded[i].localPath == p
    {
      if p in PathsFor(sha256, downloaded) {
        ComprehendAt(downloaded, HasSha(sha256), PathOf);
        var K := KeptIndices(downloaded, HasSha(sha256));
        var j :| 0 <= j < |PathsFor(sha256, downloaded)| && PathsFor(sha256, downloaded)[j] == p;
        assert HasSha(sha256)(downloaded[K[j]]) && PathOf(downloaded[K[j]]) == p;
      }
      if exists i :: 0 <= i < |downloaded| && downloaded[i].sha256 == sha256 && downloaded[i].localPath == p {
        var i :| 0 <= i < |downloaded| && downloaded[i].sha256 == sha256 && downloaded[i].localPath == p;
        assert HasSha(sha256)(downloaded[i]) && PathOf(downloaded[i]) == p;
      }
    }
  }

  /** The rows one metadata row contributes to a left join (see `JoinRowPaths`). */
  function JoinRow(m: MetaRow, downloaded: seq<DownloadedRow>): (r: seq<CatalogRow>)
    ensures |r| >= 1
    ensures forall k :: 0 <= k < |r| ==> r[k].sha256 == m.sha256 && r[k].captions == m.captions
  {
    var paths := PathsFor(m.sha256, downloaded);
    if paths == [] then [CatalogRow(m.sha256, m.captions, None)]
    else seq(|paths|, k requires 0 <= k < |paths| => CatalogRow(m.sha256, m.captions, paths[k]))
  }

  /** A metadata row joins to one row per manifest row with its hash, in manifest
      order, each carrying that manifest row's `local_path`; or to a single row
      without a path when no manifest row has its hash. */
  lemma JoinRowPaths(m: MetaRow, downloaded: seq<DownloadedRow>)
    ensures (forall j :: 0 <= j < |downloaded| ==> downloaded[j].sha256 != m.sha256) ==>
      JoinRow(m, downloaded) == [CatalogRow(m.sha256, m.captions, None)]
    ensures var r, K := JoinRow(m, downloaded), KeptIndices(downloaded, HasSha(m.sha256));
      K != [] ==> (|r| == |K| &&
        forall k :: 0 <= k < |K| ==> r[k] == CatalogRow(m.sha256, m.captions, downloaded[K[k]].localPath))
  {
    ComprehendAt(downloaded, HasSha(m.sha256), PathOf);
    ComprehendEmpty(downloaded, HasSha(m.sha256), PathOf);
  }

  function JoinBlock(downloaded: seq<DownloadedRow>): MetaRow -> seq<CatalogRow> {
    (m: MetaRow) => JoinRow(m, downloaded)
  }

  /** `metadata_df.merge(downloaded_df[["sha256", "local_path"]], on="sha256", how="left")`:
      each metadata row's block of joined rows, in metadata order. */
  function LeftJoin(meta: seq<MetaRow>, downloaded: seq<DownloadedRow>): (r: seq<CatalogRow>)
    ensures |r| >= |meta|
  {
    FlatMapLonger(meta, JoinBlock(downloaded));
    FlatMap(meta, JoinBlock(downloaded))
  }

  /** Joining concatenated metadata tables concatenates the joins: the join keeps
      metadata order, each metadata row giving its own block of rows. */
  lemma LeftJoinAppend(meta1: seq<MetaRow>, meta2: seq<MetaRow>, downloaded: seq<DownloadedRow>)
    ensures LeftJoin(meta1 + meta2, downloaded) == LeftJoin(meta1, downloaded) + LeftJoin(meta2, downloaded)
  {
    FlatMapAppend(meta1, meta2, JoinBlock(downloaded));
  }

  /** Every joined row carries the hash and caption of some metadata row, and its path
      is that of a manifest row with the same hash, or missing when no manifest row
      has that hash. */
  lemma LeftJoinRows(meta: seq<MetaRow>, downloaded: seq<DownloadedRow>)
    ensures forall row :: row in LeftJoin(meta, downloaded) ==>
      exists i :: 0 <= i < |meta| && meta[i].sha256 == row.sha256 && meta[i].captions == row.captions &&
        if PathsFor(row.sha256, downloaded) == [] then row.localPath.None?
        else row.localPath in PathsFor(row.sha256, downloaded)
  {
    FlatMapMembers(meta, JoinBlock(downloaded));
    forall row | row in LeftJoin(meta, downloaded)
      ensures exists i :: (0 <= i < |meta| && meta[i].sha256 == row.sha256 && meta[i].captions == row.captions &&
        if PathsFor(row.sha256, downloaded) == [] then row.localPath.None?
        else row.localPath in PathsFor(row.sha256, downloaded))
    {
      var i :| 0 <= i < |meta| && row in JoinBlock(downloaded)(meta[i]);
      var r := JoinRow(meta[i], downloaded);
      var k :| 0 <= k < |r| && r[k] == row;
      var paths := PathsFor(meta[i].sha256, downloaded);
      if paths != [] {
        assert row.localPath == paths[k];
      }
    }
  }

  /** The join keeps every metadata row: paired with the `local_path` of each manifest
      row that has its hash, or once without a path when no manifest row has it. */
  lemma LeftJoinCovers(meta: seq<MetaRow>, downloaded: seq<DownloadedRow>)
    ensures forall i, j :: 0 <= i < |meta| && 0 <= j < |downloaded| && downloaded[j].sha256 == meta[i].sha256 ==>
      CatalogRow(meta[i].sha256, meta[i].captions, downloaded[j].localPath) in LeftJoin(meta, downloaded)
    ensures forall i :: 0 <= i < |meta| && (forall j :: 0 <= j < |downloaded| ==> downloaded[j].sha256 != meta[i].sha256) ==>
      CatalogRow(meta[i].sha256, meta[i].captions, None) in LeftJoin(meta, downloaded)
  {
    FlatMapMembers(meta, JoinBlock(downloaded));
    forall i, j | 0 <= i < |meta| && 0 <= j < |downloaded| && downloaded[j].sha256 == meta[i].sha256
      ensures CatalogRow(meta[i].sha256, meta[i].captions, downloaded[j].localPath) in LeftJoin(meta, downloaded)
    {
      var m := meta[i];
      JoinRowPaths(m, downloaded);
      var K := KeptIndices(downloaded, HasSha(m.sha256));
      assert j in K;
      var k :| 0 <= k < |K| && K[k] == j;
      assert JoinRow(m, downloaded)[k] == CatalogRow(m.sha256, m.captions, downloaded[j].localPath);
      assert CatalogRow(m.sha256, m.captions, downloaded[j].localPath) in JoinBlock(downloaded)(meta[i]);
    }
    forall i | 0 <= i < |meta| && (forall j :: 0 <= j < |downloaded| ==> downloaded[j].sha256 != meta[i].sha256)
      ensures CatalogRow(meta[i].sha256, meta[i].captions, None) in LeftJoin(meta, downloaded)
    {
      JoinRowPaths(meta[i], downloaded);
      assert CatalogRow(meta[i].sha256, meta[i].captions, None) in JoinBlock(downloaded)(meta[i]);
    }
  }

  /** No hash occurs twice in the manifest. */
  predicate UniqueHashes(downloaded: seq<DownloadedRow>) {
    forall i, j :: 0 <= i < j < |downloaded| ==> downloaded[i].sha256 != downloaded[j].sha256
  }

  /** The path the manifest records for a hash, if any manifest row has it. */
  function LookupPath(sha256: string, downloaded: seq<DownloadedRow>): (r: Option<string>)
    requires UniqueHashes(downloaded)
    ensures (exists i :: 0 <= i < |downloaded| && downloaded[i].sha256 == sha256) ==>
      exists i :: 0 <= i < |downloaded| && downloaded[i].sha256 == sha256 && downloaded[i].localPath == r
    ensures (forall i :: 0 <= i < |downloaded| ==> downloaded[i].sha256 != sha256) ==> r.None?
  {
    var paths := PathsFor(sha256, downloaded);
    ComprehendAt(downloaded, HasSha(sha256), PathOf);
    if paths == [] then None else paths[0]
  }

  /** With a manifest free of duplicate hashes, there is at most one path per hash. */
  lemma {:induction false} PathsForUnique(sha256: string, downloaded: seq<DownloadedRow>)
    requires UniqueHashes(downloaded)
    ensures |PathsFor(sha256, downloaded)| <= 1
  {
    if downloaded != [] {
      var init, last := downloaded[..|downloaded| - 1], downloaded[|downloaded| - 1];
      if last.sha256 == sha256 {
        ComprehendEmpty(init, HasSha(sha256), PathOf);
      } else {
        PathsForUnique(sha256, init);
      }
    }
  }

  /** With unique manifest hashes the join keeps every metadata row exactly once, in
      order, and attaches the manifest's path for its hash, or none. */
  lemma LeftJoinUnique(meta: seq<MetaRow>, downloaded: seq<DownloadedRow>)
    requires UniqueHashes(downloaded)
    ensures |LeftJoin(meta, downloaded)| == |meta|
    ensures forall i :: 0 <= i < |meta| ==>
      LeftJoin(meta, downloaded)[i] ==
        CatalogRow(meta[i].sha256, meta[i].captions, LookupPath(meta[i].sha256, downloaded))
  {
    forall i | 0 <= i < |meta|
      ensures |JoinBlock(downloaded)(meta[i])| == 1
      ensures JoinBlock(downloaded)(meta[i])[0] ==
        CatalogRow(meta[i].sha256, meta[i].captions, LookupPath(meta[i].sha256, downloaded))
    {
      PathsForUnique(meta[i].sha256, downloaded);
    }
    FlatMapSingletons(meta, JoinBlock(downloaded));
  }

  /** Startup (lines 14-19): the join happens only when both tables have a `sha256`
      column; otherwise the metadata is searched as it is, without `local_path`. */
  function Load(meta: MetadataTable, downloaded: DownloadedTable): (c: Catalog)
    ensures c.hasCaptions == meta.hasCaptions
    ensures c.hasLocalPath <==> meta.hasSha256 && downloaded.hasSha256
    ensures |c.rows| >= |meta.rows|
    ensures c.hasLocalPath ==> c.rows == LeftJoin(meta.rows, downloaded.rows)
    ensures !c.hasLocalPath ==> (|c.rows| == |meta.rows| &&
      forall i :: 0 <= i < |meta.rows| ==>
        c.rows[i] == CatalogRow(meta.rows[i].sha256, meta.rows[i].captions, None))
  {
    if meta.hasSha256 && downloaded.hasSha256 then
      Catalog(meta.hasCaptions, true, LeftJoin(meta.rows, downloaded.rows))
    else
      Catalog(meta.hasCaptions, false,
        seq(|meta.rows|, i requires 0 <= i < |meta.rows| =>
          CatalogRow(meta.rows[i].sha256, meta.rows[i].captions, None)))
  }

  /** `str.lower().str.contains(keyword, na=False)` for one row: a missing caption
      never matches. */
  function CaptionMatches(keyword: string): CatalogRow -> bool {
    (row: CatalogRow) => row.captions.Some? && Contains(Lower(row.captions.value), keyword)
  }

  function Identity(row: CatalogRow): CatalogRow {
    row
  }

  /** Line 33: the rows, in table order, whose lower-cased caption contains the keyword. */
  function FilterByCaption(rows: seq<CatalogRow>, keyword: string): (r: seq<CatalogRow>)
    ensures |r| <= |rows|
    ensures forall row :: row in r <==>
      row in rows && row.captions.Some? && Contains(Lower(row.captions.value), keyword)
  {
    ComprehendMembers(rows, CaptionMatches(keyword), Identity);
    Comprehend(rows, CaptionMatches(keyword), Identity)
  }

  /** The filter keeps exactly the rows whose caption matches, in table order. */
  lemma FilterByCaptionInOrder(rows: seq<CatalogRow>, keyword: string)
    ensures var r, K := FilterByCaption(rows, keyword), KeptIndices(rows, CaptionMatches(keyword));
      |r| == |K| &&
      (forall j :: 0 <= j < |K| ==> r[j] == rows[K[j]]) &&
      (forall i :: 0 <= i < |rows| ==>
        (i in K <==> rows[i].captions.Some? && Contains(Lower(rows[i].captions.value), keyword)))
  {
    ComprehendAt(rows, CaptionMatches(keyword), Identity);
  }

  function HasLocalPath(row: CatalogRow): bool {
    row.localPath.Some?
  }

  /** The route `/serve_model/<local_path>` of a row that has a path. */
  function Route(row: CatalogRow): (r: string)
    ensures row.localPath.Some? ==>
      |r| == |ServePrefix| + |row.localPath.value| &&
      r[..|ServePrefix|] == ServePrefix && r[|ServePrefix|..] == row.localPath.value
  {
    if row.localPath.Some? then ServePrefix + row.localPath.value else ""
  }

  /** Line 43: `[f"/serve_model/{path}" for path in results["local_path"].dropna()]`. */
  function AssetPaths(results: seq<CatalogRow>): (r: seq<string>)
    ensures |r| <= |results|
    ensures forall p :: p in r <==>
      exists i :: 0 <= i < |results| && results[i].localPath.Some? && p == ServePrefix + results[i].localPath.value
  {
    ComprehendMembers(results, HasLocalPath, Route);
    Comprehend(results, HasLocalPath, Route)
  }

  /** Rows without a caption never match (`na=False`). */
  lemma NoCaptionsNoMatches(rows: seq<CatalogRow>, keyword: string)
    requires forall i :: 0 <= i < |rows| ==> rows[i].captions.None?
    ensures FilterByCaption(rows, keyword) == []
  {
    ComprehendEmpty(rows, CaptionMatches(keyword), Identity);
  }

  /** pandas reads a `captions` column without a single value as a float column
      of NaN, on which the `.str` accessor of line 33 raises. An empty table keeps
      the column's text type. */
  predicate NoCaptionValues(rows: seq<CatalogRow>) {
    |rows| > 0 && forall i :: 0 <= i < |rows| ==> rows[i].captions.None?
  }

  /** The `search()` handler (lines 27-45) over the startup catalog. `keywordArg` is
      the `keyword` query parameter, `None` when absent. */
  function Search(catalog: Catalog, keywordArg: Option<string>): (resp: Response)
    ensures resp.QueryError? <==> keywordArg.GetOr("") == ""
    ensures resp.QueryError? ==> resp.status == 400 && resp.message == EmptyQueryMessage
    ensures resp.MissingColumn? <==>
      (keywordArg.GetOr("") != "" &&
       (!catalog.hasCaptions ||
        (FilterByCaption(catalog.rows, Lower(keywordArg.GetOr(""))) != [] && !catalog.hasLocalPath)))
    ensures resp.MissingColumn? ==> resp.column == if catalog.hasCaptions then "local_path" else "captions"
    ensures resp.StrAccessorError? <==>
      (keywordArg.GetOr("") != "" && catalog.hasCaptions && NoCaptionValues(catalog.rows))
  {
    var keyword := Lower(keywordArg.GetOr(""));
    if keyword == "" then QueryError(400, EmptyQueryMessage)
    else if !catalog.hasCaptions then MissingColumn("captions")
    else if NoCaptionValues(catalog.rows) then
      NoCaptionsNoMatches(catalog.rows, keyword);
      StrAccessorError
    else
      var results := FilterByCaption(catalog.rows, keyword);
      if results == [] then Rendered([])
      else if !catalog.hasLocalPath then MissingColumn("local_path")
      else Rendered(AssetPaths(results))
  }

  /** With both columns present, a non-empty keyword renders a page unless no row
      has a caption at all; a route is rendered iff some row has a caption that
      contains the lower-cased keyword and a local path the route points to. */
  lemma SearchRoutes(catalog: Catalog, keyword: string, route: string)
    requires keyword != "" && catalog.hasCaptions && catalog.hasLocalPath
    ensures Search(catalog, Some(keyword)).Rendered? <==> !NoCaptionValues(catalog.rows)
    ensures Search(catalog, Some(keyword)).Rendered? ==>
      (route in Search(catalog, Some(keyword)).assetPaths <==>
       exists row :: row in catalog.rows && row.captions.Some? &&
         Contains(Lower(row.captions.value), Lower(keyword)) &&
         row.localPath.Some? && route == ServePrefix + row.localPath.value)
  {
    var kw := Lower(keyword);
    var results := FilterByCaption(catalog.rows, kw);
    if results != [] {
      assert Search(catalog, Some(keyword)) == Rendered(AssetPaths(results));
      if route in AssetPaths(results) {
        var i :| 0 <= i < |results| && results[i].localPath.Some? && route == ServePrefix + results[i].localPath.value;
        assert results[i] in results;
      }
      if exists row :: row in catalog.rows && row.captions.Some? &&
          Contains(Lower(row.captions.value), kw) && row.localPath.Some? && route == ServePrefix + row.localPath.value {
        var row :| row in catalog.rows && row.captions.Some? &&
          Contains(Lower(row.captions.value), kw) && row.localPath.Some? && route == ServePrefix + row.localPath.value;
        assert row in results;
        var i :| 0 <= i < |results| && results[i] == row;
      }
    }
  }

  /** Routes keep the order of the matching rows: the routes of a concatenation of
      results are the routes of the first part followed by those of the second. */
  lemma AssetPathsAppend(a: seq<CatalogRow>, b: seq<CatalogRow>)
    ensures AssetPaths(a + b) == AssetPaths(a) + AssetPaths(b)
  {
    ComprehendAppend(a, b, HasLocalPath, Route);
  }

  /** When no row matches, the handler renders an empty list of routes, unless
      no row has a caption at all, when `.str` raises. */
  lemma SearchNoMatch(catalog: Catalog, keyword: string)
    requires keyword != "" && catalog.hasCaptions
    requires forall row :: row in catalog.rows && row.captions.Some? ==>
      !Contains(Lower(row.captions.value), Lower(keyword))
    ensures Search(catalog, Some(keyword)) ==
      if NoCaptionValues(catalog.rows) then StrAccessorError else Rendered([])
  {
    var kw := Lower(keyword);
    ComprehendEmpty(catalog.rows, CaptionMatches(kw), Identity);
    assert forall i :: 0 <= i < |catalog.rows| ==> catalog.rows[i] in catalog.rows;
  }

  /** A merged row that has a path comes from a metadata row and a manifest row
      with the same hash: the captions are the metadata row's, the path the manifest
      row's. */
  lemma LeftJoinPathSources(meta: seq<MetaRow>, downloaded: seq<DownloadedRow>)
    ensures forall row :: row in LeftJoin(meta, downloaded) && row.localPath.Some? ==>
      exists i, j :: 0 <= i < |meta| && 0 <= j < |downloaded| &&
        meta[i].sha256 == row.sha256 && meta[i].captions == row.captions &&
        downloaded[j].sha256 == row.sha256 && downloaded[j].localPath == row.localPath
  {
    LeftJoinRows(meta, downloaded);
    forall row | row in LeftJoin(meta, downloaded) && row.localPath.Some?
      ensures exists i, j :: (0 <= i < |meta| && 0 <= j < |downloaded| &&
        meta[i].sha256 == row.sha256 && meta[i].captions == row.captions &&
        downloaded[j].sha256 == row.sha256 && downloaded[j].localPath == row.localPath)
    {
      var i :| 0 <= i < |meta| && meta[i].sha256 == row.sha256 && meta[i].captions == row.captions &&
        if PathsFor(row.sha256, downloaded) == [] then row.localPath.None?
        else row.localPath in PathsFor(row.sha256, downloaded);
      PathsForMembers(row.sha256, downloaded);
      var j :| 0 <= j < |downloaded| && downloaded[j].sha256 == row.sha256 && downloaded[j].localPath == row.localPath;
    }
  }

  /** The merged rows whose caption contains `keyword` and which have a path are
      exactly the pairs of a metadata row whose caption contains it and a manifest
      row with the same hash and a path; a route is served for such a row. */
  lemma LeftJoinRoutes(meta: seq<MetaRow>, downloaded: seq<DownloadedRow>, keyword: string, route: string)
    ensures (exists row ::
               row in LeftJoin(meta, downloaded) && row.captions.Some? &&
               Contains(Lower(row.captions.value), keyword) &&
               row.localPath.Some? && route == ServePrefix + row.localPath.value) <==>
      exists i, j :: 0 <= i < |meta| && 0 <= j < |downloaded| &&
        meta[i].captions.Some? && Contains(Lower(meta[i].captions.value), keyword) &&
        downloaded[j].sha256 == meta[i].sha256 &&
        downloaded[j].localPath.Some? && route == ServePrefix + downloaded[j].localPath.value
  {
    var m, d := meta, downloaded;
    if exists row :: row in LeftJoin(m, d) && row.captions.Some? &&
        Contains(Lower(row.captions.value), keyword) && row.localPath.Some? && route == ServePrefix + row.localPath.value {
      var row :| row in LeftJoin(m, d) && row.captions.Some? && Contains(Lower(row.captions.value), keyword) &&
        row.localPath.Some? && route == ServePrefix + row.localPath.value;
      LeftJoinPathSources(m, d);
      var i, j :| 0 <= i < |m| && 0 <= j < |d| &&
        m[i].sha256 == row.sha256 && m[i].captions == row.captions &&
        d[j].sha256 == row.sha256 && d[j].localPath == row.localPath;
      assert m[i].captions.Some? && Contains(Lower(m[i].captions.value), keyword);
    }
    if exists i, j :: 0 <= i < |m| && 0 <= j < |d| &&
        m[i].captions.Some? && Contains(Lower(m[i].captions.value), keyword) &&
        d[j].sha256 == m[i].sha256 && d[j].localPath.Some? && route == ServePrefix + d[j].localPath.value {
      var i, j :| 0 <= i < |m| && 0 <= j < |d| &&
        m[i].captions.Some? && Contains(Lower(m[i].captions.value), keyword) &&
        d[j].sha256 == m[i].sha256 && d[j].localPath.Some? && route == ServePrefix + d[j].localPath.value;
      LeftJoinCovers(m, d);
      assert CatalogRow(m[i].sha256, m[i].captions, d[j].localPath) in LeftJoin(m, d);
    }
  }

  /** The web application end to end, from the two tables to the routes: when both
      tables have a `sha256` column and the metadata has captions, a route is rendered
      for a non-empty keyword iff some metadata row has a caption containing the
      lower-cased keyword and some manifest row with the same hash has a `local_path`
      that the route points to. */
  lemma AppFindsRoutes(meta: MetadataTable, downloaded: DownloadedTable, keyword: string, route: string)
    requires meta.hasSha256 && meta.hasCaptions && downloaded.hasSha256 && keyword != ""
    ensures Search(Load(meta, downloaded), Some(keyword)).Rendered? <==>
      (|meta.rows| == 0 || exists i :: 0 <= i < |meta.rows| && meta.rows[i].captions.Some?)
    ensures Search(Load(meta, downloaded), Some(keyword)).Rendered? ==>
      (route in Search(Load(meta, downloaded), Some(keyword)).assetPaths <==>
       exists i, j :: 0 <= i < |meta.rows| && 0 <= j < |downloaded.rows| &&
         meta.rows[i].captions.Some? && Contains(Lower(meta.rows[i].captions.value), Lower(keyword)) &&
         downloaded.rows[j].sha256 == meta.rows[i].sha256 &&
         downloaded.rows[j].localPath.Some? && route == ServePrefix + downloaded.rows[j].localPath.value)
  {
    var catalog := Load(meta, downloaded);
    SearchRoutes(catalog, keyword, route);
    LeftJoinNoCaptionValues(meta.rows, downloaded.rows);
    LeftJoinRoutes(meta.rows, downloaded.rows, Lower(keyword), route);
  }

  /** The merged table has no caption value at all iff the metadata table has rows
      and none of them has a caption: the merge neither adds nor drops captions. */
  lemma LeftJoinNoCaptionValues(meta: seq<MetaRow>, downloaded: seq<DownloadedRow>)
    ensures NoCaptionValues(LeftJoin(meta, downloaded)) <==>
      (|meta| > 0 && forall i :: 0 <= i < |meta| ==> meta[i].captions.None?)
  {
    var r := LeftJoin(meta, downloaded);
    if |meta| == 0 {
      assert r == [];
    } else {
      LeftJoinRows(meta, downloaded);
      LeftJoinCovers(meta, downloaded);
      if NoCaptionValues(r) {
        forall i | 0 <= i < |meta| ensures meta[i].captions.None? {
          if j :| 0 <= j < |downloaded| && downloaded[j].sha256 == meta[i].sha256 {
            assert CatalogRow(meta[i].sha256, meta[i].captions, downloaded[j].localPath) in r;
          } else {
            assert CatalogRow(meta[i].sha256, meta[i].captions, None) in r;
          }
        }
      }
      if forall i :: 0 <= i < |meta| ==> meta[i].captions.None? {
        forall k | 0 <= k < |r| ensures r[k].captions.None? {
          assert r[k] in r;
        }
      }
    }
  }
}
