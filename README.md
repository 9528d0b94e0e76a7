# Keyword search over 3D-asset caption metadata

A Dafny model of the keyword search in the TRELLIS dataset tools. Two programs
search the captions of a catalogue of 3D assets:

- `dataset_toolkits/search_objects.py`, a command-line tool, collects the hashes
  of downloaded assets, keeps the metadata rows of those assets paired with their
  lower-cased caption, and returns the rows whose caption contains the keyword.
  For each row it prints, it cuts a snippet of the caption around the first
  occurrence of the keyword.
- `search_app.py`, a small web application, left-joins the downloaded manifest's
  `local_path` onto the metadata by `sha256` at startup. Its `search()` handler
  lower-cases the keyword, rejects an empty one with status 400, selects the rows
  whose lower-cased caption contains it (rows without a caption never match) and
  renders `/serve_model/<local_path>` for each match that has a path.
  A `captions` column without a single value is read as a float column, and
  the `.str` accessor raises on it.

Both programs are pure pipelines, so the model is pure: datatypes for rows and
tables, functions for each step and lemmas for what the steps promise.

Files:

- `wrappers.dfy`: `Option`, for fields that may be missing (`None` in a CSV row, NaN in pandas).
- `text.dfy`: ASCII lower-casing, substring containment (`sub in s`), first occurrence
  (`s.index(sub)`) and Python slicing with out-of-range and negative bounds.
- `comprehension.dfy`: Python's `[f(x) for x in s if p(x)]`. Its meaning is proved once:
  `f` is applied to exactly the items that satisfy `p`, in their original order. Also the
  flat map `[y for x in s for y in f(x)]`, which is how the left join is built: each
  metadata row contributes the block of joined rows for its hash, blocks in table order.
- `records.dfy`: the rows of the metadata table and of the downloaded manifest.
- `search_objects.dfy` (module `ObjectSearch`): the command-line search.
- `search_app.dfy` (module `SearchApp`): the startup join and the web search handler.

The code does plain substring matching, not whole-word matching, and the model
follows the code. There is no result cache, paging or export in these two files,
so none is modelled.

## Model

| member | source | states |
|---|---|---|
| `Text.Lower` | dataset_toolkits/search_objects.py:15 | Lower-casing keeps the length, turns each upper-case ASCII letter into the lower-case letter 32 code points above it, leaves every other character unchanged, and leaves no upper-case ASCII letter |
| `Text.LowerSlice` | dataset_toolkits/search_objects.py:22-23 | Lower-casing commutes with slicing, so an index found in the lower-cased caption is valid in the original caption |
| `Text.ContainsEmpty` | dataset_toolkits/search_objects.py:19 | `'' in s` holds for every string |
| `Text.EmptyContainsOnlyEmpty` | dataset_toolkits/search_objects.py:15 | The empty caption key `''` contains a keyword iff the keyword is empty |
| `Text.Contains` | dataset_toolkits/search_objects.py:19 | `sub in s` (and `str.contains` on line 33 of search_app.py, read literally): some index is an occurrence of `sub`; a contained string is never longer than the string containing it |
| `Text.IndexOf` | dataset_toolkits/search_objects.py:22 | `str.index` finds an index iff the substring occurs; the index is an occurrence, it lies inside the string, and no earlier index is one |
| `Text.SliceBound` | dataset_toolkits/search_objects.py:23 | A slice bound is taken as is inside `[0, n]`, a negative one counts from the end, and the result is clamped to `[0, n]` |
| `Text.PySlice` | dataset_toolkits/search_objects.py:23 | `s[start:stop]` holds the items from the normalised start up to the normalised stop, in order, and is empty when the start is at or after the stop |
| `Text.PySliceInRange` | dataset_toolkits/search_objects.py:23 | On in-range bounds a Python slice is the ordinary slice |
| `Text.PySliceNegativeStart` | dataset_toolkits/search_objects.py:23 | A negative start counts from the end of the caption |
| `Comprehension.KeptIndices` | dataset_toolkits/search_objects.py:15 | The indices kept by a comprehension's condition are strictly increasing and are exactly the indices whose item satisfies it |
| `Comprehension.Comprehend` | dataset_toolkits/search_objects.py:15-19 | `[f(x) for x in s if p(x)]`, as used at lines 15 and 19 and at line 43 of search_app.py: never longer than its input; its contents and order are fixed by `ComprehendAt` and `KeptIndices` |
| `Comprehension.ComprehendAt` | dataset_toolkits/search_objects.py:19 | A list comprehension is `f` at the kept indices, one result per kept item, in order |
| `Comprehension.ComprehendMembers` | search_app.py:43 | A value is in a comprehension iff it is `f` of some item that satisfies the condition |
| `Comprehension.ComprehendAppend` | dataset_toolkits/search_objects.py:19 | A comprehension over a concatenation is the concatenation of the comprehensions |
| `Comprehension.ComprehendAll` | dataset_toolkits/search_objects.py:19 | When every item satisfies the condition, the comprehension maps every item |
| `Comprehension.ComprehendEmpty` | search_app.py:35-36 | A comprehension is empty iff no item satisfies its condition |
| `Comprehension.FlatMap` | search_app.py:19 | `[y for x in s for y in f(x)]`: the blocks `f(x)` of the items, concatenated in item order, which is how the merge lays out each metadata row's joined rows; its meaning is given by the `FlatMap` lemmas below |
| `Comprehension.FlatMapAppend` | search_app.py:19 | Flat-mapping a concatenation gives the concatenation of the flat maps |
| `Comprehension.FlatMapMembers` | search_app.py:19 | A value is in a flat map iff it is in the block of some item |
| `Comprehension.FlatMapLonger` | search_app.py:19 | When every block is non-empty the flat map is at least as long as its input |
| `Comprehension.FlatMapSingletons` | search_app.py:19 | When every block has exactly one value the flat map is the sequence of those values, item by item |
| `ObjectSearch.DownloadedSha256` | dataset_toolkits/search_objects.py:9-12 | A hash is in the downloaded set iff some manifest row has that `sha256` |
| `ObjectSearch.CaptionKey` | dataset_toolkits/search_objects.py:15 | The caption key is `''` for a missing caption and the lower-cased caption otherwise (an empty caption gives `''` either way) |
| `ObjectSearch.Preprocess` | dataset_toolkits/search_objects.py:14-15 | An entry is in the result iff its row is a metadata row whose hash was downloaded and its caption is that row's caption key; the result is no longer than the input |
| `ObjectSearch.PreprocessInOrder` | dataset_toolkits/search_objects.py:15 | Preprocessing keeps exactly the rows whose hash was downloaded, in their original order, each unchanged and paired with its caption key |
| `ObjectSearch.PreprocessAppend` | dataset_toolkits/search_objects.py:15 | Preprocessing two concatenated tables gives the concatenation of their results |
| `ObjectSearch.PreprocessIsPreprocessed` | dataset_toolkits/search_objects.py:15 | Every preprocessed entry pairs a row with its own caption key, which is what line 22 relies on |
| `ObjectSearch.Matching` | dataset_toolkits/search_objects.py:19 | A row is returned iff some preprocessed entry holds it and its caption key contains the keyword; rows, not pairs, are returned, at most one per entry |
| `ObjectSearch.MatchingInOrder` | dataset_toolkits/search_objects.py:19 | The matches are the rows of exactly the entries whose caption key contains the keyword, in preprocessed order |
| `ObjectSearch.EmptyKeywordMatchesAll` | dataset_toolkits/search_objects.py:18-19 | An empty keyword returns every preprocessed row, in order |
| `ObjectSearch.MatchesContainKeyword` | dataset_toolkits/search_objects.py:19-22 | Every match of preprocessed data has a caption key containing the keyword, so `.index` on line 22 finds it |
| `ObjectSearch.FirstIndex` | dataset_toolkits/search_objects.py:22 | The snippet index is an occurrence of the keyword in the lower-cased caption, no earlier index is one, and the occurrence fits inside the caption |
| `ObjectSearch.PrintedSnippet` | dataset_toolkits/search_objects.py:21-23 | The snippet of a matching row fails exactly when the row has no caption field (`None.lower()`) |
| `ObjectSearch.PrintedSnippetShowsKeyword` | dataset_toolkits/search_objects.py:22-23 | When the keyword occurs at least `n` characters in and `n` covers the keyword, the printed snippet shows the keyword |
| `ObjectSearch.PrintedSnippetEmptyForEarlyMatch` | dataset_toolkits/search_objects.py:23 | When the keyword occurs fewer than `n` characters into a caption of length at least `2n`, the printed snippet is empty and does not show a non-empty keyword |
| `ObjectSearch.EarlyMatchExample` | dataset_toolkits/search_objects.py:17-23 | For "Chair" followed by sixty 'x's, keyword "chair" and the default length 30, the printed snippet is empty |
| `ObjectSearch.WindowShowsKeyword` | dataset_toolkits/search_objects.py:23 | Any window of the caption around an occurrence of the keyword shows the keyword |
| `ObjectSearch.WindowSnippet` | dataset_toolkits/search_objects.py:23 | The corrected snippet, with its start clamped at 0, shows the keyword whenever `n` covers the keyword |
| `ObjectSearch.WindowSnippetAgrees` | dataset_toolkits/search_objects.py:23 | The corrected snippet equals the printed one whenever the keyword occurs at least `n` characters in |
| `ObjectSearch.SliceAround` | dataset_toolkits/search_objects.py:23 | The slice `[i-n : i+n]` with a start that is not negative is the window from `i-n`, cut at the end of the caption |
| `ObjectSearch.SearchObjects` | dataset_toolkits/search_objects.py:17-24 | When `search_objects` returns, it returns the rows matching the lower-cased keyword |
| `ObjectSearch.SearchObjectsFails` | dataset_toolkits/search_objects.py:18-23 | `search_objects` raises iff the keyword is empty and one of the first `print_rows` preprocessed rows has no caption field |
| `ObjectSearch.SearchIgnoresPrintSettings` | dataset_toolkits/search_objects.py:21-24 | The returned list does not depend on `print_rows` or `substring_length` |
| `ObjectSearch.PipelineFinds` | dataset_toolkits/search_objects.py:12-19 | A row is found iff it is a metadata row, some manifest row has its hash, and its caption key contains the lower-cased keyword |
| `SearchApp.PathsFor` | search_app.py:19 | The manifest rows the merge matches to a hash, as their `local_path` values in manifest order; membership is stated by `PathsForMembers`, order by `JoinRowPaths` |
| `SearchApp.PathsForMembers` | search_app.py:19 | The paths joined onto a hash are exactly the `local_path` values of the manifest rows with that hash |
| `SearchApp.JoinRow` | search_app.py:19 | A metadata row yields at least one joined row, and every row it yields keeps its hash and caption |
| `SearchApp.JoinRowPaths` | search_app.py:19 | A metadata row whose hash is in no manifest row yields one row with no path; otherwise it yields one row per manifest row with that hash, in manifest order, carrying that manifest row's `local_path` |
| `SearchApp.LeftJoin` | search_app.py:19 | A left join yields at least as many rows as the metadata table |
| `SearchApp.LeftJoinAppend` | search_app.py:19 | Joining two concatenated metadata tables gives the concatenation of their joins, so metadata order is kept |
| `SearchApp.LeftJoinRows` | search_app.py:19 | Every joined row comes from a metadata row, and its path is that of a manifest row with the same hash, or missing when no manifest row has that hash |
| `SearchApp.LeftJoinCovers` | search_app.py:19 | Conversely, every pair of a metadata row and a manifest row with the same hash appears in the join with the manifest row's path, and a metadata row whose hash is in no manifest row appears with no path |
| `SearchApp.LeftJoinPathSources` | search_app.py:19 | Every joined row that has a path takes its caption from a metadata row and its path from a manifest row, both with the row's hash |
| `SearchApp.LeftJoinRoutes` | search_app.py:19-43 | The joined rows whose caption contains the keyword and which have a path, with their routes, are exactly the pairs of a matching metadata row and a manifest row with the same hash and a path |
| `SearchApp.LookupPath` | search_app.py:19 | With unique manifest hashes, the path for a hash is that of the manifest row with that hash, or missing when there is none |
| `SearchApp.PathsForUnique` | search_app.py:19 | With unique manifest hashes, a hash has at most one joined path |
| `SearchApp.LeftJoinUnique` | search_app.py:19 | With unique manifest hashes the join keeps every metadata row exactly once, in order, unchanged, with the manifest's path for its hash or none |
| `SearchApp.Load` | search_app.py:14-19 | The join happens iff both tables have a `sha256` column, and then the catalogue's rows are the left join of the metadata with the manifest; without it every metadata row is kept, in order, with no path |
| `SearchApp.FilterByCaption` | search_app.py:33 | A row is selected iff it is in the table, has a caption, and its lower-cased caption contains the keyword; a missing caption never matches |
| `SearchApp.CaptionMatches` | search_app.py:33 | The per-row test of line 33: the row has a caption and its lower-cased caption contains the keyword (`na=False` makes a missing caption fail); `FilterByCaption` states what selecting by it gives |
| `SearchApp.FilterByCaptionInOrder` | search_app.py:33 | The filter keeps exactly the matching rows, in table order |
| `SearchApp.NoCaptionsNoMatches` | search_app.py:33 | A table whose rows all lack a caption selects no row |
| `SearchApp.Route` | search_app.py:43 | The f-string `/serve_model/{path}`: for a row with a path, the route is the prefix followed by the path, so the path can be read back from the route |
| `SearchApp.AssetPaths` | search_app.py:43 | A route is listed iff some result row has a `local_path` and the route is `/serve_model/` followed by it; there are at most as many routes as results |
| `SearchApp.AssetPathsAppend` | search_app.py:43 | Routes keep the order of the result rows |
| `SearchApp.Search` | search_app.py:27-45 | The handler answers "Enter a search query." with status 400 iff the keyword is absent or empty; it raises a KeyError iff the keyword is non-empty and either the `captions` column is missing (naming `captions`) or some caption matches and the `local_path` column is missing (naming `local_path`); it raises the `.str` AttributeError iff the keyword is non-empty, the `captions` column exists and the table has rows but not one caption value |
| `SearchApp.SearchRoutes` | search_app.py:27-45 | With both columns present and a non-empty keyword, a page is rendered iff some row has a caption or the table is empty (otherwise line 33 raises); on a rendered page a route is listed iff some catalogue row has a caption containing the lower-cased keyword and a `local_path` the route points to |
| `SearchApp.SearchNoMatch` | search_app.py:33-36 | When no caption contains the keyword, the handler renders an empty list of routes, except that a non-empty table without a single caption value raises at line 33 |
| `SearchApp.AppFindsRoutes` | search_app.py:18-45 | From the two tables to the page: with `sha256` in both tables and a `captions` column in the metadata, a non-empty keyword renders a page iff the metadata is empty or some metadata row has a caption, and on a rendered page a route is listed iff some metadata row's caption contains the lower-cased keyword and a manifest row with the same hash has a `local_path` the route points to |
| `SearchApp.LeftJoinNoCaptionValues` | search_app.py:19 | The merged table has no caption value at all iff the metadata has rows and none has a caption: the merge neither adds nor drops captions |

## Left out

- Reading the CSV files (`open`, `csv.DictReader`, `pd.read_csv`): tables are given as sequences of rows. Columns other than `sha256`, `captions` and `local_path` are not modelled.
- In pandas an empty CSV cell is NaN; the model takes captions and paths as already `None` where pandas would have NaN. A `captions` column with no value at all, which pandas reads as a float column, is modelled as the AttributeError that `.str` raises on it (`StrAccessorError`); pandas type inference beyond that case is not modelled.
- The `print` calls, the interactive `input()` loop of the command-line tool, Flask routing, `render_template`, `serve_model`/`send_from_directory` and `app.run`. Only the values they print or render are modelled.
- `Text.Lower`: full Unicode `str.lower()` is not modelled; lower-casing is ASCII only, which keeps string lengths so the indices of the snippet line up.
- `SearchApp.FilterByCaption`: `str.contains` interprets the keyword as a regular expression; the model reads it as a literal substring, so it assumes keywords without regular-expression metacharacters.
- `SearchApp.LeftJoin`: it is the standard left join, so a hash repeated in the manifest repeats the metadata row; the exact one-row-per-metadata-row result is proved only for a manifest with unique hashes (`SearchApp.LeftJoinUnique`).
- `SearchApp.Load`: a metadata table that already has a `local_path` column (pandas would add suffixes) and a manifest without a `local_path` column (a KeyError at startup) are not modelled.
- `ObjectSearch.DownloadedSha256`: a manifest row whose `sha256` field is missing (a `None` key) is not modelled; hashes are always strings.
- A missing `captions` or `local_path` column at request time is modelled as the KeyError it raises (`MissingColumn`), and the `.str` failure as `StrAccessorError`, not as Flask's 500 page.
- The unused `top_n` constant and the hard-coded dataset paths.
- A result cache, paging, whole-word matching, numbered export folders and an export manifest: neither file has code for them.

## Findings

| source | as written | input that shows it | evidently intended | confidence | as-written member | corrected member |
|---|---|---|---|---|---|---|
| dataset_toolkits/search_objects.py:23 | `row['captions'][index-substring_length:index+substring_length]` with a negative start, which Python counts from the end of the caption | caption "Chair" followed by 60 'x's, keyword "chair", `substring_length` 30: start -30 becomes 35, stop is 30, snippet is `''` | a window starting at `max(0, index-substring_length)`, which always shows the keyword | high, not executed | `ObjectSearch.PrintedSnippetEmptyForEarlyMatch` | `ObjectSearch.WindowSnippet` |

The snippet is only printed; the list `search_objects` returns does not depend on it, so nothing else in the model uses a snippet value.
