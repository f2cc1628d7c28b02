# Roof damage dashboard — a Dafny model of its selection rules

The roof damage dashboard is a Dash application. At start-up it loads one
table of per-image damage metrics. Each row holds an image file name, a
cluster label, four damage metrics and two PCA coordinates. The dashboard
then renders four tabs over that table. This project models the rules that
decide which rows each view shows:

- the **tab router** (`render_tab_content`): four tab ids map to four views,
  and any other id maps to a placeholder. The summary tab counts the images
  and the distinct clusters. The gallery tab offers the sorted distinct
  cluster labels.
- the **gallery** (`update_gallery`): the first twelve rows of the selected
  cluster, in table order. Each card's URL is the fixed image-host prefix
  followed by the file name.
- the **top images** view (`update_top_images`), a short pipeline:
  1. reject an empty metric, or one that is not a column;
  2. drop the rows whose metric is missing;
  3. report "no valid data" if no row is left;
  4. sort descending and keep the first `n` rows;
  5. only then drop rows whose stripped file name is empty or does not end
     in `.jpg`;
  6. report "no valid images" if no card is left.
- the **CSV export** (`download_table`): an empty table is an error.
  Otherwise the whole table is exported as `roof_metrics.csv`.

The table is an immutable `seq<Row>`. Every operation is a pure function of
the table and the current selection. A missing metric cell (NaN in the file)
is `None`. Metric values are `real`. Nothing needs floating-point arithmetic.

Modules:

- `Wrappers`: `Option` and `Result`.
- `Strings`: Python's `str.strip()`, `str.endswith()` and `str` ordering.
- `Table`: the row type, the column list, cell lookup, the value order and
  the image URL.
- `Ranking`: boolean-mask filtering, `head(n)`, and the descending sort. The
  sort is specified relationally.
- `TopImages`, `Gallery`, `Router`, `Export`: the four callbacks.

Behaviour of the code worth knowing, which the model keeps:

- **Metric validation.** The callback only checks that the metric is a
  column name (app.py:351). So `"PCA1"`, `"cluster"` and even `"image"` are
  accepted (`TopImages.ValidMetric`), not just the four dropdown metrics.
  Ranking by `image` orders the file names as Python compares strings, and
  the card prints "N/A" for the value.
- **Tie order.** `sort_values` uses its default kind (app.py:361), which is
  not stable, so equal-valued rows may come in any order.
  `Ranking.IsTopSlice` and `TopImages.TopImagesSpec` therefore leave the
  order of equal-valued rows open. The model's insertion sort is one
  admissible choice; no contract depends on which.
- **The count `n`.** `n` goes straight to pandas `head(n)` (app.py:361). So
  `n = 0` shows the "no valid images" message, and a negative `n` keeps all
  but the last `-n` rows (`Ranking.HeadLength`).

## Model

| member | source | states |
|---|---|---|
| Strings.Strip | app.py:365 | The stripped name is a contiguous piece of the file name. Everything cut off is whitespace, as Python's `str.isspace` defines it. A non-empty result neither starts nor ends with whitespace. |
| Strings.StripIsTheStrip | app.py:365 | Only one string can be the stripped form of a name, so `Strip` is fully determined by that description. |
| Strings.StripIdempotent | app.py:365 | Stripping an already stripped name changes nothing. |
| Strings.EndsWithIffAppended | app.py:366 | A name ends with `.jpg` exactly when it is some string followed by `.jpg`. |
| Strings.LexLeIffFirstDifference | app.py:361 | The recursive string order is Python's `str` order: a prefix comes first, otherwise the smaller character at the first difference decides. |
| Strings.LexLeTotal | app.py:361 | Any two file names are comparable, so sorting by `image` is defined. |
| Strings.LexLeTransitive | app.py:361 | The string order is transitive. |
| Strings.LexLeAntisymmetric | app.py:361 | Two names that are each `<=` the other are equal. |
| Table.Cell | app.py:351-356 | Only the table's eight columns have cells. In the model `image` and `cluster` are always present (see Left out). A present cell of one of the four metrics is a number. |
| Table.ValueLeTotal | app.py:361 | Any two cells can be compared, so the descending sort is defined. |
| Table.ValueLeTransitive | app.py:361 | The cell order is transitive. |
| Table.ValueLeAntisymmetric | app.py:361 | Cells that are each `<=` the other are equal. Rows can tie only on equal values. |
| Table.ImageUrl | app.py:261 | A card URL is the fixed `.../train_inference/` prefix followed by the file name and nothing else. |
| Table.ImageUrlRoundTrip | app.py:369 | The file name can be read back from its URL. A URL under the prefix is the URL of exactly one name. |
| Ranking.Filter | app.py:256 | Masking keeps exactly the elements that satisfy the condition, in their original order. |
| Ranking.FilterMultiset | app.py:256 | Masking keeps every copy of a satisfying element and no copy of any other: a duplicated row survives as often as it occurs. |
| Ranking.Map | app.py:259-270 | The card loops make one card per row, in the rows' order. |
| Ranking.MapSubsequence | app.py:364-384 | Making one card per row keeps a subsequence of rows a subsequence of the cards. |
| Ranking.FilterAppend | app.py:256 | Masking a concatenation gives the concatenation of the masked parts. |
| Ranking.FilterOfPrefix | app.py:256 | The first `m` elements that survive the mask are what masking some leading part of the input gives. |
| Ranking.Head | app.py:256 | `head(n)` returns a leading part of the table, `HeadLength(len, n)` rows long: at most the whole table, `min(n, len)` rows when `n >= 0` and all but the last `-n` rows when `n < 0`. |
| Ranking.SubsequenceSorted | app.py:364-367 | Skipping rows of a non-increasing sequence leaves it non-increasing. |
| Ranking.Insert | app.py:361 | Inserting into a non-increasing sequence keeps it non-increasing and adds exactly that one element. |
| Ranking.SortDesc | app.py:361 | The descending sort returns a permutation of its input in non-increasing order. |
| Ranking.TopOfSorted | app.py:361 | The first `k` rows of any non-increasing permutation are a legitimate top-`k` slice. None of the rows left out outranks one that was taken. |
| TopImages.Measured | app.py:356-357 | `dropna` keeps exactly the rows whose metric cell is present, each paired with that cell, as a subsequence of the table in table order. It is empty exactly when every row lacks the metric. |
| TopImages.MeasuredMultiset | app.py:356-357 | `dropna` keeps every copy of a row that has the metric and no copy of one that lacks it. |
| TopImages.CardsOfValidRows | app.py:365-369 | A card made from a row that passes the name check carries a valid name and that name's URL. |
| TopImages.Render | app.py:362-391 | The view shows "no valid images" exactly when no row of the slice has a valid stripped name. Otherwise it shows exactly as many cards as the slice has rows with a valid name, each card with a valid name and its URL. |
| TopImages.RenderCardsFromSlice | app.py:364-384 | Every card comes from a row of the top slice. |
| TopImages.RenderCardsEveryValidRow | app.py:364-384 | Every slice row whose stripped name is valid gets its card. The name check only skips rows. |
| TopImages.RenderKeepsSliceOrder | app.py:364-384 | The cards are an order-preserving subsequence of the slice rows' cards: each slice row gives at most one card, in the slice's order. A non-increasing slice gives non-increasing card values. |
| TopImages.TopImages | app.py:349-391 | "Invalid metric" exactly when the metric is empty or not a column. "No valid data" exactly when the metric is valid and missing in every row. A grid has at most `n` cards, all with valid names and their URLs. Its values are non-increasing. Each card shows the name, value and cluster of a table row that has the metric. |
| TopImages.TopImagesMeetsSpec | app.py:349-391 | The result is the relational specification: validation, then `dropna`, then the cards of SOME top slice of length `head(n)`, with ties left open. |
| TopImages.TopImagesAllWhenRoom | app.py:361-367 | When `n` is at least the number of rows, every measured row with a valid name appears as a card. |
| TopImages.FilterAfterSliceCanUnderfill | app.py:361-388 | The name check runs after the slice. A top-ranked row with a bad name uses up one of the `n` places, and a valid image below it is not shown. |
| TopImages.MetricCardsShowNumbers | app.py:370-378 | When ranking by one of the four dropdown metrics, every card prints a number, never "N/A". |
| TopImages.TopOneOfTwo | app.py:349-391 | Two images of cluster 0 with damage counts 5 and 2, top 1: one card, for `a.jpg`, with value 5. |
| Gallery.ClusterRows | app.py:256 | The cluster filter keeps exactly the rows of the selected cluster. |
| Gallery.ClusterRowsMultiset | app.py:256 | The cluster filter keeps every copy of a row of the selected cluster and no copy of any other row. |
| Gallery.Gallery | app.py:254-272 | At most twelve cards. Each card's URL is the prefix plus its file name. Each card comes from a row of the selected cluster. There are no cards exactly when the cluster does not occur in the table. |
| Gallery.GalleryIsLeadingRowsOfCluster | app.py:256 | The cards are the selected cluster's rows within some leading part of the table. There are either twelve of them or all of the cluster's rows. No row is passed over in favour of a later one. |
| Router.ParseTab | app.py:70-75 | A recognised id is the id of the tab it names. |
| Router.TabIdRoundTrip | app.py:86-204 | Each of the four tabs is recognised by its own id. An id is unrecognised exactly when no tab has it. |
| Router.InsertDistinct | app.py:166 | Adding a label to a strictly increasing list keeps it strictly increasing and adds exactly that label. |
| Router.SortedClusters | app.py:166 | `sorted(unique())` is strictly increasing and holds exactly the table's cluster labels. |
| Router.StrictlyIncreasingCount | app.py:88 | A strictly increasing list holds as many distinct values as it has entries. |
| Router.DistinctClusterCount | app.py:88 | `nunique()` is the number of distinct cluster labels in the table. |
| Router.Render | app.py:85-237 | `tab-general` gives the summary: the image count is the row count, the cluster count is the number of distinct clusters, and the table view shows every row and column. `tab-visual` offers the clusters in increasing order and preselects the smallest; on an empty table it raises. `tab-dist` and `tab-top` offer the four metrics, preselect `damage_count`, and the top tab's slider runs from 1 to 10 starting at 3. Any other id gives the placeholder. |
| Export.DownloadTable | app.py:406-412 | The export fails exactly when the table is empty. Otherwise it returns every row and the table's columns, without the index, under the name `roof_metrics.csv`. |

## Left out

- Dataset download (`snapshot_download`), CSV parsing (`read_csv`) and the
  existence assert (app.py:16-28). These are network and file I/O. The model
  starts from an already-loaded table.
- Extra CSV columns: a `Row` has exactly the eight columns app.py reads
  (image, cluster, the four metrics, PCA1 and PCA2). "The metric is a column" is checked against that list.
- The page layout, stylesheet, index HTML and the component trees of the four
  tabs (app.py:32-69, 76-79, 91-235). These are UI. Only the values the views compute
  or preselect are kept.
- Histogram, box plot, correlation matrix and the PCA scatter plot
  (app.py:151-161, 275-340). Plotly and pandas statistics are library code
  over floating-point numbers.
- The mean damage density and mean confidence cards, and all `.2f` / `.3f`
  formatting (app.py:113, 120, 266-267, 378). These are floating-point
  arithmetic and formatting. Cards keep the raw cell values instead.
- Logging, and the catch-all `except Exception` branch of the top-images
  view (app.py:393-398). With a fixed schema and an integer `n`, no step of
  the modelled pipeline can raise. A `None` slider value (`int(None)`) is
  not modelled: the slider has no way to clear its value.
- Infinite values in metric columns: cells are mathematical reals.
- Table.Cell: a missing `image` or `cluster` cell is not modelled; every row
  has a file name and an integer cluster. In the code a NaN file name
  becomes the string "nan" (app.py:365), which the `.jpg` check skips, and
  the gallery would link to `.../nan` (app.py:261). A NaN cluster is not
  counted by `nunique()` (app.py:88) although its row is counted by the
  image count.
- Export.DownloadTable: does not model the CSV text `to_csv` writes
  (app.py:412). The export is described by the rows and columns it carries,
  not by the serialised bytes.
- `n_clicks` of the export button and `prevent_initial_call`: every call of
  the model stands for one click.
