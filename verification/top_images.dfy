/** The "Top Imágenes" tab: the images ranking highest in a chosen column,
    shown as cards (callback `update_top_images`). */
module TopImages {
  import opened Wrappers
  import opened Table
  import opened Ranking
  import Strings

  /** One card of the grid: the image's URL and stripped file name, the row's
      value in the ranked column and its cluster. */
  datatype Card = Card(url: string, name: string, value: Value, cluster: int)

  /** What the callback renders. */
  datatype Outcome =
    | InvalidMetric(metric: string)   // "Métrica inválida"
    | NoValidData                     // "No hay datos válidos para esta métrica"
    | NoValidImages                   // "No se encontraron imágenes válidas"
    | Grid(cards: seq<Card>)

  /** A metric is accepted when it is non-empty and names a column of the
      table; it need not be one of the four dropdown metrics. */
  predicate ValidMetric(metric: string) {
    metric != "" && metric in Columns
  }

  function RowOf(k: Keyed): Row {
    k.row
  }

  /** `dropna(subset=[metric])`: the rows whose cell in `metric` is present,
      in table order, each paired with that cell. */
  function Measured(rows: seq<Row>, metric: string): (r: seq<Keyed>)
    ensures |r| <= |rows|
    ensures Subsequence(Map(RowOf, r), rows)
    ensures forall x :: x in r <==> x.row in rows && Cell(x.row, metric) == Some(x.key)
    ensures |r| == 0 <==> forall row :: row in rows ==> Cell(row, metric).None?
  {
    if |rows| == 0 then []
    else
      var rest := Measured(rows[1..], metric);
      assert forall row :: row in rows[1..] ==> row in rows;
      assert forall row :: row in rows ==> row == rows[0] || row in rows[1..];
      match Cell(rows[0], metric)
      case None =>
        assert Subsequence(Map(RowOf, rest), rows);
        rest
      case Some(v) =>
        var r := [Keyed(v, rows[0])] + rest;
        assert r[1..] == rest;
        assert Map(RowOf, r)[1..] == Map(RowOf, rest);
        r
  }

  /** The rows `dropna` keeps are what masking by "the metric is present"
      keeps. */
  lemma {:induction false} MeasuredRowsAreMasked(rows: seq<Row>, metric: string, p: Row -> bool)
    requires forall row :: p(row) == Cell(row, metric).Some?
    ensures Map(RowOf, Measured(rows, metric)) == Filter(p, rows)
    decreases |rows|
  {
    if |rows| > 0 {
      MeasuredRowsAreMasked(rows[1..], metric, p);
    }
  }

  /** `dropna` keeps every copy of a row that has the metric and no copy of
      one that lacks it. */
  lemma MeasuredMultiset(rows: seq<Row>, metric: string)
    ensures forall row ::
              multiset(Map(RowOf, Measured(rows, metric)))[row] ==
              if Cell(row, metric).Some? then multiset(rows)[row] else 0
  {
    var p := (row: Row) => Cell(row, metric).Some?;
    MeasuredRowsAreMasked(rows, metric, p);
    FilterMultiset(p, rows);
  }

  /** The file-name check of the card loop: non-empty and ending in ".jpg"
      (case-sensitive). */
  predicate ValidImageName(name: string) {
    name != "" && Strings.EndsWith(name, ".jpg")
  }

  /** Whether a ranked row gets a card: its stripped file name is valid. */
  predicate HasImage(k: Keyed) {
    ValidImageName(Strings.Strip(k.row.image))
  }

  function CardOf(k: Keyed): Card {
    var name := Strings.Strip(k.row.image);
    Card(ImageUrl(name), name, k.key, k.row.cluster)
  }

  /** The value as the card prints it: the number, or "N/A" (`None`) when
      the ranked column holds text. */
  function Displayed(c: Card): Option<real> {
    match c.value
    case Num(x) => Some(x)
    case Str(_) => None
  }

  /** Cards made from the rows with a valid file name carry a valid name
      and that name's URL. */
  lemma CardsOfValidRows(slice: seq<Keyed>)
    ensures forall c :: c in Map(CardOf, Filter(HasImage, slice)) ==>
      ValidImageName(c.name) && c.url == ImageUrl(c.name)
  {
    var kept := Filter(HasImage, slice);
    var cards := Map(CardOf, kept);
    forall c | c in cards ensures ValidImageName(c.name) && c.url == ImageUrl(c.name) {
      var i :| 0 <= i < |cards| && cards[i] == c;
      assert kept[i] in kept && HasImage(kept[i]);
    }
  }

  /** The card loop over the top slice (skipping rows without a valid file
      name) and the final "no cards" check. */
  function Render(slice: seq<Keyed>): (r: Outcome)
    ensures r.NoValidImages? || r.Grid?
    ensures r.NoValidImages? <==> forall k :: k in slice ==> !HasImage(k)
    ensures r.Grid? ==> |r.cards| <= |slice|
    ensures r.Grid? ==> |r.cards| == |Filter(HasImage, slice)|
    ensures r.Grid? ==> forall c :: c in r.cards ==> ValidImageName(c.name) && c.url == ImageUrl(c.name)
  {
    var kept := Filter(HasImage, slice);
    if kept == [] then
      assert forall k :: k in slice ==> !HasImage(k) by {
        forall k | k in slice ensures !HasImage(k) {
          assert k in kept <==> HasImage(k);
        }
      }
      NoValidImages
    else
      assert kept[0] in slice && HasImage(kept[0]);
      CardsOfValidRows(slice);
      Grid(Map(CardOf, kept))
  }

  /** Every card comes from a row of the slice. */
  lemma RenderCardsFromSlice(slice: seq<Keyed>)
    ensures Render(slice).Grid? ==>
      forall c :: c in Render(slice).cards ==> exists k :: k in slice && c == CardOf(k)
  {
    var kept := Filter(HasImage, slice);
    if kept != [] {
      var cards := Map(CardOf, kept);
      forall c | c in cards ensures exists k :: k in slice && c == CardOf(k) {
        var i :| 0 <= i < |cards| && cards[i] == c;
        assert kept[i] in kept;
      }
    }
  }

  /** Every row of the slice with a valid file name has its card. */
  lemma RenderCardsEveryValidRow(slice: seq<Keyed>)
    ensures Render(slice).Grid? ==>
      forall k :: k in slice && HasImage(k) ==> CardOf(k) in Render(slice).cards
  {
    var kept := Filter(HasImage, slice);
    if kept != [] {
      var cards := Map(CardOf, kept);
      forall k | k in slice && HasImage(k) ensures CardOf(k) in cards {
        assert k in kept;
        var i :| 0 <= i < |kept| && kept[i] == k;
        assert cards[i] == CardOf(k);
      }
    }
  }

  /** Skipping rows keeps the slice's order: the cards are the cards of the
      slice's rows with some of them left out, each row giving at most one
      card and in the slice's order; so a non-increasing slice gives
      non-increasing cards. */
  lemma RenderKeepsSliceOrder(slice: seq<Keyed>)
    ensures Render(slice).Grid? ==> Subsequence(Render(slice).cards, Map(CardOf, slice))
    ensures Render(slice).Grid? && SortedDesc(slice) ==>
      forall i, j :: 0 <= i < j < |Render(slice).cards| ==>
        ValueLe(Render(slice).cards[j].value, Render(slice).cards[i].value)
  {
    var kept := Filter(HasImage, slice);
    if kept != [] {
      var cards := Map(CardOf, kept);
      MapSubsequence(CardOf, kept, slice);
      if SortedDesc(slice) {
        SubsequenceSorted(kept, slice);
        forall i, j | 0 <= i < j < |cards| ensures ValueLe(cards[j].value, cards[i].value) {
          assert cards[j].value == kept[j].key && cards[i].value == kept[i].key;
        }
      }
    }
  }

  /** `update_top_images(metric, n)`: validate the metric, drop the rows
      missing it, sort descending, keep the first `n` (pandas `head(n)`),
      then card every kept row whose stripped file name is valid. */
  function TopImages(rows: seq<Row>, metric: string, n: int): (r: Outcome)
    ensures r.InvalidMetric? <==> !ValidMetric(metric)
    ensures r.InvalidMetric? ==> r.metric == metric
    ensures r.NoValidData? <==> ValidMetric(metric) && forall row :: row in rows ==> Cell(row, metric).None?
    ensures r.Grid? && n >= 0 ==> |r.cards| <= n
    ensures r.Grid? ==> forall c :: c in r.cards ==> ValidImageName(c.name) && c.url == ImageUrl(c.name)
    ensures r.Grid? ==> forall i, j :: 0 <= i < j < |r.cards| ==> ValueLe(r.cards[j].value, r.cards[i].value)
    ensures r.Grid? ==> forall c :: c in r.cards ==>
      exists row :: row in rows && Cell(row, metric) == Some(c.value)
                    && c.name == Strings.Strip(row.image) && c.cluster == row.cluster
  {
    if !ValidMetric(metric) then InvalidMetric(metric)
    else
      var valid := Measured(rows, metric);
      if |valid| == 0 then
        NoValidData
      else
        assert exists row :: row in rows && Cell(row, metric).Some? by {
          assert valid[0] in valid;
        }
        var sorted := SortDesc(valid);
        var slice := Head(sorted, n);
        assert SortedDesc(slice);
        assert forall k :: k in slice ==> k in valid by {
          forall k | k in slice ensures k in valid {
            assert k in multiset(sorted);
          }
        }
        RenderCardsFromSlice(slice);
        RenderKeepsSliceOrder(slice);
        Render(slice)
  }

  /** The relational description of the callback: after validation and
      `dropna`, the cards are those `Render` makes of SOME legitimate top
      slice of the requested length. Which of several tied rows is inside the
      slice is left open, as pandas' default (unstable) sort leaves it. */
  ghost predicate TopImagesSpec(rows: seq<Row>, metric: string, n: int, r: Outcome) {
    if !ValidMetric(metric) then r == InvalidMetric(metric)
    else
      var valid := Measured(rows, metric);
      if |valid| == 0 then r == NoValidData
      else exists slice :: IsTopSlice(valid, HeadLength(|valid|, n), slice) && r == Render(slice)
  }

  lemma TopImagesMeetsSpec(rows: seq<Row>, metric: string, n: int)
    ensures TopImagesSpec(rows, metric, n, TopImages(rows, metric, n))
  {
    if ValidMetric(metric) {
      var valid := Measured(rows, metric);
      if |valid| > 0 {
        var sorted := SortDesc(valid);
        var k := HeadLength(|valid|, n);
        TopOfSorted(valid, sorted, k);
        assert Head(sorted, n) == sorted[..k];
      }
    }
  }

  /** When `n` leaves room for every measured row, nothing is cut by the
      slice: every measured row with a valid file name has its card, and the
      grid is shown as soon as one such row exists. */
  lemma TopImagesAllWhenRoom(rows: seq<Row>, metric: string, n: int, row: Row, v: Value)
    requires ValidMetric(metric) && n >= |rows|
    requires row in rows && Cell(row, metric) == Some(v) && HasImage(Keyed(v, row))
    ensures TopImages(rows, metric, n).Grid?
    ensures CardOf(Keyed(v, row)) in TopImages(rows, metric, n).cards
  {
    var valid := Measured(rows, metric);
    var k := Keyed(v, row);
    assert k in valid;
    var sorted := SortDesc(valid);
    assert Head(sorted, n) == sorted;
    assert k in multiset(sorted);
    RenderCardsEveryValidRow(sorted);
  }

  /** The file-name check runs after the slice is cut: a row with a bad name
      still takes one of the `n` places, so a valid image ranked just below
      it is not shown, and the grid may even be replaced by the
      "no valid images" message. */
  lemma FilterAfterSliceCanUnderfill()
    ensures
      var rows := [Row("x.png", 0, Some(9.0), None, None, None, None, None),
                   Row("a.jpg", 0, Some(5.0), None, None, None, None, None)];
      TopImages(rows, "damage_count", 1) == NoValidImages
  {
    var rows := [Row("x.png", 0, Some(9.0), None, None, None, None, None),
                 Row("a.jpg", 0, Some(5.0), None, None, None, None, None)];
    var valid := Measured(rows, "damage_count");
    assert valid == [Keyed(Num(9.0), rows[0]), Keyed(Num(5.0), rows[1])];
    assert SortDesc(valid) == valid;
    assert Strings.Strip("x.png") == "x.png";
    assert !HasImage(valid[0]);
  }

  /** Ranking by one of the four dropdown metrics always prints a number;
      "N/A" only appears when the ranked column is `image`. */
  lemma MetricCardsShowNumbers(rows: seq<Row>, metric: string, n: int)
    requires metric in Metrics
    ensures TopImages(rows, metric, n).Grid? ==>
      forall c :: c in TopImages(rows, metric, n).cards ==> Displayed(c).Some?
  {
  }

  /** Two images of cluster 0; the one with more damage is the top one. */
  lemma TopOneOfTwo()
    ensures
      var rows := [Row("a.jpg", 0, Some(5.0), Some(0.3), Some(0.9), Some(0.95), None, None),
                   Row("b.jpg", 0, Some(2.0), Some(0.1), Some(0.5), Some(0.6), None, None)];
      TopImages(rows, "damage_count", 1) == Grid([Card(ImageUrl("a.jpg"), "a.jpg", Num(5.0), 0)])
  {
    var rows := [Row("a.jpg", 0, Some(5.0), Some(0.3), Some(0.9), Some(0.95), None, None),
                 Row("b.jpg", 0, Some(2.0), Some(0.1), Some(0.5), Some(0.6), None, None)];
    var ka := Keyed(Num(5.0), rows[0]);
    var kb := Keyed(Num(2.0), rows[1]);
    assert Measured(rows[1..], "damage_count") == [kb] by {
      assert rows[1..][1..] == [];
    }
    var valid := Measured(rows, "damage_count");
    assert valid == [ka, kb];
    assert SortDesc([kb]) == [kb] by {
      assert [kb][1..] == [];
    }
    assert SortDesc(valid) == Insert(ka, [kb]);
    assert Insert(ka, [kb]) == valid;
    assert Head(SortDesc(valid), 1) == [ka];
    RenderOneCard(ka);
  }

  /** A slice of one row with a valid file name renders as that row's card. */
  lemma RenderOneCard(k: Keyed)
    requires k.row.image == "a.jpg"
    ensures Render([k]) == Grid([Card(ImageUrl("a.jpg"), "a.jpg", k.key, k.row.cluster)])
  {
    assert Strings.Strip("a.jpg") == "a.jpg";
    assert HasImage(k);
    assert Filter(HasImage, [k]) == [k];
  }
}
