/** The "Explorador Visual" tab: up to twelve image cards of one cluster,
    in table order (callback `update_gallery`). */
module Gallery {
  import opened Wrappers
  import opened Table
  import opened Ranking

  /** How many cards the gallery shows at most (`head(12)`). */
  const GallerySize: nat := 12

  /** One gallery card: the image URL built from the unstripped file name,
      the file name, and the mean confidence and damage density it prints. */
  datatype Card = Card(url: string, name: string, meanConfidence: Option<real>, damageDensity: Option<real>)

  function CardOf(row: Row): Card {
    Card(ImageUrl(row.image), row.image, row.meanConfidence, row.damageDensity)
  }

  /** `df[df["cluster"] == selected]`: the rows of one cluster, in table order. */
  function ClusterRows(rows: seq<Row>, selected: int): (r: seq<Row>)
    ensures forall row :: row in r <==> row in rows && row.cluster == selected
  {
    Filter((row: Row) => row.cluster == selected, rows)
  }

  /** The cluster filter keeps every copy of a row of the selected cluster and
      no copy of any other row. */
  lemma {:induction false} ClusterRowsMultiset(rows: seq<Row>, selected: int)
    ensures forall row ::
              multiset(ClusterRows(rows, selected))[row] ==
              if row.cluster == selected then multiset(rows)[row] else 0
  {
    FilterMultiset((row: Row) => row.cluster == selected, rows);
  }

  /** `update_gallery(selected)`: the cards of the first twelve rows of the
      selected cluster. */
  function Gallery(rows: seq<Row>, selected: int): (cards: seq<Card>)
    ensures |cards| <= GallerySize
    ensures forall c :: c in cards ==> c.url == ImageUrl(c.name)
    ensures forall c :: c in cards ==> exists row :: row in rows && row.cluster == selected && c == CardOf(row)
    ensures cards == [] <==> selected !in ClusterSet(rows)
  {
    var matching := ClusterRows(rows, selected);
    var shown := Head(matching, GallerySize);
    var cards := Map(CardOf, shown);
    assert forall c :: c in cards ==> exists row :: row in rows && row.cluster == selected && c == CardOf(row) by {
      forall c | c in cards ensures exists row :: row in rows && row.cluster == selected && c == CardOf(row) {
        var i :| 0 <= i < |cards| && cards[i] == c;
        assert shown[i] == matching[i] && matching[i] in matching;
      }
    }
    assert selected in ClusterSet(rows) ==> cards != [] by {
      if selected in ClusterSet(rows) {
        var row :| row in rows && row.cluster == selected;
        assert row in matching;
      }
    }
    assert cards != [] ==> selected in ClusterSet(rows) by {
      if cards != [] {
        assert matching[0] in matching;
      }
    }
    cards
  }

  /** The gallery shows the selected cluster's rows of some leading part of
      the table: all of them, and either twelve cards or the whole table's
      worth. So no row of the cluster is passed over in favour of a later
      one. */
  lemma GalleryIsLeadingRowsOfCluster(rows: seq<Row>, selected: int)
    ensures exists k ::
              && 0 <= k <= |rows|
              && Gallery(rows, selected) == Map(CardOf, ClusterRows(rows[..k], selected))
              && (|Gallery(rows, selected)| == GallerySize || k == |rows|)
  {
    var matching := ClusterRows(rows, selected);
    var p := (row: Row) => row.cluster == selected;
    if |matching| <= GallerySize {
      assert rows[..|rows|] == rows;
      assert Head(matching, GallerySize) == matching;
    } else {
      FilterOfPrefix(p, rows, GallerySize);
      var k :| 0 <= k <= |rows| && Filter(p, rows[..k]) == Filter(p, rows)[..GallerySize];
      assert ClusterRows(rows[..k], selected) == Head(matching, GallerySize);
    }
  }
}
