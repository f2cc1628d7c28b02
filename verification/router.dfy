/** The tab router (callback `render_tab_content`): the active tab's id
    selects one of four views, and an unknown id gets a placeholder. */
module Router {
  import opened Wrappers
  import opened Table

  datatype Tab = General | Visual | Distribution | Top

  /** The `tab_id` each tab is declared with in the layout. */
  function TabId(t: Tab): string {
    match t
    case General => "tab-general"
    case Visual => "tab-visual"
    case Distribution => "tab-dist"
    case Top => "tab-top"
  }

  /** The tab an id names, if any. */
  function ParseTab(id: string): (t: Option<Tab>)
    ensures t.Some? ==> TabId(t.value) == id
  {
    if id == "tab-general" then Some(General)
    else if id == "tab-visual" then Some(Visual)
    else if id == "tab-dist" then Some(Distribution)
    else if id == "tab-top" then Some(Top)
    else None
  }

  /** Every tab is recognised by its own id, and only ids of tabs are. */
  lemma TabIdRoundTrip(t: Tab, id: string)
    ensures ParseTab(TabId(t)) == Some(t)
    ensures ParseTab(id).None? <==> forall u: Tab :: TabId(u) != id
  {
    if ParseTab(id).None? {
      forall u: Tab ensures TabId(u) != id {
        assert ParseTab(TabId(u)).Some?;
      }
    }
  }

  /** What each tab renders, reduced to the values the core computes. */
  datatype View =
    | Summary(imageCount: nat, clusterCount: nat, columns: seq<string>, records: seq<Row>)
    | ClusterPicker(clusters: seq<int>, initialCluster: int)
    | MetricPicker(metrics: seq<string>, initialMetric: string)
    | TopPicker(metrics: seq<string>, initialMetric: string, sliderMin: int, sliderMax: int, sliderInitial: int)
    | Unrecognized   // "Tab no reconocida."
    | RenderError    // `unique_clusters[0]` raised on an empty table

  predicate StrictlyIncreasing(s: seq<int>) {
    forall i, j :: 0 <= i < j < |s| ==> s[i] < s[j]
  }

  /** Adds `c` to a strictly increasing list, unless already there. */
  function InsertDistinct(c: int, s: seq<int>): (r: seq<int>)
    requires StrictlyIncreasing(s)
    ensures StrictlyIncreasing(r)
    ensures forall x :: x in r <==> x == c || x in s
    ensures |r| > 0 && (r[0] == c || (|s| > 0 && r[0] == s[0]))
  {
    if |s| == 0 then [c]
    else if c < s[0] then [c] + s
    else if c == s[0] then s
    else
      var rest := InsertDistinct(c, s[1..]);
      assert forall x :: x in s <==> x == s[0] || x in s[1..] by {
        assert s == [s[0]] + s[1..];
      }
      [s[0]] + rest
  }

  /** `sorted(df["cluster"].unique())`. */
  function SortedClusters(rows: seq<Row>): (r: seq<int>)
    ensures StrictlyIncreasing(r)
    ensures forall c :: c in r <==> c in ClusterSet(rows)
  {
    if |rows| == 0 then []
    else
      var rest := SortedClusters(rows[1..]);
      assert ClusterSet(rows) == {rows[0].cluster} + ClusterSet(rows[1..]) by {
        assert rows == [rows[0]] + rows[1..];
      }
      InsertDistinct(rows[0].cluster, rest)
  }

  /** A strictly increasing list holds each of its values once. */
  lemma {:induction false} StrictlyIncreasingCount(s: seq<int>)
    requires StrictlyIncreasing(s)
    ensures |set x | x in s| == |s|
  {
    if |s| > 0 {
      StrictlyIncreasingCount(s[1..]);
      var tail := set x | x in s[1..];
      assert s[0] !in tail;
      assert (set x | x in s) == {s[0]} + tail by {
        assert s == [s[0]] + s[1..];
      }
      assert |{s[0]} + tail| == |tail| + 1;
    }
  }

  /** `df["cluster"].nunique()`. */
  function DistinctClusterCount(rows: seq<Row>): (n: nat)
    ensures n == |ClusterSet(rows)|
  {
    var sorted := SortedClusters(rows);
    StrictlyIncreasingCount(sorted);
    assert (set x | x in sorted) == ClusterSet(rows);
    |sorted|
  }

  /** `render_tab_content(active_tab)`. */
  function Render(rows: seq<Row>, activeTab: string): (v: View)
    ensures v.Unrecognized? <==> ParseTab(activeTab).None?
    ensures v.Summary? <==> activeTab == "tab-general"
    ensures v.Summary? ==> v.imageCount == |rows| && v.clusterCount == |ClusterSet(rows)|
    ensures v.Summary? ==> v.records == rows && v.columns == Columns
    ensures v.ClusterPicker? || v.RenderError? <==> activeTab == "tab-visual"
    ensures v.RenderError? <==> activeTab == "tab-visual" && |rows| == 0
    ensures v.ClusterPicker? ==>
      && StrictlyIncreasing(v.clusters)
      && (forall c :: c in v.clusters <==> c in ClusterSet(rows))
      && |v.clusters| > 0 && v.initialCluster == v.clusters[0]
      && (forall c :: c in ClusterSet(rows) ==> v.initialCluster <= c)
    ensures v.MetricPicker? <==> activeTab == "tab-dist"
    ensures v.MetricPicker? ==> v.metrics == Metrics && v.initialMetric == "damage_count"
    ensures v.TopPicker? <==> activeTab == "tab-top"
    ensures v.TopPicker? ==>
      v.metrics == Metrics && v.initialMetric == "damage_count"
      && v.sliderMin == 1 && v.sliderMax == 10 && v.sliderInitial == 3
  {
    match ParseTab(activeTab)
    case Some(General) => Summary(|rows|, DistinctClusterCount(rows), Columns, rows)
    case Some(Visual) =>
      var clusters := SortedClusters(rows);
      if |clusters| == 0 then
        assert forall row :: row in rows ==> row.cluster in ClusterSet(rows);
        RenderError
      else
        assert rows != [] by {
          assert clusters[0] in ClusterSet(rows);
        }
        assert forall c :: c in ClusterSet(rows) ==> clusters[0] <= c by {
          forall c | c in ClusterSet(rows) ensures clusters[0] <= c {
            var i :| 0 <= i < |clusters| && clusters[i] == c;
          }
        }
        ClusterPicker(clusters, clusters[0])
    case Some(Distribution) => MetricPicker(Metrics, Metrics[0])
    case Some(Top) => TopPicker(Metrics, Metrics[0], 1, 10, 3)
    case None => Unrecognized
  }
}
