/** The metrics table the dashboard loads once at start-up and never changes:
    one row per inspected roof image, with its cluster label and the damage
    metrics computed upstream. A table is a `seq<Row>` in file order. */
module Table {
  import opened Wrappers
  import Strings

  /** One row of the metrics table. `image` and `cluster` are never missing;
      every numeric metric may be missing (NaN in the file), which is `None`. */
  datatype Row = Row(
    image: string,
    cluster: int,
    damageCount: Option<real>,
    damageDensity: Option<real>,
    meanConfidence: Option<real>,
    maxConfidence: Option<real>,
    pca1: Option<real>,
    pca2: Option<real>)

  /** The column names of the table, in file order. */
  const Columns: seq<string> :=
    ["image", "cluster", "damage_count", "damage_density",
     "mean_confidence", "max_confidence", "PCA1", "PCA2"]

  /** The four metrics the dropdowns offer, in display order. */
  const Metrics: seq<string> :=
    ["damage_count", "damage_density", "mean_confidence", "max_confidence"]

  /** Where the inferred images are published; a card's URL is this prefix
      followed by the image's file name. */
  const ImageUrlPrefix: string :=
    "https://huggingface.co/jobejaranom/yolo-roof-damage/resolve/main/train_inference/"

  /** A present cell: a number, or the text of the `image` column. */
  datatype Value = Num(x: real) | Str(s: string)

  /** The cell of `row` in column `column`; `None` when the cell is missing
      or `column` is not a column of the table. */
  function Cell(row: Row, column: string): (v: Option<Value>)
    ensures v.Some? ==> column in Columns
    ensures column == "image" ==> v == Some(Str(row.image))
    ensures column == "cluster" ==> v == Some(Num(row.cluster as real))
    ensures column in Metrics && v.Some? ==> v.value.Num?
  {
    match column
    case "image" => Some(Str(row.image))
    case "cluster" => Some(Num(row.cluster as real))
    case "damage_count" => AsNum(row.damageCount)
    case "damage_density" => AsNum(row.damageDensity)
    case "mean_confidence" => AsNum(row.meanConfidence)
    case "max_confidence" => AsNum(row.maxConfidence)
    case "PCA1" => AsNum(row.pca1)
    case "PCA2" => AsNum(row.pca2)
    case _ => None
  }

  function AsNum(x: Option<real>): Option<Value> {
    match x
    case None => None
    case Some(v) => Some(Num(v))
  }

  /** The order `sort_values` uses on one column: numbers by magnitude, texts
      as Python compares `str`. No column mixes the two kinds; numbers are
      put below texts only so that the order is total. */
  predicate ValueLe(a: Value, b: Value) {
    match (a, b)
    case (Num(x), Num(y)) => x <= y
    case (Str(s), Str(t)) => Strings.LexLe(s, t)
    case (Num(_), Str(_)) => true
    case (Str(_), Num(_)) => false
  }

  lemma ValueLeTotal(a: Value, b: Value)
    ensures ValueLe(a, b) || ValueLe(b, a)
  {
    if a.Str? && b.Str? {
      Strings.LexLeTotal(a.s, b.s);
    }
  }

  lemma ValueLeTransitive(a: Value, b: Value, c: Value)
    requires ValueLe(a, b) && ValueLe(b, c)
    ensures ValueLe(a, c)
  {
    if a.Str? && b.Str? && c.Str? {
      Strings.LexLeTransitive(a.s, b.s, c.s);
    }
  }

  lemma ValueLeAntisymmetric(a: Value, b: Value)
    requires ValueLe(a, b) && ValueLe(b, a)
    ensures a == b
  {
    if a.Str? && b.Str? {
      Strings.LexLeAntisymmetric(a.s, b.s);
    }
  }

  /** The distinct cluster labels of a table. */
  ghost function ClusterSet(rows: seq<Row>): set<int> {
    set r | r in rows :: r.cluster
  }

  /** The URL of a published image. */
  function ImageUrl(name: string): (url: string)
    ensures |url| == |ImageUrlPrefix| + |name|
    ensures url[..|ImageUrlPrefix|] == ImageUrlPrefix
    ensures url[|ImageUrlPrefix|..] == name
  {
    ImageUrlPrefix + name
  }

  /** The file name a card URL points at: the inverse of `ImageUrl`. */
  function ImageNameOf(url: string): (name: Option<string>)
    ensures name.Some? <==> |ImageUrlPrefix| <= |url| && url[..|ImageUrlPrefix|] == ImageUrlPrefix
  {
    if |ImageUrlPrefix| <= |url| && url[..|ImageUrlPrefix|] == ImageUrlPrefix
    then Some(url[|ImageUrlPrefix|..])
    else None
  }

  /** Every image URL names its image, and only URLs under the prefix name one. */
  lemma ImageUrlRoundTrip(name: string, url: string)
    ensures ImageNameOf(ImageUrl(name)) == Some(name)
    ensures ImageNameOf(url) == Some(name) ==> ImageUrl(name) == url
  {
    if ImageNameOf(url) == Some(name) {
      assert url == url[..|ImageUrlPrefix|] + url[|ImageUrlPrefix|..];
    }
  }
}
