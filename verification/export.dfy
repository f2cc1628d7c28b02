/** The CSV download (callback `download_table`). */
module Export {
  import opened Wrappers
  import opened Table

  /** The file name the browser saves the export under. */
  const ExportFileName: string := "roof_metrics.csv"

  /** What is handed to the browser: the whole table, with its column names
      and without pandas' index column, under a fixed file name. The text of
      the CSV itself is produced by pandas and is not modelled. */
  datatype Download = Download(fileName: string, columns: seq<string>, records: seq<Row>, withIndex: bool)

  /** The `ValueError` raised for an empty table. */
  datatype ExportError = EmptyTable

  /** `download_table(n_clicks)`: the full table (never a filtered or sorted
      view of it), or an error when it has no rows. */
  function DownloadTable(rows: seq<Row>): (r: Result<Download, ExportError>)
    ensures r.Failure? <==> |rows| == 0
    ensures r.Failure? ==> r.error == EmptyTable
    ensures r.Success? ==> r.value.fileName == "roof_metrics.csv"
    ensures r.Success? ==> r.value.records == rows
    ensures r.Success? ==> r.value.columns == Columns && !r.value.withIndex
  {
    if |rows| == 0 then Failure(EmptyTable)
    else Success(Download(ExportFileName, Columns, rows, false))
  }
}
