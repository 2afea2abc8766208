/**
 * The `SupremeCourtSearch` object: its output folders and one-year search
 * windows, the two searches from the point where the browser has produced
 * the result list or table, and the PDF path column added before downloading.
 */
module Search {
  import opened Wrappers
  import opened PyStr
  import opened Planner
  import opened Frames
  import opened FreeText
  import opened ActWise
  import opened Paths

  /** The duplicate key of the free-text results (line 177). */
  const FreeTextKey: seq<string> := ["judgment_date", "petitioner_name", "respondent_name"]
  /** The duplicate key of the act-wise results (line 108). */
  const CaseNumber := "Case Number"
  const CaseKey: seq<string> := [CaseNumber]
  const IdColumn := "judgment_id"
  const PdfPathColumn := "pdf_filepath"

  /** Every row of `rows` has a value in `column`. */
  predicate AllHave(rows: seq<Row>, column: string) {
    forall i :: 0 <= i < |rows| ==> column in rows[i]
  }

  /** Every row's `judgment_id` is the hash of its `judgment_url`. */
  predicate IdsAreHashes(rows: seq<Row>, hash: string -> string) {
    forall i :: 0 <= i < |rows| ==> UrlColumn in rows[i] && IdColumn in rows[i] && rows[i][IdColumn] == hash(rows[i][UrlColumn])
  }

  /**
   * The table a free-text search returns (lines 175-179), or `None` when it
   * raises. A frame built from no records has no rows and no columns:
   * `drop_duplicates` returns it as it is, and looking up its `judgment_url`
   * column raises `KeyError`, so the search fails exactly when nothing was
   * harvested. Otherwise the table
   * keeps one record per (date, petitioner, respondent), every harvested key
   * among them, and each record gets the hash of its URL as id.
   */
  function FreeTextTable(options: seq<ResultOption>, hash: string -> string): (r: Option<seq<Row>>)
    ensures r.None? <==> Harvest(options) == []
    ensures r.Some? ==> |r.value| <= |Harvest(options)|
    ensures r.Some? ==> KeysDistinct(r.value, FreeTextKey)
    ensures r.Some? ==> KeysOf(r.value, FreeTextKey) == KeysOf(Harvest(options), FreeTextKey)
    ensures r.Some? ==> forall j :: 0 <= j < |r.value| ==> r.value[j].Keys == RecordColumns + {IdColumn}
    ensures r.Some? ==> IdsAreHashes(r.value, hash)
  {
    var records := Harvest(options);
    if records == [] then None
    else
      HarvestRecords(options);
      IdentifiedFirsts(records, hash);
      Some(Derived(KeepFirst(records, FreeTextKey), IdColumn, UrlColumn, hash))
  }

  /** The rows of the free-text records that `drop_duplicates` keeps, with their ids. */
  lemma IdentifiedFirsts(records: seq<Row>, hash: string -> string)
    requires forall j :: 0 <= j < |records| ==> records[j].Keys == RecordColumns
    ensures AllHave(KeepFirst(records, FreeTextKey), UrlColumn)
    ensures var table := Derived(KeepFirst(records, FreeTextKey), IdColumn, UrlColumn, hash);
      && |table| <= |records|
      && KeysDistinct(table, FreeTextKey)
      && KeysOf(table, FreeTextKey) == KeysOf(records, FreeTextKey)
      && (forall j :: 0 <= j < |table| ==> table[j].Keys == RecordColumns + {IdColumn})
      && IdsAreHashes(table, hash)
  {
    var kept := KeepFirst(records, FreeTextKey);
    KeepFirstDistinct(records, FreeTextKey);
    KeepFirstKeys(records, FreeTextKey);
    assert forall j :: 0 <= j < |kept| ==> kept[j].Keys == RecordColumns by {
      forall j | 0 <= j < |kept| ensures kept[j].Keys == RecordColumns {
        var m :| 0 <= m < |records| && records[m] == kept[j];
      }
    }
    assert AllHave(kept, UrlColumn);
    assert IdColumn !in FreeTextKey;
    DerivedKeepsKeys(kept, IdColumn, UrlColumn, hash, FreeTextKey);
  }

  /** The frame of the free-text records has their four columns, or none when there is no record. */
  lemma RecordsColumns(records: seq<Row>)
    requires forall j :: 0 <= j < |records| ==> records[j].Keys == RecordColumns
    ensures ColumnsOf(records) == if records == [] then {} else RecordColumns
  {
    if records != [] {
      assert records[0].Keys == RecordColumns;
    }
  }

  /** Some row of serial number `serial` has a link cell. */
  predicate Linked(rows: seq<TableRow>, serial: string) {
    exists j :: 0 <= j < |rows| && rows[j].serial == serial && rows[j].link.Some?
  }

  /** Every serial number of the act-wise table has at least one link cell. */
  predicate EverySerialLinked(rows: seq<TableRow>) {
    forall serial :: serial in Serials(rows) ==> Linked(rows, serial)
  }

  /**
   * The table an act-wise search returns (lines 96-110), or `None` when it
   * raises: a link cell that does not parse, a repeated (serial, attribute)
   * pair in `pivot`, no "Case Number" column in `drop_duplicates` of a
   * non-empty table, or a kept record without URL in the hash. The table
   * keeps one record per case number; its columns are the attributes, the URL
   * and the id. A results table without rows gives an empty table with the
   * URL and id columns.
   */
  function ActWiseTable(rows: seq<TableRow>, hash: string -> string): (r: Option<(set<string>, seq<Row>)>)
    ensures r.Some? ==> LinksParse(rows) && UniqueCells(rows) && (rows == [] || CaseNumber in Attributes(rows))
    ensures LinksParse(rows) && UniqueCells(rows) && (rows == [] || CaseNumber in Attributes(rows)) && EverySerialLinked(rows) ==> r.Some?
    ensures r.Some? ==> r.value.0 == Attributes(rows) + {UrlColumn, IdColumn}
    ensures r.Some? ==> |r.value.1| <= |Serials(rows)|
    ensures r.Some? ==> KeysDistinct(r.value.1, CaseKey)
    ensures r.Some? ==> KeysOf(r.value.1, CaseKey) == KeysOf(Reshape(rows).value.1, CaseKey)
    ensures r.Some? ==> IdsAreHashes(r.value.1, hash)
    ensures r.Some? ==> forall k :: 0 <= k < |r.value.1| ==> r.value.1[k].Keys <= r.value.0
  {
    match Reshape(rows)
    case None => None
    case Some(reshaped) =>
      var (cols, wide) := reshaped;
      assert |wide| == |Serials(rows)|;
      SerialsOfNonEmpty(rows);
      ReshapedHaveUrls(rows);
      KeptHave(wide, CaseKey, UrlColumn);
      if (wide != [] && CaseNumber !in cols) || !AllHave(KeepFirst(wide, CaseKey), UrlColumn) then None
      else
        IdentifiedCases(cols, wide, hash);
        Some((cols + {IdColumn}, Derived(KeepFirst(wide, CaseKey), IdColumn, UrlColumn, hash)))
  }

  /** A table with rows has a serial number. */
  lemma SerialsOfNonEmpty(rows: seq<TableRow>)
    ensures rows == [] <==> Serials(rows) == []
  {
    if rows != [] {
      assert rows[0].serial in Serials(rows);
    }
  }

  /**
   * A results table without rows does not raise: `drop_duplicates` leaves the
   * empty frame as it is, and the table has only the URL and id columns.
   */
  lemma ActWiseOfEmpty(hash: string -> string)
    ensures ActWiseTable([], hash) == Some(({UrlColumn, IdColumn}, []))
  {
    var empty: seq<TableRow> := [];
    assert LinksParse(empty) && UniqueCells(empty);
    assert Serials(empty) == [];
    assert Attributes(empty) == {};
    var reshaped := Reshape(empty).value;
    assert reshaped.0 == {UrlColumn};
    assert |reshaped.1| == 0;
    assert KeepFirst(reshaped.1, CaseKey) == [];
    assert AllHave(KeepFirst(reshaped.1, CaseKey), UrlColumn);
    assert |Derived(KeepFirst(reshaped.1, CaseKey), IdColumn, UrlColumn, hash)| == 0;
    assert reshaped.0 + {IdColumn} == {UrlColumn, IdColumn};
  }

  /** The rows of the act-wise records that `drop_duplicates` keeps, with their ids. */
  lemma IdentifiedCases(cols: set<string>, wide: seq<Row>, hash: string -> string)
    requires forall k :: 0 <= k < |wide| ==> wide[k].Keys <= cols
    requires AllHave(KeepFirst(wide, CaseKey), UrlColumn)
    ensures var table := Derived(KeepFirst(wide, CaseKey), IdColumn, UrlColumn, hash);
      && |table| <= |wide|
      && KeysDistinct(table, CaseKey)
      && KeysOf(table, CaseKey) == KeysOf(wide, CaseKey)
      && IdsAreHashes(table, hash)
      && forall k :: 0 <= k < |table| ==> table[k].Keys <= cols + {IdColumn}
  {
    var kept := KeepFirst(wide, CaseKey);
    KeepFirstDistinct(wide, CaseKey);
    KeepFirstKeys(wide, CaseKey);
    assert forall j :: 0 <= j < |kept| ==> kept[j].Keys <= cols by {
      forall j | 0 <= j < |kept| ensures kept[j].Keys <= cols {
        var m :| 0 <= m < |wide| && wide[m] == kept[j];
      }
    }
    assert IdColumn !in CaseKey;
    DerivedKeepsKeys(kept, IdColumn, UrlColumn, hash, CaseKey);
  }

  /** A column every row has is a column every kept row has. */
  lemma KeptHave(rows: seq<Row>, subset: seq<string>, column: string)
    ensures AllHave(rows, column) ==> AllHave(KeepFirst(rows, subset), column)
  {
    var kept := KeepFirst(rows, subset);
    if AllHave(rows, column) {
      forall j | 0 <= j < |kept| ensures column in kept[j] {
        var m :| 0 <= m < |rows| && rows[m] == kept[j];
      }
    }
  }

  /** The reshaped table has one record per serial number, the record of serial `k` being `Wide(rows, k)`. */
  lemma ReshapeLength(rows: seq<TableRow>)
    requires Reshape(rows).Some?
    ensures |Reshape(rows).value.1| == |Serials(rows)|
    ensures forall k :: 0 <= k < |Serials(rows)| ==> Reshape(rows).value.1[k] == Wide(rows, Serials(rows)[k])
  {
  }

  /** A serial with a link cell gets a URL once the link cells parse. */
  lemma WideHasUrl(rows: seq<TableRow>, serial: string)
    requires LinksParse(rows)
    requires Linked(rows, serial)
    ensures UrlColumn in Wide(rows, serial)
  {
    FirstUrlMissing(rows, serial);
  }

  /** With every serial linked, each serial's record has a URL, so the hash never meets NaN. */
  lemma LinkedRecordsHaveUrls(rows: seq<TableRow>)
    requires LinksParse(rows) && EverySerialLinked(rows)
    ensures forall k :: 0 <= k < |Serials(rows)| ==> UrlColumn in Wide(rows, Serials(rows)[k])
  {
    var serials := Serials(rows);
    forall k | 0 <= k < |serials| ensures UrlColumn in Wide(rows, serials[k]) {
      SerialHasUrl(rows, serials[k]);
    }
  }

  lemma SerialHasUrl(rows: seq<TableRow>, serial: string)
    requires LinksParse(rows) && EverySerialLinked(rows)
    requires serial in Serials(rows)
    ensures UrlColumn in Wide(rows, serial)
  {
    assert Linked(rows, serial);
    WideHasUrl(rows, serial);
  }

  /** Under `LinkedRecordsHaveUrls`, every reshaped record has a URL. */
  lemma ReshapedHaveUrls(rows: seq<TableRow>)
    requires Reshape(rows).Some?
    ensures EverySerialLinked(rows) ==> AllHave(Reshape(rows).value.1, UrlColumn)
  {
    if EverySerialLinked(rows) {
      ReshapeLength(rows);
      LinkedRecordsHaveUrls(rows);
    }
  }

  /** The table of `download_judgment_pdfs` (line 228): each row gets the download target of its id. */
  function WithPdfPaths(rows: seq<Row>, pdfFolder: string): (r: seq<Row>)
    requires AllHave(rows, IdColumn)
    ensures |r| == |rows|
    ensures forall i :: 0 <= i < |rows| ==> r[i] == rows[i][PdfPathColumn := DownloadPath(pdfFolder, rows[i][IdColumn])]
  {
    Derived(rows, PdfPathColumn, IdColumn, id => DownloadPath(pdfFolder, id))
  }

  /**
   * In a table whose ids are hexadecimal digests and pairwise different, the
   * download targets are `pdfFolder + id + ".pdf"` and pairwise different, so
   * no two of the parallel downloads write the same file.
   */
  lemma PdfPathsDistinct(rows: seq<Row>, pdfFolder: string)
    requires AllHave(rows, IdColumn) && EndsWith(pdfFolder, "/")
    requires forall i :: 0 <= i < |rows| ==> IsHexDigest(rows[i][IdColumn])
    requires forall i, j :: 0 <= i < j < |rows| ==> rows[i][IdColumn] != rows[j][IdColumn]
    ensures forall i :: 0 <= i < |rows| ==>
      WithPdfPaths(rows, pdfFolder)[i][PdfPathColumn] == pdfFolder + rows[i][IdColumn] + ".pdf"
    ensures forall i, j :: 0 <= i < j < |rows| ==>
      WithPdfPaths(rows, pdfFolder)[i][PdfPathColumn] != WithPdfPaths(rows, pdfFolder)[j][PdfPathColumn]
  {
    forall i, j | 0 <= i < j < |rows|
      ensures DownloadPath(pdfFolder, rows[i][IdColumn]) != DownloadPath(pdfFolder, rows[j][IdColumn])
    {
      DownloadPathsDistinct(pdfFolder, rows[i][IdColumn], rows[j][IdColumn]);
    }
  }

  /** Both output sub-folders of an output folder end in '/'. */
  lemma OutputFoldersEndInSlash(root: string)
    ensures EndsWith(PathJoin(root, "pdfs/"), "/") && EndsWith(PathJoin(root, "txt/"), "/")
  {
    assert "pdfs/"[4..] == "/";
    SubfolderPath(root, "pdfs/");
    assert "txt/"[3..] == "/";
    SubfolderPath(root, "txt/");
  }

  class SupremeCourtSearch {
    var searchDateRange: (int, int)
    var oneYearIntervals: seq<(int, int)>
    var outputFolder: string
    var pdfOutputFolder: string
    var txtOutputFolder: string

    /**
     * Lines 24-39: the one-year windows of the date range and the `pdfs/` and
     * `txt/` sub-folders of the output folder.
     */
    constructor(outputFolderPath: string, startDate: int, endDate: int)
      ensures searchDateRange == (startDate, endDate)
      ensures oneYearIntervals == Windows(startDate, endDate)
      ensures outputFolder == outputFolderPath
      ensures pdfOutputFolder == PathJoin(outputFolderPath, "pdfs/")
      ensures txtOutputFolder == PathJoin(outputFolderPath, "txt/")
    {
      searchDateRange := (startDate, endDate);
      var ranges := PlanRanges(startDate, endDate);
      oneYearIntervals := ranges;
      outputFolder := outputFolderPath;
      pdfOutputFolder := PathJoin(outputFolderPath, "pdfs/");
      txtOutputFolder := PathJoin(outputFolderPath, "txt/");
    }

    /**
     * `search_free_text` once the result list is read: collect the records,
     * build the frame, drop duplicates in place and add the id column. `null`
     * when the search raises.
     */
    method SearchFreeText(options: seq<ResultOption>, hash: string -> string) returns (table: Frame?)
      ensures table == null <==> FreeTextTable(options, hash).None?
      ensures table != null ==> fresh(table) && table.Valid()
      ensures table != null ==> table.columns == RecordColumns + {IdColumn}
      ensures table != null ==> table.rows == FreeTextTable(options, hash).value
    {
      var details := CollectResults(options);
      HarvestRecords(options);
      RecordsColumns(details);
      var frame := new Frame.FromRecords(details);
      var ok := frame.DropDuplicates(FreeTextKey);
      if !ok {
        return null;
      }
      IdentifiedFirsts(details, hash);
      ok := frame.AssignColumn(IdColumn, UrlColumn, hash);
      if !ok {
        return null;
      }
      table := frame;
    }

    /**
     * `search_actwise` once the result table is read: reshape it, drop
     * duplicate case numbers in place and add the id column. `null` when the
     * search raises.
     */
    method SearchActWise(rows: seq<TableRow>, hash: string -> string) returns (table: Frame?)
      ensures table == null <==> ActWiseTable(rows, hash).None?
      ensures table != null ==> fresh(table) && table.Valid()
      ensures table != null ==> table.columns == ActWiseTable(rows, hash).value.0
      ensures table != null ==> table.rows == ActWiseTable(rows, hash).value.1
    {
      var reshaped := Reshape(rows);
      if reshaped.None? {
        return null;
      }
      var (cols, wide) := reshaped.value;
      var frame := new Frame.Of(cols, wide);
      var ok := frame.DropDuplicates(CaseKey);
      if !ok {
        assert wide != [] && CaseNumber !in cols;
        return null;
      }
      ok := frame.AssignColumn(IdColumn, UrlColumn, hash);
      if !ok {
        return null;
      }
      table := frame;
    }

    /**
     * Line 228 of `download_judgment_pdfs`: add the download target of each
     * id as column `pdf_filepath`, in place. `false`, with the table as it
     * was, when a row has no id.
     */
    method DownloadJudgmentPdfs(table: Frame) returns (ok: bool)
      requires table.Valid()
      modifies table
      ensures table.Valid()
      ensures ok <==> IdColumn in old(table.columns) && AllHave(old(table.rows), IdColumn)
      ensures ok ==> table.columns == old(table.columns) + {PdfPathColumn}
      ensures ok ==> table.rows == WithPdfPaths(old(table.rows), pdfOutputFolder)
      ensures !ok ==> table.columns == old(table.columns) && table.rows == old(table.rows)
    {
      var folder := pdfOutputFolder;
      ok := table.AssignColumn(PdfPathColumn, IdColumn, id => DownloadPath(folder, id));
    }
  }
}
