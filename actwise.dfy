/**
 * The act-wise search results (`search_actwise`): the results table in long
 * form, one row per (serial number, attribute, value, link), reshaped into one
 * record per serial number with the judgment's URL.
 */
module ActWise {
  import opened Wrappers
  import opened PyStr
  import opened Frames

  const SiteRoot := "https://main.sci.gov.in"
  const UrlColumn := "judgment_url"

  /** The link column of a row: the link's text and its `href`, `None` when the `<a>` has none. */
  datatype LinkCell = LinkCell(text: string, href: Option<string>)

  /** One row of the results table, with the cell texts already taken; `link == None` is a NaN cell. */
  datatype TableRow = TableRow(serial: string, attribute: string, value: string, link: Option<LinkCell>)

  datatype LinkInfo = LinkInfo(judgmentDate: string, language: string, url: string)

  /**
   * The three columns derived from a link cell: the date is the text up to the
   * first space, the language the next space-separated token with its
   * parentheses removed, the URL the site root followed by the `href`. `None`
   * is the exception that aborts the search: a text without a space (no token
   * 1) or a link without `href` (`str + None`).
   */
  function ParseLink(cell: LinkCell): (r: Option<LinkInfo>)
    ensures r.Some? <==> ' ' in cell.text && cell.href.Some?
    ensures r.Some? ==> ' ' !in r.value.judgmentDate && StartsWith(cell.text, r.value.judgmentDate + " ")
    ensures r.Some? ==> |SplitAt(cell.text, ' ')| >= 2 && r.value.language == StripParens(SplitAt(cell.text, ' ')[1])
    ensures r.Some? ==> '(' !in r.value.language && ')' !in r.value.language
    ensures r.Some? ==> r.value.url == SiteRoot + cell.href.value
  {
    var tokens := SplitAt(cell.text, ' ');
    if |tokens| < 2 || cell.href.None? then None
    else
      JoinWithSplitAt(cell.text, ' ');
      assert cell.text == tokens[0] + " " + JoinWith(tokens[1..], ' ');
      assert (tokens[0] + " " + JoinWith(tokens[1..], ' '))[..|tokens[0] + " "|] == tokens[0] + " ";
      Some(LinkInfo(tokens[0], StripParens(tokens[1]), SiteRoot + cell.href.value))
  }

  /** Every link cell of the table can be parsed, so that the three `apply` calls do not raise. */
  predicate LinksParse(rows: seq<TableRow>) {
    forall i :: 0 <= i < |rows| && rows[i].link.Some? ==> ParseLink(rows[i].link.value).Some?
  }

  /** No serial number has the same attribute twice; otherwise `pivot` raises `ValueError`. */
  predicate UniqueCells(rows: seq<TableRow>) {
    forall i, j :: 0 <= i < j < |rows| ==>
      !(rows[i].serial == rows[j].serial && rows[i].attribute == rows[j].attribute)
  }

  /** The `judgment_url` column of a row: NaN without a link. */
  function UrlOf(row: TableRow): (r: Option<string>)
    ensures r.Some? <==> row.link.Some? && ParseLink(row.link.value).Some?
    ensures r.Some? ==> r.value == SiteRoot + row.link.value.href.value
  {
    match row.link
    case None => None
    case Some(cell) =>
      match ParseLink(cell)
      case None => None
      case Some(info) => Some(info.url)
  }

  /** The serial numbers of the table, sorted and each once: the index `pivot` and `groupby` build. */
  function Serials(rows: seq<TableRow>): (r: seq<string>)
    decreases |rows|
    ensures StrictlySorted(r) && Distinct(r)
    ensures forall x :: x in r <==> exists i :: 0 <= i < |rows| && rows[i].serial == x
  {
    if rows == [] then []
    else
      var init := rows[..|rows| - 1];
      var prev := Serials(init);
      InsertSortedDistinct(rows[|rows| - 1].serial, prev);
      assert forall i :: 0 <= i < |init| ==> init[i] == rows[i];
      InsertSorted(rows[|rows| - 1].serial, prev)
  }

  /** The pivoted values of one serial number: attribute to value. */
  function AttributesOf(rows: seq<TableRow>, serial: string): (m: map<string, string>)
    decreases |rows|
    ensures forall a :: a in m <==>
      exists i :: 0 <= i < |rows| && rows[i].serial == serial && rows[i].attribute == a
    ensures UniqueCells(rows) ==>
      forall i :: 0 <= i < |rows| && rows[i].serial == serial ==> m[rows[i].attribute] == rows[i].value
  {
    if rows == [] then map[]
    else
      var init := rows[..|rows| - 1];
      var last := rows[|rows| - 1];
      var prev := AttributesOf(init, serial);
      assert forall i :: 0 <= i < |init| ==> init[i] == rows[i];
      assert UniqueCells(rows) ==> UniqueCells(init);
      if last.serial == serial then prev[last.attribute := last.value] else prev
  }

  /** The index of the first row at or after `from` of serial `serial` with a URL. */
  function FirstUrlFrom(rows: seq<TableRow>, serial: string, from: nat): (r: Option<nat>)
    decreases |rows| - from
    ensures r.Some? ==> from <= r.value < |rows| && rows[r.value].serial == serial && UrlOf(rows[r.value]).Some?
    ensures r.Some? ==> forall m :: from <= m < r.value ==> !(rows[m].serial == serial && UrlOf(rows[m]).Some?)
    ensures r.None? ==> forall m :: from <= m < |rows| ==> !(rows[m].serial == serial && UrlOf(rows[m]).Some?)
  {
    if from >= |rows| then None
    else if rows[from].serial == serial && UrlOf(rows[from]).Some? then Some(from)
    else FirstUrlFrom(rows, serial, from + 1)
  }

  /** `groupby('sr_no')['judgment_url'].first()`: the first URL that is not NaN, if any. */
  function FirstUrl(rows: seq<TableRow>, serial: string): (r: Option<string>)
    ensures r.None? <==> forall i :: 0 <= i < |rows| && rows[i].serial == serial ==> UrlOf(rows[i]).None?
    ensures r.Some? ==>
      exists i :: 0 <= i < |rows| && rows[i].serial == serial && UrlOf(rows[i]) == r &&
        forall m :: 0 <= m < i && rows[m].serial == serial ==> UrlOf(rows[m]).None?
  {
    match FirstUrlFrom(rows, serial, 0)
    case None => None
    case Some(i) => UrlOf(rows[i])
  }

  /** The record of one serial number after `pd.concat([pivoted, urls], axis=1)`. */
  function Wide(rows: seq<TableRow>, serial: string): (r: Row)
    ensures r.Keys == AttributesOf(rows, serial).Keys + (if FirstUrl(rows, serial).Some? then {UrlColumn} else {})
    ensures forall a :: a in AttributesOf(rows, serial) && a != UrlColumn ==> r[a] == AttributesOf(rows, serial)[a]
    ensures Cell(r, UrlColumn) == if FirstUrl(rows, serial).Some? then FirstUrl(rows, serial) else Cell(AttributesOf(rows, serial), UrlColumn)
  {
    match FirstUrl(rows, serial)
    case None => AttributesOf(rows, serial)
    case Some(url) => AttributesOf(rows, serial)[UrlColumn := url]
  }

  function Attributes(rows: seq<TableRow>): set<string> {
    set i | 0 <= i < |rows| :: rows[i].attribute
  }

  /**
   * Lines 99-106: derive the link columns, pivot to one record per serial number
   * and join the first URL of each. `None` when one of them raises.
   */
  function Reshape(rows: seq<TableRow>): (r: Option<(set<string>, seq<Row>)>)
    ensures r.None? <==> !LinksParse(rows) || !UniqueCells(rows)
    ensures r.Some? ==> r.value.0 == Attributes(rows) + {UrlColumn}
    ensures r.Some? ==> forall k :: 0 <= k < |r.value.1| ==> r.value.1[k].Keys <= r.value.0
  {
    if !LinksParse(rows) || !UniqueCells(rows) then None
    else
      var serials := Serials(rows);
      var wide := seq(|serials|, k requires 0 <= k < |serials| => Wide(rows, serials[k]));
      var cols := Attributes(rows) + {UrlColumn};
      assert forall k :: 0 <= k < |wide| ==> wide[k].Keys <= cols by {
        forall k, a | 0 <= k < |wide| && a in wide[k] ensures a in cols {
          if a != UrlColumn {
            assert a in AttributesOf(rows, serials[k]);
            var i :| 0 <= i < |rows| && rows[i].serial == serials[k] && rows[i].attribute == a;
          }
        }
      }
      Some((cols, wide))
  }

  /**
   * What the reshaped table holds when no attribute is itself called
   * `judgment_url`: one record per serial number, in ascending order of serial;
   * each record has every attribute of its serial with its value, and the
   * first URL among the rows of that serial.
   */
  lemma ReshapeRecords(rows: seq<TableRow>)
    requires LinksParse(rows) && UniqueCells(rows)
    requires forall i :: 0 <= i < |rows| ==> rows[i].attribute != UrlColumn
    ensures |Reshape(rows).value.1| == |Serials(rows)|
    ensures forall k, i :: 0 <= k < |Serials(rows)| && 0 <= i < |rows| && rows[i].serial == Serials(rows)[k] ==>
      Reshape(rows).value.1[k][rows[i].attribute] == rows[i].value
    ensures forall k :: 0 <= k < |Serials(rows)| ==>
      Cell(Reshape(rows).value.1[k], UrlColumn) == FirstUrl(rows, Serials(rows)[k])
  {
    var serials := Serials(rows);
    var wide := Reshape(rows).value.1;
    forall k | 0 <= k < |serials| ensures Cell(wide[k], UrlColumn) == FirstUrl(rows, serials[k]) {
      assert UrlColumn !in AttributesOf(rows, serials[k]);
    }
  }

  /** A row with a link has a URL once the links parse; so a serial lacks a URL only if none of its rows has a link. */
  lemma FirstUrlMissing(rows: seq<TableRow>, serial: string)
    requires LinksParse(rows)
    ensures FirstUrl(rows, serial).None? <==>
      forall i :: 0 <= i < |rows| && rows[i].serial == serial ==> rows[i].link.None?
  {
    var f := FirstUrlFrom(rows, serial, 0);
    assert forall i :: 0 <= i < |rows| ==> (UrlOf(rows[i]).Some? <==> rows[i].link.Some?);
  }
}
