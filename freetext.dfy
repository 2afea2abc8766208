/**
 * The free-text search results (`search_free_text`): each option of the result
 * list is labelled "petitioner Vs respondent / date"; its PDF link is read from
 * the detail pane that selecting the option shows.
 */
module FreeText {
  import opened Wrappers
  import opened PyStr
  import opened Frames

  const LabelSeparator := " / "
  const PartySeparator := " Vs "

  /** The party names of a label and what follows them. */
  function SplitLabel(text: string): (r: Option<(string, string)>)
    ensures r.None? <==> !Contains(text, LabelSeparator)
    ensures r.Some? ==> r.value.0 + LabelSeparator + r.value.1 == text
    ensures r.Some? ==> !Contains(r.value.0, LabelSeparator)
  {
    // the unpacking `party_names, judgment_date = ...` raises unless there are two parts
    var parts := SplitOnce(text, LabelSeparator);
    if |parts| == 2 then Some((parts[0], parts[1])) else None
  }

  datatype Parties = Parties(petitioner: string, respondent: string)

  /** Petitioner and respondent; the respondent is empty when the names hold no " Vs ". */
  function SplitParties(names: string): (r: Parties)
    ensures !Contains(names, PartySeparator) ==> r == Parties(names, "")
    ensures Contains(names, PartySeparator) ==>
      r.petitioner + PartySeparator + r.respondent == names && !Contains(r.petitioner, PartySeparator)
  {
    var parts := SplitOnce(names, PartySeparator);
    if |parts| == 1 then Parties(parts[0], "") else Parties(parts[0], parts[1])
  }

  datatype Label = Label(judgmentDate: string, petitioner: string, respondent: string)

  /** The label of one result option; `None` is the exception that makes the loop skip the option. */
  function ParseLabel(text: string): (r: Option<Label>)
    ensures r.None? <==> !Contains(text, LabelSeparator)
  {
    match SplitLabel(text)
    case None => None
    case Some((names, date)) =>
      var p := SplitParties(names);
      Some(Label(date, p.petitioner, p.respondent))
  }

  /** "p Vs q / d" parses back to p, q and d when no separator starts earlier than the displayed ones. */
  lemma ParseLabelRoundTrip(p: string, q: string, d: string)
    requires !Contains(p + " Vs", PartySeparator)
    requires !Contains(p + PartySeparator + q + " /", LabelSeparator)
    ensures ParseLabel(p + PartySeparator + q + LabelSeparator + d) == Some(Label(d, p, q))
  {
    assert PartySeparator[..|PartySeparator| - 1] == " Vs";
    assert LabelSeparator[..|LabelSeparator| - 1] == " /";
    SplitOnceUnique(p + PartySeparator + q, LabelSeparator, d);
    SplitOnceUnique(p, PartySeparator, q);
  }

  /** "p / d" with no " Vs " in p parses to p, an empty respondent, and d. */
  lemma ParseLabelWithoutRespondent(p: string, d: string)
    requires !Contains(p, PartySeparator)
    requires !Contains(p + " /", LabelSeparator)
    ensures ParseLabel(p + LabelSeparator + d) == Some(Label(d, p, ""))
  {
    assert LabelSeparator[..|LabelSeparator| - 1] == " /";
    SplitOnceUnique(p, LabelSeparator, d);
  }

  /** Python's list index `k`, negative indices counting from the end. */
  function PyIndex(k: int, n: nat): int {
    if k < 0 then k + n else k
  }

  /**
   * The option selected before selecting option `i` again when its detail
   * pane did not appear: the next one for the first option of several,
   * otherwise the previous one (`i - 1`, which for a lone option is -1, the option itself).
   */
  function RetryIndex(i: nat, n: nat): (r: nat)
    requires i < n
    ensures r < n
    ensures n > 1 ==> r == i + 1 || r + 1 == i
    ensures i > 0 ==> r + 1 == i
    ensures n == 1 ==> r == i
  {
    PyIndex(if i == 0 && n > 1 then i + 1 else i - 1, n)
  }

  /**
   * One option of the result list: its label, and the PDF link the detail pane
   * showed once it was selected (after the retry, if needed), or `None` when the
   * pane never became visible and the wait raised.
   */
  datatype ResultOption = ResultOption(text: string, pdfLink: Option<string>)

  const RecordColumns: set<string> := {"judgment_date", "petitioner_name", "respondent_name", "judgment_url"}

  function Record(l: Label, url: string): (r: Row)
    ensures r.Keys == RecordColumns
  {
    map["judgment_date" := l.judgmentDate, "petitioner_name" := l.petitioner,
        "respondent_name" := l.respondent, "judgment_url" := url]
  }

  /** The record an option contributes, or `None` when its label or its link failed. */
  function Entry(o: ResultOption): (r: Option<Row>)
    ensures r.None? <==> !Contains(o.text, LabelSeparator) || o.pdfLink.None?
    ensures r.Some? ==> r.value.Keys == RecordColumns && r.value["judgment_url"] == o.pdfLink.value
  {
    match ParseLabel(o.text)
    case None => None
    case Some(l) =>
      match o.pdfLink
      case None => None
      case Some(url) => Some(Record(l, url))
  }

  function EntryRows(o: ResultOption): seq<Row> {
    match Entry(o)
    case None => []
    case Some(r) => [r]
  }

  /** The records the loop over the options collects. */
  function Harvest(options: seq<ResultOption>): (r: seq<Row>)
    decreases |options|
    ensures |r| <= |options|
  {
    if options == [] then []
    else Harvest(options[..|options| - 1]) + EntryRows(options[|options| - 1])
  }

  /** The loop of `search_free_text`: parse, select, read the link, append; skip the option on any failure. */
  method CollectResults(options: seq<ResultOption>) returns (details: seq<Row>)
    ensures details == Harvest(options)
  {
    details := [];
    for i := 0 to |options|
      invariant details == Harvest(options[..i])
    {
      assert options[..i + 1][..i] == options[..i];
      var entry := Entry(options[i]);
      match entry {
        case None =>
        case Some(r) =>
          details := details + [r];
      }
    }
    assert options[..|options|] == options;
  }

  /** The records of two runs of options are the records of each run, in order. */
  lemma {:induction false} HarvestAppend(a: seq<ResultOption>, b: seq<ResultOption>)
    decreases |b|
    ensures Harvest(a + b) == Harvest(a) + Harvest(b)
  {
    if b != [] {
      var init := b[..|b| - 1];
      assert (a + b)[..|a + b| - 1] == a + init;
      assert (a + b)[|a + b| - 1] == b[|b| - 1];
      HarvestAppend(a, init);
    } else {
      assert a + b == a;
    }
  }

  /** An option without " / " in its label adds no record; the others are unaffected. */
  lemma HarvestSkipsMalformed(a: seq<ResultOption>, o: ResultOption, b: seq<ResultOption>)
    requires !Contains(o.text, LabelSeparator)
    ensures Harvest(a + [o] + b) == Harvest(a + b)
  {
    assert Entry(o).None? by {
      assert ParseLabel(o.text).None?;
    }
    assert Harvest([o]) == [] by {
      assert [o][..0] == [];
      assert Harvest([o]) == Harvest([]) + EntryRows(o);
    }
    HarvestAppend(a + [o], b);
    HarvestAppend(a, [o]);
    HarvestAppend(a, b);
    assert Harvest(a + [o]) == Harvest(a);
  }

  /** An option with a label and a link adds exactly its record, at its place. */
  lemma HarvestKeeps(a: seq<ResultOption>, o: ResultOption, b: seq<ResultOption>)
    requires Entry(o).Some?
    ensures Harvest(a + [o] + b) == Harvest(a) + [Entry(o).value] + Harvest(b)
  {
    assert Harvest([o]) == [Entry(o).value] by {
      assert [o][..0] == [];
      assert Harvest([o]) == Harvest([]) + EntryRows(o);
    }
    HarvestAppend(a + [o], b);
    HarvestAppend(a, [o]);
  }

  /** Every collected record comes from an option and holds the four record columns. */
  lemma {:induction false} HarvestRecords(options: seq<ResultOption>)
    decreases |options|
    ensures forall j :: 0 <= j < |Harvest(options)| ==> Harvest(options)[j].Keys == RecordColumns
    ensures forall j :: 0 <= j < |Harvest(options)| ==>
      exists i :: 0 <= i < |options| && Entry(options[i]) == Some(Harvest(options)[j])
  {
    if options != [] {
      var init := options[..|options| - 1];
      HarvestRecords(init);
      var h := Harvest(options);
      assert h == Harvest(init) + EntryRows(options[|options| - 1]);
      forall j | 0 <= j < |h| ensures exists i :: 0 <= i < |options| && Entry(options[i]) == Some(h[j]) {
        if j < |Harvest(init)| {
          assert h[j] == Harvest(init)[j];
          var i :| 0 <= i < |init| && Entry(init[i]) == Some(Harvest(init)[j]);
          assert options[i] == init[i];
        } else {
          assert EntryRows(options[|options| - 1]) == [h[j]];
          assert Entry(options[|options| - 1]) == Some(h[j]);
        }
      }
    } else {
      assert Harvest(options) == [];
    }
  }
}
