/**
 * A free-text search over three result options, two well-formed and one
 * whose label has no " / ": the table has the two well-formed records, in
 * order, each with the hash of its URL as id.
 */
module Scenario {
  import opened Wrappers
  import opened PyStr
  import opened Frames
  import opened FreeText
  import opened ActWise
  import opened Search

  const First := ResultOption("A Vs B / 2020-01-01", Some("https://main.sci.gov.in/a.pdf"))
  const Malformed := ResultOption("E Vs F 2020-01-03", Some("https://main.sci.gov.in/e.pdf"))
  const Second := ResultOption("C Vs D / 2020-01-02", Some("https://main.sci.gov.in/c.pdf"))

  /** A text without '/' holds no " / ". */
  lemma NoSlashNoLabelSeparator(s: string)
    requires '/' !in s
    ensures !Contains(s, LabelSeparator)
  {
    forall i | 0 <= i <= |s| ensures !OccursAt(s, LabelSeparator, i) {
      if i + 3 <= |s| {
        assert s[i..i + 3][1] == s[i + 1] != LabelSeparator[1];
      }
    }
  }

  /** The label "p Vs q / d" of one-letter parties parses to them. */
  lemma OneLetterLabel(p: char, q: char, d: string)
    requires p != ' ' && q != ' ' && p != '/' && q != '/'
    ensures ParseLabel([p] + PartySeparator + [q] + LabelSeparator + d) == Some(Label(d, [p], [q]))
  {
    var names := [p] + " Vs";
    forall i | 0 <= i <= |names| ensures !OccursAt(names, PartySeparator, i) {
      if i == 0 {
        assert names[0..4][0] == p != PartySeparator[0];
      }
    }
    var shown := [p] + PartySeparator + [q] + " /";
    assert shown == [p, ' ', 'V', 's', ' ', q, ' ', '/'];
    forall i | 0 <= i <= |shown| ensures !OccursAt(shown, LabelSeparator, i) {
      if i + 3 <= |shown| {
        assert shown[i..i + 3][1] == shown[i + 1] != LabelSeparator[1];
      }
    }
    ParseLabelRoundTrip([p], [q], d);
  }

  const FirstRecord := Record(Label("2020-01-01", "A", "B"), "https://main.sci.gov.in/a.pdf")
  const SecondRecord := Record(Label("2020-01-02", "C", "D"), "https://main.sci.gov.in/c.pdf")

  lemma FirstText()
    ensures First.text == ['A'] + PartySeparator + ['B'] + LabelSeparator + "2020-01-01"
  {
  }

  lemma SecondText()
    ensures Second.text == ['C'] + PartySeparator + ['D'] + LabelSeparator + "2020-01-02"
  {
  }

  lemma MalformedText()
    ensures '/' !in Malformed.text
  {
  }

  lemma FirstEntry()
    ensures Entry(First) == Some(FirstRecord)
  {
    FirstText();
    OneLetterLabel('A', 'B', "2020-01-01");
  }

  lemma SecondEntry()
    ensures Entry(Second) == Some(SecondRecord)
  {
    SecondText();
    OneLetterLabel('C', 'D', "2020-01-02");
  }

  /** The loop collects the two well-formed options' records and skips the malformed one. */
  lemma ScenarioHarvest()
    ensures Harvest([First, Malformed, Second]) == [FirstRecord, SecondRecord]
  {
    SkipMalformed();
    HarvestOfTwo();
  }

  lemma SkipMalformed()
    ensures Harvest([First, Malformed, Second]) == Harvest([First, Second])
  {
    MalformedText();
    NoSlashNoLabelSeparator(Malformed.text);
    assert [First, Malformed, Second] == [First] + [Malformed] + [Second];
    HarvestSkipsMalformed([First], Malformed, [Second]);
    assert [First] + [Second] == [First, Second];
  }

  lemma HarvestOfTwo()
    ensures Harvest([First, Second]) == [FirstRecord, SecondRecord]
  {
    FirstEntry();
    SecondEntry();
    HarvestPair(First, Second, FirstRecord, SecondRecord);
  }

  lemma HarvestPair(a: ResultOption, b: ResultOption, ra: Row, rb: Row)
    requires Entry(a) == Some(ra) && Entry(b) == Some(rb)
    ensures Harvest([a, b]) == [ra, rb]
  {
    assert [a, b] == [a] + [b];
    HarvestAppend([a], [b]);
    HarvestSingle(a);
    HarvestSingle(b);
  }

  lemma HarvestSingle(o: ResultOption)
    ensures Harvest([o]) == EntryRows(o)
  {
    assert [o][..0] == [];
  }

  /** Two harvested records with different keys both stay, each with the hash of its URL as id. */
  lemma TableOfTwo(options: seq<ResultOption>, r1: Row, r2: Row, hash: string -> string)
    requires Harvest(options) == [r1, r2]
    requires UrlColumn in r1 && UrlColumn in r2
    requires SubsetKey(r1, FreeTextKey) != SubsetKey(r2, FreeTextKey)
    ensures FreeTextTable(options, hash) == Some([r1[IdColumn := hash(r1[UrlColumn])], r2[IdColumn := hash(r2[UrlColumn])]])
  {
    KeepFirstOfDistinct([r1, r2], FreeTextKey);
    DerivedOfTwo(r1, r2, hash);
  }

  lemma DerivedOfTwo(r1: Row, r2: Row, hash: string -> string)
    requires UrlColumn in r1 && UrlColumn in r2
    ensures Derived([r1, r2], IdColumn, UrlColumn, hash) == [r1[IdColumn := hash(r1[UrlColumn])], r2[IdColumn := hash(r2[UrlColumn])]]
  {
    var d := Derived([r1, r2], IdColumn, UrlColumn, hash);
    assert d[0] == r1[IdColumn := hash(r1[UrlColumn])];
    assert d[1] == r2[IdColumn := hash(r2[UrlColumn])];
  }

  /** The table holds the two records in order, each with the hash of its URL as id. */
  lemma FreeTextScenario(hash: string -> string)
    ensures FreeTextTable([First, Malformed, Second], hash) == Some([
      FirstRecord[IdColumn := hash("https://main.sci.gov.in/a.pdf")],
      SecondRecord[IdColumn := hash("https://main.sci.gov.in/c.pdf")]])
  {
    ScenarioHarvest();
    RecordFields();
    TableOfTwo([First, Malformed, Second], FirstRecord, SecondRecord, hash);
  }

  lemma RecordFields()
    ensures FirstRecord[UrlColumn] == "https://main.sci.gov.in/a.pdf"
    ensures SecondRecord[UrlColumn] == "https://main.sci.gov.in/c.pdf"
    ensures UrlColumn in FirstRecord && UrlColumn in SecondRecord
    ensures SubsetKey(FirstRecord, FreeTextKey) != SubsetKey(SecondRecord, FreeTextKey)
  {
    assert SubsetKey(FirstRecord, FreeTextKey)[0] != SubsetKey(SecondRecord, FreeTextKey)[0];
  }
}
