# Supreme Court of India judgment search: a Dafny model

This project models `scraper/supreme_court/supreme_court_search.py`, a scraper
that searches the Supreme Court of India's judgment site and downloads the
judgments. The model covers the parts of the scraper that compute something
once the browser has produced its output:

- **`create_one_year_time_ranges`** (`planner.dfy`). This is the date-window
  planner the constructor runs.
  - `PlanRanges` keeps the source's `while` loop and is proved equal to the
    recursive definition `Windows`.
  - The lemmas describe the windows exactly: where they start and end, how many
    there are, and which days they cover.
- **The free-text search** (`freetext.dfy`, `search.dfy`).
  - Each result option's label is parsed into petitioner, respondent and date.
  - The loop collects the records and skips an option whose label or detail
    pane fails.
  - The frame built from those records is deduplicated in place on
    (date, petitioner, respondent), and each record gets its `judgment_id`.
- **The act-wise search** (`actwise.dfy`, `search.dfy`).
  - The long results table is one row per (serial number, attribute, value, link).
  - Its link cells are parsed: date, language and URL.
  - The table is pivoted to one record per serial number, in ascending order of
    serial, and joined with each serial's first URL.
  - The result is deduplicated on "Case Number", and each record gets its id.
- **Keep-first deduplication** (`frames.dfy`). `drop_duplicates` is a
  specification function `KeepFirst`, plus an in-place method
  `Frame.DropDuplicates` with a loop proved against it.
  - The DataFrame is a class with a column set and a sequence of rows.
  - A column missing from a row's map is NaN. Keys compare NaN equal to NaN,
    as pandas does.
- **The path builders** (`paths.dfy`).
  - `posixpath.join`, `basename` and `splitext` are modelled with their edge
    cases: an absolute second argument, a trailing '/', and leading dots in a
    file name.
  - `create_pdf_filepath_from_url` and `create_txt_filepath_from_pdf_filepath`.
  - The id-based download path of `download_judgment_pdfs` (line 228).
- **The Python string operations these rely on** (`pystr.dfy`): `split(sep, maxsplit=1)`,
  `split(c)`, `rfind`, `s[-n:]`, the parenthesis-removing `re.sub`, and the
  string order that `pivot` and `groupby` sort by.

Conventions:

- Exceptions that abort a search are `None` (or `null`, or `ok == false`) in
  the model.
- The SHA-256 hex digest is a parameter `hash: string -> string`.
- The random alias is a parameter that must be thirty ASCII letters.
- Dates are day numbers; adding `timedelta(days=n)` is adding `n`.
- `scenario.dfy` runs the free-text pipeline on three options: two well-formed
  and one whose label has no " / ". It proves that the table holds the two
  well-formed records, in order, each with the hash of its URL as id.

## Model

| member | source | states |
|---|---|---|
| Planner.PlanRanges | scraper/supreme_court/supreme_court_search.py:43-55 | the loop returns exactly the windows `Windows(start, end)` |
| Planner.Windows | scraper/supreme_court/supreme_court_search.py:45-53 | every window of the plan as written satisfies `start <= s < e <= end` |
| Planner.WindowAt | scraper/supreme_court/supreme_court_search.py:47-53 | window k exists iff `start + 365k < end`, and it is `(start + 365k, min(start + 365k + 364, end))` |
| Planner.NoWindowsUnlessBefore | scraper/supreme_court/supreme_court_search.py:47 | no window at all iff `end <= start`, which includes `start == end` |
| Planner.WindowsShape | scraper/supreme_court/supreme_court_search.py:47-53 | every window satisfies `start <= s < e <= end`, and each window starts the day after the previous one ends |
| Planner.WindowsDisjoint | scraper/supreme_court/supreme_court_search.py:47-53 | an earlier window ends before any later one starts |
| Planner.WindowCount | scraper/supreme_court/supreme_court_search.py:47-53 | there are `(end - start - 1) / 365 + 1` windows when `start < end`, otherwise none |
| Planner.LastWindowEnd | scraper/supreme_court/supreme_court_search.py:47-53 | the last window ends at `end`, or at `end - 1` when `end - start` is a multiple of 365 |
| Planner.WindowsCoverage | scraper/supreme_court/supreme_court_search.py:43-55 | day d is in some window iff `start < end`, `start <= d <= end`, and d is not an `end` whose distance from `start` is a multiple of 365 |
| Planner.WindowThroughAt | scraper/supreme_court/supreme_court_search.py:47-53 | for the corrected loop `while start <= end`: window k exists iff `start + 365k <= end`, with the same bounds |
| Planner.WindowsThrough | scraper/supreme_court/supreme_court_search.py:45-53 | the corrected loop `while start <= end`: every window satisfies `start <= s <= e <= end` |
| Planner.WindowsThroughCoverage | scraper/supreme_court/supreme_court_search.py:47-53 | the corrected plan covers exactly the days from `start` to `end`, and its windows are disjoint |
| Planner.LastDayLost | scraper/supreme_court/supreme_court_search.py:47-53 | for the range 0..365 the plan is `[(0, 364)]`, which misses day 365; the corrected plan covers it |
| PyStr.FindFrom | scraper/supreme_court/supreme_court_search.py:138-139 | `str.find` from index i: the lowest occurrence at or after i, or `None` when there is no later occurrence |
| PyStr.SplitOnce | scraper/supreme_court/supreme_court_search.py:138-139 | `split(sep, maxsplit=1)`: one part iff sep does not occur; otherwise two parts, joined back by sep, with no sep in the first |
| PyStr.SplitOnceUnique | scraper/supreme_court/supreme_court_search.py:138-139 | `a + sep + b` splits into `[a, b]` when no occurrence of sep starts inside a |
| PyStr.SplitAt | scraper/supreme_court/supreme_court_search.py:99-101 | `split(c)` gives at least one part; exactly one iff c is absent; no part holds c |
| PyStr.JoinWithSplitAt | scraper/supreme_court/supreme_court_search.py:99-101 | joining the parts of `split(c)` with c gives back the text |
| PyStr.SplitAtJoinWith | scraper/supreme_court/supreme_court_search.py:99-101 | splitting parts joined with c, where no part holds c, gives back the parts |
| PyStr.RFind | scraper/supreme_court/supreme_court_search.py:192 | `rfind(c)`: -1 or an index holding c, with no c after it |
| PyStr.SplitAtLastIsAfterRFind | scraper/supreme_court/supreme_court_search.py:183 | `s.split(c)[-1]` is the text after the last c |
| PyStr.StripParens | scraper/supreme_court/supreme_court_search.py:101 | the result has no parenthesis, and every other character occurs as often as in the input |
| PyStr.StripParensIdempotent | scraper/supreme_court/supreme_court_search.py:101 | stripping twice is stripping once |
| PyStr.StripParensAppend | scraper/supreme_court/supreme_court_search.py:101 | removing parentheses from a concatenation removes them from each part, in order |
| PyStr.StripParensChar | scraper/supreme_court/supreme_court_search.py:101 | a single character is dropped iff it is a parenthesis, and kept otherwise |
| PyStr.LastChars | scraper/supreme_court/supreme_court_search.py:184 | `s[-n:]` is a suffix of s, of length n, or all of a shorter s |
| PyStr.StrLessTrichotomy | scraper/supreme_court/supreme_court_search.py:104 | any two strings are equal or ordered one way or the other |
| PyStr.InsertSorted | scraper/supreme_court/supreme_court_search.py:104 | inserting into a strictly sorted sequence keeps it strictly sorted and adds exactly x |
| PyStr.InsertSortedDistinct | scraper/supreme_court/supreme_court_search.py:104 | inserting keeps a sorted sequence free of duplicates |
| Frames.KeepFirst | scraper/supreme_court/supreme_court_search.py:177 | `drop_duplicates(keep='first')` keeps at most as many rows as it is given, all of them input rows |
| Frames.KeepFirstDistinct | scraper/supreme_court/supreme_court_search.py:177 | the kept rows have pairwise different keys |
| Frames.KeepFirstKeys | scraper/supreme_court/supreme_court_search.py:177 | the kept rows have exactly the keys of the input |
| Frames.KeepFirstSubsequence | scraper/supreme_court/supreme_court_search.py:177 | the kept rows are a subsequence of the input in input order |
| Frames.KeepFirstKeepsFirsts | scraper/supreme_court/supreme_court_search.py:177 | every row that is the first with its key is kept |
| Frames.KeepFirstOnlyFirsts | scraper/supreme_court/supreme_court_search.py:177 | every kept row is the first row of its key |
| Frames.KeepFirstOfDistinct | scraper/supreme_court/supreme_court_search.py:177 | rows whose keys are already distinct are all kept |
| Frames.KeepFirstIdempotent | scraper/supreme_court/supreme_court_search.py:108 | deduplicating twice is deduplicating once |
| Frames.ColumnsOf | scraper/supreme_court/supreme_court_search.py:175 | `from_records` columns: every key a row uses, and only those |
| Frames.Derived | scraper/supreme_court/supreme_court_search.py:178 | `df[t] = df[s].apply(f)` on rows: each row gains `t := f(row[s])` and nothing else changes |
| Frames.DerivedKeepsKeys | scraper/supreme_court/supreme_court_search.py:178 | a derived column outside the key keeps each row's key, the key set, and key distinctness |
| Frames.Frame.FromRecords | scraper/supreme_court/supreme_court_search.py:175 | the frame's columns are every key the records use, and its rows are the records |
| Frames.Frame.Of | scraper/supreme_court/supreme_court_search.py:106 | a frame with the given columns and rows |
| Frames.Frame.DropDuplicates | scraper/supreme_court/supreme_court_search.py:177 | in place: succeeds iff the frame has no rows (pandas returns an empty frame before it looks at the subset) or every subset column is a column; the rows then become `KeepFirst` of the old rows, otherwise the frame is unchanged (`KeyError`) |
| Frames.Frame.AssignColumn | scraper/supreme_court/supreme_court_search.py:178 | in place: succeeds iff source is a column that every row has; then the column is added and the rows are `Derived`, otherwise the frame is unchanged |
| FreeText.SplitLabel | scraper/supreme_court/supreme_court_search.py:138 | `None` iff the label has no " / "; otherwise names + " / " + date is the label, and the names hold no " / " |
| FreeText.SplitParties | scraper/supreme_court/supreme_court_search.py:139-145 | without " Vs ", the petitioner is all the names and the respondent is ''; otherwise petitioner + " Vs " + respondent is the names, with no " Vs " in the petitioner |
| FreeText.ParseLabel | scraper/supreme_court/supreme_court_search.py:138-145 | the label parse fails iff the label has no " / " |
| FreeText.ParseLabelRoundTrip | scraper/supreme_court/supreme_court_search.py:138-145 | "p Vs q / d" parses back to date d, petitioner p and respondent q when no separator starts before the displayed ones |
| FreeText.ParseLabelWithoutRespondent | scraper/supreme_court/supreme_court_search.py:138-142 | "p / d" with no " Vs " in p parses to petitioner p, an empty respondent and date d |
| FreeText.RetryIndex | scraper/supreme_court/supreme_court_search.py:157-163 | the option clicked before retrying is in range: the next one for the first of several options, the previous one for any later option, and the option itself when it is alone (Python's index -1) |
| FreeText.Record | scraper/supreme_court/supreme_court_search.py:147-169 | a record has exactly the four columns date, petitioner, respondent and URL |
| FreeText.Entry | scraper/supreme_court/supreme_court_search.py:136-171 | an option yields no record iff its label has no " / " or its link was not read; otherwise the record has the four columns and its `judgment_url` is the link |
| FreeText.CollectResults | scraper/supreme_court/supreme_court_search.py:134-173 | the loop's list equals `Harvest(options)` |
| FreeText.Harvest | scraper/supreme_court/supreme_court_search.py:134-173 | the loop collects no more records than there are options |
| FreeText.HarvestAppend | scraper/supreme_court/supreme_court_search.py:135-173 | the records of two runs of options are the records of each, in order |
| FreeText.HarvestSkipsMalformed | scraper/supreme_court/supreme_court_search.py:172-173 | an option without " / " adds no record and leaves the others as they are |
| FreeText.HarvestKeeps | scraper/supreme_court/supreme_court_search.py:136-171 | an option whose label and link succeed adds exactly its record, at its place |
| FreeText.HarvestRecords | scraper/supreme_court/supreme_court_search.py:134-171 | each collected record has the four columns and is the record of some option |
| ActWise.ParseLink | scraper/supreme_court/supreme_court_search.py:99-102 | the three link lambdas succeed iff the text has a space and the link has an href; the date is the text before the first space; the language is the second space-separated token with its parentheses removed, so it has none; the URL is the site root + href |
| ActWise.UrlOf | scraper/supreme_court/supreme_court_search.py:102 | a row has a `judgment_url` iff it has a link cell that parses, and then it is the site root + href |
| ActWise.Serials | scraper/supreme_court/supreme_court_search.py:104 | the pivot index: strictly sorted, with no duplicates, and exactly the serial numbers of the table |
| ActWise.AttributesOf | scraper/supreme_court/supreme_court_search.py:104 | a serial number's pivoted record has exactly the attributes of its rows; with no repeated (serial, attribute), each of them holds its row's value |
| ActWise.FirstUrlFrom | scraper/supreme_court/supreme_court_search.py:105 | the index of the first row of the serial with a URL, or `None` when there is none |
| ActWise.FirstUrl | scraper/supreme_court/supreme_court_search.py:105 | `first()` of a serial: `None` iff no row of that serial has a URL, otherwise the URL of the first of its rows that has one |
| ActWise.Wide | scraper/supreme_court/supreme_court_search.py:104-106 | the record of a serial after `concat`: its pivoted attributes with their values, plus `judgment_url` exactly when the serial has a first URL, which is then that URL |
| ActWise.Reshape | scraper/supreme_court/supreme_court_search.py:99-106 | raises iff a link cell does not parse or a (serial, attribute) pair repeats; the columns are the attributes plus `judgment_url`, and every record stays within them |
| ActWise.ReshapeRecords | scraper/supreme_court/supreme_court_search.py:104-106 | one record per serial, in sorted order; each holds every attribute value of its serial and its first URL |
| ActWise.FirstUrlMissing | scraper/supreme_court/supreme_court_search.py:105 | once the links parse, a serial has no first URL iff none of its rows has a link cell |
| Paths.PathJoin | scraper/supreme_court/supreme_court_search.py:36 | `posixpath.join`: an absolute second part replaces the first; otherwise the result is `a + b` when a is empty or ends in '/', and `a + "/" + b` when it does not, so the second part follows a '/' whenever a is not empty |
| Paths.SubfolderPath | scraper/supreme_court/supreme_court_search.py:36-38 | joining a relative name that ends in '/' gives a path that starts with the root and ends with the name, so it ends in '/' |
| Paths.Basename | scraper/supreme_court/supreme_court_search.py:192 | `basename`: a suffix with no '/', preceded by '/' when shorter than the path, and the whole path when it has no '/' |
| Paths.BasenameOfJoin | scraper/supreme_court/supreme_court_search.py:36 | the basename of `join(a, b)` is the basename of b, whether b is absolute or not |
| Paths.SplitExt | scraper/supreme_court/supreme_court_search.py:192 | `splitext`: the two parts concatenate to the path; the extension is empty or one dot followed by no dot and no '/' |
| Paths.SplitExtOf | scraper/supreme_court/supreme_court_search.py:192 | a name `stem + ext`, with a one-dot extension and a stem that is not all dots, splits back into stem and ext |
| Paths.SplitExtLeadingDots | scraper/supreme_court/supreme_court_search.py:192 | when every character of the last component before its last dot is a dot (".bashrc", "..", or no dot at all), the extension is empty |
| Paths.SplitExtAtLastDot | scraper/supreme_court/supreme_court_search.py:192 | when a non-dot character of the last component precedes its last dot, the extension is the text from that dot on |
| Paths.LastSegment | scraper/supreme_court/supreme_court_search.py:183 | `url.split("/")[-1]` is the URL's basename |
| Paths.PdfFileName | scraper/supreme_court/supreme_court_search.py:183-186 | the file name ends in ".pdf" and has no '/'; it is the URL's last segment when that ends in ".pdf", otherwise the alias + ".pdf" |
| Paths.LastCharsIsSuffix | scraper/supreme_court/supreme_court_search.py:184 | `s[-4:] != ".pdf"` holds iff s does not end in ".pdf", also for strings shorter than four |
| Paths.AliasFileName | scraper/supreme_court/supreme_court_search.py:185-186 | alias + ".pdf" ends in ".pdf" and has no '/' |
| Paths.PdfFilepathFromUrl | scraper/supreme_court/supreme_court_search.py:181-188 | the path is the PDF folder + court + "_" followed by `PdfFileName` |
| Paths.TxtFilepathFromPdfFilepath | scraper/supreme_court/supreme_court_search.py:189-194 | the text path starts with the text folder + court + "_" and ends in ".txt" |
| Paths.TxtFilepathParts | scraper/supreme_court/supreme_court_search.py:190-194 | the text path is the text folder + court + "_", then a stem, then ".txt"; that stem plus the PDF's extension is the PDF's basename |
| Paths.TxtOfPdfFilepath | scraper/supreme_court/supreme_court_search.py:181-194 | a composition the program never forms (`create_pdf_filepath_from_url` is never called): the text path of a PDF path built from a URL would repeat the court, `txtFolder + court + "_" + court + "_" + stem + ".txt"` |
| Paths.DownloadPath | scraper/supreme_court/supreme_court_search.py:228 | for a hex id and a folder ending in '/', the target is folder + id + ".pdf" |
| Paths.HexFileIsRelative | scraper/supreme_court/supreme_court_search.py:228 | `id + ".pdf"` for a hex id does not start with '/', so `join` does not discard the folder |
| Paths.TxtOfDownloadPath | scraper/supreme_court/supreme_court_search.py:189-194 | the text path of a download target `pdfFolder + id + ".pdf"`, for a non-empty hex id, is `txtFolder + court + "_" + id + ".txt"` |
| Paths.DownloadPathsDistinct | scraper/supreme_court/supreme_court_search.py:228 | different hex ids give different download targets |
| Search.FreeTextTable | scraper/supreme_court/supreme_court_search.py:175-179 | the search raises iff no record was harvested (the `judgment_url` lookup of line 178 on a frame without columns); otherwise at most one row per harvested record, pairwise different keys, every harvested key present, the four columns plus the id, and id = hash(url) |
| Search.IdentifiedFirsts | scraper/supreme_court/supreme_court_search.py:177-178 | the deduplicated free-text records all have a URL, and with their ids they keep distinct keys, every key, the columns, and id = hash(url) |
| Search.RecordsColumns | scraper/supreme_court/supreme_court_search.py:175 | the frame of the free-text records has their four columns, or none when there is no record |
| Search.ActWiseTable | scraper/supreme_court/supreme_court_search.py:96-110 | success only when the links parse, no cell repeats, and the table is empty or has a "Case Number" attribute; success whenever, in addition, every serial has a link. On success: columns = attributes + URL + id, at most one record per serial, distinct case numbers, every case number present, id = hash(url) |
| Search.ActWiseOfEmpty | scraper/supreme_court/supreme_court_search.py:104-110 | a results table without rows does not raise: the search returns an empty table whose columns are `judgment_url` and `judgment_id` |
| Search.SerialsOfNonEmpty | scraper/supreme_court/supreme_court_search.py:104 | the pivot index is empty iff the results table is |
| Search.IdentifiedCases | scraper/supreme_court/supreme_court_search.py:108-109 | the deduplicated act-wise records with their ids keep distinct case numbers, every case number, their columns, and id = hash(url) |
| Search.KeptHave | scraper/supreme_court/supreme_court_search.py:108 | a column every row has is a column every kept row has |
| Search.WideHasUrl | scraper/supreme_court/supreme_court_search.py:105-106 | a serial with a link cell gets a URL once the links parse |
| Search.LinkedRecordsHaveUrls | scraper/supreme_court/supreme_court_search.py:105-109 | when every serial has a link cell, every serial's record has a URL, so the hash never meets NaN |
| Search.ReshapedHaveUrls | scraper/supreme_court/supreme_court_search.py:105-109 | when every serial has a link cell, every reshaped record has a URL |
| Search.WithPdfPaths | scraper/supreme_court/supreme_court_search.py:228 | each row gains `pdf_filepath` = the download target of its id |
| Search.PdfPathsDistinct | scraper/supreme_court/supreme_court_search.py:228 | with hex ids that are pairwise different and a folder ending in '/', each `pdf_filepath` is folder + id + ".pdf", and the paths are pairwise different; tables whose rows share a URL (and so an id) are outside it |
| Search.OutputFoldersEndInSlash | scraper/supreme_court/supreme_court_search.py:36-38 | both the `pdfs/` and the `txt/` folders end in '/' |
| Search.SupremeCourtSearch.constructor | scraper/supreme_court/supreme_court_search.py:24-39 | the object holds the date range, its planned windows, the output folder, and its `pdfs/` and `txt/` sub-folders |
| Search.SupremeCourtSearch.SearchFreeText | scraper/supreme_court/supreme_court_search.py:133-179 | returns a new frame iff `FreeTextTable` succeeds, failing at the id assignment of line 178 when nothing was harvested; its rows are that table and its columns the four record columns plus the id |
| Search.SupremeCourtSearch.SearchActWise | scraper/supreme_court/supreme_court_search.py:96-110 | returns a new frame iff `ActWiseTable` succeeds, with that table's columns and rows |
| Search.SupremeCourtSearch.DownloadJudgmentPdfs | scraper/supreme_court/supreme_court_search.py:228 | in place: succeeds iff `judgment_id` is a column every row has; then it adds `pdf_filepath` with `WithPdfPaths` of the old rows, otherwise the table is unchanged |
| Scenario.OneLetterLabel | scraper/supreme_court/supreme_court_search.py:138-145 | "p Vs q / d" with one-letter parties parses to p, q and d |
| Scenario.ScenarioHarvest | scraper/supreme_court/supreme_court_search.py:134-173 | of the options "A Vs B / …", "E Vs F …" (no " / ") and "C Vs D / …", the loop collects the first and third records, in order |
| Scenario.FreeTextScenario | scraper/supreme_court/supreme_court_search.py:133-179 | the free-text table of those three options is the two well-formed records, in order, each with the hash of its URL as id |

## Left out

- Browser automation is not modelled. A free-text search starts from the list of result options, and an act-wise search from the results table with cell texts and links already extracted. This leaves out the Selenium session, the captcha, `send_keys`, the sleeps and the `WebDriverWait` timeouts (the wait outcome is `ResultOption.pdfLink`).
- `pd.read_html` (line 93) is HTML parsing by a library. A `TableRow` holds what it yields, and a NaN link cell is `link == None`. NaN in the serial, attribute or value cells (which makes `x[0]` raise) is not modelled.
- `strftime` (lines 83, 86, 125, 128) needs a calendar. Dates here are day numbers.
- The date range's maximum date (an `OverflowError` at year 9999) is not modelled, because day numbers are unbounded.
- The SHA-256 digest (lines 109, 178) is the parameter `hash`. Nothing is claimed about collisions.
- `random.choice` (line 185) is replaced by the `alias` parameter, required to be thirty ASCII letters.
- `os.makedirs` (lines 35-39, 226) touches the file system. Only the folder paths are modelled.
- `download` (lines 196-218), `joblib.Parallel` (line 230) and `convert_downloaded_pdfs_to_text` (lines 234-238) are left out: network, files, PyPDF2, a process pool and the PDF converter, whose module is not part of this model. What the model keeps is that rows with different ids target different paths (`Search.PdfPathsDistinct`). The tables are deduplicated by case or by (date, petitioner, respondent), not by URL, so two kept rows with the same URL have the same id and download to the same path; the model does not claim otherwise.
- `get_judgment_urls_by_searching` (lines 57-69) calls `search_actwise` with an argument that method does not take, so it cannot run. `search()` (lines 240-251) only dispatches on `search_type`. Both are left out, and so are `search_type`, `search_kw`, `sc_homepage` and the `__main__` block.
- ActWise.Wide: an attribute literally named `judgment_url` would give `pd.concat` two columns of that name. The model's record keeps only the URL, and `ActWise.ReshapeRecords` assumes no such attribute.
- The `judgment_date` and `language` columns of lines 99-101 are not in the pivoted output (`values='value'`). The model keeps only whether their lambdas raise.
- Search.ActWiseTable: the condition for failure is stated in both directions only when every serial has a link cell. When some serial has none, success still requires the links to parse, no repeated cell, and a "Case Number" attribute unless the table is empty. Whether the hash then meets a NaN depends on which row keeps its case number.
- Search.FreeTextTable: a PDF link element without an `href` (Selenium returns `None`, which is stored, and the hash then raises) is not modelled. `ResultOption.pdfLink == None` stands for the failures that make the loop skip the option.
- Records are not aliased: `copy.deepcopy` (line 171) makes each record a fresh value, and the model's rows are values.
- The download target follows the code at line 228: `pdf_output_folder_path + judgment_id + ".pdf"`, with no court prefix.
- `create_pdf_filepath_from_url` is never called: downloads use the id-based path of line 228. `Paths.TxtOfPdfFilepath` therefore describes a composition the program never forms (it would repeat the court prefix, `SC_SC_…`). The commented-out lines 235-236 would apply `create_txt_filepath_from_pdf_filepath` to the id-based path, giving `txt/SC_<id>.txt` (`Paths.TxtOfDownloadPath`). Neither is treated as a bug.

## Findings

| source | as written | input that shows it | evidently intended | confidence | as-written member | corrected member |
|---|---|---|---|---|---|---|
| scraper/supreme_court/supreme_court_search.py:47 | `while time_range_start < end_date` stops when the cursor lands exactly on `end_date`. The planned windows miss the last day of the range when `end - start` is a positive multiple of 365, and a one-day range (`start == end`) gets no window at all | start = day 0, end = day 365: the only window is [0, 364], so day 365 is missed | every day of the requested range lies in exactly one planned window (`while time_range_start <= end_date`) | high, not executed | Planner.LastDayLost | Planner.WindowsThroughCoverage |

The constructor keeps the planner as written (`Planner.Windows`). The windows are read only by `get_judgment_urls_by_searching` (line 60), which cannot run (see "## Left out"); the two searches send the whole date range (lines 83, 86, 125, 128), so the lost day is a defect of the plan, not of a search that runs. `Planner.WindowsThrough` is the plan the requested range evidently asks for.
