/**
 * Output paths: `posixpath.join`, `basename` and `splitext`, and the three
 * path builders of the scraper (PDF path from URL, text path from PDF path,
 * download path from judgment id).
 */
module Paths {
  import opened PyStr

  /** `posixpath.join(a, b)`: an absolute `b` replaces `a`; otherwise one '/' between them. */
  function PathJoin(a: string, b: string): (r: string)
    ensures StartsWith(b, "/") ==> r == b
    ensures !StartsWith(b, "/") ==> StartsWith(r, a) && EndsWith(r, b)
    ensures !StartsWith(b, "/") ==> r == a + b || r == a + "/" + b
    ensures !StartsWith(b, "/") && a != [] ==> |r| > |a| + |b| - 1 && r[|r| - |b| - 1] == '/'
    ensures !StartsWith(b, "/") && (a == [] || EndsWith(a, "/")) ==> r == a + b
    ensures !StartsWith(b, "/") && a != [] && !EndsWith(a, "/") ==> r == a + "/" + b
  {
    if StartsWith(b, "/") then b
    else if a == [] || EndsWith(a, "/") then a + b
    else a + "/" + b
  }

  /** The output sub-folders of lines 36 and 38: joining a relative name ending in '/' gives a folder path ending in '/'. */
  lemma SubfolderPath(root: string, name: string)
    requires name != [] && name[0] != '/' && EndsWith(name, "/")
    ensures EndsWith(PathJoin(root, name), "/") && StartsWith(PathJoin(root, name), root)
    ensures EndsWith(PathJoin(root, name), name)
  {
    var r := PathJoin(root, name);
    assert r[|r| - 1] == name[|name| - 1];
  }

  /** `os.path.basename`: what follows the last '/'. */
  function Basename(p: string): (r: string)
    ensures '/' !in r && EndsWith(p, r)
    ensures '/' !in p ==> r == p
    ensures |r| < |p| ==> p[|p| - |r| - 1] == '/'
  {
    p[RFind(p, '/') + 1..]
  }

  /** The last component of a joined path is the last component of its second part. */
  lemma BasenameOfJoin(a: string, b: string)
    ensures Basename(PathJoin(a, b)) == Basename(b)
  {
    var r := PathJoin(a, b);
    if !StartsWith(b, "/") {
      if '/' in b {
        BasenameOfSuffixWithSlash(r, b);
      } else if a != [] {
        BasenameAfterSlash(r, b);
      }
    }
  }

  /** A suffix holding a '/' has the base name of the whole path. */
  lemma BasenameOfSuffixWithSlash(p: string, b: string)
    requires EndsWith(p, b) && '/' in b
    ensures Basename(p) == Basename(b)
  {
    var n := |p| - |b|;
    var i := RFind(b, '/');
    var k :| 0 <= k < |b| && b[k] == '/';
    assert p[n..] == b;
    assert p[n + k] == '/';
    assert forall m :: n + i < m < |p| ==> p[m] == b[m - n];
    BasenameAfter(p, n + i);
    assert p[n + i + 1..] == b[i + 1..];
  }

  /** A '/'-free suffix right after a '/' is the base name. */
  lemma BasenameAfterSlash(p: string, b: string)
    requires EndsWith(p, b) && '/' !in b
    requires |p| > |b| && p[|p| - |b| - 1] == '/'
    ensures Basename(p) == b
  {
    var n := |p| - |b|;
    assert p[n..] == b;
    assert forall m :: n - 1 < m < |p| ==> p[m] == b[m - n];
    BasenameAfter(p, n - 1);
  }

  /** When index `i` holds the last '/', the base name is what follows it. */
  lemma BasenameAfter(p: string, i: int)
    requires 0 <= i < |p| && p[i] == '/'
    requires forall k :: i < k < |p| ==> p[k] != '/'
    ensures Basename(p) == p[i + 1..]
  {
  }

  /** Some character of `p[from..to]` is not a dot. */
  predicate HasNonDot(p: string, from: int, to: int)
    requires 0 <= from <= to <= |p|
  {
    exists k :: from <= k < to && p[k] != '.'
  }

  /**
   * `os.path.splitext`: the extension starts at the last dot of the last
   * component, unless only dots precede that dot in the component
   * (".bashrc" has no extension).
   */
  function SplitExt(p: string): (r: (string, string))
    ensures r.0 + r.1 == p
    ensures r.1 == [] || (r.1[0] == '.' && '.' !in r.1[1..] && '/' !in r.1)
  {
    var sepIndex := RFind(p, '/');
    var dotIndex := RFind(p, '.');
    if dotIndex > sepIndex && HasNonDot(p, sepIndex + 1, dotIndex) then
      assert p[..dotIndex] + p[dotIndex..] == p;
      assert forall k :: 1 <= k < |p[dotIndex..]| ==> p[dotIndex..][k] == p[dotIndex + k];
      (p[..dotIndex], p[dotIndex..])
    else (p, [])
  }

  /**
   * Leading dots are not an extension: when every character of the last
   * component before its last dot is a dot (".bashrc", "..", or no dot at
   * all), the extension is empty.
   */
  lemma SplitExtLeadingDots(p: string)
    requires forall k :: RFind(p, '/') < k < RFind(p, '.') ==> p[k] == '.'
    ensures SplitExt(p) == (p, [])
  {
  }

  /**
   * A dot after a character that is not a dot, in the last component, starts
   * an extension: the extension is the text from the last dot on.
   */
  lemma SplitExtAtLastDot(p: string, k: int)
    requires RFind(p, '/') < k < RFind(p, '.') && p[k] != '.'
    ensures SplitExt(p) == (p[..RFind(p, '.')], p[RFind(p, '.')..])
  {
    assert HasNonDot(p, RFind(p, '/') + 1, RFind(p, '.'));
  }

  /** A name `stem + ext` with a one-dot extension and a stem that is not all dots splits back into them. */
  lemma SplitExtOf(stem: string, ext: string)
    requires '/' !in stem && '/' !in ext
    requires |ext| > 0 && ext[0] == '.' && '.' !in ext[1..]
    requires exists k :: 0 <= k < |stem| && stem[k] != '.'
    ensures SplitExt(stem + ext) == (stem, ext)
  {
    var p := stem + ext;
    assert p[|stem|] == '.';
    assert forall k :: |stem| < k < |p| ==> p[k] == ext[k - |stem|] && p[k] != '.' by {
      forall k | |stem| < k < |p| ensures p[k] == ext[k - |stem|] && p[k] != '.' {
        assert ext[k - |stem|] == ext[1..][k - |stem| - 1];
      }
    }
    assert RFind(p, '.') == |stem|;
    assert forall k :: 0 <= k < |p| ==> p[k] != '/' by {
      forall k | 0 <= k < |p| ensures p[k] != '/' {
        if k < |stem| { assert p[k] == stem[k]; } else { assert p[k] == ext[k - |stem|]; }
      }
    }
    assert RFind(p, '/') == -1;
    var k :| 0 <= k < |stem| && stem[k] != '.';
    assert p[k] == stem[k];
    assert HasNonDot(p, 0, |stem|);
    assert p[..|stem|] == stem && p[|stem|..] == ext;
  }

  predicate IsAsciiLetter(c: char) {
    'a' <= c <= 'z' || 'A' <= c <= 'Z'
  }

  /** The random alias of line 185: thirty `string.ascii_letters`. */
  predicate IsAlias(alias: string) {
    |alias| == 30 && forall i :: 0 <= i < |alias| ==> IsAsciiLetter(alias[i])
  }

  /** `judgment_url.split("/")[-1]`. */
  function LastSegment(url: string): (r: string)
    ensures r == Basename(url)
  {
    SplitAtLastIsAfterRFind(url, '/');
    var parts := SplitAt(url, '/');
    parts[|parts| - 1]
  }

  /** The file name of line 183-186: the URL's last segment if it ends in ".pdf", else the alias and ".pdf". */
  function PdfFileName(url: string, alias: string): (name: string)
    requires IsAlias(alias)
    ensures EndsWith(name, ".pdf") && '/' !in name
    ensures EndsWith(LastSegment(url), ".pdf") ==> name == LastSegment(url)
    ensures !EndsWith(LastSegment(url), ".pdf") ==> name == alias + ".pdf"
  {
    var fileName := LastSegment(url);
    LastCharsIsSuffix(fileName, ".pdf");
    if LastChars(fileName, 4) != ".pdf" then
      AliasFileName(alias);
      alias + ".pdf"
    else fileName
  }

  /** Python's `s[-4:] != ".pdf"` is "s does not end in .pdf", also for strings shorter than four. */
  lemma LastCharsIsSuffix(s: string, suffix: string)
    requires |suffix| > 0
    ensures LastChars(s, |suffix|) == suffix <==> EndsWith(s, suffix)
  {
  }

  lemma AliasFileName(alias: string)
    requires IsAlias(alias)
    ensures EndsWith(alias + ".pdf", ".pdf") && '/' !in alias + ".pdf"
  {
    var name := alias + ".pdf";
    assert name[|name| - 4..] == ".pdf";
    forall i | 0 <= i < |name| ensures name[i] != '/' {
      if i < |alias| {
        assert name[i] == alias[i] && IsAsciiLetter(alias[i]);
      } else {
        assert name[i] == ".pdf"[i - |alias|];
      }
    }
  }

  lemma Concat(a: string, b: string)
    ensures (a + b)[..|a|] == a && (a + b)[|a|..] == b
  {
  }

  /** `create_pdf_filepath_from_url`: the PDF folder, the court, '_' and the file name, concatenated as strings. */
  function PdfFilepathFromUrl(pdfFolder: string, url: string, court: string, alias: string): (path: string)
    requires IsAlias(alias)
    ensures StartsWith(path, pdfFolder + court + "_")
    ensures path[|pdfFolder + court + "_"|..] == PdfFileName(url, alias)
  {
    var prefix := pdfFolder + court + "_";
    Concat(prefix, PdfFileName(url, alias));
    prefix + PdfFileName(url, alias)
  }

  /** `create_txt_filepath_from_pdf_filepath`: the text folder, the court, '_', the PDF's base name without extension, ".txt". */
  function TxtFilepathFromPdfFilepath(txtFolder: string, pdfPath: string, court: string): (path: string)
    ensures StartsWith(path, txtFolder + court + "_") && EndsWith(path, ".txt")
  {
    ThreeParts(txtFolder + court + "_", SplitExt(Basename(pdfPath)).0, ".txt");
    txtFolder + court + "_" + SplitExt(Basename(pdfPath)).0 + ".txt"
  }

  /**
   * The text path is the text folder, the court and '_', then a stem that with
   * the PDF's extension gives back the PDF's base name, then ".txt".
   */
  lemma TxtFilepathParts(txtFolder: string, pdfPath: string, court: string)
    ensures var path := TxtFilepathFromPdfFilepath(txtFolder, pdfPath, court);
      var n := |txtFolder + court + "_"|;
      && StartsWith(path, txtFolder + court + "_")
      && |path| >= n + 4 && EndsWith(path, ".txt")
      && path[n..|path| - 4] + SplitExt(Basename(pdfPath)).1 == Basename(pdfPath)
  {
    var split := SplitExt(Basename(pdfPath));
    ThreeParts(txtFolder + court + "_", split.0, ".txt");
  }

  lemma ThreeParts(a: string, b: string, c: string)
    ensures var s := a + b + c;
      && StartsWith(s, a) && EndsWith(s, c) && s[|a|..|s| - |c|] == b
  {
    var s := a + b + c;
    assert s[..|a|] == a;
    assert s[|s| - |c|..] == c;
    assert s[|a|..|s| - |c|] == b;
  }

  /**
   * Chaining the two builders repeats the court: the text file of a PDF saved
   * as `pdfFolder + "SC_" + stem + ".pdf"` is `txtFolder + "SC_SC_" + stem + ".txt"`.
   */
  lemma TxtOfPdfFilepath(txtFolder: string, pdfFolder: string, url: string, court: string, alias: string, stem: string)
    requires IsAlias(alias)
    requires pdfFolder == [] || EndsWith(pdfFolder, "/")
    requires '/' !in court
    requires PdfFileName(url, alias) == stem + ".pdf"
    ensures TxtFilepathFromPdfFilepath(txtFolder, PdfFilepathFromUrl(pdfFolder, url, court, alias), court)
      == txtFolder + court + "_" + court + "_" + stem + ".txt"
  {
    var name := court + "_" + stem;
    PdfFilepathSplit(pdfFolder, url, court, alias, stem);
    NoSlashInPrefix(stem, ".pdf");
    CourtName(court, stem);
    TxtOfStem(txtFolder, pdfFolder, court, name);
    RegroupTxt(txtFolder, court, stem);
  }

  lemma PdfFilepathSplit(pdfFolder: string, url: string, court: string, alias: string, stem: string)
    requires IsAlias(alias)
    requires PdfFileName(url, alias) == stem + ".pdf"
    ensures PdfFilepathFromUrl(pdfFolder, url, court, alias) == pdfFolder + (court + "_" + stem + ".pdf")
  {
    var prefix := pdfFolder + court + "_";
    PrefixSuffix(PdfFilepathFromUrl(pdfFolder, url, court, alias), prefix, stem + ".pdf");
    Regroup(pdfFolder, court, stem);
  }

  lemma PrefixSuffix(path: string, prefix: string, name: string)
    requires StartsWith(path, prefix) && path[|prefix|..] == name
    ensures path == prefix + name
  {
    assert path == path[..|prefix|] + path[|prefix|..];
  }

  lemma Regroup(pdfFolder: string, court: string, stem: string)
    ensures pdfFolder + court + "_" + (stem + ".pdf") == pdfFolder + (court + "_" + stem + ".pdf")
  {
  }

  lemma TxtOfStem(txtFolder: string, pdfFolder: string, court: string, name: string)
    requires pdfFolder == [] || EndsWith(pdfFolder, "/")
    requires '/' !in name
    requires |name| > |court| && name[|court|] == '_'
    ensures TxtFilepathFromPdfFilepath(txtFolder, pdfFolder + (name + ".pdf"), court) == txtFolder + court + "_" + name + ".txt"
  {
    NoSlashConcat(name, ".pdf");
    BasenameOfSuffix(pdfFolder, name + ".pdf");
    PdfExtension();
    assert name[|court|] != '.';
    SplitExtOf(name, ".pdf");
  }

  /** The PDF name `court + "_" + stem` has no '/' and its character after the court is '_'. */
  lemma CourtName(court: string, stem: string)
    requires '/' !in court && '/' !in stem
    ensures var name := court + "_" + stem;
      '/' !in name && |name| > |court| && name[|court|] == '_'
  {
    NoSlashConcat(court, "_");
    NoSlashConcat(court + "_", stem);
    assert (court + "_" + stem)[|court|] == (court + "_")[|court|];
  }

  lemma RegroupTxt(txtFolder: string, court: string, stem: string)
    ensures txtFolder + court + "_" + (court + "_" + stem) + ".txt" == txtFolder + court + "_" + court + "_" + stem + ".txt"
  {
  }

  lemma PdfExtension()
    ensures '/' !in ".pdf" && ".pdf"[0] == '.' && '.' !in ".pdf"[1..]
  {
    assert ".pdf"[1..] == "pdf";
  }

  lemma NoSlashConcat(a: string, b: string)
    requires '/' !in a && '/' !in b
    ensures '/' !in a + b
  {
    assert multiset(a + b) == multiset(a) + multiset(b);
    assert '/' !in multiset(a + b);
  }

  lemma NoSlashInPrefix(a: string, b: string)
    requires '/' !in a + b
    ensures '/' !in a
  {
    assert multiset(a + b) == multiset(a) + multiset(b);
    assert '/' !in multiset(a);
  }

  lemma BasenameOfSuffix(dir: string, file: string)
    requires '/' !in file
    requires dir == [] || dir[|dir| - 1] == '/'
    ensures Basename(dir + file) == file
  {
    var p := dir + file;
    assert EndsWith(p, file);
  }

  predicate IsHexDigest(id: string) {
    forall i :: 0 <= i < |id| ==> '0' <= id[i] <= '9' || 'a' <= id[i] <= 'f'
  }

  /** The download target of line 228: `os.path.join(pdf_output_folder_path, judgment_id + '.pdf')`. */
  function DownloadPath(pdfFolder: string, judgmentId: string): (path: string)
    ensures IsHexDigest(judgmentId) && EndsWith(pdfFolder, "/") ==> path == pdfFolder + judgmentId + ".pdf"
  {
    var file := judgmentId + ".pdf";
    HexFileIsRelative(judgmentId);
    assert pdfFolder + file == pdfFolder + judgmentId + ".pdf";
    PathJoin(pdfFolder, file)
  }

  /**
   * The text file the commented-out conversion step would name for a download
   * target `pdfFolder + id + ".pdf"`: the text folder, the court, '_', the id
   * and ".txt".
   */
  lemma TxtOfDownloadPath(txtFolder: string, pdfFolder: string, judgmentId: string, court: string)
    requires IsHexDigest(judgmentId) && |judgmentId| > 0 && EndsWith(pdfFolder, "/")
    ensures TxtFilepathFromPdfFilepath(txtFolder, DownloadPath(pdfFolder, judgmentId), court)
      == txtFolder + court + "_" + judgmentId + ".txt"
  {
    assert forall i :: 0 <= i < |judgmentId| ==> judgmentId[i] != '/';
    PdfExtension();
    NoSlashConcat(judgmentId, ".pdf");
    assert pdfFolder[|pdfFolder| - 1] == '/';
    BasenameOfSuffix(pdfFolder, judgmentId + ".pdf");
    assert pdfFolder + judgmentId + ".pdf" == pdfFolder + (judgmentId + ".pdf");
    assert judgmentId[0] != '.';
    SplitExtOf(judgmentId, ".pdf");
  }

  lemma HexFileIsRelative(judgmentId: string)
    ensures IsHexDigest(judgmentId) ==> !StartsWith(judgmentId + ".pdf", "/")
  {
    var file := judgmentId + ".pdf";
    if |judgmentId| > 0 {
      assert file[0] == judgmentId[0];
    } else {
      assert file == ".pdf" && file[0] == '.';
    }
  }

  /** Different judgment ids give different download targets, so no two downloads write the same file. */
  lemma DownloadPathsDistinct(pdfFolder: string, id1: string, id2: string)
    requires IsHexDigest(id1) && IsHexDigest(id2)
    requires id1 != id2
    ensures DownloadPath(pdfFolder, id1) != DownloadPath(pdfFolder, id2)
  {
    HexFileIsRelative(id1);
    HexFileIsRelative(id2);
    var b1, b2 := id1 + ".pdf", id2 + ".pdf";
    assert b1[..|b1| - 4] == id1 && b2[..|b2| - 4] == id2;
  }
}
