/**
 * The stand-alone download tool (paper_tools.py): the PDF link generators
 * per venue, the tool's own file naming and single-attempt download, its
 * selection query and counters, and the status rescan that marks a paper
 * `downloaded` when a large enough file for it is on disk.
 */
module PaperTools {
  import opened Wrappers
  import opened Strings
  import opened PyJson
  import opened Records
  import opened Seqs
  import opened Database
  import opened Downloader

  /** `get_iacr_pdf_link(url)`: the eprint PDF named by the last two path segments. */
  function IacrPdfLink(url: Json): (r: Result<Json>)
    ensures r.Raised? <==> Truthy(url) && In("eprint.iacr.org", url).Raised?
    ensures !Truthy(url) ==> r == Ok(JNull)
    ensures url.JStr? && !Contains(url.s, "eprint.iacr.org") ==> r == Ok(JNull)
    ensures r.Ok? && r.value != JNull ==>
      url.JStr? && Contains(url.s, "eprint.iacr.org") && r.value.JStr?
      && StartsWith(r.value.s, "https://eprint.iacr.org/") && EndsWith(r.value.s, ".pdf")
  {
    if !Truthy(url) then Ok(JNull)
    else
      var listed :- In("eprint.iacr.org", url);
      if !listed || !url.JStr? then Ok(JNull)
      else
        var parts := Split(RStripChar(url.s, '/'), "/");
        if |parts| >= 2 then
          var link := "https://eprint.iacr.org/" + parts[|parts| - 2] + "/" + parts[|parts| - 1];
          assert (link + ".pdf")[..24] == link[..24];
          Ok(JStr(link + ".pdf"))
        else Ok(JNull)
  }

  /** A marker found in `s` is still found once more text follows. */
  lemma ContainsExtended(s: string, t: string, sub: string)
    requires Contains(s, sub)
    ensures Contains(s + t, sub)
  {
    var k := IndexOf(s, sub).value;
    assert (s + t)[k..k + |sub|] == s[k..k + |sub|];
    ContainsAt(s + t, sub, k);
  }

  /** The last two `/`-separated pieces of `front/year/number` are `year` and `number`. */
  lemma EprintSplit(front: string, year: string, number: string)
    requires Without(year, '/') && Without(number, '/')
    ensures var parts := Split(front + "/" + year + "/" + number, "/");
      |parts| >= 2 && parts[|parts| - 2] == year && parts[|parts| - 1] == number
  {
    SplitSnoc(front, '/', year);
    assert front + "/" + year == front + ['/'] + year;
    SplitSnoc(front + "/" + year, '/', number);
    assert front + "/" + year + "/" + number == (front + "/" + year) + ['/'] + number;
  }

  /**
   * An eprint page `.../<year>/<number>`, with or without a trailing `/`,
   * gives `https://eprint.iacr.org/<year>/<number>.pdf`.
   */
  lemma IacrLinkOfEprintPage(front: string, year: string, number: string)
    requires Contains(front, "eprint.iacr.org")
    requires Without(year, '/') && Without(number, '/') && number != []
    ensures var page := front + "/" + year + "/" + number;
      IacrPdfLink(JStr(page)) == Ok(JStr("https://eprint.iacr.org/" + year + "/" + number + ".pdf"))
      && IacrPdfLink(JStr(page + "/")) == IacrPdfLink(JStr(page))
  {
    var page := front + "/" + year + "/" + number;
    ContainsExtended(front, "/" + year + "/" + number, "eprint.iacr.org");
    assert front + ("/" + year + "/" + number) == page;
    ContainsExtended(page, "/", "eprint.iacr.org");
    assert page[|page| - 1] == number[|number| - 1];
    assert RStripChar(page, '/') == page;
    assert RStripChar(page + "/", '/') == page by {
      assert (page + "/")[..|page|] == page;
    }
    EprintSplit(front, year, number);
  }

  const UsenixPdfPrefix := "https://www.usenix.org/system/files/usenixsecurity25/usenixsecurity25-"

  /** The characters the slug keeps before splitting: letters, digits and spaces. */
  predicate SlugKeeps(c: char)
  {
    IsAlnum(c) || c == ' '
  }

  /** The title slug: lower-cased, only letters, digits and spaces kept, words joined with `-`, cut to 50. */
  function Slug(title: string): string
  {
    Take(Join(Words(Filter(Lower(title), SlugKeeps)), "-"), 50)
  }

  predicate SlugChar(c: char)
  {
    ('a' <= c <= 'z') || ('0' <= c <= '9') || c == '-'
  }

  /** A slug is at most 50 characters of lower-case letters, digits and dashes: no space survives. */
  lemma SlugShape(title: string)
    ensures |Slug(title)| <= 50 && forall c :: c in Slug(title) ==> SlugChar(c)
  {
    var lowered := Lower(title);
    var kept := Filter(lowered, SlugKeeps);
    var words := Words(kept);
    WordsChars(kept);
    forall w, c | w in words && c in w
      ensures SlugChar(c)
    {
      assert c in kept && !IsSpace(c);
      var i :| 0 <= i < |lowered| && lowered[i] == c;
      assert c == LowerChar(title[i]);
    }
    JoinKeeps(words, "-", SlugChar);
    PrefixChars(Slug(title), Join(words, "-"));
  }

  /** `get_usenix_pdf_link(url, title)`: the USENIX Security 2025 PDF named after the title's slug. */
  function UsenixPdfLink(url: Json, title: Json): (r: Result<Json>)
    ensures r.Raised? <==> Truthy(url) && In("usenix.org", url).Raised?
    ensures r.Ok? && r.value != JNull ==>
      In("usenix.org", url) == Ok(true) && title.JStr?
      && r.value == JStr(UsenixPdfPrefix + Slug(title.s) + ".pdf")
    ensures url.JStr? && Contains(url.s, "usenix.org") && title.JStr? ==> r.Ok? && r.value != JNull
  {
    if !Truthy(url) then Ok(JNull)
    else
      var listed :- In("usenix.org", url);
      if !listed || !title.JStr? then Ok(JNull)
      else Ok(JStr(UsenixPdfPrefix + Slug(title.s) + ".pdf"))
  }

  /**
   * `get_ndss_pdf_link` and `get_ieee_sp_pdf_link`: the link itself when it
   * is truthy and holds the venue's host, `None` otherwise.
   */
  function HostLink(url: Json, host: string): (r: Result<Json>)
    ensures r.Raised? <==> Truthy(url) && In(host, url).Raised?
    ensures r.Ok? ==> r.value == url || r.value == JNull
    ensures r.Ok? && Truthy(r.value) <==> Truthy(url) && In(host, url) == Ok(true)
  {
    if !Truthy(url) then Ok(JNull)
    else
      var listed :- In(host, url);
      if listed then Ok(url) else Ok(JNull)
  }

  /**
   * `generate_pdf_link(paper)`: the first venue marker found in the
   * conference picks the generator; no marker gives `None`.
   */
  function GeneratePdfLink(paper: Json): (r: Result<Json>)
    ensures !paper.JDict? ==> r == Raised(AttributeError)
    ensures paper.JDict? && Field(paper, "conference", JStr("")).JStr? ==>
      var c := Field(paper, "conference", JStr("")).s;
      var url := Field(paper, "url", JStr(""));
      var title := Field(paper, "title", JStr(""));
      if Contains(c, "CRYPTO") || Contains(c, "EUROCRYPT") || Contains(c, "ASIACRYPT") then r == IacrPdfLink(url)
      else if Contains(c, "USENIX") then r == UsenixPdfLink(url, title)
      else if Contains(c, "NDSS") then r == HostLink(url, "ndss-symposium.org")
      else if Contains(c, "S&P") || Contains(c, "S & P") then r == HostLink(url, "ieee-security.org")
      else r == Ok(JNull)
  {
    var url :- Get(paper, "url", JStr(""));
    var conference := Field(paper, "conference", JStr(""));
    var title := Field(paper, "title", JStr(""));
    var crypto :- In("CRYPTO", conference);
    if crypto || In("EUROCRYPT", conference) == Ok(true) || In("ASIACRYPT", conference) == Ok(true) then
      IacrPdfLink(url)
    else if In("USENIX", conference) == Ok(true) then UsenixPdfLink(url, title)
    else if In("NDSS", conference) == Ok(true) then HostLink(url, "ndss-symposium.org")
    else if In("S&P", conference) == Ok(true) || In("S & P", conference) == Ok(true) then
      HostLink(url, "ieee-security.org")
    else Ok(JNull)
  }

  /** The tool's `sanitize_filename`: invalid characters replaced and cut to 200 characters, with no strip. */
  function ToolFileName(filename: string): string
  {
    Take(Scrubbed(filename), 200)
  }

  method ToolSanitize(filename: string) returns (r: string)
    ensures r == ToolFileName(filename)
  {
    var scrubbed := ReplaceInvalid(filename);
    r := Take(scrubbed, 200);
  }

  /**
   * The tool's name is safe but not stripped: the metadata downloader's
   * name is exactly the tool's name stripped.
   */
  lemma ToolFileNameIsSafe(filename: string)
    ensures var r := ToolFileName(filename);
      |r| <= 200 && (forall i :: 0 <= i < |r| ==> !IsInvalid(r[i]))
      && Sanitized(filename) == Strip(r)
  {
  }

  /** The directory name of a conference: spaces and slashes become `_`. */
  function DirName(conference: string): (d: string)
    ensures |d| == |conference| && Without(d, ' ') && Without(d, '/')
  {
    ReplaceChar(ReplaceChar(conference, ' ', '_'), '/', '_')
  }

  /** `output_dir / f"{conference}_{year}"`. */
  function ConferenceDir(outputDir: string, conference: string, year: Sql): string
  {
    PathJoin(outputDir, DirName(conference) + "_" + SqlStr(year))
  }

  /** The file name of a paper: `"{id}_{title}.pdf"`. */
  function ToolPdfName(paper: Row): string
  {
    IntToString(paper.id) + "_" + ToolFileName(paper.title) + ".pdf"
  }

  /** The target of `download_pdf`. */
  function TargetPath(outputDir: string, paper: Row): string
  {
    PathJoin(ConferenceDir(outputDir, paper.conference, paper.year), ToolPdfName(paper))
  }

  /** Joining a relative piece onto a directory without a trailing `/` puts one `/` between them. */
  lemma PathJoinPlain(a: string, b: string)
    requires a != [] && !EndsWith(a, "/") && b != [] && b[0] != '/'
    ensures PathJoin(a, b) == a + "/" + b
  {
    assert b[0] != "/"[0];
  }

  /** The conference directory is `output_dir/<conference>_<year>`, without a trailing `/`. */
  lemma ConferenceDirLayout(outputDir: string, conference: string, year: Sql)
    requires outputDir != [] && !EndsWith(outputDir, "/") && !EndsWith(SqlStr(year), "/")
    ensures ConferenceDir(outputDir, conference, year) == outputDir + "/" + DirName(conference) + "_" + SqlStr(year)
    ensures !EndsWith(ConferenceDir(outputDir, conference, year), "/")
  {
    var d := DirName(conference);
    var y := SqlStr(year);
    var piece := d + "_" + y;
    assert piece[0] != '/' by {
      if d != [] {
        assert piece[0] == d[0];
      } else {
        assert piece[0] == '_';
      }
    }
    PathJoinPlain(outputDir, piece);
    var dir := outputDir + "/" + piece;
    assert dir == outputDir + "/" + d + "_" + y;
    assert dir[|dir| - 1] != '/' by {
      if y != [] {
        assert dir[|dir| - 1] == y[|y| - 1];
        assert y[|y| - 1..] == [y[|y| - 1]];
      } else {
        assert dir[|dir| - 1] == '_';
      }
    }
  }

  /**
   * For an output directory and a year that are plain path pieces, the
   * target is `output_dir/<conference>_<year>/<id>_<title>.pdf`.
   */
  lemma TargetPathLayout(outputDir: string, paper: Row)
    requires outputDir != [] && !EndsWith(outputDir, "/") && !EndsWith(SqlStr(paper.year), "/")
    ensures TargetPath(outputDir, paper)
      == ConferenceDir(outputDir, paper.conference, paper.year) + "/" + ToolPdfName(paper)
    ensures ConferenceDir(outputDir, paper.conference, paper.year)
      == outputDir + "/" + DirName(paper.conference) + "_" + SqlStr(paper.year)
  {
    ConferenceDirLayout(outputDir, paper.conference, paper.year);
    ToolPdfNameShape(paper);
    var name := ToolPdfName(paper);
    assert name[0] != '/';
    PathJoinPlain(ConferenceDir(outputDir, paper.conference, paper.year), name);
  }

  /** `str(id)` is digits, so the file name starts with a digit and holds no `/`. */
  lemma ToolPdfNameShape(paper: Row)
    ensures var name := ToolPdfName(paper);
      name != [] && IsDigit(name[0]) && Without(name, '/')
      && StartsWith(name, IntToString(paper.id) + "_") && EndsWith(name, ".pdf")
  {
    var id := IntToString(paper.id);
    var t := ToolFileName(paper.title);
    var name := ToolPdfName(paper);
    assert id == NatToString(paper.id);
    assert Without(id, '/') by {
      forall i | 0 <= i < |id|
        ensures id[i] != '/'
      {
        assert IsDigit(id[i]);
      }
    }
    assert Without(t, '/') by {
      ToolFileNameIsSafe(paper.title);
    }
    WithoutConcat(id, "_", '/');
    WithoutConcat(id + "_", t, '/');
    WithoutConcat(id + "_" + t, ".pdf", '/');
    assert name[..|id| + 1] == id + "_";
    assert name[0] == id[0];
  }


  /**
   * `download_pdf(paper)`: `False` without a link and without any request;
   * `True` at once when the target exists; otherwise one attempt, `True`
   * when the body was written out (even an empty one), `False` on any
   * exception, which leaves a partly written file behind.
   */
  function DownloadPdfOutcome(outputDir: string, paper: Row, files: Files, net: (string, nat) -> Transfer): (bool, Files)
  {
    if !HasLink(paper) then (false, files)
    else FetchTo(TargetPath(outputDir, paper), files, net(paper.pdfUrl.value, 0))
  }

  /** The existence check and the one attempt of `download_pdf`, writing to `path`. */
  function FetchTo(path: string, files: Files, attempt: Transfer): (bool, Files)
  {
    if path in files then (true, files)
    else
      match attempt
      case Saved(size) => (true, files[path := size])
      case RequestFailed(partial) => (false, if partial.Some? then files[path := partial.value] else files)
      case OtherFailed(partial) => (false, if partial.Some? then files[path := partial.value] else files)
  }

  lemma FetchToFacts(path: string, files: Files, attempt: Transfer)
    ensures var (ok, after) := FetchTo(path, files, attempt);
      (path in files ==> ok && after == files)
      && (ok ==> path in after)
      && (ok <==> path in files || attempt.Saved?)
      && after - {path} == files - {path}
  {
    assert files[path := 0] - {path} == files - {path};
  }

  /**
   * The result of `download_pdf`: it reports success exactly when the
   * target is on disk afterwards and the attempt did not fail; no other file
   * changes.
   */
  lemma DownloadPdfFacts(outputDir: string, paper: Row, files: Files, net: (string, nat) -> Transfer)
    ensures var (ok, after) := DownloadPdfOutcome(outputDir, paper, files, net);
      var path := TargetPath(outputDir, paper);
      (!HasLink(paper) ==> !ok && after == files)
      && (HasLink(paper) && path in files ==> ok && after == files)
      && (ok ==> path in after)
      && (ok <==> HasLink(paper) && (path in files || net(paper.pdfUrl.value, 0).Saved?))
      && after - {path} == files - {path}
  {
    if HasLink(paper) {
      FetchToFacts(TargetPath(outputDir, paper), files, net(paper.pdfUrl.value, 0));
    }
  }

  method DownloadPdf(outputDir: string, paper: Row, files: Files, net: (string, nat) -> Transfer)
    returns (ok: bool, files': Files)
    ensures (ok, files') == DownloadPdfOutcome(outputDir, paper, files, net)
  {
    if !HasLink(paper) {
      return false, files;
    }
    var conference := DirName(paper.conference);
    var title := ToolSanitize(paper.title);
    var confDir := PathJoin(outputDir, conference + "_" + SqlStr(paper.year));
    var path := PathJoin(confDir, IntToString(paper.id) + "_" + title + ".pdf");
    if path in files {
      return true, files;
    }
    match net(paper.pdfUrl.value, 0) {
      case Saved(size) =>
        ok, files' := true, files[path := size];
      case RequestFailed(partial) =>
        ok, files' := false, if partial.Some? then files[path := partial.value] else files;
      case OtherFailed(partial) =>
        ok, files' := false, if partial.Some? then files[path := partial.value] else files;
    }
  }

  /**
   * `get_papers_to_download(conference, year, limit)`: rows with a link,
   * of the conference when one is given, of the year when one is given
   * (0 stands for none), cut to `limit` when it is positive.
   */
  function PapersToDownload(rows: seq<Row>, conference: Option<string>, year: int, limit: int): (r: seq<Row>)
    ensures forall x :: x in r ==> x in rows && HasLink(x)
    ensures forall x :: x in r ==> (TruthyText(conference) ==> x.conference == conference.value) && (year != 0 ==> x.year == Int(year))
    ensures limit <= 0 ==>
      forall x :: x in rows && HasLink(x)
        && (TruthyText(conference) ==> x.conference == conference.value) && (year != 0 ==> x.year == Int(year))
        ==> x in r
    ensures limit > 0 ==>
      var matches := DownloadCandidates(rows, conference, year);
      r <= matches && |r| == if limit < |matches| then limit else |matches|
  {
    var matches := DownloadCandidates(rows, conference, year);
    var r := Limit(matches, limit);
    assert forall x :: x in r ==> x in matches by {
      forall x | x in r
        ensures x in matches
      {
        var i :| 0 <= i < |r| && r[i] == x;
        assert matches[i] == x;
      }
    }
    r
  }

  /** Every row with a link that meets the given conditions, in table order. */
  function DownloadCandidates(rows: seq<Row>, conference: Option<string>, year: int): seq<Row>
  {
    Filter(rows, (x: Row) => HasLink(x)
      && (TruthyText(conference) ==> x.conference == conference.value) && (year != 0 ==> x.year == Int(year)))
  }

  /** `total`, `success` and `failed` of `download_batch`. */
  datatype ToolStats = ToolStats(total: nat, success: nat, failed: nat)

  /** The downloads of a batch in order: the successes and the disk afterwards. */
  function ToolBatch(outputDir: string, net: (string, nat) -> Transfer, papers: seq<Row>, files: Files): (r: (nat, Files))
    ensures r.0 <= |papers|
    decreases |papers|
  {
    if papers == [] then (0, files)
    else
      var (n, mid) := ToolBatch(outputDir, net, papers[..|papers| - 1], files);
      var (ok, after) := DownloadPdfOutcome(outputDir, papers[|papers| - 1], mid, net);
      (n + if ok then 1 else 0, after)
  }

  /** The loop of `download_batch`: each paper in turn, counted as a success or a failure. */
  method DownloadEach(outputDir: string, papers: seq<Row>, files: Files, net: (string, nat) -> Transfer)
    returns (success: nat, failed: nat, files': Files)
    ensures success + failed == |papers|
    ensures (success, files') == ToolBatch(outputDir, net, papers, files)
  {
    success, failed := 0, 0;
    files' := files;
    for i := 0 to |papers|
      invariant success + failed == i
      invariant (success, files') == ToolBatch(outputDir, net, papers[..i], files)
    {
      assert papers[..i + 1][..i] == papers[..i];
      var ok;
      ok, files' := DownloadPdf(outputDir, papers[i], files', net);
      if ok {
        success := success + 1;
      } else {
        failed := failed + 1;
      }
    }
    assert papers[..|papers|] == papers;
  }

  /**
   * `download_batch(conference, year, limit)`: nothing when no paper is
   * selected; otherwise every selected paper counts once, as a success or
   * as a failure.
   */
  method DownloadBatch(outputDir: string, rows: seq<Row>, files: Files, net: (string, nat) -> Transfer,
                       conference: Option<string>, year: int, limit: int)
    returns (stats: Option<ToolStats>, files': Files)
    ensures stats.None? <==> PapersToDownload(rows, conference, year, limit) == []
    ensures stats.None? ==> files' == files
    ensures stats.Some? ==>
      var papers := PapersToDownload(rows, conference, year, limit);
      stats.value.total == |papers| && stats.value.success + stats.value.failed == stats.value.total
      && (stats.value.success, files') == ToolBatch(outputDir, net, papers, files)
  {
    var papers := PapersToDownload(rows, conference, year, limit);
    if papers == [] {
      return None, files;
    }
    var success, failed;
    success, failed, files' := DownloadEach(outputDir, papers, files, net);
    stats := Some(ToolStats(|papers|, success, failed));
  }

  /** `pdf_path.glob(f"{paper_id}_*.pdf")` matches a file name. */
  predicate GlobMatch(name: string, id: int)
  {
    var prefix := IntToString(id) + "_";
    |prefix| + 4 <= |name| && StartsWith(name, prefix) && EndsWith(name, ".pdf") && Without(name, '/')
  }

  /** A regular file of more than 1024 bytes in `dir` whose name matches the paper's pattern. */
  predicate HasDownloadedFile(files: Files, dir: string, id: int)
  {
    exists p :: p in files && files[p] > 1024 && |dir| + 1 <= |p| && p[..|dir| + 1] == dir + "/" && GlobMatch(p[|dir| + 1..], id)
  }

  /** The status the rescan writes for a paper. */
  function RescanStatus(files: Files, pdfDir: string, paper: Row): Status
  {
    if HasDownloadedFile(files, ConferenceDir(pdfDir, paper.conference, paper.year), paper.id) then Downloaded else Pending
  }

  /** The rescan's updates, one `UPDATE ... WHERE id = ?` per selected paper, in order. */
  function Rescanned(rows: seq<Row>, papers: seq<Row>, files: Files, pdfDir: string): (r: seq<Row>)
    ensures |r| == |rows|
    decreases |papers|
  {
    if papers == [] then rows
    else Rescanned(SetStatusOnly(rows, papers[0].id, RescanStatus(files, pdfDir, papers[0])), papers[1..], files, pdfDir)
  }

  /** The first paper with id `id`. */
  function PaperWithId(papers: seq<Row>, id: int): (r: Option<Row>)
    ensures r.None? <==> forall j :: 0 <= j < |papers| ==> papers[j].id != id
    ensures r.Some? ==> r.value in papers && r.value.id == id
  {
    if papers == [] then None
    else if papers[0].id == id then Some(papers[0])
    else PaperWithId(papers[1..], id)
  }

  /** With distinct ids, each row receives the status computed for the paper with its id, or keeps its own. */
  lemma {:induction false} RescannedEffect(rows: seq<Row>, papers: seq<Row>, files: Files, pdfDir: string)
    requires forall j, k :: 0 <= j < k < |papers| ==> papers[j].id != papers[k].id
    ensures forall i :: 0 <= i < |rows| ==>
      Rescanned(rows, papers, files, pdfDir)[i] ==
        match PaperWithId(papers, rows[i].id)
        case None => rows[i]
        case Some(p) => rows[i].(status := RescanStatus(files, pdfDir, p))
    decreases |papers|
  {
    if papers != [] {
      var p := papers[0];
      var rows' := SetStatusOnly(rows, p.id, RescanStatus(files, pdfDir, p));
      var rest := papers[1..];
      RescannedEffect(rows', rest, files, pdfDir);
      forall i | 0 <= i < |rows|
        ensures Rescanned(rows, papers, files, pdfDir)[i] ==
          match PaperWithId(papers, rows[i].id)
          case None => rows[i]
          case Some(q) => rows[i].(status := RescanStatus(files, pdfDir, q))
      {
        assert rows'[i].id == rows[i].id;
        if rows[i].id == p.id {
          assert PaperWithId(rest, p.id).None? by {
            forall j | 0 <= j < |rest|
              ensures rest[j].id != p.id
            {
              assert rest[j] == papers[j + 1];
            }
          }
        }
      }
    }
  }

  /** The ids of `rows` increase from first to last. */
  predicate IncreasingIds(rows: seq<Row>)
  {
    forall i, j :: 0 <= i < j < |rows| ==> rows[i].id < rows[j].id
  }

  /** A filtered table with increasing ids still has increasing ids. */
  lemma {:induction false} FilterIncreasingIds(rows: seq<Row>, p: Row -> bool)
    requires forall i, j :: 0 <= i < j < |rows| ==> rows[i].id < rows[j].id
    ensures forall i, j :: 0 <= i < j < |Filter(rows, p)| ==> Filter(rows, p)[i].id < Filter(rows, p)[j].id
    decreases |rows|
  {
    if rows != [] {
      var tail := rows[1..];
      TailIncreasing(rows);
      FilterIncreasingIds(tail, p);
      if p(rows[0]) {
        HeadBelowFiltered(rows, p);
        ConsIncreasing(rows[0], Filter(tail, p));
      }
    }
  }

  lemma TailIncreasing(rows: seq<Row>)
    requires rows != [] && IncreasingIds(rows)
    ensures IncreasingIds(rows[1..])
  {
    var tail := rows[1..];
    forall i, j | 0 <= i < j < |tail|
      ensures tail[i].id < tail[j].id
    {
      assert tail[i] == rows[i + 1] && tail[j] == rows[j + 1];
    }
  }

  lemma HeadBelowFiltered(rows: seq<Row>, p: Row -> bool)
    requires rows != [] && IncreasingIds(rows)
    ensures forall k :: 0 <= k < |Filter(rows[1..], p)| ==> rows[0].id < Filter(rows[1..], p)[k].id
  {
    var tail := rows[1..];
    var rest := Filter(tail, p);
    forall k | 0 <= k < |rest|
      ensures rows[0].id < rest[k].id
    {
      assert rest[k] in rest;
      var m :| 0 <= m < |tail| && tail[m] == rest[k];
      assert rest[k] == rows[m + 1];
    }
  }

  lemma ConsIncreasing(head: Row, rest: seq<Row>)
    requires IncreasingIds(rest) && forall k :: 0 <= k < |rest| ==> head.id < rest[k].id
    ensures IncreasingIds([head] + rest)
  {
    var f := [head] + rest;
    forall i, j | 0 <= i < j < |f|
      ensures f[i].id < f[j].id
    {
      assert f[j] == rest[j - 1];
      if i > 0 {
        assert f[i] == rest[i - 1];
      }
    }
  }

  /**
   * What the rescan leaves in the table: every row with a link is
   * `downloaded` when a matching file of more than 1024 bytes is in its
   * conference directory and `pending` otherwise; every other row, and
   * every other column, is unchanged.
   */
  lemma RescanMarksFiles(rows: seq<Row>, lastId: nat, files: Files, pdfDir: string)
    requires WellFormed(rows, lastId)
    ensures var r := Rescanned(rows, Filter(rows, HasLink), files, pdfDir);
      forall i :: 0 <= i < |rows| ==>
        r[i] == if HasLink(rows[i]) then rows[i].(status := RescanStatus(files, pdfDir, rows[i])) else rows[i]
  {
    var papers := Filter(rows, HasLink);
    FilterIncreasingIds(rows, HasLink);
    RescannedEffect(rows, papers, files, pdfDir);
    forall i | 0 <= i < |rows|
      ensures PaperWithId(papers, rows[i].id) == if HasLink(rows[i]) then Some(rows[i]) else None
    {
      var found := PaperWithId(papers, rows[i].id);
      if found.Some? {
        var m :| 0 <= m < |rows| && rows[m] == found.value;
        assert m == i;
      } else {
        assert rows[i] !in papers;
      }
    }
  }

  /**
   * A file that `download_pdf` left at the target with more than 1024 bytes
   * makes the rescan mark the paper `downloaded`.
   */
  lemma DownloadedFileIsFound(outputDir: string, paper: Row, files: Files)
    requires outputDir != [] && !EndsWith(outputDir, "/") && !EndsWith(SqlStr(paper.year), "/")
    requires TargetPath(outputDir, paper) in files && files[TargetPath(outputDir, paper)] > 1024
    ensures RescanStatus(files, outputDir, paper) == Downloaded
  {
    TargetPathLayout(outputDir, paper);
    ToolPdfNameShape(paper);
    var dir := ConferenceDir(outputDir, paper.conference, paper.year);
    var path := TargetPath(outputDir, paper);
    var name := ToolPdfName(paper);
    assert path == dir + "/" + name;
    assert path[..|dir| + 1] == dir + "/";
    assert path[|dir| + 1..] == name;
    assert |IntToString(paper.id) + "_"| + 4 <= |name|;
    assert GlobMatch(name, paper.id);
  }

  /** `DownloadManager.update_download_status`: one status write per paper with a link, and their number. */
  method RescanStatuses(store: PaperStore, pdfDir: string, files: Files) returns (updated: nat)
    requires store.Valid()
    modifies store
    ensures store.Valid() && store.log == old(store.log) && store.lastId == old(store.lastId)
    ensures store.rows == Rescanned(old(store.rows), Filter(old(store.rows), HasLink), files, pdfDir)
    ensures updated == |Filter(old(store.rows), HasLink)|
  {
    var papers := Filter(store.rows, HasLink);
    ghost var target := Rescanned(store.rows, papers, files, pdfDir);
    updated := 0;
    for i := 0 to |papers|
      invariant store.Valid() && store.log == old(store.log) && store.lastId == old(store.lastId)
      invariant updated == i
      invariant Rescanned(store.rows, papers[i..], files, pdfDir) == target
    {
      var paper := papers[i];
      var dir := ConferenceDir(pdfDir, paper.conference, paper.year);
      var status := if HasDownloadedFile(files, dir, paper.id) then Downloaded else Pending;
      RescannedStep(store.rows, papers, i, files, pdfDir, status);
      store.SetStatus(paper.id, status);
      updated := updated + 1;
    }
  }

  lemma RescannedStep(rows: seq<Row>, papers: seq<Row>, i: nat, files: Files, pdfDir: string, status: Status)
    requires i < |papers| && status == RescanStatus(files, pdfDir, papers[i])
    ensures Rescanned(rows, papers[i..], files, pdfDir)
      == Rescanned(SetStatusOnly(rows, papers[i].id, status), papers[i + 1..], files, pdfDir)
  {
    assert papers[i..][0] == papers[i] && papers[i..][1..] == papers[i + 1..];
  }
}
