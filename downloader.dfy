/**
 * The PDF downloader of the metadata pipeline (utils/downloader.py): the
 * file name clean-up, the save path `base/conference/year/name.pdf`, the
 * skip-if-present rule, the bounded retry loop that keeps a file only when
 * it is non-empty, and the batch that drives each paper through
 * `downloading` to `completed` or `failed`. The disk is a map from the path
 * of each regular file to its size; the network is, per PDF link, the
 * outcome of each attempt.
 */
module Downloader {
  import opened Wrappers
  import opened Strings
  import opened Records
  import opened Seqs
  import opened Database
  import Fetcher

  /** The regular files on disk: path to size in bytes. */
  type Files = map<string, nat>

  /** POSIX `os.path.join(a, b)`: an absolute `b` replaces `a`, otherwise one `/` separates the two. */
  function PathJoin(a: string, b: string): (p: string)
    ensures StartsWith(b, "/") ==> p == b
    ensures !StartsWith(b, "/") ==> |a| <= |p| && p[..|a|] == a && EndsWith(p, b) && |p| <= |a| + 1 + |b|
  {
    if StartsWith(b, "/") then b
    else if a == [] || EndsWith(a, "/") then a + b
    else a + "/" + b
  }

  /** The characters Windows refuses in a file name, in the order the `replace` loop visits them. */
  const InvalidChars := "<>:\"/\\|?*"

  /** `c` is one of `InvalidChars`. */
  predicate IsInvalid(c: char)
  {
    c == '<' || c == '>' || c == ':' || c == '"' || c == '/' || c == '\\' || c == '|' || c == '?' || c == '*'
  }

  lemma InvalidCharsListed(c: char)
    ensures c in InvalidChars <==> IsInvalid(c)
  {
  }

  /** Every invalid character replaced by `_`. */
  function Scrubbed(s: string): string
  {
    seq(|s|, i requires 0 <= i < |s| => if IsInvalid(s[i]) then '_' else s[i])
  }

  /** The `replace` loop over the invalid characters, one character at a time. */
  method ReplaceInvalid(filename: string) returns (r: string)
    ensures r == Scrubbed(filename)
  {
    r := filename;
    for k := 0 to |InvalidChars|
      invariant |r| == |filename|
      invariant forall i :: 0 <= i < |r| ==> r[i] == if filename[i] in InvalidChars[..k] then '_' else filename[i]
    {
      r := ReplaceChar(r, InvalidChars[k], '_');
    }
    assert InvalidChars[..|InvalidChars|] == InvalidChars;
    forall i | 0 <= i < |r|
      ensures r[i] == Scrubbed(filename)[i]
    {
      InvalidCharsListed(filename[i]);
    }
  }

  /** `_sanitize_filename`: invalid characters replaced, cut to 200 characters, then stripped. */
  function Sanitized(filename: string): string
  {
    Strip(Take(Scrubbed(filename), 200))
  }

  method SanitizeFilename(filename: string) returns (r: string)
    ensures r == Sanitized(filename)
  {
    var scrubbed := ReplaceInvalid(filename);
    r := Strip(Take(scrubbed, 200));
  }

  /** No character of `s` is one Windows refuses. */
  predicate Clean(s: string)
  {
    forall c :: c in s ==> !IsInvalid(c)
  }

  lemma ScrubbedIsClean(s: string)
    ensures |Scrubbed(s)| == |s| && Clean(Scrubbed(s))
  {
    var t := Scrubbed(s);
    forall c | c in t
      ensures !IsInvalid(c)
    {
      var i :| 0 <= i < |t| && t[i] == c;
    }
  }

  lemma ScrubbedClean(s: string)
    requires Clean(s)
    ensures Scrubbed(s) == s
  {
    forall i | 0 <= i < |s|
      ensures Scrubbed(s)[i] == s[i]
    {
      assert s[i] in s;
    }
  }

  /** A sanitized name holds no invalid character, is at most 200 characters long and has no surrounding whitespace. */
  lemma SanitizedIsSafe(filename: string)
    ensures var r := Sanitized(filename);
      |r| <= 200 && (forall i :: 0 <= i < |r| ==> !IsInvalid(r[i]))
      && (r == [] || (!IsSpace(r[0]) && !IsSpace(r[|r| - 1])))
  {
    var sc := Scrubbed(filename);
    var t := Take(sc, 200);
    var r := Strip(t);
    ScrubbedIsClean(filename);
    StripFacts(t);
    StripWithin(t);
    forall i | 0 <= i < |r|
      ensures !IsInvalid(r[i])
    {
      assert r[i] in r;
      assert r[i] in sc by {
        assert r[i] in t;
        assert t <= sc;
      }
    }
  }

  /** Stripping a string that has no surrounding whitespace changes nothing. */
  lemma StripTrimmed(s: string)
    requires s == [] || (!IsSpace(s[0]) && !IsSpace(s[|s| - 1]))
    ensures Strip(s) == s
  {
    StripFacts(s);
    assert LStrip(s) == s;
  }

  /** Sanitizing is idempotent: a sanitized name is its own sanitized form. */
  lemma SanitizeIdempotent(filename: string)
    ensures Sanitized(Sanitized(filename)) == Sanitized(filename)
  {
    var r := Sanitized(filename);
    SanitizedIsSafe(filename);
    assert Clean(r) by {
      forall c | c in r
        ensures !IsInvalid(c)
      {
        var i :| 0 <= i < |r| && r[i] == c;
      }
    }
    ScrubbedClean(r);
    assert Take(r, 200) == r;
    StripTrimmed(r);
  }

  /** The file name: the sanitized name with `.pdf` appended unless it already ends so. */
  function PdfName(filename: string): (name: string)
    ensures EndsWith(name, ".pdf")
  {
    var safe := Sanitized(filename);
    if EndsWith(safe, ".pdf") then safe else safe + ".pdf"
  }

  /** The file name holds no `/`, so it names a file directly inside the year directory. */
  lemma PdfNameIsBaseName(filename: string)
    ensures var name := PdfName(filename);
      name != [] && forall i :: 0 <= i < |name| ==> name[i] != '/'
  {
    var safe := Sanitized(filename);
    SanitizedIsSafe(filename);
    assert Without(safe, '/');
    if !EndsWith(safe, ".pdf") {
      PdfSuffixPlain();
      WithoutConcat(safe, ".pdf", '/');
    }
  }

  lemma PdfSuffixPlain()
    ensures Without(".pdf", '/') && |".pdf"| == 4
  {
    var suffix := ".pdf";
    assert suffix == ['.', 'p', 'd', 'f'];
  }

  /** `os.path.join(base, conference, str(year), name)`. */
  function SavePath(base: string, conference: string, year: Sql, filename: string): string
  {
    PathJoin(PathJoin(PathJoin(base, conference), SqlStr(year)), PdfName(filename))
  }

  /**
   * With a base directory, a conference name and a year that are plain
   * relative path pieces, the file lands at `base/conference/year/name`.
   */
  lemma SavePathLayout(base: string, conference: string, year: Sql, filename: string)
    requires base != [] && !EndsWith(base, "/")
    requires conference != [] && !StartsWith(conference, "/") && !EndsWith(conference, "/")
    requires SqlStr(year) != [] && !StartsWith(SqlStr(year), "/") && !EndsWith(SqlStr(year), "/")
    ensures SavePath(base, conference, year, filename) == base + "/" + conference + "/" + SqlStr(year) + "/" + PdfName(filename)
  {
    var name := PdfName(filename);
    PdfNameIsBaseName(filename);
    assert !StartsWith(name, "/") by {
      assert name[0] != '/';
    }
    JoinThree(base, conference, SqlStr(year), name);
  }

  /** Joining a plain relative piece onto a directory not ending in a separator puts one separator between them. */
  lemma JoinPlain(a: string, b: string)
    requires a != [] && !EndsWith(a, "/") && !StartsWith(b, "/")
    ensures PathJoin(a, b) == a + "/" + b
    ensures b != [] && !EndsWith(b, "/") ==> !EndsWith(PathJoin(a, b), "/")
  {
    if b != [] {
      var p := a + "/" + b;
      assert p[|p| - 1] == b[|b| - 1];
    }
  }

  lemma JoinThree(a: string, b: string, c: string, d: string)
    requires a != [] && !EndsWith(a, "/")
    requires b != [] && !StartsWith(b, "/") && !EndsWith(b, "/")
    requires c != [] && !StartsWith(c, "/") && !EndsWith(c, "/")
    requires !StartsWith(d, "/")
    ensures PathJoin(PathJoin(PathJoin(a, b), c), d) == a + "/" + b + "/" + c + "/" + d
  {
    JoinPlain(a, b);
    JoinPlain(a + "/" + b, c);
    JoinPlain(a + "/" + b + "/" + c, d);
  }

  /**
   * One download attempt: the response was streamed into the file, which
   * then holds `size` bytes; or a `RequestException` (connection failure,
   * timeout, an HTTP error status, a broken stream) or an exception of
   * another kind was raised, `partial` being the number of bytes already in
   * the file when it had been opened.
   */
  datatype Transfer = Saved(size: nat) | RequestFailed(partial: Option<nat>) | OtherFailed(partial: Option<nat>)

  /** How a download ends: the path handed back, the disk, the sleeps requested, the attempts made. */
  datatype Run = Run(path: Option<string>, files: Files, sleeps: seq<int>, attempts: nat)

  /** The retry loop from attempt `a` on, writing to `path`. */
  function DownloadFrom(files: Files, path: string, net: nat -> Transfer, retryTimes: int, delay: int, a: nat): Run
    decreases retryTimes - a
  {
    if a >= retryTimes then Run(None, files, [], a)
    else
      match net(a)
      case Saved(size) =>
        if size > 0 then Run(Some(path), files[path := size], [], a + 1)
        else DownloadFrom(files - {path}, path, net, retryTimes, delay, a + 1)
      case RequestFailed(_) =>
        var rest := DownloadFrom(files - {path}, path, net, retryTimes, delay, a + 1);
        rest.(sleeps := (if a < retryTimes - 1 then [delay * (a + 1)] else []) + rest.sleeps)
      case OtherFailed(_) => Run(None, files - {path}, [], a + 1)
  }

  /**
   * The loop keeps a file only when it is non-empty, and it hands back the
   * path only then; after at least one attempt that did not end so, no file
   * is left at the path.
   */
  lemma {:induction false} DownloadFromResult(files: Files, path: string, net: nat -> Transfer, retryTimes: int, delay: int, a: nat)
    ensures var r := DownloadFrom(files, path, net, retryTimes, delay, a);
      a <= r.attempts
      && (r.path.Some? ==>
        r.path.value == path && path in r.files && r.files[path] > 0 && a < r.attempts
        && net(r.attempts - 1) == Saved(r.files[path]))
      && (r.path.None? && a < r.attempts ==> path !in r.files)
      && (r.attempts == a ==> r.files == files && r.path.None?)
    decreases retryTimes - a
  {
    if a < retryTimes && !(net(a).Saved? && net(a).size > 0) && !net(a).OtherFailed? {
      DownloadFromResult(files - {path}, path, net, retryTimes, delay, a + 1);
    }
  }

  /** No file other than the target path is created, removed or changed. */
  lemma {:induction false} DownloadFromFrame(files: Files, path: string, net: nat -> Transfer, retryTimes: int, delay: int, a: nat)
    ensures var r := DownloadFrom(files, path, net, retryTimes, delay, a);
      r.files - {path} == files - {path}
    decreases retryTimes - a
  {
    if a < retryTimes && !(net(a).Saved? && net(a).size > 0) && !net(a).OtherFailed? {
      DownloadFromFrame(files - {path}, path, net, retryTimes, delay, a + 1);
      assert files - {path} - {path} == files - {path};
    }
  }

  /**
   * At most `retry_times` attempts; every attempt but the last ended with an
   * empty file or a `RequestException`; the loop stops early only on a
   * non-empty file or an exception of another kind.
   */
  lemma {:induction false} DownloadFromAttempts(files: Files, path: string, net: nat -> Transfer, retryTimes: int, delay: int, a: nat)
    ensures var r := DownloadFrom(files, path, net, retryTimes, delay, a);
      a <= r.attempts && (r.attempts <= retryTimes || r.attempts == a)
      && (r.attempts == a <==> a >= retryTimes)
      && (forall j :: a <= j < r.attempts - 1 ==> net(j) == Saved(0) || net(j).RequestFailed?)
      && (a < r.attempts < retryTimes ==> (net(r.attempts - 1).Saved? && net(r.attempts - 1).size > 0) || net(r.attempts - 1).OtherFailed?)
    decreases retryTimes - a
  {
    if a < retryTimes && !(net(a).Saved? && net(a).size > 0) && !net(a).OtherFailed? {
      DownloadFromAttempts(files - {path}, path, net, retryTimes, delay, a + 1);
    }
  }

  /**
   * The sleeps: each follows a `RequestException` of attempt `j` that was
   * not the last attempt and lasts `retry_delay * (j + 1)`; there is none
   * after the last attempt.
   */
  lemma {:induction false} DownloadFromSleeps(files: Files, path: string, net: nat -> Transfer, retryTimes: int, delay: int, a: nat)
    ensures var r := DownloadFrom(files, path, net, retryTimes, delay, a);
      (r.attempts == a ==> r.sleeps == [])
      && (a < r.attempts ==> |r.sleeps| <= r.attempts - a - 1)
      && forall k :: 0 <= k < |r.sleeps| ==>
        exists j :: a <= j < r.attempts - 1 && net(j).RequestFailed? && r.sleeps[k] == delay * (j + 1)
    decreases retryTimes - a
  {
    if a < retryTimes && !(net(a).Saved? && net(a).size > 0) && !net(a).OtherFailed? {
      DownloadFromSleeps(files - {path}, path, net, retryTimes, delay, a + 1);
      DownloadFromAttempts(files - {path}, path, net, retryTimes, delay, a + 1);
      var rest := DownloadFrom(files - {path}, path, net, retryTimes, delay, a + 1);
      var r := DownloadFrom(files, path, net, retryTimes, delay, a);
      if net(a).RequestFailed? && a < retryTimes - 1 {
        assert r.sleeps == [delay * (a + 1)] + rest.sleeps;
        forall k | 0 <= k < |r.sleeps|
          ensures exists j :: a <= j < r.attempts - 1 && net(j).RequestFailed? && r.sleeps[k] == delay * (j + 1)
        {
          if k == 0 {
            assert net(a).RequestFailed? && r.sleeps[0] == delay * (a + 1);
          } else {
            assert r.sleeps[k] == rest.sleeps[k - 1];
          }
        }
      }
    }
  }

  /** The whole of `download`: an existing file is kept unless `force` is set, otherwise the retry loop runs. */
  function DownloadOutcome(s: Fetcher.Settings, base: string, conference: string, year: Sql, filename: string, force: bool,
                           files: Files, net: nat -> Transfer): Run
  {
    DownloadAt(s, SavePath(base, conference, year, filename), force, files, net)
  }

  /** `download` once the save path is known: an existing file is kept unless forced, otherwise the retry loop. */
  function DownloadAt(s: Fetcher.Settings, path: string, force: bool, files: Files, net: nat -> Transfer): Run
  {
    if path in files && !force then Run(Some(path), files, [], 0)
    else DownloadFrom(files, path, net, s.retryTimes, s.retryDelay, 0)
  }

  lemma DownloadAtFacts(s: Fetcher.Settings, path: string, force: bool, files: Files, net: nat -> Transfer)
    ensures var r := DownloadAt(s, path, force, files, net);
      (path in files && !force ==> r == Run(Some(path), files, [], 0))
      && (r.path.Some? ==> r.path.value == path && path in r.files)
      && (r.path.Some? && r.attempts > 0 ==> r.files[path] > 0)
      && (r.path.None? && r.attempts > 0 ==> path !in r.files)
      && (r.attempts == 0 ==> r.files == files)
      && (r.attempts <= s.retryTimes || r.attempts == 0)
      && r.files - {path} == files - {path}
  {
    if !(path in files && !force) {
      DownloadFromResult(files, path, net, s.retryTimes, s.retryDelay, 0);
      DownloadFromFrame(files, path, net, s.retryTimes, s.retryDelay, 0);
      DownloadFromAttempts(files, path, net, s.retryTimes, s.retryDelay, 0);
    }
  }

  /**
   * What `download` promises: a handed-back path is the save path and holds
   * a file, non-empty when it was downloaded; an existing file without
   * `force` is handed back with no attempt; no other file is touched; at
   * most `retry_times` attempts.
   */
  lemma DownloadOutcomeFacts(s: Fetcher.Settings, base: string, conference: string, year: Sql, filename: string, force: bool,
                             files: Files, net: nat -> Transfer)
    ensures var path := SavePath(base, conference, year, filename);
      var r := DownloadOutcome(s, base, conference, year, filename, force, files, net);
      (path in files && !force ==> r == Run(Some(path), files, [], 0))
      && (r.path.Some? ==> r.path.value == path && path in r.files)
      && (r.path.Some? && r.attempts > 0 ==> r.files[path] > 0)
      && (r.path.None? && r.attempts > 0 ==> path !in r.files)
      && (r.attempts == 0 ==> r.files == files)
      && (r.attempts <= s.retryTimes || r.attempts == 0)
      && r.files - {path} == files - {path}
  {
    DownloadAtFacts(s, SavePath(base, conference, year, filename), force, files, net);
  }

  /** The directory and file name `download` computes before anything else. */
  method MakeSavePath(base: string, conference: string, year: Sql, filename: string) returns (path: string)
    ensures path == SavePath(base, conference, year, filename)
  {
    var safe := SanitizeFilename(filename);
    if !EndsWith(safe, ".pdf") {
      safe := safe + ".pdf";
    }
    path := PathJoin(PathJoin(PathJoin(base, conference), SqlStr(year)), safe);
  }

  /** The `for attempt in range(retry_times)` loop of `download`, writing to `path`. */
  method Retry(files: Files, path: string, net: nat -> Transfer, retryTimes: int, delay: int)
    returns (r: Run)
    ensures r == DownloadFrom(files, path, net, retryTimes, delay, 0)
  {
    ghost var whole := DownloadFrom(files, path, net, retryTimes, delay, 0);
    var current := files;
    var sleeps := [];
    var attempt: nat := 0;
    while attempt < retryTimes
      invariant var rest := DownloadFrom(current, path, net, retryTimes, delay, attempt);
        whole == rest.(sleeps := sleeps + rest.sleeps)
      decreases retryTimes - attempt
    {
      var outcome := net(attempt);
      if outcome.Saved? && outcome.size > 0 {
        return Run(Some(path), current[path := outcome.size], sleeps, attempt + 1);
      } else if outcome.OtherFailed? {
        return Run(None, current - {path}, sleeps, attempt + 1);
      }
      RetryContinues(current, path, net, retryTimes, delay, attempt, whole, sleeps);
      current := current - {path};
      if outcome.RequestFailed? && attempt < retryTimes - 1 {
        sleeps := sleeps + [delay * (attempt + 1)];
      }
      attempt := attempt + 1;
    }
    r := Run(None, current, sleeps, attempt);
  }

  /** An attempt that neither succeeds nor raises an unexpected error hands over to the next one, after its sleep. */
  lemma RetryContinues(files: Files, path: string, net: nat -> Transfer, retryTimes: int, delay: int, a: nat,
                       whole: Run, sleeps: seq<int>)
    requires a < retryTimes && !(net(a).Saved? && net(a).size > 0) && !net(a).OtherFailed?
    requires var rest := DownloadFrom(files, path, net, retryTimes, delay, a);
      whole == rest.(sleeps := sleeps + rest.sleeps)
    ensures var rest := DownloadFrom(files - {path}, path, net, retryTimes, delay, a + 1);
      var slept := if net(a).RequestFailed? && a < retryTimes - 1 then sleeps + [delay * (a + 1)] else sleeps;
      whole == rest.(sleeps := slept + rest.sleeps)
  {
    var rest := DownloadFrom(files - {path}, path, net, retryTimes, delay, a + 1);
    if net(a).RequestFailed? && a < retryTimes - 1 {
      assert sleeps + ([delay * (a + 1)] + rest.sleeps) == (sleeps + [delay * (a + 1)]) + rest.sleeps;
    } else {
      assert sleeps + ([] + rest.sleeps) == sleeps + rest.sleeps;
    }
  }

  /** `download(url, conference, year, filename, force)`. */
  method Download(s: Fetcher.Settings, base: string, conference: string, year: Sql, filename: string, force: bool,
                  files: Files, net: nat -> Transfer)
    returns (r: Run)
    ensures r == DownloadOutcome(s, base, conference, year, filename, force, files, net)
  {
    var savePath := MakeSavePath(base, conference, year, filename);
    if savePath in files && !force {
      return Run(Some(savePath), files, [], 0);
    }
    r := Retry(files, savePath, net, s.retryTimes, s.retryDelay);
  }

  /** The `success`, `failed` and `skipped` counters of `batch_download`. */
  datatype BatchStats = BatchStats(success: nat, failed: nat, skipped: nat)

  /** What a batch has changed so far: the counters, both tables and the disk. */
  datatype Batch = Batch(stats: BatchStats, rows: seq<Row>, log: seq<LogEntry>, files: Files)

  /** The error message logged for a failed download. */
  const DownloadFailed := "下载失败"

  /**
   * One `update_download_status` call: the row update and the log append
   * happen together, or neither does when the statement fails.
   */
  function RowsWrite(rows: seq<Row>, id: int, status: Status, pdfPath: Option<string>, now: nat, fault: bool): seq<Row>
  {
    if fault then rows else SetDownloadStatus(rows, id, status, pdfPath, now)
  }

  function LogWrite(log: seq<LogEntry>, id: int, status: Status, error: Option<string>, now: nat, fault: bool): seq<LogEntry>
  {
    if fault then log else log + [LogEntry(id, status, error, now)]
  }

  /** The attempts at one PDF link. */
  function TransfersOf(net: (string, nat) -> Transfer, url: string): nat -> Transfer
  {
    (a: nat) => net(url, a)
  }

  /** The `download` call for one paper that has a link: its title as file name, no `force`. */
  function PaperRun(s: Fetcher.Settings, base: string, net: (string, nat) -> Transfer, files: Files, paper: Row): Run
    requires TruthyText(paper.pdfUrl)
  {
    DownloadOutcome(s, base, paper.conference, paper.year, paper.title, false, files, TransfersOf(net, paper.pdfUrl.value))
  }

  /**
   * One paper of `batch_download`, the `i`-th: skipped without a link;
   * otherwise marked `downloading`, downloaded, and marked `completed` with
   * its path or `failed` with the error message. `clock(i)` is the time of
   * its writes and `fault(i, status)` says whether the write of `status`
   * fails.
   */
  function BatchStep(s: Fetcher.Settings, base: string, net: (string, nat) -> Transfer, clock: nat -> nat,
                     fault: (nat, Status) -> bool, st: Batch, i: nat, paper: Row): Batch
  {
    if !TruthyText(paper.pdfUrl) then st.(stats := st.stats.(skipped := st.stats.skipped + 1))
    else
      var t := clock(i);
      var rows1 := RowsWrite(st.rows, paper.id, Downloading, None, t, fault(i, Downloading));
      var log1 := LogWrite(st.log, paper.id, Downloading, None, t, fault(i, Downloading));
      var run := PaperRun(s, base, net, st.files, paper);
      if TruthyText(run.path) then
        Batch(st.stats.(success := st.stats.success + 1),
              RowsWrite(rows1, paper.id, Completed, run.path, t, fault(i, Completed)),
              LogWrite(log1, paper.id, Completed, None, t, fault(i, Completed)), run.files)
      else
        Batch(st.stats.(failed := st.stats.failed + 1),
              RowsWrite(rows1, paper.id, Failed, None, t, fault(i, Failed)),
              LogWrite(log1, paper.id, Failed, Some(DownloadFailed), t, fault(i, Failed)), run.files)
  }

  /** The batch over `papers`, in order. */
  function BatchRun(s: Fetcher.Settings, base: string, net: (string, nat) -> Transfer, clock: nat -> nat,
                    fault: (nat, Status) -> bool, init: Batch, papers: seq<Row>): Batch
    decreases |papers|
  {
    if papers == [] then init
    else
      BatchStep(s, base, net, clock, fault,
                BatchRun(s, base, net, clock, fault, init, papers[..|papers| - 1]), |papers| - 1, papers[|papers| - 1])
  }

  lemma BatchRunStep(s: Fetcher.Settings, base: string, net: (string, nat) -> Transfer, clock: nat -> nat,
                     fault: (nat, Status) -> bool, init: Batch, papers: seq<Row>, i: nat)
    requires i < |papers|
    ensures BatchRun(s, base, net, clock, fault, init, papers[..i + 1])
      == BatchStep(s, base, net, clock, fault, BatchRun(s, base, net, clock, fault, init, papers[..i]), i, papers[i])
  {
    assert papers[..i + 1][..i] == papers[..i];
  }

  predicate HasNoLink(paper: Row)
  {
    !HasLink(paper)
  }

  /** The counters add up to the number of papers, and `skipped` counts exactly the papers without a link. */
  lemma {:induction false} BatchCountsAddUp(s: Fetcher.Settings, base: string, net: (string, nat) -> Transfer, clock: nat -> nat,
                                            fault: (nat, Status) -> bool, papers: seq<Row>, rows: seq<Row>, log: seq<LogEntry>, files: Files)
    ensures var r := BatchRun(s, base, net, clock, fault, Batch(BatchStats(0, 0, 0), rows, log, files), papers).stats;
      r.success + r.failed + r.skipped == |papers| && r.skipped == Count(papers, HasNoLink)
    decreases |papers|
  {
    if papers != [] {
      var front := papers[..|papers| - 1];
      BatchCountsAddUp(s, base, net, clock, fault, front, rows, log, files);
      CountAppend(front, [papers[|papers| - 1]], HasNoLink);
      assert front + [papers[|papers| - 1]] == papers;
    }
  }

  /**
   * A log entry the batch writes for `paper`: the paper has a link, the
   * status is `downloading`, `completed` or `failed`, and the error message
   * goes with `failed` alone.
   */
  predicate EntryFor(e: LogEntry, paper: Row)
  {
    e.paperId == paper.id && TruthyText(paper.pdfUrl)
    && (e.status == Downloading || e.status == Completed || e.status == Failed)
    && (e.error.Some? <==> e.status == Failed)
    && (e.status == Failed ==> e.error == Some(DownloadFailed))
  }

  /** One paper only appends to the log, and only entries for itself; a skipped paper appends nothing. */
  lemma StepLogEntries(s: Fetcher.Settings, base: string, net: (string, nat) -> Transfer, clock: nat -> nat,
                       fault: (nat, Status) -> bool, st: Batch, i: nat, paper: Row)
    ensures var r := BatchStep(s, base, net, clock, fault, st, i, paper);
      |st.log| <= |r.log| && r.log[..|st.log|] == st.log
      && (!TruthyText(paper.pdfUrl) ==> r.log == st.log)
      && forall k :: |st.log| <= k < |r.log| ==> EntryFor(r.log[k], paper)
  {
    if TruthyText(paper.pdfUrl) {
      var t := clock(i);
      var run := PaperRun(s, base, net, st.files, paper);
      var e1 := LogEntry(paper.id, Downloading, None, t);
      var e2 := if TruthyText(run.path) then LogEntry(paper.id, Completed, None, t)
                else LogEntry(paper.id, Failed, Some(DownloadFailed), t);
      var end := if TruthyText(run.path) then Completed else Failed;
      BatchStepLog(s, base, net, clock, fault, st, i, paper);
      assert EntryFor(e1, paper) && EntryFor(e2, paper);
      TwoLogWrites(st.log, e1, e2, fault(i, Downloading), fault(i, end), paper);
    }
  }

  /** The log writes of one paper with a link: `downloading`, then `completed` or `failed` as the download went. */
  lemma BatchStepLog(s: Fetcher.Settings, base: string, net: (string, nat) -> Transfer, clock: nat -> nat,
                     fault: (nat, Status) -> bool, st: Batch, i: nat, paper: Row)
    requires TruthyText(paper.pdfUrl)
    ensures var t := clock(i);
      var ok := TruthyText(PaperRun(s, base, net, st.files, paper).path);
      var end := if ok then Completed else Failed;
      var e2 := if ok then LogEntry(paper.id, Completed, None, t) else LogEntry(paper.id, Failed, Some(DownloadFailed), t);
      var log1 := if fault(i, Downloading) then st.log else st.log + [LogEntry(paper.id, Downloading, None, t)];
      BatchStep(s, base, net, clock, fault, st, i, paper).log == if fault(i, end) then log1 else log1 + [e2]
  {
  }

  /** The log after the `downloading` write and the final write of one paper. */
  lemma TwoLogWrites(log: seq<LogEntry>, e1: LogEntry, e2: LogEntry, f1: bool, f2: bool, paper: Row)
    requires EntryFor(e1, paper) && EntryFor(e2, paper)
    ensures var log1 := if f1 then log else log + [e1];
      var r := if f2 then log1 else log1 + [e2];
      |log| <= |r| && r[..|log|] == log && forall k :: |log| <= k < |r| ==> EntryFor(r[k], paper)
  {
    var log1 := if f1 then log else log + [e1];
    var r := if f2 then log1 else log1 + [e2];
    assert r[..|log|] == log by {
      assert r[..|log1|] == log1;
      assert log1[..|log|] == log;
    }
    forall k | |log| <= k < |r|
      ensures EntryFor(r[k], paper)
    {
      if k < |log1| {
        assert r[k] == log1[k] == e1;
      } else {
        assert r[k] == e2;
      }
    }
  }

  /**
   * The batch only appends to the log, and every entry it appends is one
   * that `EntryFor` allows for one of the papers.
   */
  lemma {:induction false} BatchLogEntries(s: Fetcher.Settings, base: string, net: (string, nat) -> Transfer, clock: nat -> nat,
                                           fault: (nat, Status) -> bool, papers: seq<Row>, init: Batch)
    ensures var r := BatchRun(s, base, net, clock, fault, init, papers);
      |init.log| <= |r.log| && r.log[..|init.log|] == init.log
      && forall k :: |init.log| <= k < |r.log| ==> LoggedFor(r.log[k], papers)
    decreases |papers|
  {
    if papers != [] {
      var n := |papers| - 1;
      var front := papers[..n];
      BatchLogEntries(s, base, net, clock, fault, front, init);
      var mid := BatchRun(s, base, net, clock, fault, init, front);
      StepLogEntries(s, base, net, clock, fault, mid, n, papers[n]);
      EntriesExtend(papers, front, init.log, mid.log, BatchRun(s, base, net, clock, fault, init, papers).log);
    }
  }

  /** `e` is an entry the batch may write for one of `papers`. */
  predicate LoggedFor(e: LogEntry, papers: seq<Row>)
  {
    exists j :: 0 <= j < |papers| && EntryFor(e, papers[j])
  }

  /** Entries for the earlier papers followed by entries for the last one are entries for some paper of the batch. */
  lemma EntriesExtend(papers: seq<Row>, front: seq<Row>, initLog: seq<LogEntry>, midLog: seq<LogEntry>, log: seq<LogEntry>)
    requires papers != [] && front == papers[..|papers| - 1]
    requires |initLog| <= |midLog| && midLog[..|initLog|] == initLog
    requires forall k :: |initLog| <= k < |midLog| ==> LoggedFor(midLog[k], front)
    requires |midLog| <= |log| && log[..|midLog|] == midLog
    requires forall k :: |midLog| <= k < |log| ==> EntryFor(log[k], papers[|papers| - 1])
    ensures |initLog| <= |log| && log[..|initLog|] == initLog
    ensures forall k :: |initLog| <= k < |log| ==> LoggedFor(log[k], papers)
  {
    assert log[..|initLog|] == midLog[..|initLog|];
    forall k | |initLog| <= k < |log|
      ensures LoggedFor(log[k], papers)
    {
      if k < |midLog| {
        assert log[k] == midLog[k];
        var j :| 0 <= j < |front| && EntryFor(midLog[k], front[j]);
        assert papers[j] == front[j];
      } else {
        assert EntryFor(log[k], papers[|papers| - 1]);
      }
    }
  }

  /**
   * The log of one paper with a link whose writes succeed: `downloading`,
   * then `completed` without an error or `failed` with the error message.
   */
  lemma PaperLog(s: Fetcher.Settings, base: string, net: (string, nat) -> Transfer, clock: nat -> nat,
                 fault: (nat, Status) -> bool, st: Batch, i: nat, paper: Row)
    requires TruthyText(paper.pdfUrl)
    requires !fault(i, Downloading) && !fault(i, Completed) && !fault(i, Failed)
    ensures var r := BatchStep(s, base, net, clock, fault, st, i, paper);
      var t := clock(i);
      r.log == st.log + [LogEntry(paper.id, Downloading, None, t), LogEntry(paper.id, Completed, None, t)]
      || r.log == st.log + [LogEntry(paper.id, Downloading, None, t), LogEntry(paper.id, Failed, Some(DownloadFailed), t)]
  {
    var t := clock(i);
    var ok := TruthyText(PaperRun(s, base, net, st.files, paper).path);
    var e1 := LogEntry(paper.id, Downloading, None, t);
    var e2 := if ok then LogEntry(paper.id, Completed, None, t) else LogEntry(paper.id, Failed, Some(DownloadFailed), t);
    BatchStepLog(s, base, net, clock, fault, st, i, paper);
    AppendTwo(st.log, e1, e2);
  }

  lemma AppendTwo<T>(xs: seq<T>, a: T, b: T)
    ensures (xs + [a]) + [b] == xs + [a, b]
  {
  }

  /** A handed-back path is never empty, so `if pdf_path` is the same test as `is not None`. */
  lemma SavePathTruthy(base: string, conference: string, year: Sql, filename: string)
    ensures |SavePath(base, conference, year, filename)| >= 4
  {
    var name := PdfName(filename);
    var dir := PathJoin(PathJoin(base, conference), SqlStr(year));
    assert |name| >= 4;
    assert |PathJoin(dir, name)| >= |name|;
  }

  /**
   * The row of one paper with a link whose writes succeed ends `completed`
   * with the path of a file now on disk, non-empty unless it was there
   * before, or ends `failed`; the download status of every other row is
   * left as it was.
   */
  lemma PaperRows(s: Fetcher.Settings, base: string, net: (string, nat) -> Transfer, clock: nat -> nat,
                  fault: (nat, Status) -> bool, st: Batch, i: nat, paper: Row)
    requires TruthyText(paper.pdfUrl)
    requires !fault(i, Downloading) && !fault(i, Completed) && !fault(i, Failed)
    ensures var r := BatchStep(s, base, net, clock, fault, st, i, paper);
      var path := SavePath(base, paper.conference, paper.year, paper.title);
      |r.rows| == |st.rows|
      && (forall k :: 0 <= k < |st.rows| && st.rows[k].id != paper.id ==> r.rows[k] == st.rows[k])
      && forall k :: 0 <= k < |st.rows| && st.rows[k].id == paper.id ==>
        (r.rows[k].status == Completed || r.rows[k].status == Failed)
        && (r.rows[k].status == Completed ==>
              r.rows[k].pdfPath == Some(path) && path in r.files && (path !in st.files ==> r.files[path] > 0))
  {
    var t := clock(i);
    var run := PaperRun(s, base, net, st.files, paper);
    var ok := TruthyText(run.path);
    var status := if ok then Completed else Failed;
    var pdfPath := if ok then run.path else None;
    var r := BatchStep(s, base, net, clock, fault, st, i, paper);
    assert r.rows == SetDownloadStatus(SetDownloadStatus(st.rows, paper.id, Downloading, None, t), paper.id, status, pdfPath, t);
    assert r.files == run.files;
    MarkedTwice(st.rows, paper.id, t, status, pdfPath);
    DownloadOutcomeFacts(s, base, paper.conference, paper.year, paper.title, false, st.files, TransfersOf(net, paper.pdfUrl.value));
    SavePathTruthy(base, paper.conference, paper.year, paper.title);
  }

  /** Marking a row `downloading` and then with `status` leaves it as the second write says. */
  lemma MarkedTwice(rows: seq<Row>, id: int, t: nat, status: Status, pdfPath: Option<string>)
    ensures var r := SetDownloadStatus(SetDownloadStatus(rows, id, Downloading, None, t), id, status, pdfPath, t);
      |r| == |rows|
      && (forall k :: 0 <= k < |rows| && rows[k].id != id ==> r[k] == rows[k])
      && forall k :: 0 <= k < |rows| && rows[k].id == id ==>
        r[k].status == status && (TruthyText(pdfPath) ==> r[k].pdfPath == pdfPath)
  {
    var mid := SetDownloadStatus(rows, id, Downloading, None, t);
    assert forall k :: 0 <= k < |rows| ==> mid[k].id == rows[k].id;
  }

  /**
   * `batch_download(papers, db_manager)`. `net(url, k)` is the outcome of
   * the `k`-th attempt at `url`.
   */
  method BatchDownload(store: PaperStore, s: Fetcher.Settings, base: string, papers: seq<Row>, files: Files,
                       net: (string, nat) -> Transfer, clock: nat -> nat, fault: (nat, Status) -> bool)
    returns (stats: BatchStats, files': Files)
    requires store.Valid()
    modifies store
    ensures store.Valid() && store.lastId == old(store.lastId)
    ensures Batch(stats, store.rows, store.log, files')
      == BatchRun(s, base, net, clock, fault, Batch(BatchStats(0, 0, 0), old(store.rows), old(store.log), files), papers)
  {
    ghost var init := Batch(BatchStats(0, 0, 0), store.rows, store.log, files);
    stats := BatchStats(0, 0, 0);
    files' := files;
    for i := 0 to |papers|
      invariant store.Valid() && store.lastId == old(store.lastId)
      invariant Batch(stats, store.rows, store.log, files') == BatchRun(s, base, net, clock, fault, init, papers[..i])
    {
      BatchRunStep(s, base, net, clock, fault, init, papers, i);
      var paper := papers[i];
      if !TruthyText(paper.pdfUrl) {
        stats := stats.(skipped := stats.skipped + 1);
      } else {
        store.UpdateDownloadStatus(paper.id, Downloading, None, None, clock(i), fault(i, Downloading));
        var run := Download(s, base, paper.conference, paper.year, paper.title, false, files',
                            TransfersOf(net, paper.pdfUrl.value));
        files' := run.files;
        if TruthyText(run.path) {
          store.UpdateDownloadStatus(paper.id, Completed, run.path, None, clock(i), fault(i, Completed));
          stats := stats.(success := stats.success + 1);
        } else {
          store.UpdateDownloadStatus(paper.id, Failed, None, Some(DownloadFailed), clock(i), fault(i, Failed));
          stats := stats.(failed := stats.failed + 1);
        }
      }
    }
    assert papers[..|papers|] == papers;
  }
}
