# paper-collect in Dafny

paper-collect gathers paper metadata from several sources:

- the IACR conference programs (CRYPTO, EUROCRYPT, ASIACRYPT);
- the DBLP search API;
- the pages of the four security venues (USENIX Security, NDSS, IEEE S&P, CCS);
- Semantic Scholar, for abstracts.

It brings every source's records into one paper shape and keeps them in a SQLite `papers` table with a `download_log`. It then downloads the PDFs, retrying failed transfers and tracking each paper's download status.

This project models that core and proves what it promises:

- **Record shaping.** How each source adapter turns its JSON or page into records.
- **The store.** The table's constraints (NOT NULL title and conference, UNIQUE `dblp_key`, AUTOINCREMENT ids, default status `pending`) and its updates.
- **Retrying.** The bounded retry loops of the HTTP layer and of the downloader, with their linear backoff.
- **Naming files.** File-name sanitisation and save-path construction.
- **Downloading.** The per-paper status machine and the batch counters.
- **Enrichment.** The DOI-then-title lookup and the patch it writes.
- **The collector's commands.** Ingest, download, retry and enrich.
- **Configuration.** The nested settings lookup.

Modules, one per source file of the core:

| module | file | what it holds |
|---|---|---|
| `Wrappers`, `Seqs`, `Strings`, `PyJson` | — | Option/Result; filters, folds and concatenation; Python string methods; Python values (`None`, bool, int, str, list, dict) with `get`, `in`, `str`, iteration and truthiness |
| `Records` | utils/database.py | the paper record handed between components, the row of the `papers` table, the SQLite binding and column affinities |
| `Fetcher` | crawlers/base_crawler.py | crawler settings, the `fetch` retry loop, `_fetch_url` |
| `Iacr` | crawlers/iacr_crawler.py | the program walker and the talk-to-paper rule |
| `Dblp` | crawlers/dblp_crawler.py | the hit parser, the year fan-out, `search_paper` |
| `Security` | crawlers/security_crawler.py | page selection and the four venue parsers |
| `Scholar` | crawlers/semantic_scholar_crawler.py | the lookup combinator and `batch_enrich_papers` |
| `Database` | utils/database.py | the table functions and the `PaperStore` class |
| `Downloader` | utils/downloader.py | sanitising, the save path, the download retry loop, `batch_download` |
| `PaperTools` | paper_tools.py | the PDF link generator, the stand-alone downloader, the status rescan |
| `Config` | utils/config.py | `get_setting`, `get_all_conferences`, `get_conference_config` |
| `Collector` | main.py | `collect_metadata`, `download_pdfs`, `retry_failed_downloads`, `enrich_abstracts` |

How the outside world is represented:

- **Network.** Each request's attempts come from a function argument.
  - An HTTP attempt is a reply with its status code, a `RequestException`, or another exception.
  - A PDF transfer either saves a file of some size, fails with a `RequestException`, or fails with another exception.
- **Disk.** The filesystem is a map from path to file size.
- **Time.** Clocks are parameters, and sleeps are recorded as the list of delays requested.
- **Store writes.** A failing store write is a `fault` parameter.

Every loop of the source is a method with invariants. Each such method is proved equal to a function, and the properties are proved as lemmas about that function. Objects that change in place are classes: the store is `Database.PaperStore`, holding its rows, its log and its AUTOINCREMENT counter.

## Model

| member | source | states |
|---|---|---|
| Records.Bind | utils/database.py:107-122 | a list or dict cannot be bound (the insert fails); `None` binds NULL; strings and ints bind as themselves |
| Records.TextAffinity | utils/database.py:49-62 | a TEXT column stores ints as their decimal text and NULL as NULL |
| Records.IntegerAffinity | utils/database.py:52 | the INTEGER `year` column turns integer-looking text into an int, keeps other text, keeps NULL |
| Fetcher.Setting | crawlers/base_crawler.py:26-28 | `config.get(key, default)`: the configured value when present, the default otherwise |
| Fetcher.SettingsFrom | crawlers/base_crawler.py:26-28 | an empty config gives timeout 30, 3 attempts, delay 2; each configured key wins |
| Fetcher.VerbOf | crawlers/base_crawler.py:55-58 | GET exactly when the method upper-cases to `GET`, POST otherwise |
| Fetcher.Backoff | crawlers/base_crawler.py:66-67 | the k-th sleep is `retry_delay * (k + 1)` |
| Fetcher.FetchOutcome | crawlers/base_crawler.py:51-70 | at most `retry_times` attempts; a response is the first one passing `raise_for_status` after only retryable failures; another exception escapes at once; `None` after `retry_times` retryable failures or when `retry_times <= 0` |
| Fetcher.Fetch | crawlers/base_crawler.py:39-70 | the loop ends as `FetchFrom` says, with the verb of `VerbOf` and the sleeps of `Backoff` (none after the last attempt) |
| Fetcher.FetchUrl | crawlers/base_crawler.py:88-101 | the response text, `None` without a response, an escaping exception otherwise |
| Fetcher.FetchAt | crawlers/base_crawler.py:39-70 | `fetch(url)` of one request of a crawler ends as `Outcome` says |
| Iacr.ProgramPage | crawlers/iacr_crawler.py:19-23 | a page exists exactly for CRYPTO, ASIACRYPT and EUROCRYPT, and it is their `currentProgram.php` |
| Iacr.JoinItems | crawlers/iacr_crawler.py:128 | `'; '.join` succeeds exactly when every item is a string, and raises TypeError otherwise |
| Iacr.StripValue | crawlers/iacr_crawler.py:135 | only a string can be stripped; anything else raises AttributeError |
| Iacr.LinkOf | crawlers/iacr_crawler.py:142-146 | a falsy `paperUrl` gives no url; a truthy one is the url, and with `doi.org` in it the DOI is the text after the last `doi.org/` |
| Iacr.EprintPdf | crawlers/iacr_crawler.py:158 | `eprint + '.pdf'` works exactly for a string |
| Iacr.Optional | crawlers/iacr_crawler.py:161-168 | an optional key is set exactly when its value is truthy |
| Iacr.ExtraOf | crawlers/iacr_crawler.py:132-172 | the first extra key is `paper_id`, holding the talk's `paperId` |
| Iacr.ExtractPaper | crawlers/iacr_crawler.py:119-174 | a non-dict talk raises; no truthy `paperId` gives no paper; with a string title, no paper exactly when the stripped title is empty |
| Iacr.ExtractedPaperFields | crawlers/iacr_crawler.py:132-174 | a kept talk has a non-empty stripped title, the stripped abstract, the crawled conference and year, and its `paperId` |
| Iacr.ExtractedAuthors | crawlers/iacr_crawler.py:126-130 | a list of authors (all strings) is joined with `; `; any other value goes through `str` |
| Iacr.ExtractedLinks | crawlers/iacr_crawler.py:141-158 | a `doi.org` link is url, PDF link and DOI source; otherwise no DOI, and the PDF link is the eprint link with `.pdf`, or absent |
| Iacr.LinkRule | crawlers/iacr_crawler.py:142-158 | the same URL/DOI/PDF rule, stated on `paperUrl` and `eprint` alone |
| Iacr.TalkPapers | crawlers/iacr_crawler.py:112-115 | a talk yields at most one paper |
| Iacr.SessionPapers | crawlers/iacr_crawler.py:106-109 | a session whose lower-cased title contains lunch/break/dinner/reception/registration/opening/closing yields nothing |
| Iacr.ParseSession | crawlers/iacr_crawler.py:112-115 | the talk loop gives the session's papers in talk order |
| Iacr.ParseTimeslot | crawlers/iacr_crawler.py:104-115 | the session loop gives the timeslot's papers in order |
| Iacr.ParseDay | crawlers/iacr_crawler.py:103-115 | the timeslot loop gives the day's papers in order |
| Iacr.ParseProgram | crawlers/iacr_crawler.py:99-117 | the day loop gives the program's papers in day, timeslot, session, talk order |
| Iacr.Crawl | crawlers/iacr_crawler.py:31-65 | an unsupported conference gives `[]` and no request; otherwise the page plus `?v=<stamp>` is fetched; no response or undecodable JSON gives `[]`; else the parsed program |
| Iacr.SessionStamped | crawlers/iacr_crawler.py:112-135 | every paper of a session carries the conference, the year and a non-empty title |
| Iacr.TimeslotStamped | crawlers/iacr_crawler.py:104-115 | the same for a timeslot |
| Iacr.DayStamped | crawlers/iacr_crawler.py:103-115 | the same for a day |
| Iacr.ProgramStamped | crawlers/iacr_crawler.py:102-117 | every paper of the program carries the conference and year it was crawled for and a non-empty title |
| Iacr.SessionBound | crawlers/iacr_crawler.py:112-115 | a session yields no more papers than it has talks |
| Dblp.DblpSettingsFrom | crawlers/dblp_crawler.py:23-24 | `api_url` defaults to the public endpoint and `max_results` to 1000 |
| Dblp.YearQuery | crawlers/dblp_crawler.py:62-67 | the query is `"<key> <year>"`, with `h = max_results` |
| Dblp.AuthorName | crawlers/dblp_crawler.py:110-111 | a dict entry gives its `text` (default `''`); anything else gives `str(a)` |
| Dblp.AuthorEntries | crawlers/dblp_crawler.py:107-109 | a single author dict becomes a list of one |
| Dblp.AuthorList | crawlers/dblp_crawler.py:107-109 | `info.authors.author` with each missing level defaulting to empty, so no `authors` gives no entries |
| Dblp.AuthorNames | crawlers/dblp_crawler.py:107-111 | one name per author entry, in order, and it fails exactly when some entry has no usable name |
| Dblp.NoAuthorsEmptyString | crawlers/dblp_crawler.py:107-111 | a hit without authors gets the empty author string |
| Dblp.FirstEdition | crawlers/dblp_crawler.py:115-117 | a list `ee` becomes its first element, or `''` when empty |
| Dblp.HitPaper | crawlers/dblp_crawler.py:104-128 | title, DOI and key default to `''`; year defaults to the queried year; authors are the `'; '` join of the author names; the PDF link is the first electronic edition when it ends in `.pdf`, else none; the hit fails exactly when an author name or the edition cannot be used |
| Dblp.HitList | crawlers/dblp_crawler.py:97-99 | the hits are found only inside a dict answer; a missing `result`, `hits` or `hit` gives no hits; otherwise the iteration of `result.hits.hit` |
| Dblp.ResponsePapers | crawlers/dblp_crawler.py:95-132 | exactly one paper per hit, in hit order |
| Dblp.ParseResponse | crawlers/dblp_crawler.py:103-130 | the hit loop computes `ResponsePapers` |
| Dblp.YearPapers | crawlers/dblp_crawler.py:72-82 | only an exception escaping `fetch` escapes; no response or a parse failure gives `[]` |
| Dblp.FetchPapersByYear | crawlers/dblp_crawler.py:50-82 | the method computes `YearPapers` |
| Dblp.CrawlYears | crawlers/dblp_crawler.py:39-46 | a truthy year is queried alone; otherwise 2020 to 2024 in order |
| Dblp.Crawl | crawlers/dblp_crawler.py:26-48 | the papers of every queried year, concatenated in year order |
| Dblp.SearchPaper | crawlers/dblp_crawler.py:134-162 | the first parsed hit of the title query; `None` without a response, without hits or on a parse failure; an exception escaping `fetch` escapes |
| Security.Template | crawlers/security_crawler.py:18-23 | exactly the four venues have a template |
| Security.SpecialPage | crawlers/security_crawler.py:26-29 | the only special page is USENIX Security 2025 |
| Security.LastTwo | crawlers/security_crawler.py:59 | `str(year)[-2:]` is the last two characters, or the whole of a shorter string |
| Security.PageUrl | crawlers/security_crawler.py:46-61 | no page for an unknown venue; a special page overrides; otherwise a two-digit year before 2025 and the full year from 2025 on |
| Security.SpecialPageOverrides | crawlers/security_crawler.py:51-53 | the override changes the page: the template filled with 2025 names another URL |
| Security.Absolute | crawlers/security_crawler.py:103-104 | a relative href gets the venue host prefixed; an empty or `http` one is kept |
| Security.FirstCut | crawlers/security_crawler.py:112-113 | the leftmost case-insensitive match of the marker on the last line |
| Security.CutFrom | crawlers/security_crawler.py:112-113 | `re.sub(marker + '.*$', '')` keeps the text before the leftmost match |
| Security.CutLeavesNoMarker | crawlers/security_crawler.py:112-113 | on one line, the substitution leaves no match of the marker |
| Security.UsenixAuthors | crawlers/security_crawler.py:109-114 | the cleaned author text is never longer than the raw text |
| Security.VenuePaper | crawlers/security_crawler.py:116-124 | every venue record has the fixed venue name, the year and empty abstract and DOI |
| Security.UsenixPaper | crawlers/security_crawler.py:96-126 | a heading without a link is skipped; the PDF link is the absolute paper URL |
| Security.NdssPaper | crawlers/security_crawler.py:136-163 | every heading gives a record, with an empty PDF link |
| Security.IeeeSpPaper | crawlers/security_crawler.py:176-199 | a bold text under 10 characters is skipped; the authors are the parent text with the first occurrence of the title removed, stripped |
| Security.CcsPaper | crawlers/security_crawler.py:209-245 | an item without a heading is skipped; an author element wins over the next paragraph |
| Security.ParseUsenix | crawlers/security_crawler.py:90-128 | the heading loop keeps the records of linked headings, in order |
| Security.ParseNdss | crawlers/security_crawler.py:130-165 | the heading loop gives one record per heading, in order |
| Security.ParseIeeeSp | crawlers/security_crawler.py:167-201 | the bold loop keeps the long enough texts, in order |
| Security.ParseCcs | crawlers/security_crawler.py:203-247 | the item loop keeps the items with a heading, in order |
| Security.Crawl | crawlers/security_crawler.py:35-88 | an unknown venue gives `[]` without fetching; a failed or empty fetch gives `[]`; else the venue's parser runs |
| Security.PagePapersStamped | crawlers/security_crawler.py:116-243 | every record carries the venue, the year and empty abstract and DOI |
| Scholar.EnrichmentOf | crawlers/semantic_scholar_crawler.py:59-63 | a response without `abstract` gives no abstract |
| Scholar.DoiResult | crawlers/semantic_scholar_crawler.py:27-71 | an empty DOI gives `None` with no request; the DOI is stripped; only an exception escaping `fetch` escapes |
| Scholar.FirstHit | crawlers/semantic_scholar_crawler.py:99-113 | a hit exists only for a dict answer with a non-empty `data` list |
| Scholar.TitleResult | crawlers/semantic_scholar_crawler.py:73-121 | an empty title gives `None` with no request |
| Scholar.LookupResult | crawlers/semantic_scholar_crawler.py:123-147 | any result has a truthy abstract; a DOI answer with an abstract is taken before the title search |
| Scholar.LookupFallsBackToTitle | crawlers/semantic_scholar_crawler.py:123-147 | a raise of the DOI lookup escapes; without a DOI, or when the DOI answer has no abstract, the title search decides, kept only with an abstract |
| Scholar.LookupRequests | crawlers/semantic_scholar_crawler.py:133-147 | at most two requests; none without a DOI and a title |
| Scholar.Lookup | crawlers/semantic_scholar_crawler.py:123-147 | the method gives `LookupResult` and sends `LookupRequests` |
| Scholar.NoteParts | crawlers/semantic_scholar_crawler.py:194-198 | the notes are empty exactly when neither citation count nor date is truthy |
| Scholar.PatchFor | crawlers/semantic_scholar_crawler.py:185-200 | the patch always sets the abstract; the DOI only when found and missing; the notes only when there are some, joined by `; `; nothing else |
| Scholar.EnrichStep | crawlers/semantic_scholar_crawler.py:169-212 | each paper counts once; a paper with an abstract is skipped and nothing changes; otherwise no abstract found is a failure with no change, and a found abstract is written with `update_paper`, counting a success exactly when the update answers true |
| Scholar.EnrichCountsAddUp | crawlers/semantic_scholar_crawler.py:161-212 | success + failed + skipped is the number of papers, and skipped counts exactly the papers that have an abstract |
| Scholar.EnrichTouchesOnlyPatchedColumns | crawlers/semantic_scholar_crawler.py:185-202 | enrichment changes only abstract, DOI and notes, and adds or removes no row |
| Scholar.BatchEnrich | crawlers/semantic_scholar_crawler.py:149-215 | the store ends as `EnrichAll` says, the log is untouched, and an escaping exception stops the batch |
| Database.TextCell | utils/database.py:107-122 | a TEXT cell is NULL exactly for `None`, and a string is stored as itself |
| Database.YearCell | utils/database.py:52-116 | the year cell keeps an int |
| Database.TryInsert | utils/database.py:93-133 | refused exactly when a value cannot be bound, the title or conference is missing, or a non-NULL `dblp_key` is taken; a new row has id `lastId + 1`, status pending, no `pdf_path`, and the bound title, conference, year, authors, abstract, url, PDF url, DOI and key of the paper |
| Database.InsertKeepsWellFormed | utils/database.py:48-61 | an insert keeps ids increasing and non-NULL keys unique, and the new id exceeds every earlier one |
| Database.ReinsertRefused | utils/database.py:58-129 | inserting the same keyed paper twice is refused the second time |
| Database.FindRow | utils/database.py:161 | finds the row with the given id, or none exists |
| Database.PatchRow | utils/database.py:156-162 | a patch changes only its columns plus `updated_at`, and fails when it nulls title or conference |
| Database.PatchedValues | utils/database.py:156-162 | every patched column holds the bound value after the column's affinity |
| Database.UpdateRows | utils/database.py:137-172 | an empty patch gives False and no change; an unbindable value gives False; an unknown id gives True and no change; a found id gives True and the patched row unless a NOT NULL or UNIQUE constraint fails, which gives False and no change; only the patched row's patched columns change |
| Database.UpdateKeepsWellFormed | utils/database.py:137-172 | an update keeps ids and key uniqueness |
| Database.SetDownloadStatus | utils/database.py:249-260 | only the row with the id changes: its status and `updated_at`, and its `pdf_path` only for a truthy path |
| Database.SetStatusOnly | paper_tools.py:249-250 | a bare status update changes that row's status and no other column, not even `updated_at`, and leaves every other row as it was |
| Database.SameKeysKeepWellFormed | utils/database.py:48-61 | changes that keep ids and keys keep the invariant |
| Database.PendingDownloads | utils/database.py:212-232 | exactly the pending rows with a PDF link; with a positive `limit`, the first `min(limit, matches)` of them |
| Database.PapersByConference | utils/database.py:183-210 | the rows of the conference (and year, when truthy); a NULL conference matches nothing |
| Database.GetStatistics | utils/database.py:275-306 | the total is the row count; the per-conference and per-status counts each list a value once, sum to the total and count the rows with that value |
| Database.PaperStore.constructor | utils/database.py:40-91 | a fresh store has empty tables |
| Database.PaperStore.InsertPaper | utils/database.py:93-133 | appends the row `TryInsert` gives, or changes nothing; the log is untouched |
| Database.PaperStore.UpdatePaper | utils/database.py:137-172 | the rows become what `UpdateRows` says |
| Database.PaperStore.UpdateDownloadStatus | utils/database.py:234-273 | the row update and exactly one log entry (id, status, error) commit together, or neither happens |
| Database.PaperStore.SetStatus | paper_tools.py:249-250 | only the status of that row changes |
| Downloader.PathJoin | utils/downloader.py:61-69 | an absolute second part replaces the first; otherwise the parts are joined by at most one `/` |
| Downloader.ReplaceInvalid | utils/downloader.py:137-139 | the replace loop turns each of the nine characters Windows refuses in file names into `_` |
| Downloader.SanitizeFilename | utils/downloader.py:126-145 | replace, cut to 200 characters, strip |
| Downloader.SanitizedIsSafe | utils/downloader.py:137-145 | the result has no invalid character, at most 200 characters, and no surrounding whitespace |
| Downloader.SanitizeIdempotent | utils/downloader.py:126-145 | sanitising a sanitised name changes nothing |
| Downloader.PdfName | utils/downloader.py:65-67 | the file name ends in `.pdf` |
| Downloader.PdfNameIsBaseName | utils/downloader.py:65-69 | the file name is non-empty and has no `/` |
| Downloader.SavePathLayout | utils/downloader.py:61-69 | the save path is `base/conference/year/name` |
| Downloader.DownloadFromResult | utils/downloader.py:77-124 | a path is returned only for a non-empty file at it; after any failed attempt no file is left |
| Downloader.DownloadFromFrame | utils/downloader.py:77-124 | no other file is touched |
| Downloader.DownloadFromAttempts | utils/downloader.py:77-121 | at most `retry_times` attempts; every attempt but the last gave an empty file or a `RequestException`; an early stop means a non-empty file or another exception |
| Downloader.DownloadFromSleeps | utils/downloader.py:108-115 | each sleep follows a non-final `RequestException` of attempt j and lasts `retry_delay * (j + 1)` |
| Downloader.DownloadOutcomeFacts | utils/downloader.py:45-124 | an existing file without `force` is returned with no attempt; a returned path holds a file; no other file changes |
| Downloader.MakeSavePath | utils/downloader.py:60-69 | the method builds `SavePath` |
| Downloader.Retry | utils/downloader.py:77-124 | the loop computes `DownloadFrom` |
| Downloader.Download | utils/downloader.py:45-124 | the method computes `DownloadOutcome` |
| Downloader.BatchCountsAddUp | utils/downloader.py:158-194 | success + failed + skipped equals the number of papers, and skipped counts exactly the papers without a link |
| Downloader.StepLogEntries | utils/downloader.py:170-194 | a paper only appends log entries for itself; a paper without a link appends none |
| Downloader.BatchLogEntries | utils/downloader.py:166-194 | the batch only appends to the log, each entry for one of the papers |
| Downloader.PaperLog | utils/downloader.py:176-194 | a paper's log is `downloading`, then `completed`, or `failed` with the error message |
| Downloader.SavePathTruthy | utils/downloader.py:186 | a returned path is never empty, so `if pdf_path` holds for it |
| Downloader.PaperRows | utils/downloader.py:176-194 | the paper ends `completed` with the path of a file on disk (non-empty unless it was there already) or `failed`; other rows are untouched |
| Downloader.BatchDownload | utils/downloader.py:147-197 | the store, the log and the disk end as `BatchRun` says |
| PaperTools.IacrPdfLink | paper_tools.py:29-40 | `None` for a falsy url or one without `eprint.iacr.org`; a link is an `https://eprint.iacr.org/…pdf` |
| PaperTools.EprintSplit | paper_tools.py:34-36 | the last two `/`-pieces of `front/year/number` are year and number |
| PaperTools.IacrLinkOfEprintPage | paper_tools.py:31-37 | an eprint page `…/year/number`, with or without a trailing `/`, gives `https://eprint.iacr.org/year/number.pdf` |
| PaperTools.SlugShape | paper_tools.py:48-50 | the slug has at most 50 characters, all lower-case letters, digits or `-` |
| PaperTools.UsenixPdfLink | paper_tools.py:43-54 | a link exists exactly for a `usenix.org` url with a string title, and it is the fixed prefix plus the slug plus `.pdf` |
| PaperTools.HostLink | paper_tools.py:57-68 | the url itself exactly when it contains the host, `None` otherwise |
| PaperTools.GeneratePdfLink | paper_tools.py:71-86 | dispatch by first match: IACR names, USENIX, NDSS, S&P; anything else gives `None` |
| PaperTools.ToolSanitize | paper_tools.py:103-108 | the replace loop plus the 200-character cut |
| PaperTools.ToolFileNameIsSafe | paper_tools.py:103-108 | no invalid character and at most 200 characters; stripped, it equals utils/downloader.py's sanitised name |
| PaperTools.DirName | paper_tools.py:115 | the directory name has the same length and no space or `/` |
| PaperTools.PathJoinPlain | paper_tools.py:119-123 | joining a relative piece puts one `/` between the parts |
| PaperTools.ConferenceDirLayout | paper_tools.py:115-119 | the conference directory is `output_dir/<conference with ' ' and '/' as '_'>_<year>` |
| PaperTools.TargetPathLayout | paper_tools.py:115-123 | the target is `output_dir/<conference>_<year>/<id>_<title>.pdf` |
| PaperTools.ToolPdfNameShape | paper_tools.py:122 | the file name starts with the id and `_`, ends in `.pdf`, and has no `/` |
| PaperTools.DownloadPdfFacts | paper_tools.py:110-142 | no link gives False and no network use; an existing target gives True; True means the target exists; no other file changes |
| PaperTools.DownloadPdf | paper_tools.py:110-142 | the method computes `DownloadPdfOutcome` |
| PaperTools.PapersToDownload | paper_tools.py:144-175 | only rows with a link and the filters; all of them without a limit; with a positive limit, the first `min(limit, matches)` of them |
| PaperTools.ToolBatch | paper_tools.py:188-206 | successes never exceed the papers |
| PaperTools.DownloadEach | paper_tools.py:193-206 | success + failed equals the number of papers |
| PaperTools.DownloadBatch | paper_tools.py:177-211 | nothing happens exactly when no paper is selected; otherwise total = success + failed = selected |
| PaperTools.Rescanned | paper_tools.py:237-251 | the rescan keeps the number of rows |
| PaperTools.PaperWithId | paper_tools.py:237 | finds the scanned paper with the id, or there is none |
| PaperTools.RescannedEffect | paper_tools.py:237-251 | each scanned paper's row gets its rescan status; other rows are unchanged |
| PaperTools.FilterIncreasingIds | paper_tools.py:228-232 | the selected rows keep increasing ids |
| PaperTools.RescanMarksFiles | paper_tools.py:228-251 | every row with a link gets `downloaded` or `pending` from the disk; rows without a link are untouched |
| PaperTools.DownloadedFileIsFound | paper_tools.py:237-248 | a file the tool saved larger than 1024 bytes makes the rescan mark the paper `downloaded` |
| PaperTools.RescanStatuses | paper_tools.py:223-256 | the rows become `Rescanned`, and the count is the number of rows with a link |
| Config.GetSetting | utils/config.py:45-62 | the loop computes `Setting` |
| Config.SettingFollows | utils/config.py:56-62 | the setting is the value at the end of the path, or the default when the path breaks or ends at `None` |
| Config.FollowConcat | utils/config.py:57-59 | a path can be followed in two legs |
| Config.SettingFound | utils/config.py:62 | a found value that is not `None` is returned as it is, even a falsy one |
| Config.SettingStopsAtNonDict | utils/config.py:58-61 | a non-dict met before the last key gives the default |
| Config.SettingMissingKey | utils/config.py:59-62 | a missing key anywhere gives the default |
| Config.AllConferences | utils/config.py:36-38 | `{}` when the section is absent |
| Config.ConferenceConfig | utils/config.py:40-43 | `{}` for a key the section lacks |
| Config.ConferenceConfigIsSetting | utils/config.py:36-62 | a listed conference's entry is the setting at `conferences`, key |
| Collector.InsertedFacts | main.py:102-110 | rows are only appended, at most one per paper, each with the configured venue name; the count is at most the rows added, and equal when all titles are strings or missing |
| Collector.InsertPapers | main.py:103-107 | the insert loop computes `Inserted` |
| Collector.ConferenceKeys | main.py:74-75 | without keys, every configured conference key |
| Collector.CollectYear | main.py:95-110 | one year's papers inserted into the store, or the crawl's exception |
| Collector.CollectYears | main.py:95-110 | the year loop computes the fold of `CrawlStep` |
| Collector.CollectEntries | main.py:88-110 | the entry loop computes the fold of `EntryStep` |
| Collector.CollectKey | main.py:81-110 | one conference key computes `KeyStep` |
| Collector.CollectMetadata | main.py:64-113 | the whole run computes `Collect` |
| Collector.UnknownKeysSkipped | main.py:82-86 | keys with no or empty configuration change nothing |
| Collector.ExplicitYearsOverride | main.py:91 | explicit years make the configured `years` irrelevant |
| Collector.FoldGrows | main.py:81-110 | a loop of append-only steps only appends |
| Collector.CrawlStepGrows | main.py:95-110 | one year only appends rows and count |
| Collector.EntryStepGrows | main.py:88-110 | one entry only appends |
| Collector.KeyStepGrows | main.py:81-110 | one key only appends |
| Collector.CollectOnlyAppends | main.py:64-113 | ingest only appends rows, and the count is at most the rows added |
| Collector.YearOnlyDownloadSelectsNothing | main.py:126-130 | as written, a year without a conference selects no paper |
| Collector.DownloadSelection | main.py:126-133 | only pending rows with a link; with a filter, exactly those matching it; without one, `get_pending_downloads(limit)` |
| Collector.DownloadSelectionsAgree | main.py:126-133 | with a conference given, or no year, the corrected and the as-written selections hold the same rows |
| Collector.YearOnlyDownloadMissesPaper | main.py:126-130 | a pending 2024 paper with a link is missed as written and selected as corrected |
| Collector.DownloadPdfs | main.py:115-144 | runs the corrected `DownloadSelection`: nothing happens when nothing is selected; otherwise the batch download of the selection |
| Collector.FailedDownloads | main.py:153-157 | exactly the failed rows with a PDF link |
| Collector.ResetsEffect | main.py:167-168 | the resets set hit rows to pending, keep other rows, and append one pending log entry per successful write |
| Collector.RetryResetsFailedRows | main.py:153-168 | exactly the failed rows with a link go back to pending, one log entry each; other statuses are untouched |
| Collector.RetryFailedDownloads | main.py:146-171 | nothing happens when nothing failed; otherwise the resets, then the batch download of the failed rows |
| Collector.EnrichSelection | main.py:188-199 | only rows without an abstract that match the filters; all of them without a limit; with a positive limit, the first `min(limit, matches)` of them |
| Collector.EnrichSelectionsAgreeUnfiltered | main.py:188-199 | without a conference or year filter, as written and corrected agree |
| Collector.NullAbstractEscapesFilter | main.py:188-196 | as written, a NULL-abstract row of another venue passes the conference filter |
| Collector.EnrichAbstracts | main.py:173-214 | runs the corrected `EnrichSelection`: nothing happens when nothing is selected; otherwise `batch_enrich_papers` on the selection |

## Left out

- **Real HTTP.** Sessions, headers, streaming, `iter_content`, progress bars and status codes other than 2xx/4xx/5xx are not modelled. Each request is a sequence of attempt outcomes given as a parameter.
- **HTML parsing.** The BeautifulSoup traversal of the security pages is not modelled. A parsed page is given as the list of elements each venue parser queries, and the field rules are applied to it.
- **Sleeps and time.** `time.sleep`, the rate-limit delay of the Semantic Scholar crawler and the `time.time()` cache-buster are not modelled. Sleeps are recorded as requested delays, and the stamp is a parameter.
- **Concurrency.** The thread pool of `download_batch` (paper_tools.py:190-206) is modelled sequentially, in submission order. Its counts do not depend on completion order.
- **Filesystem.** Only regular files and their sizes are modelled. There are no directories, `mkdir`, permissions or `pathlib` normalisation, and `glob` is matched on the path text.
- **SQL.** SQL text, connections and `ORDER BY` are not modelled. Query results come back in table order.
- PaperTools.PapersToDownload: `get_papers_to_download` sorts by conference, year descending and title before `LIMIT` (paper_tools.py:166-169). So with a limit the source picks the first rows in that order, while the model picks the first rows in table order: the two can choose different rows, not only order them differently.
- **Timestamps.** `CURRENT_TIMESTAMP` is a clock parameter. One `now` serves a whole `collect_metadata` run.
- **Configuration files.** YAML loading, logging setup, the argparse entry points, `show_stats` and the printing helpers are not modelled.
- **Other files.** The JSON exporter, query_db.py, update_iacr_data.py, enrich_smart.py, start_viewer.py and show_stats.py are not part of this model.
- **Character classes.** Unicode `lower`, `upper`, `isalnum`, `isspace` and `split` are approximated by their ASCII behaviour.
- **Download status names.** The source writes `completed` in utils/downloader.py:187 and `downloaded` in paper_tools.py:248. `Records.Status` keeps both, as the source does.
- **Skipping existing files.** An existing file is skipped whatever its size (utils/downloader.py:72, paper_tools.py:125), not only a non-empty one. The model follows the code.
- **Writing the file.** The file is written straight to its final path, not to a temporary one. A failed attempt removes it.
- **File names.** utils/downloader.py names files by title alone, while paper_tools.py prefixes the id. Each is modelled as written.
- Collector.DownloadPdfs: selects with the corrected `DownloadSelection`, not with main.py:126-128 as written. With only a year given, the source selects nothing (`YearOnlyDownloadSelectsNothing`), while the model downloads that year's pending papers.
- Collector.EnrichAbstracts: selects with the corrected `EnrichSelection`, not with main.py:188-196 as written. With a conference or year filter, the source also selects every row whose abstract is NULL, of any venue (`NullAbstractEscapesFilter`), while the model applies the filters to those rows too.
- Collector.CollectMetadata: when a crawl raises, the store's state is stated only through `Collect` being `Raised`. The rows inserted before the exception are not described.
- PaperTools.DownloadPdf: the transfer is one attempt, `net(url, 0)`, and its stream is not modelled. A transfer that raises leaves the partial file it had written, as in the source.
- Security.UsenixAuthors: states only that the result is no longer than the input. `CutLeavesNoMarker` states what the substitution removes.
- Config: `get_setting(*keys)` is stated for paths through dictionaries only, which is the only kind the configuration holds.

## Findings

| source | as written | input that shows it | evidently intended | confidence | as-written member | corrected member |
|---|---|---|---|---|---|---|
| main.py:188-196 | `abstract IS NULL OR abstract = '' AND conference = ?` binds as `NULL OR ('' AND conference)` | a row with a NULL abstract of venue NDSS, enriching with `conference='CRYPTO'` | the filters apply to both abstract cases | not executed | Collector.NullAbstractEscapesFilter | Collector.EnrichSelection |
| main.py:126-130 | with only `year` given, `get_papers_by_conference(None, year)` compares `conference = NULL` | a pending 2024 paper with a PDF link, `download_pdfs(year=2024)` | select the papers of that year, of every venue | not executed | Collector.YearOnlyDownloadMissesPaper | Collector.DownloadSelection |
