/**
 * The DBLP adapter (crawlers/dblp_crawler.py): one search query per
 * conference key and year against the DBLP publication API, each hit of
 * the JSON answer turned into a paper record.
 */
module Dblp {
  import opened Wrappers
  import opened Strings
  import opened PyJson
  import opened Records
  import opened Seqs
  import opened Fetcher

  /** The adapter's configuration: the HTTP settings, the API endpoint and the `h` page size. */
  datatype DblpSettings = DblpSettings(http: Settings, apiUrl: string, maxResults: Json)

  /** `api_url` defaults to the public endpoint, `max_results` to 1000. */
  function DblpSettingsFrom(http: Settings, apiUrl: Option<string>, maxResults: Option<Json>): (d: DblpSettings)
    ensures apiUrl.None? ==> d.apiUrl == "https://dblp.org/search/publ/api"
    ensures maxResults.None? ==> d.maxResults == JInt(1000)
    ensures apiUrl.Some? ==> d.apiUrl == apiUrl.value
    ensures maxResults.Some? ==> d.maxResults == maxResults.value
  {
    DblpSettings(http,
      if apiUrl.Some? then apiUrl.value else "https://dblp.org/search/publ/api",
      if maxResults.Some? then maxResults.value else JInt(1000))
  }

  /** A request to the API: the endpoint, the `q` search text and the `h` number of hits, with `format=json`. */
  datatype Query = Query(apiUrl: string, q: string, h: Json)

  /** The query for the papers of one conference in one year: `"<key> <year>"`. */
  function YearQuery(d: DblpSettings, conferenceKey: string, year: Json): (q: Query)
    ensures q.q == conferenceKey + " " + Str(year) && q.h == d.maxResults && q.apiUrl == d.apiUrl
  {
    Query(d.apiUrl, conferenceKey + " " + Str(year), d.maxResults)
  }

  /** The name of one author entry: the `text` of a dictionary, `str` of anything else; only strings can be joined. */
  function AuthorName(a: Json): (r: Result<string>)
    ensures !a.JDict? ==> r == Ok(Str(a))
    ensures a.JDict? ==> (r.Ok? <==> Get(a, "text", JStr("")).value.JStr?)
    ensures a.JDict? && r.Ok? ==> r.value == Get(a, "text", JStr("")).value.s
  {
    if a.JDict? then
      var text := Get(a, "text", JStr("")).value;
      if text.JStr? then Ok(text.s) else Raised(TypeError)
    else Ok(Str(a))
  }

  /** The author entries of a hit: a single dictionary stands for a list of one. */
  function AuthorEntries(authorsData: Json): (r: Result<seq<Json>>)
    ensures authorsData.JDict? ==> r == Ok([authorsData])
    ensures authorsData.JList? ==> r == Ok(authorsData.items)
  {
    if authorsData.JDict? then Ok([authorsData]) else Iterate(authorsData)
  }

  /** The first electronic edition: the head of a list, `''` for an empty list. */
  function FirstEdition(ee: Json): (r: Json)
    ensures ee.JList? && ee.items != [] ==> r == ee.items[0]
    ensures ee.JList? && ee.items == [] ==> r == JStr("")
    ensures !ee.JList? ==> r == ee
  {
    if ee.JList? then (if ee.items != [] then ee.items[0] else JStr("")) else ee
  }

  /** The author entries of a hit's `info`: `info.authors.author`, a missing level defaulting to empty. */
  function AuthorList(info: Json): (r: Result<seq<Json>>)
    ensures r.Ok? ==> info.JDict?
    ensures info.JDict? && !HasKey(info, "authors") ==> r == Ok([])
  {
    var authorsHolder :- Get(info, "authors", JDict([]));
    var authorsData :- Get(authorsHolder, "author", JList([]));
    AuthorEntries(authorsData)
  }

  /** The author names of a hit's `info`, one per entry and in order. */
  function AuthorNames(info: Json): (r: Result<seq<string>>)
    ensures r.Ok? <==>
      AuthorList(info).Ok? && forall i :: 0 <= i < |AuthorList(info).value| ==> AuthorName(AuthorList(info).value[i]).Ok?
    ensures r.Ok? ==>
      |r.value| == |AuthorList(info).value|
      && forall i :: 0 <= i < |r.value| ==> AuthorName(AuthorList(info).value[i]) == Ok(r.value[i])
  {
    var entries :- AuthorList(info);
    MapAll(entries, AuthorName)
  }

  /** A hit whose `info` names no authors gets the empty author string. */
  lemma NoAuthorsEmptyString(hit: Json, year: Json)
    requires hit.JDict? && Field(hit, "info", JDict([])).JDict? && !HasKey(Field(hit, "info", JDict([])), "authors")
    ensures HitPaper(hit, year).Ok? ==> HitPaper(hit, year).value.authors == JStr("")
  {
  }

  /**
   * One hit: title, year (the queried year when the hit has none), url, DOI,
   * DBLP key and venue as DBLP gives them; the authors joined with `; `; the
   * electronic edition as PDF link only when it ends in `.pdf`.
   */
  function HitPaper(hit: Json, year: Json): (r: Result<Paper>)
    ensures r.Ok? ==> hit.JDict? && Get(hit, "info", JDict([])).value.JDict?
    ensures r.Ok? ==>
      var info := Get(hit, "info", JDict([])).value;
      r.value.title == Get(info, "title", JStr("")).value
      && r.value.year == Get(info, "year", year).value
      && r.value.dblpKey == Get(info, "key", JStr("")).value
      && r.value.doi == Get(info, "doi", JStr("")).value
      && r.value.url == Get(info, "url", JStr("")).value
      && AuthorNames(info).Ok? && r.value.authors == JStr(Join(AuthorNames(info).value, "; "))
      && r.value.abstractText == JNull && r.value.conference == JNull
      && r.value.extra == [("venue", Get(info, "venue", JStr("")).value)]
    ensures r.Ok? ==>
      var ee := FirstEdition(Get(Get(hit, "info", JDict([])).value, "ee", JStr("")).value);
      ee.JStr? && r.value.pdfUrl == (if EndsWith(ee.s, ".pdf") then ee else JNull)
    ensures hit.JDict? && Get(hit, "info", JDict([])).value.JDict? ==>
      var info := Get(hit, "info", JDict([])).value;
      (r.Ok? <==> AuthorNames(info).Ok? && FirstEdition(Get(info, "ee", JStr("")).value).JStr?)
  {
    var info :- Get(hit, "info", JDict([]));
    var names :- AuthorNames(info);
    var ee := FirstEdition(Get(info, "ee", JStr("")).value);
    if !ee.JStr? then Raised(AttributeError)
    else
      Ok(Paper(
        Get(info, "title", JStr("")).value, JStr(Join(names, "; ")), JNull,
        Get(info, "year", year).value, JNull, Get(info, "url", JStr("")).value,
        if EndsWith(ee.s, ".pdf") then ee else JNull,
        Get(info, "doi", JStr("")).value, Get(info, "key", JStr("")).value,
        [("venue", Get(info, "venue", JStr("")).value)]))
  }

  function HitStep(year: Json): Json -> Result<Paper>
  {
    hit => HitPaper(hit, year)
  }

  /** The hits of an answer: `result.hits.hit`, each level defaulting to empty. */
  function HitList(data: Json): (r: Result<seq<Json>>)
    ensures r.Ok? ==> data.JDict?
    ensures data.JDict? && !HasKey(data, "result") ==> r == Ok([])
    ensures data.JDict? && Field(data, "result", JDict([])).JDict? ==>
      var result := Field(data, "result", JDict([]));
      (!HasKey(result, "hits") ==> r == Ok([]))
      && (Field(result, "hits", JDict([])).JDict? ==>
            var hits := Field(result, "hits", JDict([]));
            r == Iterate(Field(hits, "hit", JList([]))))
  {
    var result :- Get(data, "result", JDict([]));
    var hits :- Get(result, "hits", JDict([]));
    var hitList :- Get(hits, "hit", JList([]));
    Iterate(hitList)
  }

  /** `_parse_dblp_response`: one paper per hit, in the order of the answer. */
  function ResponsePapers(data: Json, year: Json): (r: Result<seq<Paper>>)
    ensures r.Ok? ==>
      HitList(data).Ok? && |r.value| == |HitList(data).value|
      && forall i :: 0 <= i < |r.value| ==> HitPaper(HitList(data).value[i], year) == Ok(r.value[i])
  {
    var hits :- HitList(data);
    MapAll(hits, HitStep(year))
  }

  /** The loop over the hits. */
  method ParseResponse(data: Json, year: Json) returns (r: Result<seq<Paper>>)
    ensures r == ResponsePapers(data, year)
  {
    var hits :- HitList(data);
    r := MapEach(hits, HitStep(year));
  }

  /**
   * `_fetch_papers_by_year`: no response gives no papers, and so does an
   * answer that is not JSON or that the parser rejects; an exception that
   * escapes `fetch` escapes.
   */
  function YearPapers(d: DblpSettings, net: (Query, Verb, nat) -> Attempt, conferenceKey: string, year: Json): (r: Result<seq<Paper>>)
    ensures r.Raised? <==> Outcome(d.http, net, YearQuery(d, conferenceKey, year)).Crashed?
  {
    match Outcome(d.http, net, YearQuery(d, conferenceKey, year))
    case Crashed => Raised(OtherError)
    case NoResponse => Ok([])
    case Got(body) =>
      if body.json.None? then Ok([])
      else
        match ResponsePapers(body.json.value, year)
        case Ok(papers) => Ok(papers)
        case Raised(_) => Ok([])
  }

  method FetchPapersByYear(d: DblpSettings, net: (Query, Verb, nat) -> Attempt, conferenceKey: string, year: Json)
    returns (r: Result<seq<Paper>>)
    ensures r == YearPapers(d, net, conferenceKey, year)
  {
    var response := FetchAt(d.http, net, YearQuery(d, conferenceKey, year));
    match response
    case Crashed => r := Raised(OtherError);
    case NoResponse => r := Ok([]);
    case Got(body) =>
      if body.json.None? {
        r := Ok([]);
      } else {
        var parsed := ParseResponse(body.json.value, year);
        r := if parsed.Ok? then parsed else Ok([]);
      }
  }

  /** The years `crawl` queries: the given one, or 2020 to 2024 when none is given. */
  function CrawlYears(year: Json): (ys: seq<Json>)
    ensures Truthy(year) ==> ys == [year]
    ensures !Truthy(year) ==> |ys| == 5 && forall k :: 0 <= k < 5 ==> ys[k] == JInt(2020 + k)
  {
    if Truthy(year) then [year] else [JInt(2020), JInt(2021), JInt(2022), JInt(2023), JInt(2024)]
  }

  function YearStep(d: DblpSettings, net: (Query, Verb, nat) -> Attempt, conferenceKey: string): Json -> Result<seq<Paper>>
  {
    y => YearPapers(d, net, conferenceKey, y)
  }

  /** `crawl`: the papers of every queried year, in year order. */
  method Crawl(d: DblpSettings, net: (Query, Verb, nat) -> Attempt, conferenceKey: string, year: Json)
    returns (r: Result<seq<Paper>>)
    ensures r == Concat(CrawlYears(year), YearStep(d, net, conferenceKey))
  {
    var years := CrawlYears(year);
    var papers: seq<Paper> := [];
    var i := 0;
    while i < |years|
      invariant 0 <= i <= |years|
      invariant Concat(years[..i], YearStep(d, net, conferenceKey)) == Ok(papers)
    {
      ConcatStep(years, i, YearStep(d, net, conferenceKey));
      var more := FetchPapersByYear(d, net, conferenceKey, years[i]);
      if more.Raised? {
        ConcatRaisedPrefix(years, i + 1, YearStep(d, net, conferenceKey));
        return Raised(more.error);
      }
      papers := papers + more.value;
      i := i + 1;
    }
    assert years[..i] == years;
    return Ok(papers);
  }

  /** The query of `search_paper`: the title itself, one hit. */
  function TitleQuery(d: DblpSettings, title: string): Query
  {
    Query(d.apiUrl, title, JInt(1))
  }

  /**
   * `search_paper`: the paper of the first hit for the title, or `None` when
   * there is no response, no hit, or an answer the parser rejects; an
   * exception that escapes `fetch` escapes.
   */
  method SearchPaper(d: DblpSettings, net: (Query, Verb, nat) -> Attempt, title: string) returns (r: Result<Option<Paper>>)
    ensures r.Raised? <==> Outcome(d.http, net, TitleQuery(d, title)).Crashed?
    ensures r.Ok? && r.value.Some? ==>
      var response := Outcome(d.http, net, TitleQuery(d, title));
      response.Got? && response.body.json.Some?
      && HitList(response.body.json.value).Ok? && HitList(response.body.json.value).value != []
      && HitPaper(HitList(response.body.json.value).value[0], JNull) == Ok(r.value.value)
    ensures r.Ok? && r.value.None? ==>
      var response := Outcome(d.http, net, TitleQuery(d, title));
      response.NoResponse? || (response.Got? &&
        (response.body.json.None? || ResponsePapers(response.body.json.value, JNull).Raised?
         || ResponsePapers(response.body.json.value, JNull) == Ok([])))
  {
    var response := FetchAt(d.http, net, TitleQuery(d, title));
    match response
    case Crashed => r := Raised(OtherError);
    case NoResponse => r := Ok(None);
    case Got(body) =>
      if body.json.None? {
        r := Ok(None);
      } else {
        var papers := ParseResponse(body.json.value, JNull);
        if papers.Raised? || papers.value == [] {
          r := Ok(None);
        } else {
          r := Ok(Some(papers.value[0]));
        }
      }
  }
}
