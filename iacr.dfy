/**
 * The IACR adapter (crawlers/iacr_crawler.py): the conference program
 * served as JSON by `currentProgram.php`, walked day by day, timeslot by
 * timeslot and session by session, turning each talk that carries a paper
 * into a paper record.
 */
module Iacr {
  import opened Wrappers
  import opened Strings
  import opened PyJson
  import opened Records
  import opened Seqs
  import opened Fetcher

  /** The program page of each supported conference, before its cache-busting `?v=` stamp. */
  function ProgramPage(conference: string, year: int): (r: Option<string>)
    ensures r.Some? <==> conference == "CRYPTO" || conference == "ASIACRYPT" || conference == "EUROCRYPT"
    ensures r.Some? ==> EndsWith(r.value, "/currentProgram.php")
  {
    var host :=
      if conference == "CRYPTO" then "crypto"
      else if conference == "ASIACRYPT" then "asiacrypt"
      else "eurocrypt";
    if conference == "CRYPTO" || conference == "ASIACRYPT" || conference == "EUROCRYPT" then
      Some("https://" + host + ".iacr.org/" + IntToString(year) + "/currentProgram.php")
    else None
  }

  /** The words that mark a session as a meal, a break or a ceremony rather than talks. */
  const SkipWords: seq<string> := ["lunch", "break", "dinner", "reception", "registration", "opening", "closing"]

  /** A session whose lower-cased title contains one of the skip words holds no papers. */
  predicate Skipped(sessionTitle: string)
  {
    exists w :: 0 <= w < |SkipWords| && Contains(Lower(sessionTitle), SkipWords[w])
  }

  /** The strings of a list whose every element is a string. */
  function StringItems(items: seq<Json>): (r: seq<string>)
    requires forall i :: 0 <= i < |items| ==> items[i].JStr?
    ensures |r| == |items| && forall i :: 0 <= i < |items| ==> JStr(r[i]) == items[i]
  {
    seq(|items|, i requires 0 <= i < |items| => items[i].s)
  }

  /** `sep.join(items)`: every element must be a string, otherwise `TypeError`. */
  function JoinItems(items: seq<Json>, sep: string): (r: Result<string>)
    ensures r.Ok? <==> forall i :: 0 <= i < |items| ==> items[i].JStr?
    ensures r.Raised? ==> r.error == TypeError
    ensures r.Ok? ==> r.value == Join(StringItems(items), sep)
  {
    if forall i :: 0 <= i < |items| ==> items[i].JStr? then
      var xs := StringItems(items);
      Ok(Join(xs, sep))
    else Raised(TypeError)
  }

  /** `v.strip()`: only a string has `strip`. */
  function StripValue(v: Json): (r: Result<string>)
    ensures r.Ok? <==> v.JStr?
    ensures r.Ok? ==> r.value == Strip(v.s)
    ensures r.Raised? ==> r.error == AttributeError
  {
    if v.JStr? then Ok(Strip(v.s)) else Raised(AttributeError)
  }

  /**
   * The page link of a talk and the DOI taken from it: a truthy `paperUrl`
   * becomes the url, and when it mentions `doi.org` the DOI is what follows
   * the last `doi.org/`. The third component says whether the link is a
   * DOI link.
   */
  function LinkOf(paperUrl: Json): (r: Result<(Json, Json, bool)>)
    ensures !Truthy(paperUrl) ==> r == Ok((JNull, JNull, false))
    ensures paperUrl.JStr? && Truthy(paperUrl) ==>
      r == Ok((paperUrl, if Contains(paperUrl.s, "doi.org") then JStr(AfterLast(paperUrl.s, "doi.org/")) else JNull,
               Contains(paperUrl.s, "doi.org")))
    ensures r.Ok? && r.value.2 ==> paperUrl.JStr?
  {
    if !Truthy(paperUrl) then Ok((JNull, JNull, false))
    else
      var isDoi :- In("doi.org", paperUrl);
      if !isDoi then Ok((paperUrl, JNull, false))
      else if paperUrl.JStr? then Ok((paperUrl, JStr(AfterLast(paperUrl.s, "doi.org/")), true))
      else Raised(AttributeError)
  }

  /** `eprint + '.pdf'`: only a string can be extended by a string. */
  function EprintPdf(eprint: Json): (r: Result<Json>)
    ensures r.Ok? <==> eprint.JStr?
    ensures r.Ok? ==> r.value == JStr(eprint.s + ".pdf")
  {
    if eprint.JStr? then Ok(JStr(eprint.s + ".pdf")) else Raised(TypeError)
  }

  /** The `(key, value)` entry the adapter sets only when the value is truthy. */
  function Optional(key: string, v: Json): (r: seq<(string, Json)>)
    ensures r == [] <==> !Truthy(v)
  {
    if Truthy(v) then [(key, v)] else []
  }

  /** The authors of a talk: a list is joined with `; `, anything else goes through `str`. */
  function AuthorsOf(talk: Json): (r: Result<string>)
    requires talk.JDict?
  {
    var authors := Field(talk, "authors", JList([]));
    if authors.JList? then JoinItems(authors.items, "; ") else Ok(Str(authors))
  }

  /** The PDF link: the DOI link when the url is one, else the eprint link with `.pdf` appended. */
  function PdfOf(link: (Json, Json, bool), eprint: Json): (r: Result<Json>)
  {
    if link.2 then Ok(link.0) else if Truthy(eprint) then EprintPdf(eprint) else Ok(JNull)
  }

  /** Truthy affiliations are kept, a list of them joined with `; `. */
  function AffiliationsOf(talk: Json): (r: Result<Json>)
    requires talk.JDict?
  {
    var affiliations := Field(talk, "affiliations", JNull);
    if Truthy(affiliations) && affiliations.JList? then
      (match JoinItems(affiliations.items, "; ")
       case Ok(t) => Ok(JStr(t))
       case Raised(e) => Raised(e))
    else Ok(affiliations)
  }

  /** The keys of the record that no column stores, in the order the adapter sets them. */
  function ExtraOf(talk: Json, affiliations: Json): (r: seq<(string, Json)>)
    requires talk.JDict?
    ensures r != [] && r[0] == ("paper_id", Field(talk, "paperId", JNull))
  {
    [("paper_id", Field(talk, "paperId", JNull))]
      + Optional("eprint_url", Field(talk, "eprint", JNull))
      + Optional("slides_url", Field(talk, "slidesUrl", JNull))
      + Optional("video_url", Field(talk, "videoUrl", JNull))
      + Optional("keywords", Field(talk, "keywords", JNull))
      + Optional("affiliations", affiliations)
  }

  /**
   * `_extract_paper_from_talk`: a talk without a truthy `paperId`, or whose
   * stripped title is empty, gives no paper. The steps run in the order of
   * the program, and the first value of the wrong Python type raises.
   */
  function ExtractPaper(talk: Json, conference: string, year: int): (r: Result<Option<Paper>>)
    ensures !talk.JDict? ==> r == Raised(AttributeError)
    ensures talk.JDict? && !Truthy(Field(talk, "paperId", JNull)) ==> r == Ok(None)
    ensures r.Ok? && talk.JDict? && Truthy(Field(talk, "paperId", JNull)) && Field(talk, "title", JStr("")).JStr?
      ==> (r.value.None? <==> Strip(Field(talk, "title", JStr("")).s) == "")
  {
    if !talk.JDict? then Raised(AttributeError)
    else if !Truthy(Field(talk, "paperId", JNull)) then Ok(None)
    else
      var authors := AuthorsOf(talk);
      var title := StripValue(Field(talk, "title", JStr("")));
      var abstractText := StripValue(Field(talk, "abstract", JStr("")));
      var link := LinkOf(Field(talk, "paperUrl", JNull));
      var pdfUrl := if link.Ok? then PdfOf(link.value, Field(talk, "eprint", JNull)) else Ok(JNull);
      var affiliations := AffiliationsOf(talk);
      if authors.Raised? then Raised(authors.error)
      else if title.Raised? then Raised(title.error)
      else if abstractText.Raised? then Raised(abstractText.error)
      else if link.Raised? then Raised(link.error)
      else if pdfUrl.Raised? then Raised(pdfUrl.error)
      else if affiliations.Raised? then Raised(affiliations.error)
      else if title.value == "" then Ok(None)
      else Ok(Some(Paper(JStr(title.value), JStr(authors.value), JStr(abstractText.value), JInt(year),
                         JStr(conference), link.value.0, pdfUrl.value, link.value.1, JNull,
                         ExtraOf(talk, affiliations.value))))
  }

  /** A kept talk has a non-empty stripped title, and carries the conference, the year and the talk's `paperId`. */
  lemma ExtractedPaperFields(talk: Json, conference: string, year: int)
    ensures var r := ExtractPaper(talk, conference, year);
      r.Ok? && r.value.Some? ==>
      var p := r.value.value;
      talk.JDict? && Truthy(Field(talk, "paperId", JNull))
      && Field(talk, "title", JStr("")).JStr?
      && p.title == JStr(Strip(Field(talk, "title", JStr("")).s)) && Strip(Field(talk, "title", JStr("")).s) != ""
      && Field(talk, "abstract", JStr("")).JStr? && p.abstractText == JStr(Strip(Field(talk, "abstract", JStr("")).s))
      && p.conference == JStr(conference) && p.year == JInt(year) && p.dblpKey == JNull
      && (p.extra != [] && p.extra[0] == ("paper_id", Field(talk, "paperId", JNull)))
  {
  }

  /** The authors of a kept talk: a list of strings joined with `; `, or `str` of any other value. */
  lemma ExtractedAuthors(talk: Json, conference: string, year: int)
    ensures var r := ExtractPaper(talk, conference, year);
      r.Ok? && r.value.Some? ==>
      var authors := Field(talk, "authors", JList([]));
      if authors.JList? then
        (forall i :: 0 <= i < |authors.items| ==> authors.items[i].JStr?)
        && r.value.value.authors == JStr(Join(StringItems(authors.items), "; "))
      else r.value.value.authors == JStr(Str(authors))
  {
  }

  /**
   * A DOI link gives the url, the PDF link and the DOI; otherwise the DOI is
   * absent and the PDF link is the eprint link with `.pdf` appended.
   */
  lemma ExtractedLinks(talk: Json, conference: string, year: int)
    ensures var r := ExtractPaper(talk, conference, year);
      r.Ok? && r.value.Some? ==>
      var p := r.value.value;
      var paperUrl := Field(talk, "paperUrl", JNull);
      var eprint := Field(talk, "eprint", JNull);
      if paperUrl.JStr? && Contains(paperUrl.s, "doi.org") then
        p.url == paperUrl && p.pdfUrl == paperUrl && p.doi == JStr(AfterLast(paperUrl.s, "doi.org/"))
      else
        p.doi == JNull && p.url == (if Truthy(paperUrl) then paperUrl else JNull)
        && p.pdfUrl == (if Truthy(eprint) then JStr(eprint.s + ".pdf") else JNull)
  {
    var r := ExtractPaper(talk, conference, year);
    if r.Ok? && r.value.Some? {
      var link := LinkOf(Field(talk, "paperUrl", JNull));
      var eprint := Field(talk, "eprint", JNull);
      assert link.Ok? && PdfOf(link.value, eprint).Ok?;
      assert r.value.value.url == link.value.0 && r.value.value.doi == link.value.1;
      assert r.value.value.pdfUrl == PdfOf(link.value, eprint).value;
      LinkRule(Field(talk, "paperUrl", JNull), eprint);
    }
  }

  /** The url, DOI and PDF link a talk's `paperUrl` and `eprint` give, when neither raises. */
  lemma LinkRule(paperUrl: Json, eprint: Json)
    requires LinkOf(paperUrl).Ok? && PdfOf(LinkOf(paperUrl).value, eprint).Ok?
    ensures var link := LinkOf(paperUrl).value;
      var pdf := PdfOf(link, eprint).value;
      if paperUrl.JStr? && Contains(paperUrl.s, "doi.org") then
        link == (paperUrl, JStr(AfterLast(paperUrl.s, "doi.org/")), true) && pdf == paperUrl
      else
        link.0 == (if Truthy(paperUrl) then paperUrl else JNull) && link.1 == JNull
        && pdf == (if Truthy(eprint) then JStr(eprint.s + ".pdf") else JNull)
  {
    if paperUrl.JStr? && Contains(paperUrl.s, "doi.org") {
      assert paperUrl.s != [];
    }
  }

  /** The papers one talk contributes: none or one. */
  function TalkPapers(talk: Json, conference: string, year: int): (r: Result<seq<Paper>>)
    ensures r.Ok? ==> |r.value| <= 1
  {
    match ExtractPaper(talk, conference, year)
    case Raised(e) => Raised(e)
    case Ok(None) => Ok([])
    case Ok(Some(p)) => Ok([p])
  }

  function TalkStep(conference: string, year: int): Json -> Result<seq<Paper>>
  {
    talk => TalkPapers(talk, conference, year)
  }

  /** The papers of a session: none for a skipped session, else those of its talks in order. */
  function SessionPapers(session: Json, conference: string, year: int): (r: Result<seq<Paper>>)
    ensures (session.JDict? && Field(session, "session_title", JStr("")).JStr?
             && Skipped(Field(session, "session_title", JStr("")).s)) ==> r == Ok([])
  {
    var title :- Get(session, "session_title", JStr(""));
    if !title.JStr? then Raised(AttributeError)
    else if Skipped(title.s) then Ok([])
    else
      var items :- Iterate(Field(session, "talks", JList([])));
      Concat(items, TalkStep(conference, year))
  }

  function SessionStep(conference: string, year: int): Json -> Result<seq<Paper>>
  {
    session => SessionPapers(session, conference, year)
  }

  function TimeslotPapers(timeslot: Json, conference: string, year: int): Result<seq<Paper>>
  {
    var sessions :- Get(timeslot, "sessions", JList([]));
    var items :- Iterate(sessions);
    Concat(items, SessionStep(conference, year))
  }

  function TimeslotStep(conference: string, year: int): Json -> Result<seq<Paper>>
  {
    timeslot => TimeslotPapers(timeslot, conference, year)
  }

  function DayPapers(day: Json, conference: string, year: int): Result<seq<Paper>>
  {
    var timeslots :- Get(day, "timeslots", JList([]));
    var items :- Iterate(timeslots);
    Concat(items, TimeslotStep(conference, year))
  }

  function DayStep(conference: string, year: int): Json -> Result<seq<Paper>>
  {
    day => DayPapers(day, conference, year)
  }

  /** `_parse_program_data`: the papers of every day of the program, in program order. */
  function ProgramPapers(data: Json, conference: string, year: int): Result<seq<Paper>>
  {
    var days :- Get(data, "days", JList([]));
    var items :- Iterate(days);
    Concat(items, DayStep(conference, year))
  }

  /** The loop over the talks of one session. */
  method ParseSession(session: Json, conference: string, year: int) returns (r: Result<seq<Paper>>)
    ensures r == SessionPapers(session, conference, year)
  {
    var title :- Get(session, "session_title", JStr(""));
    if !title.JStr? {
      return Raised(AttributeError);
    }
    if Skipped(title.s) {
      return Ok([]);
    }
    var items :- Iterate(Field(session, "talks", JList([])));
    var papers: seq<Paper> := [];
    var i := 0;
    while i < |items|
      invariant 0 <= i <= |items|
      invariant Concat(items[..i], TalkStep(conference, year)) == Ok(papers)
    {
      ConcatStep(items, i, TalkStep(conference, year));
      var more := TalkPapers(items[i], conference, year);
      if more.Raised? {
        ConcatRaisedPrefix(items, i + 1, TalkStep(conference, year));
        return Raised(more.error);
      }
      papers := papers + more.value;
      i := i + 1;
    }
    assert items[..i] == items;
    return Ok(papers);
  }

  /** The loop over the sessions of one timeslot. */
  method ParseTimeslot(timeslot: Json, conference: string, year: int) returns (r: Result<seq<Paper>>)
    ensures r == TimeslotPapers(timeslot, conference, year)
  {
    var sessions :- Get(timeslot, "sessions", JList([]));
    var items :- Iterate(sessions);
    var papers: seq<Paper> := [];
    var i := 0;
    while i < |items|
      invariant 0 <= i <= |items|
      invariant Concat(items[..i], SessionStep(conference, year)) == Ok(papers)
    {
      ConcatStep(items, i, SessionStep(conference, year));
      var more := ParseSession(items[i], conference, year);
      if more.Raised? {
        ConcatRaisedPrefix(items, i + 1, SessionStep(conference, year));
        return Raised(more.error);
      }
      papers := papers + more.value;
      i := i + 1;
    }
    assert items[..i] == items;
    return Ok(papers);
  }

  /** The loop over the timeslots of one day. */
  method ParseDay(day: Json, conference: string, year: int) returns (r: Result<seq<Paper>>)
    ensures r == DayPapers(day, conference, year)
  {
    var timeslots :- Get(day, "timeslots", JList([]));
    var items :- Iterate(timeslots);
    var papers: seq<Paper> := [];
    var i := 0;
    while i < |items|
      invariant 0 <= i <= |items|
      invariant Concat(items[..i], TimeslotStep(conference, year)) == Ok(papers)
    {
      ConcatStep(items, i, TimeslotStep(conference, year));
      var more := ParseTimeslot(items[i], conference, year);
      if more.Raised? {
        ConcatRaisedPrefix(items, i + 1, TimeslotStep(conference, year));
        return Raised(more.error);
      }
      papers := papers + more.value;
      i := i + 1;
    }
    assert items[..i] == items;
    return Ok(papers);
  }

  /** `_parse_program_data`: the loop over the days of the program. */
  method ParseProgram(data: Json, conference: string, year: int) returns (r: Result<seq<Paper>>)
    ensures r == ProgramPapers(data, conference, year)
  {
    var days :- Get(data, "days", JList([]));
    var items :- Iterate(days);
    var papers: seq<Paper> := [];
    var i := 0;
    while i < |items|
      invariant 0 <= i <= |items|
      invariant Concat(items[..i], DayStep(conference, year)) == Ok(papers)
    {
      ConcatStep(items, i, DayStep(conference, year));
      var more := ParseDay(items[i], conference, year);
      if more.Raised? {
        ConcatRaisedPrefix(items, i + 1, DayStep(conference, year));
        return Raised(more.error);
      }
      papers := papers + more.value;
      i := i + 1;
    }
    assert items[..i] == items;
    return Ok(papers);
  }

  /**
   * `crawl`: an unsupported conference gives no papers and no request;
   * otherwise the program page is fetched with a cache-busting stamp, and no
   * response, or a body that is not JSON, gives no papers. A parse error of
   * the program escapes, as does an exception that escapes `fetch`.
   */
  method Crawl(s: Settings, conference: string, year: int, stamp: int, net: (Verb, nat) -> Attempt)
    returns (url: Option<string>, r: Result<seq<Paper>>)
    ensures ProgramPage(conference, year).None? ==> url == None && r == Ok([])
    ensures ProgramPage(conference, year).Some? ==>
      url == Some(ProgramPage(conference, year).value + "?v=" + IntToString(stamp))
      && r == match FetchFrom(Attempts(net, HttpGet), s.retryTimes, 0).0
              case Got(body) => (if body.json.Some? then ProgramPapers(body.json.value, conference, year) else Ok([]))
              case NoResponse => Ok([])
              case Crashed => Raised(OtherError)
  {
    var page := ProgramPage(conference, year);
    if page.None? {
      return None, Ok([]);
    }
    url := Some(page.value + "?v=" + IntToString(stamp));
    var response, verb, attempts, sleeps := Fetch(s, "GET", net);
    match response
    case NoResponse => r := Ok([]);
    case Crashed => r := Raised(OtherError);
    case Got(body) =>
      if body.json.None? {
        r := Ok([]);
      } else {
        r := ParseProgram(body.json.value, conference, year);
      }
  }

  /** A paper carries the crawled conference and year and a non-empty title. */
  predicate Stamped(p: Paper, conference: string, year: int)
  {
    p.conference == JStr(conference) && p.year == JInt(year) && p.title.JStr? && p.title.s != ""
  }

  function StampedBy(conference: string, year: int): Paper -> bool
  {
    p => Stamped(p, conference, year)
  }

  lemma SessionStamped(session: Json, conference: string, year: int)
    ensures SessionPapers(session, conference, year).Ok? ==>
      forall p :: p in SessionPapers(session, conference, year).value ==> Stamped(p, conference, year)
  {
    var title := Get(session, "session_title", JStr(""));
    if title.Ok? && title.value.JStr? && !Skipped(title.value.s) {
      var items := Iterate(Field(session, "talks", JList([])));
      if items.Ok? {
        forall talk | talk in items.value
          ensures TalkStep(conference, year)(talk).Ok? ==>
            forall p :: p in TalkStep(conference, year)(talk).value ==> StampedBy(conference, year)(p)
        {
          ExtractedPaperFields(talk, conference, year);
        }
        ConcatAll(items.value, TalkStep(conference, year), StampedBy(conference, year));
      }
    }
  }

  lemma TimeslotStamped(timeslot: Json, conference: string, year: int)
    ensures TimeslotPapers(timeslot, conference, year).Ok? ==>
      forall p :: p in TimeslotPapers(timeslot, conference, year).value ==> Stamped(p, conference, year)
  {
    if timeslot.JDict? {
      var items := Iterate(Field(timeslot, "sessions", JList([])));
      if items.Ok? {
        forall session | session in items.value
          ensures SessionStep(conference, year)(session).Ok? ==>
            forall p :: p in SessionStep(conference, year)(session).value ==> StampedBy(conference, year)(p)
        {
          SessionStamped(session, conference, year);
        }
        ConcatAll(items.value, SessionStep(conference, year), StampedBy(conference, year));
      }
    }
  }

  lemma DayStamped(day: Json, conference: string, year: int)
    ensures DayPapers(day, conference, year).Ok? ==>
      forall p :: p in DayPapers(day, conference, year).value ==> Stamped(p, conference, year)
  {
    if day.JDict? {
      var items := Iterate(Field(day, "timeslots", JList([])));
      if items.Ok? {
        forall timeslot | timeslot in items.value
          ensures TimeslotStep(conference, year)(timeslot).Ok? ==>
            forall p :: p in TimeslotStep(conference, year)(timeslot).value ==> StampedBy(conference, year)(p)
        {
          TimeslotStamped(timeslot, conference, year);
        }
        ConcatAll(items.value, TimeslotStep(conference, year), StampedBy(conference, year));
      }
    }
  }

  /**
   * Every paper the program yields carries the conference and year it was
   * crawled for and a non-empty title.
   */
  lemma ProgramStamped(data: Json, conference: string, year: int)
    ensures ProgramPapers(data, conference, year).Ok? ==>
      forall p :: p in ProgramPapers(data, conference, year).value ==> Stamped(p, conference, year)
  {
    if data.JDict? {
      var items := Iterate(Field(data, "days", JList([])));
      if items.Ok? {
        forall day | day in items.value
          ensures DayStep(conference, year)(day).Ok? ==>
            forall p :: p in DayStep(conference, year)(day).value ==> StampedBy(conference, year)(p)
        {
          DayStamped(day, conference, year);
        }
        ConcatAll(items.value, DayStep(conference, year), StampedBy(conference, year));
      }
    }
  }

  /** A session yields at most one paper per talk. */
  lemma SessionBound(session: Json, conference: string, year: int)
    requires session.JDict? && Iterate(Field(session, "talks", JList([]))).Ok?
    ensures SessionPapers(session, conference, year).Ok? ==>
      |SessionPapers(session, conference, year).value| <= |Iterate(Field(session, "talks", JList([]))).value|
  {
    var items := Iterate(Field(session, "talks", JList([]))).value;
    ConcatBound(items, TalkStep(conference, year), 1);
  }
}
