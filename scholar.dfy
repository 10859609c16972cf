/**
 * The abstract enrichment through the Semantic Scholar API
 * (crawlers/semantic_scholar_crawler.py): a lookup by DOI, a search by
 * title, the DOI-then-title fallback of `crawl`, and the batch that writes
 * what it finds into the store.
 */
module Scholar {
  import opened Wrappers
  import opened Strings
  import opened PyJson
  import opened Records
  import opened Seqs
  import opened Fetcher
  import opened Database

  /** A request to the API: a paper by its (stripped) DOI, or a one-hit search by title. */
  datatype Request = ByDoi(doi: string) | ByTitle(title: string)

  /** What a lookup gives back: the abstract, citation count, publication date and, for a search, the DOI. */
  datatype Enrichment = Enrichment(abstractText: Json, citationCount: Json, publicationDate: Json, doi: Json)

  /** The fields read from a response's paper object; a missing key reads as `None`. */
  function EnrichmentOf(paper: Json, doi: Json): (e: Enrichment)
    requires paper.JDict?
    ensures !HasKey(paper, "abstract") ==> e.abstractText == JNull
  {
    Enrichment(Get(paper, "abstract", JNull).value, Get(paper, "citationCount", JNull).value,
               Get(paper, "publicationDate", JNull).value, doi)
  }

  /**
   * `get_paper_by_doi`: nothing for an empty DOI, and no request; the DOI is
   * stripped. No response, or a body that is not a JSON object, gives
   * nothing; an exception escaping `fetch` escapes.
   */
  function DoiResult(s: Settings, net: (Request, Verb, nat) -> Attempt, doi: string): (r: Result<Option<Enrichment>>)
    ensures doi == [] ==> r == Ok(None)
    ensures r.Raised? <==> doi != [] && Outcome(s, net, ByDoi(Strip(doi))).Crashed?
    ensures r.Ok? && r.value.Some? ==> r.value.value.doi == JNull
  {
    if doi == [] then Ok(None)
    else
      match Outcome(s, net, ByDoi(Strip(doi)))
      case Crashed => Raised(OtherError)
      case NoResponse => Ok(None)
      case Got(body) =>
        if body.json.Some? && body.json.value.JDict? then Ok(Some(EnrichmentOf(body.json.value, JNull)))
        else Ok(None)
  }

  /**
   * The first hit of a search answer: `data` must be a non-empty list whose
   * first element is an object with an object (or no) `externalIds`; any
   * other shape makes the code raise inside its `try`, which gives nothing.
   */
  function FirstHit(json: Option<Json>): (r: Option<Enrichment>)
    ensures r.Some? ==>
      json.Some? && json.value.JDict?
      && Get(json.value, "data", JList([])).value.JList? && Get(json.value, "data", JList([])).value.items != []
  {
    if json.None? || !json.value.JDict? then None
    else
      var papers := Get(json.value, "data", JList([])).value;
      if !Truthy(papers) || !papers.JList? then None
      else
        var first := papers.items[0];
        if !first.JDict? then None
        else
          var ids := Get(first, "externalIds", JDict([])).value;
          if !ids.JDict? then None
          else Some(EnrichmentOf(first, Get(ids, "DOI", JNull).value))
  }

  /** `search_paper_by_title`: nothing for an empty title, and no request. */
  function TitleResult(s: Settings, net: (Request, Verb, nat) -> Attempt, title: string): (r: Result<Option<Enrichment>>)
    ensures title == [] ==> r == Ok(None)
    ensures r.Raised? <==> title != [] && Outcome(s, net, ByTitle(title)).Crashed?
  {
    if title == [] then Ok(None)
    else
      match Outcome(s, net, ByTitle(title))
      case Crashed => Raised(OtherError)
      case NoResponse => Ok(None)
      case Got(body) => Ok(FirstHit(body.json))
  }

  predicate HasAbstract(e: Option<Enrichment>)
  {
    e.Some? && Truthy(e.value.abstractText)
  }

  /**
   * `crawl`: the DOI lookup when the paper has a DOI, kept only when it has
   * an abstract; otherwise the title search, kept only when it has an
   * abstract; otherwise nothing.
   */
  function LookupResult(s: Settings, net: (Request, Verb, nat) -> Attempt, paper: Row): (r: Result<Option<Enrichment>>)
    ensures r.Ok? && r.value.Some? ==> Truthy(r.value.value.abstractText)
    ensures TruthyText(paper.doi) && DoiResult(s, net, paper.doi.value).Ok? && HasAbstract(DoiResult(s, net, paper.doi.value).value)
      ==> r == DoiResult(s, net, paper.doi.value)
  {
    var first :- if TruthyText(paper.doi) then DoiResult(s, net, paper.doi.value) else Ok(None);
    if HasAbstract(first) then Ok(first)
    else
      var second :- TitleResult(s, net, paper.title);
      if HasAbstract(second) then Ok(second) else Ok(None)
  }

  /**
   * The rest of `crawl`: a raise of the DOI lookup escapes; without a DOI,
   * or when the DOI answer has no abstract, the title search decides, and
   * its answer is kept only when it has an abstract.
   */
  lemma LookupFallsBackToTitle(s: Settings, net: (Request, Verb, nat) -> Attempt, paper: Row)
    ensures var r := LookupResult(s, net, paper);
      (TruthyText(paper.doi) && DoiResult(s, net, paper.doi.value).Raised? ==> r == DoiResult(s, net, paper.doi.value))
      && (!TruthyText(paper.doi) || (DoiResult(s, net, paper.doi.value).Ok? && !HasAbstract(DoiResult(s, net, paper.doi.value).value))
          ==> r == match TitleResult(s, net, paper.title)
                  case Raised(e) => Raised(e)
                  case Ok(t) => Ok(if HasAbstract(t) then t else None))
  {
  }

  /** The requests `crawl` sends for a paper, in order. */
  function LookupRequests(s: Settings, net: (Request, Verb, nat) -> Attempt, paper: Row): (rs: seq<Request>)
    ensures !TruthyText(paper.doi) && paper.title == [] ==> rs == []
    ensures |rs| <= 2
  {
    var byDoi := if TruthyText(paper.doi) then [ByDoi(Strip(paper.doi.value))] else [];
    var first := if TruthyText(paper.doi) then DoiResult(s, net, paper.doi.value) else Ok(None);
    if first.Raised? || HasAbstract(first.value) || paper.title == [] then byDoi
    else byDoi + [ByTitle(paper.title)]
  }

  /** `crawl` for one stored paper, with the requests it sends. */
  method Lookup(s: Settings, net: (Request, Verb, nat) -> Attempt, paper: Row) returns (r: Result<Option<Enrichment>>, sent: seq<Request>)
    ensures r == LookupResult(s, net, paper)
    ensures sent == LookupRequests(s, net, paper)
  {
    sent := [];
    var first: Option<Enrichment> := None;
    if TruthyText(paper.doi) {
      var doi := Strip(paper.doi.value);
      sent := sent + [ByDoi(doi)];
      var response := FetchAt(s, net, ByDoi(doi));
      match response {
        case Crashed => return Raised(OtherError), sent;
        case NoResponse =>
        case Got(body) =>
          if body.json.Some? && body.json.value.JDict? {
            first := Some(EnrichmentOf(body.json.value, JNull));
          }
      }
      if HasAbstract(first) {
        return Ok(first), sent;
      }
    }
    if paper.title == [] {
      return Ok(None), sent;
    }
    sent := sent + [ByTitle(paper.title)];
    var response := FetchAt(s, net, ByTitle(paper.title));
    match response
    case Crashed => return Raised(OtherError), sent;
    case NoResponse => return Ok(None), sent;
    case Got(body) =>
      var second := FirstHit(body.json);
      r := if HasAbstract(second) then Ok(second) else Ok(None);
  }

  /** The `Citations: N` and `Date: D` remarks, each present only when truthy. */
  function NoteParts(e: Enrichment): (parts: seq<string>)
    ensures |parts| <= 2
    ensures parts == [] <==> !Truthy(e.citationCount) && !Truthy(e.publicationDate)
  {
    (if Truthy(e.citationCount) then ["Citations: " + Str(e.citationCount)] else [])
    + (if Truthy(e.publicationDate) then ["Date: " + Str(e.publicationDate)] else [])
  }

  /**
   * The patch written for a found abstract: always the abstract; the DOI
   * only when the lookup has one and the paper has none; the notes only
   * when there is a remark, joined with `; `.
   */
  function PatchFor(paper: Row, e: Enrichment): (patch: map<Column, Json>)
    ensures Abstract in patch && patch[Abstract] == e.abstractText
    ensures Doi in patch <==> Truthy(e.doi) && !TruthyText(paper.doi)
    ensures Doi in patch ==> patch[Doi] == e.doi
    ensures Notes in patch <==> NoteParts(e) != []
    ensures Notes in patch ==> patch[Notes] == JStr(Join(NoteParts(e), "; "))
    ensures patch.Keys <= {Abstract, Doi, Notes}
  {
    var withAbstract := map[Abstract := e.abstractText];
    var withDoi := if Truthy(e.doi) && !TruthyText(paper.doi) then withAbstract[Doi := e.doi] else withAbstract;
    if NoteParts(e) != [] then withDoi[Notes := JStr(Join(NoteParts(e), "; "))] else withDoi
  }

  /** The counters of `batch_enrich_papers`. */
  datatype EnrichStats = EnrichStats(success: nat, failed: nat, skipped: nat)

  function Processed(st: EnrichStats): nat
  {
    st.success + st.failed + st.skipped
  }

  /**
   * One paper of the batch, against the rows as they stand: a paper that
   * already has an abstract is skipped with no lookup; a lookup that finds
   * an abstract is written with `update_paper`, and counts as a success
   * only when the update reports one; anything else is a failure. `clock`
   * gives the time of the `k`-th paper.
   */
  function EnrichStep(s: Settings, net: (Request, Verb, nat) -> Attempt, clock: nat -> nat, acc: (EnrichStats, seq<Row>), paper: Row)
    : (r: Result<(EnrichStats, seq<Row>)>)
    ensures r.Ok? ==> Processed(r.value.0) == Processed(acc.0) + 1
    ensures r.Ok? && TruthyText(paper.abstractText) ==> r.value == (acc.0.(skipped := acc.0.skipped + 1), acc.1)
    ensures r.Ok? ==> r.value.0.skipped == acc.0.skipped + (if TruthyText(paper.abstractText) then 1 else 0)
    ensures !TruthyText(paper.abstractText) ==>
      var found := LookupResult(s, net, paper);
      (r.Raised? <==> found.Raised?)
      && (found.Ok? && found.value.None? ==> r == Ok((acc.0.(failed := acc.0.failed + 1), acc.1)))
      && (found.Ok? && found.value.Some? ==>
            var update := UpdateRows(acc.1, paper.id, PatchFor(paper, found.value.value), clock(Processed(acc.0)));
            r.Ok? && r.value.1 == update.1
            && (update.0 ==> r.value.0 == acc.0.(success := acc.0.success + 1))
            && (!update.0 ==> r.value.0 == acc.0.(failed := acc.0.failed + 1)))
  {
    var (st, rows) := acc;
    if TruthyText(paper.abstractText) then Ok((st.(skipped := st.skipped + 1), rows))
    else
      var found :- LookupResult(s, net, paper);
      if found.None? then Ok((st.(failed := st.failed + 1), rows))
      else
        var (ok, rows') := UpdateRows(rows, paper.id, PatchFor(paper, found.value), clock(Processed(st)));
        if ok then Ok((st.(success := st.success + 1), rows')) else Ok((st.(failed := st.failed + 1), rows'))
  }

  function EnrichStepFn(s: Settings, net: (Request, Verb, nat) -> Attempt, clock: nat -> nat): ((EnrichStats, seq<Row>), Row) -> Result<(EnrichStats, seq<Row>)>
  {
    (acc: (EnrichStats, seq<Row>), paper: Row) => EnrichStep(s, net, clock, acc, paper)
  }

  /** `batch_enrich_papers` over `papers`, starting from the rows `rows`. */
  function EnrichAll(s: Settings, net: (Request, Verb, nat) -> Attempt, clock: nat -> nat, rows: seq<Row>, papers: seq<Row>)
    : Result<(EnrichStats, seq<Row>)>
  {
    Fold(papers, (EnrichStats(0, 0, 0), rows), EnrichStepFn(s, net, clock))
  }

  /**
   * The counters add up: every paper is a success, a failure or skipped,
   * and exactly the papers that already have an abstract are skipped.
   */
  lemma {:induction false} EnrichCountsAddUp(s: Settings, net: (Request, Verb, nat) -> Attempt, clock: nat -> nat, rows: seq<Row>, papers: seq<Row>)
    ensures var r := EnrichAll(s, net, clock, rows, papers);
      r.Ok? ==>
        Processed(r.value.0) == |papers|
        && r.value.0.skipped == Count(papers, (p: Row) => TruthyText(p.abstractText))
    decreases |papers|
  {
    if papers != [] {
      var init := papers[..|papers| - 1];
      EnrichCountsAddUp(s, net, clock, rows, init);
      CountAppend(init, [papers[|papers| - 1]], (p: Row) => TruthyText(p.abstractText));
      assert init + [papers[|papers| - 1]] == papers;
    }
  }

  /** Enrichment changes only abstracts, DOIs and notes, and never adds or removes a row. */
  lemma {:induction false} EnrichTouchesOnlyPatchedColumns(s: Settings, net: (Request, Verb, nat) -> Attempt, clock: nat -> nat, rows: seq<Row>, papers: seq<Row>)
    ensures var r := EnrichAll(s, net, clock, rows, papers);
      r.Ok? ==>
        |r.value.1| == |rows|
        && forall i :: 0 <= i < |rows| ==>
          Untouched(rows[i], r.value.1[i], {Abstract, Doi, Notes})
          && r.value.1[i].id == rows[i].id && r.value.1[i].status == rows[i].status
    decreases |papers|
  {
    if papers != [] {
      EnrichTouchesOnlyPatchedColumns(s, net, clock, rows, papers[..|papers| - 1]);
    }
  }

  /** One paper of the batch loop: its step extends the loop, and a step that raises ends the whole batch. */
  lemma EnrichFold(s: Settings, net: (Request, Verb, nat) -> Attempt, clock: nat -> nat, papers: seq<Row>, i: nat,
                   init: (EnrichStats, seq<Row>), before: (EnrichStats, seq<Row>))
    requires i < |papers|
    requires Fold(papers[..i], init, EnrichStepFn(s, net, clock)) == Ok(before)
    ensures Fold(papers[..i + 1], init, EnrichStepFn(s, net, clock)) == EnrichStep(s, net, clock, before, papers[i])
    ensures EnrichStep(s, net, clock, before, papers[i]).Raised? ==> Fold(papers, init, EnrichStepFn(s, net, clock)).Raised?
  {
    FoldStep(papers, i, init, EnrichStepFn(s, net, clock));
    if EnrichStep(s, net, clock, before, papers[i]).Raised? {
      FoldRaisedPrefix(papers, i + 1, init, EnrichStepFn(s, net, clock));
    }
  }

  /**
   * `batch_enrich_papers`: the store ends as the batch specification says,
   * keeps its invariant, and its download log is not touched. An exception
   * escaping a lookup stops the batch.
   */
  method BatchEnrich(store: PaperStore, s: Settings, net: (Request, Verb, nat) -> Attempt, clock: nat -> nat, papers: seq<Row>)
    returns (r: Result<EnrichStats>)
    requires store.Valid()
    modifies store
    ensures store.Valid() && store.log == old(store.log) && store.lastId == old(store.lastId)
    ensures r.Ok? ==> EnrichAll(s, net, clock, old(store.rows), papers) == Ok((r.value, store.rows))
    ensures r.Raised? ==> EnrichAll(s, net, clock, old(store.rows), papers).Raised?
  {
    var stats := EnrichStats(0, 0, 0);
    var i := 0;
    while i < |papers|
      invariant 0 <= i <= |papers|
      invariant store.Valid() && store.log == old(store.log) && store.lastId == old(store.lastId)
      invariant Fold(papers[..i], (EnrichStats(0, 0, 0), old(store.rows)), EnrichStepFn(s, net, clock)) == Ok((stats, store.rows))
    {
      EnrichFold(s, net, clock, papers, i, (EnrichStats(0, 0, 0), old(store.rows)), (stats, store.rows));
      var paper := papers[i];
      if TruthyText(paper.abstractText) {
        stats := stats.(skipped := stats.skipped + 1);
      } else {
        var found, sent := Lookup(s, net, paper);
        if found.Raised? {
          return Raised(found.error);
        }
        if found.value.None? {
          stats := stats.(failed := stats.failed + 1);
        } else {
          var ok := store.UpdatePaper(paper.id, PatchFor(paper, found.value.value), clock(Processed(stats)));
          if ok {
            stats := stats.(success := stats.success + 1);
          } else {
            stats := stats.(failed := stats.failed + 1);
          }
        }
      }
      i := i + 1;
    }
    assert papers[..i] == papers;
    return Ok(stats);
  }
}
