/**
 * The collector's commands (main.py): the metadata ingest over configured
 * conferences and years, the selection of papers to download, the retry
 * of failed downloads and the selection of papers to enrich.
 */
module Collector {
  import opened Wrappers
  import opened PyJson
  import opened Records
  import opened Seqs
  import opened Database
  import Fetcher
  import Dblp
  import Config
  import Downloader
  import Scholar

  /** What the ingest has done so far: the `papers` table, its counter and the papers counted as inserted. */
  datatype Ingest = Ingest(rows: seq<Row>, lastId: nat, inserted: nat)

  /**
   * One crawled paper stored: its conference is overwritten with the
   * configured name, and it counts when `insert_paper` hands back an id.
   */
  function InsertOne(st: Ingest, p: Paper, name: Json, now: nat): Ingest
  {
    match TryInsert(st.rows, st.lastId, p.(conference := name), now)
    case Added(row, reported) => Ingest(st.rows + [row], row.id, st.inserted + if reported then 1 else 0)
    case Refused(_) => st
  }

  /** The papers of one `(conference, year)` task, stored in order. */
  function Inserted(st: Ingest, papers: seq<Paper>, name: Json, now: nat): Ingest
    decreases |papers|
  {
    if papers == [] then st
    else InsertOne(Inserted(st, papers[..|papers| - 1], name, now), papers[|papers| - 1], name, now)
  }

  /**
   * Storing a task's papers only appends rows, at most one per paper; every
   * new row carries the configured name as its conference (none is added
   * when the name is `None`); the count grows by at most the rows added,
   * and by exactly that many when every title is a string or `None`.
   */
  lemma {:induction false} InsertedFacts(st: Ingest, papers: seq<Paper>, name: Json, now: nat)
    ensures var r := Inserted(st, papers, name, now);
      st.rows <= r.rows && |r.rows| - |st.rows| <= |papers|
      && st.inserted <= r.inserted && r.inserted - st.inserted <= |r.rows| - |st.rows|
      && (name.JStr? ==> forall i :: |st.rows| <= i < |r.rows| ==> r.rows[i].conference == name.s)
      && (name.JNull? ==> r.rows == st.rows)
      && ((forall p :: p in papers ==> p.title.JStr? || p.title.JNull?) ==> r.inserted - st.inserted == |r.rows| - |st.rows|)
    decreases |papers|
  {
    if papers != [] {
      var front := papers[..|papers| - 1];
      var p := papers[|papers| - 1];
      InsertedFacts(st, front, name, now);
      assert forall q :: q in front ==> q in papers;
      var mid := Inserted(st, front, name, now);
      var outcome := TryInsert(mid.rows, mid.lastId, p.(conference := name), now);
      if outcome.Added? {
        assert p.(conference := name).conference == name;
      }
    }
  }

  /**
   * `insert_paper` for each crawled paper of a task; `inserted` is the
   * number of ids handed back, added to the running `total`.
   */
  method InsertPapers(store: PaperStore, papers: seq<Paper>, name: Json, now: nat, ghost total: nat) returns (inserted: nat)
    requires store.Valid()
    modifies store
    ensures store.Valid() && store.log == old(store.log)
    ensures Ingest(store.rows, store.lastId, total + inserted) == Inserted(Ingest(old(store.rows), old(store.lastId), total), papers, name, now)
  {
    ghost var init := Ingest(store.rows, store.lastId, total);
    inserted := 0;
    for i := 0 to |papers|
      invariant store.Valid() && store.log == old(store.log)
      invariant Ingest(store.rows, store.lastId, total + inserted) == Inserted(init, papers[..i], name, now)
    {
      ghost var before := Ingest(store.rows, store.lastId, total + inserted);
      InsertedStep(init, papers, i, name, now);
      var id := store.InsertPaper(papers[i].(conference := name), now);
      InsertOneStored(before, papers[i], name, now, store.rows, store.lastId, id);
      if id.Some? {
        inserted := inserted + 1;
      }
    }
    assert papers[..|papers|] == papers;
  }

  lemma InsertedStep(st: Ingest, papers: seq<Paper>, i: nat, name: Json, now: nat)
    requires i < |papers|
    ensures Inserted(st, papers[..i + 1], name, now) == InsertOne(Inserted(st, papers[..i], name, now), papers[i], name, now)
  {
    assert papers[..i + 1][..i] == papers[..i];
  }

  /** What `insert_paper` reports and leaves behind is one step of the ingest. */
  lemma InsertOneStored(before: Ingest, p: Paper, name: Json, now: nat, rows: seq<Row>, lastId: nat, id: Option<nat>)
    requires match TryInsert(before.rows, before.lastId, p.(conference := name), now)
      case Added(row, reported) =>
        rows == before.rows + [row] && lastId == row.id && id == (if reported then Some(row.id) else None)
      case Refused(_) => rows == before.rows && lastId == before.lastId && id.None?
    ensures Ingest(rows, lastId, before.inserted + if id.Some? then 1 else 0) == InsertOne(before, p, name, now)
  {
  }

  /** `crawl(dblp_key, year)`: the DBLP papers of one configured year. */
  function CrawledPapers(d: Dblp.DblpSettings, net: (Dblp.Query, Fetcher.Verb, nat) -> Fetcher.Attempt, key: Json, year: Json)
    : Result<seq<Paper>>
  {
    Concat(Dblp.CrawlYears(year), Dblp.YearStep(d, net, Str(key)))
  }

  /** The DBLP crawl of one year of a conference, then the insert of its papers. */
  function CrawlStep(d: Dblp.DblpSettings, net: (Dblp.Query, Fetcher.Verb, nat) -> Fetcher.Attempt, key: Json, name: Json, now: nat)
    : (Ingest, Json) -> Result<Ingest>
  {
    (st: Ingest, year: Json) =>
      match CrawledPapers(d, net, key, year)
      case Raised(e) => Raised(e)
      case Ok(papers) => Ok(Inserted(st, papers, name, now))
  }

  /** The years of one configured entry: the explicit years when any are given. */
  function EntryYears(info: Json, years: Json): Json
    requires info.JDict?
  {
    if Truthy(years) then years else Field(info, "years", JList([]))
  }

  /** One configured entry of a conference: its name, DBLP key and years. */
  function EntryStep(d: Dblp.DblpSettings, net: (Dblp.Query, Fetcher.Verb, nat) -> Fetcher.Attempt, years: Json, now: nat)
    : (Ingest, Json) -> Result<Ingest>
  {
    (st: Ingest, info: Json) =>
      if !info.JDict? then Raised(AttributeError)
      else
        match Iterate(EntryYears(info, years))
        case Raised(e) => Raised(e)
        case Ok(ys) => Fold(ys, st, CrawlStep(d, net, Field(info, "dblp_key", JNull), Field(info, "name", JNull), now))
  }

  /** One conference key: skipped when the section has no truthy entry list for it. */
  function KeyStep(d: Dblp.DblpSettings, net: (Dblp.Query, Fetcher.Verb, nat) -> Fetcher.Attempt, all: Json, years: Json, now: nat)
    : (Ingest, string) -> Result<Ingest>
  {
    (st: Ingest, key: string) =>
      match Get(all, key, JList([]))
      case Raised(e) => Raised(e)
      case Ok(entries) =>
        if !Truthy(entries) then Ok(st)
        else
          match Iterate(entries)
          case Raised(e) => Raised(e)
          case Ok(infos) => Fold(infos, st, EntryStep(d, net, years, now))
  }

  /** The conference keys visited: the given ones, or every key of the section. */
  function ConferenceKeys(all: Json, keys: Option<seq<string>>): (r: Result<seq<string>>)
    ensures keys.Some? ==> r == Ok(keys.value)
    ensures keys.None? && all.JDict? ==> r == Ok(Keys(all.entries))
    ensures r.Raised? <==> keys.None? && !all.JDict?
  {
    if keys.Some? then Ok(keys.value)
    else if all.JDict? then Ok(Keys(all.entries))
    else Raised(AttributeError)
  }

  /**
   * `collect_metadata(conference_keys, years)` on the conference document
   * `conferences`, from a table holding `rows` with counter `lastId`. All
   * inserts of one run carry the time `now`.
   */
  function Collect(d: Dblp.DblpSettings, net: (Dblp.Query, Fetcher.Verb, nat) -> Fetcher.Attempt, conferences: Json,
                   keys: Option<seq<string>>, years: Json, rows: seq<Row>, lastId: nat, now: nat): Result<Ingest>
  {
    var all :- Config.AllConferences(conferences);
    var ks :- ConferenceKeys(all, keys);
    Fold(ks, Ingest(rows, lastId, 0), KeyStep(d, net, all, years, now))
  }

  lemma CrawlStepApplied(d: Dblp.DblpSettings, net: (Dblp.Query, Fetcher.Verb, nat) -> Fetcher.Attempt,
                         key: Json, name: Json, now: nat, st: Ingest, year: Json)
    ensures var papers := CrawledPapers(d, net, key, year);
      CrawlStep(d, net, key, name, now)(st, year)
        == if papers.Raised? then Raised(papers.error) else Ok(Inserted(st, papers.value, name, now))
  {
  }

  /** One year of one configured entry: `crawl(dblp_key, year)`, then the inserts. */
  method CollectYear(store: PaperStore, d: Dblp.DblpSettings, net: (Dblp.Query, Fetcher.Verb, nat) -> Fetcher.Attempt,
                     key: Json, name: Json, year: Json, now: nat, total: nat) returns (r: Result<nat>)
    requires store.Valid()
    modifies store
    ensures store.Valid() && store.log == old(store.log)
    ensures r.Raised? <==> CrawledPapers(d, net, key, year).Raised?
    ensures r.Raised? ==> r.error == CrawledPapers(d, net, key, year).error
    ensures r.Ok? ==>
      Ingest(store.rows, store.lastId, r.value)
        == Inserted(Ingest(old(store.rows), old(store.lastId), total), CrawledPapers(d, net, key, year).value, name, now)
  {
    var papers := Dblp.Crawl(d, net, Str(key), year);
    if papers.Raised? {
      return Raised(papers.error);
    }
    var inserted := InsertPapers(store, papers.value, name, now, total);
    r := Ok(total + inserted);
  }

  /** The year loop of one configured entry. */
  method CollectYears(store: PaperStore, d: Dblp.DblpSettings, net: (Dblp.Query, Fetcher.Verb, nat) -> Fetcher.Attempt,
                      key: Json, name: Json, years: seq<Json>, now: nat, total: nat) returns (r: Result<nat>)
    requires store.Valid()
    modifies store
    ensures store.Valid() && store.log == old(store.log)
    ensures r.Ok? ==>
      Fold(years, Ingest(old(store.rows), old(store.lastId), total), CrawlStep(d, net, key, name, now))
        == Ok(Ingest(store.rows, store.lastId, r.value))
    ensures r.Raised? ==>
      Fold(years, Ingest(old(store.rows), old(store.lastId), total), CrawlStep(d, net, key, name, now))
        == Raised(r.error)
  {
    ghost var init := Ingest(store.rows, store.lastId, total);
    var acc := total;
    var i := 0;
    while i < |years|
      invariant 0 <= i <= |years|
      invariant store.Valid() && store.log == old(store.log)
      invariant init == Ingest(old(store.rows), old(store.lastId), total)
      invariant Fold(years[..i], init, CrawlStep(d, net, key, name, now)) == Ok(Ingest(store.rows, store.lastId, acc))
    {
      ghost var before := Ingest(store.rows, store.lastId, acc);
      var done := CollectYear(store, d, net, key, name, years[i], now, acc);
      if done.Raised? {
        YearRaised(d, net, key, name, now, years, i, init, before);
        return Raised(done.error);
      }
      YearInserted(d, net, key, name, now, years, i, init, before, Ingest(store.rows, store.lastId, done.value));
      acc := done.value;
      i := i + 1;
    }
    assert years[..i] == years;
    r := Ok(acc);
  }

  /** A year whose crawl raises ends the year loop with that error. */
  lemma YearRaised(d: Dblp.DblpSettings, net: (Dblp.Query, Fetcher.Verb, nat) -> Fetcher.Attempt,
                   key: Json, name: Json, now: nat, years: seq<Json>, i: nat, init: Ingest, before: Ingest)
    requires i < |years|
    requires Fold(years[..i], init, CrawlStep(d, net, key, name, now)) == Ok(before)
    requires CrawledPapers(d, net, key, years[i]).Raised?
    ensures Fold(years, init, CrawlStep(d, net, key, name, now)) == Raised(CrawledPapers(d, net, key, years[i]).error)
  {
    FoldStep(years, i, init, CrawlStep(d, net, key, name, now));
    CrawlStepApplied(d, net, key, name, now, before, years[i]);
    FoldRaisedPrefix(years, i + 1, init, CrawlStep(d, net, key, name, now));
  }

  /** A year whose crawl succeeds extends the year loop by its inserts. */
  lemma YearInserted(d: Dblp.DblpSettings, net: (Dblp.Query, Fetcher.Verb, nat) -> Fetcher.Attempt,
                     key: Json, name: Json, now: nat, years: seq<Json>, i: nat, init: Ingest, before: Ingest, after: Ingest)
    requires i < |years|
    requires Fold(years[..i], init, CrawlStep(d, net, key, name, now)) == Ok(before)
    requires CrawledPapers(d, net, key, years[i]).Ok?
    requires after == Inserted(before, CrawledPapers(d, net, key, years[i]).value, name, now)
    ensures Fold(years[..i + 1], init, CrawlStep(d, net, key, name, now)) == Ok(after)
  {
    FoldStep(years, i, init, CrawlStep(d, net, key, name, now));
    CrawlStepApplied(d, net, key, name, now, before, years[i]);
  }

  /** The entry loop of one conference key. */
  method CollectEntries(store: PaperStore, d: Dblp.DblpSettings, net: (Dblp.Query, Fetcher.Verb, nat) -> Fetcher.Attempt,
                        infos: seq<Json>, years: Json, now: nat, total: nat) returns (r: Result<nat>)
    requires store.Valid()
    modifies store
    ensures store.Valid() && store.log == old(store.log)
    ensures r.Ok? ==>
      Fold(infos, Ingest(old(store.rows), old(store.lastId), total), EntryStep(d, net, years, now))
        == Ok(Ingest(store.rows, store.lastId, r.value))
    ensures r.Raised? ==>
      Fold(infos, Ingest(old(store.rows), old(store.lastId), total), EntryStep(d, net, years, now))
        == Raised(r.error)
  {
    ghost var init := Ingest(store.rows, store.lastId, total);
    var acc := total;
    var i := 0;
    while i < |infos|
      invariant 0 <= i <= |infos|
      invariant store.Valid() && store.log == old(store.log)
      invariant Fold(infos[..i], init, EntryStep(d, net, years, now)) == Ok(Ingest(store.rows, store.lastId, acc))
    {
      ghost var before := Ingest(store.rows, store.lastId, acc);
      EntryFold(d, net, years, now, infos, i, init, before);
      var info := infos[i];
      if !info.JDict? {
        return Raised(AttributeError);
      }
      var name := Field(info, "name", JNull);
      var key := Field(info, "dblp_key", JNull);
      var confYears := Iterate(EntryYears(info, years));
      if confYears.Raised? {
        return Raised(confYears.error);
      }
      var done := CollectYears(store, d, net, key, name, confYears.value, now, acc);
      if done.Raised? {
        return Raised(done.error);
      }
      acc := done.value;
      i := i + 1;
    }
    assert infos[..i] == infos;
    r := Ok(acc);
  }

  /**
   * One entry of the entry loop: its step extends the loop, and an entry
   * that raises ends the whole loop with that error.
   */
  lemma EntryFold(d: Dblp.DblpSettings, net: (Dblp.Query, Fetcher.Verb, nat) -> Fetcher.Attempt, years: Json, now: nat,
                  infos: seq<Json>, i: nat, init: Ingest, before: Ingest)
    requires i < |infos|
    requires Fold(infos[..i], init, EntryStep(d, net, years, now)) == Ok(before)
    ensures var info := infos[i];
      var r := if !info.JDict? then Raised(AttributeError)
        else match Iterate(EntryYears(info, years))
          case Raised(e) => Raised(e)
          case Ok(ys) => Fold(ys, before, CrawlStep(d, net, Field(info, "dblp_key", JNull), Field(info, "name", JNull), now));
      Fold(infos[..i + 1], init, EntryStep(d, net, years, now)) == r
      && (r.Raised? ==> Fold(infos, init, EntryStep(d, net, years, now)) == r)
  {
    FoldStep(infos, i, init, EntryStep(d, net, years, now));
    if Fold(infos[..i + 1], init, EntryStep(d, net, years, now)).Raised? {
      FoldRaisedPrefix(infos, i + 1, init, EntryStep(d, net, years, now));
    }
  }

  /** One conference key: its entry list, skipped when falsy, then the entry loop. */
  method CollectKey(store: PaperStore, d: Dblp.DblpSettings, net: (Dblp.Query, Fetcher.Verb, nat) -> Fetcher.Attempt,
                    all: Json, key: string, years: Json, now: nat, total: nat) returns (r: Result<nat>)
    requires store.Valid()
    modifies store
    ensures store.Valid() && store.log == old(store.log)
    ensures r.Ok? ==> KeyStep(d, net, all, years, now)(Ingest(old(store.rows), old(store.lastId), total), key)
                      == Ok(Ingest(store.rows, store.lastId, r.value))
    ensures r.Raised? ==> KeyStep(d, net, all, years, now)(Ingest(old(store.rows), old(store.lastId), total), key)
                          == Raised(r.error)
  {
    var entries := Get(all, key, JList([]));
    if entries.Raised? {
      return Raised(entries.error);
    }
    if !Truthy(entries.value) {
      return Ok(total);
    }
    var infos := Iterate(entries.value);
    if infos.Raised? {
      return Raised(infos.error);
    }
    r := CollectEntries(store, d, net, infos.value, years, now, total);
  }

  /**
   * `collect_metadata`: the table afterwards and the total it reports, as
   * `Collect` says; an exception escaping the loops is handed back.
   */
  method CollectMetadata(store: PaperStore, d: Dblp.DblpSettings, net: (Dblp.Query, Fetcher.Verb, nat) -> Fetcher.Attempt,
                         conferences: Json, keys: Option<seq<string>>, years: Json, now: nat) returns (r: Result<nat>)
    requires store.Valid()
    modifies store
    ensures store.Valid() && store.log == old(store.log)
    ensures r.Ok? ==>
      Collect(d, net, conferences, keys, years, old(store.rows), old(store.lastId), now)
        == Ok(Ingest(store.rows, store.lastId, r.value))
    ensures r.Raised? ==> Collect(d, net, conferences, keys, years, old(store.rows), old(store.lastId), now).Raised?
  {
    var all := Config.AllConferences(conferences);
    if all.Raised? {
      return Raised(all.error);
    }
    var ks := ConferenceKeys(all.value, keys);
    if ks.Raised? {
      return Raised(ks.error);
    }
    ghost var step := KeyStep(d, net, all.value, years, now);
    ghost var init := Ingest(store.rows, store.lastId, 0);
    var total := 0;
    var i := 0;
    while i < |ks.value|
      invariant 0 <= i <= |ks.value|
      invariant store.Valid() && store.log == old(store.log)
      invariant init == Ingest(old(store.rows), old(store.lastId), 0)
      invariant Fold(ks.value[..i], init, step) == Ok(Ingest(store.rows, store.lastId, total))
    {
      FoldStep(ks.value, i, init, step);
      var done := CollectKey(store, d, net, all.value, ks.value[i], years, now, total);
      if done.Raised? {
        FoldRaisedPrefix(ks.value, i + 1, init, step);
        return Raised(done.error);
      }
      total := done.value;
      i := i + 1;
    }
    assert ks.value[..i] == ks.value;
    r := Ok(total);
  }

  /** Keys the section does not list, or lists with a falsy entry list, change nothing. */
  lemma {:induction false} UnknownKeysSkipped(d: Dblp.DblpSettings, net: (Dblp.Query, Fetcher.Verb, nat) -> Fetcher.Attempt,
                                              all: Json, years: Json, now: nat, ks: seq<string>, st: Ingest)
    requires all.JDict?
    requires forall k :: 0 <= k < |ks| ==> !HasKey(all, ks[k]) || !Truthy(Field(all, ks[k], JList([])))
    ensures Fold(ks, st, KeyStep(d, net, all, years, now)) == Ok(st)
    decreases |ks|
  {
    if ks != [] {
      var front := ks[..|ks| - 1];
      assert forall k :: 0 <= k < |front| ==> front[k] == ks[k];
      UnknownKeysSkipped(d, net, all, years, now, front, st);
      var last := ks[|ks| - 1];
      assert !Truthy(Get(all, last, JList([])).value);
      assert KeyStep(d, net, all, years, now)(st, last) == Ok(st);
    }
  }

  /** A member appended under another key does not change what `get` finds. */
  lemma LookupPast(entries: seq<(string, Json)>, extra: string, v: Json, key: string)
    requires key != extra
    ensures Lookup(entries + [(extra, v)], key) == Lookup(entries, key)
  {
    assert (entries + [(extra, v)])[..|entries|] == entries;
  }

  /**
   * Explicit years override the configured ones: with a truthy `years`,
   * an entry behaves the same whatever its own `years` list says.
   */
  lemma ExplicitYearsOverride(d: Dblp.DblpSettings, net: (Dblp.Query, Fetcher.Verb, nat) -> Fetcher.Attempt,
                              years: Json, now: nat, st: Ingest, entries: seq<(string, Json)>, configured: Json)
    requires Truthy(years)
    ensures EntryStep(d, net, years, now)(st, JDict(entries + [("years", configured)]))
      == EntryStep(d, net, years, now)(st, JDict(entries))
  {
    LookupPast(entries, "years", configured, "name");
    LookupPast(entries, "years", configured, "dblp_key");
    var info := JDict(entries + [("years", configured)]);
    var plain := JDict(entries);
    assert Get(info, "name", JNull) == Get(plain, "name", JNull);
    assert Get(info, "dblp_key", JNull) == Get(plain, "dblp_key", JNull);
    assert EntryYears(info, years) == EntryYears(plain, years) == years;
    var step := CrawlStep(d, net, Field(plain, "dblp_key", JNull), Field(plain, "name", JNull), now);
    assert CrawlStep(d, net, Field(info, "dblp_key", JNull), Field(info, "name", JNull), now) == step;
  }

  /** `b` extends `a`: rows only appended, and the count grows by at most the rows added. */
  predicate Grows(a: Ingest, b: Ingest)
  {
    a.rows <= b.rows && a.inserted <= b.inserted && b.inserted - a.inserted <= |b.rows| - |a.rows|
  }

  /** A loop whose every step grows the state grows it overall. */
  lemma {:induction false} FoldGrows<T>(xs: seq<T>, st: Ingest, step: (Ingest, T) -> Result<Ingest>)
    requires forall s: Ingest, x: T :: step(s, x).Ok? ==> Grows(s, step(s, x).value)
    ensures Fold(xs, st, step).Ok? ==> Grows(st, Fold(xs, st, step).value)
    decreases |xs|
  {
    if xs != [] {
      FoldGrows(xs[..|xs| - 1], st, step);
    }
  }

  lemma CrawlStepGrows(d: Dblp.DblpSettings, net: (Dblp.Query, Fetcher.Verb, nat) -> Fetcher.Attempt, key: Json, name: Json, now: nat)
    ensures forall s: Ingest, y: Json :: CrawlStep(d, net, key, name, now)(s, y).Ok? ==> Grows(s, CrawlStep(d, net, key, name, now)(s, y).value)
  {
    forall s: Ingest, y: Json | CrawlStep(d, net, key, name, now)(s, y).Ok?
      ensures Grows(s, CrawlStep(d, net, key, name, now)(s, y).value)
    {
      var papers := CrawledPapers(d, net, key, y).value;
      InsertedFacts(s, papers, name, now);
    }
  }

  lemma EntryStepGrows(d: Dblp.DblpSettings, net: (Dblp.Query, Fetcher.Verb, nat) -> Fetcher.Attempt, years: Json, now: nat)
    ensures forall s: Ingest, x: Json :: EntryStep(d, net, years, now)(s, x).Ok? ==> Grows(s, EntryStep(d, net, years, now)(s, x).value)
  {
    forall s: Ingest, x: Json | EntryStep(d, net, years, now)(s, x).Ok?
      ensures Grows(s, EntryStep(d, net, years, now)(s, x).value)
    {
      var ys := Iterate(EntryYears(x, years)).value;
      var key := Field(x, "dblp_key", JNull);
      var name := Field(x, "name", JNull);
      CrawlStepGrows(d, net, key, name, now);
      FoldGrows(ys, s, CrawlStep(d, net, key, name, now));
    }
  }

  lemma KeyStepGrows(d: Dblp.DblpSettings, net: (Dblp.Query, Fetcher.Verb, nat) -> Fetcher.Attempt, all: Json, years: Json, now: nat)
    ensures forall s: Ingest, k: string :: KeyStep(d, net, all, years, now)(s, k).Ok? ==> Grows(s, KeyStep(d, net, all, years, now)(s, k).value)
  {
    forall s: Ingest, k: string | KeyStep(d, net, all, years, now)(s, k).Ok?
      ensures Grows(s, KeyStep(d, net, all, years, now)(s, k).value)
    {
      var entries := Get(all, k, JList([])).value;
      if Truthy(entries) {
        EntryStepGrows(d, net, years, now);
        FoldGrows(Iterate(entries).value, s, EntryStep(d, net, years, now));
      }
    }
  }

  /**
   * A collection run only appends rows to the table, and the total it
   * reports is at most the number of rows it added.
   */
  lemma CollectOnlyAppends(d: Dblp.DblpSettings, net: (Dblp.Query, Fetcher.Verb, nat) -> Fetcher.Attempt, conferences: Json,
                           keys: Option<seq<string>>, years: Json, rows: seq<Row>, lastId: nat, now: nat)
    ensures var r := Collect(d, net, conferences, keys, years, rows, lastId, now);
      r.Ok? ==> rows <= r.value.rows && r.value.inserted <= |r.value.rows| - |rows|
  {
    var all := Config.AllConferences(conferences);
    if all.Ok? && ConferenceKeys(all.value, keys).Ok? {
      KeyStepGrows(d, net, all.value, years, now);
      FoldGrows(ConferenceKeys(all.value, keys).value, Ingest(rows, lastId, 0), KeyStep(d, net, all.value, years, now));
    }
  }

  // Selecting the papers to download.

  /** A row `download_pdfs` keeps after a filtered query: `pending` with a truthy `pdf_url`. */
  predicate AwaitingDownload(x: Row)
  {
    x.status == Pending && HasLink(x)
  }

  /**
   * The selection of `download_pdfs` as written: with a conference or a
   * year, `get_papers_by_conference(conference, year)` filtered to awaiting
   * rows; otherwise `get_pending_downloads(limit)`. `None` for the
   * conference binds NULL, so a year alone selects nothing.
   */
  function DownloadSelectionAsWritten(rows: seq<Row>, conference: Option<string>, year: int, limit: int): seq<Row>
  {
    if TruthyText(conference) || year != 0 then Filter(PapersByConference(rows, conference, year), AwaitingDownload)
    else PendingDownloads(rows, limit)
  }

  /** As written, a download filtered by year alone finds nothing, whatever the table holds. */
  lemma YearOnlyDownloadSelectsNothing(rows: seq<Row>, year: int, limit: int)
    requires year != 0
    ensures DownloadSelectionAsWritten(rows, None, year, limit) == []
  {
  }

  /** The intended filter: the conference only when one is given, the year only when one is given. */
  predicate InDownloadFilter(x: Row, conference: Option<string>, year: int)
  {
    AwaitingDownload(x) && (conference.Some? ==> x.conference == conference.value) && (year != 0 ==> x.year == Int(year))
  }

  /**
   * The selection of `download_pdfs` with the conference condition dropped
   * when no conference is given.
   */
  function DownloadSelection(rows: seq<Row>, conference: Option<string>, year: int, limit: int): (r: seq<Row>)
    ensures forall x :: x in r ==> x in rows && x.status == Pending && x.pdfUrl.Some?
    ensures TruthyText(conference) || year != 0 ==>
      forall x :: x in r <==> x in rows && InDownloadFilter(x, conference, year)
    ensures !TruthyText(conference) && year == 0 ==> r == PendingDownloads(rows, limit)
  {
    if TruthyText(conference) || year != 0 then Filter(rows, (x: Row) => InDownloadFilter(x, conference, year))
    else PendingDownloads(rows, limit)
  }

  /**
   * The corrected selection differs from the written one only for a year
   * without a conference: otherwise both select the same rows.
   */
  lemma DownloadSelectionsAgree(rows: seq<Row>, conference: Option<string>, year: int, limit: int)
    requires conference.Some? || year == 0
    ensures forall x ::
      x in DownloadSelection(rows, conference, year, limit) <==> x in DownloadSelectionAsWritten(rows, conference, year, limit)
  {
  }

  /** A pending paper of 2024 with a link: the written selection misses it, the corrected one finds it. */
  lemma YearOnlyDownloadMissesPaper(x: Row)
    requires AwaitingDownload(x) && x.year == Int(2024)
    ensures x !in DownloadSelectionAsWritten([x], None, 2024, 0)
    ensures x in DownloadSelection([x], None, 2024, 0)
  {
    assert x in [x];
  }

  /**
   * `download_pdfs(conference, year, limit)`: nothing when no paper is
   * selected, otherwise `batch_download` of the selection.
   */
  method DownloadPdfs(store: PaperStore, s: Fetcher.Settings, base: string, files: Downloader.Files,
                      net: (string, nat) -> Downloader.Transfer, clock: nat -> nat, fault: (nat, Status) -> bool,
                      conference: Option<string>, year: int, limit: int)
    returns (stats: Option<Downloader.BatchStats>, files': Downloader.Files)
    requires store.Valid()
    modifies store
    ensures store.Valid()
    ensures DownloadSelection(old(store.rows), conference, year, limit) == [] ==>
      stats.None? && store.rows == old(store.rows) && store.log == old(store.log) && files' == files
    ensures DownloadSelection(old(store.rows), conference, year, limit) != [] ==>
      stats.Some? && Downloader.Batch(stats.value, store.rows, store.log, files')
        == Downloader.BatchRun(s, base, net, clock, fault,
                               Downloader.Batch(Downloader.BatchStats(0, 0, 0), old(store.rows), old(store.log), files),
                               DownloadSelection(old(store.rows), conference, year, limit))
  {
    var papers := DownloadSelection(store.rows, conference, year, limit);
    if papers == [] {
      return None, files;
    }
    var batch;
    batch, files' := Downloader.BatchDownload(store, s, base, papers, files, net, clock, fault);
    stats := Some(batch);
  }

  // Retrying failed downloads.

  /** `download_status = 'failed' AND pdf_url IS NOT NULL`. */
  predicate FailedWithUrl(x: Row)
  {
    x.status == Failed && x.pdfUrl.Some?
  }

  function FailedDownloads(rows: seq<Row>): (r: seq<Row>)
    ensures forall x :: x in r <==> x in rows && FailedWithUrl(x)
  {
    Filter(rows, FailedWithUrl)
  }

  /** The two tables `update_download_status` writes. */
  datatype Tables = Tables(rows: seq<Row>, log: seq<LogEntry>)

  /**
   * The reset loop: `update_download_status(id, 'pending')` for each
   * paper in turn; the `k`-th write happens at `clock(k)` and fails when
   * `fault(k)`.
   */
  function Resets(t: Tables, papers: seq<Row>, clock: nat -> nat, fault: nat -> bool): Tables
    decreases |papers|
  {
    if papers == [] then t
    else
      var k := |papers| - 1;
      var prev := Resets(t, papers[..k], clock, fault);
      Tables(Downloader.RowsWrite(prev.rows, papers[k].id, Pending, None, clock(k), fault(k)),
             Downloader.LogWrite(prev.log, papers[k].id, Pending, None, clock(k), fault(k)))
  }

  /** Some write of the reset loop that did not fail was for `id`. */
  predicate ResetHit(id: int, papers: seq<Row>, fault: nat -> bool)
  {
    exists k :: 0 <= k < |papers| && papers[k].id == id && !fault(k)
  }

  /**
   * The reset loop sets to `pending` exactly the rows some successful
   * write named, changing nothing else in them but `updated_at`; every
   * other row is unchanged; the log only grows, by at most one `pending`
   * entry without an error per paper, and by exactly one per paper when
   * no write fails.
   */
  lemma {:induction false} ResetsEffect(t: Tables, papers: seq<Row>, clock: nat -> nat, fault: nat -> bool)
    ensures var r := Resets(t, papers, clock, fault);
      |r.rows| == |t.rows|
      && (forall i :: 0 <= i < |t.rows| ==>
            r.rows[i] == if ResetHit(t.rows[i].id, papers, fault)
                         then t.rows[i].(status := Pending, updatedAt := r.rows[i].updatedAt)
                         else t.rows[i])
      && t.log <= r.log && |r.log| <= |t.log| + |papers|
      && (forall j :: |t.log| <= j < |r.log| ==> r.log[j].status == Pending && r.log[j].error.None?)
      && ((forall k :: 0 <= k < |papers| ==> !fault(k)) ==> |r.log| == |t.log| + |papers|)
    decreases |papers|
  {
    if papers != [] {
      var k := |papers| - 1;
      var front := papers[..k];
      ResetsEffect(t, front, clock, fault);
      var prev := Resets(t, front, clock, fault);
      var r := Resets(t, papers, clock, fault);
      assert forall j :: 0 <= j < k ==> front[j] == papers[j];
      forall i | 0 <= i < |t.rows|
        ensures r.rows[i] == if ResetHit(t.rows[i].id, papers, fault)
                             then t.rows[i].(status := Pending, updatedAt := r.rows[i].updatedAt)
                             else t.rows[i]
      {
        if ResetHit(t.rows[i].id, front, fault) {
          var m :| 0 <= m < |front| && front[m].id == t.rows[i].id && !fault(m);
          assert papers[m] == front[m];
        }
        if ResetHit(t.rows[i].id, papers, fault) && !ResetHit(t.rows[i].id, front, fault) {
          var m :| 0 <= m < |papers| && papers[m].id == t.rows[i].id && !fault(m);
          assert m == k;
        }
      }
    }
  }

  /**
   * The retry resets every failed row with a PDF link to `pending`, and
   * only those, when no write fails.
   */
  lemma RetryResetsFailedRows(rows: seq<Row>, lastId: nat, log: seq<LogEntry>, clock: nat -> nat, fault: nat -> bool)
    requires WellFormed(rows, lastId)
    requires forall k :: !fault(k)
    ensures var r := Resets(Tables(rows, log), FailedDownloads(rows), clock, fault);
      |r.rows| == |rows|
      && (forall i :: 0 <= i < |rows| ==>
            r.rows[i] == if FailedWithUrl(rows[i]) then rows[i].(status := Pending, updatedAt := r.rows[i].updatedAt) else rows[i])
      && |r.log| == |log| + |FailedDownloads(rows)|
  {
    var papers := FailedDownloads(rows);
    ResetsEffect(Tables(rows, log), papers, clock, fault);
    forall i | 0 <= i < |rows|
      ensures ResetHit(rows[i].id, papers, fault) <==> FailedWithUrl(rows[i])
    {
      if FailedWithUrl(rows[i]) {
        assert rows[i] in papers;
        var k :| 0 <= k < |papers| && papers[k] == rows[i];
        assert !fault(k);
      }
      if ResetHit(rows[i].id, papers, fault) {
        var k :| 0 <= k < |papers| && papers[k].id == rows[i].id && !fault(k);
        assert papers[k] in papers;
        var m :| 0 <= m < |rows| && rows[m] == papers[k];
        assert m == i;
      }
    }
  }

  /**
   * `retry_failed_downloads`: nothing when no row failed; otherwise each
   * failed row is reset to `pending`, then the same papers go through
   * `batch_download`. The reset writes take their time and failure from
   * `resetClock` and `resetFault`.
   */
  method RetryFailedDownloads(store: PaperStore, s: Fetcher.Settings, base: string, files: Downloader.Files,
                              net: (string, nat) -> Downloader.Transfer, clock: nat -> nat, fault: (nat, Status) -> bool,
                              resetClock: nat -> nat, resetFault: nat -> bool)
    returns (stats: Option<Downloader.BatchStats>, files': Downloader.Files)
    requires store.Valid()
    modifies store
    ensures store.Valid()
    ensures FailedDownloads(old(store.rows)) == [] ==>
      stats.None? && store.rows == old(store.rows) && store.log == old(store.log) && files' == files
    ensures FailedDownloads(old(store.rows)) != [] ==>
      var reset := Resets(Tables(old(store.rows), old(store.log)), FailedDownloads(old(store.rows)), resetClock, resetFault);
      stats.Some? && Downloader.Batch(stats.value, store.rows, store.log, files')
        == Downloader.BatchRun(s, base, net, clock, fault,
                               Downloader.Batch(Downloader.BatchStats(0, 0, 0), reset.rows, reset.log, files),
                               FailedDownloads(old(store.rows)))
  {
    var papers := FailedDownloads(store.rows);
    if papers == [] {
      return None, files;
    }
    ghost var init := Tables(store.rows, store.log);
    for i := 0 to |papers|
      invariant store.Valid()
      invariant init == Tables(old(store.rows), old(store.log))
      invariant Tables(store.rows, store.log) == Resets(init, papers[..i], resetClock, resetFault)
    {
      assert papers[..i + 1][..i] == papers[..i];
      store.UpdateDownloadStatus(papers[i].id, Pending, None, None, resetClock(i), resetFault(i));
    }
    assert papers[..|papers|] == papers;
    var batch;
    batch, files' := Downloader.BatchDownload(store, s, base, papers, files, net, clock, fault);
    stats := Some(batch);
  }

  // Selecting the papers to enrich.

  /** The optional `conference = ?` and `year = ?` conditions of the enrichment query. */
  predicate InEnrichFilter(x: Row, conference: Option<string>, year: int)
  {
    (TruthyText(conference) ==> x.conference == conference.value) && (year != 0 ==> x.year == Int(year))
  }

  /**
   * The enrichment query as written: `AND` binds tighter than `OR`, so the
   * conference and year conditions apply only to rows whose abstract is
   * `''`, and every row whose abstract is NULL is selected.
   */
  function EnrichSelectionAsWritten(rows: seq<Row>, conference: Option<string>, year: int, limit: int): seq<Row>
  {
    Limit(Filter(rows, (x: Row) => x.abstractText.None? || (x.abstractText == Some("") && InEnrichFilter(x, conference, year))), limit)
  }

  /** The intended query: rows without an abstract that meet the given conditions. */
  function EnrichSelection(rows: seq<Row>, conference: Option<string>, year: int, limit: int): (r: seq<Row>)
    ensures forall x :: x in r ==> x in rows && !TruthyText(x.abstractText) && InEnrichFilter(x, conference, year)
    ensures limit <= 0 ==> forall x :: x in rows && !TruthyText(x.abstractText) && InEnrichFilter(x, conference, year) ==> x in r
    ensures limit > 0 ==>
      var matches := EnrichCandidates(rows, conference, year);
      r <= matches && |r| == if limit < |matches| then limit else |matches|
  {
    var f := EnrichCandidates(rows, conference, year);
    PrefixMembers(Limit(f, limit), f);
    Limit(f, limit)
  }

  /** Every row without an abstract that meets the given conditions, in table order. */
  function EnrichCandidates(rows: seq<Row>, conference: Option<string>, year: int): seq<Row>
  {
    Filter(rows, (x: Row) => !TruthyText(x.abstractText) && InEnrichFilter(x, conference, year))
  }

  /** The elements of a prefix are elements of the whole. */
  lemma PrefixMembers(r: seq<Row>, f: seq<Row>)
    requires r <= f
    ensures forall x :: x in r ==> x in f
  {
    forall x | x in r
      ensures x in f
    {
      var i :| 0 <= i < |r| && r[i] == x;
      assert f[i] == x;
    }
  }

  /** Two tests that agree on every element select the same elements. */
  lemma {:induction false} FilterAgree(xs: seq<Row>, p: Row -> bool, q: Row -> bool)
    requires forall x :: x in xs ==> p(x) == q(x)
    ensures Filter(xs, p) == Filter(xs, q)
    decreases |xs|
  {
    if xs != [] {
      assert forall x :: x in xs[1..] ==> x in xs;
      FilterAgree(xs[1..], p, q);
    }
  }

  /** Without a conference or a year the written and the intended queries are the same. */
  lemma EnrichSelectionsAgreeUnfiltered(rows: seq<Row>, conference: Option<string>, limit: int)
    requires !TruthyText(conference)
    ensures EnrichSelectionAsWritten(rows, conference, 0, limit) == EnrichSelection(rows, conference, 0, limit)
  {
    FilterAgree(rows, (x: Row) => x.abstractText.None? || (x.abstractText == Some("") && InEnrichFilter(x, conference, 0)),
                (x: Row) => !TruthyText(x.abstractText) && InEnrichFilter(x, conference, 0));
  }

  /**
   * A paper of another conference without an abstract: the written query
   * for CRYPTO selects it, the intended one does not.
   */
  lemma NullAbstractEscapesFilter(x: Row)
    requires x.abstractText.None? && x.conference != "CRYPTO"
    ensures x in EnrichSelectionAsWritten([x], Some("CRYPTO"), 0, 0)
    ensures x !in EnrichSelection([x], Some("CRYPTO"), 0, 0)
  {
    assert x in [x];
  }

  /**
   * `enrich_abstracts(conference, year, limit)`: nothing when every
   * selected paper is missing, otherwise `batch_enrich_papers` of the
   * selection.
   */
  method EnrichAbstracts(store: PaperStore, s: Fetcher.Settings, net: (Scholar.Request, Fetcher.Verb, nat) -> Fetcher.Attempt,
                         clock: nat -> nat, conference: Option<string>, year: int, limit: int)
    returns (r: Option<Result<Scholar.EnrichStats>>)
    requires store.Valid()
    modifies store
    ensures store.Valid() && store.log == old(store.log)
    ensures EnrichSelection(old(store.rows), conference, year, limit) == [] ==> r.None? && store.rows == old(store.rows)
    ensures EnrichSelection(old(store.rows), conference, year, limit) != [] ==>
      var done := Scholar.EnrichAll(s, net, clock, old(store.rows), EnrichSelection(old(store.rows), conference, year, limit));
      r.Some? && (r.value.Ok? ==> done == Ok((r.value.value, store.rows))) && (r.value.Raised? ==> done.Raised?)
  {
    var papers := EnrichSelection(store.rows, conference, year, limit);
    if papers == [] {
      return None;
    }
    var stats := Scholar.BatchEnrich(store, s, net, clock, papers);
    r := Some(stats);
  }
}
