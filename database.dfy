/**
 * The `papers` and `download_log` tables of the metadata store
 * (utils/database.py), held in memory: the schema's NOT NULL, UNIQUE,
 * AUTOINCREMENT and DEFAULT constraints, the four writing operations and
 * the three queries.
 */
module Database {
  import opened Wrappers
  import opened Strings
  import opened PyJson
  import opened Records
  import opened Seqs

  /** The data columns `update_paper` is given keys for. */
  datatype Column =
    | Title | Authors | Abstract | Year | Conference | Url | PdfUrl | PdfPath | Doi | DblpKey | Notes

  /** A value bound into a TEXT column; `None` when it cannot be bound. */
  function TextCell(v: Json): (r: Option<Option<string>>)
    ensures r.None? <==> Bind(v).None?
    ensures r.Some? ==> (r.value.None? <==> v.JNull?)
    ensures v.JStr? ==> r == Some(Some(v.s))
  {
    match Bind(v)
    case None => None
    case Some(x) => Some(TextAffinity(x))
  }

  /** A value bound into the INTEGER `year` column; `None` when it cannot be bound. */
  function YearCell(v: Json): (r: Option<Sql>)
    ensures r.None? <==> Bind(v).None?
    ensures v.JInt? ==> r == Some(Int(v.i))
  {
    match Bind(v)
    case None => None
    case Some(x) => Some(IntegerAffinity(x))
  }

  /** Every value `insert_paper` binds can be bound. */
  predicate Bindable(p: Paper)
  {
    Bind(p.title).Some? && Bind(p.authors).Some? && Bind(p.abstractText).Some? && Bind(p.year).Some?
    && Bind(p.conference).Some? && Bind(p.url).Some? && Bind(p.pdfUrl).Some? && Bind(p.doi).Some?
    && Bind(p.dblpKey).Some?
  }

  /** A non-NULL `dblp_key` that some row already holds. */
  predicate KeyTaken(rows: seq<Row>, key: Option<string>)
  {
    key.Some? && exists i :: 0 <= i < |rows| && rows[i].dblpKey == key
  }

  /**
   * The table invariant: ids are positive, strictly increasing in table
   * order and never above the AUTOINCREMENT counter, and no two rows share
   * a non-NULL `dblp_key`. `title` and `conference` are never NULL by the
   * type of `Row`.
   */
  predicate WellFormed(rows: seq<Row>, lastId: nat)
  {
    (forall i :: 0 <= i < |rows| ==> 0 < rows[i].id <= lastId)
    && (forall i, j :: 0 <= i < j < |rows| ==> rows[i].id < rows[j].id)
    && (forall i, j :: 0 <= i < |rows| && 0 <= j < |rows| && i != j && rows[i].dblpKey.Some? ==> rows[i].dblpKey != rows[j].dblpKey)
  }

  datatype Refusal = Unbindable | NullTitle | NullConference | DuplicateKey

  /**
   * What one `insert_paper` does: it adds `row`, or it refuses. `reported`
   * says whether the id is handed back: the log line after the commit
   * slices the title, so a title that is not a string makes the call
   * return `None` although the row was committed.
   */
  datatype InsertOutcome = Added(row: Row, reported: bool) | Refused(reason: Refusal)

  /** `insert_paper` on a table holding `rows` whose AUTOINCREMENT counter stands at `lastId`. */
  function TryInsert(rows: seq<Row>, lastId: nat, p: Paper, now: nat): (r: InsertOutcome)
    ensures r.Refused? <==>
      !Bindable(p) || p.title.JNull? || p.conference.JNull? || KeyTaken(rows, TextCell(p.dblpKey).value)
    ensures r == Refused(DuplicateKey) ==> Bindable(p) && KeyTaken(rows, TextCell(p.dblpKey).value)
    ensures r.Added? ==> r.row.id == lastId + 1 && r.row.status == Pending
    ensures r.Added? ==> r.row.pdfPath.None? && r.row.notes.None? && r.row.createdAt == now && r.row.updatedAt == now
    ensures r.Added? ==> (r.reported <==> p.title.JStr?)
    ensures r.Added? && p.title.JStr? ==> r.row.title == p.title.s
    ensures r.Added? && p.conference.JStr? ==> r.row.conference == p.conference.s
    ensures r.Added? ==> Some(r.row.dblpKey) == TextCell(p.dblpKey) && Some(r.row.pdfUrl) == TextCell(p.pdfUrl)
    ensures r.Added? ==> Some(r.row.year) == YearCell(p.year)
    ensures r.Added? ==>
      Some(r.row.authors) == TextCell(p.authors) && Some(r.row.abstractText) == TextCell(p.abstractText)
      && Some(r.row.url) == TextCell(p.url) && Some(r.row.doi) == TextCell(p.doi)
  {
    if !Bindable(p) then Refused(Unbindable)
    else
      var title := TextCell(p.title).value;
      var conference := TextCell(p.conference).value;
      var key := TextCell(p.dblpKey).value;
      if title.None? then Refused(NullTitle)
      else if conference.None? then Refused(NullConference)
      else if KeyTaken(rows, key) then Refused(DuplicateKey)
      else
        var row := Row(
          lastId + 1, title.value, TextCell(p.authors).value, TextCell(p.abstractText).value,
          YearCell(p.year).value, conference.value, TextCell(p.url).value, TextCell(p.pdfUrl).value,
          None, TextCell(p.doi).value, key, now, now, Pending, None);
        Added(row, p.title.JStr?)
  }

  /** A successful insert keeps the invariant and its id is above every earlier id. */
  lemma InsertKeepsWellFormed(rows: seq<Row>, lastId: nat, p: Paper, now: nat)
    requires WellFormed(rows, lastId)
    requires TryInsert(rows, lastId, p, now).Added?
    ensures WellFormed(rows + [TryInsert(rows, lastId, p, now).row], lastId + 1)
    ensures forall i :: 0 <= i < |rows| ==> rows[i].id < TryInsert(rows, lastId, p, now).row.id
  {
    var row := TryInsert(rows, lastId, p, now).row;
    var rows' := rows + [row];
    forall i, j | 0 <= i < |rows'| && 0 <= j < |rows'| && i != j && rows'[i].dblpKey.Some?
      ensures rows'[i].dblpKey != rows'[j].dblpKey
    {
      if i == |rows| {
        assert rows'[j] == rows[j];
      } else if j == |rows| {
        assert rows'[i] == rows[i];
      }
    }
  }

  /**
   * Inserting the same paper again is refused: once a paper with a non-NULL
   * `dblp_key` is in the table, a second copy changes nothing.
   */
  lemma ReinsertRefused(rows: seq<Row>, lastId: nat, p: Paper, now: nat, later: nat)
    requires TryInsert(rows, lastId, p, now).Added?
    requires !p.dblpKey.JNull?
    ensures TryInsert(rows + [TryInsert(rows, lastId, p, now).row], lastId + 1, p, later) == Refused(DuplicateKey)
  {
    var row := TryInsert(rows, lastId, p, now).row;
    assert (rows + [row])[|rows|] == row;
  }

  /** The index of the row with id `id`. */
  function FindRow(rows: seq<Row>, id: int): (r: Option<nat>)
    ensures r.Some? ==> r.value < |rows| && rows[r.value].id == id
    ensures r.None? ==> forall i :: 0 <= i < |rows| ==> rows[i].id != id
  {
    if rows == [] then None
    else if rows[|rows| - 1].id == id then Some(|rows| - 1)
    else FindRow(rows[..|rows| - 1], id)
  }

  /** A TEXT column after a patch: the bound value when the patch names the column. */
  function Patched(patch: map<Column, Json>, c: Column, current: Option<string>): Option<string>
    requires forall k :: k in patch ==> Bind(patch[k]).Some?
  {
    if c in patch then TextAffinity(Bind(patch[c]).value) else current
  }

  /** The row as `UPDATE papers SET <patch>, updated_at = now` leaves it; `None` when a NOT NULL column would become NULL. */
  function PatchRow(r: Row, patch: map<Column, Json>, now: nat): (nr: Option<Row>)
    requires forall k :: k in patch ==> Bind(patch[k]).Some?
    ensures nr.None? <==> (Title in patch && patch[Title].JNull?) || (Conference in patch && patch[Conference].JNull?)
    ensures nr.Some? ==> nr.value.id == r.id && nr.value.status == r.status && nr.value.createdAt == r.createdAt
    ensures nr.Some? ==> nr.value.updatedAt == now
    ensures nr.Some? ==> Untouched(r, nr.value, patch.Keys)
  {
    var title := Patched(patch, Title, Some(r.title));
    var conference := Patched(patch, Conference, Some(r.conference));
    if title.None? || conference.None? then None
    else
      var year := if Year in patch then IntegerAffinity(Bind(patch[Year]).value) else r.year;
      Some(r.(
        title := title.value,
        authors := Patched(patch, Authors, r.authors),
        abstractText := Patched(patch, Abstract, r.abstractText),
        year := year,
        conference := conference.value,
        url := Patched(patch, Url, r.url),
        pdfUrl := Patched(patch, PdfUrl, r.pdfUrl),
        pdfPath := Patched(patch, PdfPath, r.pdfPath),
        doi := Patched(patch, Doi, r.doi),
        dblpKey := Patched(patch, DblpKey, r.dblpKey),
        notes := Patched(patch, Notes, r.notes),
        updatedAt := now))
  }

  /** A patched column holds the value the patch binds, after the column's affinity. */
  lemma PatchedValues(r: Row, patch: map<Column, Json>, now: nat)
    requires forall k :: k in patch ==> Bind(patch[k]).Some?
    ensures var nr := PatchRow(r, patch, now);
      nr.Some? ==>
        (forall c :: c in patch && c != Year ==> TextColumn(nr.value, c) == TextAffinity(Bind(patch[c]).value))
        && (Year in patch ==> nr.value.year == IntegerAffinity(Bind(patch[Year]).value))
  {
    var nr := PatchRow(r, patch, now);
    if nr.Some? {
      forall c | c in patch && c != Year
        ensures TextColumn(nr.value, c) == TextAffinity(Bind(patch[c]).value)
      {
        assert TextAffinity(Bind(patch[c]).value) == Patched(patch, c, TextColumn(r, c));
      }
    }
  }

  /** The value of a TEXT column of `r`; the NOT NULL ones are never `None`. */
  function TextColumn(r: Row, c: Column): Option<string>
    requires c != Year
  {
    match c
    case Title => Some(r.title)
    case Authors => r.authors
    case Abstract => r.abstractText
    case Conference => Some(r.conference)
    case Url => r.url
    case PdfUrl => r.pdfUrl
    case PdfPath => r.pdfPath
    case Doi => r.doi
    case DblpKey => r.dblpKey
    case Notes => r.notes
  }

  /** Every column outside `cols` holds the same value in `a` and `b`. */
  predicate Untouched(a: Row, b: Row, cols: set<Column>)
  {
    (Title !in cols ==> a.title == b.title)
    && (Authors !in cols ==> a.authors == b.authors)
    && (Abstract !in cols ==> a.abstractText == b.abstractText)
    && (Year !in cols ==> a.year == b.year)
    && (Conference !in cols ==> a.conference == b.conference)
    && (Url !in cols ==> a.url == b.url)
    && (PdfUrl !in cols ==> a.pdfUrl == b.pdfUrl)
    && (PdfPath !in cols ==> a.pdfPath == b.pdfPath)
    && (Doi !in cols ==> a.doi == b.doi)
    && (DblpKey !in cols ==> a.dblpKey == b.dblpKey)
    && (Notes !in cols ==> a.notes == b.notes)
  }

  /** All rows but the one at index `k`. */
  function Others(rows: seq<Row>, k: nat): seq<Row>
    requires k < |rows|
  {
    rows[..k] + rows[k + 1..]
  }

  /**
   * `update_paper(id, patch)`: the answer and the rows afterwards. An empty
   * patch, a value that cannot be bound, a NOT NULL or a UNIQUE violation
   * give `false` and no change; an id no row has gives `true` and no change.
   */
  function UpdateRows(rows: seq<Row>, id: int, patch: map<Column, Json>, now: nat): (r: (bool, seq<Row>))
    ensures patch == map[] ==> r == (false, rows)
    ensures !r.0 ==> r.1 == rows
    ensures (exists c :: c in patch && Bind(patch[c]).None?) ==> r == (false, rows)
    ensures patch != map[] && (forall c :: c in patch ==> Bind(patch[c]).Some?) && FindRow(rows, id).None? ==> r == (true, rows)
    ensures |r.1| == |rows|
    ensures forall i :: 0 <= i < |rows| && rows[i].id != id ==> r.1[i] == rows[i]
    ensures forall i :: 0 <= i < |rows| ==> Untouched(rows[i], r.1[i], patch.Keys)
    ensures forall i :: 0 <= i < |rows| ==> r.1[i].id == rows[i].id && r.1[i].status == rows[i].status
    ensures patch != map[] && (forall c :: c in patch ==> Bind(patch[c]).Some?) && FindRow(rows, id).Some? ==>
      var k := FindRow(rows, id).value;
      var nr := PatchRow(rows[k], patch, now);
      r == if nr.Some? && !KeyTaken(Others(rows, k), nr.value.dblpKey) then (true, rows[k := nr.value]) else (false, rows)
  {
    if patch == map[] then (false, rows)
    else if exists c :: c in patch && Bind(patch[c]).None? then (false, rows)
    else
      match FindRow(rows, id)
      case None => (true, rows)
      case Some(k) =>
        match PatchRow(rows[k], patch, now)
        case None => (false, rows)
        case Some(nr) =>
          if KeyTaken(Others(rows, k), nr.dblpKey) then (false, rows)
          else (true, rows[k := nr])
  }

  /** `update_paper` keeps the table invariant. */
  lemma UpdateKeepsWellFormed(rows: seq<Row>, lastId: nat, id: int, patch: map<Column, Json>, now: nat)
    requires WellFormed(rows, lastId)
    ensures WellFormed(UpdateRows(rows, id, patch, now).1, lastId)
  {
    var r := UpdateRows(rows, id, patch, now);
    if r.1 != rows {
      var k := FindRow(rows, id).value;
      var nr := r.1[k];
      assert r.1 == rows[k := nr];
      assert !KeyTaken(Others(rows, k), nr.dblpKey);
      forall i, j | 0 <= i < |r.1| && 0 <= j < |r.1| && i != j && r.1[i].dblpKey.Some?
        ensures r.1[i].dblpKey != r.1[j].dblpKey
      {
        if i == k {
          var o := if j < k then j else j - 1;
          assert Others(rows, k)[o] == rows[j];
        } else if j == k {
          var o := if i < k then i else i - 1;
          assert Others(rows, k)[o] == rows[i];
        }
      }
    }
  }

  /**
   * The `papers` UPDATE of `update_download_status`: the status and
   * `updated_at` of the row with id `id` change, and `pdf_path` changes
   * only when a truthy path is given.
   */
  function SetDownloadStatus(rows: seq<Row>, id: int, status: Status, pdfPath: Option<string>, now: nat): (r: seq<Row>)
    ensures |r| == |rows|
    ensures forall i :: 0 <= i < |rows| && rows[i].id != id ==> r[i] == rows[i]
    ensures forall i :: 0 <= i < |rows| && rows[i].id == id ==>
      r[i].status == status && r[i].updatedAt == now
      && r[i].pdfPath == (if TruthyText(pdfPath) then pdfPath else rows[i].pdfPath)
      && Untouched(rows[i], r[i], {PdfPath}) && r[i].id == id && r[i].createdAt == rows[i].createdAt
  {
    seq(|rows|, i requires 0 <= i < |rows| =>
      if rows[i].id == id then
        rows[i].(status := status, updatedAt := now,
                 pdfPath := if TruthyText(pdfPath) then pdfPath else rows[i].pdfPath)
      else rows[i])
  }

  /** `UPDATE papers SET download_status = ? WHERE id = ?`, with nothing else changed. */
  function SetStatusOnly(rows: seq<Row>, id: int, status: Status): (r: seq<Row>)
    ensures |r| == |rows|
    ensures forall i :: 0 <= i < |rows| && rows[i].id != id ==> r[i] == rows[i]
    ensures forall i :: 0 <= i < |rows| && rows[i].id == id ==>
      r[i].status == status && Untouched(rows[i], r[i], {}) && r[i].id == id
      && r[i].createdAt == rows[i].createdAt && r[i].updatedAt == rows[i].updatedAt
  {
    seq(|rows|, i requires 0 <= i < |rows| => if rows[i].id == id then rows[i].(status := status) else rows[i])
  }

  /** Changing only status, `pdf_path` and `updated_at` keeps the table invariant. */
  lemma SameKeysKeepWellFormed(rows: seq<Row>, rows': seq<Row>, lastId: nat)
    requires WellFormed(rows, lastId) && |rows'| == |rows|
    requires forall i :: 0 <= i < |rows| ==> rows'[i].id == rows[i].id && rows'[i].dblpKey == rows[i].dblpKey
    ensures WellFormed(rows', lastId)
  {
  }

  /** `get_pending_downloads(limit)`; a `limit` of 0 stands for `None`. */
  function PendingDownloads(rows: seq<Row>, limit: int): (r: seq<Row>)
    ensures r <= Filter(rows, IsPendingWithLink)
    ensures forall x :: x in r ==> x in rows && x.status == Pending && x.pdfUrl.Some?
    ensures limit <= 0 ==> forall x :: x in r <==> x in rows && x.status == Pending && x.pdfUrl.Some?
    ensures limit > 0 ==>
      var matches := Filter(rows, IsPendingWithLink);
      |r| == if limit < |matches| then limit else |matches|
  {
    Limit(Filter(rows, IsPendingWithLink), limit)
  }

  predicate IsPendingWithLink(r: Row)
  {
    r.status == Pending && r.pdfUrl.Some?
  }

  /**
   * `get_papers_by_conference(conference, year)`; `None` for the
   * conference binds NULL, which equals nothing, and a `year` of 0 stands
   * for `None`.
   */
  function PapersByConference(rows: seq<Row>, conference: Option<string>, year: int): (r: seq<Row>)
    ensures conference.None? ==> r == []
    ensures forall x :: x in r <==>
      x in rows && conference == Some(x.conference) && (year != 0 ==> x.year == Int(year))
  {
    match conference
    case None => []
    case Some(c) =>
      if year != 0 then Filter(rows, (x: Row) => x.conference == c && x.year == Int(year))
      else Filter(rows, (x: Row) => x.conference == c)
  }

  function Conferences(rows: seq<Row>): (cs: seq<string>)
    ensures |cs| == |rows| && forall i :: 0 <= i < |rows| ==> cs[i] == rows[i].conference
  {
    seq(|rows|, i requires 0 <= i < |rows| => rows[i].conference)
  }

  function Statuses(rows: seq<Row>): (ss: seq<Status>)
    ensures |ss| == |rows| && forall i :: 0 <= i < |rows| ==> ss[i] == rows[i].status
  {
    seq(|rows|, i requires 0 <= i < |rows| => rows[i].status)
  }

  datatype Statistics = Statistics(total: nat, byConference: seq<(string, nat)>, byStatus: seq<(Status, nat)>)

  /**
   * `get_statistics`: the row count and the per-conference and per-status
   * counts. Each grouping lists every value once, its counts sum to the
   * total, and each count is the number of rows with that value.
   */
  function GetStatistics(rows: seq<Row>): (s: Statistics)
    ensures s.total == |rows|
    ensures SumCounts(s.byConference) == s.total && SumCounts(s.byStatus) == s.total
    ensures DistinctKeys(s.byConference) && DistinctKeys(s.byStatus)
    ensures AllPositive(s.byConference) && AllPositive(s.byStatus)
    ensures forall c :: CountOf(s.byConference, c) == Occurrences(Conferences(rows), c)
    ensures forall st :: CountOf(s.byStatus, st) == Occurrences(Statuses(rows), st)
  {
    TallyFacts(Conferences(rows));
    TallyFacts(Statuses(rows));
    Statistics(|rows|, Tally(Conferences(rows)), Tally(Statuses(rows)))
  }

  /**
   * The metadata store. `rows` is the `papers` table in rowid order, `log`
   * the `download_log` table, `lastId` the AUTOINCREMENT counter.
   */
  class PaperStore {
    var rows: seq<Row>
    var log: seq<LogEntry>
    var lastId: nat

    predicate Valid()
      reads this
    {
      WellFormed(rows, lastId)
    }

    /** A fresh database: both tables empty. */
    constructor ()
      ensures Valid() && rows == [] && log == [] && lastId == 0
    {
      rows := [];
      log := [];
      lastId := 0;
    }

    /** `insert_paper`: the id of the new row, or `None`. */
    method InsertPaper(p: Paper, now: nat) returns (id: Option<nat>)
      requires Valid()
      modifies this
      ensures Valid() && log == old(log)
      ensures match TryInsert(old(rows), old(lastId), p, now)
        case Added(row, reported) =>
          rows == old(rows) + [row] && lastId == row.id && id == (if reported then Some(row.id) else None)
        case Refused(_) => rows == old(rows) && lastId == old(lastId) && id.None?
    {
      match TryInsert(rows, lastId, p, now)
      case Added(row, reported) =>
        InsertKeepsWellFormed(rows, lastId, p, now);
        rows := rows + [row];
        lastId := row.id;
        id := if reported then Some(row.id) else None;
      case Refused(_) =>
        id := None;
    }

    /** `update_paper`: whether the statement ran and committed. */
    method UpdatePaper(id: int, patch: map<Column, Json>, now: nat) returns (ok: bool)
      requires Valid()
      modifies this
      ensures Valid() && log == old(log) && lastId == old(lastId)
      ensures (ok, rows) == UpdateRows(old(rows), id, patch, now)
    {
      UpdateKeepsWellFormed(rows, lastId, id, patch, now);
      var r := UpdateRows(rows, id, patch, now);
      ok := r.0;
      rows := r.1;
    }

    /**
     * `update_download_status`: the row update and the log append commit
     * together, or, when the statement fails (`fault`), neither happens.
     */
    method UpdateDownloadStatus(id: int, status: Status, pdfPath: Option<string>, error: Option<string>, now: nat, fault: bool)
      requires Valid()
      modifies this
      ensures Valid() && lastId == old(lastId)
      ensures fault ==> rows == old(rows) && log == old(log)
      ensures !fault ==> rows == SetDownloadStatus(old(rows), id, status, pdfPath, now)
      ensures !fault ==> log == old(log) + [LogEntry(id, status, error, now)]
    {
      if !fault {
        SameKeysKeepWellFormed(rows, SetDownloadStatus(rows, id, status, pdfPath, now), lastId);
        rows := SetDownloadStatus(rows, id, status, pdfPath, now);
        log := log + [LogEntry(id, status, error, now)];
      }
    }

    /** A bare `UPDATE papers SET download_status = ? WHERE id = ?`: no log entry, no `updated_at`. */
    method SetStatus(id: int, status: Status)
      requires Valid()
      modifies this
      ensures Valid() && lastId == old(lastId) && log == old(log)
      ensures rows == SetStatusOnly(old(rows), id, status)
    {
      SameKeysKeepWellFormed(rows, SetStatusOnly(rows, id, status), lastId);
      rows := SetStatusOnly(rows, id, status);
    }
  }
}
