/**
 * The shapes that travel between the crawlers, the store and the
 * downloaders: the crawled paper dictionary, SQLite values and column
 * affinity, a stored `papers` row, a `download_log` entry and the download
 * status vocabulary.
 */
module Records {
  import opened Wrappers
  import opened Strings
  import opened PyJson

  /**
   * A crawled paper: the dictionary an adapter builds. The nine keys the
   * store reads are fields; `JNull` stands both for a key set to `None` and
   * for a key the adapter never set, since every consumer reads them with
   * `get`. Keys nothing persists (`paper_id`, `eprint_url`, `venue`, ...)
   * are kept in `extra`, in the order the adapter set them.
   */
  datatype Paper = Paper(
    title: Json, authors: Json, abstractText: Json, year: Json, conference: Json,
    url: Json, pdfUrl: Json, doi: Json, dblpKey: Json,
    extra: seq<(string, Json)>)

  /** A value stored in, or bound into, an SQLite column. */
  datatype Sql = Null | Int(i: int) | Text(t: string)

  /**
   * Binding a Python value as a statement parameter: `None`, booleans,
   * integers and strings bind; a list or a dictionary cannot be bound and
   * the statement fails.
   */
  function Bind(v: Json): (r: Option<Sql>)
    ensures r.None? <==> (v.JList? || v.JDict?)
    ensures r == Some(Null) <==> v.JNull?
    ensures v.JStr? ==> r == Some(Text(v.s))
    ensures v.JInt? ==> r == Some(Int(v.i))
  {
    match v
    case JNull => Some(Null)
    case JBool(b) => Some(Int(if b then 1 else 0))
    case JInt(i) => Some(Int(i))
    case JStr(s) => Some(Text(s))
    case _ => None
  }

  /** What a TEXT column stores: integers become their decimal text. */
  function TextAffinity(v: Sql): (r: Option<string>)
    ensures r.None? <==> v.Null?
    ensures v.Text? ==> r == Some(v.t)
    ensures v.Int? ==> r == Some(IntToString(v.i))
  {
    match v
    case Null => None
    case Int(i) => Some(IntToString(i))
    case Text(t) => Some(t)
  }

  /** What an INTEGER column stores: text that reads as an integer becomes that integer. */
  function IntegerAffinity(v: Sql): (r: Sql)
    ensures r.Null? <==> v.Null?
    ensures v.Int? ==> r == v
    ensures v.Text? && ParseInt(v.t).Some? ==> r == Int(ParseInt(v.t).value)
    ensures r.Text? ==> r == v && ParseInt(r.t).None?
  {
    match v
    case Text(t) =>
      (match ParseInt(t)
       case Some(n) => Int(n)
       case None => v)
    case _ => v
  }

  /** The value a Python f-string prints for a column value read back from the store. */
  function SqlStr(v: Sql): string
  {
    match v
    case Null => "None"
    case Int(i) => IntToString(i)
    case Text(t) => t
  }

  /**
   * The values `download_status` takes. `Completed` is written by the
   * metadata downloader, `Downloaded` by the status rescan of the download
   * tool; the two are kept apart, as in the program.
   */
  datatype Status = Pending | Downloading | Completed | Failed | Downloaded

  /** One row of the `papers` table. TEXT columns hold text or NULL; `year` has INTEGER affinity. */
  datatype Row = Row(
    id: nat, title: string, authors: Option<string>, abstractText: Option<string>,
    year: Sql, conference: string, url: Option<string>, pdfUrl: Option<string>,
    pdfPath: Option<string>, doi: Option<string>, dblpKey: Option<string>,
    createdAt: nat, updatedAt: nat, status: Status, notes: Option<string>)

  /** One row of `download_log`. */
  datatype LogEntry = LogEntry(paperId: int, status: Status, error: Option<string>, at: nat)

  /** Python truthiness of a TEXT column value: neither NULL nor empty. */
  predicate TruthyText(v: Option<string>)
  {
    v.Some? && v.value != []
  }

  /** A row with a PDF link: `pdf_url IS NOT NULL AND pdf_url != ''`, or a truthy `paper['pdf_url']`. */
  predicate HasLink(r: Row)
  {
    TruthyText(r.pdfUrl)
  }

  /** A TEXT column value handed back to Python. */
  function TextJson(v: Option<string>): (r: Json)
    ensures Truthy(r) <==> TruthyText(v)
  {
    match v
    case None => JNull
    case Some(t) => JStr(t)
  }
}
