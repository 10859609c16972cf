/**
 * The adapter of the four security venues (crawlers/security_crawler.py):
 * the choice of the page to fetch, and the string rules that turn the
 * elements found on each venue's page into paper records. What the HTML
 * parser finds is an input: for each venue, the sequence of elements the
 * page's queries return, with the texts and attributes the adapter reads.
 */
module Security {
  import opened Wrappers
  import opened Strings
  import opened PyJson
  import opened Records
  import opened Seqs
  import opened Fetcher

  const Usenix: string := "USENIX Security"
  const Ndss: string := "NDSS"
  const IeeeSp: string := "IEEE S&P"
  const Ccs: string := "CCS"

  /** The page template of a venue, split around its `{year}` slot. */
  function Template(conference: string): (r: Option<(string, string)>)
    ensures r.Some? <==> conference in {Usenix, Ndss, IeeeSp, Ccs}
  {
    if conference == Usenix then Some(("https://www.usenix.org/conference/usenixsecurity", "/technical-sessions"))
    else if conference == Ndss then Some(("https://www.ndss-symposium.org/ndss", "/accepted-papers/"))
    else if conference == IeeeSp then Some(("https://www.ieee-security.org/TC/SP", "/program-papers.html"))
    else if conference == Ccs then Some(("https://www.sigsac.org/ccs/CCS", "/accepted-papers.html"))
    else None
  }

  /** The pages that do not follow their venue's template. */
  function SpecialPage(conference: string, year: int): (r: Option<string>)
    ensures r.Some? <==> conference == Usenix && year == 2025
  {
    if conference == Usenix && year == 2025 then
      Some("https://www.usenix.org/conference/usenixsecurity25/technical-sessions")
    else None
  }

  /** `str(year)[-2:]`. */
  function LastTwo(s: string): (r: string)
    ensures |s| <= 2 ==> r == s
    ensures |s| > 2 ==> |r| == 2 && EndsWith(s, r)
  {
    if |s| <= 2 then s else s[|s| - 2..]
  }

  /**
   * The page `crawl` fetches: none for an unsupported venue; the special
   * page when there is one; otherwise the template filled with the last two
   * digits of a year before 2025 and with the whole year from 2025 on.
   */
  function PageUrl(conference: string, year: int): (r: Option<string>)
    ensures r.None? <==> Template(conference).None?
    ensures SpecialPage(conference, year).Some? ==> r == SpecialPage(conference, year)
    ensures Template(conference).Some? && SpecialPage(conference, year).None? ==>
      var (front, back) := Template(conference).value;
      r == Some(front + (if year < 2025 then LastTwo(IntToString(year)) else IntToString(year)) + back)
  {
    match Template(conference)
    case None => None
    case Some((front, back)) =>
      if SpecialPage(conference, year).Some? then SpecialPage(conference, year)
      else if year < 2025 then Some(front + LastTwo(IntToString(year)) + back)
      else Some(front + IntToString(year) + back)
  }

  /** The override matters: the USENIX template filled with 2025 names another page. */
  lemma SpecialPageOverrides()
    ensures PageUrl(Usenix, 2025) != Some("https://www.usenix.org/conference/usenixsecurity" + IntToString(2025) + "/technical-sessions")
  {
    assert IntToString(2025) == "2025";
    var special := "https://www.usenix.org/conference/usenixsecurity25/technical-sessions";
    var filled := "https://www.usenix.org/conference/usenixsecurity2025/technical-sessions";
    assert special[49] != filled[49];
  }

  /** A relative link gets the venue's host in front; an empty or absolute one is kept. */
  function Absolute(host: string, href: string): (r: string)
    ensures href == [] || StartsWith(href, "http") ==> r == href
    ensures href != [] && !StartsWith(href, "http") ==> r == host + href && EndsWith(r, href)
  {
    if href != [] && !StartsWith(href, "http") then host + href else href
  }

  /**
   * `re.sub(marker + '.*$', '', s, flags=re.IGNORECASE)` can remove from
   * index `i`: the marker occurs there, ignoring case, and no line break
   * follows it before the last character.
   */
  predicate CutsAt(s: string, marker: string, i: int)
  {
    OccursAt(Lower(s), Lower(marker), i) && forall k :: i + |marker| <= k < |s| - 1 ==> s[k] != '\n'
  }

  /** The leftmost index from `i` on where the pattern matches. */
  function FirstCut(s: string, marker: string, i: nat): (r: Option<nat>)
    ensures r.Some? ==> i <= r.value && CutsAt(s, marker, r.value)
    ensures forall j :: i <= j && (r.None? || j < r.value) ==> !CutsAt(s, marker, j)
    decreases |s| - i
  {
    if i > |s| then None
    else if CutsAt(s, marker, i) then Some(i)
    else FirstCut(s, marker, i + 1)
  }

  /** The substitution: everything from the leftmost match to the end goes, except a final line break. */
  function CutFrom(s: string, marker: string): (r: string)
    ensures FirstCut(s, marker, 0).None? ==> r == s
    ensures FirstCut(s, marker, 0).Some? ==> s[..FirstCut(s, marker, 0).value] <= r
  {
    match FirstCut(s, marker, 0)
    case None => s
    case Some(k) => s[..k] + (if s != [] && s[|s| - 1] == '\n' then "\n" else "")
  }

  lemma LowerPrefix(s: string, k: nat)
    requires k <= |s|
    ensures Lower(s[..k]) == Lower(s)[..k]
  {
  }

  /** On one line of text, what the substitution leaves holds no further match. */
  lemma {:induction false} CutLeavesNoMarker(s: string, marker: string)
    requires marker != [] && forall k :: 0 <= k < |s| ==> s[k] != '\n'
    ensures forall j :: !CutsAt(CutFrom(s, marker), marker, j)
  {
    var r := CutFrom(s, marker);
    match FirstCut(s, marker, 0)
    case None =>
    case Some(k) =>
      assert r == s[..k];
      forall j | CutsAt(r, marker, j)
        ensures false
      {
        LowerPrefix(s, k);
        assert 0 <= j && j + |marker| <= k <= |s|;
        assert Lower(s)[..k][j..j + |marker|] == Lower(s)[j..j + |marker|];
        assert OccursAt(Lower(s), Lower(marker), j);
        assert CutsAt(s, marker, j);
      }
  }

  /** The authors under a USENIX heading, without a trailing presentation or award remark. */
  function UsenixAuthors(text: string): (r: string)
    ensures |r| <= |text|
  {
    Strip(CutFrom(CutFrom(text, "Short Presentation"), "Distinguished Paper"))
  }

  /** An `<a>` element: its stripped text and its `href`, when it has one. */
  datatype Anchor = Anchor(text: string, href: Option<string>)

  function Href(a: Anchor): string
  {
    if a.href.Some? then a.href.value else ""
  }

  /** A record of a security venue: fixed venue name, the crawled year, no abstract and no DOI. */
  function VenuePaper(conference: string, year: int, title: string, authors: string, url: string, pdfUrl: string): (p: Paper)
    ensures p.conference == JStr(conference) && p.year == JInt(year)
    ensures p.abstractText == JStr("") && p.doi == JStr("") && p.title == JStr(title)
  {
    Paper(JStr(title), JStr(authors), JStr(""), JInt(year), JStr(conference), JStr(url), JStr(pdfUrl), JStr(""), JNull, [])
  }

  /** An `<h2>` of a USENIX page: its first link, and the stripped text of its next sibling, if any. */
  datatype UsenixHeading = UsenixHeading(link: Option<Anchor>, nextText: Option<string>)

  /** A heading without a link is skipped; the paper page is also its PDF link. */
  function UsenixPaper(year: int, h: UsenixHeading): (r: Option<Paper>)
    ensures r.None? <==> h.link.None?
    ensures r.Some? ==>
      r.value.pdfUrl == r.value.url && r.value.url == JStr(Absolute("https://www.usenix.org", Href(h.link.value)))
  {
    match h.link
    case None => None
    case Some(a) =>
      var url := Absolute("https://www.usenix.org", Href(a));
      var authors := if h.nextText.Some? then UsenixAuthors(h.nextText.value) else "";
      Some(VenuePaper(Usenix, year, a.text, authors, url, url))
  }

  /** An `<h3>` of an NDSS page: its text, the next "More Details" link and the next paragraph's text. */
  datatype NdssHeading = NdssHeading(text: string, details: Option<Anchor>, nextParagraph: Option<string>)

  function NdssPaper(year: int, h: NdssHeading): (r: Option<Paper>)
    ensures r.Some?
    ensures r.value.pdfUrl == JStr("")
  {
    var url := if h.details.Some? then Absolute("https://www.ndss-symposium.org", Href(h.details.value)) else "";
    var authors := if h.nextParagraph.Some? then h.nextParagraph.value else "";
    Some(VenuePaper(Ndss, year, h.text, authors, url, ""))
  }

  /** A `<b>` of an IEEE S&P page: its text and the text of its parent. */
  datatype Bold = Bold(text: string, parentText: string)

  /** Bold texts under ten characters are skipped; the authors are the parent's text without the title. */
  function IeeeSpPaper(year: int, b: Bold): (r: Option<Paper>)
    ensures r.None? <==> |b.text| < 10
    ensures r.Some? ==>
      r.value.authors == JStr(Strip(ReplaceFirst(b.parentText, b.text, "")))
      && r.value.url == JStr("https://www.ieee-security.org/TC/SP" + IntToString(year) + "/")
  {
    if |b.text| < 10 then None
    else
      Some(VenuePaper(IeeeSp, year, b.text, Strip(ReplaceFirst(b.parentText, b.text, "")),
                      "https://www.ieee-security.org/TC/SP" + IntToString(year) + "/", ""))
  }

  /**
   * A paper item of a CCS page: its first heading's text, the text of its
   * author element, the text of the next paragraph or span after the
   * heading, and its first link.
   */
  datatype CcsItem = CcsItem(heading: Option<string>, authorText: Option<string>, nextText: Option<string>, link: Option<Anchor>)

  /** An item without a heading is skipped; the author element wins over the next paragraph. */
  function CcsPaper(year: int, item: CcsItem): (r: Option<Paper>)
    ensures r.None? <==> item.heading.None?
    ensures r.Some? && item.authorText.Some? ==> r.value.authors == JStr(item.authorText.value)
  {
    match item.heading
    case None => None
    case Some(title) =>
      var authors :=
        if item.authorText.Some? then item.authorText.value
        else if item.nextText.Some? then item.nextText.value
        else "";
      var url := if item.link.Some? then Absolute("https://www.sigsac.org", Href(item.link.value)) else "";
      Some(VenuePaper(Ccs, year, title, authors, url, ""))
  }

  function UsenixStep(year: int): UsenixHeading -> Option<Paper> { h => UsenixPaper(year, h) }
  function NdssStep(year: int): NdssHeading -> Option<Paper> { h => NdssPaper(year, h) }
  function IeeeSpStep(year: int): Bold -> Option<Paper> { b => IeeeSpPaper(year, b) }
  function CcsStep(year: int): CcsItem -> Option<Paper> { item => CcsPaper(year, item) }

  /** `_parse_usenix_security`. */
  method ParseUsenix(headings: seq<UsenixHeading>, year: int) returns (papers: seq<Paper>)
    ensures papers == FilterMap(headings, UsenixStep(year))
  {
    papers := [];
    var i := 0;
    while i < |headings|
      invariant 0 <= i <= |headings|
      invariant papers == FilterMap(headings[..i], UsenixStep(year))
    {
      assert headings[..i + 1][..i] == headings[..i];
      var h := headings[i];
      if h.link.Some? {
        var a := h.link.value;
        var url := Absolute("https://www.usenix.org", Href(a));
        var authors := "";
        if h.nextText.Some? {
          authors := UsenixAuthors(h.nextText.value);
        }
        papers := papers + [VenuePaper(Usenix, year, a.text, authors, url, url)];
      }
      i := i + 1;
    }
    assert headings[..i] == headings;
  }

  /** `_parse_ndss`. */
  method ParseNdss(headings: seq<NdssHeading>, year: int) returns (papers: seq<Paper>)
    ensures papers == FilterMap(headings, NdssStep(year))
  {
    papers := [];
    var i := 0;
    while i < |headings|
      invariant 0 <= i <= |headings|
      invariant papers == FilterMap(headings[..i], NdssStep(year))
    {
      assert headings[..i + 1][..i] == headings[..i];
      var h := headings[i];
      var url := "";
      if h.details.Some? {
        url := Absolute("https://www.ndss-symposium.org", Href(h.details.value));
      }
      var authors := "";
      if h.nextParagraph.Some? {
        authors := h.nextParagraph.value;
      }
      papers := papers + [VenuePaper(Ndss, year, h.text, authors, url, "")];
      i := i + 1;
    }
    assert headings[..i] == headings;
  }

  /** `_parse_ieee_sp`. */
  method ParseIeeeSp(bolds: seq<Bold>, year: int) returns (papers: seq<Paper>)
    ensures papers == FilterMap(bolds, IeeeSpStep(year))
  {
    papers := [];
    var i := 0;
    while i < |bolds|
      invariant 0 <= i <= |bolds|
      invariant papers == FilterMap(bolds[..i], IeeeSpStep(year))
    {
      assert bolds[..i + 1][..i] == bolds[..i];
      var b := bolds[i];
      if |b.text| >= 10 {
        var authors := Strip(ReplaceFirst(b.parentText, b.text, ""));
        var url := "https://www.ieee-security.org/TC/SP" + IntToString(year) + "/";
        papers := papers + [VenuePaper(IeeeSp, year, b.text, authors, url, "")];
      }
      i := i + 1;
    }
    assert bolds[..i] == bolds;
  }

  /** `_parse_ccs`. */
  method ParseCcs(items: seq<CcsItem>, year: int) returns (papers: seq<Paper>)
    ensures papers == FilterMap(items, CcsStep(year))
  {
    papers := [];
    var i := 0;
    while i < |items|
      invariant 0 <= i <= |items|
      invariant papers == FilterMap(items[..i], CcsStep(year))
    {
      assert items[..i + 1][..i] == items[..i];
      var item := items[i];
      if item.heading.Some? {
        var authors := "";
        if item.authorText.Some? {
          authors := item.authorText.value;
        } else if item.nextText.Some? {
          authors := item.nextText.value;
        }
        var url := "";
        if item.link.Some? {
          url := Absolute("https://www.sigsac.org", Href(item.link.value));
        }
        papers := papers + [VenuePaper(Ccs, year, item.heading.value, authors, url, "")];
      }
      i := i + 1;
    }
    assert items[..i] == items;
  }

  /** What the parser finds on a page, for each venue's queries. */
  datatype Soup = Soup(h2s: seq<UsenixHeading>, h3s: seq<NdssHeading>, bolds: seq<Bold>, items: seq<CcsItem>)

  /** The papers of a page, by venue. */
  function PagePapers(conference: string, year: int, soup: Soup): seq<Paper>
  {
    if conference == Usenix then FilterMap(soup.h2s, UsenixStep(year))
    else if conference == Ndss then FilterMap(soup.h3s, NdssStep(year))
    else if conference == IeeeSp then FilterMap(soup.bolds, IeeeSpStep(year))
    else if conference == Ccs then FilterMap(soup.items, CcsStep(year))
    else []
  }

  /**
   * `crawl`: an unsupported venue gives no papers and no request; otherwise
   * the page is fetched, and a failure of any kind or an empty page gives no
   * papers. `parse` stands for the HTML parser.
   */
  method Crawl(s: Settings, conference: string, year: int, net: (string, Verb, nat) -> Attempt, parse: string -> Soup)
    returns (url: Option<string>, papers: seq<Paper>)
    ensures url == PageUrl(conference, year)
    ensures url.None? ==> papers == []
    ensures url.Some? ==>
      var response := Outcome(s, net, url.value);
      papers == if response.Got? && response.body.text != [] then PagePapers(conference, year, parse(response.body.text)) else []
  {
    url := PageUrl(conference, year);
    if url.None? {
      return url, [];
    }
    var response := FetchAt(s, net, url.value);
    if !response.Got? || response.body.text == [] {
      return url, [];
    }
    var soup := parse(response.body.text);
    if conference == Usenix {
      papers := ParseUsenix(soup.h2s, year);
    } else if conference == Ndss {
      papers := ParseNdss(soup.h3s, year);
    } else if conference == IeeeSp {
      papers := ParseIeeeSp(soup.bolds, year);
    } else {
      papers := ParseCcs(soup.items, year);
    }
  }

  /** Every record of a page carries the venue it was crawled for, the year, and no abstract or DOI. */
  lemma {:induction false} PagePapersStamped(conference: string, year: int, soup: Soup)
    ensures forall p :: p in PagePapers(conference, year, soup) ==>
      p.conference == JStr(conference) && p.year == JInt(year) && p.abstractText == JStr("") && p.doi == JStr("")
  {
    if conference == Usenix {
      FilterMapMembers(soup.h2s, UsenixStep(year));
    } else if conference == Ndss {
      FilterMapMembers(soup.h3s, NdssStep(year));
    } else if conference == IeeeSp {
      FilterMapMembers(soup.bolds, IeeeSpStep(year));
    } else if conference == Ccs {
      FilterMapMembers(soup.items, CcsStep(year));
    }
  }
}
