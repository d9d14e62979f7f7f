/** The category crawler of public/test.php: it walks the listing pages of one catalog
    category, turns every table row into one record, consults each item's detail page for
    the "Peut être obtenu sur" flag, and accumulates the records in discovery order.

    The HTTP client and the DOM library are replaced by a `Site`: a finite map from URL to
    the parts of the fetched document that the crawler queries. */
module Crawler {
  import opened Wrappers
  import opened Strings

  type Url = string

  /** The first `<img>` of a listing row; `src` is None when the element has no `src` attribute. */
  datatype Img = Img(src: Option<string>)

  /** The link in the name cell (`td:nth-child(2) .ak-linker a`): its text and its `href`
      attribute, None when the attribute is missing. */
  datatype Anchor = Anchor(text: string, href: Option<string>)

  /** One `table.ak-table tbody tr` of a listing page. */
  datatype Row = Row(image: Option<Img>, nameLink: Option<Anchor>)

  /** A `div.ak-panel-title` child of a `div.ak-container.ak-panel`: its text, and the text of
      its next element sibling when it has one. */
  datatype Panel = Panel(title: string, nextText: Option<string>)

  /** A fetched HTML document, reduced to the listing rows and the panel titles, in document order. */
  datatype Document = Document(rows: seq<Row>, panels: seq<Panel>)

  /** The web as the crawler's HTTP client sees it: a GET of `u` succeeds with `site[u]` when
      `u` is a key, and fails otherwise (network error, timeout, 4xx or 5xx status). */
  type Site = map<Url, Document>

  /** One CSV record: the values stored under "Nom", "Image", "Lien", "Peut être obtenu sur". */
  datatype Record = Record(name: string, image: string, link: string, obtainedOn: string)

  const Origin: string := "https://www.wakfu.com"
  const NoImage: string := "Pas d'image"
  const UnknownName: string := "Nom inconnu"
  const NoLink: string := "#"
  const Yes: string := "Oui"
  const No: string := "Non"

  /** The `:contains` phrases of the detail-page selectors, in the order they are tried. */
  const Selectors: seq<string> := ["Peut être obtenu sur"]

  function Fetch(site: Site, url: Url): Option<Document> {
    if url in site then Some(site[url]) else None
  }

  // ---------------------------------------------------------------------------
  // Listing rows

  /** The fields a listing row gives before the detail page is consulted. */
  datatype Stub = Stub(name: string, image: string, link: string)

  /** The absolute detail URL of a row that has a name link: the origin followed by the
      `href` (PHP concatenates a missing attribute as the empty string). */
  function DetailUrl(a: Anchor): Url {
    Origin + a.href.GetOr("")
  }

  /** Reads a row with the sentinel defaults: a missing image gives "Pas d'image", a missing
      name link gives the name "Nom inconnu" and the link "#". An image without `src` is PHP
      null, which `fputcsv` writes as the empty field. */
  function RowStub(row: Row): (st: Stub)
    ensures row.image.None? ==> st.image == NoImage
    ensures row.image.Some? ==> st.image == row.image.value.src.GetOr("")
    ensures st.link == NoLink <==> row.nameLink.None?
    ensures row.nameLink.None? ==> st.name == UnknownName
    ensures row.nameLink.Some? ==> st.name == Trim(row.nameLink.value.text)
    ensures row.nameLink.Some? ==> st.link == DetailUrl(row.nameLink.value)
  {
    var image := match row.image
      case None => NoImage
      case Some(img) => img.src.GetOr("");
    match row.nameLink
    case None => Stub(UnknownName, image, NoLink)
    case Some(a) => Stub(Trim(a.text), image, DetailUrl(a))
  }

  // ---------------------------------------------------------------------------
  // Detail page

  /** Panel `k` is the first whose title contains `marker`. */
  predicate IsFirstTitled(panels: seq<Panel>, marker: string, k: nat) {
    k < |panels| && Contains(panels[k].title, marker) &&
    forall j :: 0 <= j < k ==> !Contains(panels[j].title, marker)
  }

  /** The panel the selector's `nextAll()->first()` starts from: DomCrawler takes the first
      node of the filtered list. */
  function FirstTitled(panels: seq<Panel>, marker: string): (r: Option<nat>)
    ensures r.Some? ==> r.value < |panels|
  {
    if panels == [] then None
    else if Contains(panels[0].title, marker) then Some(0)
    else match FirstTitled(panels[1..], marker)
      case None => None
      case Some(k) => Some(k + 1)
  }

  /** The panel found is the first whose title contains the marker; when none is found, no
      title contains it. */
  lemma {:induction false} FirstTitledSpec(panels: seq<Panel>, marker: string)
    ensures FirstTitled(panels, marker).None? ==>
      forall k :: 0 <= k < |panels| ==> !Contains(panels[k].title, marker)
    ensures FirstTitled(panels, marker).Some? ==>
      IsFirstTitled(panels, marker, FirstTitled(panels, marker).value)
  {
    if panels != [] && !Contains(panels[0].title, marker) {
      var rest := panels[1..];
      FirstTitledSpec(rest, marker);
      forall k | 1 <= k < |panels| ensures panels[k] == rest[k - 1] {
      }
    }
  }

  /** The test of one selector: its first panel has a next sibling whose trimmed text is not empty. */
  function SelectorMatches(panels: seq<Panel>, marker: string): bool {
    match FirstTitled(panels, marker)
    case None => false
    case Some(k) => panels[k].nextText.Some? && Trim(panels[k].nextText.value) != ""
  }

  /** The same test stated without `trim`: the first panel titled with `marker` is followed by
      an element holding at least one non-blank character. */
  predicate Evidences(panels: seq<Panel>, marker: string) {
    exists k :: 0 <= k < |panels| && IsFirstTitled(panels, marker, k) &&
      panels[k].nextText.Some? && !AllBlank(panels[k].nextText.value)
  }

  lemma SelectorMatchesIff(panels: seq<Panel>, marker: string)
    ensures SelectorMatches(panels, marker) <==> Evidences(panels, marker)
  {
    FirstTitledSpec(panels, marker);
    match FirstTitled(panels, marker)
    case None =>
    case Some(k) =>
      if panels[k].nextText.Some? {
        TrimEmptyIffBlank(panels[k].nextText.value);
      }
      forall k' | 0 <= k' < |panels| && IsFirstTitled(panels, marker, k') ensures k' == k {
      }
  }

  /** The flag a fetched detail page yields: "Oui" when one of the selectors fires, "Non"
      otherwise. */
  function DetailFlag(doc: Document): (flag: string)
    ensures flag == Yes || flag == No
  {
    if exists i :: 0 <= i < |Selectors| && SelectorMatches(doc.panels, Selectors[i]) then Yes else No
  }

  /** A detail page yields "Oui" exactly when one of the selectors finds the first panel it
      names followed by non-blank content. */
  lemma DetailFlagIff(doc: Document)
    ensures DetailFlag(doc) == Yes <==>
      exists i :: 0 <= i < |Selectors| && Evidences(doc.panels, Selectors[i])
  {
    forall i | 0 <= i < |Selectors|
      ensures SelectorMatches(doc.panels, Selectors[i]) <==> Evidences(doc.panels, Selectors[i])
    {
      SelectorMatchesIff(doc.panels, Selectors[i]);
    }
  }

  /** The flag of a record whose link is `link`: no detail fetch for "#", and a failed fetch
      leaves "Non". */
  function ObtainedOn(site: Site, link: Url): (flag: string)
    ensures flag == Yes || flag == No
    ensures flag == Yes ==> link != NoLink && link in site
  {
    if link == NoLink then No
    else match Fetch(site, link)
      case None => No
      case Some(doc) => DetailFlag(doc)
  }

  /** The record one listing row becomes: its link is "#" exactly when the row has no name
      link, and it is flagged "Oui" only when that link was fetched. */
  function RecordOf(site: Site, row: Row): (rec: Record)
    ensures rec.link == NoLink <==> row.nameLink.None?
    ensures rec.obtainedOn == Yes || rec.obtainedOn == No
    ensures rec.obtainedOn == Yes ==> row.nameLink.Some? && rec.link in site
  {
    var st := RowStub(row);
    Record(st.name, st.image, st.link, ObtainedOn(site, st.link))
  }

  /** The flag is "Oui" or "Non", and "Oui" exactly when the row has a name link, the detail
      page's fetch succeeds and one selector finds non-blank content after its panel title. */
  lemma ObtainedOnIff(site: Site, row: Row)
    ensures RecordOf(site, row).obtainedOn == Yes || RecordOf(site, row).obtainedOn == No
    ensures RecordOf(site, row).obtainedOn == Yes <==>
      row.nameLink.Some? && DetailUrl(row.nameLink.value) in site &&
      exists i :: 0 <= i < |Selectors| && Evidences(site[DetailUrl(row.nameLink.value)].panels, Selectors[i])
  {
    if row.nameLink.Some? && DetailUrl(row.nameLink.value) in site {
      var doc := site[DetailUrl(row.nameLink.value)];
      forall i | 0 <= i < |Selectors|
        ensures SelectorMatches(doc.panels, Selectors[i]) <==> Evidences(doc.panels, Selectors[i])
      {
        SelectorMatchesIff(doc.panels, Selectors[i]);
      }
    }
  }

  /** A row without a name link gets "#" and "Non" whatever the site holds: its detail page
      is never consulted. */
  lemma NoLinkIgnoresSite(site1: Site, site2: Site, row: Row)
    requires row.nameLink.None?
    ensures RecordOf(site1, row) == RecordOf(site2, row)
    ensures RecordOf(site1, row).link == NoLink && RecordOf(site1, row).obtainedOn == No
  {
  }

  /** The records of a page's rows, built one row at a time. */
  function RecordsOf(site: Site, rows: seq<Row>): (rs: seq<Record>)
    ensures |rs| == |rows|
  {
    if rows == [] then [] else RecordsOf(site, rows[..|rows| - 1]) + [RecordOf(site, rows[|rows| - 1])]
  }

  /** One record per row, in row order. */
  lemma {:induction false} RecordsOfInOrder(site: Site, rows: seq<Row>)
    ensures |RecordsOf(site, rows)| == |rows|
    ensures forall i :: 0 <= i < |rows| ==> RecordsOf(site, rows)[i] == RecordOf(site, rows[i])
  {
    if rows != [] {
      var init := rows[..|rows| - 1];
      RecordsOfInOrder(site, init);
      forall i | 0 <= i < |rows|
        ensures RecordsOf(site, rows)[i] == RecordOf(site, rows[i])
      {
        if i < |rows| - 1 {
          assert init[i] == rows[i];
        }
      }
    }
  }

  /** One more row adds its record at the end. */
  lemma RecordsOfSnoc(site: Site, rows: seq<Row>, i: nat)
    requires i < |rows|
    ensures RecordsOf(site, rows[..i + 1]) == RecordsOf(site, rows[..i]) + [RecordOf(site, rows[i])]
  {
    assert rows[..i + 1][..i] == rows[..i];
  }

  lemma SnocAssoc<T>(a: seq<T>, b: seq<T>, x: T)
    ensures a + b + [x] == a + (b + [x])
  {
  }

  /** The `foreach` over the selectors: the first selector whose panel is followed by
      non-blank content sets "Oui" and ends the scan. */
  method ScanSelectors(doc: Document) returns (flag: string)
    ensures flag == DetailFlag(doc)
  {
    flag := No;
    var i := 0;
    while i < |Selectors|
      invariant 0 <= i <= |Selectors|
      invariant flag == No
      invariant forall j :: 0 <= j < i ==> !SelectorMatches(doc.panels, Selectors[j])
    {
      var first := FirstTitled(doc.panels, Selectors[i]);
      if first.Some? {
        var next := doc.panels[first.value].nextText;
        if next.Some? && Trim(next.value) != "" {
          flag := Yes;
          break;
        }
      }
      i := i + 1;
    }
  }

  /** The detail-page step of the row closure: no request for "#", otherwise a GET of the
      link whose failure leaves "Non", and on success the selector scan. */
  method ConsultDetail(site: Site, link: Url) returns (obtainedOn: string, fetched: Option<Url>)
    ensures obtainedOn == ObtainedOn(site, link)
    ensures fetched.None? <==> link == NoLink
    ensures fetched.Some? ==> fetched.value == link
  {
    obtainedOn := No;
    fetched := None;
    if link != NoLink {
      fetched := Some(link);
      var response := Fetch(site, link);
      if response.Some? {
        obtainedOn := ScanSelectors(response.value);
      }
    }
  }

  /** The row closure: reads the row, fetches the detail page unless the link is "#", and
      builds the record. `fetched` is the detail URL requested, if any. */
  method BuildRecord(site: Site, row: Row) returns (rec: Record, fetched: Option<Url>)
    ensures rec == RecordOf(site, row)
    ensures fetched.None? <==> row.nameLink.None?
    ensures fetched.Some? ==> fetched.value == rec.link
  {
    var st := RowStub(row);
    var obtainedOn;
    obtainedOn, fetched := ConsultDetail(site, st.link);
    rec := Record(st.name, st.image, st.link, obtainedOn);
  }

  /** The detail request of one row: its detail URL when it has a name link, none otherwise. */
  function RowRequest(row: Row): seq<Url> {
    match row.nameLink
    case None => []
    case Some(a) => [DetailUrl(a)]
  }

  /** The detail pages the rows of a listing page request, in row order. */
  function DetailRequests(rows: seq<Row>): seq<Url> {
    if rows == [] then [] else DetailRequests(rows[..|rows| - 1]) + RowRequest(rows[|rows| - 1])
  }

  /** The links of the records other than "#", in record order. */
  function FetchedLinks(recs: seq<Record>): seq<Url> {
    if recs == [] then []
    else FetchedLinks(recs[..|recs| - 1]) + (if recs[|recs| - 1].link == NoLink then [] else [recs[|recs| - 1].link])
  }

  /** A page requests exactly one detail page per record whose link is not "#", that record's
      link, in record order; so none for a row without a name link. */
  lemma {:induction false} DetailRequestsAreLinks(site: Site, rows: seq<Row>)
    ensures DetailRequests(rows) == FetchedLinks(RecordsOf(site, rows))
  {
    if rows != [] {
      var init, last := rows[..|rows| - 1], rows[|rows| - 1];
      var recs := RecordsOf(site, rows);
      DetailRequestsAreLinks(site, init);
      assert recs[..|recs| - 1] == RecordsOf(site, init);
      assert recs[|recs| - 1] == RecordOf(site, last);
    }
  }

  lemma DetailRequestsSnoc(rows: seq<Row>, i: nat)
    requires i < |rows|
    ensures DetailRequests(rows[..i + 1]) == DetailRequests(rows[..i]) + RowRequest(rows[i])
  {
    assert rows[..i + 1][..i] == rows[..i];
  }

  /** `$rows->each(...)`: appends one record per row to the accumulator, in row order, and
      requests the detail pages of the rows in that order. */
  method AppendRows(site: Site, rows: seq<Row>, data: seq<Record>)
    returns (out: seq<Record>, requested: seq<Url>)
    ensures out == data + RecordsOf(site, rows)
    ensures requested == DetailRequests(rows)
  {
    out, requested := data, [];
    var i := 0;
    while i < |rows|
      invariant 0 <= i <= |rows|
      invariant out == data + RecordsOf(site, rows[..i])
      invariant requested == DetailRequests(rows[..i])
    {
      var rec, fetched := BuildRecord(site, rows[i]);
      RecordsOfSnoc(site, rows, i);
      SnocAssoc(data, RecordsOf(site, rows[..i]), rec);
      DetailRequestsSnoc(rows, i);
      out := out + [rec];
      if fetched.Some? {
        requested := requested + [fetched.value];
      }
      i := i + 1;
    }
    assert rows[..i] == rows;
  }

  // ---------------------------------------------------------------------------
  // Pagination

  /** The URL of listing page `page`: the base URL itself for page 1, otherwise the base URL
      with the query `?page=<page>`. */
  function PageUrl(base: Url, page: nat): Url {
    if page == 1 then base else base + "?page=" + Decimal(page)
  }

  /** The listing URL is the base URL itself exactly for page 1. */
  lemma PageUrlIsBase(base: Url, page: nat)
    ensures PageUrl(base, page) == base <==> page == 1
  {
    if page != 1 {
      assert |PageUrl(base, page)| > |base|;
    }
  }

  /** Past page 1, the URL is the base URL, then `?page=`, then digits that read back as the
      page number. */
  lemma PageUrlQuery(base: Url, page: nat)
    requires page != 1
    ensures |PageUrl(base, page)| > |base| + 6
    ensures PageUrl(base, page)[..|base|] == base
    ensures PageUrl(base, page)[|base|..|base| + 6] == "?page="
    ensures PageUrl(base, page)[|base| + 6..] == Decimal(page)
    ensures IsDigits(PageUrl(base, page)[|base| + 6..])
    ensures PageUrl(base, page)[|base| + 6] == '0' ==> page == 0
    ensures ParseDecimal(PageUrl(base, page)[|base| + 6..]) == page
  {
    var url := PageUrl(base, page);
    assert url[..|base|] == base;
    assert url[|base| + 6..] == Decimal(page) && url[|base|..|base| + 6] == "?page=";
    DecimalDigits(page);
    DecimalRoundTrip(page);
  }

  /** Different pages have different URLs. */
  lemma PageUrlInjective(base: Url, m: nat, n: nat)
    requires PageUrl(base, m) == PageUrl(base, n)
    ensures m == n
  {
    if m != 1 && n != 1 {
      var prefix := base + "?page=";
      assert PageUrl(base, m)[|prefix|..] == Decimal(m);
      assert PageUrl(base, n)[|prefix|..] == Decimal(n);
      DecimalInjective(m, n);
    }
  }

  /** Page `n` was fetched and has at least one row, so the crawl goes on to page `n + 1`. */
  predicate HasRows(site: Site, base: Url, n: nat) {
    PageUrl(base, n) in site && |site[PageUrl(base, n)].rows| > 0
  }

  /** The rows of page `n`: none when its fetch fails. */
  function PageRows(site: Site, base: Url, n: nat): seq<Row> {
    if PageUrl(base, n) in site then site[PageUrl(base, n)].rows else []
  }

  /** The accumulator after pages `1..k` have been processed. */
  function Accumulated(site: Site, base: Url, k: nat): seq<Record> {
    if k == 0 then [] else Accumulated(site, base, k - 1) + RecordsOf(site, PageRows(site, base, k))
  }

  /** The number of rows over pages `1..k`. */
  function RowCount(site: Site, base: Url, k: nat): nat {
    if k == 0 then 0 else RowCount(site, base, k - 1) + |PageRows(site, base, k)|
  }

  /** Every row of every processed page yields exactly one record. */
  lemma {:induction false} AccumulatedLength(site: Site, base: Url, k: nat)
    ensures |Accumulated(site, base, k)| == RowCount(site, base, k)
  {
    if k > 0 {
      var rows := PageRows(site, base, k);
      AccumulatedLength(site, base, k - 1);
      LengthConcat(Accumulated(site, base, k - 1), RecordsOf(site, rows));
    }
  }

  /** Records, once accumulated, are kept: later pages only append. */
  lemma {:induction false} AccumulatedPrefix(site: Site, base: Url, j: nat, k: nat)
    requires j <= k
    ensures Accumulated(site, base, j) <= Accumulated(site, base, k)
  {
    if j < k {
      var rows := PageRows(site, base, k);
      AccumulatedPrefix(site, base, j, k - 1);
      PrefixConcat(Accumulated(site, base, j), Accumulated(site, base, k - 1), RecordsOf(site, rows));
    }
  }

  lemma LengthConcat<T>(a: seq<T>, b: seq<T>)
    ensures |a + b| == |a| + |b|
  {
  }

  lemma PrefixConcat<T>(a: seq<T>, b: seq<T>, c: seq<T>)
    requires a <= b
    ensures a <= b + c
  {
    assert (b + c)[..|a|] == b[..|a|];
  }

  /** Pagination of a category stops at page `last`: every earlier page had rows, and page
      `last` either failed to fetch or had none. */
  predicate StopsAt(site: Site, base: Url, last: nat) {
    last >= 1 && (forall n :: 1 <= n < last ==> HasRows(site, base, n)) && !HasRows(site, base, last)
  }

  /** The stopping page is determined by the site. */
  lemma StopsAtUnique(site: Site, base: Url, last1: nat, last2: nat)
    requires StopsAt(site, base, last1) && StopsAt(site, base, last2)
    ensures last1 == last2
  {
  }

  ghost function PageUrlSet(base: Url, k: nat): set<Url> {
    set n | 1 <= n <= k :: PageUrl(base, n)
  }

  lemma {:induction false} PageUrlSetSize(base: Url, k: nat)
    ensures |PageUrlSet(base, k)| == k
  {
    if k > 0 {
      var prev, url := PageUrlSet(base, k - 1), PageUrl(base, k);
      PageUrlSetSize(base, k - 1);
      assert PageUrlSet(base, k) == prev + {url};
      forall n | 1 <= n <= k - 1 ensures PageUrl(base, n) != url {
        if PageUrl(base, n) == url {
          PageUrlInjective(base, n, k);
        }
      }
      assert url !in prev;
    }
  }

  lemma SubsetSize<T>(a: set<T>, b: set<T>)
    requires a <= b
    ensures |a| <= |b|
  {
    assert b == a + (b - a);
  }

  /** Pages whose fetch succeeds are distinct keys of the finite site, so at most `|site|` of
      the pages `1, 2, …` can be fetched in a row. */
  lemma PagesBounded(site: Site, base: Url, k: nat)
    requires forall n :: 1 <= n <= k ==> PageUrl(base, n) in site
    ensures k <= |site|
  {
    PageUrlSetSize(base, k);
    SubsetSize(PageUrlSet(base, k), site.Keys);
  }

  /** Pages with rows were fetched. */
  lemma FetchedPages(site: Site, base: Url, k: nat)
    requires forall n :: 1 <= n <= k ==> HasRows(site, base, n)
    ensures forall n :: 1 <= n <= k ==> PageUrl(base, n) in site
  {
    forall n | 1 <= n <= k ensures PageUrl(base, n) in site {
      assert HasRows(site, base, n);
    }
  }

  /** One round of the loop: page `current` was fetched with rows, so page `current + 1`
      is next, and at most `|site|` pages have been fetched. */
  lemma CrawlStep(site: Site, base: Url, current: nat)
    requires current >= 1
    requires forall n :: 1 <= n < current ==> HasRows(site, base, n)
    requires HasRows(site, base, current)
    ensures forall n :: 1 <= n <= current ==> HasRows(site, base, n)
    ensures current <= |site|
  {
    FetchedPages(site, base, current);
    PagesBounded(site, base, current);
  }

  /** The accumulator grows by the records of page `current` once it is processed. */
  lemma AccumulatedStep(site: Site, base: Url, current: nat, rows: seq<Row>, data: seq<Record>, out: seq<Record>)
    requires current >= 1
    requires PageUrl(base, current) in site && rows == site[PageUrl(base, current)].rows
    requires data == Accumulated(site, base, current - 1) && out == data + RecordsOf(site, rows)
    ensures out == Accumulated(site, base, current)
  {
  }

  /** Page `current` failed or had no rows: pagination stops there. */
  lemma StopHere(site: Site, base: Url, current: nat)
    requires current >= 1
    requires forall n :: 1 <= n < current ==> HasRows(site, base, n)
    requires PageUrl(base, current) !in site || |site[PageUrl(base, current)].rows| == 0
    ensures StopsAt(site, base, current)
  {
  }

  /** The listing URLs of pages `1..k`, in request order. */
  function PageUrls(base: Url, k: nat): (urls: seq<Url>)
    ensures |urls| == k
  {
    if k == 0 then [] else PageUrls(base, k - 1) + [PageUrl(base, k)]
  }

  /** The `i`-th URL requested is that of page `i + 1`: pages are requested as 1, 2, 3, …
      without gaps. */
  lemma {:induction false} PageUrlsInOrder(base: Url, k: nat)
    ensures forall i :: 0 <= i < k ==> PageUrls(base, k)[i] == PageUrl(base, i + 1)
  {
    if k > 0 {
      PageUrlsInOrder(base, k - 1);
      var prev := PageUrls(base, k - 1);
      assert PageUrls(base, k) == prev + [PageUrl(base, k)];
      forall i | 0 <= i < k ensures PageUrls(base, k)[i] == PageUrl(base, i + 1) {
        if i < k - 1 {
          assert PageUrls(base, k)[i] == prev[i];
        }
      }
    }
  }

  /** Requesting page `k + 1` adds its URL at the end of the log. */
  lemma PageUrlsSnoc(base: Url, k: nat, requested: seq<Url>)
    requires requested == PageUrls(base, k)
    ensures requested + [PageUrl(base, k + 1)] == PageUrls(base, k + 1)
  {
  }

  /** How pagination of a category ended. */
  datatype Outcome = Exhausted | Aborted

  /** The `while (true)` loop of one category: requests pages 1, 2, 3, … in turn, stops at the
      first page whose fetch fails (Aborted) or that has no rows (Exhausted), and keeps every
      record accumulated before. `requested` lists the listing URLs fetched, in order. */
  method CrawlCategory(site: Site, base: Url)
    returns (data: seq<Record>, last: nat, requested: seq<Url>, outcome: Outcome)
    ensures StopsAt(site, base, last) && last <= |site| + 1
    ensures requested == PageUrls(base, last)
    ensures outcome == Aborted <==> PageUrl(base, last) !in site
    ensures data == Accumulated(site, base, last - 1)
  {
    data := [];
    requested := [];
    var current: nat := 1;
    while true
      invariant current >= 1 && current - 1 <= |site|
      invariant forall n :: 1 <= n < current ==> HasRows(site, base, n)
      invariant requested == PageUrls(base, current - 1)
      invariant data == Accumulated(site, base, current - 1)
      decreases |site| + 1 - current
    {
      var url := PageUrl(base, current);
      PageUrlsSnoc(base, current - 1, requested);
      requested := requested + [url];
      var response := Fetch(site, url);
      if response.None? {
        StopHere(site, base, current);
        outcome := Aborted;
        break;
      }
      var rows := response.value.rows;
      if |rows| == 0 {
        StopHere(site, base, current);
        outcome := Exhausted;
        break;
      }
      CrawlStep(site, base, current);
      var out, _ := AppendRows(site, rows, data);
      AccumulatedStep(site, base, current, rows, data, out);
      data := out;
      current := current + 1;
    }
    last := current;
  }
}
