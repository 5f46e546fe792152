/** The organization exporter: page through the organization listing and
    write one spreadsheet row per organization that has an id and a name,
    after a header row. The listing's pages are inputs: the k-th request
    receives `pages[k]`, and a request past the last one fails. */
module GetOrganizations {
  import opened Outcomes
  import Decimal

  datatype OrgFields = OrgFields(accountCode: Field<string>)

  /** An organization record of the listing. */
  datatype Org = Org(id: Field<int>, name: Field<string>, organizationFields: Field<OrgFields>)

  datatype Meta = Meta(hasMore: Field<bool>)

  datatype Links = Links(next: Field<string>)

  /** The result of one `api_get_request`: a failed request (`None`), or the
      decoded body of a page of the listing. */
  datatype PageReply =
    | RequestFailed
    | Page(organizations: Field<seq<Org>>, meta: Field<Meta>, links: Field<Links>)

  const Header: seq<string> := ["ACCOUNT CODE", "ACCOUNT ID", "ACCOUNT NAME"]

  /** The account code cell: `org.get('organization_fields', {}).get('account_code', 'N/A')`.
      A null `organization_fields` raises; a null `account_code` is written
      by the CSV writer as the empty string. */
  function AccountCodeCell(org: Org): (r: Outcome<string>)
    ensures r.Raised? <==> org.organizationFields.Null?
    ensures org.organizationFields.Absent? ==> r == Returned("N/A")
    ensures org.organizationFields.Present? ==>
              match org.organizationFields.value.accountCode
              case Absent => r == Returned("N/A")
              case Null => r == Returned("")
              case Present(code) => r == Returned(code)
  {
    match org.organizationFields
    case Absent => Returned("N/A")
    case Null => Raised
    case Present(fields) =>
      match fields.accountCode
      case Absent => Returned("N/A")
      case Null => Returned("")
      case Present(code) => Returned(code)
  }

  /** `org.get('id')` is truthy: present, not null and not 0. */
  predicate HasId(org: Org)
  {
    org.id.Present? && org.id.value != 0
  }

  /** `org.get('name')` is truthy: present, not null and not empty. */
  predicate HasName(org: Org)
  {
    org.name.Present? && |org.name.value| > 0
  }

  /** `org_id and name`: the organization gets a row. */
  predicate Listed(org: Org)
  {
    HasId(org) && HasName(org)
  }

  /** The row `[account_code, org_id, name]` as the CSV writer renders it. */
  function RowOf(org: Org): (row: seq<string>)
    requires Listed(org) && !org.organizationFields.Null?
    ensures |row| == |Header|
  {
    [AccountCodeCell(org).value, Decimal.Show(org.id.value), org.name.value]
  }

  /** A written row reads back as the organization's account code, id and name. */
  lemma RowReadsBack(org: Org)
    requires Listed(org) && !org.organizationFields.Null?
    ensures RowOf(org)[0] == AccountCodeCell(org).value
    ensures Decimal.ParseInt(RowOf(org)[1]) == Some(org.id.value)
    ensures RowOf(org)[2] == org.name.value
  {
    Decimal.ParseShow(org.id.value);
  }

  /** The rows one page adds, and whether an organization of it raised. */
  datatype PageWrite = PageWrite(rows: seq<seq<string>>, raised: bool)

  /** The `for org in organizations` loop. */
  function WritePage(orgs: seq<Org>): PageWrite
    decreases |orgs|
  {
    if orgs == [] then PageWrite([], false)
    else
      match AccountCodeCell(orgs[0])
      case Raised => PageWrite([], true)
      case Returned(code) =>
        var rest := WritePage(orgs[1..]);
        var own := if Listed(orgs[0])
                   then [[code, Decimal.Show(orgs[0].id.value), orgs[0].name.value]]
                   else [];
        PageWrite(own + rest.rows, rest.raised)
  }

  /** The organizations of `orgs` the loop reaches: those before the first
      one whose `organization_fields` is null. */
  function Reached(orgs: seq<Org>): (r: seq<Org>)
    ensures r <= orgs
    ensures forall k :: 0 <= k < |r| ==> !r[k].organizationFields.Null?
    ensures |r| < |orgs| ==> orgs[|r|].organizationFields.Null?
    decreases |orgs|
  {
    if orgs == [] || orgs[0].organizationFields.Null? then []
    else [orgs[0]] + Reached(orgs[1..])
  }

  /** Reference definition of the filter: the listed organizations, in order. */
  function Kept(orgs: seq<Org>): (r: seq<Org>)
    ensures |r| <= |orgs|
    ensures forall k :: 0 <= k < |r| ==> Listed(r[k])
    ensures (forall k :: 0 <= k < |orgs| ==> !orgs[k].organizationFields.Null?) ==>
              forall k :: 0 <= k < |r| ==> !r[k].organizationFields.Null?
    decreases |orgs|
  {
    if orgs == [] then []
    else (if Listed(orgs[0]) then [orgs[0]] else []) + Kept(orgs[1..])
  }

  /** The filter keeps exactly the listed organizations. */
  lemma {:induction false} KeptMembers(orgs: seq<Org>, o: Org)
    ensures o in Kept(orgs) <==> o in orgs && Listed(o)
    decreases |orgs|
  {
    if orgs != [] {
      KeptMembers(orgs[1..], o);
      assert o in orgs <==> o == orgs[0] || o in orgs[1..];
    }
  }

  /** The rows of `orgs`, one per organization, in order. */
  function RowsOf(orgs: seq<Org>): seq<seq<string>>
    requires forall k :: 0 <= k < |orgs| ==> Listed(orgs[k]) && !orgs[k].organizationFields.Null?
    decreases |orgs|
  {
    if orgs == [] then [] else [RowOf(orgs[0])] + RowsOf(orgs[1..])
  }

  /** A page raises exactly when some organization of it has null
      `organization_fields`. */
  lemma {:induction false} WritePageRaisesIffNullFields(orgs: seq<Org>)
    ensures WritePage(orgs).raised <==> |Reached(orgs)| < |orgs|
    decreases |orgs|
  {
    if orgs != [] && !orgs[0].organizationFields.Null? {
      WritePageRaisesIffNullFields(orgs[1..]);
    }
  }

  /** A page writes exactly one row per listed organization it reaches, in
      listing order. */
  lemma {:induction false} WritePageIsKeptRows(orgs: seq<Org>)
    ensures WritePage(orgs).rows == RowsOf(Kept(Reached(orgs)))
    decreases |orgs|
  {
    if orgs != [] && !orgs[0].organizationFields.Null? {
      WritePageIsKeptRows(orgs[1..]);
      var later := Kept(Reached(orgs[1..]));
      assert Reached(orgs) == [orgs[0]] + Reached(orgs[1..]);
      assert Reached(orgs)[1..] == Reached(orgs[1..]);
      if Listed(orgs[0]) {
        assert Kept(Reached(orgs)) == [orgs[0]] + later;
        assert ([orgs[0]] + later)[1..] == later;
      } else {
        assert Kept(Reached(orgs)) == later;
      }
    }
  }

  /** Why the crawl ended: a failed request, a page without organizations,
      `has_more` false, a falsy next link, or an exception. */
  datatype Stop = RequestFailure | NoOrganizations | LastPage | EmptyNextUrl | Exception

  /** What the crawl from one page on writes, how many next links it
      follows (`page_count` increments), and why it ends. */
  datatype Crawl = Crawl(rows: seq<seq<string>>, followed: nat, stop: Stop)

  /** `data.get('organizations', [])`: absent and null are both falsy, like the empty list. */
  function OrgList(organizations: Field<seq<Org>>): seq<Org>
  {
    if organizations.Present? then organizations.value else []
  }

  /** `data.get('meta', {}).get('has_more')` as a truth value; a null `meta` raises. */
  function HasMore(meta: Field<Meta>): Outcome<bool>
  {
    match meta
    case Absent => Returned(false)
    case Null => Raised
    case Present(m) => Returned(m.hasMore.Present? && m.hasMore.value)
  }

  /** `data['links']['next']`: a missing or null `links` or a missing `next`
      raises; a null `next` ends the loop like the empty string. */
  function NextUrl(links: Field<Links>): (r: Outcome<string>)
    ensures r.Raised? <==> !(links.Present? && !links.value.next.Absent?)
    ensures links.Present? && links.value.next.Null? ==> r == Returned("")
    ensures links.Present? && links.value.next.Present? ==> r == Returned(links.value.next.value)
  {
    match links
    case Present(l) =>
      (match l.next
       case Absent => Raised
       case Null => Returned("")
       case Present(url) => Returned(url))
    case _ => Raised
  }

  /** How the body of the `while` loop ends for one page: it stops the
      loop, or it follows `links.next` (a falsy link ends the loop after
      `page_count` has been incremented). */
  datatype PageEnd = Halt(stop: Stop) | Follow(url: string)

  /** The rows one page writes and how its iteration ends. */
  datatype PageRead = PageRead(rows: seq<seq<string>>, end: PageEnd)

  /** One iteration of the `while next_page_url` loop, given the request's
      result. Rows already written stay written whatever ends the loop. */
  function ReadPage(reply: PageReply): (r: PageRead)
    ensures r.end == Halt(RequestFailure) <==> reply.RequestFailed?
    ensures r.end == Halt(NoOrganizations) <==> reply.Page? && OrgList(reply.organizations) == []
    ensures r.end == Halt(LastPage) <==>
              && reply.Page? && OrgList(reply.organizations) != []
              && !WritePage(OrgList(reply.organizations)).raised
              && HasMore(reply.meta) == Returned(false)
    ensures r.end.Follow? <==>
              && reply.Page? && OrgList(reply.organizations) != []
              && !WritePage(OrgList(reply.organizations)).raised
              && HasMore(reply.meta) == Returned(true)
              && NextUrl(reply.links).Returned?
    ensures r.end.Follow? ==> r.end.url == NextUrl(reply.links).value
    ensures r.end == Halt(Exception) <==>
              && reply.Page? && OrgList(reply.organizations) != []
              && (|| WritePage(OrgList(reply.organizations)).raised
                  || HasMore(reply.meta).Raised?
                  || (HasMore(reply.meta) == Returned(true) && NextUrl(reply.links).Raised?))
    ensures reply.Page? && OrgList(reply.organizations) != [] ==>
              r.rows == WritePage(OrgList(reply.organizations)).rows
    ensures !(reply.Page? && OrgList(reply.organizations) != []) ==> r.rows == []
  {
    if reply.RequestFailed? then PageRead([], Halt(RequestFailure))
    else
      var orgs := OrgList(reply.organizations);
      if orgs == [] then PageRead([], Halt(NoOrganizations))
      else
        var w := WritePage(orgs);
        if w.raised then PageRead(w.rows, Halt(Exception))
        else
          match HasMore(reply.meta)
          case Raised => PageRead(w.rows, Halt(Exception))
          case Returned(more) =>
            if !more then PageRead(w.rows, Halt(LastPage))
            else
              match NextUrl(reply.links)
              case Raised => PageRead(w.rows, Halt(Exception))
              case Returned(url) => PageRead(w.rows, Follow(url))
  }

  /** The `while next_page_url` loop from the `k`-th request on. */
  function CrawlFrom(pages: seq<PageReply>, k: nat): Crawl
    requires k <= |pages|
    decreases |pages| - k
  {
    if k == |pages| then Crawl([], 0, RequestFailure)
    else
      var read := ReadPage(pages[k]);
      match read.end
      case Halt(stop) => Crawl(read.rows, 0, stop)
      case Follow(url) =>
        if |url| == 0 then Crawl(read.rows, 1, EmptyNextUrl)
        else
          var rest := CrawlFrom(pages, k + 1);
          Crawl(read.rows + rest.rows, rest.followed + 1, rest.stop)
  }

  /** The rows the `n` pages from the `k`-th on write, in page order. */
  ghost function PageRows(pages: seq<PageReply>, k: nat, n: nat): seq<seq<string>>
    requires k + n <= |pages|
    decreases n
  {
    if n == 0 then [] else ReadPage(pages[k]).rows + PageRows(pages, k + 1, n - 1)
  }

  /** The crawl writes the rows of the pages it fetches, page after page:
      the pages whose next link it followed, and the page it stopped on
      when there was one. */
  lemma {:induction false} CrawlRowsInPageOrder(pages: seq<PageReply>, k: nat)
    requires k <= |pages|
    ensures exists n :: && CrawlFrom(pages, k).followed <= n <= CrawlFrom(pages, k).followed + 1
                        && k + n <= |pages|
                        && CrawlFrom(pages, k).rows == PageRows(pages, k, n)
    decreases |pages| - k
  {
    var c := CrawlFrom(pages, k);
    if k == |pages| {
      assert c.rows == PageRows(pages, k, 0);
    } else {
      var read := ReadPage(pages[k]);
      if read.end.Halt? || |read.end.url| == 0 {
        assert PageRows(pages, k, 1) == read.rows + [];
        assert c.rows == PageRows(pages, k, 1);
      } else {
        CrawlRowsInPageOrder(pages, k + 1);
        var n :| && CrawlFrom(pages, k + 1).followed <= n <= CrawlFrom(pages, k + 1).followed + 1
                 && k + 1 + n <= |pages|
                 && CrawlFrom(pages, k + 1).rows == PageRows(pages, k + 1, n);
        assert c.rows == PageRows(pages, k, n + 1);
      }
    }
  }

  /** Every page whose next link the crawl followed was fetched and said
      `has_more`. */
  lemma {:induction false} FollowedPagesHadMore(pages: seq<PageReply>, k: nat, j: nat)
    requires k <= |pages|
    requires k <= j < k + CrawlFrom(pages, k).followed
    ensures j < |pages| && pages[j].Page? && HasMore(pages[j].meta) == Returned(true)
    ensures ReadPage(pages[j]).end.Follow?
    decreases j - k
  {
    var read := ReadPage(pages[k]);
    if j > k {
      FollowedPagesHadMore(pages, k + 1, j);
    }
  }

  /** Where the crawl ends: after a falsy next link on the last followed
      page, or on the page just after the followed ones, which halts the
      loop; when that page is past the server's last reply the request fails. */
  lemma {:induction false} CrawlStopsAfterFollowed(pages: seq<PageReply>, k: nat)
    requires k <= |pages|
    ensures var c := CrawlFrom(pages, k);
            if c.stop == EmptyNextUrl then
              && 0 < c.followed && k + c.followed <= |pages|
              && ReadPage(pages[k + c.followed - 1]).end == Follow("")
            else
              && k + c.followed <= |pages|
              && (k + c.followed == |pages| ==> c.stop == RequestFailure)
              && (k + c.followed < |pages| ==> ReadPage(pages[k + c.followed]).end == Halt(c.stop))
    decreases |pages| - k
  {
    if k < |pages| {
      var read := ReadPage(pages[k]);
      if read.end.Follow? && |read.end.url| > 0 {
        CrawlStopsAfterFollowed(pages, k + 1);
      }
    }
  }

  /** A page with organizations that does not raise, says `has_more` and
      links to a non-empty next URL is followed: its rows come first, then
      those of the crawl from the next request on, one more link followed. */
  lemma FollowsNextPage(pages: seq<PageReply>, k: nat)
    requires k < |pages| && pages[k].Page?
    requires OrgList(pages[k].organizations) != []
    requires !WritePage(OrgList(pages[k].organizations)).raised
    requires HasMore(pages[k].meta) == Returned(true)
    requires pages[k].links.Present? && pages[k].links.value.next.Present?
    requires |pages[k].links.value.next.value| > 0
    ensures CrawlFrom(pages, k).rows ==
              WritePage(OrgList(pages[k].organizations)).rows + CrawlFrom(pages, k + 1).rows
    ensures CrawlFrom(pages, k).followed == CrawlFrom(pages, k + 1).followed + 1
    ensures CrawlFrom(pages, k).stop == CrawlFrom(pages, k + 1).stop
  {
  }

  /** The first page of the listing, a hundred organizations per page. */
  function FirstPageUrl(domain: string): (url: string)
    ensures |url| > 0
  {
    "https://" + domain + "/api/v2/organizations.json?page[size]=100"
  }

  /** The `for org in organizations` loop, appending each row it writes to
      `written` and counting it in `total`. */
  method WriteOrganizations(organizations: seq<Org>, written: seq<seq<string>>, total: nat)
    returns (written': seq<seq<string>>, total': nat, raised: bool)
    ensures written' == written + WritePage(organizations).rows
    ensures total' == total + |WritePage(organizations).rows|
    ensures raised == WritePage(organizations).raised
  {
    written', total', raised := written, total, false;
    ghost var pageRows: seq<seq<string>> := [];
    var i := 0;
    while i < |organizations|
      invariant 0 <= i <= |organizations|
      invariant written' == written + pageRows
      invariant total' == total + |pageRows|
      invariant var w := WritePage(organizations[i..]);
                WritePage(organizations) == PageWrite(pageRows + w.rows, w.raised)
    {
      assert organizations[i..][0] == organizations[i];
      assert organizations[i..][1..] == organizations[i + 1..];
      var org := organizations[i];
      var accountCode := AccountCodeCell(org);
      if accountCode.Raised? {
        raised := true;
        return;
      }
      ghost var later := WritePage(organizations[i + 1..]);
      if org.id.Present? && org.id.value != 0 && org.name.Present? && |org.name.value| > 0 {
        var row := [accountCode.value, Decimal.Show(org.id.value), org.name.value];
        assert pageRows + [row] + later.rows == pageRows + ([row] + later.rows);
        written' := written' + [row];
        pageRows := pageRows + [row];
        total' := total' + 1;
      }
      i := i + 1;
    }
  }

  /** The body of the `while` loop: fetch-result checks, the rows of the
      page, then the `has_more` test and the next link. */
  method HandlePage(reply: PageReply, written: seq<seq<string>>, total: nat)
    returns (written': seq<seq<string>>, total': nat, end: PageEnd)
    ensures written' == written + ReadPage(reply).rows
    ensures total' == total + |ReadPage(reply).rows|
    ensures end == ReadPage(reply).end
  {
    written', total' := written, total;
    if reply.RequestFailed? {
      return written', total', Halt(RequestFailure);
    }
    var organizations := OrgList(reply.organizations);
    if organizations == [] {
      return written', total', Halt(NoOrganizations);
    }
    var raised;
    written', total', raised := WriteOrganizations(organizations, written, total);
    if raised {
      return written', total', Halt(Exception);
    }
    var more := HasMore(reply.meta);
    if more.Raised? {
      return written', total', Halt(Exception);
    }
    if !more.value {
      return written', total', Halt(LastPage);
    }
    var next := NextUrl(reply.links);
    if next.Raised? {
      return written', total', Halt(Exception);
    }
    end := Follow(next.value);
  }

  /** `generate_organizations_csv`: returns the rows written to the file,
      `total_orgs_processed`, `page_count`, and why the loop ended. */
  method GenerateOrganizationsCsv(domain: string, pages: seq<PageReply>)
    returns (written: seq<seq<string>>, totalOrgsProcessed: nat, pageCount: nat, stop: Stop)
    ensures written == [Header] + CrawlFrom(pages, 0).rows
    ensures pageCount == 1 + CrawlFrom(pages, 0).followed
    ensures stop == CrawlFrom(pages, 0).stop
    ensures totalOrgsProcessed == |written| - 1
  {
    var nextPageUrl := FirstPageUrl(domain);
    totalOrgsProcessed := 0;
    pageCount := 1;
    written := [Header];
    stop := LastPage;
    ghost var final := CrawlFrom(pages, 0);
    ghost var rest := final;
    while |nextPageUrl| > 0
      invariant 1 <= pageCount <= |pages| + 1
      invariant |written| >= 1 && totalOrgsProcessed == |written| - 1
      invariant written + rest.rows == [Header] + final.rows
      invariant pageCount + rest.followed == 1 + final.followed
      invariant rest.stop == final.stop
      invariant |nextPageUrl| > 0 ==> rest == CrawlFrom(pages, pageCount - 1)
      invariant |nextPageUrl| == 0 ==> rest == Crawl([], 0, stop)
      decreases |pages| + 1 - pageCount, |nextPageUrl|
    {
      if pageCount - 1 == |pages| {
        // the server has no reply left: the request fails
        stop := RequestFailure;
        assert written + [] == written;
        break;
      }
      ghost var read := ReadPage(pages[pageCount - 1]);
      ghost var before := written;
      var end;
      written, totalOrgsProcessed, end := HandlePage(pages[pageCount - 1], written, totalOrgsProcessed);
      if end.Halt? {
        stop := end.stop;
        assert rest == Crawl(read.rows, 0, end.stop);
        break;
      }
      if |end.url| > 0 {
        ghost var later := CrawlFrom(pages, pageCount);
        assert written + later.rows == before + read.rows + later.rows == before + (read.rows + later.rows);
        rest := later;
      } else {
        stop := EmptyNextUrl;
        rest := Crawl([], 0, stop);
      }
      nextPageUrl := end.url;
      pageCount := pageCount + 1;
    }
    assert written + [] == written;
  }
}
