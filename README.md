# Zendesk ticket creator and organization exporter, modelled in Dafny

Two scripts drive a Zendesk helpdesk through its REST API. The model covers
the rules they apply between their HTTP calls and file accesses.

- **Ticket creator** (`zd_createtickets/create_tickets.py`). It reads a
  spreadsheet of `account code, organization id, subject, description` rows.
  For each organization it picks a requester: the first end-user whose email
  is not a no-reply, internal (`liferay.com`) or `broken` address. It then
  posts a ticket whose custom fields come from the `PRODUCT_CUSTOM_FIELDS`
  table entry of the configured product.
- **Organization exporter** (`zd_createtickets/get_organizations.py`). It
  pages through the organization listing and writes a header row. After that
  it writes one `[account code, id, name]` row per organization that has a
  truthy id and a truthy name.

Every reply of the API is an input to the model:

- The user listing and the ticket creation reply are functions in `Server`,
  keyed by the organization id or the ticket payload.
- The listing pages are a finite sequence. The k-th request receives
  `pages[k]`, and a request past the last page fails like a refused request.

A Python exception that reaches the scripts' generic `except Exception`
becomes an explicit outcome: `Raised`, `aborted` or `Exception`. JSON `dict.get`
is modelled by `Field = Absent | Null | Present(v)`, so a missing key and a
JSON null are told apart wherever the scripts treat them differently.

Modules:

- `Outcomes` (`outcomes.dfy`): `Option`, `Outcome`, `Field`.
- `Text` (`text.dfy`): `str.lower` and the substring test `p in s`, with a
  reference definition of an occurrence.
- `Decimal` (`decimal.dfy`): `str(n)` as the CSV writer renders an integer,
  and `int(s)` as the row loop parses an organization id.
- `CreateTickets` (`create_tickets.dfy`): requester selection, the product gate
  and payload, and the batch row loop.
  - `ProcessCsvFile` is a `while` loop proved equal to the specification
    function `BatchOutcome`.
- `GetOrganizations` (`get_organizations.dfy`): the row filter, the page reader
  and the pagination loop.
  - `GenerateOrganizationsCsv` is a `while` loop proved equal to the
    specification function `CrawlFrom`.

Two behaviours of the code are easy to misread, and the model states them as
written:

- A bad data row ends the whole batch, not just that row. This holds for a row
  whose organization id is not an integer and for a row with fewer than four
  columns. The exception from `int(row[1])` or from indexing reaches the
  handler around the loop (create_tickets.py:141-161), so no later row is
  processed. The same holds when the user-listing request itself fails: `getURL`
  (create_tickets.py:54-58) catches nothing.
- An organization is exported when its id and name are truthy
  (get_organizations.py:73). A null or missing id or name is skipped, and so
  are an id of 0 and an empty name.

## Model

| member | source | states |
|---|---|---|
| Text.Lower | zd_createtickets/create_tickets.py:83-84 | `email.lower()` keeps the length and leaves no upper-case ASCII letter; each upper-case letter becomes its lower-case letter in place, and every other character is unchanged |
| Text.VariantCaught | zd_createtickets/create_tickets.py:83-84 | every spelling of a pattern that lower-cases to it (`NoReply`, `NO-REPLY`, ...) is found in the lower-cased email |
| Text.ContainsIffOccurs | zd_createtickets/create_tickets.py:84 | the left-to-right search behind `p in s` succeeds exactly when `p` is a slice of `s` at some offset |
| Text.LowerKeepsLowerCaseOccurrence | zd_createtickets/create_tickets.py:83-84 | a lower-case pattern found in an email is still found at the same offset after lower-casing, so lower-casing only widens the `noreply` test |
| Decimal.ParseShow | zd_createtickets/get_organizations.py:74 | an integer id written to the CSV as `str(n)` reads back with `int()` as the same integer |
| Decimal.NoDigitNoInt | zd_createtickets/create_tickets.py:144 | `int(row[1])` fails on any cell without a decimal digit |
| CreateTickets.QualifiesIff | zd_createtickets/create_tickets.py:80-84 | a user qualifies exactly when: role is `end-user`; `noreply` and `no-reply` occur nowhere in the lower-cased email; `liferay.com` and `broken` occur nowhere in the email as written |
| CreateTickets.MissingEmailQualifies | zd_createtickets/create_tickets.py:80-84 | an end-user with no `email` key is read as having email `""` and qualifies |
| CreateTickets.NoReplyVariantPassedOver | zd_createtickets/create_tickets.py:83-84 | a user whose email holds any case variant of `noreply` or `no-reply` is passed over |
| CreateTickets.CapitalBrokenQualifies | zd_createtickets/create_tickets.py:84 | `broken` is matched case-sensitively: an end-user with email `Broken@x` qualifies |
| CreateTickets.CapitalNoReplyPassedOver | zd_createtickets/create_tickets.py:83-84 | `noreply` is matched case-insensitively: `NoReply@x` is passed over |
| CreateTickets.SelectRequester | zd_createtickets/create_tickets.py:79-88 | a returned requester id belongs to a qualifying user of the listing |
| CreateTickets.SelectsFirstQualifying | zd_createtickets/create_tickets.py:79-86 | a qualifying user preceded only by passed-over users is the one returned |
| CreateTickets.SelectedIsFirst | zd_createtickets/create_tickets.py:79-86 | a returned id is that of a qualifying user all of whose predecessors were passed over: the first match in listing order |
| CreateTickets.NoRequesterIffAllPassedOver | zd_createtickets/create_tickets.py:79-88 | the loop finds nobody exactly when every user is passed over |
| CreateTickets.RaisesIffNullEmailFirst | zd_createtickets/create_tickets.py:80-84 | selection raises exactly when a null email (on which `.lower()` fails) is reached before any qualifying user |
| CreateTickets.FetchRequester | zd_createtickets/create_tickets.py:77-91 | a failed request raises; a status other than 200 gives `None`; a returned id comes from a 200 reply and is the id of a qualifying user of its listing |
| CreateTickets.NoRequesterIff | zd_createtickets/create_tickets.py:77-91 | resolution gives `None` exactly when a reply came and either its status is not 200, its `users` key is missing, or every listed user is passed over |
| CreateTickets.ShippedTableNamesProducts | zd_createtickets/create_tickets.py:18-47 | every entry of the shipped table first sets the product field 360006076471 to the entry's own tag |
| CreateTickets.LrProductConfigured | zd_createtickets/create_tickets.py:38-50 | the shipped `lrProduct` has an entry, which sets only the product field |
| CreateTickets.BuildTicket | zd_createtickets/create_tickets.py:97-118 | no payload exactly when the tag is not in the table. Otherwise: `custom_fields` is the table entry; `status` is `new`; the comment is private; brand and form ids are the constants; submitter, requester, organization, subject and body pass through |
| CreateTickets.CreateTicket | zd_createtickets/create_tickets.py:93-133 | nothing is posted exactly when the product is not configured. Otherwise the posted payload is `BuildTicket`'s, and success means exactly status 201. Success reports the ticket id; failure reports the status and raw body |
| CreateTickets.HandleRow | zd_createtickets/create_tickets.py:143-156 | one loop iteration equals `ProcessRow`: it skips the row when there is no requester, and otherwise creates the ticket for `lrProduct` |
| CreateTickets.RowRaisesIff | zd_createtickets/create_tickets.py:143-149 | a row raises exactly when it has fewer than four columns, its organization id is not an integer, or requester resolution raises |
| CreateTickets.BadRowAbortsBatch | zd_createtickets/create_tickets.py:141-161 | a short data row, or one whose id is not an integer, ends the batch: exactly the rows before it yield events, and the batch reports the abort |
| CreateTickets.ProcessCsvFile | zd_createtickets/create_tickets.py:135-161 | the loop's result is exactly `BatchOutcome`: header skipped, rows in order, stopped by the first exception |
| CreateTickets.RunRowsPrefix | zd_createtickets/create_tickets.py:141-161 | row k's event is that row's own processing; the loop aborts exactly when it processed fewer rows than it was given, and then the first unprocessed row raises |
| CreateTickets.BatchSkipsHeader | zd_createtickets/create_tickets.py:139-141 | event k comes from file row k+1, so the header row never yields an event; the batch aborts exactly when not every data row was processed |
| CreateTickets.SkippedRowContinues | zd_createtickets/create_tickets.py:151-153 | a row without a requester is recorded as skipped, and the next row is still processed |
| CreateTickets.SkipIffNoRequester | zd_createtickets/create_tickets.py:143-153 | a row is skipped exactly when it has four columns, its id parses, and requester resolution gives `None` |
| CreateTickets.SubmittedToQualifyingUser | zd_createtickets/create_tickets.py:149-156 | every submitted ticket goes to a qualifying user from a 200 listing of the row's organization, with that organization and requester in its payload |
| CreateTickets.ShippedBatchAlwaysPosts | zd_createtickets/create_tickets.py:38-50 | with the shipped table and `lrProduct`, every submitted row passes the gate, and its ticket sets only the product field, to `prd_liferay_dxp_7_1` |
| CreateTickets.ConfiguredProductAlwaysPosts | zd_createtickets/create_tickets.py:155-156 | with a configured product, no submitted row is refused by the gate, and each carries that product's custom fields |
| GetOrganizations.AccountCodeCell | zd_createtickets/get_organizations.py:66-68 | the code cell is the `account_code` when present, `N/A` when it or `organization_fields` is missing, and empty for a null code; a null `organization_fields` raises |
| GetOrganizations.RowOf | zd_createtickets/get_organizations.py:74 | a data row has as many cells as the header |
| GetOrganizations.RowReadsBack | zd_createtickets/get_organizations.py:74 | a data row's cells are the account code, the id (reading back as the same integer) and the name |
| GetOrganizations.Reached | zd_createtickets/get_organizations.py:63-68 | the organizations the page loop reaches are a prefix; it stops exactly at the first null `organization_fields` |
| GetOrganizations.Kept | zd_createtickets/get_organizations.py:69-73 | the filter's result is no longer than its input and holds only organizations with a truthy id and name |
| GetOrganizations.KeptMembers | zd_createtickets/get_organizations.py:69-73 | an organization is kept exactly when it is in the page and has a truthy id and name |
| GetOrganizations.WritePageRaisesIffNullFields | zd_createtickets/get_organizations.py:63-68 | a page raises exactly when one of its organizations has null `organization_fields` |
| GetOrganizations.WritePageIsKeptRows | zd_createtickets/get_organizations.py:63-75 | a page writes exactly the rows of the kept organizations it reaches, one each, in listing order |
| GetOrganizations.NextUrl | zd_createtickets/get_organizations.py:79 | `data['links']['next']` raises exactly when `links` is missing or null or has no `next`; a null `next` reads as the empty URL, and a present one is the URL |
| GetOrganizations.ReadPage | zd_createtickets/get_organizations.py:50-83 | a request failure halts the loop exactly when the request failed. Missing, null or empty `organizations` halts it. It halts as the last page exactly when the page has organizations, does not raise and `has_more` is falsy; a missing `meta` counts as falsy. It follows a link exactly when the page has organizations, does not raise, `has_more` is truthy and `links.next` can be read, and the link it follows is `links.next`. It ends in an exception exactly when, on a page with organizations, an organization or `meta` raises, or `has_more` is truthy and `links.next` cannot be read. The page's rows are kept whatever ends the iteration |
| GetOrganizations.FollowsNextPage | zd_createtickets/get_organizations.py:78-80 | a page with organizations that does not raise, has a truthy `has_more` and a non-empty next link is followed: its rows, then the rows of the crawl from the next request, with one more link counted |
| GetOrganizations.CrawlRowsInPageOrder | zd_createtickets/get_organizations.py:48-83 | the rows written are the rows of the fetched pages, page after page: the followed pages, and possibly the page the loop stopped on |
| GetOrganizations.FollowedPagesHadMore | zd_createtickets/get_organizations.py:78-80 | every page whose next link was followed was fetched and had a truthy `has_more` |
| GetOrganizations.CrawlStopsAfterFollowed | zd_createtickets/get_organizations.py:48-83 | the loop ends on a falsy next link of the last followed page, or on the page right after the followed ones, which halts it; when that page is past the server's last reply, the request fails |
| GetOrganizations.FirstPageUrl | zd_createtickets/get_organizations.py:35 | the first URL is non-empty, so the loop runs at least once |
| GetOrganizations.WriteOrganizations | zd_createtickets/get_organizations.py:63-75 | the `for org` loop appends exactly `WritePage`'s rows, counts each in `total_orgs_processed`, and reports whether it raised |
| GetOrganizations.HandlePage | zd_createtickets/get_organizations.py:50-83 | one iteration of the `while` loop appends exactly `ReadPage`'s rows and ends as `ReadPage` says |
| GetOrganizations.GenerateOrganizationsCsv | zd_createtickets/get_organizations.py:27-92 | the output is the header then the crawl's rows. `total_orgs_processed` equals the number of data rows. `page_count` is one plus the number of links followed. The stop reason is the crawl's |

## Left out

- HTTP: `getURL`, `postURL` and `api_get_request` (create_tickets.py:54-68, get_organizations.py:12-25) are not modelled. Their results are inputs, and a user-listing request that fails before any reply is the input `GetFailed`. The URLs they would request are not consulted: the listing's pages are taken in order.
- JSON decoding is not modelled. `response.json()` failing, values of unexpected JSON types, and a missing `ticket.id` in a 201 reply are all left out.
- CSV reading and writing, opening the files, `FileNotFoundError` and `IOError` are not modelled. The rows read or written are values.
- Console output is left out: every `print`, including the ticket link printed on success.
- The `__main__` checks for placeholder credentials (create_tickets.py:164-171, get_organizations.py:95-100) are configuration guards and are left out.
- Termination of the real pagination is server-controlled. The server is a finite sequence of pages.
- Text.Lower: lower-cases ASCII letters only. `str.lower` also folds non-ASCII letters; the patterns it is compared with are ASCII.
- CreateTickets.SelectRequester: a user's `id` is assumed present and an integer. In the source, a qualifying user with a null `id` returns `None` (create_tickets.py:86), and the row is then skipped at line 151. A missing `id` raises. Neither case is modelled.
- Decimal.ParseShow: holds for integers of any size. CPython's `int()` and `str()` raise `ValueError` for values beyond 4300 digits, and the model does not have this limit. `Decimal.ParseInt` likewise accepts digit strings of any length.
- Decimal.NoDigitNoInt: `int()` also accepts non-ASCII digits and whitespace, which the model does not recognise.
- CreateTickets.CreateTicket: an exception while posting (network failure) is not modelled. The batch loop would report it and stop.
