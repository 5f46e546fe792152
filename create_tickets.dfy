/** The ticket creator: for every data row of the input spreadsheet, find a
    requester among the organization's users and submit a ticket carrying the
    configured product's custom fields. Replies of the helpdesk API are inputs
    (`Server`); printing is not modelled. */
module CreateTickets {
  import opened Outcomes
  import opened Text
  import Decimal

  // ---------------------------------------------------------------------
  // Requester selection (fetch_user_id_from_org)
  // ---------------------------------------------------------------------

  /** A user record of the organization's user listing. */
  datatype User = User(id: int, email: Field<string>, role: Field<string>)

  /** The reply to `GET /api/v2/organizations/{id}/users.json`, or a request
      that failed before any reply (`getURL` catches nothing, so the
      exception propagates). */
  datatype UsersReply =
    | UsersReply(status: int, users: Field<seq<User>>)
    | GetFailed

  /** `user.get('email', '')` as text, or `None` when the email is JSON null,
      on which `.lower()` raises. */
  function EmailOf(u: User): Option<string>
  {
    match u.email
    case Absent => Some("")
    case Null => None
    case Present(e) => Some(e)
  }

  /** The exclusion patterns: `noreply` and `no-reply` in the lower-cased
      email, `liferay.com` and `broken` in the email as written. */
  predicate Excluded(email: string)
  {
    || Contains(Lower(email), "noreply")
    || Contains(Lower(email), "no-reply")
    || Contains(email, "liferay.com")
    || Contains(email, "broken")
  }

  /** `user.get('role') == 'end-user'`. */
  predicate IsEndUser(u: User)
  {
    u.role == Present("end-user")
  }

  /** The filter accepts `u` as requester. */
  predicate Qualifies(u: User)
  {
    EmailOf(u).Some? && !Excluded(EmailOf(u).value) && IsEndUser(u)
  }

  /** The filter looks at `u`, rejects it and goes on to the next user. */
  predicate PassedOver(u: User)
  {
    EmailOf(u).Some? && !Qualifies(u)
  }

  /** The filter in terms of occurrences: an end-user whose lower-cased
      email holds neither `noreply` nor `no-reply`, and whose email as
      written holds neither `liferay.com` nor `broken`. */
  lemma QualifiesIff(u: User)
    requires EmailOf(u).Some?
    ensures Qualifies(u) <==>
              var e := EmailOf(u).value;
              && IsEndUser(u)
              && (forall i :: !OccursAt(Lower(e), "noreply", i))
              && (forall i :: !OccursAt(Lower(e), "no-reply", i))
              && (forall i :: !OccursAt(e, "liferay.com", i))
              && (forall i :: !OccursAt(e, "broken", i))
  {
    var e := EmailOf(u).value;
    ContainsIffOccurs(Lower(e), "noreply");
    ContainsIffOccurs(Lower(e), "no-reply");
    ContainsIffOccurs(e, "liferay.com");
    ContainsIffOccurs(e, "broken");
  }

  /** An end-user without an `email` member is read as having the empty
      email, which no pattern occurs in. */
  lemma MissingEmailQualifies(u: User)
    requires u.email.Absent? && IsEndUser(u)
    ensures Qualifies(u)
  {
  }

  /** Every case variant of `noreply` or `no-reply` in an email (`NoReply`,
      `NO-REPLY`, ...) rules the user out. */
  lemma NoReplyVariantPassedOver(u: User, p: string, i: int)
    requires p == "noreply" || p == "no-reply"
    requires EmailOf(u).Some?
    requires 0 <= i && i + |p| <= |EmailOf(u).value|
    requires forall k :: 0 <= k < |p| ==> LowerChar(EmailOf(u).value[i + k]) == p[k]
    ensures PassedOver(u)
  {
    VariantCaught(EmailOf(u).value, p, i);
  }

  /** `broken` is matched as written: `Broken@x` qualifies. */
  lemma CapitalBrokenQualifies()
    ensures Qualifies(User(1, Present("Broken@x"), Present("end-user")))
  {
    LowerOfCapitalBroken();
    LowerCapitalBrokenHasNoPattern();
    CapitalBrokenHasNoPattern();
  }

  lemma LowerCapitalBrokenHasNoPattern()
    ensures !Contains("broken@x", "noreply") && !Contains("broken@x", "no-reply")
  {
    if Contains("broken@x", "noreply") { FoundCharsOccur("broken@x", "noreply", 'y'); }
    if Contains("broken@x", "no-reply") { FoundCharsOccur("broken@x", "no-reply", 'y'); }
  }

  lemma LowerOfCapitalBroken()
    ensures Lower("Broken@x") == "broken@x"
  {
  }

  lemma CapitalBrokenHasNoPattern()
    ensures !Contains("Broken@x", "liferay.com") && !Contains("Broken@x", "broken")
  {
    if Contains("Broken@x", "liferay.com") { FoundCharsOccur("Broken@x", "liferay.com", 'l'); }
    if Contains("Broken@x", "broken") { FoundCharsOccur("Broken@x", "broken", 'b'); }
  }

  /** `noreply` is matched after lower-casing: `NoReply@x` is passed over. */
  lemma CapitalNoReplyPassedOver()
    ensures PassedOver(User(3, Present("NoReply@x"), Present("end-user")))
  {
    assert Lower("NoReply@x") == "noreply@x";
    assert "noreply" <= "noreply@x";
  }

  /** The `for user in ...` loop with its early return: the id of the first
      user that qualifies, `None` after the last one, or the exception raised
      on a null email. */
  function SelectRequester(users: seq<User>): (r: Outcome<Option<int>>)
    ensures r.Returned? && r.value.Some? ==>
              exists k :: 0 <= k < |users| && Qualifies(users[k]) && users[k].id == r.value.value
    decreases |users|
  {
    if users == [] then Returned(None)
    else if EmailOf(users[0]).None? then Raised
    else if Qualifies(users[0]) then Returned(Some(users[0].id))
    else SelectRequester(users[1..])
  }

  /** Selection returns the first qualifying user in listing order: a user
      that qualifies after only passed-over users is the one returned. */
  lemma {:induction false} SelectsFirstQualifying(users: seq<User>, k: int)
    requires 0 <= k < |users| && Qualifies(users[k])
    requires forall j :: 0 <= j < k ==> PassedOver(users[j])
    ensures SelectRequester(users) == Returned(Some(users[k].id))
    decreases k
  {
    if k > 0 {
      assert PassedOver(users[0]);
      SelectsFirstQualifying(users[1..], k - 1);
    }
  }

  /** A returned requester is preceded only by users the filter passed over. */
  lemma {:induction false} SelectedIsFirst(users: seq<User>)
    requires SelectRequester(users).Returned? && SelectRequester(users).value.Some?
    ensures exists k :: && 0 <= k < |users|
                        && Qualifies(users[k])
                        && users[k].id == SelectRequester(users).value.value
                        && forall j :: 0 <= j < k ==> PassedOver(users[j])
    decreases |users|
  {
    if !Qualifies(users[0]) {
      SelectedIsFirst(users[1..]);
      var k :| && 0 <= k < |users[1..]|
               && Qualifies(users[1..][k])
               && users[1..][k].id == SelectRequester(users).value.value
               && forall j :: 0 <= j < k ==> PassedOver(users[1..][j]);
      assert forall j :: 0 <= j < k + 1 ==> PassedOver(users[j]) by {
        forall j | 0 < j < k + 1 ensures PassedOver(users[j]) {
          assert users[j] == users[1..][j - 1];
        }
      }
      assert Qualifies(users[k + 1]);
    } else {
      assert Qualifies(users[0]);
    }
  }

  /** Selection finds nobody exactly when the filter passes over every user. */
  lemma {:induction false} NoRequesterIffAllPassedOver(users: seq<User>)
    ensures SelectRequester(users) == Returned(None) <==>
              forall k :: 0 <= k < |users| ==> PassedOver(users[k])
    decreases |users|
  {
    if users != [] {
      NoRequesterIffAllPassedOver(users[1..]);
      if PassedOver(users[0]) {
        assert forall k :: 0 < k < |users| ==> users[k] == users[1..][k - 1];
      }
    }
  }

  /** Selection raises exactly when a null email comes before any qualifying user. */
  lemma {:induction false} RaisesIffNullEmailFirst(users: seq<User>)
    ensures SelectRequester(users) == Raised <==>
              exists k :: && 0 <= k < |users|
                          && EmailOf(users[k]).None?
                          && forall j :: 0 <= j < k ==> PassedOver(users[j])
    decreases |users|
  {
    if users != [] {
      RaisesIffNullEmailFirst(users[1..]);
      if EmailOf(users[0]).None? {
      } else if PassedOver(users[0]) {
        if SelectRequester(users[1..]) == Raised {
          var k :| && 0 <= k < |users[1..]|
                   && EmailOf(users[1..][k]).None?
                   && forall j :: 0 <= j < k ==> PassedOver(users[1..][j]);
          assert EmailOf(users[k + 1]).None?;
          forall j | 0 < j < k + 1 ensures PassedOver(users[j]) {
            assert users[j] == users[1..][j - 1];
          }
        } else {
          forall k | 0 <= k < |users| && EmailOf(users[k]).None?
            ensures exists j :: 0 <= j < k && !PassedOver(users[j])
          {
            assert k > 0;
            assert users[k] == users[1..][k - 1];
            var j :| 0 <= j < k - 1 && !PassedOver(users[1..][j]);
            assert users[1..][j] == users[j + 1];
          }
        }
      } else {
        forall k | 0 <= k < |users| && EmailOf(users[k]).None?
          ensures exists j :: 0 <= j < k && !PassedOver(users[j])
        {
          assert k > 0 && !PassedOver(users[0]);
        }
      }
    }
  }

  /** `fetch_user_id_from_org` once the request is made: a failed request
      raises; a status other than 200 gives `None`; a missing `users` member
      reads as the empty list; a null one raises when iterated. */
  function FetchRequester(reply: UsersReply): (r: Outcome<Option<int>>)
    ensures reply.GetFailed? ==> r == Raised
    ensures reply.UsersReply? && reply.status != 200 ==> r == Returned(None)
    ensures r.Returned? && r.value.Some? ==>
              && reply.UsersReply? && reply.status == 200 && reply.users.Present?
              && exists k :: && 0 <= k < |reply.users.value|
                            && Qualifies(reply.users.value[k])
                            && reply.users.value[k].id == r.value.value
  {
    if reply.GetFailed? then Raised
    else if reply.status != 200 then Returned(None)
    else
      match reply.users
      case Absent => Returned(None)
      case Null => Raised
      case Present(users) => SelectRequester(users)
  }

  /** Resolution gives `None` exactly when a reply came and its status is not
      200 or no user of the listing qualifies (and none raises on the way). */
  lemma NoRequesterIff(reply: UsersReply)
    ensures FetchRequester(reply) == Returned(None) <==>
              && reply.UsersReply?
              && (|| reply.status != 200
                  || reply.users.Absent?
                  || (reply.users.Present? &&
                      forall k :: 0 <= k < |reply.users.value| ==> PassedOver(reply.users.value[k])))
  {
    if reply.UsersReply? && reply.users.Present? {
      NoRequesterIffAllPassedOver(reply.users.value);
    }
  }

  // ---------------------------------------------------------------------
  // Ticket payload and product gate (create_ticket, PRODUCT_CUSTOM_FIELDS)
  // ---------------------------------------------------------------------

  datatype CustomField = CustomField(id: int, value: string)

  datatype Comment = Comment(htmlBody: string, isPublic: bool)

  /** The `ticket` object of the creation request. */
  datatype Ticket = Ticket(
    brandId: int,
    status: string,
    submitterId: string,
    requesterId: int,
    organizationId: int,
    subject: string,
    comment: Comment,
    ticketFormId: int,
    customFields: seq<CustomField>)

  const BrandId: int := 360000598252
  const TicketFormId: int := 360000077272
  /** The custom field that names the product. */
  const ProductFieldId: int := 360006076471
  const ServicesFieldId: int := 360021499771

  /** A product tag's custom fields, as in `PRODUCT_CUSTOM_FIELDS`. */
  type ProductTable = map<string, seq<CustomField>>

  /** The table as shipped: the custom fields each configured product tag
      sets on its tickets. */
  const ProductCustomFields: ProductTable := map[
    "prd_lxc_sm" := [CustomField(ProductFieldId, "prd_lxc_sm"),
                     CustomField(ServicesFieldId, "lxc_sm_services")],
    "prd_liferay_dxp_7_4" := [CustomField(ProductFieldId, "prd_liferay_dxp_7_4")],
    "prd_liferay_dxp_7_3" := [CustomField(ProductFieldId, "prd_liferay_dxp_7_3")],
    "prd_liferay_dxp_7_2" := [CustomField(ProductFieldId, "prd_liferay_dxp_7_2")],
    "prd_liferay_dxp_7_1" := [CustomField(ProductFieldId, "prd_liferay_dxp_7_1")]
  ]

  /** The product the batch creates tickets for (`lrProduct`). */
  const LrProduct: string := "prd_liferay_dxp_7_1"

  /** Every entry sets the product field first, to the entry's own tag. */
  predicate NamesProducts(table: ProductTable)
  {
    forall tag :: tag in table ==> |table[tag]| >= 1 && table[tag][0] == CustomField(ProductFieldId, tag)
  }

  /** The shipped table tags each ticket with its own product. */
  lemma ShippedTableNamesProducts()
    ensures NamesProducts(ProductCustomFields)
  {
  }

  /** The shipped product tag is configured, so the shipped batch never hits the gate. */
  lemma LrProductConfigured()
    ensures LrProduct in ProductCustomFields
    ensures ProductCustomFields[LrProduct] == [CustomField(ProductFieldId, LrProduct)]
  {
  }

  /** The payload `create_ticket` posts, or `None` when the product tag has
      no entry in the table and nothing is posted. */
  function BuildTicket(table: ProductTable, submitterId: string, subject: string, body: string,
                       requesterId: int, organizationId: int, productTag: string): (r: Option<Ticket>)
    ensures r.None? <==> productTag !in table
    ensures r.Some? ==>
              && r.value.customFields == table[productTag]
              && (NamesProducts(table) ==>
                    r.value.customFields[0] == CustomField(ProductFieldId, productTag))
              && r.value.status == "new"
              && !r.value.comment.isPublic
              && r.value.brandId == BrandId
              && r.value.ticketFormId == TicketFormId
              && r.value.submitterId == submitterId
              && r.value.requesterId == requesterId
              && r.value.organizationId == organizationId
              && r.value.subject == subject
              && r.value.comment.htmlBody == body
  {
    if productTag !in table then None
    else
      Some(Ticket(
        brandId := BrandId,
        status := "new",
        submitterId := submitterId,
        requesterId := requesterId,
        organizationId := organizationId,
        subject := subject,
        comment := Comment(htmlBody := body, isPublic := false),
        ticketFormId := TicketFormId,
        customFields := table[productTag]))
  }

  /** The reply to `POST /api/v2/tickets.json`: its status, its raw text and,
      on success, the new ticket's id. */
  datatype PostReply = PostReply(status: int, text: string, ticketId: int)

  /** What `create_ticket` reports: the product is not configured (nothing
      posted), the ticket was created, or the server refused it. */
  datatype TicketOutcome =
    | NotConfigured
    | Created(sent: Ticket, ticketId: int)
    | Failed(sent: Ticket, status: int, diagnostic: string)

  /** `create_ticket`, with `post` giving the server's reply to a payload. */
  function CreateTicket(table: ProductTable, submitterId: string, subject: string, body: string,
                        requesterId: int, organizationId: int, productTag: string,
                        post: Ticket -> PostReply): (r: TicketOutcome)
    ensures r.NotConfigured? <==> productTag !in table
    ensures !r.NotConfigured? ==>
              BuildTicket(table, submitterId, subject, body, requesterId, organizationId, productTag) == Some(r.sent)
    ensures r.Created? <==> !r.NotConfigured? && post(r.sent).status == 201
    ensures r.Created? ==> r.ticketId == post(r.sent).ticketId
    ensures r.Failed? ==> r.status == post(r.sent).status && r.diagnostic == post(r.sent).text
  {
    match BuildTicket(table, submitterId, subject, body, requesterId, organizationId, productTag)
    case None => NotConfigured
    case Some(ticket) =>
      var reply := post(ticket);
      if reply.status != 201 then Failed(ticket, reply.status, reply.text)
      else Created(ticket, reply.ticketId)
  }

  // ---------------------------------------------------------------------
  // Batch row loop (process_csv_file)
  // ---------------------------------------------------------------------

  /** The module-level configuration the batch reads: `user_submitter_id`,
      `lrProduct` and `PRODUCT_CUSTOM_FIELDS`. */
  datatype Settings = Settings(submitterId: string, product: string, productCustomFields: ProductTable)

  /** The configuration as shipped, before the operator fills in the placeholders. */
  const ShippedSettings: Settings := Settings("<USER_SUBMITTER_ID>", LrProduct, ProductCustomFields)

  /** The helpdesk API as the batch sees it: the user listing of an
      organization, and the reply to a ticket payload. */
  datatype Server = Server(users: int -> UsersReply, post: Ticket -> PostReply)

  /** What one data row did: skipped for want of a requester, or submitted. */
  datatype RowEvent =
    | Skipped(organizationId: int)
    | Submitted(organizationId: int, requesterId: int, outcome: TicketOutcome)

  /** The events of the rows processed, and whether an exception ended the loop. */
  datatype BatchResult = BatchResult(events: seq<RowEvent>, aborted: bool)

  /** One iteration of the row loop: `row[0]`, `int(row[1])`, `row[2]` and
      `row[3]` raise on a short row or a non-integer organization id. */
  function ProcessRow(row: seq<string>, settings: Settings, server: Server): Outcome<RowEvent>
  {
    if |row| < 2 then Raised
    else
      match Decimal.ParseInt(row[1])
      case None => Raised
      case Some(organizationId) =>
        if |row| < 4 then Raised
        else
          match FetchRequester(server.users(organizationId))
          case Raised => Raised
          case Returned(None) => Returned(Skipped(organizationId))
          case Returned(Some(requesterId)) =>
            Returned(Submitted(organizationId, requesterId,
              CreateTicket(settings.productCustomFields, settings.submitterId, row[2], row[3], requesterId,
                           organizationId, settings.product, server.post)))
  }

  /** A row raises exactly when it is short, its organization id is not an
      integer, or requester resolution raises. */
  lemma RowRaisesIff(row: seq<string>, settings: Settings, server: Server)
    ensures ProcessRow(row, settings, server) == Raised <==>
              || |row| < 4
              || Decimal.ParseInt(row[1]).None?
              || FetchRequester(server.users(Decimal.ParseInt(row[1]).value)) == Raised
  {
  }

  /** The data rows processed in order until one raises. */
  function RunRows(rows: seq<seq<string>>, settings: Settings, server: Server): BatchResult
    decreases |rows|
  {
    if rows == [] then BatchResult([], false)
    else
      match ProcessRow(rows[0], settings, server)
      case Raised => BatchResult([], true)
      case Returned(event) =>
        var rest := RunRows(rows[1..], settings, server);
        BatchResult([event] + rest.events, rest.aborted)
  }

  /** The whole file: its first row is the header and is never processed. */
  function BatchOutcome(file: seq<seq<string>>, settings: Settings, server: Server): BatchResult
  {
    if file == [] then BatchResult([], false) else RunRows(file[1..], settings, server)
  }

  /** The body of the row loop: read the columns, resolve the requester, and
      create the ticket, or skip the row when there is no requester. */
  method HandleRow(row: seq<string>, settings: Settings, server: Server)
    returns (r: Outcome<RowEvent>)
    ensures r == ProcessRow(row, settings, server)
  {
    if |row| < 2 {
      return Raised;
    }
    var parsed := Decimal.ParseInt(row[1]);
    if parsed.None? || |row| < 4 {
      return Raised;
    }
    var organizationId := parsed.value;
    var subject, description := row[2], row[3];
    var requester := FetchRequester(server.users(organizationId));
    if requester.Raised? {
      return Raised;
    }
    if requester.value.None? {
      return Returned(Skipped(organizationId));
    }
    var requesterId := requester.value.value;
    var outcome := CreateTicket(settings.productCustomFields, settings.submitterId, subject, description, requesterId,
                                organizationId, settings.product, server.post);
    r := Returned(Submitted(organizationId, requesterId, outcome));
  }

  /** `process_csv_file` over the rows the CSV reader yields: the header is
      skipped, and an exception in any row ends the loop. */
  method ProcessCsvFile(file: seq<seq<string>>, settings: Settings, server: Server)
    returns (result: BatchResult)
    ensures result == BatchOutcome(file, settings, server)
  {
    if file == [] {
      return BatchResult([], false);
    }
    var rows := file[1..];
    var events: seq<RowEvent> := [];
    var i := 0;
    while i < |rows|
      invariant 0 <= i <= |rows|
      invariant RunRows(rows, settings, server).events == events + RunRows(rows[i..], settings, server).events
      invariant RunRows(rows, settings, server).aborted == RunRows(rows[i..], settings, server).aborted
    {
      RunRowsStep(rows, i, settings, server);
      ghost var later := RunRows(rows[i + 1..], settings, server);
      var step := HandleRow(rows[i], settings, server);
      if step.Raised? {
        return BatchResult(events, true);
      }
      assert events + [step.value] + later.events == events + ([step.value] + later.events);
      events := events + [step.value];
      i := i + 1;
    }
    assert rows[i..] == [];
    result := BatchResult(events, false);
  }

  /** `RunRows` on a suffix, unfolded once. */
  lemma RunRowsStep(rows: seq<seq<string>>, i: int, settings: Settings, server: Server)
    requires 0 <= i < |rows|
    ensures var rest := RunRows(rows[i + 1..], settings, server);
            RunRows(rows[i..], settings, server) ==
              match ProcessRow(rows[i], settings, server)
              case Raised => BatchResult([], true)
              case Returned(e) => BatchResult([e] + rest.events, rest.aborted)
  {
    assert rows[i..][0] == rows[i] && rows[i..][1..] == rows[i + 1..];
  }

  /** The loop processes the data rows in order, one event per row, and stops
      exactly at the first row that raises; a row without a requester does not
      stop it. */
  lemma {:induction false} RunRowsPrefix(rows: seq<seq<string>>, settings: Settings, server: Server)
    ensures var r := RunRows(rows, settings, server);
            && |r.events| <= |rows|
            && (forall k :: 0 <= k < |r.events| ==>
                  ProcessRow(rows[k], settings, server) == Returned(r.events[k]))
            && (r.aborted <==> |r.events| < |rows|)
            && (r.aborted ==> ProcessRow(rows[|r.events|], settings, server) == Raised)
    decreases |rows|
  {
    if rows != [] {
      var first := ProcessRow(rows[0], settings, server);
      if first.Returned? {
        RunRowsPrefix(rows[1..], settings, server);
        var rest := RunRows(rows[1..], settings, server);
        var r := RunRows(rows, settings, server);
        assert r.events == [first.value] + rest.events && r.aborted == rest.aborted;
        forall k | 0 < k < |r.events|
          ensures ProcessRow(rows[k], settings, server) == Returned(r.events[k])
        {
          assert rows[k] == rows[1..][k - 1] && r.events[k] == rest.events[k - 1];
        }
        if r.aborted {
          assert rows[|r.events|] == rows[1..][|rest.events|];
        }
      }
    }
  }

  /** Every data row after the header is processed in file order until a row
      raises; the header row itself never yields an event. */
  lemma BatchSkipsHeader(file: seq<seq<string>>, settings: Settings, server: Server)
    ensures var r := BatchOutcome(file, settings, server);
            && |r.events| < |file| + (if file == [] then 1 else 0)
            && (forall k :: 0 <= k < |r.events| ==>
                  ProcessRow(file[k + 1], settings, server) == Returned(r.events[k]))
            && (r.aborted <==> |r.events| < |file| - 1)
  {
    if file != [] {
      RunRowsPrefix(file[1..], settings, server);
    }
  }

  /** A data row that is short or whose organization id is not an integer
      ends the batch: the rows before it are processed and none after it. */
  lemma BadRowAbortsBatch(file: seq<seq<string>>, settings: Settings, server: Server, k: int)
    requires 0 <= k < |file| - 1
    requires forall j :: 1 <= j <= k ==> ProcessRow(file[j], settings, server).Returned?
    requires |file[k + 1]| < 4 || Decimal.ParseInt(file[k + 1][1]).None?
    ensures BatchOutcome(file, settings, server).aborted
    ensures |BatchOutcome(file, settings, server).events| == k
  {
    var rows := file[1..];
    RunRowsPrefix(rows, settings, server);
    RowRaisesIff(rows[k], settings, server);
    assert forall j :: 0 <= j < k ==> rows[j] == file[1..][j];
  }

  /** A row whose organization yields no requester is skipped, posts nothing,
      and the rows after it are still processed when they do not raise. */
  lemma SkippedRowContinues(rows: seq<seq<string>>, settings: Settings, server: Server, k: int)
    requires 0 <= k < |rows|
    requires forall j :: 0 <= j <= k ==> ProcessRow(rows[j], settings, server).Returned?
    requires ProcessRow(rows[k], settings, server).value.Skipped?
    ensures k < |RunRows(rows, settings, server).events|
    ensures RunRows(rows, settings, server).events[k].Skipped?
    ensures k + 1 < |rows| && ProcessRow(rows[k + 1], settings, server).Returned? ==>
              k + 1 < |RunRows(rows, settings, server).events|
  {
    RunRowsPrefix(rows, settings, server);
  }

  /** A row is skipped exactly when its organization id parses, the row has
      all four columns and requester resolution gives `None`. */
  lemma SkipIffNoRequester(row: seq<string>, settings: Settings, server: Server)
    ensures ProcessRow(row, settings, server).Returned? && ProcessRow(row, settings, server).value.Skipped? <==>
              && |row| >= 4
              && Decimal.ParseInt(row[1]).Some?
              && FetchRequester(server.users(Decimal.ParseInt(row[1]).value)) == Returned(None)
  {
  }

  /** Every ticket the batch submits goes to a qualifying end-user of the
      row's own organization, and carries that organization and requester. */
  lemma SubmittedToQualifyingUser(file: seq<seq<string>>, settings: Settings, server: Server, k: int)
    requires 0 <= k < |BatchOutcome(file, settings, server).events|
    requires BatchOutcome(file, settings, server).events[k].Submitted?
    ensures var e := BatchOutcome(file, settings, server).events[k];
            var reply := server.users(e.organizationId);
            && reply.UsersReply? && reply.status == 200 && reply.users.Present?
            && (exists u :: u in reply.users.value && Qualifies(u) && u.id == e.requesterId)
            && (!e.outcome.NotConfigured? ==>
                  e.outcome.sent.requesterId == e.requesterId &&
                  e.outcome.sent.organizationId == e.organizationId)
  {
    BatchSkipsHeader(file, settings, server);
    var e := BatchOutcome(file, settings, server).events[k];
    var reply := server.users(e.organizationId);
    assert ProcessRow(file[k + 1], settings, server) == Returned(e);
    var i :| 0 <= i < |reply.users.value| && Qualifies(reply.users.value[i])
             && reply.users.value[i].id == e.requesterId;
    assert reply.users.value[i] in reply.users.value;
  }

  /** The shipped configuration: every submitted row passes the product gate
      and its ticket sets only the product field, to `lrProduct`. */
  lemma ShippedBatchAlwaysPosts(file: seq<seq<string>>, server: Server, k: int)
    requires 0 <= k < |BatchOutcome(file, ShippedSettings, server).events|
    requires BatchOutcome(file, ShippedSettings, server).events[k].Submitted?
    ensures !BatchOutcome(file, ShippedSettings, server).events[k].outcome.NotConfigured?
    ensures BatchOutcome(file, ShippedSettings, server).events[k].outcome.sent.customFields ==
              [CustomField(ProductFieldId, LrProduct)]
  {
    LrProductConfigured();
    ConfiguredProductAlwaysPosts(file, ShippedSettings, server, k);
  }

  /** With a configured product, no submitted row is refused by the product gate. */
  lemma ConfiguredProductAlwaysPosts(file: seq<seq<string>>, settings: Settings, server: Server, k: int)
    requires settings.product in settings.productCustomFields
    requires 0 <= k < |BatchOutcome(file, settings, server).events|
    requires BatchOutcome(file, settings, server).events[k].Submitted?
    ensures !BatchOutcome(file, settings, server).events[k].outcome.NotConfigured?
    ensures BatchOutcome(file, settings, server).events[k].outcome.sent.customFields ==
              settings.productCustomFields[settings.product]
  {
    BatchSkipsHeader(file, settings, server);
    assert ProcessRow(file[k + 1], settings, server) ==
           Returned(BatchOutcome(file, settings, server).events[k]);
  }
}
