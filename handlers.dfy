/**
 * The two route handlers of server.js: `POST /submit` (lines 35-53) and
 * `GET /submissions` (lines 56-89), each performing one operation on the
 * store and producing one response.
 */
module Handlers {
  import opened Wrappers
  import opened Store
  import opened Listing

  /** An HTTP response: a status with a body, or a redirect. */
  datatype Response =
    | Send(status: nat, body: string)
    | Redirect(status: nat, location: string)

  /** The request body's three fields; a field the client did not send is `None`. */
  datatype FormBody = FormBody(name: Option<string>, email: Option<string>, message: Option<string>)

  const MissingFieldsText: string := "Please provide name, email and message."
  const ServerErrorText: string := "Internal server error"
  /** Where a successful submission is sent back to. */
  const SavedLocation: string := "/?saved=1"
  /** Express's `res.redirect` default status, 302 Found. */
  const Found: nat := 302

  /** JavaScript truthiness of an optional string: present and not empty. */
  predicate Truthy(field: Option<string>) {
    field.Some? && field.value != ""
  }

  /** The validation of the submit handler: all three fields are truthy. */
  predicate AllPresent(body: FormBody) {
    Truthy(body.name) && Truthy(body.email) && Truthy(body.message)
  }

  /**
   * `POST /submit`.  A missing or empty field gives 400 and no store access;
   * otherwise one insert stamped `now`, whose failure (injected by
   * `insertFails`) gives 500, and whose success appends exactly one row and
   * redirects to `/?saved=1`.
   */
  method Submit(store: Store, body: FormBody, now: Timestamp, insertFails: bool)
    returns (resp: Response)
    requires store.Valid()
    modifies store
    ensures store.Valid()
    ensures resp.Send? && resp.status == 400 <==> !AllPresent(body)
    ensures !AllPresent(body) ==>
      resp == Send(400, MissingFieldsText) && store.rows == old(store.rows) && store.nextId == old(store.nextId)
    ensures AllPresent(body) && insertFails ==>
      resp == Send(500, ServerErrorText) && store.rows == old(store.rows) && store.nextId == old(store.nextId)
    ensures AllPresent(body) && !insertFails ==>
      && resp == Redirect(Found, SavedLocation)
      && store.rows == old(store.rows)
         + [Submission(old(store.nextId), body.name.value, body.email.value, body.message.value, now)]
      && forall i :: 0 <= i < |old(store.rows)| ==> old(store.rows)[i].id < old(store.nextId)
    ensures old(store.AllComplete()) ==> store.AllComplete()
  {
    if !AllPresent(body) {
      return Send(400, MissingFieldsText);
    }
    var id := store.Insert(body.name.value, body.email.value, body.message.value, now, insertFails);
    if id.None? {
      return Send(500, ServerErrorText);
    }
    resp := Redirect(Found, SavedLocation);
  }

  /**
   * `GET /submissions`.  A read failure (injected by `readFails`) gives 500;
   * otherwise the engine hands back `answer`, any list the query allows
   * (`SelectRecent` is one), and the response is 200 with the page rendered
   * from it, whose table holds exactly one `<tr>` per selected row.
   */
  method ListSubmissions(store: Store, answer: seq<Submission>, readFails: bool) returns (resp: Response)
    requires !readFails ==> IsRecentSelection(store.rows, answer)
    ensures readFails ==> resp == Send(500, ServerErrorText)
    ensures !readFails ==> resp.Send? && resp.status == 200
    ensures !readFails ==> resp.body == Page(answer)
    ensures !readFails ==> Occurrences(RowsHtml(answer), "<tr>") == Min(|store.rows|, ListLimit)
  {
    if readFails {
      return Send(500, ServerErrorText);
    }
    RowsHtmlOpenRows(answer);
    var html := RenderPage(answer);
    resp := Send(200, html);
  }

  /**
   * A submission stored after every earlier one, at a strictly later time,
   * heads the next listing, whichever answer the engine gives.
   */
  lemma SubmittedRowListedFirst(before: seq<Submission>, r: Submission, answer: seq<Submission>)
    requires forall i :: 0 <= i < |before| ==> before[i].createdAt < r.createdAt
    requires IsRecentSelection(before + [r], answer)
    ensures |answer| > 0 && answer[0] == r
  {
    AppendedIsNewest(before, r);
    NewestRowListedFirst(before + [r], answer, r);
  }

  /** A row stamped later than every stored row is the strictly newest once appended. */
  lemma AppendedIsNewest(before: seq<Submission>, r: Submission)
    requires forall i :: 0 <= i < |before| ==> before[i].createdAt < r.createdAt
    ensures r in before + [r]
    ensures forall x :: x in before + [r] && x != r ==> x.createdAt < r.createdAt
  {
    var rows := before + [r];
    assert rows[|before|] == r;
    forall x | x in rows && x != r ensures x.createdAt < r.createdAt {
      assert x in before;
    }
  }
}
