/** A whole upload: rows imported one after another (src/handler.py:23-25), the count of
    managers never filled in (src/handler.py:172-181) and the response
    (src/handler.py:16-20, 183-187). */
module Uploads {
  import opened Wrappers
  import opened Numbers
  import opened Dates
  import opened Users
  import opened Storage
  import opened Rows

  /** `response_body`, before it is serialised. */
  datatype ResponseBody = ResponseBody(numCreated: nat, numUpdated: nat, errors: seq<string>)

  datatype Response = Response(statusCode: int, body: ResponseBody)

  function MissingManagersError(n: nat): string {
    "There are " + NatToString(n) + " Managers that do not appear in the file as users."
  }

  /** How many rows reported tally `t`. */
  function CountTally(reports: seq<RowReport>, t: Tally): nat {
    if reports == [] then 0
    else CountTally(reports[..|reports| - 1], t) + (if reports[|reports| - 1].tally == t then 1 else 0)
  }

  /** The rows' errors, row after row. */
  function RowErrors(reports: seq<RowReport>): seq<string> {
    if reports == [] then [] else RowErrors(reports[..|reports| - 1]) + reports[|reports| - 1].errors
  }

  /** `response_body` once one more row has reported. */
  function Tallied(body: ResponseBody, r: RowReport): ResponseBody {
    ResponseBody(
      body.numCreated + (if r.tally == Created then 1 else 0),
      body.numUpdated + (if r.tally == Updated then 1 else 0),
      body.errors + r.errors)
  }

  /** `response_body` after the rows that reported `reports`. */
  function BodyFor(reports: seq<RowReport>): ResponseBody {
    if reports == [] then ResponseBody(0, 0, [])
    else Tallied(BodyFor(reports[..|reports| - 1]), reports[|reports| - 1])
  }

  lemma BodyForExtend(reports: seq<RowReport>, r: RowReport)
    ensures BodyFor(reports + [r]) == Tallied(BodyFor(reports), r)
  {
    assert (reports + [r])[..|reports|] == reports;
  }

  /** The running body holds the tallies and the rows' errors. */
  lemma {:induction false} BodyForCounts(reports: seq<RowReport>)
    ensures BodyFor(reports) == ResponseBody(CountTally(reports, Created), CountTally(reports, Updated), RowErrors(reports))
  {
    if reports != [] {
      BodyForCounts(reports[..|reports| - 1]);
    }
  }

  /** The response for rows that reported `reports` when `nameless` users are left without a
      name: status 200, the tallies, the rows' errors and, when some manager never appeared
      as a user, one final error that says how many. */
  function ResponseFor(reports: seq<RowReport>, nameless: nat): (r: Response)
    ensures r.statusCode == 200
    ensures r.body.numCreated == CountTally(reports, Created)
    ensures r.body.numUpdated == CountTally(reports, Updated)
    ensures |RowErrors(reports)| <= |r.body.errors|
    ensures r.body.errors[..|RowErrors(reports)|] == RowErrors(reports)
    ensures nameless > 0 <==> |r.body.errors| == |RowErrors(reports)| + 1
    ensures nameless > 0 ==> r.body.errors[|RowErrors(reports)|] == MissingManagersError(nameless)
    ensures nameless == 0 ==> r.body.errors == RowErrors(reports)
  {
    BodyForCounts(reports);
    var body := BodyFor(reports);
    var errors := body.errors + (if nameless > 0 then [MissingManagersError(nameless)] else []);
    assert errors[..|body.errors|] == body.errors;
    Response(200, body.(errors := errors))
  }

  /** Every row cleaned, in file order; row `k` reads the clock as `nows[k]`. */
  function CleanAll(rows: seq<Row>, nows: seq<Instant>): (cs: seq<Cleaned>)
    requires |nows| == |rows|
    ensures |cs| == |rows|
    ensures forall k :: 0 <= k < |rows| ==> cs[k] == Clean(k, rows[k], nows[k])
  {
    seq(|rows|, k requires 0 <= k < |rows| => Clean(k, rows[k], nows[k]))
  }

  /** `trace[k]` is the store before cleaned row `k` is applied and `reports[k]` what that
      row reported. */
  ghost predicate ApplyTrace(cs: seq<Cleaned>, trace: seq<Db>, reports: seq<RowReport>) {
    && |trace| == |cs| + 1 && |reports| == |cs|
    && forall k :: 0 <= k < |cs| ==> Apply(trace[k], k, cs[k], trace[k + 1], reports[k])
  }

  /** A trace extended by one more applied row is a trace. */
  lemma ApplyTraceExtend(cs: seq<Cleaned>, trace: seq<Db>, reports: seq<RowReport>, i: nat, d: Db, r: RowReport)
    requires i < |cs| && ApplyTrace(cs[..i], trace, reports)
    requires Apply(trace[i], i, cs[i], d, r)
    ensures ApplyTrace(cs[..i + 1], trace + [d], reports + [r])
  {
    forall k | 0 <= k < i + 1
      ensures Apply((trace + [d])[k], k, cs[..i + 1][k], (trace + [d])[k + 1], (reports + [r])[k])
    {
      if k < i {
        assert (trace + [d])[k] == trace[k] && (trace + [d])[k + 1] == trace[k + 1];
        assert cs[..i + 1][k] == cs[..i][k] && (reports + [r])[k] == reports[k];
      }
    }
  }

  /** The stores and reports of importing `rows`, one row after another, row `k` reading
      the clock as `nows[k]`. */
  ghost predicate UploadTrace(rows: seq<Row>, nows: seq<Instant>, trace: seq<Db>, reports: seq<RowReport>) {
    |nows| == |rows| && ApplyTrace(CleanAll(rows, nows), trace, reports)
  }

  /** Across an upload the unique index holds, no user disappears or changes e-mail, and the
      user collection grows by at least the number of users counted as created. */
  lemma {:induction false} UploadKeepsUsers(cs: seq<Cleaned>, trace: seq<Db>, reports: seq<RowReport>, k: nat)
    requires ApplyTrace(cs, trace, reports) && WellFormed(trace[0])
    requires k <= |cs|
    ensures WellFormed(trace[k])
    ensures trace[0].users.Keys <= trace[k].users.Keys && trace[0].nextId <= trace[k].nextId
    ensures forall id :: id in trace[0].users ==> trace[k].users[id].email == trace[0].users[id].email
    ensures |trace[0].users| + CountTally(reports[..k], Created) <= |trace[k].users|
  {
    if k > 0 {
      UploadKeepsUsers(cs, trace, reports, k - 1);
      ApplyKeepsUsers(trace[k - 1], k - 1, cs[k - 1], trace[k], reports[k - 1]);
      ApplyGrowsUsers(trace[k - 1], k - 1, cs[k - 1], trace[k], reports[k - 1]);
      assert reports[..k][..k - 1] == reports[..k - 1];
    }
  }

  /** Once a row with a valid e-mail and a non-blank name has been imported, its e-mail
      belongs to a user with a name for the rest of the upload, so the final count of users
      without a name never counts it. */
  lemma {:induction false} AcceptedRowsStay(cs: seq<Cleaned>, trace: seq<Db>, reports: seq<RowReport>, j: nat, k: nat)
    requires ApplyTrace(cs, trace, reports) && WellFormed(trace[0])
    requires j < k <= |cs|
    requires cs[j].emailOk && cs[j].name != ""
    ensures Owner(trace[k].users, cs[j].email).Some?
    ensures Owner(trace[k].users, cs[j].email).value !in NamelessIds(trace[k].users)
  {
    UploadKeepsUsers(cs, trace, reports, k - 1);
    if k == j + 1 {
      NamelessAfterRow(trace[j], j, cs[j], trace[k], reports[j]);
    } else {
      AcceptedRowsStay(cs, trace, reports, j, k - 1);
      var u := Owner(trace[k - 1].users, cs[j].email).value;
      ApplyKeepsUsers(trace[k - 1], k - 1, cs[k - 1], trace[k], reports[k - 1]);
      OwnerIs(trace[k].users, cs[j].email, u);
      NamelessAfterRow(trace[k - 1], k - 1, cs[k - 1], trace[k], reports[k - 1]);
    }
  }

  /** Every user without a name at any point of an upload is either a document the upload
      has not touched or a bare placeholder the upload inserted for a manager. */
  lemma {:induction false} NamelessOrigin(cs: seq<Cleaned>, trace: seq<Db>, reports: seq<RowReport>, k: nat)
    requires ApplyTrace(cs, trace, reports) && WellFormed(trace[0])
    requires k <= |cs|
    ensures forall x :: x in NamelessIds(trace[k].users) ==>
      || (x in trace[0].users && trace[k].users[x] == trace[0].users[x])
      || (x !in trace[0].users && trace[k].users[x] == Placeholder(trace[k].users[x].email))
  {
    if k > 0 {
      NamelessOrigin(cs, trace, reports, k - 1);
      UploadKeepsUsers(cs, trace, reports, k - 1);
      NamelessAfterRow(trace[k - 1], k - 1, cs[k - 1], trace[k], reports[k - 1]);
    }
  }

  /** Whether row `c`, reaching the store `b`, earns tally `t`: created when it is accepted,
      no user held its e-mail and it does not name itself as manager; updated when it is
      accepted and the user holding its e-mail has a name; uncounted otherwise. */
  ghost predicate EarnsTally(b: Db, c: Cleaned, t: Tally) {
    var created := c.emailOk && c.name != "" && Owner(b.users, c.email).None? && c.manager != Some(c.email);
    var updated := c.emailOk && c.name != "" && Owner(b.users, c.email).Some?
      && HasName(b.users[Owner(b.users, c.email).value]);
    match t
    case Created => created
    case Updated => updated
    case Uncounted => !created && !updated
  }

  /** How many of the first `k` rows of a trace earn tally `t`. */
  ghost function CountEarning(cs: seq<Cleaned>, trace: seq<Db>, k: nat, t: Tally): nat
    requires k <= |cs| && k < |trace|
  {
    if k == 0 then 0
    else CountEarning(cs, trace, k - 1, t) + (if EarnsTally(trace[k - 1], cs[k - 1], t) then 1 else 0)
  }

  /** `numCreated` and `numUpdated` count what they say: the response's tally `t` is the
      number of rows that earned it, judged on the store each row found. */
  lemma {:induction false} TallyCounts(cs: seq<Cleaned>, trace: seq<Db>, reports: seq<RowReport>, k: nat, t: Tally)
    requires ApplyTrace(cs, trace, reports) && WellFormed(trace[0])
    requires k <= |cs|
    ensures CountTally(reports[..k], t) == CountEarning(cs, trace, k, t)
  {
    if k > 0 {
      TallyCounts(cs, trace, reports, k - 1, t);
      UploadKeepsUsers(cs, trace, reports, k - 1);
      TallyMeaning(trace[k - 1], k - 1, cs[k - 1], trace[k], reports[k - 1]);
      assert reports[..k][..k - 1] == reports[..k - 1];
    }
  }
}
