/** `handle_csv_upload` (src/handler.py:15-187) as the imperative code it is: a loop over the
    rows that cleans each one and updates the store through its primitives. */
module Handler {
  import opened Wrappers
  import opened Text
  import opened Emails
  import opened Numbers
  import opened Dates
  import opened Users
  import opened Chains
  import opened Storage
  import opened Rows
  import opened Uploads

  /** Find the manager by e-mail, or insert a placeholder document holding only that e-mail,
      and return the manager's id. */
  method ResolveManager(db: Store, m: string) returns (id: Id)
    requires db.Valid()
    modifies db
    ensures db.Valid()
    ensures (db.Snapshot(), id) == Resolve(old(db.Snapshot()), m)
  {
    var found := db.FindUserByEmail(m);
    if found.Some? {
      id := found.value;
    } else {
      id := db.InsertUser(Placeholder(m));
    }
  }

  /** Collect the chain of command from `start`: each manager's id, then that manager's
      manager, until a user has none. The walk also stops before an id it has already
      collected, where the source's loop would go round forever. */
  method ChainOfCommand(db: Store, start: Option<Id>) returns (managers: seq<Id>)
    ensures CutChain(db.users, start, managers)
    ensures Terminates(db.users, start) ==> IsChain(db.users, start, managers)
  {
    managers := [];
    var manager := start;
    while manager.Some? && manager.value !in managers
      invariant manager.Some? ==> Linked(db.users, start, managers + [manager.value])
      invariant manager.None? ==> IsChain(db.users, start, managers)
      invariant Distinct(managers)
      invariant manager.Some? ==> forall k :: 0 <= k < |managers| ==> managers[k] in db.users
      decreases |db.users| + 1 - |managers|
    {
      DistinctBound(managers, db.users.Keys);
      managers := managers + [manager.value];
      var managerDocument := db.FindUserById(manager.value);
      manager := if managerDocument.Some? then managerDocument.value.managerId else None;
    }
    if manager.Some? {
      LinkedInit(db.users, start, managers, manager.value);
    }
    CutChainIsChain(db.users, start, managers);
  }

  /** The Manager cell: a blank cell names nobody; a well-formed e-mail is found or created
      as a user; anything else is reported. */
  method HandleManagerCell(db: Store, i: nat, row: Row) returns (manager: Option<Id>, errors: seq<string>)
    requires db.Valid()
    modifies db
    ensures db.Valid()
    ensures errors == if ManagerRejected(row) then [ManagerError(i)] else []
    ensures (db.Snapshot(), manager) ==
            ManagerStep(old(db.Snapshot()), ManagerValue(row))
  {
    var managerEmail := CleanEmail(row.manager.GetOr(""));
    manager, errors := None, [];
    if managerEmail != "" {
      if IsValidEmail(managerEmail) {
        var id := ResolveManager(db, managerEmail);
        manager := Some(id);
      } else {
        errors := [ManagerError(i)];
      }
    }
  }

  /** The Salary cell: `int()` of the cell when the column is there, an error when it
      refuses the cell. */
  method CleanSalary(i: nat, row: Row) returns (salary: Option<int>, errors: seq<string>)
    ensures salary == SalaryValue(row)
    ensures errors == if SalaryRejected(row) then [SalaryError(i)] else []
  {
    salary, errors := None, [];
    if row.salary.Some? {
      salary := ParseInt(row.salary.value);
      if salary.None? {
        errors := [SalaryError(i)];
      }
    }
  }

  /** The Hire Date cell and `is_active`: the parsed date when the column is there and the
      cell is valid, an error when it is not, and whether the date lies before `now`. */
  method CleanHireDate(i: nat, row: Row, now: Instant) returns (hireDate: Option<Date>, isActive: bool, errors: seq<string>)
    ensures hireDate == HireDateValue(row)
    ensures isActive == IsActiveValue(row, now)
    ensures errors == if HireDateRejected(row) then [HireDateError(i)] else []
  {
    hireDate, isActive, errors := None, true, [];
    if row.hireDate.Some? {
      hireDate := ParseHireDate(row.hireDate.value);
      match hireDate
      case Some(d) =>
        isActive := HiredBefore(d, now);
      case None =>
        errors := [HireDateError(i)];
    }
  }

  /** "Part 1: Clean the data" for a row whose e-mail passed: strip the name, handle the
      Manager cell, parse the salary and the hire date, and decide `is_active`, collecting
      the cells' errors. */
  method CleanCells(db: Store, i: nat, row: Row, now: Instant) returns (c: Cleaned, manager: Option<Id>)
    requires db.Valid() && IsValidEmail(EmailOf(row))
    modifies db
    ensures db.Valid()
    ensures c == Clean(i, row, now)
    ensures (db.Snapshot(), manager) == ManagerStep(old(db.Snapshot()), c.manager)
  {
    var name := Strip(row.name);
    var email := CleanEmail(row.email);
    var managerErrors;
    manager, managerErrors := HandleManagerCell(db, i, row);
    var salary, salaryErrors := CleanSalary(i, row);
    var hireDate, isActive, hireDateErrors := CleanHireDate(i, row, now);
    var errors := managerErrors + salaryErrors + hireDateErrors;
    assert errors == CellErrors(i, row);
    c := Cleaned(true, name, email, ManagerValue(row),
                 salary, hireDate, isActive, errors);
  }

  /** "Part 2: Update the database" for a cleaned row whose e-mail passed, once the manager
      step has taken the store from `b` to its present state: look the user up, merge, stop
      on a blank name, tally, upsert, and replace the chain-of-command record. */
  method UpdateDatabase(db: Store, i: nat, c: Cleaned, manager: Option<Id>, ghost b: Db) returns (report: RowReport)
    requires db.Valid() && WellFormed(b) && c.emailOk
    requires (db.Snapshot(), manager) == ManagerStep(b, c.manager)
    modifies db
    ensures db.Valid()
    ensures Apply(b, i, c, db.Snapshot(), report)
  {
    ghost var mid := db.Snapshot();
    var existingId := db.FindUserByEmail(c.email);
    var existing: Option<User> := None;
    if existingId.Some? {
      existing := db.FindUserById(existingId.value);
    }
    var doc := Merge(existing, RowValues(c.name, c.email, manager, c.salary, c.hireDate, c.isActive));
    assert existing == StoredUser(mid.users, c.email);

    if c.name == "" {
      report := RowReport(c.errors + [NameError(i)], Uncounted);
      return;
    }
    var tally := TallyFor(existing);

    ReplaceOrInsertSpec(mid, doc);
    var userId := db.FindOneAndReplace(doc);
    ghost var after := db.Snapshot();
    if existingId.Some? {
      db.DeleteChain(existingId.value);
      assert db.chains == mid.chains - {userId};
    } else {
      assert db.chains == mid.chains && userId !in mid.chains;
    }
    var managers := ChainOfCommand(db, doc.managerId);
    db.InsertChain(userId, managers);
    ChainReplaced(mid.chains, userId, managers);
    report := RowReport(c.errors, tally);
    assert doc == Document(mid, c, manager);
    ApplyAccepted(b, i, c, mid, manager, after, userId, db.Snapshot(), report);
  }

  /** Import row `i` at clock reading `now`. */
  method ProcessRow(db: Store, i: nat, row: Row, now: Instant) returns (report: RowReport)
    requires db.Valid()
    modifies db
    ensures db.Valid()
    ensures Apply(old(db.Snapshot()), i, Clean(i, row, now), db.Snapshot(), report)
  {
    var email := CleanEmail(row.email);
    if !IsValidEmail(email) {
      report := RowReport([EmailError(i)], Uncounted);
      return;
    }
    ghost var b := db.Snapshot();
    var c, manager := CleanCells(db, i, row, now);
    report := UpdateDatabase(db, i, c, manager, b);
  }

  /** The loop over the rows (src/handler.py:25-165): import each one in file order, row
      `i` reading the clock as `nows[i]`, and add what it reports to `response_body`. */
  method ImportRows(db: Store, rows: seq<Row>, nows: seq<Instant>)
    returns (body: ResponseBody, ghost trace: seq<Db>, ghost reports: seq<RowReport>)
    requires db.Valid()
    requires |nows| == |rows|
    modifies db
    ensures db.Valid()
    ensures UploadTrace(rows, nows, trace, reports)
    ensures trace[0] == old(db.Snapshot()) && trace[|rows|] == db.Snapshot()
    ensures body == BodyFor(reports)
  {
    body := ResponseBody(0, 0, []);
    ghost var cs := CleanAll(rows, nows);
    trace, reports := [db.Snapshot()], [];
    for i := 0 to |rows|
      invariant db.Valid()
      invariant |trace| == i + 1 && |reports| == i
      invariant trace[0] == old(db.Snapshot()) && trace[i] == db.Snapshot()
      invariant ApplyTrace(cs[..i], trace, reports)
      invariant body == BodyFor(reports)
    {
      var report := ProcessRow(db, i, rows[i], nows[i]);
      ApplyTraceExtend(cs, trace, reports, i, db.Snapshot(), report);
      body := Tallied(body, report);
      BodyForExtend(reports, report);
      trace, reports := trace + [db.Snapshot()], reports + [report];
    }
    assert cs[..|rows|] == cs;
  }

  /** `handle_csv_upload` on the parsed rows, row `k` reading the clock as `nows[k]`: every
      row in file order, then the count of users still without a name, then the response. */
  method HandleUpload(db: Store, rows: seq<Row>, nows: seq<Instant>)
    returns (response: Response, ghost trace: seq<Db>, ghost reports: seq<RowReport>)
    requires db.Valid()
    requires |nows| == |rows|
    modifies db
    ensures db.Valid()
    ensures UploadTrace(rows, nows, trace, reports)
    ensures trace[0] == old(db.Snapshot()) && trace[|rows|] == db.Snapshot()
    ensures response == ResponseFor(reports, |NamelessIds(db.users)|)
  {
    var body;
    body, trace, reports := ImportRows(db, rows, nows);
    var missingManagers := db.CountNameless();
    if missingManagers > 0 {
      body := body.(errors := body.errors + [MissingManagersError(missingManagers)]);
    }
    response := Response(200, body);
  }
}
