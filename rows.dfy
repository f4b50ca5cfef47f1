/** One CSV row and what importing it does to the store: the cleaning of each cell
    (src/handler.py:28-101), the manager look-up (src/handler.py:46-74), the merged document
    and its upsert (src/handler.py:106-147) and the chain-of-command record
    (src/handler.py:150-163), stated as a relation between the store before and after. */
module Rows {
  import opened Wrappers
  import opened Text
  import opened Emails
  import opened Numbers
  import opened Dates
  import opened Users
  import opened Chains
  import opened Storage

  /** A CSV record. Name and Email are read with `row[...]`, so the file must have them; the
      other columns are `None` when the file has no such column. */
  datatype Row = Row(
    name: string,
    email: string,
    manager: Option<string>,
    salary: Option<string>,
    hireDate: Option<string>)

  /** What one row contributes to the response. */
  datatype RowReport = RowReport(errors: seq<string>, tally: Tally)

  function EmailError(i: nat): string {
    "Row " + NatToString(i) + " is missing a valid Email."
  }

  function ManagerError(i: nat): string {
    "Row " + NatToString(i) + " has an invalid manager's email."
  }

  function SalaryError(i: nat): string {
    "Row " + NatToString(i) + " is missing a valid Salary."
  }

  function HireDateError(i: nat): string {
    "Row " + NatToString(i) + " is missing a valid Hire Date."
  }

  function NameError(i: nat): string {
    "Row " + NatToString(i) + " is missing Name."
  }

  /** `row["Email"].lower().strip()`. */
  function EmailOf(row: Row): string {
    CleanEmail(row.email)
  }

  /** `row.get("Manager", "").lower().strip()`. */
  function ManagerCell(row: Row): string {
    CleanEmail(row.manager.GetOr(""))
  }

  /** The row names a manager by a well-formed e-mail. */
  predicate NamesManager(row: Row) {
    ManagerCell(row) != "" && IsValidEmail(ManagerCell(row))
  }

  /** The Manager cell is non-blank but not an e-mail. */
  predicate ManagerRejected(row: Row) {
    ManagerCell(row) != "" && !IsValidEmail(ManagerCell(row))
  }

  /** The Salary column is there but `int()` refuses its cell. */
  predicate SalaryRejected(row: Row) {
    row.salary.Some? && ParseInt(row.salary.value).None?
  }

  /** The Hire Date column is there but `strptime(..., '%m/%d/%Y')` refuses its cell. */
  predicate HireDateRejected(row: Row) {
    row.hireDate.Some? && ParseHireDate(row.hireDate.value).None?
  }

  function SalaryValue(row: Row): Option<int> {
    if row.salary.Some? then ParseInt(row.salary.value) else None
  }

  function HireDateValue(row: Row): Option<Date> {
    if row.hireDate.Some? then ParseHireDate(row.hireDate.value) else None
  }

  /** `is_active`: whether the hire date lies before the clock reading `now`; true when the
      row has no usable hire date. */
  function IsActiveValue(row: Row, now: Instant): (r: bool)
    ensures HireDateValue(row).None? ==> r
    ensures HireDateValue(row).Some? ==> (r <==> HiredBefore(HireDateValue(row).value, now))
  {
    match HireDateValue(row)
    case Some(d) => HiredBefore(d, now)
    case None => true
  }

  /** The manager's e-mail the row keeps: the cleaned Manager cell when it matches the
      pattern, nothing otherwise. */
  function ManagerValue(row: Row): (m: Option<string>)
    ensures m.Some? <==> NamesManager(row)
    ensures m.Some? ==> m.value == ManagerCell(row) && RegexMatch(m.value)
  {
    IsValidEmailCorrect(ManagerCell(row));
    if NamesManager(row) then Some(ManagerCell(row)) else None
  }

  /** The errors of the Manager, Salary and Hire Date cells, in that order. */
  function CellErrors(i: nat, row: Row): (r: seq<string>)
    ensures |r| == (if ManagerRejected(row) then 1 else 0) + (if SalaryRejected(row) then 1 else 0)
                   + (if HireDateRejected(row) then 1 else 0)
  {
    (if ManagerRejected(row) then [ManagerError(i)] else [])
    + (if SalaryRejected(row) then [SalaryError(i)] else [])
    + (if HireDateRejected(row) then [HireDateError(i)] else [])
  }

  /** Each cell error is reported exactly when its cell is refused, nothing else is
      reported, and the Manager error comes first and the Hire Date error last. With the
      length `CellErrors` states, this fixes the list. */
  lemma CellErrorsMeaning(i: nat, row: Row)
    ensures var r := CellErrors(i, row);
      && (ManagerError(i) in r <==> ManagerRejected(row))
      && (SalaryError(i) in r <==> SalaryRejected(row))
      && (HireDateError(i) in r <==> HireDateRejected(row))
      && (forall e :: e in r ==> e == ManagerError(i) || e == SalaryError(i) || e == HireDateError(i))
      && (ManagerRejected(row) ==> r[0] == ManagerError(i))
      && (HireDateRejected(row) ==> r[|r| - 1] == HireDateError(i))
  {
    CellMessagesDiffer(i);
    OptionalMessages(CellErrors(i, row), ManagerError(i), SalaryError(i), HireDateError(i),
                     ManagerRejected(row), SalaryRejected(row), HireDateRejected(row));
  }

  /** A list made of three different messages, each present or not, in a fixed order. */
  lemma OptionalMessages(r: seq<string>, m: string, s: string, h: string, pm: bool, ps: bool, ph: bool)
    requires m != s && m != h && s != h
    requires r == (if pm then [m] else []) + (if ps then [s] else []) + (if ph then [h] else [])
    ensures (m in r <==> pm) && (s in r <==> ps) && (h in r <==> ph)
    ensures forall e :: e in r ==> e == m || e == s || e == h
    ensures pm ==> r[0] == m
    ensures ph ==> r[|r| - 1] == h
  {
  }

  /** The three cell messages of a row are different strings: their lengths differ. */
  lemma CellMessagesDiffer(i: nat)
    ensures ManagerError(i) != SalaryError(i)
    ensures ManagerError(i) != HireDateError(i)
    ensures SalaryError(i) != HireDateError(i)
  {
    var n := NatToString(i);
    assert |ManagerError(i)| == |n| + 36;
    assert |SalaryError(i)| == |n| + 31;
    assert |HireDateError(i)| == |n| + 34;
  }

  /** The row once "Part 1: Clean the data" is done: whether the e-mail passed, the cleaned
      Name and Email, the manager's e-mail when the row names a valid one, the parsed Salary
      and Hire Date when valid, `is_active`, and the errors reported so far. */
  datatype Cleaned = Cleaned(
    emailOk: bool,
    name: string,
    email: string,
    manager: Option<string>,
    salary: Option<int>,
    hireDate: Option<Date>,
    isActive: bool,
    errors: seq<string>)

  /** Part 1 for row `i` at clock reading `now`. A row with an invalid e-mail reports that
      error alone; the source stops looking at such a row. */
  function Clean(i: nat, row: Row, now: Instant): (c: Cleaned)
    ensures c.email == EmailOf(row) && c.name == Strip(row.name)
    ensures c.emailOk <==> RegexMatch(c.email)
    ensures !c.emailOk ==> c.errors == [EmailError(i)]
    ensures c.emailOk ==> c.errors == CellErrors(i, row)
    ensures c.manager.Some? <==> NamesManager(row)
    ensures c.manager.Some? ==> c.manager.value == ManagerCell(row) && RegexMatch(c.manager.value)
    ensures c.salary == SalaryValue(row)
    ensures c.hireDate == HireDateValue(row)
    ensures c.hireDate.Some? ==> ValidDate(c.hireDate.value)
    ensures c.isActive <==> c.hireDate.None? || HiredBefore(c.hireDate.value, now)
  {
    IsValidEmailCorrect(EmailOf(row));
    var emailOk := IsValidEmail(EmailOf(row));
    Cleaned(
      emailOk,
      Strip(row.name),
      EmailOf(row),
      ManagerValue(row),
      SalaryValue(row),
      HireDateValue(row),
      IsActiveValue(row, now),
      if emailOk then CellErrors(i, row) else [EmailError(i)])
  }

  /** Find the manager by e-mail, inserting `{"normalized_email": m}` when there is none. */
  ghost function Resolve(b: Db, m: string): (Db, Id) {
    match Owner(b.users, m)
    case Some(id) => (b, id)
    case None => (b.(users := b.users[b.nextId := Placeholder(m)], nextId := b.nextId + 1), b.nextId)
  }

  /** The store and the `manager_id` of the row once its manager e-mail has been handled. */
  ghost function ManagerStep(b: Db, manager: Option<string>): (Db, Option<Id>) {
    match manager
    case Some(m) =>
      var r := Resolve(b, m);
      (r.0, Some(r.1))
    case None => (b, None)
  }

  /** The document the row writes, given the store after the manager step. */
  ghost function Document(mid: Db, c: Cleaned, manager: Option<Id>): User {
    Merge(StoredUser(mid.users, c.email), RowValues(c.name, c.email, manager, c.salary, c.hireDate, c.isActive))
  }

  /** "Part 2: Update the database" for cleaned row `i`: takes the store from `b` to `a` and
      reports `report`. A row whose e-mail failed changes nothing. Otherwise the manager is
      found or created; a row whose Name is blank then stops with its errors; any other
      row's merged document replaces the one holding its e-mail (or is inserted), and that
      user's chain-of-command record is replaced by a fresh one. */
  ghost predicate Apply(b: Db, i: nat, c: Cleaned, a: Db, report: RowReport) {
    if !c.emailOk then
      a == b && report == RowReport(c.errors, Uncounted)
    else
      var (mid, manager) := ManagerStep(b, c.manager);
      var doc := Document(mid, c, manager);
      if c.name == "" then
        a == mid && report == RowReport(c.errors + [NameError(i)], Uncounted)
      else
        var (after, u) := ReplaceOrInsert(mid, doc);
        && a.users == after.users && a.nextId == after.nextId
        && u in a.chains && a.chains == mid.chains[u := a.chains[u]]
        && CutChain(a.users, doc.managerId, a.chains[u])
        && report == RowReport(c.errors, TallyFor(StoredUser(mid.users, c.email)))
  }

  /** The accepted branch of `Apply`, stated on its parts. */
  lemma ApplyAccepted(b: Db, i: nat, c: Cleaned, mid: Db, manager: Option<Id>, after: Db, u: Id, a: Db, report: RowReport)
    requires c.emailOk && c.name != ""
    requires (mid, manager) == ManagerStep(b, c.manager)
    requires (after, u) == ReplaceOrInsert(mid, Document(mid, c, manager))
    requires a.users == after.users && a.nextId == after.nextId
    requires u in a.chains && a.chains == mid.chains[u := a.chains[u]]
    requires CutChain(a.users, Document(mid, c, manager).managerId, a.chains[u])
    requires report == RowReport(c.errors, TallyFor(StoredUser(mid.users, c.email)))
    ensures Apply(b, i, c, a, report)
  {
  }

  /** Finding or creating a manager leaves exactly one user with that e-mail and returns its
      id; a new one is a bare placeholder under a fresh id, and nothing else changes. */
  lemma ResolveSpec(b: Db, m: string)
    requires WellFormed(b)
    ensures var (d, id) := Resolve(b, m);
      && WellFormed(d)
      && Owner(d.users, m) == Some(id)
      && d.chains == b.chains
      && (Owner(b.users, m).Some? ==> d == b && id == Owner(b.users, m).value)
      && (Owner(b.users, m).None? ==>
            id !in b.users && id !in b.chains && d.users == b.users[id := Placeholder(m)])
  {
    var (d, id) := Resolve(b, m);
    OwnerIs(d.users, m, id);
  }

  /** Looking the same manager up twice creates at most one placeholder. */
  lemma ResolveIdempotent(b: Db, m: string)
    requires WellFormed(b)
    ensures Resolve(Resolve(b, m).0, m) == Resolve(b, m)
  {
    ResolveSpec(b, m);
  }

  /** The manager step keeps the unique index, every user and the chains, and yields the id
      of the user holding the manager's e-mail. */
  lemma ManagerStepSpec(b: Db, manager: Option<string>)
    requires WellFormed(b)
    ensures var (mid, id) := ManagerStep(b, manager);
      && WellFormed(mid)
      && mid.chains == b.chains
      && b.users.Keys <= mid.users.Keys && b.nextId <= mid.nextId
      && (forall x :: x in b.users ==> mid.users[x] == b.users[x])
      && (id.Some? <==> manager.Some?)
      && (id.Some? ==> Owner(mid.users, manager.value) == id)
      && (mid.users == b.users || (manager.Some? && Owner(b.users, manager.value).None?
            && mid.users == b.users[b.nextId := Placeholder(manager.value)]))
  {
    if manager.Some? {
      ResolveSpec(b, manager.value);
    }
  }

  /** The owner of an e-mail after the manager step: the one before, or the placeholder when
      the e-mail is the manager's own and nobody held it. */
  lemma OwnerAfterManagerStep(b: Db, manager: Option<string>, e: string)
    requires WellFormed(b)
    ensures var mid := ManagerStep(b, manager).0;
      && (Owner(b.users, e).Some? ==> Owner(mid.users, e) == Owner(b.users, e))
      && (Owner(b.users, e).None? && manager == Some(e) ==> Owner(mid.users, e) == Some(b.nextId))
      && (Owner(b.users, e).None? && manager != Some(e) ==> Owner(mid.users, e).None?)
  {
    ManagerStepSpec(b, manager);
    var mid := ManagerStep(b, manager).0;
    if Owner(b.users, e).Some? {
      OwnerIs(mid.users, e, Owner(b.users, e).value);
    } else if manager == Some(e) {
      OwnerIs(mid.users, e, b.nextId);
    }
  }

  /** A set inside another is no larger. */
  lemma SubsetSize<T>(x: set<T>, y: set<T>)
    requires x <= y
    ensures |x| <= |y|
  {
    assert y == x + (y - x);
    assert x * (y - x) == {};
  }

  /** A row keeps the unique index and never removes a user or changes a user's e-mail. */
  lemma ApplyKeepsUsers(b: Db, i: nat, c: Cleaned, a: Db, report: RowReport)
    requires WellFormed(b) && Apply(b, i, c, a, report)
    ensures WellFormed(a)
    ensures b.users.Keys <= a.users.Keys && b.nextId <= a.nextId
    ensures forall id :: id in b.users ==> a.users[id].email == b.users[id].email
  {
    if c.emailOk {
      ManagerStepSpec(b, c.manager);
      var (mid, manager) := ManagerStep(b, c.manager);
      if c.name != "" {
        ReplaceOrInsertSpec(mid, Document(mid, c, manager));
      }
    }
  }

  /** A row never shrinks the user collection, and one counted as created adds a user. */
  lemma ApplyGrowsUsers(b: Db, i: nat, c: Cleaned, a: Db, report: RowReport)
    requires WellFormed(b) && Apply(b, i, c, a, report)
    ensures |b.users| + (if report.tally == Created then 1 else 0) <= |a.users|
  {
    ApplyKeepsUsers(b, i, c, a, report);
    if report.tally == Created {
      ManagerStepSpec(b, c.manager);
      var (mid, manager) := ManagerStep(b, c.manager);
      var (after, u) := ReplaceOrInsert(mid, Document(mid, c, manager));
      ReplaceOrInsertSpec(mid, Document(mid, c, manager));
      OwnerAfterManagerStep(b, c.manager, c.email);
      assert u !in b.users;
      SubsetSize(b.users.Keys + {u}, a.users.Keys);
    } else {
      SubsetSize(b.users.Keys, a.users.Keys);
    }
  }

  /** An accepted row (valid e-mail, non-blank name) leaves exactly one user with its
      e-mail, under the id that held it before if any; that user has the row's name, hire
      date and activity, the row's salary and manager when valid and the stored ones
      otherwise, and the stored password. */
  lemma AcceptedRowUser(b: Db, i: nat, c: Cleaned, a: Db, report: RowReport)
    requires WellFormed(b) && Apply(b, i, c, a, report)
    requires c.emailOk && c.name != ""
    ensures Owner(a.users, c.email).Some?
    ensures var u := Owner(a.users, c.email).value;
      && (Owner(b.users, c.email).Some? ==> u == Owner(b.users, c.email).value)
      && a.users[u].name == Some(c.name)
      && a.users[u].hireDate == c.hireDate
      && a.users[u].isActive == Some(c.isActive)
      && (c.salary.Some? ==> a.users[u].salary == c.salary)
      && (c.salary.None? && u in b.users ==> a.users[u].salary == b.users[u].salary)
      && (c.manager.Some? ==>
            a.users[u].managerId.Some? && a.users[u].managerId == Owner(a.users, c.manager.value))
      && (c.manager.None? && u in b.users ==> a.users[u].managerId == b.users[u].managerId)
      && (u in b.users ==> a.users[u].hashedPassword == b.users[u].hashedPassword)
      && report.errors == c.errors
  {
    ManagerStepSpec(b, c.manager);
    var (mid, manager) := ManagerStep(b, c.manager);
    var doc := Document(mid, c, manager);
    ReplaceOrInsertSpec(mid, doc);
    OwnerAfterManagerStep(b, c.manager, c.email);
    if c.manager.Some? {
      OwnerIs(a.users, c.manager.value, manager.value);
    }
  }

  /** An accepted row leaves every other user's document as it was. The only other
      document it may add is the placeholder of a manager nobody held, under the fresh id
      `b.nextId`. */
  lemma AcceptedRowOthers(b: Db, i: nat, c: Cleaned, a: Db, report: RowReport)
    requires WellFormed(b) && Apply(b, i, c, a, report)
    requires c.emailOk && c.name != ""
    ensures Owner(a.users, c.email).Some?
    ensures var u := Owner(a.users, c.email).value;
      && (forall x :: x in b.users && x != u ==> x in a.users && a.users[x] == b.users[x])
      && a.users.Keys <= b.users.Keys + {u, b.nextId}
      && (b.nextId in a.users && b.nextId != u ==>
            c.manager.Some? && Owner(b.users, c.manager.value).None?
            && a.users[b.nextId] == Placeholder(c.manager.value))
      && (c.manager.Some? && Owner(b.users, c.manager.value).None? ==> b.nextId in a.users)
  {
    ManagerStepSpec(b, c.manager);
    var (mid, manager) := ManagerStep(b, c.manager);
    var doc := Document(mid, c, manager);
    ReplaceOrInsertSpec(mid, doc);
    OwnerAfterManagerStep(b, c.manager, c.email);
    if c.manager.Some? {
      OwnerIs(a.users, c.manager.value, manager.value);
    }
  }

  /** An accepted row gives the user holding its e-mail a fresh chain-of-command record:
      the walk up the managers from that user, which is the source's chain whenever the
      source's loop ends; every other record is untouched. */
  lemma AcceptedRowChain(b: Db, i: nat, c: Cleaned, a: Db, report: RowReport)
    requires WellFormed(b) && Apply(b, i, c, a, report)
    requires c.emailOk && c.name != ""
    ensures Owner(a.users, c.email).Some?
    ensures var u := Owner(a.users, c.email).value;
      && u in a.chains && CutChain(a.users, a.users[u].managerId, a.chains[u])
      && (Terminates(a.users, a.users[u].managerId) ==> IsChain(a.users, a.users[u].managerId, a.chains[u]))
      && a.chains.Keys == b.chains.Keys + {u}
      && (forall v :: v in b.chains && v != u ==> a.chains[v] == b.chains[v])
  {
    ManagerStepSpec(b, c.manager);
    var (mid, manager) := ManagerStep(b, c.manager);
    var doc := Document(mid, c, manager);
    ReplaceOrInsertSpec(mid, doc);
    var u := ReplaceOrInsert(mid, doc).1;
    CutChainIsChain(a.users, doc.managerId, a.chains[u]);
  }

  /** A row with an invalid e-mail changes nothing; a row with a blank name writes no user
      and no chain record, counts for nothing, and leaves at most the placeholder for its
      manager behind. */
  lemma DiscardedRowOutcome(b: Db, i: nat, c: Cleaned, a: Db, report: RowReport)
    requires WellFormed(b) && Apply(b, i, c, a, report)
    requires !c.emailOk || c.name == ""
    ensures a.chains == b.chains && report.tally == Uncounted
    ensures !c.emailOk ==> a == b && report.errors == c.errors
    ensures c.emailOk ==>
      && report.errors == c.errors + [NameError(i)]
      && (a.users == b.users || (c.manager.Some? && Owner(b.users, c.manager.value).None?
            && a.users == b.users[b.nextId := Placeholder(c.manager.value)]))
  {
    ManagerStepSpec(b, c.manager);
  }

  /** The id of the placeholder the manager step of a row with a valid e-mail inserts, if
      it inserts one. */
  ghost function NewPlaceholder(b: Db, c: Cleaned): set<Id> {
    if c.emailOk && c.manager.Some? && Owner(b.users, c.manager.value).None? then {b.nextId} else {}
  }

  /** The users `{"name": None}` matches after a row: those matched before plus the
      placeholder the row's manager step inserted, less the user an accepted row writes.
      Each of them is either a document the row left as it was or that new placeholder. */
  lemma NamelessAfterRow(b: Db, i: nat, c: Cleaned, a: Db, report: RowReport)
    requires WellFormed(b) && Apply(b, i, c, a, report)
    ensures c.emailOk && c.name != "" ==>
      && Owner(a.users, c.email).Some?
      && NamelessIds(a.users) == NamelessIds(b.users) + NewPlaceholder(b, c) - {Owner(a.users, c.email).value}
    ensures !(c.emailOk && c.name != "") ==> NamelessIds(a.users) == NamelessIds(b.users) + NewPlaceholder(b, c)
    ensures forall x :: x in NamelessIds(a.users) ==>
      || (x in b.users && a.users[x] == b.users[x])
      || (x == b.nextId && c.manager.Some? && a.users[x] == Placeholder(c.manager.value))
  {
    if c.emailOk && c.name != "" {
      AcceptedRowUser(b, i, c, a, report);
      AcceptedRowOthers(b, i, c, a, report);
      var u := Owner(a.users, c.email).value;
      NamelessReplaced(b.users, a.users, u, b.nextId, NewPlaceholder(b, c));
    } else {
      DiscardedRowOutcome(b, i, c, a, report);
    }
  }

  /** The nameless users after one document `u` is given a name and at most a placeholder
      `n` is added, every other document staying as it was. */
  lemma NamelessReplaced(bu: map<Id, User>, au: map<Id, User>, u: Id, n: Id, p: set<Id>)
    requires n !in bu && (p == {} || p == {n})
    requires u in au && !Nameless(au[u])
    requires forall x :: x in bu && x != u ==> x in au && au[x] == bu[x]
    requires au.Keys <= bu.Keys + {u, n}
    requires p == {n} ==> n in au && (n != u ==> Nameless(au[n]))
    requires n in au && n != u ==> p == {n}
    ensures NamelessIds(au) == NamelessIds(bu) + p - {u}
  {
    forall x ensures x in NamelessIds(au) <==> x in NamelessIds(bu) + p - {u} {
      if x == n {
        assert x !in NamelessIds(bu);
      }
    }
  }

  /** A row counts as created exactly when it is accepted and no user had its e-mail before
      (nor got it as the row's own manager placeholder), and as updated exactly when it is
      accepted and the user holding its e-mail already had a name. */
  lemma TallyMeaning(b: Db, i: nat, c: Cleaned, a: Db, report: RowReport)
    requires WellFormed(b) && Apply(b, i, c, a, report)
    ensures report.tally == Created <==>
      c.emailOk && c.name != "" && Owner(b.users, c.email).None? && c.manager != Some(c.email)
    ensures report.tally == Updated <==>
      && c.emailOk && c.name != "" && Owner(b.users, c.email).Some?
      && HasName(b.users[Owner(b.users, c.email).value])
  {
    if c.emailOk {
      ManagerStepSpec(b, c.manager);
      OwnerAfterManagerStep(b, c.manager, c.email);
    }
  }

  /** A row naming its own e-mail as its manager leaves a user who is their own manager:
      the source's chain-of-command loop never ends on it, while the walk that stops at a
      repeated id records that user alone. */
  lemma SelfManagedRow(b: Db, i: nat, c: Cleaned, a: Db, report: RowReport)
    requires WellFormed(b) && Apply(b, i, c, a, report)
    requires c.emailOk && c.name != "" && c.manager == Some(c.email)
    ensures Owner(a.users, c.email).Some?
    ensures var u := Owner(a.users, c.email).value;
      && a.users[u].managerId == Some(u)
      && !Terminates(a.users, Some(u))
      && a.chains[u] == [u]
  {
    AcceptedRowUser(b, i, c, a, report);
    AcceptedRowChain(b, i, c, a, report);
    var u := Owner(a.users, c.email).value;
    SelfManagedNeverEnds(a.users, u);
    SelfManagedCutChain(a.users, u, a.chains[u]);
  }
}
