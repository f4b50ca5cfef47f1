/** The user document and the two pure decisions the importer takes about it per row: the
    merged document it writes (`row_for_database`, src/handler.py:112-123) and the tally it
    reports (src/handler.py:131-139). */
module Users {
  import opened Wrappers
  import opened Dates

  /** A document identifier (`_id`). The store hands them out from a counter. */
  type Id = nat

  /** The opaque credential bytes of `hashed_password`. */
  type Secret = seq<bv8>

  /** A document of the `user` collection. `None` stands for a key that is absent or null;
      the importer reads every key with `.get`, which does not tell the two apart. */
  datatype User = User(
    name: Option<string>,
    email: string,
    managerId: Option<Id>,
    salary: Option<int>,
    hireDate: Option<Date>,
    isActive: Option<bool>,
    hashedPassword: Option<Secret>)

  /** The document inserted for a manager met by e-mail only: `{"normalized_email": e}`. */
  function Placeholder(email: string): User {
    User(None, email, None, None, None, None, None)
  }

  /** `existing_user.get("name")` is truthy. */
  predicate HasName(u: User) {
    u.name.Some? && u.name.value != ""
  }

  /** The document matches the query `{"name": None}`. */
  predicate Nameless(u: User) {
    u.name.None?
  }

  /** The `row` dictionary once cleaned: the keys the cleaning deleted, or that the CSV did
      not have, are `None`. Name, Email and is_active are always present by then. */
  datatype RowValues = RowValues(
    name: string,
    email: string,
    manager: Option<Id>,
    salary: Option<int>,
    hireDate: Option<Date>,
    isActive: bool)

  /** `existing_user.get("Hire Date")`: documents keep the date under `hire_date`, and no
      document the importer or anyone else in the repository writes has a "Hire Date" key. */
  function StoredUnderHireDateKey(existing: Option<User>): Option<Date> {
    None
  }

  /** `row_for_database`: every key takes the row's value when the row has that key and
      falls back to the stored document's value otherwise; the password is always carried
      over. */
  function Merge(existing: Option<User>, row: RowValues): User {
    var stored := if existing.Some? then existing.value else Placeholder(row.email);
    User(
      Some(row.name),
      row.email,
      if row.manager.Some? then row.manager else stored.managerId,
      if row.salary.Some? then row.salary else stored.salary,
      if row.hireDate.Some? then row.hireDate else StoredUnderHireDateKey(existing),
      Some(row.isActive),
      stored.hashedPassword)
  }

  /** The name, e-mail and activity always come from the row; the stored name in particular
      never survives, even when the row's Name cell is empty. */
  lemma MergeTakesRowName(existing: Option<User>, row: RowValues)
    ensures Merge(existing, row).name == Some(row.name)
    ensures Merge(existing, row).email == row.email
    ensures Merge(existing, row).isActive == Some(row.isActive)
  {
  }

  /** A row without a usable salary or manager keeps the stored ones; a new user gets none. */
  lemma MergeKeepsStoredValues(existing: Option<User>, row: RowValues)
    ensures row.salary.None? && existing.Some? ==> Merge(existing, row).salary == existing.value.salary
    ensures row.manager.None? && existing.Some? ==> Merge(existing, row).managerId == existing.value.managerId
    ensures row.salary.None? && existing.None? ==> Merge(existing, row).salary.None?
    ensures row.manager.None? && existing.None? ==> Merge(existing, row).managerId.None?
    ensures existing.Some? ==> Merge(existing, row).hashedPassword == existing.value.hashedPassword
    ensures existing.None? ==> Merge(existing, row).hashedPassword.None?
  {
  }

  /** The stored hire date is never carried over: without a valid Hire Date cell the merged
      document has none, whatever was stored. */
  lemma MergeDropsStoredHireDate(existing: Option<User>, row: RowValues)
    requires row.hireDate.None?
    ensures Merge(existing, row).hireDate.None?
  {
  }

  /** Applying the same row twice gives the same document as applying it once. */
  lemma MergeIdempotent(existing: Option<User>, row: RowValues)
    ensures Merge(Some(Merge(existing, row)), row) == Merge(existing, row)
  {
  }

  /** The row that two successive rows for one e-mail amount to: the later row's values,
      except that a manager or salary it lacks is the earlier row's. The hire date is the
      later row's alone, because the stored one is never carried over. */
  function Overlay(earlier: RowValues, later: RowValues): RowValues {
    RowValues(
      later.name,
      later.email,
      if later.manager.Some? then later.manager else earlier.manager,
      if later.salary.Some? then later.salary else earlier.salary,
      later.hireDate,
      later.isActive)
  }

  /** Two successive uploads for one e-mail leave the document a single upload of the
      overlaid row would: the latest valid value of each field wins. */
  lemma MergeLatestWins(existing: Option<User>, earlier: RowValues, later: RowValues)
    requires later.email == earlier.email
    ensures Merge(Some(Merge(existing, earlier)), later) == Merge(existing, Overlay(earlier, later))
  {
  }

  /** What a row adds to the response counts. */
  datatype Tally = Created | Updated | Uncounted

  /** `numCreated` when no document had the e-mail, `numUpdated` when the document had a
      name, neither when it was a nameless placeholder. */
  function TallyFor(existing: Option<User>): (t: Tally)
    ensures t == Created <==> existing.None?
    ensures t == Updated <==> existing.Some? && HasName(existing.value)
    ensures t == Uncounted <==> existing.Some? && !HasName(existing.value)
  {
    if existing.None? then Created
    else if HasName(existing.value) then Updated
    else Uncounted
  }

  /** A placeholder being filled in is counted neither as created nor as updated. */
  lemma PlaceholderFillIsUncounted(email: string)
    ensures TallyFor(Some(Placeholder(email))) == Uncounted
  {
  }
}
