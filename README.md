# New-hire CSV import, modelled in Dafny

This project models `handle_csv_upload` from NewHireTest: the Lambda handler that
imports a CSV of employees into the `user` and `chain_of_command` collections. Each
row is handled in two parts.

1. Its cells are cleaned:
   - the Name is stripped;
   - the Email and Manager cells are lower-cased, stripped and checked against
     `^[a-z0-9._%+-]+@[a-z0-9.-]+\.[a-z]{2,}$`;
   - the Salary is parsed with `int()`;
   - the Hire Date is parsed with `strptime('%m/%d/%Y')`, which also decides
     `is_active`.
2. The store is updated:
   - the manager is found by e-mail, or inserted as a placeholder holding only that
     e-mail;
   - the row is merged with the stored document;
   - a row with a blank name is dropped;
   - the row is counted as created or updated;
   - the merged document is upserted by e-mail;
   - the user's chain-of-command record is rebuilt by following `manager_id` links.

After the rows, the handler counts the users still without a name and, when that count
is positive, adds one final error. The response always has status 200.

The model follows the source's structure:
- `Storage.Store` is a class holding the two collections as maps. Its fields are a fresh-id counter, `users` (by id, unique by e-mail) and `chains` (by user id). It exposes the Mongo primitives the handler calls.
- The handler (`Handler`) is imperative:
  - `HandleUpload` and `ImportRows` loop over the rows;
  - `ProcessRow`, `CleanCells` and `UpdateDatabase` do one row;
  - `ChainOfCommand` is the `while` loop that walks the managers.
- Each method is proved against a specification:
  - `Rows.Clean` is the pure cleaning;
  - `Rows.Apply` relates the store before and after one row;
  - `Uploads.UploadTrace` and `Uploads.ResponseFor` cover the whole upload.
- The pure parts of the source are functions with their own reference definitions:
  - the e-mail pattern is proved equal to an existential reading of the regular expression;
  - the date parser is proved equal to an existential reading of `%m/%d/%Y`;
  - `int()` and `Merge` (`row_for_database`) are functions as well.

The source's quirks are modelled as written:
- the stored name never survives;
- the hire-date fallback reads the key `"Hire Date"`, so a stored hire date is always dropped;
- `is_active` always comes from the row;
- a manager placeholder is created before the name check, so a dropped row can leave one behind;
- a placeholder being filled in is counted neither as created nor as updated.

## Model

| member | source | states |
|---|---|---|
| Text.TrimSpec | src/handler.py:28 | `str.strip()`, and the skipping of white space around a number in `int()`, leave the contiguous part of the cell between two runs of that white space, and that part begins and ends with a character outside it |
| Text.StripIdempotent | src/handler.py:28 | stripping a stripped cell changes nothing |
| Text.ToLower | src/handler.py:31 | `lower()` keeps the length and lower-cases each character in place (ASCII letters) |
| Emails.CheckPatternCorrect | src/handler.py:33-38 | the scan that splits at the first '@' and the last '.' accepts exactly the strings that split into a local part over `[a-z0-9._%+-]`, a domain over `[a-z0-9.-]`, and at least two letters after a final '.' |
| Emails.IsValidEmailCorrect | src/handler.py:33-38 | the check is `re.match` with the anchored pattern, including Python's `$` matching before a final newline |
| Emails.SingleAt | src/handler.py:35 | an accepted address holds exactly one '@' |
| Emails.CleanEmail | src/handler.py:31 | the cleaned e-mail is no longer than the cell, has no upper-case letter, and neither begins nor ends with white space |
| Emails.CleanEmailSpec | src/handler.py:31 | the cleaned e-mail is the cell's characters from some offset on, each lower-cased, with only white space in the cell before and after them |
| Emails.CleanEmailIdempotent | src/handler.py:31 | a stored `normalized_email` cleans to itself |
| Emails.CleanedEmailCheck | src/handler.py:31-38 | on a cleaned cell the check is exactly the anchored pattern |
| Emails.ExampleValidAddress | src/test_handler.py:93 | `bjones@performyard.com` passes the check |
| Emails.ExampleAddressWithoutAt | src/test_handler.py:299 | `jsmithperformyard.com` fails the check |
| Numbers.NatToStringValue | src/handler.py:41 | the row number written into a message reads back as the row number |
| Numbers.ParseIntRoundTrip | src/handler.py:79 | `int(str(n)) == n` for every integer |
| Numbers.ParseIntCharset | src/handler.py:79-80 | `int()` accepts a cell only if it is made of the white space `int()` skips, digits, signs and underscores |
| Numbers.NotANumber | src/test_handler.py:141 | the Salary cell `NOT A NUMBER` is refused |
| Numbers.UnitSeparatorIsNotANumber | src/handler.py:79-84 | a Salary cell starting with U+001F is refused by `int()`, although `str.strip()` would remove that character |
| Dates.ParseHireDateCorrect | src/handler.py:89-92 | the parser returns a date exactly when the cell spells it as `%m/%d/%Y` (month and day directives as Python's `_strptime` reads them, four-digit year, day valid for the month) |
| Dates.ParseFormatRoundTrip | src/handler.py:89-92 | every valid date written as `%m/%d/%Y` parses back to itself |
| Dates.ExampleHireDate | src/test_handler.py:94 | `07/16/2018` parses to 16 July 2018 |
| Dates.ExampleInvalidHireDate | src/test_handler.py:363 | `99/99/2018` is refused |
| Dates.HiredBeforeMeaning | src/handler.py:93 | a hire date before today makes the user active, one after today does not, and a hire date of today does so once midnight has passed |
| Users.MergeTakesRowName | src/handler.py:112-123 | the merged document always takes the row's name, e-mail and `is_active`, never the stored ones |
| Users.MergeKeepsStoredValues | src/handler.py:118-122 | without a valid manager or salary the stored one is kept (none for a new user); the password is always the stored one |
| Users.MergeDropsStoredHireDate | src/handler.py:120 | without a valid Hire Date the merged document has no hire date, whatever was stored |
| Users.MergeIdempotent | src/handler.py:112-123 | merging the same row into its own result changes nothing |
| Users.MergeLatestWins | src/handler.py:112-123 | two rows for one e-mail leave what one overlaid row would: the later row's values, with an earlier valid manager or salary filling a gap |
| Users.PlaceholderFillIsUncounted | src/handler.py:132-137 | filling in a manager placeholder counts for nothing |
| Chains.ChainUnique | src/handler.py:153-158 | the walk from a start has at most one result |
| Chains.ChainDistinct | src/handler.py:153-158 | a walk that ends never collects an id twice |
| Chains.ChainLength | src/handler.py:153-158 | a walk that ends collects at most one more id than there are users |
| Chains.ExhaustedWalkCycles | src/handler.py:155-158 | a walk that has collected more ids than there are users and can still go on never ends |
| Chains.TopManagerChain | src/handler.py:155-158 | a manager with no manager is the whole chain |
| Chains.CutChainIsChain | src/handler.py:153-158 | whenever the source's loop ends, the walk that also stops at a repeated id collects exactly the same list |
| Chains.SelfManagedNeverEnds | src/handler.py:155-158 | the source's loop never ends on a user who is their own manager |
| Chains.SelfManagedCutChain | src/handler.py:153-158 | the walk with the repeat check records a self-managed user alone |
| Storage.Owner | src/handler.py:58-60 | the user found by `normalized_email` holds that e-mail; none is found only when no user holds it |
| Storage.OwnerIs | src/handler.py:106-108 | under the unique e-mail index, the user holding an e-mail is the one found |
| Storage.ReplaceOrInsertSpec | src/handler.py:142-147 | the upsert writes the document under the id that held its e-mail, or under a fresh id; it touches no other user and keeps the unique index |
| Storage.Store.FindUserByEmail | src/handler.py:58-60 | returns the id of the user holding the e-mail |
| Storage.Store.InsertUser | src/handler.py:62-64 | inserts under a fresh id and changes nothing else |
| Storage.Store.FindOneAndReplace | src/handler.py:142-147 | performs the upsert above on the store |
| Storage.Store.DeleteChain | src/handler.py:151 | removes that user's chain record and nothing else |
| Storage.Store.InsertChain | src/handler.py:160-163 | adds the chain record of a user who had none and changes nothing else |
| Storage.Store.CountNameless | src/handler.py:174 | visits every stored document once and returns the number of users `{"name": None}` matches |
| Rows.CellErrors | src/handler.py:68-99 | as many errors as there are refused Manager, Salary and Hire Date cells |
| Rows.CellErrorsMeaning | src/handler.py:68-99 | each cell's message is reported exactly when that cell is refused, no other message is, and they come in the order Manager, Salary, Hire Date |
| Rows.Clean | src/handler.py:28-101 | the cleaned row: the e-mail passes exactly when it matches the pattern; the errors are the e-mail error alone, or the cell errors in order; a manager e-mail is kept only when it matches; a parsed date is a valid date; `is_active` follows the hire date |
| Rows.ResolveSpec | src/handler.py:58-67 | after resolving manager e-mail m, exactly one user holds m and its id is returned; a newly inserted one is a bare placeholder under a fresh id, and nothing else changes |
| Rows.ResolveIdempotent | src/handler.py:58-67 | resolving the same manager again adds no user and returns the same id |
| Rows.ManagerStepSpec | src/handler.py:46-74 | the Manager cell keeps every stored user and every chain; it yields an id exactly when the cell is a valid e-mail, and adds at most that manager's placeholder |
| Rows.OwnerAfterManagerStep | src/handler.py:58-108 | the document later found for the row's e-mail is the stored one, or the placeholder just made when the row names itself as manager |
| Rows.ApplyKeepsUsers | src/handler.py:103-163 | a row keeps the unique index and never removes a user or changes a user's e-mail |
| Rows.ApplyGrowsUsers | src/handler.py:139-147 | a row counted as created adds a user |
| Rows.AcceptedRowUser | src/handler.py:106-147 | for an accepted row, one user holds the e-mail, and it keeps its old id when it had one. That user has: the row's name, hire date and activity; the row's valid salary and manager, or the stored ones; and the stored password. The row reports only its cell errors |
| Rows.AcceptedRowOthers | src/handler.py:58-147 | an accepted row leaves every other user's document as it was; the only other document it can add is its manager's placeholder, under the fresh id |
| Rows.AcceptedRowChain | src/handler.py:150-163 | an accepted row gives that user a fresh chain-of-command record matching the walk up from its manager, which is the source's chain whenever the source's loop ends; other chain records are untouched |
| Rows.DiscardedRowOutcome | src/handler.py:39-129 | a row with an invalid e-mail changes nothing and reports one error. A row with a blank name: writes no user and no chain record; counts for nothing; reports its cell errors and the name error; leaves at most its manager's placeholder behind |
| Rows.NamelessAfterRow | src/handler.py:58-147 | after a row, `{"name": None}` matches the users it matched before plus the placeholder the row inserted, less the user an accepted row wrote; each is a document the row left alone or that placeholder |
| Rows.TallyMeaning | src/handler.py:131-139 | a row counts as created exactly when it is accepted and its e-mail was new (and not its own manager's placeholder); it counts as updated exactly when it is accepted and the user holding the e-mail had a name |
| Rows.SelfManagedRow | src/handler.py:46-158 | a row naming itself as manager leaves a user who manages themselves; the source's walk never ends on it, and the model records that user as the whole chain |
| Uploads.BodyForCounts | src/handler.py:16-139 | the running `response_body` holds the number of created rows, the number of updated rows, and every row's errors in row order |
| Uploads.ResponseFor | src/handler.py:172-187 | status 200; the tallies; the errors are the rows' errors in order, followed by one final error naming the count exactly when some user has no name |
| Uploads.TallyCounts | src/handler.py:131-139 | `numCreated` is the number of rows that were accepted, found no user with their e-mail and did not name themselves as manager; `numUpdated` the number that were accepted and found a user with a name |
| Uploads.UploadKeepsUsers | src/handler.py:25-163 | across an upload the unique index holds and no user disappears or changes e-mail; the user collection grows at least by the number of rows counted as created |
| Uploads.AcceptedRowsStay | src/handler.py:142-174 | once a row is accepted, its e-mail belongs to a user with a name for the rest of the upload, so the final count of users without a name never includes it |
| Uploads.NamelessOrigin | src/handler.py:172-174 | every user the final count includes is a document the upload did not touch or a bare placeholder it inserted for a manager |
| Handler.ResolveManager | src/handler.py:58-67 | finds the manager by e-mail or inserts the placeholder, as `Rows.Resolve` specifies |
| Handler.ChainOfCommand | src/handler.py:153-158 | collects ids from the manager, nearest first, without repeats. It stops where the source's loop stops, or just before an id already collected, and equals the source's chain whenever that loop ends |
| Handler.HandleManagerCell | src/handler.py:46-74 | the Manager cell's error and the store and `manager_id` after it, as `Rows.ManagerStep` specifies |
| Handler.CleanCells | src/handler.py:28-101 | computes `Rows.Clean` of the row while making the manager step on the store |
| Handler.UpdateDatabase | src/handler.py:103-163 | performs `Rows.Apply` on the store once the manager step is done |
| Handler.ProcessRow | src/handler.py:26-163 | one iteration of the row loop: the store changes as `Rows.Apply` on the cleaned row says |
| Handler.ImportRows | src/handler.py:25-163 | runs every row in file order, each with its own clock reading; each step of the trace is `Rows.Apply`, and the body accumulates the tallies and errors |
| Handler.HandleUpload | src/handler.py:15-187 | the whole handler: the trace of the rows, the final store, and the response `Uploads.ResponseFor` gives |

## Findings

| source | as written | input that shows it | evidently intended | confidence | as-written member | corrected member |
|---|---|---|---|---|---|---|
| src/handler.py:153-158 | `while manager:` follows `manager_id` links with no check for an id already collected | a file with header `Name,Email,Manager` and the one row `Al,al@x.com,al@x.com`; equally, two rows that name each other as manager | the walk ends, recording each manager once | high; not executed | Rows.SelfManagedRow | Handler.ChainOfCommand |

A row whose Manager cell is its own e-mail first creates the placeholder for that e-mail. The row's own look-up then finds this placeholder, so the upserted document has `manager_id` equal to its own id. `Chains.SelfManagedNeverEnds` shows that the loop at src/handler.py:155-158 never ends on it. The model's walk, `Handler.ChainOfCommand`, also stops before an id it has already collected. `Chains.CutChainIsChain` proves that this changes nothing on any input where the source's loop ends.

## Left out

- The MongoDB client and its configuration (src/handler.py:6-12) become the in-memory `Storage.Store`. Ids come from a counter rather than ObjectId, and the unique indexes become preconditions of `InsertUser` and `InsertChain`, which the handler always meets.
- `splitlines` and `csv.DictReader` (src/handler.py:23-25) are not modelled: the handler receives parsed rows.
- A file without a Name or an Email column is not modelled: the source raises `KeyError` at src/handler.py:28 or 31, while a `Rows.Row` always has both cells.
- A row shorter than its header gets `None` for its missing cells. A missing Name or Email cell makes the source raise `AttributeError` (src/handler.py:28, 31), which ends the handler and is not modelled. When both are present and the e-mail fails the pattern, the row is reported and skipped before any later cell is read, as the model does. When the e-mail passes, a missing Manager cell raises `AttributeError` (src/handler.py:46) and a missing Salary or Hire Date cell raises `TypeError` (src/handler.py:79, 89); these exceptions are not modelled either. A missing cell of any other column is never read.
- `json.dumps` (src/handler.py:185) is not modelled: the response body is a datatype.
- The debug prints (src/handler.py:165-170) have no effect on the result and are left out.
- `datetime.now()` is read at most once per row, and only when the row's Hire Date parses (src/handler.py:93). The readings are the parameter `nows` of the upload: `nows[k]` is row `k`'s reading, a date plus the microseconds elapsed since midnight, and it is unused for a row that never reads the clock.
- Text.ToLower: lower-cases ASCII letters only, not the rest of Unicode.
- Numbers.ParseIntRoundTrip: `int()` is modelled for ASCII digits, an optional sign, PEP 515 underscores, and the white space it skips at either end: TAB, LF, VT, FF, CR, SPACE and non-ASCII white space. Non-ASCII Unicode digits are not modelled.
- Numbers.ParseInt: the limit of 4300 digits that CPython 3.11 and later put on `int()` of a string is not modelled. A longer Salary cell is refused there with "is missing a valid Salary" and accepted here, and the round trip holds here for numbers of any length. Values that parse in both but do not fit in 64 bits also part ways, at the store (next line).
- Storage.Store.FindOneAndReplace: MongoDB stores integers in at most 64 bits, and the model stores any integer. A Salary that `int()` accepts but that lies outside [-2^63, 2^63-1] (such as `99999999999999999999`) makes the upsert at src/handler.py:142-147 raise `OverflowError` while encoding the document. The source does not catch that error (it catches only `ValueError`, at src/handler.py:80), so the upload ends there with no response. The rows before stay written, and that row's tally is never returned. The model instead stores the value and carries on.
- Dates.ParseHireDateCorrect: fields are read with ASCII digits only. Non-ASCII decimal digits, which `\d` in Python's `_strptime` also accepts, are not modelled.
- `hashed_password` is an opaque byte string, copied from the stored document.
- The test fixtures of src/test_handler.py (database set-up) are not modelled; the tests' concrete values appear as the example lemmas.
- Handler.ChainOfCommand: stops before an id it has already collected, where the source loops forever (see Findings). Wherever the source's loop ends, the two agree.
- Concurrency between uploads is not modelled: the handler is run as a single sequential call.
